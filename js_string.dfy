/**
 * The three JavaScript string operations the catalog search relies on:
 * String.prototype.trim, String.prototype.toLowerCase and
 * String.prototype.includes. Strings are sequences of Unicode scalar values.
 */
module JsString {

  /**
   * The code points that String.prototype.trim strips: the WhiteSpace and
   * LineTerminator productions of ECMA-262 (sections 12.2 and 12.3), that is
   * TAB, VT, FF, ZWNBSP, the Zs space separators, LF, CR, LS and PS.
   */
  predicate IsWhiteSpace(c: char) {
    c == '\t' || c == '\U{000B}' || c == '\U{000C}' || c == ' ' || c == '\U{00A0}'
    || c == '\U{FEFF}' || c == '\U{1680}' || ('\U{2000}' <= c <= '\U{200A}')
    || c == '\U{202F}' || c == '\U{205F}' || c == '\U{3000}'
    || c == '\n' || c == '\r' || c == '\U{2028}' || c == '\U{2029}'
  }

  ghost predicate AllWhiteSpace(s: string) {
    forall i :: 0 <= i < |s| ==> IsWhiteSpace(s[i])
  }

  /**
   * String.prototype.trim: `s` without its leading and trailing white space,
   * removed one code point at a time from either end. The result neither
   * starts nor ends with white space, and it is empty exactly when `s` is
   * white space only.
   */
  function Trim(s: string): (r: string)
    ensures |r| <= |s|
    ensures r == [] || (!IsWhiteSpace(r[0]) && !IsWhiteSpace(r[|r| - 1]))
    ensures r == [] <==> AllWhiteSpace(s)
    decreases |s|
  {
    if s != [] && IsWhiteSpace(s[0]) then
      assert AllWhiteSpace(s) <==> AllWhiteSpace(s[1..]);
      Trim(s[1..])
    else if s != [] && IsWhiteSpace(s[|s| - 1]) then
      assert AllWhiteSpace(s) <==> AllWhiteSpace(s[..|s| - 1]);
      Trim(s[..|s| - 1])
    else
      s
  }

  /** `r` is `s` with a white-space-only prefix and a white-space-only suffix cut off. */
  ghost predicate CutsWhiteSpace(s: string, r: string) {
    exists lo: nat, hi: nat :: TrimmedAt(s, r, lo, hi)
  }

  /** `r` is `s[lo..hi]`, and everything of `s` outside that slice is white space. */
  ghost predicate TrimmedAt(s: string, r: string, lo: nat, hi: nat) {
    lo <= hi <= |s| && r == s[lo..hi] && AllWhiteSpace(s[..lo]) && AllWhiteSpace(s[hi..])
  }

  /** Cutting a white-space code point off the front moves the slice right by one. */
  lemma TrimmedAtFront(s: string, r: string, lo: nat, hi: nat)
    requires s != [] && IsWhiteSpace(s[0]) && TrimmedAt(s[1..], r, lo, hi)
    ensures TrimmedAt(s, r, lo + 1, hi + 1)
  {
    var t := s[1..];
    assert t[lo..hi] == s[lo + 1..hi + 1];
    forall k | 1 <= k < |s|
      ensures s[k] == t[k - 1]
    {
    }
  }

  /** Cutting a white-space code point off the back keeps the slice where it is. */
  lemma TrimmedAtBack(s: string, r: string, lo: nat, hi: nat)
    requires s != [] && IsWhiteSpace(s[|s| - 1]) && TrimmedAt(s[..|s| - 1], r, lo, hi)
    ensures TrimmedAt(s, r, lo, hi)
  {
    var t := s[..|s| - 1];
    assert t[lo..hi] == s[lo..hi];
    forall k | 0 <= k < |t|
      ensures s[k] == t[k]
    {
    }
  }

  /** Where `Trim(s)` starts and ends in `s`. */
  lemma {:induction false} TrimBounds(s: string) returns (lo: nat, hi: nat)
    ensures TrimmedAt(s, Trim(s), lo, hi)
    decreases |s|
  {
    if s != [] && IsWhiteSpace(s[0]) {
      var l, h := TrimBounds(s[1..]);
      TrimmedAtFront(s, Trim(s), l, h);
      lo, hi := l + 1, h + 1;
    } else if s != [] && IsWhiteSpace(s[|s| - 1]) {
      lo, hi := TrimBounds(s[..|s| - 1]);
      TrimmedAtBack(s, Trim(s), lo, hi);
    } else {
      lo, hi := 0, |s|;
    }
  }

  /** Trim removes white space at the two ends and nothing else. */
  lemma TrimCutsWhiteSpace(s: string)
    ensures CutsWhiteSpace(s, Trim(s))
  {
    var lo, hi := TrimBounds(s);
    assert TrimmedAt(s, Trim(s), lo, hi);
  }

  /** Trimming twice is trimming once. */
  lemma TrimIdempotent(s: string)
    ensures Trim(Trim(s)) == Trim(s)
  {
  }

  /** String.prototype.toLowerCase on one code point; only A-Z have a mapping here. */
  function LowerChar(c: char): char {
    if 'A' <= c <= 'Z' then (c as int + 32) as char else c
  }

  /** String.prototype.toLowerCase: maps every code point, keeping the length. */
  function ToLowerCase(s: string): (r: string)
    ensures |r| == |s|
    ensures forall i :: 0 <= i < |s| ==> r[i] == LowerChar(s[i])
  {
    if s == [] then [] else [LowerChar(s[0])] + ToLowerCase(s[1..])
  }

  /** Lower-casing neither creates nor removes white space. */
  lemma LowerCharWhiteSpace(c: char)
    ensures IsWhiteSpace(LowerChar(c)) <==> IsWhiteSpace(c)
  {
  }

  /**
   * Lower-casing and then trimming gives the empty string exactly when
   * trimming alone does: the search needle is empty iff the term is blank.
   */
  lemma TrimLowerEmptyIff(s: string)
    ensures Trim(ToLowerCase(s)) == [] <==> Trim(s) == []
  {
    var l := ToLowerCase(s);
    forall i | 0 <= i < |s|
      ensures IsWhiteSpace(l[i]) <==> IsWhiteSpace(s[i])
    {
      LowerCharWhiteSpace(s[i]);
    }
  }

  predicate IsPrefix(p: string, s: string) {
    |p| <= |s| && s[..|p|] == p
  }

  /**
   * String.prototype.includes: `n` occurs in `s`, tried at every position
   * from the left. The empty string occurs in every string.
   */
  predicate Includes(s: string, n: string)
    decreases |s|
  {
    IsPrefix(n, s) || (s != [] && Includes(s[1..], n))
  }

  /** `n` occurs in `s` starting at offset `i`. */
  predicate OccursAt(s: string, n: string, i: int) {
    0 <= i <= |s| - |n| && s[i..i + |n|] == n
  }

  /** `Includes` holds exactly when `n` is the slice of `s` at some offset. */
  lemma {:induction false} IncludesIff(s: string, n: string)
    ensures Includes(s, n) <==> exists i :: OccursAt(s, n, i)
    decreases |s|
  {
    if IsPrefix(n, s) {
      assert OccursAt(s, n, 0);
    } else if s == [] {
    } else {
      IncludesIff(s[1..], n);
      if exists i :: OccursAt(s, n, i) {
        var i :| OccursAt(s, n, i);
        assert i != 0;
        assert s[1..][i - 1..i - 1 + |n|] == s[i..i + |n|];
        assert OccursAt(s[1..], n, i - 1);
      }
      if Includes(s[1..], n) {
        var j :| OccursAt(s[1..], n, j);
        assert s[1..][j..j + |n|] == s[j + 1..j + 1 + |n|];
        assert OccursAt(s, n, j + 1);
      }
    }
  }
}
