/** The product record and the static catalog the storefront queries (src/data/products.ts). */
module ProductData {

  datatype Option<T> = None | Some(value: T)

  /**
   * A catalog entry. Prices are integers in the smallest currency unit; the
   * rating is a decimal between 0 and 5. A missing `originalPrice` is `None`,
   * a missing `isDiscounted` flag is `false`.
   */
  datatype Product = Product(
    id: nat,
    name: string,
    description: string,
    price: nat,
    originalPrice: Option<nat>,
    image: string,
    rating: real,
    reviewCount: nat,
    category: string,
    isDiscounted: bool)

  /** The twenty products of the store, in catalog order. */
  const StaticProducts: seq<Product> := [
    Product(1, "توپ بسکتبال حرفه‌ای",
      "توپ بسکتبال چرمی با کیفیت بالا برای بازی‌های حرفه‌ای",
      2990000, Some(3500000),
      "https://images.pexels.com/photos/1752757/pexels-photo-1752757.jpeg?auto=compress&cs=tinysrgb&w=400",
      4.5, 24, "بسکتبال", true),
    Product(2, "توپ فوتبال المپیک",
      "توپ فوتبال تایید شده فیفا برای مسابقات رقابتی",
      2740000, None,
      "https://images.pexels.com/photos/274422/pexels-photo-274422.jpeg?auto=compress&cs=tinysrgb&w=400",
      4.8, 45, "فوتبال", false),
    Product(3, "مجموعه توپ تنیس",
      "توپ‌های تنیس حرفه‌ای - بسته ۶ عددی",
      590000, None,
      "https://images.pexels.com/photos/209977/pexels-photo-209977.jpeg?auto=compress&cs=tinysrgb&w=400",
      4.2, 18, "تنیس", false),
    Product(4, "توپ والیبال پرو",
      "توپ والیبال درجه مسابقات با گریپ عالی",
      1650000, None,
      "https://images.pexels.com/photos/863988/pexels-photo-863988.jpeg?auto=compress&cs=tinysrgb&w=400",
      4.6, 32, "والیبال", false),
    Product(5, "توپ راگبی نخبه",
      "توپ راگبی پریمیوم برای تمرینات حرفه‌ای",
      1850000, Some(2200000),
      "https://images.pexels.com/photos/3618162/pexels-photo-3618162.jpeg?auto=compress&cs=tinysrgb&w=400",
      4.4, 28, "راگبی", true),
    Product(6, "توپ بیسبال رسمی",
      "توپ بیسبال استاندارد MLB با دوخت اصیل",
      890000, None,
      "https://images.pexels.com/photos/163487/baseball-color-game-ball-163487.jpeg?auto=compress&cs=tinysrgb&w=400",
      4.7, 41, "بیسبال", false),
    Product(7, "مجموعه توپ گلف",
      "توپ‌های گلف پریمیوم - بسته ۱۲ عددی",
      1250000, None,
      "https://images.pexels.com/photos/54122/pexels-photo-54122.jpeg?auto=compress&cs=tinysrgb&w=400",
      4.3, 22, "گلف", false),
    Product(8, "مجموعه توپ پینگ پنگ",
      "توپ‌های تنیس روی میز کیفیت مسابقات - بسته ۱۲ عددی",
      350000, None,
      "https://images.pexels.com/photos/976873/pexels-photo-976873.jpeg?auto=compress&cs=tinysrgb&w=400",
      4.1, 15, "تنیس روی میز", false),
    Product(9, "توپ فوتبال تمرینی",
      "توپ فوتبال مقاوم برای تمرین در تمام شرایط آب و هوایی",
      1450000, None,
      "https://images.pexels.com/photos/46798/the-ball-stadion-football-the-pitch-46798.jpeg?auto=compress&cs=tinysrgb&w=400",
      4.5, 36, "فوتبال", false),
    Product(10, "توپ هندبال مسابقات",
      "توپ هندبال سایز رسمی برای مسابقات سالن",
      950000, None,
      "https://images.pexels.com/photos/1263426/pexels-photo-1263426.jpeg?auto=compress&cs=tinysrgb&w=400",
      4.0, 19, "هندبال", false),
    Product(11, "توپ کریکت قرمز",
      "توپ کریکت قرمز سنتی برای مسابقات تست",
      780000, None,
      "https://images.pexels.com/photos/1661950/pexels-photo-1661950.jpeg?auto=compress&cs=tinysrgb&w=400",
      4.6, 25, "کریکت", false),
    Product(12, "توپ طبی ۸ کیلوگرمی",
      "توپ طبی مقاوم برای تمرینات قدرتی",
      1950000, Some(2450000),
      "https://images.pexels.com/photos/4162449/pexels-photo-4162449.jpeg?auto=compress&cs=tinysrgb&w=400",
      4.8, 52, "تناسب اندام", true),
    Product(13, "توپ بولینگ حرفه‌ای",
      "توپ بولینگ حرفه‌ای با گریپ سفارشی",
      3850000, None,
      "https://images.pexels.com/photos/3618162/pexels-photo-3618162.jpeg?auto=compress&cs=tinysrgb&w=400",
      4.4, 31, "بولینگ", false),
    Product(14, "توپ والیبال ساحلی",
      "توپ والیبال رسمی ساحلی برای بازی در فضای باز",
      1350000, None,
      "https://images.pexels.com/photos/863988/pexels-photo-863988.jpeg?auto=compress&cs=tinysrgb&w=400",
      4.3, 27, "ورزش‌های ساحلی", false),
    Product(15, "توپ واترپلو",
      "توپ ضد آب طراحی شده برای واترپلو",
      1650000, None,
      "https://images.pexels.com/photos/274422/pexels-photo-274422.jpeg?auto=compress&cs=tinysrgb&w=400",
      4.2, 16, "ورزش‌های آبی", false),
    Product(16, "توپ ورزشی ۶۵ سانتی",
      "توپ ورزشی ضد انفجار برای یوگا و تناسب اندام",
      890000, None,
      "https://images.pexels.com/photos/4162449/pexels-photo-4162449.jpeg?auto=compress&cs=tinysrgb&w=400",
      4.7, 43, "تناسب اندام", false),
    Product(17, "مجموعه توپ لاکراس",
      "توپ‌های لاکراس رسمی - بسته ۳ عددی",
      450000, None,
      "https://images.pexels.com/photos/209977/pexels-photo-209977.jpeg?auto=compress&cs=tinysrgb&w=400",
      4.1, 14, "لاکراس", false),
    Product(18, "توپ دوج بال فومی",
      "توپ دوج بال فوم نرم برای بازی ایمن در سالن",
      650000, None,
      "https://images.pexels.com/photos/1752757/pexels-photo-1752757.jpeg?auto=compress&cs=tinysrgb&w=400",
      4.0, 21, "تفریحی", false),
    Product(19, "توپ نت بال رسمی",
      "توپ نت بال رسمی برای مسابقات رقابتی",
      1150000, None,
      "https://images.pexels.com/photos/863988/pexels-photo-863988.jpeg?auto=compress&cs=tinysrgb&w=400",
      4.5, 29, "نت بال", false),
    Product(20, "مجموعه توپ اسکواش",
      "توپ‌های اسکواش حرفه‌ای - بسته ۳ عددی",
      550000, None,
      "https://images.pexels.com/photos/209977/pexels-photo-209977.jpeg?auto=compress&cs=tinysrgb&w=400",
      4.4, 17, "اسکواش", false)
  ]
}
