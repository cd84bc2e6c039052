/** The `product_card` read model: one row per active product and language. */
module Cards {
  import opened Outcomes

  type ProductId = int
  /** A decimal amount with two fraction digits, counted in hundredths. */
  type Money = int

  datatype Lang = Ru | Ro

  datatype CardKey = CardKey(productId: ProductId, lang: Lang)

  datatype Card = Card(
    productId: ProductId,
    lang: Lang,
    categoryId: int,
    name: string,
    slug: string,
    price: Money,
    oldPrice: Option<Money>,
    priceMax: Option<Money>,
    inStock: bool,
    mainImageUrl: Option<string>,
    badge: Option<string>,
    path: seq<int>,
    isActive: bool,
    isFeatured: bool)

  type CardTable = map<CardKey, Card>

  /** Each row carries its own key. */
  ghost predicate Keyed(cards: CardTable) {
    forall k :: k in cards ==> cards[k].productId == k.productId && cards[k].lang == k.lang
  }
}
