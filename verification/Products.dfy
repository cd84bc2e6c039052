/**
 Products, their translations, variants and media, and the card table projected from
 them. Every back-office operation edits the source rows of one product and then
 rebuilds that product's cards; a publication error rolls the whole operation back.
 */
module Products {
  import opened Outcomes
  import opened Cards
  import opened Aggregates
  import opened Combos

  type AttributeId = int

  datatype Product = Product(
    categoryId: int,
    price: Money,
    oldPrice: Option<Money>,
    qty: int,
    isActive: bool,
    isFeatured: bool,
    hasVariants: bool)

  datatype Translation = Translation(name: string, slug: string)

  datatype Variant = Variant(
    productId: ProductId,
    code: Option<string>,
    price: Money,
    oldPrice: Option<Money>,
    qty: int,
    position: int,
    isActive: bool,
    values: set<ValueId>)

  datatype Media = Media(productId: ProductId, variantId: Option<int>, url: string, position: int)

  /** Category paths and the attribute dictionary, which these operations only read. */
  datatype Catalog = Catalog(
    paths: map<int, seq<int>>, attributes: set<AttributeId>, attributeOf: map<ValueId, AttributeId>)

  datatype Tables = Tables(
    products: map<ProductId, Product>,
    translations: map<CardKey, Translation>,
    variants: map<int, Variant>,
    media: map<int, Media>,
    selectors: map<ProductId, seq<AttributeId>>,
    links: set<(ProductId, ValueId)>,
    cards: CardTable,
    nextId: int)

  datatype ProductError = NotFound | Conflict | Invalid | NotPublishable

  // ---------------------------------------------------------------- the derived view

  /** Every source row that one product's cards depend on. */
  datatype ProductRows = ProductRows(
    translations: map<Lang, Translation>, active: map<int, Variant>, media: map<int, Media>)

  function TranslationsOf(translations: map<CardKey, Translation>, p: ProductId): map<Lang, Translation> {
    map l: Lang | CardKey(p, l) in translations :: translations[CardKey(p, l)]
  }

  function ActiveVariantsOf(variants: map<int, Variant>, p: ProductId): map<int, Variant> {
    map v | v in variants && variants[v].productId == p && variants[v].isActive :: variants[v]
  }

  function MediaOf(media: map<int, Media>, p: ProductId): map<int, Media> {
    map m | m in media && media[m].productId == p :: media[m]
  }

  function RowsOf(t: Tables, p: ProductId): ProductRows {
    ProductRows(TranslationsOf(t.translations, p), ActiveVariantsOf(t.variants, p), MediaOf(t.media, p))
  }

  datatype VariantAggregate = VariantAggregate(
    minPrice: Option<Money>, maxPrice: Option<Money>, anyStock: bool, anySale: bool, totalQty: int)

  function OnSale(v: Variant): bool {
    v.oldPrice.Some? && v.oldPrice.value > v.price
  }

  function Prices(active: map<int, Variant>): set<Money> {
    set v | v in active :: active[v].price
  }

  /** The aggregate query over a product's active variants. */
  function AggregateOf(active: map<int, Variant>): VariantAggregate {
    if Prices(active) == {} then VariantAggregate(None, None, false, false, 0)
    else
      VariantAggregate(
        Some(Least(Prices(active))),
        Some(Greatest(Prices(active))),
        exists v :: v in active && active[v].qty > 0,
        exists v :: v in active && OnSale(active[v]),
        Sum(map v | v in active :: active[v].qty))
  }

  function Positions(media: map<int, Media>): set<int> {
    set m | m in media :: media[m].position
  }

  /** The url of the row with the lowest position, then the lowest id. */
  function MainImage(media: map<int, Media>): Option<string> {
    if Positions(media) == {} then None
    else
      var position := Least(Positions(media));
      var first := set m | m in media && media[m].position == position;
      assert exists m :: m in first by {
        var m :| m in media && media[m].position == position;
        assert m in first;
      }
      Some(media[Least(first)].url)
  }

  function PathOf(cat: Catalog, categoryId: int): seq<int> {
    if categoryId in cat.paths then cat.paths[categoryId] else [categoryId]
  }

  function View(cat: Catalog, p: ProductId, product: Product, rows: ProductRows, lang: Lang): Card
    requires lang in rows.translations
  {
    var a := AggregateOf(rows.active);
    var ranged := product.hasVariants && a.minPrice.Some?;
    var onSale := if product.hasVariants then a.anySale else product.oldPrice.Some?;
    Card(
      p,
      lang,
      product.categoryId,
      rows.translations[lang].name,
      rows.translations[lang].slug,
      if ranged then a.minPrice.value else product.price,
      if product.hasVariants then None else product.oldPrice,
      if ranged && a.maxPrice != a.minPrice then a.maxPrice else None,
      if product.hasVariants then a.anyStock else product.qty > 0,
      MainImage(rows.media),
      if onSale then Some("sale") else None,
      PathOf(cat, product.categoryId),
      product.isActive,
      product.isFeatured)
  }

  /** No card for an inactive product, one card per translation of an active one. */
  function Derived(cat: Catalog, p: ProductId, product: Option<Product>, rows: ProductRows): map<Lang, Card> {
    if product.None? || !product.value.isActive then map[]
    else map l | l in rows.translations :: View(cat, p, product.value, rows, l)
  }

  function CardsOf(cards: CardTable, p: ProductId): map<Lang, Card> {
    map l: Lang | CardKey(p, l) in cards :: cards[CardKey(p, l)]
  }

  function Find(t: Tables, p: ProductId): Option<Product> {
    if p in t.products then Some(t.products[p]) else None
  }

  /** Both languages present, and something to buy. */
  predicate Publishable(product: Product, rows: ProductRows) {
    rows.translations.Keys == {Ru, Ro} && (product.hasVariants ==> AggregateOf(rows.active).minPrice.Some?)
  }

  /** The product row caches the aggregate of its active variants. */
  predicate Synced(product: Product, rows: ProductRows) {
    product.hasVariants ==>
      var a := AggregateOf(rows.active);
      a.minPrice == Some(product.price) && a.totalQty == product.qty
  }

  /** Everything about one product that its health depends on. */
  datatype Slice = Slice(product: Option<Product>, rows: ProductRows, cards: map<Lang, Card>)

  function SliceOf(t: Tables, p: ProductId): Slice {
    Slice(Find(t, p), RowsOf(t, p), CardsOf(t.cards, p))
  }

  predicate HealthySlice(cat: Catalog, p: ProductId, s: Slice) {
    && s.cards == Derived(cat, p, s.product, s.rows)
    && (s.product.Some? && s.product.value.isActive ==>
          Publishable(s.product.value, s.rows) && Synced(s.product.value, s.rows))
  }

  ghost predicate Healthy(t: Tables, cat: Catalog, p: ProductId) {
    HealthySlice(cat, p, SliceOf(t, p))
  }

  ghost predicate AllHealthy(t: Tables, cat: Catalog) {
    forall p {:trigger Healthy(t, cat, p)} :: Healthy(t, cat, p)
  }

  // ---------------------------------------------------------------- rebuilding a product's cards

  function WithoutCards(cards: CardTable, p: ProductId): CardTable {
    map k | k in cards && k.productId != p :: cards[k]
  }

  /** One product's rows by language, as rows of the whole table. */
  function KeyedBy<T>(p: ProductId, own: map<Lang, T>): map<CardKey, T> {
    map l | l in own :: CardKey(p, l) := own[l]
  }

  function WithCards(cards: CardTable, p: ProductId, own: map<Lang, Card>): CardTable {
    WithoutCards(cards, p) + KeyedBy(p, own)
  }

  /** The cached price and stock of a variable product follow its active variants. */
  function SyncedProduct(product: Product, rows: ProductRows): Product {
    var a := AggregateOf(rows.active);
    if product.isActive && product.hasVariants && a.minPrice.Some?
    then product.(price := a.minPrice.value, qty := a.totalQty) else product
  }

  function Rebuild(t: Tables, cat: Catalog, p: ProductId): Result<Tables, ProductError> {
    if p !in t.products then Err(NotFound)
    else
      var product, rows := t.products[p], RowsOf(t, p);
      if !product.isActive then Ok(t.(cards := WithoutCards(t.cards, p)))
      else if !Publishable(product, rows) then Err(NotPublishable)
      else Ok(t.(products := t.products[p := SyncedProduct(product, rows)],
                 cards := WithCards(t.cards, p, Derived(cat, p, Some(product), rows))))
  }

  lemma OtherCardsKept(cards: CardTable, p: ProductId, own: map<Lang, Card>, q: ProductId)
    ensures CardsOf(WithCards(cards, p, own), q) == if q == p then own else CardsOf(cards, q)
    ensures CardsOf(WithoutCards(cards, p), q) == if q == p then map[] else CardsOf(cards, q)
  {
    var all := WithCards(cards, p, own);
    forall l: Lang
      ensures q == p ==> (CardKey(q, l) in all <==> l in own) && (l in own ==> all[CardKey(q, l)] == own[l])
      ensures q != p ==> (CardKey(q, l) in all <==> CardKey(q, l) in cards)
    {
    }
    assert CardsOf(all, q) == if q == p then own else CardsOf(cards, q);
    assert CardsOf(WithoutCards(cards, p), q) == if q == p then map[] else CardsOf(cards, q);
  }

  /** The cards do not read the cached columns that a rebuild writes. */
  lemma ViewIgnoresCache(cat: Catalog, p: ProductId, product: Product, rows: ProductRows)
    ensures Derived(cat, p, Some(SyncedProduct(product, rows)), rows) == Derived(cat, p, Some(product), rows)
    ensures SyncedProduct(SyncedProduct(product, rows), rows) == SyncedProduct(product, rows)
  {
    forall l | l in rows.translations
      ensures View(cat, p, SyncedProduct(product, rows), rows, l) == View(cat, p, product, rows, l)
    {
    }
  }

  /** What a rebuild leaves behind for its own product. */
  lemma RebuildOwnSlice(t: Tables, cat: Catalog, p: ProductId)
    requires Rebuild(t, cat, p).Ok?
    ensures var product, rows := t.products[p], RowsOf(t, p);
            SliceOf(Rebuild(t, cat, p).value, p) ==
            Slice(Some(SyncedProduct(product, rows)), rows, Derived(cat, p, Some(product), rows))
  {
    OtherCardsKept(t.cards, p, Derived(cat, p, Some(t.products[p]), RowsOf(t, p)), p);
  }

  /** A rebuild touches nothing another product depends on. */
  lemma RebuildOtherSlice(t: Tables, cat: Catalog, p: ProductId, q: ProductId)
    requires Rebuild(t, cat, p).Ok? && q != p
    ensures SliceOf(Rebuild(t, cat, p).value, q) == SliceOf(t, q)
  {
    OtherCardsKept(t.cards, p, Derived(cat, p, Some(t.products[p]), RowsOf(t, p)), q);
  }

  /** A successful rebuild leaves its product healthy, whatever it was before. */
  lemma RebuildHeals(t: Tables, cat: Catalog, p: ProductId)
    requires Rebuild(t, cat, p).Ok?
    ensures Healthy(Rebuild(t, cat, p).value, cat, p)
  {
    RebuildOwnSlice(t, cat, p);
    ViewIgnoresCache(cat, p, t.products[p], RowsOf(t, p));
  }

  lemma WithoutTwice(cards: CardTable, p: ProductId, own: map<Lang, Card>)
    ensures WithoutCards(WithCards(cards, p, own), p) == WithoutCards(cards, p)
    ensures WithoutCards(WithoutCards(cards, p), p) == WithoutCards(cards, p)
  {
  }

  /** Rebuilding twice equals rebuilding once. */
  lemma RebuildTwiceIsOnce(t: Tables, cat: Catalog, p: ProductId)
    requires Rebuild(t, cat, p).Ok?
    ensures Rebuild(Rebuild(t, cat, p).value, cat, p) == Rebuild(t, cat, p)
  {
    var product, rows := t.products[p], RowsOf(t, p);
    var own := Derived(cat, p, Some(product), rows);
    WithoutTwice(t.cards, p, own);
    ViewIgnoresCache(cat, p, product, rows);
    if product.isActive {
      var synced := SyncedProduct(product, rows);
      assert t.products[p := synced][p := synced] == t.products[p := synced];
    }
  }
}
