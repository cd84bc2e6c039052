/** What a card says, said of the product, translation, variant and media rows alone. */
module CardContents {
  import opened Outcomes
  import opened Aggregates
  import opened Cards
  import opened Products
  import opened ProductOps
  import opened CardViews
  import ProductRuns

  predicate IsActiveVariant(t: Tables, p: ProductId, v: int) {
    v in t.variants && t.variants[v].productId == p && t.variants[v].isActive
  }

  /** Name and slug of the translation in that language; category, path and flags of the product, which is active. */
  ghost predicate NamesItsProduct(t: Tables, cat: Catalog, k: CardKey) {
    && k in t.cards && k.productId in t.products && k in t.translations
    && var card, product := t.cards[k], t.products[k.productId];
       && card.productId == k.productId && card.lang == k.lang
       && card.name == t.translations[k].name && card.slug == t.translations[k].slug
       && product.isActive && card.isActive && card.isFeatured == product.isFeatured
       && card.categoryId == product.categoryId
       && card.path == if product.categoryId in cat.paths then cat.paths[product.categoryId] else [product.categoryId]
  }

  /** A simple product's card has its price, its struck price, and whether its own quantity is positive. */
  ghost predicate PricesSimple(t: Tables, k: CardKey)
    requires k in t.cards && k.productId in t.products
  {
    var card, product := t.cards[k], t.products[k.productId];
    && card.price == product.price && card.oldPrice == product.oldPrice && card.priceMax == None
    && (card.inStock <==> product.qty > 0)
    && card.badge == if product.oldPrice.Some? then Some("sale") else None
  }

  /** A variable product's card has the price range, stock and sale of its active variants, of which there is one. */
  ghost predicate PricesVariable(t: Tables, k: CardKey)
    requires k in t.cards
  {
    var card, p := t.cards[k], k.productId;
    && card.oldPrice == None
    && (exists v :: IsActiveVariant(t, p, v) && t.variants[v].price == card.price)
    && (forall v :: IsActiveVariant(t, p, v) ==> card.price <= t.variants[v].price)
    && (card.priceMax == None <==> forall v :: IsActiveVariant(t, p, v) ==> t.variants[v].price == card.price)
    && (card.priceMax.Some? ==>
          && (exists v :: IsActiveVariant(t, p, v) && t.variants[v].price == card.priceMax.value)
          && (forall v :: IsActiveVariant(t, p, v) ==> t.variants[v].price <= card.priceMax.value))
    && (card.inStock <==> exists v :: IsActiveVariant(t, p, v) && t.variants[v].qty > 0)
    && (card.badge == Some("sale") || card.badge == None)
    && (card.badge == Some("sale") <==>
          exists v :: IsActiveVariant(t, p, v) && t.variants[v].oldPrice.Some?
                      && t.variants[v].oldPrice.value > t.variants[v].price)
  }

  predicate IsMediaOf(t: Tables, p: ProductId, m: int) {
    m in t.media && t.media[m].productId == p
  }

  /** The image with the lowest position, then the lowest id; none only without images. */
  ghost predicate ShowsFirstImage(t: Tables, k: CardKey)
    requires k in t.cards
  {
    match t.cards[k].mainImageUrl
    case None => forall m :: !IsMediaOf(t, k.productId, m)
    case Some(url) =>
      exists m :: IsMediaOf(t, k.productId, m) && t.media[m].url == url
                  && forall n :: IsMediaOf(t, k.productId, n) ==>
                       t.media[m].position < t.media[n].position
                       || (t.media[m].position == t.media[n].position && m <= n)
  }

  ghost predicate CardSays(t: Tables, cat: Catalog, k: CardKey) {
    && NamesItsProduct(t, cat, k) && ShowsFirstImage(t, k)
    && if t.products[k.productId].hasVariants then PricesVariable(t, k) else PricesSimple(t, k)
  }

  // ---------------------------------------------------------------- every derived card says so

  lemma HealthyCardIsView(t: Tables, cat: Catalog, k: CardKey)
    requires Healthy(t, cat, k.productId) && k in t.cards
    ensures k.productId in t.products && t.products[k.productId].isActive && k in t.translations
    ensures Publishable(t.products[k.productId], RowsOf(t, k.productId))
    ensures k.lang in RowsOf(t, k.productId).translations
    ensures t.cards[k] == View(cat, k.productId, t.products[k.productId], RowsOf(t, k.productId), k.lang)
  {
    var p := k.productId;
    assert k == CardKey(p, k.lang);
    assert k.lang in CardsOf(t.cards, p);
    assert CardsOf(t.cards, p) == Derived(cat, p, Find(t, p), RowsOf(t, p));
  }

  lemma ImageIsFirst(t: Tables, cat: Catalog, k: CardKey)
    requires Healthy(t, cat, k.productId) && k in t.cards
    ensures ShowsFirstImage(t, k)
  {
    HealthyCardIsView(t, cat, k);
    var media := MediaOf(t.media, k.productId);
    MainImageIsTheFirst(media);
    assert t.cards[k].mainImageUrl == MainImage(media);
    forall m ensures m in media <==> IsMediaOf(t, k.productId, m) {}
    if media != map[] {
      var m :| m in media && MainImage(media) == Some(media[m].url)
               && forall n :: n in media ==> media[m].position < media[n].position
                                             || (media[m].position == media[n].position && m <= n);
      assert IsMediaOf(t, k.productId, m) && t.media[m].url == t.cards[k].mainImageUrl.value;
    } else {
      forall m ensures !IsMediaOf(t, k.productId, m) { assert m !in media; }
    }
  }

  lemma VariablePrices(t: Tables, cat: Catalog, k: CardKey)
    requires Healthy(t, cat, k.productId) && k in t.cards
    requires k.productId in t.products && t.products[k.productId].hasVariants
    ensures PricesVariable(t, k)
  {
    HealthyCardIsView(t, cat, k);
    var p, card := k.productId, t.cards[k];
    var active := ActiveVariantsOf(t.variants, p);
    VariableCardReadsActiveVariants(cat, p, t.products[p], RowsOf(t, p), k.lang);
    forall v ensures IsActiveVariant(t, p, v) <==> v in active {}
    forall v | v in active ensures active[v] == t.variants[v] {}
    var cheapest :| cheapest in active && active[cheapest].price == card.price;
    assert IsActiveVariant(t, p, cheapest);
    if card.priceMax.Some? {
      var dearest :| dearest in active && active[dearest].price == card.priceMax.value;
      assert IsActiveVariant(t, p, dearest);
    }
    if v :| v in active && active[v].qty > 0 { assert IsActiveVariant(t, p, v); }
    if v :| v in active && OnSale(active[v]) { assert IsActiveVariant(t, p, v); }
    if v :| v in active && active[v].price != card.price { assert IsActiveVariant(t, p, v); }
  }

  lemma HealthyCardSays(t: Tables, cat: Catalog, k: CardKey)
    requires Healthy(t, cat, k.productId) && k in t.cards
    ensures CardSays(t, cat, k)
  {
    HealthyCardIsView(t, cat, k);
    ImageIsFirst(t, cat, k);
    if t.products[k.productId].hasVariants {
      VariablePrices(t, cat, k);
    }
  }

  /** Every card a rebuild leaves for its product says what the rows it leaves say. */
  lemma RebuiltCardSays(t: Tables, cat: Catalog, p: ProductId, k: CardKey)
    requires Rebuild(t, cat, p).Ok? && k.productId == p && k in Rebuild(t, cat, p).value.cards
    ensures CardSays(Rebuild(t, cat, p).value, cat, k)
  {
    RebuildHeals(t, cat, p);
    HealthyCardSays(Rebuild(t, cat, p).value, cat, k);
  }

  lemma RebuiltCardsSay(t: Tables, cat: Catalog, p: ProductId)
    requires Rebuild(t, cat, p).Ok?
    ensures var after := Rebuild(t, cat, p).value;
            forall k :: k in after.cards && k.productId == p ==> CardSays(after, cat, k)
  {
    var after := Rebuild(t, cat, p).value;
    forall k | k in after.cards && k.productId == p ensures CardSays(after, cat, k) {
      RebuiltCardSays(t, cat, p, k);
    }
  }

  /** In every history of the product operations every card says what the rows say. */
  lemma EveryCardSaysWhatIsSold(cat: Catalog, ops: seq<Op>, k: CardKey)
    requires k in Run(ProductRuns.NO_ROWS, cat, ops).cards
    ensures CardSays(Run(ProductRuns.NO_ROWS, cat, ops), cat, k)
  {
    ProductRuns.EmptyIsConsistent(cat);
    ProductRuns.RunKeepsConsistent(ProductRuns.NO_ROWS, cat, ops);
    assert Healthy(Run(ProductRuns.NO_ROWS, cat, ops), cat, k.productId);
    HealthyCardSays(Run(ProductRuns.NO_ROWS, cat, ops), cat, k);
  }

  /**
   In a consistent table, and so in every history, an active product has both translations and both
   cards; a variable one has an active variant, and its own price and quantity are the least price
   and the summed stock of those.
   */
  lemma ActiveProductIsComplete(t: Tables, cat: Catalog, p: ProductId, lang: Lang)
    requires Consistent(t, cat) && p in t.products && t.products[p].isActive
    ensures CardKey(p, lang) in t.translations && CardKey(p, lang) in t.cards
    ensures t.products[p].hasVariants ==>
              && (exists v :: IsActiveVariant(t, p, v) && t.variants[v].price == t.products[p].price)
              && (forall v :: IsActiveVariant(t, p, v) ==> t.products[p].price <= t.variants[v].price)
              && t.products[p].qty == Sum(map v | v in t.variants && IsActiveVariant(t, p, v) :: t.variants[v].qty)
  {
    var k := CardKey(p, lang);
    assert Healthy(t, cat, p);
    assert k in t.cards <==> lang in CardsOf(t.cards, p);
    assert lang in {Ru, Ro};
    HealthyCardSays(t, cat, k);
    if t.products[p].hasVariants {
      var active := ActiveVariantsOf(t.variants, p);
      HealthyCardIsView(t, cat, k);
      assert t.cards[k].price == t.products[p].price;
      assert (map v | v in active :: active[v].qty)
          == (map v | v in t.variants && IsActiveVariant(t, p, v) :: t.variants[v].qty);
    }
  }
}
