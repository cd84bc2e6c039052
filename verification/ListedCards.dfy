/** What a customer gets from a walk through all pages, said of the card table and the filters alone. */
module ListedCards {
  import opened Outcomes
  import opened Rows
  import opened Cards
  import opened Listing
  import opened CursorWalks
  import F = Facets

  /** The cards of all pages, in the order they come. */
  ghost function Walked(w: World, q: Query, sort: Sort, pageSize: int): seq<Card>
    requires Keyed(w.cards)
  {
    Flatten(Walk(w, q, sort, None, pageSize))
  }

  /** A card is listed if and only if it is in the table and passes every filter that is set. */
  lemma WalkListsExactly(w: World, q: Query, sort: Sort, pageSize: int, c: Card)
    requires Keyed(w.cards)
    ensures c in Walked(w, q, sort, pageSize) <==>
              && CardKey(c.productId, c.lang) in w.cards && w.cards[CardKey(c.productId, c.lang)] == c
              && c.isActive && c.lang == q.lang
              && (q.categoryId.Some? ==> q.categoryId.value in c.path)
              && (q.priceMin.Some? ==> q.priceMin.value <= c.price)
              && (q.priceMax.Some? ==> c.price <= q.priceMax.value)
              && (q.onSale ==> c.oldPrice.Some?)
              && (q.featured ==> c.isFeatured)
              && (q.valueIds != [] ==>
                    F.SomeValueExists(w.dict, q.valueIds)
                    && F.HasSomeValuePerAttribute(w.dict, q.valueIds, c.productId))
  {
    FullWalkIsTheListing(w, q, sort, pageSize);
    assert c in Walked(w, q, sort, pageSize) <==> c in Filtered(w, q);
    FacetCondition(w, q, c.productId);
    if CardKey(c.productId, c.lang) in w.cards && w.cards[CardKey(c.productId, c.lang)] == c && Matches(w, q, c) {
      assert w.cards[CardKey(c.productId, c.lang)] in Filtered(w, q);
    }
  }

  lemma FacetCondition(w: World, q: Query, p: ProductId)
    ensures F.FacetFilter(w.dict, q.valueIds, p) <==>
              F.SomeValueExists(w.dict, q.valueIds) && F.HasSomeValuePerAttribute(w.dict, q.valueIds, p)
  {
    if F.SomeValueExists(w.dict, q.valueIds) {
      F.CountingIsDivision(w.dict, q.valueIds, p);
    } else {
      forall v | v in q.valueIds ensures v !in w.dict.attributeOf {}
      assert F.Hits(w.dict, q.valueIds, p) == {};
    }
  }

  /** Price bounds cut the unbounded listing, and cut it at the right ends. */
  lemma PriceBoundsCut(w: World, q: Query, sort: Sort, pageSize: int, c: Card)
    requires Keyed(w.cards)
    ensures c in Walked(w, q, sort, pageSize) <==>
              && c in Walked(w, q.(priceMin := None, priceMax := None), sort, pageSize)
              && (q.priceMin.Some? ==> q.priceMin.value <= c.price)
              && (q.priceMax.Some? ==> c.price <= q.priceMax.value)
  {
    WalkListsExactly(w, q, sort, pageSize, c);
    WalkListsExactly(w, q.(priceMin := None, priceMax := None), sort, pageSize, c);
  }

  /** Each product once, cheapest or dearest or newest first, ties by id. */
  lemma WalkOrder(w: World, q: Query, sort: Sort, pageSize: int, i: nat, j: nat)
    requires Keyed(w.cards) && i < j < |Walked(w, q, sort, pageSize)|
    ensures var a, b := Walked(w, q, sort, pageSize)[i], Walked(w, q, sort, pageSize)[j];
            && a.productId != b.productId
            && (sort == PriceAsc ==> a.price < b.price || (a.price == b.price && a.productId < b.productId))
            && (sort == PriceDesc ==> a.price > b.price || (a.price == b.price && a.productId > b.productId))
            && (sort == Newest ==> a.productId > b.productId)
  {
    FullWalkIsTheListing(w, q, sort, pageSize);
    var list := Walked(w, q, sort, pageSize);
    assert list[i] in list && list[j] in list;
    FilteredHasOneRowPerProduct(w, q);
    assert Before(sort, list[i], list[j]);
  }

  lemma {:induction false} CutSizes(sort: Sort, list: seq<Card>, limit: nat, i: nat)
    requires limit > 0 && i < |Cut(sort, list, limit)|
    ensures var page := Cut(sort, list, limit)[i];
            if i < |Cut(sort, list, limit)| - 1 then |page.data| == limit && page.next.Some?
            else |page.data| <= limit && page.next.None?
    decreases |list|
  {
    if |list| > limit && i > 0 {
      CutSizes(sort, list[limit..], limit, i - 1);
    }
  }

  /**
   Every page but the last is full, at the size asked for but at least one and at most a hundred;
   only the last has no cursor.
   */
  lemma PageSizes(w: World, q: Query, sort: Sort, pageSize: int, i: nat)
    requires Keyed(w.cards) && i < |Walk(w, q, sort, None, pageSize)|
    ensures var pages := Walk(w, q, sort, None, pageSize);
            var size := if pageSize < 1 then 1 else if pageSize > 100 then 100 else pageSize;
            if i < |pages| - 1 then |pages[i].data| == size && pages[i].next.Some?
            else |pages[i].data| <= size && pages[i].next.None?
  {
    var list := OrderedRemaining(w, q, sort, None);
    WalkCutsTheList(w, q, sort, None, pageSize, list);
    CutSizes(sort, list, Limit(pageSize), i);
  }
}
