/** What a fresh card says about its sources, and exactly when moving a category makes cards stale. */
module CardViews {
  import opened Outcomes
  import opened Rows
  import opened Cards
  import opened Aggregates
  import opened Products
  import opened ProductOps
  import T = CategoryTree

  /** A variable product's card shows the range of its active variants and whether one can be bought or is on sale. */
  lemma VariableCardReadsActiveVariants(cat: Catalog, p: ProductId, product: Product, rows: ProductRows, lang: Lang)
    requires product.hasVariants && Publishable(product, rows) && lang in rows.translations
    ensures var card := View(cat, p, product, rows, lang);
            var active := rows.active;
            && (exists v :: v in active && active[v].price == card.price)
            && (forall v :: v in active ==> card.price <= active[v].price)
            && (card.priceMax.Some? <==> exists v :: v in active && active[v].price != card.price)
            && (card.priceMax.Some? ==>
                  && (exists v :: v in active && active[v].price == card.priceMax.value)
                  && (forall v :: v in active ==> active[v].price <= card.priceMax.value))
            && (card.inStock <==> exists v :: v in active && active[v].qty > 0)
            && (card.badge == Some("sale") <==> exists v :: v in active && OnSale(active[v]))
            && card.oldPrice == None
  {
    var active := rows.active;
    var low, high := Least(Prices(active)), Greatest(Prices(active));
    var v :| v in active && active[v].price == low;
    var w :| w in active && active[w].price == high;
    forall u | u in active
      ensures low <= active[u].price <= high
    {
      assert active[u].price in Prices(active);
    }
    var card := View(cat, p, product, rows, lang);
    assert card.price == low && (card.priceMax.Some? <==> low != high);
  }

  /** The main image is the row with the lowest position, ties broken by the lowest id. */
  lemma MainImageIsTheFirst(media: map<int, Media>)
    ensures media == map[] <==> MainImage(media) == None
    ensures media != map[] ==>
              exists m :: m in media && MainImage(media) == Some(media[m].url)
                          && forall n :: n in media ==> media[m].position < media[n].position
                                                        || (media[m].position == media[n].position && m <= n)
  {
    if media != map[] {
      KeysNonEmpty(media);
      var any := AnyOf(media.Keys);
      assert any in media && media[any].position in Positions(media);
      var position := Least(Positions(media));
      var first := set m | m in media && media[m].position == position;
      var n :| n in media && media[n].position == position;
      assert n in first;
      var m := Least(first);
      forall k | k in media
        ensures media[m].position < media[k].position || (media[m].position == media[k].position && m <= k)
      {
        assert media[k].position in Positions(media);
        assert media[k].position == position ==> k in first;
      }
      assert m in media && MainImage(media) == Some(media[m].url);
    } else {
      assert Positions(media) == {};
    }
  }

  lemma PlacedPositions(media: map<int, Media>, p: ProductId, orderedIds: seq<int>)
    requires IsPermutationOf(orderedIds, MediaOf(media, p).Keys)
    ensures NoRepeats(orderedIds)
    ensures var now := MediaOf(PlacedMedia(media, orderedIds), p);
            && (forall m :: m in orderedIds <==> m in now)
            && forall m :: m in now ==> now[m] == media[m].(position := IndexOf(orderedIds, m))
  {
    PermutationFacts(orderedIds, MediaOf(media, p).Keys);
    var now := MediaOf(PlacedMedia(media, orderedIds), p);
    assert forall m :: m in now <==> m in MediaOf(media, p);
  }

  lemma UniqueFirstIsMain(media: map<int, Media>, first: int)
    requires first in media && forall m :: m in media && m != first ==> media[first].position < media[m].position
    ensures MainImage(media) == Some(media[first].url)
  {
    MainImageIsTheFirst(media);
  }

  /** After a reorder the first id of the new order is the main image. */
  lemma ReorderPicksTheMainImage(t: Tables, p: ProductId, orderedIds: seq<int>)
    requires PlaceMedia(t, p, orderedIds).Ok? && orderedIds != []
    ensures orderedIds[0] in t.media
    ensures MainImage(MediaOf(PlaceMedia(t, p, orderedIds).value.media, p)) == Some(t.media[orderedIds[0]].url)
  {
    PlacedPositions(t.media, p, orderedIds);
    var first := orderedIds[0];
    assert first in orderedIds;
    assert IndexOf(orderedIds, first) == 0;
    UniqueFirstIsMain(MediaOf(PlacedMedia(t.media, orderedIds), p), first);
  }

  lemma {:induction false} ElementsBound(list: seq<int>)
    ensures |Elements(list)| <= |list|
    ensures |Elements(list)| == |list| ==> NoRepeats(list)
  {
    if list != [] {
      var n := |list| - 1;
      var init, last := list[..n], list[n];
      ElementsBound(init);
      var smaller := Elements(init);
      assert list == init + [last];
      assert Elements(list) == smaller + {last};
      if last in smaller {
        assert smaller + {last} == smaller;
      }
    }
  }

  lemma PermutationFacts(orderedIds: seq<int>, ids: set<int>)
    requires IsPermutationOf(orderedIds, ids)
    ensures NoRepeats(orderedIds)
    ensures forall m :: m in orderedIds <==> m in ids
  {
    ElementsBound(orderedIds);
    assert forall m :: m in orderedIds <==> m in Elements(orderedIds);
  }

  // ---------------------------------------------------------------- moving a category

  function PathsOf(table: T.Table): map<int, seq<int>> {
    map id | id in table :: table[id].path
  }

  /** Cards copy the path of their category: they stay right exactly when that path stays the same. */
  lemma HealthyUnderNewPaths(t: Tables, cat: Catalog, paths: map<int, seq<int>>, p: ProductId)
    requires Healthy(t, cat, p)
    ensures Healthy(t, cat.(paths := paths), p) <==>
            (p in t.products && t.products[p].isActive ==>
               PathOf(cat.(paths := paths), t.products[p].categoryId) == PathOf(cat, t.products[p].categoryId))
  {
    var cat' := cat.(paths := paths);
    var s := SliceOf(t, p);
    if p in t.products && t.products[p].isActive {
      var product := t.products[p];
      assert Ru in s.rows.translations;
      var before, after := Derived(cat, p, s.product, s.rows), Derived(cat', p, s.product, s.rows);
      if PathOf(cat', product.categoryId) == PathOf(cat, product.categoryId) {
        assert before == after;
      } else {
        assert before[Ru].path != after[Ru].path;
      }
    }
  }

  lemma SamePathMeansSameParent(table: T.Table, id: int, newParentId: Option<int>)
    requires T.Agrees(table) && T.MoveResult(table, id, newParentId).Ok?
    ensures T.Prefix(table, newParentId) + [id] == table[id].path <==> table[id].parentId == newParentId
  {
    T.LinkedIffAgrees(table);
    assert T.RowLinked(table, id);
    var path := table[id].path;
    if newParentId.Some? {
      T.AgreementMeaning(table, newParentId.value);
    }
    if table[id].parentId.Some? {
      T.AgreementMeaning(table, table[id].parentId.value);
    }
    if T.Prefix(table, newParentId) + [id] == path {
      assert T.Prefix(table, newParentId) == path[..|path| - 1];
      if table[id].parentId.Some? {
        assert path[..|path| - 1] == table[table[id].parentId.value].path;
      }
    }
  }

  lemma MovedPathOf(table: T.Table, id: int, newParentId: Option<int>, c: int)
    requires T.Agrees(table) && T.MoveResult(table, id, newParentId).Ok? && c in table
    ensures T.Moved(table, id, newParentId)[c].path == table[c].path
            <==> !T.Descendant(table, id, c) || table[id].parentId == newParentId
  {
    T.SubtreeQueryIsDescendants(table, id, c);
    SamePathMeansSameParent(table, id, newParentId);
    if id in table[c].path {
      T.MemberPathExtendsNodePath(table, id, c);
      var tail := table[c].path[|table[id].path|..];
      var head := T.Prefix(table, newParentId) + [id];
      assert T.Moved(table, id, newParentId)[c].path == head + tail;
      assert table[c].path == table[id].path + tail;
      if head + tail == table[id].path + tail {
        assert |head| == |table[id].path|;
        assert head == (head + tail)[..|head|] == table[id].path;
      }
    }
  }

  /**
   A category move rebuilds no card. From fresh cards, they are all still fresh exactly when
   the node keeps its parent or no active product sits anywhere in the moved subtree.
   */
  lemma MoveKeepsCardsFreshIff(t: Tables, cat: Catalog, table: T.Table, id: int, newParentId: Option<int>)
    requires AllHealthy(t, cat) && cat.paths == PathsOf(table) && T.Agrees(table)
    requires forall p :: p in t.products ==> t.products[p].categoryId in table
    requires T.MoveResult(table, id, newParentId).Ok?
    ensures AllHealthy(t, cat.(paths := PathsOf(T.Moved(table, id, newParentId)))) <==>
            (table[id].parentId == newParentId
             || forall p :: p in t.products && t.products[p].isActive ==>
               !T.Descendant(table, id, t.products[p].categoryId))
  {
    var paths := PathsOf(T.Moved(table, id, newParentId));
    var cat' := cat.(paths := paths);
    forall p
      ensures Healthy(t, cat', p) <==>
              (p in t.products && t.products[p].isActive ==>
                 !T.Descendant(table, id, t.products[p].categoryId) || table[id].parentId == newParentId)
    {
      assert Healthy(t, cat, p);
      HealthyUnderNewPaths(t, cat, paths, p);
      if p in t.products {
        MovedPathOf(table, id, newParentId, t.products[p].categoryId);
      }
    }
  }
}
