/** How many products a category and everything under it hold: the count over card paths against the recursive one. */
module Rollups {
  import opened Outcomes
  import opened Rows
  import opened Aggregates
  import opened Cards
  import T = CategoryTree
  import L = Listing
  import W = CursorWalks
  import P = Products
  import V = CardViews

  function ActiveCards(cards: CardTable, lang: Lang): set<CardKey> {
    set k | k in cards && cards[k].lang == lang && cards[k].isActive
  }

  /** The query's rows: each card joined to every entry of its path. */
  function Unnested(cards: CardTable, lang: Lang): set<(CardKey, int)> {
    set k, i | k in ActiveCards(cards, lang) && k in cards && 0 <= i < |cards[k].path| :: (k, i)
  }

  function Group(cards: CardTable, lang: Lang, c: int): set<(CardKey, int)> {
    set u | u in Unnested(cards, lang) && cards[u.0].path[u.1] == c
  }

  /** Grouped by path entry; categories without products are absent. */
  function CountProductsByCategory(cards: CardTable, lang: Lang): map<int, int> {
    map c | c in (set u | u in Unnested(cards, lang) :: cards[u.0].path[u.1]) :: |Group(cards, lang, c)|
  }

  function CountOf(counts: map<int, int>, c: int): int {
    if c in counts then counts[c] else 0
  }

  /** Active cards carry the path their category has now. */
  ghost predicate FreshPaths(cards: CardTable, t: T.Table) {
    forall k :: k in cards && cards[k].isActive ==>
      cards[k].categoryId in t && cards[k].path == t[cards[k].categoryId].path
  }

  /** Healthy cards have fresh paths, so everything here holds after every run of the product operations. */
  lemma HealthyCardsAreFresh(t: P.Tables, cat: P.Catalog, table: T.Table)
    requires P.AllHealthy(t, cat) && cat.paths == V.PathsOf(table)
    requires forall p :: p in t.products ==> t.products[p].categoryId in table
    ensures Keyed(t.cards) && FreshPaths(t.cards, table)
  {
    forall k | k in t.cards
      ensures t.cards[k].productId == k.productId && t.cards[k].lang == k.lang
      ensures t.cards[k].categoryId in table && t.cards[k].path == table[t.cards[k].categoryId].path
    {
      assert P.Healthy(t, cat, k.productId);
      assert k == CardKey(k.productId, k.lang);
      assert k.lang in P.CardsOf(t.cards, k.productId);
    }
  }

  // ---------------------------------------------------------------- counting cards instead of joined rows

  function Subtree(cards: CardTable, lang: Lang, c: int): set<CardKey> {
    set k | k in ActiveCards(cards, lang) && k in cards && c in cards[k].path
  }

  lemma FreshPathIsChain(cards: CardTable, t: T.Table, k: CardKey)
    requires T.Agrees(t) && FreshPaths(cards, t) && k in cards && cards[k].isActive
    ensures T.IsParentChain(t, cards[k].path, cards[k].categoryId)
    ensures forall i, j :: 0 <= i < j < |cards[k].path| ==> cards[k].path[i] != cards[k].path[j]
  {
    assert T.RowAgrees(t, cards[k].categoryId);
    T.ChainHasNoRepeats(t, cards[k].path, cards[k].categoryId);
  }

  /** Joining and grouping counts every card of the subtree once. */
  lemma UnnestCountsCards(cards: CardTable, t: T.Table, lang: Lang, c: int)
    requires T.Agrees(t) && FreshPaths(cards, t)
    ensures CountOf(CountProductsByCategory(cards, lang), c) == |Subtree(cards, lang, c)|
  {
    var group := Group(cards, lang, c);
    forall u, v | u in group && v in group && u.0 == v.0
      ensures u == v
    {
      FreshPathIsChain(cards, t, u.0);
    }
    var cardOf := (u: (CardKey, int)) => u.0;
    ImageSize(group, cardOf);
    var keys := Image(group, cardOf);
    forall k | k in Subtree(cards, lang, c)
      ensures k in keys
    {
      var i :| 0 <= i < |cards[k].path| && cards[k].path[i] == c;
      assert (k, i) in group;
      assert cardOf((k, i)) == k;
    }
    forall k | k in keys ensures k in Subtree(cards, lang, c) {
      var u :| u in group && cardOf(u) == k;
      assert cards[k].path[u.1] in cards[k].path;
    }
    assert keys == Subtree(cards, lang, c);
    if c !in CountProductsByCategory(cards, lang) {
      forall u | u in Unnested(cards, lang) ensures u !in group {}
      assert group == {};
    }
  }

  // ---------------------------------------------------------------- the recursive count

  function Children(t: T.Table, c: int): set<int> {
    set d | d in t && t[d].parentId == Some(c)
  }

  function OwnCards(cards: CardTable, lang: Lang, c: int): set<CardKey> {
    set k | k in ActiveCards(cards, lang) && k in cards && cards[k].categoryId == c
  }

  function Restricted(counts: map<int, int>, ids: set<int>): map<int, int> {
    map d | d in counts && d in ids :: counts[d]
  }

  /** Its own active products plus the counts of its children. */
  ghost predicate RowCounts(t: T.Table, cards: CardTable, lang: Lang, counts: map<int, int>, c: int) {
    c in counts && counts[c] == |OwnCards(cards, lang, c)| + Sum(Restricted(counts, Children(t, c)))
  }

  ghost predicate CountsRecursively(t: T.Table, cards: CardTable, lang: Lang, counts: map<int, int>) {
    counts.Keys == t.Keys && forall c {:trigger RowCounts(t, cards, lang, counts, c)} :: c in t ==>
      RowCounts(t, cards, lang, counts, c)
  }

  /** A card lies in a category's subtree as its own card, or through exactly one child. */
  lemma SubtreeSplits(cards: CardTable, t: T.Table, lang: Lang, c: int, k: CardKey)
    requires T.Agrees(t) && FreshPaths(cards, t) && c in t && k in ActiveCards(cards, lang)
    ensures k in Subtree(cards, lang, c) <==>
              cards[k].categoryId == c || exists d :: d in Children(t, c) && k in Subtree(cards, lang, d)
    ensures forall d :: d in Children(t, c) && k in Subtree(cards, lang, d) ==> cards[k].categoryId != c
    ensures forall d, e ::
              d in Children(t, c) && e in Children(t, c) && k in Subtree(cards, lang, d) && k in Subtree(cards, lang, e)
              ==> d == e
  {
    FreshPathIsChain(cards, t, k);
    var path := cards[k].path;
    if c in path && cards[k].categoryId != c {
      var i :| 0 <= i < |path| && path[i] == c;
      assert T.LinkAt(t, path, i + 1);
      var d := path[i + 1];
      assert d in Children(t, c) && k in Subtree(cards, lang, d);
    }
    if cards[k].categoryId == c {
      assert path[|path| - 1] in path;
    }
    forall d | d in Children(t, c) && k in Subtree(cards, lang, d)
      ensures exists i :: 0 < i < |path| && path[i] == d && path[i - 1] == c
    {
      var i :| 0 <= i < |path| && path[i] == d;
      assert i > 0 ==> T.LinkAt(t, path, i);
    }
  }

  function Union<A>(parts: map<int, set<A>>): set<A> {
    set d, x | d in parts && x in parts[d] :: x
  }

  function Sizes<A>(parts: map<int, set<A>>): map<int, int> {
    map d | d in parts :: |parts[d]|
  }

  ghost predicate PairwiseDisjoint<A(!new)>(parts: map<int, set<A>>) {
    forall d, e :: d in parts && e in parts && d != e ==> parts[d] !! parts[e]
  }

  lemma UnionSplits<A(!new)>(parts: map<int, set<A>>, d: int)
    requires PairwiseDisjoint(parts) && d in parts
    ensures |Union(parts)| == |Union(parts - {d})| + |parts[d]|
    ensures PairwiseDisjoint(parts - {d})
  {
    var rest := parts - {d};
    forall x ensures x in Union(parts) <==> x in Union(rest) || x in parts[d] {
      if x in Union(parts) {
        var e :| e in parts && x in parts[e];
        assert e != d ==> e in rest && x in rest[e];
      }
      if x in Union(rest) {
        var e :| e in rest && x in rest[e];
        assert e in parts && x in parts[e];
      }
    }
    assert Union(parts) == Union(rest) + parts[d];
    forall x | x in Union(rest) ensures x !in parts[d] {
      var e :| e in rest && x in rest[e];
      assert parts[d] !! parts[e];
    }
  }

  lemma {:induction false} DisjointPartsAddUp<A(!new)>(parts: map<int, set<A>>)
    requires PairwiseDisjoint(parts)
    ensures |Union(parts)| == Sum(Sizes(parts))
    decreases |parts|
  {
    if parts == map[] {
      assert Union(parts) == {} && Sizes(parts) == map[];
    } else {
      KeysNonEmpty(parts);
      var d := AnyOf(parts.Keys);
      SmallerMap(parts, d);
      UnionSplits(parts, d);
      DisjointPartsAddUp(parts - {d});
      SumSplitsOff(Sizes(parts), d);
      assert Sizes(parts) - {d} == Sizes(parts - {d});
    }
  }

  function PathCounts(t: T.Table, cards: CardTable, lang: Lang): map<int, int> {
    map c | c in t :: CountOf(CountProductsByCategory(cards, lang), c)
  }

  function ChildSubtrees(cards: CardTable, t: T.Table, lang: Lang, c: int): map<int, set<CardKey>> {
    map d | d in Children(t, c) :: Subtree(cards, lang, d)
  }

  lemma ChildSubtreesDisjoint(cards: CardTable, t: T.Table, lang: Lang, c: int, d: int, e: int)
    requires T.Agrees(t) && FreshPaths(cards, t) && c in t && d in Children(t, c) && e in Children(t, c) && d != e
    ensures Subtree(cards, lang, d) !! Subtree(cards, lang, e)
  {
    forall k | k in Subtree(cards, lang, d)
      ensures k !in Subtree(cards, lang, e)
    {
      SubtreeSplits(cards, t, lang, c, k);
    }
  }

  lemma SubtreeIsOwnAndChildren(cards: CardTable, t: T.Table, lang: Lang, c: int)
    requires T.Agrees(t) && FreshPaths(cards, t) && c in t
    ensures var own, below := OwnCards(cards, lang, c), Union(ChildSubtrees(cards, t, lang, c));
            Subtree(cards, lang, c) == own + below && own !! below
  {
    var parts := ChildSubtrees(cards, t, lang, c);
    forall k | k in ActiveCards(cards, lang)
      ensures k in Union(parts) <==> exists d :: d in Children(t, c) && k in Subtree(cards, lang, d)
    {
      if d :| d in Children(t, c) && k in Subtree(cards, lang, d) {
        assert k in parts[d];
      }
    }
    forall k | k in ActiveCards(cards, lang)
      ensures k in Subtree(cards, lang, c) <==> k in OwnCards(cards, lang, c) || k in Union(parts)
      ensures !(k in OwnCards(cards, lang, c) && k in Union(parts))
    {
      SubtreeSplits(cards, t, lang, c, k);
    }
  }

  lemma ChildSubtreesAddUp(cards: CardTable, t: T.Table, lang: Lang, c: int)
    requires T.Agrees(t) && FreshPaths(cards, t) && c in t
    ensures var parts := ChildSubtrees(cards, t, lang, c); |Union(parts)| == Sum(Sizes(parts))
  {
    var parts := ChildSubtrees(cards, t, lang, c);
    forall d, e | d in parts && e in parts && d != e ensures parts[d] !! parts[e] {
      ChildSubtreesDisjoint(cards, t, lang, c, d, e);
    }
    DisjointPartsAddUp(parts);
  }

  lemma ChildSizesAreCounts(cards: CardTable, t: T.Table, lang: Lang, c: int)
    requires T.Agrees(t) && FreshPaths(cards, t)
    ensures Sizes(ChildSubtrees(cards, t, lang, c)) == Restricted(PathCounts(t, cards, lang), Children(t, c))
  {
    forall d | d in Children(t, c) ensures |Subtree(cards, lang, d)| == PathCounts(t, cards, lang)[d] {
      UnnestCountsCards(cards, t, lang, d);
    }
  }

  lemma SubtreeAddsUp(cards: CardTable, t: T.Table, lang: Lang, c: int)
    requires T.Agrees(t) && FreshPaths(cards, t) && c in t
    ensures |Subtree(cards, lang, c)| ==
            |OwnCards(cards, lang, c)| + Sum(Restricted(PathCounts(t, cards, lang), Children(t, c)))
  {
    SubtreeIsOwnAndChildren(cards, t, lang, c);
    ChildSubtreesAddUp(cards, t, lang, c);
    ChildSizesAreCounts(cards, t, lang, c);
  }

  /** With fresh cards the count over paths is a recursive count. */
  lemma PathCountsAreRecursive(cards: CardTable, t: T.Table, lang: Lang)
    requires T.Agrees(t) && FreshPaths(cards, t)
    ensures CountsRecursively(t, cards, lang, PathCounts(t, cards, lang))
  {
    forall c | c in t
      ensures RowCounts(t, cards, lang, PathCounts(t, cards, lang), c)
    {
      UnnestCountsCards(cards, t, lang, c);
      SubtreeAddsUp(cards, t, lang, c);
    }
  }

  lemma PathFits(t: T.Table, c: int)
    requires T.Agrees(t) && c in t
    ensures |t[c].path| <= |t|
  {
    assert T.RowAgrees(t, c);
    T.ChainHasNoRepeats(t, t[c].path, c);
    var ids := Elements(t[c].path);
    forall i, j | 0 <= i < j < |t[c].path| ensures t[c].path[i] != t[c].path[j] {}
    ListSize(t[c].path, ids);
    assert ids <= t.Keys;
    SubsetSize(ids, t.Keys);
    assert |t.Keys| == |t|;
  }

  /** The recursive equation has one solution: however it is computed, it gives the counts over paths. */
  lemma {:induction false} RecursiveCountIsUnique(
    cards: CardTable, t: T.Table, lang: Lang, a: map<int, int>, b: map<int, int>, c: int)
    requires T.Agrees(t) && CountsRecursively(t, cards, lang, a) && CountsRecursively(t, cards, lang, b) && c in t
    ensures a[c] == b[c]
    decreases |t| - |t[c].path|
  {
    PathFits(t, c);
    forall d | d in Children(t, c)
      ensures a[d] == b[d]
    {
      PathFits(t, d);
      T.ChainLinks(t, d);
      RecursiveCountIsUnique(cards, t, lang, a, b, d);
    }
    assert RowCounts(t, cards, lang, a, c) && RowCounts(t, cards, lang, b, c);
    assert Restricted(a, Children(t, c)) == Restricted(b, Children(t, c));
  }

  // ---------------------------------------------------------------- the count and the listing

  function WholeCategory(c: int, lang: Lang): L.Query {
    L.Query(Some(c), lang, None, None, [], false, false)
  }

  lemma ListedAreTheSubtree(w: L.World, lang: Lang, c: int)
    requires Keyed(w.cards)
    ensures |L.Filtered(w, WholeCategory(c, lang))| == |Subtree(w.cards, lang, c)|
  {
    var keys, listed := Subtree(w.cards, lang, c), L.Filtered(w, WholeCategory(c, lang));
    var keyOf := (card: Card) => CardKey(card.productId, card.lang);
    forall a, b | a in listed && b in listed && keyOf(a) == keyOf(b) ensures a == b {}
    ImageSize(listed, keyOf);
    forall k | k in keys ensures k in Image(listed, keyOf) {
      assert w.cards[k] in listed && keyOf(w.cards[k]) == k;
    }
    assert keys == Image(listed, keyOf);
  }

  /** The number shown for a category is the number of cards a walk through all its pages returns. */
  lemma CountIsTheWalkLength(w: L.World, t: T.Table, lang: Lang, c: int, sort: L.Sort, pageSize: int)
    requires Keyed(w.cards) && T.Agrees(t) && FreshPaths(w.cards, t)
    ensures |W.Flatten(W.Walk(w, WholeCategory(c, lang), sort, None, pageSize))| ==
            CountOf(CountProductsByCategory(w.cards, lang), c)
  {
    var query := WholeCategory(c, lang);
    W.FullWalkIsTheListing(w, query, sort, pageSize);
    ListSize(W.Flatten(W.Walk(w, query, sort, None, pageSize)), L.Filtered(w, query));
    ListedAreTheSubtree(w, lang, c);
    UnnestCountsCards(w.cards, t, lang, c);
  }
}
