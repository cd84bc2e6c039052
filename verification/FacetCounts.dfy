/** The number next to a facet value is the number of cards that filtering by that value lists. */
module FacetCounts {
  import opened Outcomes
  import opened Rows
  import opened Cards
  import opened Products
  import F = Facets
  import L = Listing

  /** Which values, and which of their attributes, have a name in the requested language. */
  datatype Names = Names(attributes: set<F.AttributeId>, values: set<F.ValueId>)

  /** Products with an active card in the category's subtree, in one language. */
  function SubtreeProducts(cards: CardTable, category: int, lang: Lang): set<ProductId> {
    set k | k in cards && cards[k].isActive && cards[k].lang == lang && category in cards[k].path :: cards[k].productId
  }

  /** The joined rows of the facet query that fall in one value's group. */
  function FacetGroup(
    w: L.World, active: set<ProductId>, names: Names, category: int, lang: Lang, v: F.ValueId)
    : set<(ProductId, F.ValueId)>
  {
    set link | link in w.dict.links && link.1 == v
      && v in w.dict.attributeOf && v in names.values && w.dict.attributeOf[v] in names.attributes
      && link.0 in active && link.0 in SubtreeProducts(w.cards, category, lang)
  }

  /** Only non-empty groups come back. */
  function FacetValues(
    w: L.World, active: set<ProductId>, names: Names, category: int, lang: Lang): map<F.ValueId, nat> {
    map v | v in (set link | link in w.dict.links :: link.1) && FacetGroup(w, active, names, category, lang, v) != {} ::
      |FacetGroup(w, active, names, category, lang, v)|
  }

  function ByValue(category: int, lang: Lang, v: F.ValueId): L.Query {
    L.Query(Some(category), lang, None, None, [v], false, false)
  }

  ghost predicate Named(w: L.World, names: Names, v: F.ValueId) {
    v in w.dict.attributeOf && v in names.values && w.dict.attributeOf[v] in names.attributes
  }

  /** No active card of a product that is not active. */
  ghost predicate CardsOfActiveProducts(cards: CardTable, active: set<ProductId>) {
    forall k :: k in cards && cards[k].isActive ==> cards[k].productId in active
  }

  lemma GroupIsTheListing(w: L.World, active: set<ProductId>, names: Names, category: int, lang: Lang, v: F.ValueId)
    requires Keyed(w.cards) && CardsOfActiveProducts(w.cards, active) && Named(w, names, v)
    ensures |FacetGroup(w, active, names, category, lang, v)| == |L.Filtered(w, ByValue(category, lang, v))|
  {
    var group, listed := FacetGroup(w, active, names, category, lang, v), L.Filtered(w, ByValue(category, lang, v));
    var linkOf := (card: Card) => (card.productId, v);
    ImageSize(listed, linkOf);
    forall card | card in listed ensures linkOf(card) in group {
      F.SingleValueFilter(w.dict, v, card.productId);
      assert card.productId in SubtreeProducts(w.cards, category, lang);
    }
    forall link | link in group ensures link in Image(listed, linkOf) {
      var k :| k in w.cards && w.cards[k].isActive && w.cards[k].lang == lang && category in w.cards[k].path
               && w.cards[k].productId == link.0;
      F.SingleValueFilter(w.dict, v, link.0);
      assert w.cards[k] in listed && linkOf(w.cards[k]) == link;
    }
    assert group == Image(listed, linkOf);
  }

  /** A named value is counted exactly when filtering by it lists something, and with exactly that many cards. */
  lemma FacetCountIsTheListingSize(
    w: L.World, active: set<ProductId>, names: Names, category: int, lang: Lang, v: F.ValueId)
    requires Keyed(w.cards) && CardsOfActiveProducts(w.cards, active) && Named(w, names, v)
    ensures var counts, listed := FacetValues(w, active, names, category, lang),
              L.Filtered(w, ByValue(category, lang, v));
            && (v in counts <==> listed != {})
            && (v in counts ==> counts[v] == |listed|)
  {
    var group, listed := FacetGroup(w, active, names, category, lang, v), L.Filtered(w, ByValue(category, lang, v));
    GroupIsTheListing(w, active, names, category, lang, v);
    assert group == {} <==> listed == {};
    if group != {} {
      var link :| link in group;
      assert link.1 in set l | l in w.dict.links :: l.1;
    }
  }

  /** Healthy tables meet the assumption: their cards are the derived view. */
  lemma HealthyCardsAreOfActiveProducts(t: Tables, cat: Catalog)
    requires AllHealthy(t, cat)
    ensures Keyed(t.cards) && CardsOfActiveProducts(t.cards, set p | p in t.products && t.products[p].isActive)
  {
    forall k | k in t.cards
      ensures t.cards[k].productId == k.productId && t.cards[k].lang == k.lang
      ensures k.productId in t.products && t.products[k.productId].isActive
    {
      assert Healthy(t, cat, k.productId);
      assert k == CardKey(k.productId, k.lang);
      assert k.lang in CardsOf(t.cards, k.productId);
    }
  }

  /** Only values that exist, and have a name together with their attribute, are counted. */
  lemma CountedValuesAreNamed(
    w: L.World, active: set<ProductId>, names: Names, category: int, lang: Lang, v: F.ValueId)
    requires v in FacetValues(w, active, names, category, lang)
    ensures v in w.dict.attributeOf && v in names.values && w.dict.attributeOf[v] in names.attributes
    ensures FacetValues(w, active, names, category, lang)[v] > 0
  {
    var group := FacetGroup(w, active, names, category, lang, v);
    var link :| link in group;
  }
}
