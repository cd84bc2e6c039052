/** Filtering by selected attribute values: AND across attributes, OR within one attribute. */
module Facets {
  import opened Rows
  import opened Cards

  type ValueId = int
  type AttributeId = int

  /** `attributeOf` is the attribute_value table, `links` the product_attribute rows. */
  datatype Dictionary = Dictionary(attributeOf: map<ValueId, AttributeId>, links: set<(ProductId, ValueId)>)

  /** The distinct attributes present in a selection. */
  function SelectedAttributes(d: Dictionary, valueIds: seq<ValueId>): set<AttributeId> {
    set v | v in valueIds && v in d.attributeOf :: d.attributeOf[v]
  }

  /** The product's rows in the grouped query: selected values linked to it, joined to their attribute. */
  function Hits(d: Dictionary, valueIds: seq<ValueId>, p: ProductId): set<ValueId> {
    set v | v in valueIds && v in d.attributeOf && (p, v) in d.links
  }

  function HitAttributes(d: Dictionary, valueIds: seq<ValueId>, p: ProductId): set<AttributeId> {
    set v | v in Hits(d, valueIds, p) :: d.attributeOf[v]
  }

  /** The query: a group exists for the product, and its distinct attributes are as many as expected. */
  predicate FacetFilter(d: Dictionary, valueIds: seq<ValueId>, p: ProductId) {
    Hits(d, valueIds, p) != {} && |HitAttributes(d, valueIds, p)| == |SelectedAttributes(d, valueIds)|
  }

  /** The intent: for every selected attribute the product has one of its selected values. */
  ghost predicate HasSomeValuePerAttribute(d: Dictionary, valueIds: seq<ValueId>, p: ProductId) {
    forall a :: a in SelectedAttributes(d, valueIds) ==>
      exists v :: v in valueIds && v in d.attributeOf && d.attributeOf[v] == a && (p, v) in d.links
  }

  ghost predicate SomeValueExists(d: Dictionary, valueIds: seq<ValueId>) {
    exists v :: v in valueIds && v in d.attributeOf
  }

  lemma SubsetOfSameSize<T>(a: set<T>, b: set<T>)
    requires a <= b && |a| == |b|
    ensures a == b
  {
    if a != b {
      var x :| x in b && x !in a;
      assert |b - {x}| == |b| - 1;
      SubsetSize(a, b - {x});
    }
  }

  /** Counting distinct attributes is relational division, as soon as one selected value exists. */
  lemma CountingIsDivision(d: Dictionary, valueIds: seq<ValueId>, p: ProductId)
    requires SomeValueExists(d, valueIds)
    ensures FacetFilter(d, valueIds, p) <==> HasSomeValuePerAttribute(d, valueIds, p)
  {
    var hit, selected := HitAttributes(d, valueIds, p), SelectedAttributes(d, valueIds);
    var v :| v in valueIds && v in d.attributeOf;
    assert d.attributeOf[v] in selected;
    if FacetFilter(d, valueIds, p) {
      SubsetOfSameSize(hit, selected);
      forall a | a in selected
        ensures exists u :: u in valueIds && u in d.attributeOf && d.attributeOf[u] == a && (p, u) in d.links
      {
        assert a in hit;
        var u :| u in Hits(d, valueIds, p) && d.attributeOf[u] == a;
      }
    }
    if HasSomeValuePerAttribute(d, valueIds, p) {
      forall a | a in selected
        ensures a in hit
      {
        var u :| u in valueIds && u in d.attributeOf && d.attributeOf[u] == a && (p, u) in d.links;
        assert u in Hits(d, valueIds, p);
      }
      assert hit == selected;
    }
  }

  /** With no existing value selected the query returns nothing, while the intent is met by everything. */
  lemma DivisionNeedsAnExistingValue(d: Dictionary, valueIds: seq<ValueId>, p: ProductId)
    ensures (FacetFilter(d, valueIds, p) <==> HasSomeValuePerAttribute(d, valueIds, p))
            <==> SomeValueExists(d, valueIds)
  {
    if SomeValueExists(d, valueIds) {
      CountingIsDivision(d, valueIds, p);
    } else {
      assert forall v :: v in valueIds ==> v !in d.attributeOf;
      assert Hits(d, valueIds, p) == {};
      assert SelectedAttributes(d, valueIds) == {};
    }
  }

  /** One selected value: the filter keeps exactly the products linked to it. */
  lemma SingleValueFilter(d: Dictionary, v: ValueId, p: ProductId)
    requires v in d.attributeOf
    ensures FacetFilter(d, [v], p) <==> (p, v) in d.links
  {
    CountingIsDivision(d, [v], p) by { assert v in [v]; }
    if (p, v) in d.links {
      forall a | a in SelectedAttributes(d, [v])
        ensures exists u :: u in [v] && u in d.attributeOf && d.attributeOf[u] == a && (p, u) in d.links
      {
        assert v in [v];
      }
    }
    if HasSomeValuePerAttribute(d, [v], p) {
      assert v in [v];
      assert d.attributeOf[v] in SelectedAttributes(d, [v]);
    }
  }
}
