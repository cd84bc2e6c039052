/** What `generate_variants` promises: the cartesian product of the assigned values is completed, and stays complete. */
module VariantGeneration {
  import opened Outcomes
  import opened Rows
  import opened Cards
  import opened Combos
  import opened Products
  import opened ProductOps
  import opened ProductRuns

  /** A value has one attribute, so lists of different selectors share no value. */
  lemma ValueListsShape(t: Tables, cat: Catalog, p: ProductId)
    requires NoRepeats(Selectors(t, p))
    ensures PairwiseDisjoint(ValueLists(t, cat, p))
    ensures forall i :: 0 <= i < |ValueLists(t, cat, p)| ==> NoRepeats(ValueLists(t, cat, p)[i])
  {
    var lists, selectors := ValueLists(t, cat, p), Selectors(t, p);
    forall i, j, v | 0 <= i < j < |lists| && v in lists[i]
      ensures v !in lists[j]
    {
      assert v in AssignedValues(t, cat, p, selectors[i]);
      assert v in lists[j] ==> v in AssignedValues(t, cat, p, selectors[j]);
    }
  }

  // ---------------------------------------------------------------- combinations, said of the tables

  /** The values of an attribute that the product is linked to. */
  ghost function LinkedValues(t: Tables, cat: Catalog, p: ProductId, a: AttributeId): set<ValueId> {
    set v | v in cat.attributeOf && cat.attributeOf[v] == a && (p, v) in t.links
  }

  /** One value per selector of the product, each linked to the product and of that selector's attribute. */
  ghost predicate IsCombination(t: Tables, cat: Catalog, p: ProductId, combo: seq<ValueId>) {
    && p in t.selectors && |combo| == |t.selectors[p]|
    && forall i :: 0 <= i < |combo| ==>
         && (p, combo[i]) in t.links
         && combo[i] in cat.attributeOf && cat.attributeOf[combo[i]] == t.selectors[p][i]
  }

  lemma AssignedAreLinked(t: Tables, cat: Catalog, p: ProductId, a: AttributeId)
    ensures AssignedValues(t, cat, p, a) == LinkedValues(t, cat, p, a)
  {
    forall v | v in LinkedValues(t, cat, p, a) ensures v in AssignedValues(t, cat, p, a) {
      assert (p, v) in t.links;
    }
  }

  /** Each list holds exactly the linked values of its selector, ascending. */
  lemma ValueListHolds(t: Tables, cat: Catalog, p: ProductId, i: nat)
    requires p in t.selectors && i < |t.selectors[p]|
    ensures |ValueLists(t, cat, p)| == |t.selectors[p]|
    ensures var list, values := ValueLists(t, cat, p)[i], LinkedValues(t, cat, p, t.selectors[p][i]);
            && |list| == |values| && (forall v :: v in list <==> v in values)
            && forall j, k :: 0 <= j < k < |list| ==> list[j] < list[k]
  {
    AssignedAreLinked(t, cat, p, t.selectors[p][i]);
  }

  lemma PicksAreCombinations(t: Tables, cat: Catalog, p: ProductId, combo: seq<ValueId>)
    requires p in t.selectors
    ensures Picks(ValueLists(t, cat, p), combo) <==> IsCombination(t, cat, p, combo)
  {
    forall i | 0 <= i < |t.selectors[p]| && i < |combo|
      ensures combo[i] in ValueLists(t, cat, p)[i] <==>
                && (p, combo[i]) in t.links
                && combo[i] in cat.attributeOf && cat.attributeOf[combo[i]] == t.selectors[p][i]
    {
      ValueListHolds(t, cat, p, i);
      var v := combo[i];
      assert v in LinkedValues(t, cat, p, t.selectors[p][i]) <==>
               (p, v) in t.links && v in cat.attributeOf && cat.attributeOf[v] == t.selectors[p][i];
    }
  }

  /**
   Generation is refused for a missing product, one without selectors, and one that has a selector
   without a linked value.
   */
  lemma GenerateRefusedIff(t: Tables, cat: Catalog, p: ProductId)
    ensures AddMissingVariants(t, cat, p).Err? <==>
              || p !in t.products || p !in t.selectors || t.selectors[p] == []
              || exists a :: a in t.selectors[p] && LinkedValues(t, cat, p, a) == {}
  {
    if p in t.selectors && t.selectors[p] != [] {
      var lists := ValueLists(t, cat, p);
      forall i | 0 <= i < |t.selectors[p]|
        ensures lists[i] == [] <==> LinkedValues(t, cat, p, t.selectors[p][i]) == {}
      {
        ValueListHolds(t, cat, p, i);
      }
      if [] in lists {
        var i :| 0 <= i < |lists| && lists[i] == [];
        assert t.selectors[p][i] in t.selectors[p];
      }
      if a :| a in t.selectors[p] && LinkedValues(t, cat, p, a) == {} {
        var i :| 0 <= i < |t.selectors[p]| && t.selectors[p][i] == a;
        assert lists[i] in lists;
      }
    }
  }

  /** How many combinations there are: the numbers of linked values multiplied, selector by selector. */
  ghost function CombinationCount(t: Tables, cat: Catalog, p: ProductId, selectors: seq<AttributeId>): nat {
    if selectors == [] then 1
    else |LinkedValues(t, cat, p, selectors[0])| * CombinationCount(t, cat, p, selectors[1..])
  }

  lemma {:induction false} SizesFrom(t: Tables, cat: Catalog, p: ProductId, i: nat)
    requires p in t.selectors && i <= |t.selectors[p]|
    ensures SizesProduct(ValueLists(t, cat, p)[i..]) == CombinationCount(t, cat, p, t.selectors[p][i..])
    decreases |t.selectors[p]| - i
  {
    var lists, selectors := ValueLists(t, cat, p), t.selectors[p];
    if i < |selectors| {
      SizesFrom(t, cat, p, i + 1);
      ValueListHolds(t, cat, p, i);
      assert lists[i..][1..] == lists[i + 1..] && selectors[i..][1..] == selectors[i + 1..];
    }
  }

  lemma WellFormedSelectors(t: Tables, p: ProductId)
    requires WellFormed(t)
    ensures NoRepeats(Selectors(t, p))
  {
  }

  lemma CombinationCountIsTheProduct(t: Tables, cat: Catalog, p: ProductId)
    ensures var selectors := if p in t.selectors then t.selectors[p] else [];
            SizesProduct(ValueLists(t, cat, p)) == CombinationCount(t, cat, p, selectors)
  {
    if p in t.selectors {
      SizesFrom(t, cat, p, 0);
      assert ValueLists(t, cat, p)[0..] == ValueLists(t, cat, p) && t.selectors[p][0..] == t.selectors[p];
    }
  }

  /** Created and skipped together are all combinations; skipped are those that some variant had before. */
  lemma CreatedPlusSkipped(t: Tables, cat: Catalog, p: ProductId)
    requires WellFormed(t)
    ensures var existing := ExistingSets(t.variants, p);
            && |MissingSets(t, cat, p)| + CountSkipped(Combinations(t, cat, p), existing)
               == SizesProduct(ValueLists(t, cat, p))
               == CombinationCount(t, cat, p, if p in t.selectors then t.selectors[p] else [])
            && CountSkipped(Combinations(t, cat, p), existing) == CountExisting(Combinations(t, cat, p), existing)
  {
    var combos, existing := Combinations(t, cat, p), ExistingSets(t.variants, p);
    WellFormedSelectors(t, p);
    ValueListsShape(t, cat, p);
    CartesianSize(ValueLists(t, cat, p));
    CartesianDistinctSets(ValueLists(t, cat, p));
    MissingMembers(combos, existing, {});
    SkippedExistedBefore(combos, existing);
    CombinationCountIsTheProduct(t, cat, p);
  }

  /** The created rows: of this product, at its price, active, without stock or code, one per missing set. */
  lemma GeneratedRow(t: Tables, cat: Catalog, p: ProductId, v: int)
    requires p in t.products && v in GeneratedRows(t, cat, p)
    ensures var row := GeneratedRows(t, cat, p)[v];
            && row.productId == p && row.price == t.products[p].price && row.qty == 0 && row.isActive
            && row.code == None
            && row.values in MissingSets(t, cat, p)
    ensures v >= t.nextId
  {
    NewVariantRow(p, t.products[p].price, t.nextId, NextPosition(VariantPositions(t.variants, p)),
      MissingSets(t, cat, p), v);
  }

  lemma MissingSetGetsRow(t: Tables, cat: Catalog, p: ProductId, s: set<ValueId>)
    requires p in t.products && s in MissingSets(t, cat, p)
    ensures exists v :: v in GeneratedRows(t, cat, p) && GeneratedRows(t, cat, p)[v].values == s
  {
    var missing := MissingSets(t, cat, p);
    var i :| 0 <= i < |missing| && missing[i] == s;
    assert t.nextId + i in GeneratedRows(t, cat, p);
  }

  lemma SomeVariantHas(t: Tables, cat: Catalog, p: ProductId, combo: seq<ValueId>)
    requires WellFormed(t) && p in t.products && combo in Combinations(t, cat, p)
    ensures exists v :: v in t.variants + GeneratedRows(t, cat, p)
                        && (t.variants + GeneratedRows(t, cat, p))[v].productId == p
                        && (t.variants + GeneratedRows(t, cat, p))[v].values == Elements(combo)
  {
    var s, rows := Elements(combo), GeneratedRows(t, cat, p);
    var all := t.variants + rows;
    MissingMembers(Combinations(t, cat, p), ExistingSets(t.variants, p), s);
    if s in ExistingSets(t.variants, p) {
      var v :| v in t.variants && t.variants[v].productId == p && t.variants[v].values == s;
      assert v !in rows by {
        if v in rows { GeneratedRow(t, cat, p, v); }
      }
      assert all[v] == t.variants[v];
    } else {
      MissingSetGetsRow(t, cat, p, s);
      var v :| v in rows && rows[v].values == s;
      GeneratedRow(t, cat, p, v);
      assert all[v] == rows[v];
    }
  }

  /** Afterwards every combination is the value set of exactly one variant. */
  lemma GenerateCompletesTheProduct(t: Tables, cat: Catalog, p: ProductId, combo: seq<ValueId>)
    requires WellFormed(t) && DistinctVariants(t) && AddMissingVariants(t, cat, p).Ok?
    requires IsCombination(t, cat, p, combo)
    ensures var variants := AddMissingVariants(t, cat, p).value.variants;
            exists v :: v in variants && variants[v].productId == p && variants[v].values == Elements(combo)
                        && forall w ::
                             w in variants && variants[w].productId == p && variants[w].values == Elements(combo)
                             ==> w == v
  {
    var variants := AddMissingVariants(t, cat, p).value.variants;
    GenerateKeepsDistinct(t, cat, p);
    PicksAreCombinations(t, cat, p, combo);
    CartesianMembers(ValueLists(t, cat, p), combo);
    SomeVariantHas(t, cat, p, combo);
    var v :| v in variants && variants[v].productId == p && variants[v].values == Elements(combo);
    assert forall w :: w in variants && variants[w].productId == p && variants[w].values == Elements(combo) ==> w == v;
  }

  /** Existing variants are left intact. */
  lemma OldVariantsUntouched(t: Tables, cat: Catalog, p: ProductId)
    requires AddMissingVariants(t, cat, p).Ok? && WellFormed(t)
    ensures forall v :: v in t.variants ==>
              v in AddMissingVariants(t, cat, p).value.variants
              && AddMissingVariants(t, cat, p).value.variants[v] == t.variants[v]
  {
    forall v | v in GeneratedRows(t, cat, p)
      ensures v !in t.variants
    {
      GeneratedRow(t, cat, p, v);
    }
  }

  /** Each created variant is a combination nobody had, at the product's price, active, with no stock. */
  lemma CreatedVariants(t: Tables, cat: Catalog, p: ProductId, v: int)
    requires AddMissingVariants(t, cat, p).Ok? && WellFormed(t)
    requires v in AddMissingVariants(t, cat, p).value.variants && v !in t.variants
    ensures var row := AddMissingVariants(t, cat, p).value.variants[v];
            && row.productId == p && row.price == t.products[p].price && row.qty == 0 && row.isActive
            && row.code == None
            && (forall w :: w in t.variants && t.variants[w].productId == p ==>
                  t.variants[w].values != row.values && t.variants[w].position < row.position)
            && exists combo :: IsCombination(t, cat, p, combo) && Elements(combo) == row.values
  {
    GeneratedRow(t, cat, p, v);
    var s := GeneratedRows(t, cat, p)[v].values;
    MissingMembers(Combinations(t, cat, p), ExistingSets(t.variants, p), s);
    var combo :| combo in Combinations(t, cat, p) && Elements(combo) == s;
    CartesianMembers(ValueLists(t, cat, p), combo);
    PicksAreCombinations(t, cat, p, combo);
    CombinationsAreNonEmptySets(t, cat, p, s);
    MissingAreNew(t, cat, p, s);
    GeneratedPosition(t, cat, p, v);
    assert AddMissingVariants(t, cat, p).value.variants[v] == GeneratedRows(t, cat, p)[v];
  }

  /** New variants come after all that were there. */
  lemma GeneratedPosition(t: Tables, cat: Catalog, p: ProductId, v: int)
    requires p in t.products && v in GeneratedRows(t, cat, p)
    ensures forall w :: w in t.variants && t.variants[w].productId == p ==>
              t.variants[w].position < GeneratedRows(t, cat, p)[v].position
  {
    var rows, missing, i := GeneratedRows(t, cat, p), MissingSets(t, cat, p), v - t.nextId;
    var first := NextPosition(VariantPositions(t.variants, p));
    assert 0 <= i < |missing| && rows[t.nextId + i] == GeneratedVariant(p, t.products[p].price, first + i, missing[i]);
    forall w | w in t.variants && t.variants[w].productId == p
      ensures t.variants[w].position < first
    {
      assert t.variants[w].position in VariantPositions(t.variants, p);
    }
  }

  lemma AllCombinationsExist(t: Tables, cat: Catalog, p: ProductId)
    requires WellFormed(t) && AddMissingVariants(t, cat, p).Ok?
    ensures var t' := AddMissingVariants(t, cat, p).value;
            forall c :: c in Combinations(t, cat, p) ==> Elements(c) in ExistingSets(t'.variants, p)
  {
    var t' := AddMissingVariants(t, cat, p).value;
    forall c | c in Combinations(t, cat, p)
      ensures Elements(c) in ExistingSets(t'.variants, p)
    {
      SomeVariantHas(t, cat, p, c);
      CartesianMembers(ValueLists(t, cat, p), c);
      assert c[0] in Elements(c);
    }
  }

  lemma NothingToAdd(t: Tables, cat: Catalog, p: ProductId)
    requires AddMissingVariants(t, cat, p).Ok? && MissingSets(t, cat, p) == []
    ensures AddMissingVariants(t, cat, p) == Ok(t)
  {
    assert GeneratedRows(t, cat, p) == map[];
    assert t.variants + GeneratedRows(t, cat, p) == t.variants;
  }

  lemma NothingMissingAfterwards(t: Tables, cat: Catalog, p: ProductId, t1: Tables)
    requires WellFormed(t) && AddMissingVariants(t, cat, p).Ok?
    requires t1.variants == AddMissingVariants(t, cat, p).value.variants
    requires t1.selectors == t.selectors && t1.links == t.links
    ensures ValueLists(t1, cat, p) == ValueLists(t, cat, p) && Selectors(t1, p) == Selectors(t, p)
    ensures MissingSets(t1, cat, p) == []
    ensures CountSkipped(Combinations(t1, cat, p), ExistingSets(t1.variants, p)) == SizesProduct(ValueLists(t1, cat, p))
  {
    AllCombinationsExist(t, cat, p);
    assert ValueLists(t1, cat, p) == ValueLists(t, cat, p);
    NothingMissing(Combinations(t1, cat, p), ExistingSets(t1.variants, p));
    CartesianSize(ValueLists(t1, cat, p));
  }

  lemma RebuildKeepsSources(t: Tables, cat: Catalog, p: ProductId)
    requires Rebuild(t, cat, p).Ok?
    ensures var t1 := Rebuild(t, cat, p).value;
            t1.variants == t.variants && t1.selectors == t.selectors && t1.links == t.links
  {}

  lemma AddingKeepsSelectors(t: Tables, cat: Catalog, p: ProductId)
    requires AddMissingVariants(t, cat, p).Ok?
    ensures var t1 := AddMissingVariants(t, cat, p).value; t1.selectors == t.selectors && t1.links == t.links
    ensures p in t.products && p in AddMissingVariants(t, cat, p).value.products
  {}

  /** A second run creates nothing, skips everything and changes no table. */
  lemma SecondRunChangesNothing(t: Tables, cat: Catalog, p: ProductId, t1: Tables)
    requires WellFormed(t) && AddMissingVariants(t, cat, p).Ok?
    requires Rebuild(AddMissingVariants(t, cat, p).value, cat, p) == Ok(t1)
    ensures MissingSets(t1, cat, p) == []
    ensures CountSkipped(Combinations(t1, cat, p), ExistingSets(t1.variants, p)) == SizesProduct(ValueLists(t1, cat, p))
    ensures AddMissingVariants(t1, cat, p) == Ok(t1) && Rebuild(t1, cat, p) == Ok(t1)
  {
    AddingKeepsSelectors(t, cat, p);
    RebuildKeepsSources(AddMissingVariants(t, cat, p).value, cat, p);
    NothingMissingAfterwards(t, cat, p, t1);
    NothingToAdd(t1, cat, p);
    RebuildTwiceIsOnce(AddMissingVariants(t, cat, p).value, cat, p);
  }

  lemma GenerateIsIdempotent(t: Tables, cat: Catalog, p: ProductId)
    requires WellFormed(t)
    ensures Step(Step(t, cat, GenerateVariants(p)), cat, GenerateVariants(p)) == Step(t, cat, GenerateVariants(p))
  {
    if Perform(t, cat, GenerateVariants(p)).Ok? {
      SecondRunChangesNothing(t, cat, p, Perform(t, cat, GenerateVariants(p)).value);
    }
  }
}
