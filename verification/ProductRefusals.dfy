/** Which product operations are accepted, and how the others are refused, said of the rows before. */
module ProductRefusals {
  import opened Outcomes
  import opened Rows
  import opened Cards
  import opened Combos
  import opened Products
  import opened ProductOps
  import opened ProductEffects
  import opened CardViews
  import opened CardContents

  // ---------------------------------------------------------------- one value per selector

  /** The values exist, and every selector has exactly one of them and no other attribute has any. */
  ghost predicate OneValuePerSelector(cat: Catalog, valueIds: seq<ValueId>, selectors: seq<AttributeId>) {
    && (forall v :: v in valueIds ==> v in cat.attributeOf && cat.attributeOf[v] in selectors)
    && (forall a :: a in selectors ==> exists v :: v in valueIds && v in cat.attributeOf && cat.attributeOf[v] == a)
    && forall v, w :: v in valueIds && w in valueIds && cat.attributeOf[v] == cat.attributeOf[w] ==> v == w
  }

  lemma CountedOnce<T>(s: seq<T>, x: T)
    requires NoRepeats(s)
    ensures multiset(s)[x] == if x in s then 1 else 0
  {
    OnceIsOne(s, x);
  }

  lemma SameOnce<T(!new)>(a: seq<T>, b: seq<T>)
    requires NoRepeats(a) && NoRepeats(b) && forall x :: x in a <==> x in b
    ensures multiset(a) == multiset(b)
  {
    forall x ensures multiset(a)[x] == multiset(b)[x] {
      CountedOnce(a, x);
      CountedOnce(b, x);
    }
  }

  lemma OneValueEachSuffices(cat: Catalog, values: seq<ValueId>, selectors: seq<AttributeId>)
    requires NoRepeats(values) && NoRepeats(selectors) && OneValuePerSelector(cat, values, selectors)
    ensures multiset(AttributesOf(cat.attributeOf, values)) == multiset(selectors)
  {
    var attributes := AttributesOf(cat.attributeOf, values);
    AttributeOfEach(cat.attributeOf, values);
    forall a ensures a in attributes <==> a in selectors {
      if a in attributes {
        var i :| 0 <= i < |attributes| && attributes[i] == a;
        assert values[i] in values;
      }
      if a in selectors {
        var v :| v in values && cat.attributeOf[v] == a;
        var i :| 0 <= i < |values| && values[i] == v;
        assert attributes[i] == a;
      }
    }
    forall i, j | 0 <= i < j < |attributes| ensures attributes[i] != attributes[j] {
      assert values[i] in values && values[j] in values;
    }
    SameOnce(attributes, selectors);
  }

  lemma MatchingIsOneEach(cat: Catalog, values: seq<ValueId>, selectors: seq<AttributeId>)
    requires NoRepeats(selectors) && forall v :: v in values ==> v in cat.attributeOf
    requires multiset(AttributesOf(cat.attributeOf, values)) == multiset(selectors)
    ensures OneValuePerSelector(cat, values, selectors)
  {
    var attributes := AttributesOf(cat.attributeOf, values);
    AttributeOfEach(cat.attributeOf, values);
    SameElements(attributes, selectors);
    OneValueEach(cat.attributeOf, values, selectors);
    forall v | v in values ensures cat.attributeOf[v] in selectors {
      var i :| 0 <= i < |values| && values[i] == v;
      assert attributes[i] in attributes;
    }
    forall a | a in selectors
      ensures exists v :: v in values && v in cat.attributeOf && cat.attributeOf[v] == a
    {
      assert a in attributes;
      var i :| 0 <= i < |attributes| && attributes[i] == a;
      var v := values[i];
      assert v in values && cat.attributeOf[v] == a;
    }
  }

  /** The comparison of attribute multisets asks for one value per selector. */
  lemma MatchesIff(cat: Catalog, values: seq<ValueId>, selectors: seq<AttributeId>)
    requires NoRepeats(values) && NoRepeats(selectors) && forall v :: v in values ==> v in cat.attributeOf
    ensures multiset(AttributesOf(cat.attributeOf, values)) == multiset(selectors) <==>
              OneValuePerSelector(cat, values, selectors)
  {
    if OneValuePerSelector(cat, values, selectors) {
      OneValueEachSuffices(cat, values, selectors);
    } else if multiset(AttributesOf(cat.attributeOf, values)) == multiset(selectors) {
      MatchingIsOneEach(cat, values, selectors);
    }
  }

  // ---------------------------------------------------------------- creating a variant

  predicate CodeFree(t: Tables, code: Option<string>) {
    code.Some? && code.value != "" ==> forall v :: v in t.variants ==> t.variants[v].code != code
  }

  predicate CombinationFree(t: Tables, p: ProductId, valueIds: seq<ValueId>) {
    forall v :: v in t.variants && t.variants[v].productId == p ==> t.variants[v].values != Elements(valueIds)
  }

  /** The checks in their order, each given as whether it passes. */
  lemma VariantChecks(
    t: Tables, cat: Catalog, p: ProductId, valueIds: seq<ValueId>, code: Option<string>, price: Money,
    oldPrice: Option<Money>, qty: int, isActive: bool, known: bool, matches: bool, free: bool)
    requires known <==> forall v :: v in Dedup(valueIds) ==> v in cat.attributeOf
    requires known ==>
               (matches <==>
                  multiset(AttributesOf(cat.attributeOf, Dedup(valueIds))) == multiset(Selectors(t, p)))
    requires free <==> !CodeTaken(t.variants, code) && Elements(Dedup(valueIds)) !in ExistingSets(t.variants, p)
    ensures var added := AddVariant(t, cat, p, valueIds, code, price, oldPrice, qty, isActive);
            if p !in t.products then added == Err(NotFound)
            else if Selectors(t, p) == [] then added == Err(Invalid)
            else if !known then added == Err(NotFound)
            else if !matches then added == Err(Invalid)
            else if !free then added == Err(Conflict)
            else added.Ok?
  {
  }

  lemma SameValues(cat: Catalog, values: seq<ValueId>, same: seq<ValueId>, selectors: seq<AttributeId>)
    requires forall v :: v in values <==> v in same
    ensures OneValuePerSelector(cat, values, selectors) <==> OneValuePerSelector(cat, same, selectors)
  {
  }

  lemma HasValues(cat: Catalog, values: seq<ValueId>, selectors: seq<AttributeId>)
    requires OneValuePerSelector(cat, values, selectors) && selectors != []
    ensures values != []
  {
    var a := selectors[0];
    assert a in selectors;
    var v :| v in values && v in cat.attributeOf && cat.attributeOf[v] == a;
  }

  lemma FreeIff(t: Tables, p: ProductId, valueIds: seq<ValueId>)
    requires valueIds != []
    ensures Elements(valueIds) in ExistingSets(t.variants, p) <==> !CombinationFree(t, p, valueIds)
  {
    assert valueIds[0] in Elements(valueIds);
  }

  /**
   A variant is accepted if and only if the product has selectors, the values are one for each, the
   code is free, and no sibling has exactly these values; a conflict is about the last two only.
   */
  lemma VariantAcceptedIff(
    t: Tables, cat: Catalog, p: ProductId, valueIds: seq<ValueId>, code: Option<string>, price: Money,
    oldPrice: Option<Money>, qty: int, isActive: bool)
    requires p in t.selectors ==> NoRepeats(t.selectors[p])
    ensures var fits := p in t.products && p in t.selectors && t.selectors[p] != []
                        && OneValuePerSelector(cat, valueIds, t.selectors[p]);
            var added := AddVariant(t, cat, p, valueIds, code, price, oldPrice, qty, isActive);
            && (added.Ok? <==> fits && CodeFree(t, code) && CombinationFree(t, p, valueIds))
            && (added == Err(Conflict) <==> fits && !(CodeFree(t, code) && CombinationFree(t, p, valueIds)))
            && (added == Err(NotFound) <==>
                  || p !in t.products
                  || (p in t.selectors && t.selectors[p] != [] && exists v :: v in valueIds && v !in cat.attributeOf))
  {
    var unique, selectors := Dedup(valueIds), Selectors(t, p);
    var known := forall v :: v in valueIds ==> v in cat.attributeOf;
    var matches := OneValuePerSelector(cat, valueIds, selectors);
    var free := !CodeTaken(t.variants, code) && Elements(unique) !in ExistingSets(t.variants, p);
    assert Elements(unique) == Elements(valueIds);
    if known {
      MatchesIff(cat, unique, selectors);
      SameValues(cat, valueIds, unique, selectors);
    }
    VariantChecks(t, cat, p, valueIds, code, price, oldPrice, qty, isActive, known, matches, free);
    if matches && selectors != [] {
      HasValues(cat, valueIds, selectors);
      FreeIff(t, p, valueIds);
    }
  }

  // ---------------------------------------------------------------- the other operations

  /** A patched code must be free unless it is the one the variant has. */
  lemma UpdateVariantAcceptedIff(t: Tables, v: int, patch: VariantPatch)
    ensures PatchVariant(t, v, patch).Ok? <==>
              && v in t.variants && t.variants[v].productId in t.products
              && (patch.code.Some? && patch.code.value != t.variants[v].code ==> CodeFree(t, patch.code.value))
    ensures PatchVariant(t, v, patch) == Err(Conflict) <==>
              && v in t.variants
              && patch.code.Some? && patch.code.value != t.variants[v].code && !CodeFree(t, patch.code.value)
  {
  }

  /** The rows an operation refers to must exist, and belong to its product; four operations demand more. */
  lemma EditAcceptedIff(t: Tables, cat: Catalog, op: Op)
    ensures match op
            case CreateProduct(product, _) => Edit(t, cat, op).Ok? <==> product.categoryId in cat.paths
            case UpdateProduct(p, patch) =>
              Edit(t, cat, op).Ok? <==>
                p in t.products && (patch.categoryId.Some? ==> patch.categoryId.value in cat.paths)
            case DeleteProduct(p) => Edit(t, cat, op).Ok? <==> p in t.products
            case SetTranslation(p, _, _) => Edit(t, cat, op).Ok? <==> p in t.products
            case SetSelectors(p, attributeIds) =>
              Edit(t, cat, op).Ok? <==>
                && p in t.products && (forall a :: a in attributeIds ==> a in cat.attributes)
                && (attributeIds == [] ==> forall v :: v in t.variants ==> t.variants[v].productId != p)
            case SetLinks(p, valueIds) =>
              Edit(t, cat, op).Ok? <==> p in t.products && forall v :: v in valueIds ==> v in cat.attributeOf
            case DeleteVariant(v) => Edit(t, cat, op).Ok? <==> v in t.variants && t.variants[v].productId in t.products
            case BindMedia(p, m, variantId) =>
              Edit(t, cat, op).Ok? <==>
                && p in t.products && m in t.media && t.media[m].productId == p
                && (variantId.Some? ==>
                      variantId.value in t.variants && t.variants[variantId.value].productId == p)
            case AddMedia(p, upload) =>
              Edit(t, cat, op).Ok? <==>
                && p in t.products && upload.declaredImage && upload.stored.Some?
                && (upload.size.None? || upload.size.value <= 10485760)
            case DeleteMedia(p, m) =>
              Edit(t, cat, op).Ok? <==>
                p in t.products && m in t.media && t.media[m].productId == p
            case ReorderMedia(p, orderedIds) =>
              Edit(t, cat, op).Ok? <==>
                && p in t.products && NoRepeats(orderedIds)
                && forall m :: m in orderedIds <==> m in t.media && t.media[m].productId == p
            case _ => true
  {
    if op.SetSelectors? {
      DedupIsEmptyIff(op.attributeIds);
    } else if op.ReorderMedia? {
      PermutationIff(op.orderedIds, MediaOf(t.media, op.p).Keys);
    }
  }

  lemma DedupIsEmptyIff(list: seq<int>)
    ensures Dedup(list) == [] <==> list == []
  {
    if list != [] {
      assert list[0] in Dedup(list);
    }
  }

  lemma PermutationIff(list: seq<int>, ids: set<int>)
    ensures IsPermutationOf(list, ids) <==> NoRepeats(list) && forall m :: m in list <==> m in ids
  {
    if IsPermutationOf(list, ids) {
      PermutationFacts(list, ids);
    }
    if NoRepeats(list) && forall m :: m in list <==> m in ids {
      ListSize(list, ids);
      assert Elements(list) == ids;
    }
  }

  /** A missing row is "not found"; only these operations are refused as invalid or as a conflict. */
  lemma RefusalKinds(t: Tables, cat: Catalog, op: Op)
    ensures Edit(t, cat, op) == Err(Invalid) ==>
              op.SetSelectors? || op.CreateVariant? || op.GenerateVariants? || op.AddMedia? || op.ReorderMedia?
    ensures Edit(t, cat, op) == Err(Conflict) ==> op.CreateVariant? || op.UpdateVariant?
    ensures Edit(t, cat, op) != Err(NotPublishable)
    ensures !op.CreateProduct? && !op.UpdateVariant? && !op.DeleteVariant? && op.p !in t.products ==>
              Edit(t, cat, op) == Err(NotFound)
  {
  }

  // ---------------------------------------------------------------- publication

  /** Both translations, and for a variable product an active variant. */
  ghost predicate Complete(t: Tables, p: ProductId)
    requires p in t.products
  {
    && CardKey(p, Ru) in t.translations && CardKey(p, Ro) in t.translations
    && (t.products[p].hasVariants ==> exists v :: IsActiveVariant(t, p, v))
  }

  lemma PublishableIff(t: Tables, p: ProductId)
    requires p in t.products
    ensures Publishable(t.products[p], RowsOf(t, p)) <==> Complete(t, p)
  {
    var active, translations := ActiveVariantsOf(t.variants, p), TranslationsOf(t.translations, p);
    forall v ensures v in active <==> IsActiveVariant(t, p, v) {}
    if v :| v in active {
      assert active[v].price in Prices(active);
    }
    if Prices(active) != {} {
      var price :| price in Prices(active);
      var v :| v in active && active[v].price == price;
    }
    BothLanguages(translations);
    assert Ru in translations <==> CardKey(p, Ru) in t.translations;
    assert Ro in translations <==> CardKey(p, Ro) in t.translations;
  }

  lemma BothLanguages(translations: map<Lang, Translation>)
    ensures translations.Keys == {Ru, Ro} <==> Ru in translations && Ro in translations
  {
    if Ru in translations && Ro in translations {
      forall l | l in translations.Keys ensures l in {Ru, Ro} {
        match l case Ru => case Ro =>
      }
    }
  }

  /** Whether the operation rebuilds the cards of an active product. */
  predicate Rebuilds(op: Op) {
    !op.DeleteProduct? && !op.SetLinks?
  }

  lemma PublishedIff(u: Tables, cat: Catalog, p: ProductId, publication: Publication)
    requires p in u.products
    ensures Publish(u, cat, p, publication).Err? <==>
              !publication.Never? && u.products[p].isActive && !Complete(u, p)
    ensures Publish(u, cat, p, publication).Err? ==> Publish(u, cat, p, publication) == Err(NotPublishable)
  {
    PublishableIff(u, p);
  }

  lemma TargetIsThere(t: Tables, cat: Catalog, op: Op)
    requires Edit(t, cat, op).Ok? && Rebuilds(op)
    ensures Target(t, op) in Edit(t, cat, op).value.products
  {
  }

  /**
   An accepted edit is kept unless it leaves its product active and incomplete; then the operation
   fails as not publishable.
   */
  lemma KeptIff(t: Tables, cat: Catalog, op: Op)
    requires Edit(t, cat, op).Ok?
    ensures var u, p := Edit(t, cat, op).value, Target(t, op);
            && (Rebuilds(op) ==> p in u.products)
            && (Perform(t, cat, op).Err? <==> Rebuilds(op) && u.products[p].isActive && !Complete(u, p))
            && (Perform(t, cat, op).Err? ==> Perform(t, cat, op) == Err(NotPublishable))
  {
    if Rebuilds(op) {
      TargetIsThere(t, cat, op);
      PublishedIff(Edit(t, cat, op).value, cat, Target(t, op), PublicationOf(op));
    }
  }
}
