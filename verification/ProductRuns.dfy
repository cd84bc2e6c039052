/** Over every run of the product operations: the cards equal the derived view, and variants stay distinct. */
module ProductRuns {
  import opened Outcomes
  import opened Rows
  import opened Cards
  import opened Combos
  import opened Products
  import opened ProductOps

  // ---------------------------------------------------------------- one product's rows, seen from another

  ghost predicate SameVariantsFor(a: map<int, Variant>, b: map<int, Variant>, q: ProductId) {
    && (forall v :: v in a && a[v].productId == q ==> v in b && b[v] == a[v])
    && (forall v :: v in b && b[v].productId == q ==> v in a && a[v] == b[v])
  }

  ghost predicate SameMediaFor(a: map<int, Media>, b: map<int, Media>, q: ProductId) {
    && (forall m :: m in a && a[m].productId == q ==> m in b && b[m] == a[m])
    && (forall m :: m in b && b[m].productId == q ==> m in a && a[m] == b[m])
  }

  ghost predicate SameTranslationsFor(a: map<CardKey, Translation>, b: map<CardKey, Translation>, q: ProductId) {
    forall l: Lang ::
      (CardKey(q, l) in a <==> CardKey(q, l) in b) && (CardKey(q, l) in a ==> a[CardKey(q, l)] == b[CardKey(q, l)])
  }

  ghost predicate SameFor(t: Tables, u: Tables, q: ProductId) {
    && Find(t, q) == Find(u, q)
    && SameTranslationsFor(t.translations, u.translations, q)
    && SameVariantsFor(t.variants, u.variants, q)
    && SameMediaFor(t.media, u.media, q)
    && CardsOf(t.cards, q) == CardsOf(u.cards, q)
  }

  lemma SameActive(variants: map<int, Variant>, others: map<int, Variant>, q: ProductId)
    requires SameVariantsFor(variants, others, q)
    ensures ActiveVariantsOf(variants, q) == ActiveVariantsOf(others, q)
  {
    var a, b := ActiveVariantsOf(variants, q), ActiveVariantsOf(others, q);
    assert forall v :: (v in a <==> v in b) && (v in a ==> a[v] == b[v]);
  }

  lemma SameImages(media: map<int, Media>, others: map<int, Media>, q: ProductId)
    requires SameMediaFor(media, others, q)
    ensures MediaOf(media, q) == MediaOf(others, q)
  {
    var a, b := MediaOf(media, q), MediaOf(others, q);
    assert forall m :: (m in a <==> m in b) && (m in a ==> a[m] == b[m]);
  }

  lemma SameForSameSlice(t: Tables, u: Tables, q: ProductId)
    requires SameFor(t, u, q)
    ensures SliceOf(t, q) == SliceOf(u, q)
  {
    assert TranslationsOf(t.translations, q) == TranslationsOf(u.translations, q);
    SameActive(t.variants, u.variants, q);
    SameImages(t.media, u.media, q);
  }

  // ---------------------------------------------------------------- an edit stays inside its product

  lemma AddProductFrame(t: Tables, cat: Catalog, product: Product, translations: map<Lang, Translation>, q: ProductId)
    requires AddProduct(t, cat, product, translations).Ok? && q != t.nextId
    ensures SameFor(t, AddProduct(t, cat, product, translations).value, q)
  {
  }

  lemma RemainingVariants(variants: map<int, Variant>, p: ProductId, q: ProductId)
    requires q != p
    ensures ActiveVariantsOf(VariantsWithout(variants, p), q) == ActiveVariantsOf(variants, q)
  {
  }

  lemma RemainingMedia(media: map<int, Media>, p: ProductId, q: ProductId)
    requires q != p
    ensures MediaOf(MediaWithout(media, p), q) == MediaOf(media, q)
  {
  }

  lemma RemainingTranslations(translations: map<CardKey, Translation>, p: ProductId, q: ProductId)
    requires q != p
    ensures TranslationsOf(TranslationsWithout(translations, p), q) == TranslationsOf(translations, q)
  {
  }

  lemma RemoveProductFrame(t: Tables, p: ProductId, q: ProductId)
    requires RemoveProduct(t, p).Ok? && q != p
    ensures SliceOf(RemoveProduct(t, p).value, q) == SliceOf(t, q)
  {
    OtherCardsKept(t.cards, p, map[], q);
    RemainingVariants(t.variants, p, q);
    RemainingMedia(t.media, p, q);
    RemainingTranslations(t.translations, p, q);
  }

  lemma OneMoreVariant(t: Tables, variant: Variant, q: ProductId)
    requires WellFormed(t) && q != variant.productId
    ensures SameVariantsFor(t.variants, t.variants[t.nextId := variant], q)
  {
  }

  lemma OnlyVariantsAndProductChange(t: Tables, u: Tables, p: ProductId, q: ProductId)
    requires q != p && p in t.products && p in u.products && SameVariantsFor(t.variants, u.variants, q)
    requires u.translations == t.translations && u.media == t.media && u.cards == t.cards
    requires u.products == t.products[p := u.products[p]]
    ensures SameFor(t, u, q)
  {
  }

  lemma CreateVariantFrame(t: Tables, cat: Catalog, op: Op, q: ProductId)
    requires WellFormed(t) && Edit(t, cat, op).Ok? && q != Target(t, op) && op.CreateVariant?
    ensures SameFor(t, Edit(t, cat, op).value, q)
  {
    var u := Edit(t, cat, op).value;
    OneMoreVariant(t, u.variants[t.nextId], q);
    OnlyVariantsAndProductChange(t, u, op.p, q);
  }

  lemma VariantEditFrame(t: Tables, cat: Catalog, op: Op, q: ProductId)
    requires WellFormed(t) && Edit(t, cat, op).Ok? && q != Target(t, op)
    requires op.CreateVariant? || op.GenerateVariants?
    ensures SameFor(t, Edit(t, cat, op).value, q)
  {
    if op.CreateVariant? {
      CreateVariantFrame(t, cat, op, q);
    } else {
      NewVariantsFrame(t, op.p, t.products[op.p].price, NextPosition(VariantPositions(t.variants, op.p)),
                       MissingSets(t, cat, op.p), q);
      OnlyVariantsAndProductChange(t, Edit(t, cat, op).value, op.p, q);
    }
  }

  lemma ProductEditFrame(t: Tables, cat: Catalog, op: Op, q: ProductId)
    requires Edit(t, cat, op).Ok? && q != Target(t, op)
    requires op.UpdateProduct? || op.SetTranslation? || op.SetSelectors? || op.SetLinks?
    ensures SameFor(t, Edit(t, cat, op).value, q)
  {
  }

  lemma MediaEditFrame(t: Tables, cat: Catalog, op: Op, q: ProductId)
    requires WellFormed(t) && Edit(t, cat, op).Ok? && q != Target(t, op)
    requires op.BindMedia? || op.AddMedia? || op.DeleteMedia?
    ensures SameFor(t, Edit(t, cat, op).value, q)
  {
  }

  lemma PlainEditFrame(t: Tables, cat: Catalog, op: Op, q: ProductId)
    requires WellFormed(t) && Edit(t, cat, op).Ok? && q != Target(t, op)
    requires op.UpdateProduct? || op.SetTranslation? || op.SetSelectors? || op.SetLinks? || op.UpdateVariant?
             || op.BindMedia? || op.AddMedia? || op.DeleteMedia?
    ensures SameFor(t, Edit(t, cat, op).value, q)
  {
    if op.BindMedia? || op.AddMedia? || op.DeleteMedia? {
      MediaEditFrame(t, cat, op, q);
    } else if !op.UpdateVariant? {
      ProductEditFrame(t, cat, op, q);
    }
  }

  lemma NewVariantsFrame(t: Tables, p: ProductId, price: Money, position: int, missing: seq<set<ValueId>>, q: ProductId)
    requires WellFormed(t) && q != p
    ensures SameVariantsFor(t.variants, t.variants + NewVariants(p, price, t.nextId, position, missing), q)
  {
    var rows := NewVariants(p, price, t.nextId, position, missing);
    forall v | v in rows
      ensures v !in t.variants && rows[v].productId == p
    {
      assert rows[v] == rows[t.nextId + (v - t.nextId)];
      assert 0 <= v - t.nextId < |missing| && missing[v - t.nextId] == missing[v - t.nextId];
    }
  }

  lemma RemoveVariantFrame(t: Tables, v: int, q: ProductId)
    requires WellFormed(t) && RemoveVariant(t, v).Ok? && q != t.variants[v].productId
    ensures SameFor(t, RemoveVariant(t, v).value, q)
  {
  }

  lemma PlaceMediaFrame(t: Tables, p: ProductId, orderedIds: seq<int>, q: ProductId)
    requires PlaceMedia(t, p, orderedIds).Ok? && q != p
    ensures SameFor(t, PlaceMedia(t, p, orderedIds).value, q)
  {
    forall m | m in orderedIds
      ensures m in t.media && t.media[m].productId == p
    {
      assert m in Elements(orderedIds);
      assert m in MediaOf(t.media, p).Keys;
    }
  }

  lemma EditSameFor(t: Tables, cat: Catalog, op: Op, q: ProductId)
    requires WellFormed(t) && Edit(t, cat, op).Ok? && q != Target(t, op) && !op.DeleteProduct?
    ensures SameFor(t, Edit(t, cat, op).value, q)
  {
    match op
    case CreateProduct(product, translations) => AddProductFrame(t, cat, product, translations, q);
    case CreateVariant(_, _, _, _, _, _, _) => VariantEditFrame(t, cat, op, q);
    case GenerateVariants(_) => VariantEditFrame(t, cat, op, q);
    case DeleteVariant(v) => RemoveVariantFrame(t, v, q);
    case ReorderMedia(p, orderedIds) => PlaceMediaFrame(t, p, orderedIds, q);
    case _ => PlainEditFrame(t, cat, op, q);
  }

  /** No other product depends on a row the edit changed. */
  lemma EditFrame(t: Tables, cat: Catalog, op: Op, q: ProductId)
    requires WellFormed(t) && Edit(t, cat, op).Ok? && q != Target(t, op)
    ensures SliceOf(Edit(t, cat, op).value, q) == SliceOf(t, q)
  {
    if op.DeleteProduct? {
      RemoveProductFrame(t, op.p, q);
    } else {
      EditSameFor(t, cat, op, q);
      SameForSameSlice(t, Edit(t, cat, op).value, q);
    }
  }

  // ---------------------------------------------------------------- health

  lemma NoCardsWhileInactive(t: Tables, cat: Catalog, p: ProductId)
    requires Healthy(t, cat, p) && (p in t.products ==> !t.products[p].isActive)
    ensures CardsOf(t.cards, p) == map[]
  {
  }

  lemma InactiveWithoutCards(t: Tables, cat: Catalog, p: ProductId)
    requires p in t.products && !t.products[p].isActive && CardsOf(t.cards, p) == map[]
    ensures Healthy(t, cat, p)
  {
  }

  /** An edit that needs no rebuild leaves its product healthy by itself. */
  lemma UnpublishedEditIsHealthy(t: Tables, cat: Catalog, op: Op)
    requires WellFormed(t) && Healthy(t, cat, Target(t, op)) && Edit(t, cat, op).Ok?
    requires PublicationOf(op) != Always
    requires var t' := Edit(t, cat, op).value;
             PublicationOf(op) == WhenActive ==> Target(t, op) in t'.products && !t'.products[Target(t, op)].isActive
    ensures Healthy(Edit(t, cat, op).value, cat, Target(t, op))
  {
    var t', p := Edit(t, cat, op).value, Target(t, op);
    match op {
      case DeleteProduct(_) =>
        OtherCardsKept(t.cards, p, map[], p);
        assert Find(t', p) == None;
      case SetLinks(_, _) =>
        assert SliceOf(t', p) == SliceOf(t, p);
      case _ =>
        NoCardsWhileInactive(t, cat, p);
        InactiveWithoutCards(t', cat, p);
    }
  }

  /** Every operation keeps every product healthy, whichever product it is about. */
  lemma PerformKeepsHealth(t: Tables, cat: Catalog, op: Op, q: ProductId)
    requires WellFormed(t) && Healthy(t, cat, q) && Perform(t, cat, op).Ok?
    ensures Healthy(Perform(t, cat, op).value, cat, q)
  {
    var t', p := Edit(t, cat, op).value, Target(t, op);
    var rebuilt := PublicationOf(op) == Always
      || (PublicationOf(op) == WhenActive && p in t'.products && t'.products[p].isActive);
    if q != p {
      EditFrame(t, cat, op, q);
      if rebuilt { RebuildOtherSlice(t', cat, p, q); }
    } else if rebuilt {
      RebuildHeals(t', cat, p);
    } else {
      assert PublicationOf(op) == WhenActive ==> p in t'.products;
      UnpublishedEditIsHealthy(t, cat, op);
    }
  }

  // ---------------------------------------------------------------- ids, bindings, distinct variants

  lemma NewVariantRow(p: ProductId, price: Money, firstId: int, position: int, missing: seq<set<ValueId>>, v: int)
    requires v in NewVariants(p, price, firstId, position, missing)
    ensures 0 <= v - firstId < |missing|
    ensures NewVariants(p, price, firstId, position, missing)[v] ==
            GeneratedVariant(p, price, position + (v - firstId), missing[v - firstId])
  {
    var i := v - firstId;
    assert missing[i] == missing[i] && v == firstId + i;
  }

  lemma GenerateKeepsWellFormed(t: Tables, cat: Catalog, p: ProductId)
    requires WellFormed(t) && AddMissingVariants(t, cat, p).Ok?
    ensures WellFormed(AddMissingVariants(t, cat, p).value)
  {
    var position := NextPosition(VariantPositions(t.variants, p));
    assert forall v :: v in GeneratedRows(t, cat, p) ==> v !in t.variants;
  }

  lemma RemoveProductKeepsWellFormed(t: Tables, p: ProductId)
    requires WellFormed(t) && RemoveProduct(t, p).Ok?
    ensures WellFormed(RemoveProduct(t, p).value)
  {
  }

  lemma MediaEditsKeepWellFormed(t: Tables, cat: Catalog, op: Op)
    requires WellFormed(t) && Edit(t, cat, op).Ok?
    requires op.BindMedia? || op.AddMedia? || op.DeleteMedia? || op.ReorderMedia? || op.DeleteVariant?
    ensures WellFormed(Edit(t, cat, op).value)
  {
  }

  lemma EditKeepsWellFormed(t: Tables, cat: Catalog, op: Op)
    requires WellFormed(t) && Edit(t, cat, op).Ok?
    ensures WellFormed(Edit(t, cat, op).value)
  {
    if op.GenerateVariants? {
      GenerateKeepsWellFormed(t, cat, op.p);
    } else if op.DeleteProduct? {
      RemoveProductKeepsWellFormed(t, op.p);
    } else if op.BindMedia? || op.AddMedia? || op.DeleteMedia? || op.ReorderMedia? || op.DeleteVariant? {
      MediaEditsKeepWellFormed(t, cat, op);
    }
  }

  lemma MissingAreNew(t: Tables, cat: Catalog, p: ProductId, s: set<ValueId>)
    requires s in MissingSets(t, cat, p) && s != {}
    ensures forall v :: v in t.variants && t.variants[v].productId == p ==> t.variants[v].values != s
  {
    MissingMembers(Combinations(t, cat, p), ExistingSets(t.variants, p), s);
    forall v | v in t.variants && t.variants[v].productId == p
      ensures t.variants[v].values != s
    {
      assert t.variants[v].values == s ==> s in ExistingSets(t.variants, p);
    }
  }

  lemma CombinationsAreNonEmptySets(t: Tables, cat: Catalog, p: ProductId, s: set<ValueId>)
    requires Selectors(t, p) != [] && s in MissingSets(t, cat, p)
    ensures s != {}
  {
    MissingMembers(Combinations(t, cat, p), ExistingSets(t.variants, p), s);
    var c :| c in Combinations(t, cat, p) && Elements(c) == s;
    CartesianMembers(ValueLists(t, cat, p), c);
    assert c[0] in s;
  }

  lemma NewRowsDifferFromAll(
    t: Tables, cat: Catalog, p: ProductId, rows: map<int, Variant>, position: int, v: int, w: int)
    requires WellFormed(t) && p in t.products && Selectors(t, p) != []
    requires rows == NewVariants(p, t.products[p].price, t.nextId, position, MissingSets(t, cat, p))
    requires w in rows && v < w && (v in rows || (v in t.variants && t.variants[v].productId == p))
    ensures (if v in rows then rows[v] else t.variants[v]).values != rows[w].values
  {
    var missing := MissingSets(t, cat, p);
    NewVariantRow(p, t.products[p].price, t.nextId, position, missing, w);
    var s := missing[w - t.nextId];
    assert s in missing;
    if v in rows {
      NewVariantRow(p, t.products[p].price, t.nextId, position, missing, v);
      MissingMembers(Combinations(t, cat, p), ExistingSets(t.variants, p), s);
    } else {
      CombinationsAreNonEmptySets(t, cat, p, s);
      MissingAreNew(t, cat, p, s);
    }
  }

  lemma GenerateKeepsDistinct(t: Tables, cat: Catalog, p: ProductId)
    requires WellFormed(t) && DistinctVariants(t) && AddMissingVariants(t, cat, p).Ok?
    ensures DistinctVariants(AddMissingVariants(t, cat, p).value)
  {
    var position := NextPosition(VariantPositions(t.variants, p));
    var rows := NewVariants(p, t.products[p].price, t.nextId, position, MissingSets(t, cat, p));
    var all := t.variants + rows;
    forall v, w | v in all && w in all && v < w && all[v].productId == all[w].productId
      ensures all[v].values != all[w].values
    {
      if w in rows {
        NewRowsAreOf(p, t.products[p].price, t.nextId, position, MissingSets(t, cat, p), w);
        NewRowsDifferFromAll(t, cat, p, rows, position, v, w);
      }
    }
  }

  lemma NewRowsAreOf(p: ProductId, price: Money, firstId: int, position: int, missing: seq<set<ValueId>>, v: int)
    requires v in NewVariants(p, price, firstId, position, missing)
    ensures NewVariants(p, price, firstId, position, missing)[v].productId == p
  {
    NewVariantRow(p, price, firstId, position, missing, v);
  }

  lemma AddVariantKeepsDistinct(t: Tables, cat: Catalog, op: Op)
    requires WellFormed(t) && DistinctVariants(t) && op.CreateVariant? && Edit(t, cat, op).Ok?
    ensures DistinctVariants(Edit(t, cat, op).value)
  {
    var t' := Edit(t, cat, op).value;
    var s := Elements(Dedup(op.valueIds));
    assert s != {} by {
      var unique := Dedup(op.valueIds);
      assert |multiset(AttributesOf(cat.attributeOf, unique))| == |Selectors(t, op.p)|;
      assert unique != [];
      assert unique[0] in s;
    }
    forall v | v in t.variants && t.variants[v].productId == op.p
      ensures t.variants[v].values != s
    {
      assert t.variants[v].values == {} || t.variants[v].values in ExistingSets(t.variants, op.p);
    }
  }

  lemma EditKeepsDistinct(t: Tables, cat: Catalog, op: Op)
    requires WellFormed(t) && DistinctVariants(t) && Edit(t, cat, op).Ok?
    ensures DistinctVariants(Edit(t, cat, op).value)
  {
    if op.GenerateVariants? {
      GenerateKeepsDistinct(t, cat, op.p);
    } else if op.CreateVariant? {
      AddVariantKeepsDistinct(t, cat, op);
    } else if op.UpdateVariant? {
      var t' := Edit(t, cat, op).value;
      assert forall v :: v in t'.variants ==> v in t.variants && t'.variants[v].productId == t.variants[v].productId
                                              && t'.variants[v].values == t.variants[v].values;
    }
  }

  lemma GeneratedHaveNoCode(t: Tables, cat: Catalog, p: ProductId)
    requires WellFormed(t) && DistinctCodes(t) && AddMissingVariants(t, cat, p).Ok?
    ensures DistinctCodes(AddMissingVariants(t, cat, p).value)
  {
    var rows := GeneratedRows(t, cat, p);
    var position, missing := NextPosition(VariantPositions(t.variants, p)), MissingSets(t, cat, p);
    forall v | v in rows ensures rows[v].code == None {
      NewVariantRow(p, t.products[p].price, t.nextId, position, missing, v);
    }
  }

  lemma EditKeepsDistinctCodes(t: Tables, cat: Catalog, op: Op)
    requires WellFormed(t) && DistinctCodes(t) && Edit(t, cat, op).Ok?
    ensures DistinctCodes(Edit(t, cat, op).value)
  {
    if op.GenerateVariants? {
      GeneratedHaveNoCode(t, cat, op.p);
    }
  }

  // ---------------------------------------------------------------- every run

  lemma PublishKeepsTheRest(t: Tables, cat: Catalog, p: ProductId, publication: Publication)
    requires Publish(t, cat, p, publication).Ok?
    ensures WellFormed(t) ==> WellFormed(Publish(t, cat, p, publication).value)
    ensures DistinctVariants(t) ==> DistinctVariants(Publish(t, cat, p, publication).value)
    ensures DistinctCodes(t) ==> DistinctCodes(Publish(t, cat, p, publication).value)
  {
  }

  lemma StepKeepsConsistent(t: Tables, cat: Catalog, op: Op)
    requires Consistent(t, cat)
    ensures Consistent(Step(t, cat, op), cat)
  {
    if Perform(t, cat, op).Ok? {
      forall q ensures Healthy(Perform(t, cat, op).value, cat, q) {
        assert Healthy(t, cat, q);
        PerformKeepsHealth(t, cat, op, q);
      }
      EditKeepsDistinctCodes(t, cat, op);
      EditKeepsWellFormed(t, cat, op);
      EditKeepsDistinct(t, cat, op);
      PublishKeepsTheRest(Edit(t, cat, op).value, cat, Target(t, op), PublicationOf(op));
    }
  }

  lemma {:induction false} RunKeepsConsistent(t: Tables, cat: Catalog, ops: seq<Op>)
    requires Consistent(t, cat)
    ensures Consistent(Run(t, cat, ops), cat)
    decreases |ops|
  {
    if ops != [] {
      StepKeepsConsistent(t, cat, ops[0]);
      RunKeepsConsistent(Step(t, cat, ops[0]), cat, ops[1..]);
    }
  }

  const NO_ROWS := Tables(map[], map[], map[], map[], map[], {}, map[], 0)

  lemma EmptyIsConsistent(cat: Catalog)
    ensures Consistent(NO_ROWS, cat)
  {
    forall q ensures Healthy(NO_ROWS, cat, q) {
      assert CardsOf(NO_ROWS.cards, q) == map[];
    }
  }

  /** In every history the card table is the derived view: no card for an inactive product, both for an active one. */
  lemma EveryHistoryHasFreshCards(cat: Catalog, ops: seq<Op>, p: ProductId, lang: Lang)
    ensures var t := Run(NO_ROWS, cat, ops);
            if p in t.products && t.products[p].isActive
            then Publishable(t.products[p], RowsOf(t, p))
                 && CardKey(p, lang) in t.cards
                 && t.cards[CardKey(p, lang)] == View(cat, p, t.products[p], RowsOf(t, p), lang)
            else CardKey(p, lang) !in t.cards
  {
    var t := Run(NO_ROWS, cat, ops);
    EmptyIsConsistent(cat);
    RunKeepsConsistent(NO_ROWS, cat, ops);
    assert Healthy(t, cat, p);
    assert CardKey(p, lang) in t.cards <==> lang in CardsOf(t.cards, p);
    assert lang in {Ru, Ro};
  }
}
