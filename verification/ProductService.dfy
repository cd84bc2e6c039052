/** The product operations in the form the back office runs them, each proved against its step of the tables. */
module ProductService {
  import opened Outcomes
  import opened Rows
  import opened Cards
  import opened Combos
  import opened Products
  import opened ProductOps
  import opened CardContents

  class AdminProducts {
    const cat: Catalog
    var db: Tables

    method AssertPublishable(p: ProductId) returns (error: Option<ProductError>)
      requires p in db.products
      ensures error == if Publishable(db.products[p], RowsOf(db, p)) then None else Some(NotPublishable)
    {
      if TranslationsOf(db.translations, p).Keys != {Ru, Ro} { return Some(NotPublishable); }
      if db.products[p].hasVariants {
        var aggregate := AggregateOf(ActiveVariantsOf(db.variants, p));
        if aggregate.minPrice == None { return Some(NotPublishable); }
      }
      error := None;
    }

    /** Deletes the product's cards, then writes one card per translation; an error leaves the undo to the caller. */
    method RebuildCard(p: ProductId) returns (r: Result<nat, ProductError>)
      modifies this
      ensures match Rebuild(old(db), cat, p)
              case Ok(t) => db == t && r == Ok(|CardsOf(t.cards, p)|)
              case Err(e) => r == Err(e)
      ensures r.Ok? ==> forall k :: k in db.cards && k.productId == p ==> CardSays(db, cat, k)
    {
      if p !in db.products { return Err(NotFound); }
      ghost var before := db;
      var product := db.products[p];
      db := db.(cards := WithoutCards(db.cards, p));
      if !product.isActive {
        OtherCardsKept(before.cards, p, map[], p);
        RebuiltCardsSay(before, cat, p);
        return Ok(0);
      }
      var error := AssertPublishable(p);
      if error.Some? { return Err(error.value); }

      var rows := RowsOf(db, p);
      var derived := Derived(cat, p, Some(product), rows);
      OtherCardsKept(before.cards, p, derived, p);
      // Surfaces that read the product row directly see the variants' price and stock.
      db := db.(products := db.products[p := SyncedProduct(product, rows)]);
      var cards, written := WriteCards(db.cards, p, derived);
      db := db.(cards := cards);
      r := Ok(written);
      RebuiltCardsSay(before, cat, p);
    }

    /** Rebuild when the operation calls for it and commit, or drop the transaction. */
    method Commit(before: Tables, p: ProductId, publication: Publication) returns (error: Option<ProductError>)
      modifies this
      ensures Outcome(Ok(old(db)), cat, p, publication, before, error, db)
    {
      error := None;
      if publication == Always || (publication == WhenActive && p in db.products && db.products[p].isActive) {
        var written := RebuildCard(p);
        if written.Err? {
          error := Some(written.error);
          db := before;
        }
      }
    }

    method CreateProduct(product: Product, translations: map<Lang, Translation>) returns (error: Option<ProductError>)
      modifies this
      ensures Outcome(
                AddProduct(old(db), cat, product, translations), cat, old(db).nextId, WhenActive, old(db), error, db)
    {
      var before := db;
      if product.categoryId !in cat.paths { return Some(NotFound); }
      var p := db.nextId;
      db := db.(products := db.products[p := product], nextId := p + 1);
      db := db.(translations := db.translations + KeyedBy(p, translations));
      RowThenTranslations(before, cat, product, translations);
      error := Commit(before, p, WhenActive);
    }

    method UpdateProduct(p: ProductId, patch: ProductPatch) returns (error: Option<ProductError>)
      modifies this
      ensures Outcome(PatchProduct(old(db), cat, p, patch), cat, p, Always, old(db), error, db)
    {
      var before := db;
      if p !in db.products { return Some(NotFound); }
      if patch.categoryId.Some? && patch.categoryId.value !in cat.paths { return Some(NotFound); }
      db := db.(products := db.products[p := PatchedProduct(db.products[p], patch)]);
      error := Commit(before, p, Always);
    }

    method DeleteProduct(p: ProductId) returns (error: Option<ProductError>)
      modifies this
      ensures Outcome(RemoveProduct(old(db), p), cat, p, Never, old(db), error, db)
    {
      if p !in db.products { return Some(NotFound); }
      db := db.(translations := TranslationsWithout(db.translations, p));
      db := db.(media := MediaWithout(db.media, p));
      db := db.(links := set link | link in db.links && link.0 != p);
      db := db.(selectors := db.selectors - {p});
      db := db.(variants := VariantsWithout(db.variants, p));
      db := db.(cards := WithoutCards(db.cards, p));
      db := db.(products := db.products - {p});
      error := None;
    }

    method SetProductTranslation(
      p: ProductId, lang: Lang, translation: Translation) returns (error: Option<ProductError>)
      modifies this
      ensures Outcome(PutTranslation(old(db), p, lang, translation), cat, p, Always, old(db), error, db)
    {
      var before := db;
      if p !in db.products { return Some(NotFound); }
      db := db.(translations := db.translations[CardKey(p, lang) := translation]);
      error := Commit(before, p, Always);
    }

    method SetVariationAttributes(p: ProductId, attributeIds: seq<AttributeId>) returns (error: Option<ProductError>)
      modifies this
      ensures Outcome(PutSelectors(old(db), cat, p, attributeIds), cat, p, Always, old(db), error, db)
    {
      var before := db;
      if p !in db.products { return Some(NotFound); }
      var unique := Dedup(attributeIds);
      if unique != [] {
        if exists a :: a in unique && a !in cat.attributes { return Some(NotFound); }
      } else {
        if exists v :: v in db.variants && db.variants[v].productId == p { return Some(Invalid); }
      }
      db := db.(selectors := db.selectors[p := unique]);
      db := db.(products := db.products[p := db.products[p].(hasVariants := unique != [])]);
      error := Commit(before, p, Always);
    }

    method CheckVariant(
      p: ProductId, valueIds: seq<ValueId>, code: Option<string>) returns (error: Option<ProductError>)
      ensures forall price, oldPrice, qty, isActive ::
                error == match AddVariant(db, cat, p, valueIds, code, price, oldPrice, qty, isActive)
                         case Ok(_) => None
                         case Err(e) => Some(e)
    {
      if p !in db.products { return Some(NotFound); }
      var selectors := Selectors(db, p);
      if selectors == [] { return Some(Invalid); }
      var unique := Dedup(valueIds);
      if exists v :: v in unique && v !in cat.attributeOf { return Some(NotFound); }
      if multiset(AttributesOf(cat.attributeOf, unique)) != multiset(selectors) { return Some(Invalid); }
      if CodeTaken(db.variants, code) { return Some(Conflict); }
      if Elements(unique) in ExistingSets(db.variants, p) { return Some(Conflict); }
      error := None;
    }

    method CreateVariant(
      p: ProductId, valueIds: seq<ValueId>, code: Option<string>, price: Money, oldPrice: Option<Money>,
      qty: int, isActive: bool)
      returns (error: Option<ProductError>)
      modifies this
      ensures Outcome(
                AddVariant(old(db), cat, p, valueIds, code, price, oldPrice, qty, isActive),
                cat, p, Always, old(db), error, db)
    {
      error := CheckVariant(p, valueIds, code);
      ghost var edited := AddVariant(db, cat, p, valueIds, code, price, oldPrice, qty, isActive);
      assert error == match edited case Ok(_) => None case Err(e) => Some(e);
      if error.Some? { return; }
      var before := db;
      var position := NextPosition(VariantPositions(db.variants, p));
      var id := db.nextId;
      var variant := Variant(p, code, price, oldPrice, qty, position, isActive, {});
      db := db.(variants := db.variants[id := variant], nextId := id + 1);
      // One value row per selector.
      WrittenTwice(before.variants, id, variant, variant.(values := Elements(Dedup(valueIds))));
      variant := variant.(values := Elements(Dedup(valueIds)));
      db := db.(variants := db.variants[id := variant]);
      db := db.(products := db.products[p := db.products[p].(hasVariants := true)]);
      assert edited == Ok(db);
      error := Commit(before, p, Always);
    }

    /** Inserts the variants for the missing combinations. */
    method CreateMissing(p: ProductId) returns (created: seq<int>, skipped: nat)
      requires AddMissingVariants(db, cat, p).Ok?
      modifies this
      ensures AddMissingVariants(old(db), cat, p) == Ok(db)
      ensures |created| == |MissingSets(old(db), cat, p)|
      ensures forall i :: 0 <= i < |created| ==> created[i] == old(db).nextId + i
      ensures skipped == CountSkipped(Combinations(old(db), cat, p), ExistingSets(old(db).variants, p))
    {
      ghost var before := db;
      var product := db.products[p];
      var rows;
      rows, created, skipped := BuildMissing(p);
      db := db.(variants := db.variants + rows, nextId := db.nextId + |created|);
      if created != [] && !product.hasVariants {
        db := db.(products := db.products[p := product.(hasVariants := true)]);
      }
      assert db == WithGenerated(before, p, rows, |created|);
    }

    method BuildMissing(p: ProductId) returns (rows: map<int, Variant>, created: seq<int>, skipped: nat)
      requires p in db.products
      ensures rows == GeneratedRows(db, cat, p)
      ensures |created| == |MissingSets(db, cat, p)| && forall i :: 0 <= i < |created| ==> created[i] == db.nextId + i
      ensures skipped == CountSkipped(Combinations(db, cat, p), ExistingSets(db.variants, p))
    {
      var combos, existing := Combinations(db, cat, p), ExistingSets(db.variants, p);
      rows, created, skipped := FillGaps(
        p, db.products[p].price, db.nextId, NextPosition(VariantPositions(db.variants, p)), combos, existing);
    }

    /** Creates the combinations that no variant has yet; reports how many were created and how many skipped. */
    method GenerateVariants(p: ProductId) returns (error: Option<ProductError>, created: seq<int>, skipped: nat)
      modifies this
      ensures Outcome(AddMissingVariants(old(db), cat, p), cat, p, Always, old(db), error, db)
      ensures error == None ==>
                && (forall i :: 0 <= i < |created| ==> created[i] == old(db).nextId + i)
                && |created| == |MissingSets(old(db), cat, p)|
                && skipped == CountSkipped(Combinations(old(db), cat, p), ExistingSets(old(db).variants, p))
    {
      var before := db;
      if p !in db.products { return Some(NotFound), [], 0; }
      if Selectors(db, p) == [] { return Some(Invalid), [], 0; }
      if [] in ValueLists(db, cat, p) { return Some(Invalid), [], 0; }
      created, skipped := CreateMissing(p);
      error := Commit(before, p, Always);
    }

    method UpdateVariant(v: int, patch: VariantPatch) returns (error: Option<ProductError>)
      modifies this
      ensures Outcome(
                PatchVariant(old(db), v, patch), cat, Target(old(db), ProductOps.UpdateVariant(v, patch)),
                Always, old(db), error, db)
    {
      var before := db;
      if v !in db.variants { return Some(NotFound); }
      var variant := db.variants[v];
      if patch.code.Some? && patch.code.value != variant.code && CodeTaken(db.variants, patch.code.value) {
        return Some(Conflict);
      }
      if variant.productId !in db.products { return Some(NotFound); }
      db := db.(variants := db.variants[v := PatchedVariant(variant, patch)]);
      error := Commit(before, variant.productId, Always);
    }

    method DeleteVariant(v: int) returns (error: Option<ProductError>)
      modifies this
      ensures Outcome(
                RemoveVariant(old(db), v), cat, Target(old(db), ProductOps.DeleteVariant(v)),
                Always, old(db), error, db)
    {
      var before := db;
      if v !in db.variants { return Some(NotFound); }
      var p := db.variants[v].productId;
      if p !in db.products { return Some(NotFound); }
      db := db.(media := Unbound(db.media, v));
      db := db.(variants := db.variants - {v});
      error := Commit(before, p, Always);
    }

    method BindMediaToVariant(p: ProductId, m: int, variantId: Option<int>) returns (error: Option<ProductError>)
      modifies this
      ensures Outcome(RebindMedia(old(db), p, m, variantId), cat, p, Always, old(db), error, db)
    {
      var before := db;
      if p !in db.products { return Some(NotFound); }
      if m !in db.media || db.media[m].productId != p { return Some(NotFound); }
      if variantId.Some? {
        if variantId.value !in db.variants || db.variants[variantId.value].productId != p { return Some(NotFound); }
      }
      db := db.(media := db.media[m := db.media[m].(variantId := variantId)]);
      error := Commit(before, p, Always);
    }

    method AddProductMedia(p: ProductId, upload: Upload) returns (error: Option<ProductError>)
      modifies this
      ensures Outcome(AppendMedia(old(db), p, upload), cat, p, WhenActive, old(db), error, db)
    {
      var before := db;
      if p !in db.products { return Some(NotFound); }
      if !upload.declaredImage { return Some(Invalid); }
      if upload.size.Some? && upload.size.value > MAX_UPLOAD_BYTES { return Some(Invalid); }
      if upload.stored.None? { return Some(Invalid); }
      var url := upload.stored.value;
      var position := NextPosition(Positions(MediaOf(db.media, p)));
      db := db.(media := db.media[db.nextId := Media(p, None, url, position)], nextId := db.nextId + 1);
      error := Commit(before, p, WhenActive);
    }

    method DeleteProductMedia(p: ProductId, m: int) returns (error: Option<ProductError>)
      modifies this
      ensures Outcome(RemoveMedia(old(db), p, m), cat, p, WhenActive, old(db), error, db)
    {
      var before := db;
      if p !in db.products { return Some(NotFound); }
      if m !in db.media || db.media[m].productId != p { return Some(NotFound); }
      db := db.(media := db.media - {m});
      error := Commit(before, p, WhenActive);
    }

    method ReorderProductMedia(p: ProductId, orderedIds: seq<int>) returns (error: Option<ProductError>)
      modifies this
      ensures Outcome(PlaceMedia(old(db), p, orderedIds), cat, p, WhenActive, old(db), error, db)
    {
      var before := db;
      if p !in db.products { return Some(NotFound); }
      if !IsPermutationOf(orderedIds, MediaOf(db.media, p).Keys) { return Some(Invalid); }
      PermutationMembers(orderedIds, MediaOf(db.media, p).Keys);
      var placed := AssignPositions(db.media, orderedIds);
      db := db.(media := placed);
      error := Commit(before, p, WhenActive);
    }
  }

  /** The row goes in first, because its translations need its id. */
  lemma RowThenTranslations(t: Tables, cat: Catalog, product: Product, translations: map<Lang, Translation>)
    requires product.categoryId in cat.paths
    ensures var inserted := t.(products := t.products[t.nextId := product], nextId := t.nextId + 1);
            AddProduct(t, cat, product, translations) ==
            Ok(inserted.(translations := inserted.translations + KeyedBy(t.nextId, translations)))
  {
  }

  lemma WrittenTwice<V>(rows: map<int, V>, id: int, first: V, second: V)
    ensures rows[id := first][id := second] == rows[id := second]
  {
  }

  lemma PermutationMembers(orderedIds: seq<int>, ids: set<int>)
    requires IsPermutationOf(orderedIds, ids)
    ensures forall m :: m in orderedIds ==> m in ids
  {
    assert forall m :: m in orderedIds ==> m in Elements(orderedIds);
  }

  /** The table after writing the listed languages, in that order. */
  ghost function Written<T>(bare: map<CardKey, T>, p: ProductId, own: map<Lang, T>, langs: seq<Lang>): map<CardKey, T>
    requires forall l :: l in langs ==> l in own
  {
    if langs == [] then bare
    else
      var last := langs[|langs| - 1];
      Written(bare, p, own, langs[..|langs| - 1])[CardKey(p, last) := own[last]]
  }

  lemma {:induction false} WrittenRows<T>(
    bare: map<CardKey, T>, p: ProductId, own: map<Lang, T>, langs: seq<Lang>, k: CardKey)
    requires forall l :: l in langs ==> l in own
    ensures var w := Written(bare, p, own, langs);
            if k.productId == p && k.lang in langs then k in w && w[k] == own[k.lang]
            else (k in w <==> k in bare) && (k in w ==> w[k] == bare[k])
  {
    if langs != [] {
      var n := |langs| - 1;
      WrittenRows(bare, p, own, langs[..n], k);
      assert langs == langs[..n] + [langs[n]];
    }
  }

  lemma WrittenAll<T>(bare: map<CardKey, T>, p: ProductId, own: map<Lang, T>, langs: seq<Lang>)
    requires forall l :: l in langs <==> l in own
    ensures Written(bare, p, own, langs) == bare + KeyedBy(p, own)
  {
    var w, all := Written(bare, p, own, langs), bare + KeyedBy(p, own);
    forall k
      ensures k in w <==> k in all
      ensures k in w ==> w[k] == all[k]
    {
      WrittenRows(bare, p, own, langs, k);
      assert k in KeyedBy(p, own) <==> k.productId == p && k.lang in own;
    }
  }

  /** The writing loop of a rebuild: one row per translation. */
  method WriteCards<T>(
    bare: map<CardKey, T>, p: ProductId, own: map<Lang, T>) returns (cards: map<CardKey, T>, written: nat)
    ensures cards == bare + KeyedBy(p, own)
    ensures written == |own|
  {
    cards, written := bare, 0;
    var langs := InSomeOrder(own.Keys);
    for i := 0 to |langs|
      invariant cards == Written(bare, p, own, langs[..i])
      invariant written == i
    {
      assert langs[i] in langs && langs[..i + 1][..i] == langs[..i];
      cards := cards[CardKey(p, langs[i]) := own[langs[i]]];
      written := written + 1;
    }
    assert langs[..|langs|] == langs;
    ListSize(langs, own.Keys);
    WrittenAll(bare, p, own, langs);
  }

  /** The generation loop: one pass over the combinations, remembering the sets that now exist. */
  method FillGaps(
    p: ProductId, price: Money, firstId: int, firstPosition: int, combos: seq<seq<ValueId>>, before: set<set<ValueId>>)
    returns (rows: map<int, Variant>, created: seq<int>, skipped: nat)
    ensures rows == NewVariants(p, price, firstId, firstPosition, Missing(combos, before))
    ensures |created| == |Missing(combos, before)| && forall i :: 0 <= i < |created| ==> created[i] == firstId + i
    ensures skipped == CountSkipped(combos, before)
  {
    rows, created, skipped := map[], [], 0;
    var existing, position := before, firstPosition;
    ghost var missing: seq<set<ValueId>> := [];
    for i := 0 to |combos|
      invariant missing == Missing(combos[..i], before) && skipped == CountSkipped(combos[..i], before)
      invariant rows == NewVariants(p, price, firstId, firstPosition, missing)
      invariant created == Ids(firstId, |missing|)
      invariant existing == before + Elements(missing)
      invariant position == firstPosition + |missing|
    {
      OneMoreCombo(combos, i, before);
      var comboSet := Elements(combos[i]);
      if comboSet in existing {
        skipped := skipped + 1;
      } else {
        var id := firstId + |created|;
        OneMoreRow(p, price, firstId, firstPosition, missing, comboSet, rows, id, position);
        rows := rows[id := GeneratedVariant(p, price, position, comboSet)];
        created := created + [id];
        existing := existing + {comboSet};
        position := position + 1;
        missing := missing + [comboSet];
      }
    }
    assert combos[..|combos|] == combos;
  }

  lemma OneMoreCombo(combos: seq<seq<ValueId>>, i: nat, before: set<set<ValueId>>)
    requires i < |combos|
    ensures var missing, s := Missing(combos[..i], before), Elements(combos[i]);
            if s in before + Elements(missing)
            then Missing(combos[..i + 1], before) == missing
                 && CountSkipped(combos[..i + 1], before) == CountSkipped(combos[..i], before) + 1
            else Missing(combos[..i + 1], before) == missing + [s]
                 && CountSkipped(combos[..i + 1], before) == CountSkipped(combos[..i], before)
                 && Elements(missing + [s]) == Elements(missing) + {s}
  {
    assert combos[..i + 1][..i] == combos[..i];
  }

  lemma OneMoreRow(
    p: ProductId, price: Money, firstId: int, firstPosition: int, missing: seq<set<ValueId>>, s: set<ValueId>,
    rows: map<int, Variant>, id: int, position: int)
    requires rows == NewVariants(p, price, firstId, firstPosition, missing)
    requires id == firstId + |missing| && position == firstPosition + |missing|
    ensures rows[id := GeneratedVariant(p, price, position, s)]
         == NewVariants(p, price, firstId, firstPosition, missing + [s])
  {
    assert (missing + [s])[..|missing|] == missing;
  }

  /** Ids drawn one after the other. */
  function Ids(firstId: int, n: nat): (ids: seq<int>)
    ensures |ids| == n && forall i :: 0 <= i < n ==> ids[i] == firstId + i
  {
    if n == 0 then [] else Ids(firstId, n - 1) + [firstId + n - 1]
  }

  /** The reorder loop: each listed row gets its index as position. */
  method AssignPositions(media: map<int, Media>, orderedIds: seq<int>) returns (placed: map<int, Media>)
    requires forall m :: m in orderedIds ==> m in media
    ensures placed == PlacedMedia(media, orderedIds)
  {
    placed := media;
    for i := 0 to |orderedIds|
      invariant placed == PlacedMedia(media, orderedIds[..i])
    {
      var m := orderedIds[i];
      assert m in orderedIds && orderedIds[..i + 1] == orderedIds[..i] + [m];
      PlaceOne(media, orderedIds[..i], m);
      placed := placed[m := placed[m].(position := i)];
    }
    assert orderedIds[..|orderedIds|] == orderedIds;
  }

  lemma PlaceOne(media: map<int, Media>, placedIds: seq<int>, m: int)
    requires m in media
    ensures PlacedMedia(media, placedIds + [m]) ==
            PlacedMedia(media, placedIds)[m := PlacedMedia(media, placedIds)[m].(position := |placedIds|)]
  {
    var list := placedIds + [m];
    assert list[..|placedIds|] == placedIds;
  }
}
