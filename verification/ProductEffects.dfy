/** What each product operation stores, refuses and leaves alone, said of the rows before and after. */
module ProductEffects {
  import opened Outcomes
  import opened Rows
  import opened Aggregates
  import opened Cards
  import opened Combos
  import opened Products
  import opened ProductOps
  import opened ProductRuns
  import opened CardViews

  /** Only the cached price and quantity of an active variable product may differ. */
  predicate SameButCached(before: Product, after: Product) {
    && after == before.(price := after.price, qty := after.qty)
    && (!before.isActive || !before.hasVariants ==> after == before)
  }

  lemma RebuildKeepsRows(t: Tables, cat: Catalog, p: ProductId)
    requires Rebuild(t, cat, p).Ok?
    ensures p in t.products
    ensures var u := Rebuild(t, cat, p).value;
            && u == t.(products := u.products, cards := u.cards)
            && p in u.products && SameButCached(t.products[p], u.products[p])
            && u.products == t.products[p := u.products[p]]
  {
    assert t.products[p := t.products[p]] == t.products;
  }

  /** A publication changes no source row but the cached price and quantity of an active variable product. */
  lemma PublishKeepsRows(t: Tables, cat: Catalog, p: ProductId, publication: Publication)
    requires Publish(t, cat, p, publication).Ok?
    ensures var u := Publish(t, cat, p, publication).value;
            && u.translations == t.translations && u.variants == t.variants && u.media == t.media
            && u.selectors == t.selectors && u.links == t.links && u.nextId == t.nextId
            && u.products.Keys == t.products.Keys
            && (forall q :: q in t.products && q != p ==> u.products[q] == t.products[q])
            && (p in t.products ==> SameButCached(t.products[p], u.products[p]))
  {
    if Publish(t, cat, p, publication) != Ok(t) {
      RebuildKeepsRows(t, cat, p);
    }
  }

  // ---------------------------------------------------------------- products

  lemma CreatedProduct(t: Tables, cat: Catalog, product: Product, translations: map<Lang, Translation>)
    requires Perform(t, cat, CreateProduct(product, translations)).Ok?
    ensures var u, p := Perform(t, cat, CreateProduct(product, translations)).value, t.nextId;
            && u.nextId == p + 1 && p in u.products && product.categoryId in cat.paths
            && u.products[p] == product.(price := u.products[p].price, qty := u.products[p].qty)
            && (!product.isActive || !product.hasVariants ==> u.products[p] == product)
            && (forall l: Lang :: l in translations ==>
                  CardKey(p, l) in u.translations && u.translations[CardKey(p, l)] == translations[l])
            && (forall k :: k in t.translations && k.productId != p ==>
                  k in u.translations && u.translations[k] == t.translations[k])
            && (forall q :: q in t.products && q != p ==> q in u.products && u.products[q] == t.products[q])
            && u.variants == t.variants && u.media == t.media && u.selectors == t.selectors && u.links == t.links
  {
    var added := AddProduct(t, cat, product, translations).value;
    PublishKeepsRows(added, cat, t.nextId, WhenActive);
    forall l: Lang | l in translations
      ensures CardKey(t.nextId, l) in added.translations && added.translations[CardKey(t.nextId, l)] == translations[l]
    {
      assert CardKey(t.nextId, l) in KeyedBy(t.nextId, translations);
    }
  }

  /**
   A field that is given is stored, one that is not keeps its value; price and quantity of an
   active variable product follow its variants.
   */
  lemma UpdatedProduct(t: Tables, cat: Catalog, p: ProductId, patch: ProductPatch)
    requires Perform(t, cat, UpdateProduct(p, patch)).Ok?
    ensures p in t.products && p in Perform(t, cat, UpdateProduct(p, patch)).value.products
    ensures var old_, now := t.products[p], Perform(t, cat, UpdateProduct(p, patch)).value.products[p];
            && now.categoryId == (if patch.categoryId.Some? then patch.categoryId.value else old_.categoryId)
            && now.oldPrice == (if patch.oldPrice.Some? then patch.oldPrice.value else old_.oldPrice)
            && now.isActive == (if patch.isActive.Some? then patch.isActive.value else old_.isActive)
            && now.isFeatured == (if patch.isFeatured.Some? then patch.isFeatured.value else old_.isFeatured)
            && now.hasVariants == (if patch.hasVariants.Some? then patch.hasVariants.value else old_.hasVariants)
            && (!now.isActive || !now.hasVariants ==>
                  && now.price == (if patch.price.Some? then patch.price.value else old_.price)
                  && now.qty == (if patch.qty.Some? then patch.qty.value else old_.qty))
    ensures var u := Perform(t, cat, UpdateProduct(p, patch)).value;
            u.products.Keys == t.products.Keys
            && forall q :: q in t.products && q != p ==> u.products[q] == t.products[q]
  {
    PublishKeepsRows(PatchProduct(t, cat, p, patch).value, cat, p, Always);
  }

  /** Nothing of a deleted product is left, and nothing else is gone. */
  lemma DeletedProduct(t: Tables, cat: Catalog, p: ProductId)
    ensures Perform(t, cat, DeleteProduct(p)).Ok? <==> p in t.products
    ensures p in t.products ==>
              var u := Perform(t, cat, DeleteProduct(p)).value;
              && (forall q :: q in u.products <==> q in t.products && q != p)
              && (forall k :: k in u.translations <==> k in t.translations && k.productId != p)
              && (forall v :: v in u.variants <==> v in t.variants && t.variants[v].productId != p)
              && (forall m :: m in u.media <==> m in t.media && t.media[m].productId != p)
              && (forall link :: link in u.links <==> link in t.links && link.0 != p)
              && (forall q :: q in u.selectors <==> q in t.selectors && q != p)
              && (forall k :: k in u.cards <==> k in t.cards && k.productId != p)
              && (forall q :: q in u.products ==> u.products[q] == t.products[q])
              && (forall k :: k in u.translations ==> u.translations[k] == t.translations[k])
              && (forall v :: v in u.variants ==> u.variants[v] == t.variants[v])
              && (forall m :: m in u.media ==> u.media[m] == t.media[m])
              && (forall q :: q in u.selectors ==> u.selectors[q] == t.selectors[q])
              && (forall k :: k in u.cards ==> u.cards[k] == t.cards[k])
  {
  }

  lemma StoredTranslation(t: Tables, cat: Catalog, p: ProductId, lang: Lang, translation: Translation)
    requires Perform(t, cat, SetTranslation(p, lang, translation)).Ok?
    ensures Perform(t, cat, SetTranslation(p, lang, translation)).value.translations ==
            t.translations[CardKey(p, lang) := translation]
  {
    PublishKeepsRows(PutTranslation(t, p, lang, translation).value, cat, p, Always);
  }

  /** The first `x` of the list comes before any `y`. */
  ghost predicate ComesFirst(list: seq<int>, x: int, y: int) {
    exists i :: 0 <= i < |list| && list[i] == x && y !in list[..i]
  }

  lemma {:induction false} DedupKeepsOrder(list: seq<int>, i: nat, j: nat)
    requires i < j < |Dedup(list)|
    ensures ComesFirst(list, Dedup(list)[i], Dedup(list)[j])
  {
    var n := |list| - 1;
    var init, kept := list[..n], Dedup(list[..n]);
    var x, y := Dedup(list)[i], Dedup(list)[j];
    if j < |kept| {
      DedupKeepsOrder(init, i, j);
      var k :| 0 <= k < |init| && init[k] == x && y !in init[..k];
      assert list[k] == x && list[..k] == init[..k];
    } else {
      assert x in kept && y !in init;
      var k :| 0 <= k < |init| && init[k] == x;
      assert list[k] == x && y !in list[..k];
    }
  }

  /**
   The selectors become the given attributes, each once, in the order given; the product is variable
   exactly when there are any.
   */
  lemma StoredSelectors(t: Tables, cat: Catalog, p: ProductId, attributeIds: seq<AttributeId>)
    requires Perform(t, cat, SetSelectors(p, attributeIds)).Ok?
    ensures var u := Perform(t, cat, SetSelectors(p, attributeIds)).value;
            && p in u.products && p in u.selectors
            && NoRepeats(u.selectors[p]) && (forall a :: a in u.selectors[p] <==> a in attributeIds)
            && (forall i, j :: 0 <= i < j < |u.selectors[p]| ==>
                  ComesFirst(attributeIds, u.selectors[p][i], u.selectors[p][j]))
            && (u.products[p].hasVariants <==> attributeIds != [])
            && (forall a :: a in attributeIds ==> a in cat.attributes)
            && (attributeIds == [] ==> forall v :: v in t.variants ==> t.variants[v].productId != p)
            && (forall q :: q != p ==> (q in u.selectors <==> q in t.selectors)
                                       && (q in t.selectors ==> u.selectors[q] == t.selectors[q]))
  {
    PublishKeepsRows(PutSelectors(t, cat, p, attributeIds).value, cat, p, Always);
    forall i, j | 0 <= i < j < |Dedup(attributeIds)|
      ensures ComesFirst(attributeIds, Dedup(attributeIds)[i], Dedup(attributeIds)[j])
    {
      DedupKeepsOrder(attributeIds, i, j);
    }
    assert Dedup(attributeIds) == [] <==> attributeIds == [] by {
      assert attributeIds != [] ==> attributeIds[0] in attributeIds && attributeIds[0] in Dedup(attributeIds);
    }
  }

  /** A product's links become exactly the given values, all of which exist. */
  lemma StoredLinks(t: Tables, cat: Catalog, p: ProductId, valueIds: seq<ValueId>)
    ensures Perform(t, cat, SetLinks(p, valueIds)).Ok? <==>
              p in t.products && forall v :: v in valueIds ==> v in cat.attributeOf
    ensures Perform(t, cat, SetLinks(p, valueIds)).Ok? ==>
              forall q, v :: (q, v) in Perform(t, cat, SetLinks(p, valueIds)).value.links <==>
                if q == p then v in valueIds else (q, v) in t.links
  {
    if Perform(t, cat, SetLinks(p, valueIds)).Ok? {
      forall q, v
        ensures (q, v) in Perform(t, cat, SetLinks(p, valueIds)).value.links <==>
                  if q == p then v in valueIds else (q, v) in t.links
      {
      }
    }
  }

  // ---------------------------------------------------------------- variants

  /** The row has what was asked for, and comes after all the product's rows. */
  ghost predicate IsAsAsked(
    row: Variant, variants: map<int, Variant>, p: ProductId, valueIds: seq<ValueId>, code: Option<string>, price: Money,
    oldPrice: Option<Money>, qty: int, isActive: bool)
  {
    && row.productId == p && row.code == code && row.price == price && row.oldPrice == oldPrice
    && row.qty == qty && row.isActive == isActive && (forall v :: v in row.values <==> v in valueIds)
    && forall v :: v in variants && variants[v].productId == p ==> variants[v].position < row.position
  }

  lemma AddedVariant(
    t: Tables, cat: Catalog, p: ProductId, valueIds: seq<ValueId>, code: Option<string>, price: Money,
    oldPrice: Option<Money>, qty: int, isActive: bool)
    requires AddVariant(t, cat, p, valueIds, code, price, oldPrice, qty, isActive).Ok?
    ensures var u := AddVariant(t, cat, p, valueIds, code, price, oldPrice, qty, isActive).value;
            && t.nextId in u.variants && u.variants == t.variants[t.nextId := u.variants[t.nextId]]
            && IsAsAsked(u.variants[t.nextId], t.variants, p, valueIds, code, price, oldPrice, qty, isActive)
            && p in u.products && u.products[p].hasVariants
  {
    forall v | v in t.variants && t.variants[v].productId == p
      ensures t.variants[v].position < NextPosition(VariantPositions(t.variants, p))
    {
      assert t.variants[v].position in VariantPositions(t.variants, p);
    }
  }

  /** The new row is the only change among the variants. */
  lemma CreatedVariant(
    t: Tables, cat: Catalog, p: ProductId, valueIds: seq<ValueId>, code: Option<string>, price: Money,
    oldPrice: Option<Money>, qty: int, isActive: bool)
    requires Perform(t, cat, CreateVariant(p, valueIds, code, price, oldPrice, qty, isActive)).Ok?
    ensures var u := Perform(t, cat, CreateVariant(p, valueIds, code, price, oldPrice, qty, isActive)).value;
            && t.nextId in u.variants && u.variants == t.variants[t.nextId := u.variants[t.nextId]]
            && IsAsAsked(u.variants[t.nextId], t.variants, p, valueIds, code, price, oldPrice, qty, isActive)
            && p in u.products && u.products[p].hasVariants
  {
    AddedVariant(t, cat, p, valueIds, code, price, oldPrice, qty, isActive);
    var added := AddVariant(t, cat, p, valueIds, code, price, oldPrice, qty, isActive);
    assert Edit(t, cat, CreateVariant(p, valueIds, code, price, oldPrice, qty, isActive)) == added;
    PublishKeepsRows(added.value, cat, p, Always);
  }

  lemma {:induction false} AttributeOfEach(attributeOf: map<ValueId, AttributeId>, values: seq<ValueId>)
    requires forall v :: v in values ==> v in attributeOf
    ensures |AttributesOf(attributeOf, values)| == |values|
    ensures forall i :: 0 <= i < |values| ==> AttributesOf(attributeOf, values)[i] == attributeOf[values[i]]
  {
    if values != [] {
      var n := |values| - 1;
      var last := values[n];
      assert last in values;
      AttributeOfEach(attributeOf, values[..n]);
    }
  }

  lemma SameElements<T>(a: seq<T>, b: seq<T>)
    requires multiset(a) == multiset(b)
    ensures |a| == |b| && forall x :: x in a <==> x in b
  {
    assert |multiset(a)| == |a| && |multiset(b)| == |b|;
    forall x ensures x in a <==> x in b {
      assert x in a <==> x in multiset(a);
      assert x in b <==> x in multiset(b);
    }
  }

  lemma OneValueEach(attributeOf: map<ValueId, AttributeId>, values: seq<ValueId>, selectors: seq<AttributeId>)
    requires forall v :: v in values ==> v in attributeOf
    requires multiset(AttributesOf(attributeOf, values)) == multiset(selectors) && NoRepeats(selectors)
    ensures forall v, w :: v in values && w in values && attributeOf[v] == attributeOf[w] ==> v == w
  {
    var attributes := AttributesOf(attributeOf, values);
    AttributeOfEach(attributeOf, values);
    forall v, w | v in values && w in values && attributeOf[v] == attributeOf[w] ensures v == w {
      var i :| 0 <= i < |values| && values[i] == v;
      var j :| 0 <= j < |values| && values[j] == w;
      if i != j {
        TwiceIsTwo(attributes, i, j);
        OnceIsOne(selectors, attributes[i]);
      }
    }
  }

  lemma TwiceIsTwo<T>(s: seq<T>, i: nat, j: nat)
    requires i < |s| && j < |s| && i != j && s[i] == s[j]
    ensures multiset(s)[s[i]] >= 2
  {
    var a, b := if i < j then i else j, if i < j then j else i;
    assert s == s[..a] + [s[a]] + s[a + 1..b] + [s[b]] + s[b + 1..];
  }

  lemma {:induction false} OnceIsOne<T>(s: seq<T>, x: T)
    requires NoRepeats(s)
    ensures multiset(s)[x] <= 1
  {
    if s != [] {
      var init, last := s[..|s| - 1], s[|s| - 1];
      OnceIsOne(init, x);
      assert s == init + [last];
      assert last !in init;
      assert last !in multiset(init);
    }
  }

  /** A field that is given is stored, one that is not keeps its value; the other variants are untouched. */
  lemma UpdatedVariant(t: Tables, cat: Catalog, v: int, patch: VariantPatch)
    requires Perform(t, cat, UpdateVariant(v, patch)).Ok?
    ensures v in t.variants && v in Perform(t, cat, UpdateVariant(v, patch)).value.variants
    ensures var old_, u := t.variants[v], Perform(t, cat, UpdateVariant(v, patch)).value;
            var now := u.variants[v];
            && now.productId == old_.productId && now.values == old_.values
            && now.code == (if patch.code.Some? then patch.code.value else old_.code)
            && now.price == (if patch.price.Some? then patch.price.value else old_.price)
            && now.oldPrice == (if patch.oldPrice.Some? then patch.oldPrice.value else old_.oldPrice)
            && now.qty == (if patch.qty.Some? then patch.qty.value else old_.qty)
            && now.position == (if patch.position.Some? then patch.position.value else old_.position)
            && now.isActive == (if patch.isActive.Some? then patch.isActive.value else old_.isActive)
            && u.variants == t.variants[v := now]
  {
    PublishKeepsRows(PatchVariant(t, v, patch).value, cat, t.variants[v].productId, Always);
  }

  /** The variant is gone, its images are bound to no variant, and nothing else has changed. */
  lemma DeletedVariant(t: Tables, cat: Catalog, v: int)
    requires Perform(t, cat, DeleteVariant(v)).Ok?
    ensures var u := Perform(t, cat, DeleteVariant(v)).value;
            && u.variants == t.variants - {v} && u.media.Keys == t.media.Keys
            && forall m :: m in t.media ==>
                 u.media[m] == if t.media[m].variantId == Some(v) then t.media[m].(variantId := None) else t.media[m]
  {
    PublishKeepsRows(RemoveVariant(t, v).value, cat, t.variants[v].productId, Always);
  }

  /**
   A generation adds variants of this product only, and makes the product variable if it adds any;
   beyond the cached price and quantity it changes nothing else.
   */
  lemma GeneratedVariants(t: Tables, cat: Catalog, p: ProductId)
    requires WellFormed(t) && Perform(t, cat, GenerateVariants(p)).Ok?
    ensures var u := Perform(t, cat, GenerateVariants(p)).value;
            && p in t.products && u.products.Keys == t.products.Keys
            && (u.products[p].hasVariants <==> t.products[p].hasVariants || u.variants != t.variants)
            && u.products[p] == t.products[p].(
                                  hasVariants := u.products[p].hasVariants,
                                  price := u.products[p].price,
                                  qty := u.products[p].qty)
            && (forall q :: q in t.products && q != p ==> u.products[q] == t.products[q])
            && (forall v :: v in t.variants ==> v in u.variants && u.variants[v] == t.variants[v])
            && (forall v :: v in u.variants && v !in t.variants ==> u.variants[v].productId == p)
            && u.media == t.media && u.translations == t.translations && u.selectors == t.selectors
            && u.links == t.links
  {
    GeneratedRowsAdded(t, cat, p);
    PublishKeepsRows(AddMissingVariants(t, cat, p).value, cat, p, Always);
  }

  ghost predicate AddsVariantsOf(p: ProductId, t: Tables, u: Tables) {
    && p in t.products && u == t.(products := u.products, variants := u.variants, nextId := u.nextId)
    && p in u.products && u.products == t.products[p := u.products[p]]
    && u.products[p] == t.products[p].(hasVariants := u.products[p].hasVariants)
    && (u.products[p].hasVariants <==> t.products[p].hasVariants || u.variants != t.variants)
    && (forall v :: v in t.variants ==> v in u.variants && u.variants[v] == t.variants[v])
    && (forall v :: v in u.variants && v !in t.variants ==> u.variants[v].productId == p)
  }

  lemma RowsAdded(t: Tables, p: ProductId, rows: map<int, Variant>, created: nat)
    requires p in t.products && forall v :: v in rows ==> v !in t.variants && rows[v].productId == p
    requires if created == 0 then rows == map[] else exists v :: v in rows
    ensures AddsVariantsOf(p, t, WithGenerated(t, p, rows, created))
  {
    var u := WithGenerated(t, p, rows, created);
    assert t.products[p := t.products[p]] == t.products;
    if created > 0 {
      var v :| v in rows;
      assert v in u.variants && v !in t.variants;
    } else {
      assert u.variants == t.variants;
    }
  }

  lemma GeneratedRowsAdded(t: Tables, cat: Catalog, p: ProductId)
    requires WellFormed(t) && AddMissingVariants(t, cat, p).Ok?
    ensures AddsVariantsOf(p, t, AddMissingVariants(t, cat, p).value)
  {
    var rows, missing := GeneratedRows(t, cat, p), MissingSets(t, cat, p);
    forall v | v in rows ensures v !in t.variants && rows[v].productId == p {
      NewVariantRow(p, t.products[p].price, t.nextId, NextPosition(VariantPositions(t.variants, p)), missing, v);
    }
    assert missing != [] ==> t.nextId in rows;
    RowsAdded(t, p, rows, |missing|);
  }

  // ---------------------------------------------------------------- media

  ghost predicate HasPosition(before: map<int, Media>, after: map<int, Media>, m: int, position: int) {
    m in before && m in after && after[m] == before[m].(position := position)
  }

  lemma PlacedAtIndex(t: Tables, p: ProductId, orderedIds: seq<int>)
    requires IsPermutationOf(orderedIds, MediaOf(t.media, p).Keys)
    ensures forall m :: m in orderedIds <==> m in t.media && t.media[m].productId == p
    ensures forall i :: 0 <= i < |orderedIds| ==>
              HasPosition(t.media, PlacedMedia(t.media, orderedIds), orderedIds[i], i)
  {
    PermutationFacts(orderedIds, MediaOf(t.media, p).Keys);
    forall i | 0 <= i < |orderedIds|
      ensures HasPosition(t.media, PlacedMedia(t.media, orderedIds), orderedIds[i], i)
    {
      var m := orderedIds[i];
      assert m in orderedIds;
      assert m in MediaOf(t.media, p);
      assert IndexOf(orderedIds, m) == i;
    }
  }

  /** Rebinding, appending, deleting and reordering change just the rows named, and a new image comes last. */
  lemma StoredMedia(t: Tables, cat: Catalog, op: Op)
    requires (op.BindMedia? || op.AddMedia? || op.DeleteMedia? || op.ReorderMedia?) && Perform(t, cat, op).Ok?
    ensures var u := Perform(t, cat, op).value;
            match op
            case BindMedia(p, m, variantId) =>
              && m in t.media && t.media[m].productId == p
              && (variantId.Some? ==> variantId.value in t.variants && t.variants[variantId.value].productId == p)
              && u.media == t.media[m := t.media[m].(variantId := variantId)]
            case AddMedia(p, upload) =>
              && upload.stored.Some? && t.nextId in u.media
              && var row := u.media[t.nextId];
                 && row.productId == p && row.variantId == None && row.url == upload.stored.value
                 && (forall m :: m in t.media && t.media[m].productId == p ==> t.media[m].position < row.position)
                 && u.media == t.media[t.nextId := row]
            case DeleteMedia(p, m) => m in t.media && t.media[m].productId == p && u.media == t.media - {m}
            case ReorderMedia(p, orderedIds) =>
              && (forall m :: m in orderedIds <==> m in t.media && t.media[m].productId == p)
              && u.media.Keys == t.media.Keys
              && (forall i :: 0 <= i < |orderedIds| ==> HasPosition(t.media, u.media, orderedIds[i], i))
              && (forall m :: m in t.media && m !in orderedIds ==> u.media[m] == t.media[m])
            case _ => true
  {
    PublishKeepsRows(Edit(t, cat, op).value, cat, op.p, PublicationOf(op));
    if op.AddMedia? {
      var media := MediaOf(t.media, op.p);
      forall m | m in t.media && t.media[m].productId == op.p
        ensures t.media[m].position < NextPosition(Positions(media))
      {
        assert m in media && media[m].position in Positions(media);
      }
    } else if op.ReorderMedia? {
      PlacedAtIndex(t, op.p, op.orderedIds);
    }
  }
}
