/** The back-office operations on products, translations, variants and media, as edits followed by a rebuild. */
module ProductOps {
  import opened Outcomes
  import opened Rows
  import opened Cards
  import opened Aggregates
  import opened Combos
  import opened Products

  /** Absent means "leave as it is"; a struck-through price may be set to nothing. */
  datatype ProductPatch = ProductPatch(
    categoryId: Option<int>,
    price: Option<Money>,
    oldPrice: Option<Option<Money>>,
    qty: Option<int>,
    isActive: Option<bool>,
    isFeatured: Option<bool>,
    hasVariants: Option<bool>)

  datatype VariantPatch = VariantPatch(
    code: Option<Option<string>>,
    price: Option<Money>,
    oldPrice: Option<Option<Money>>,
    qty: Option<int>,
    position: Option<int>,
    isActive: Option<bool>)

  const MAX_UPLOAD_BYTES := 10 * 1024 * 1024

  /**
   An uploaded file: whether its content type says image, its size if known, and the url it
   was stored under, which there is none of when the bytes do not decode to an image of an
   allowed size.
   */
  datatype Upload = Upload(declaredImage: bool, size: Option<nat>, stored: Option<string>)

  datatype Op =
    | CreateProduct(product: Product, translations: map<Lang, Translation>)
    | UpdateProduct(p: ProductId, patch: ProductPatch)
    | DeleteProduct(p: ProductId)
    | SetTranslation(p: ProductId, lang: Lang, translation: Translation)
    | SetSelectors(p: ProductId, attributeIds: seq<AttributeId>)
    | SetLinks(p: ProductId, valueIds: seq<ValueId>)
    | CreateVariant(p: ProductId, valueIds: seq<ValueId>, code: Option<string>, price: Money,
                    oldPrice: Option<Money>, qty: int, isActive: bool)
    | GenerateVariants(p: ProductId)
    | UpdateVariant(v: int, variantPatch: VariantPatch)
    | DeleteVariant(v: int)
    | BindMedia(p: ProductId, m: int, variantId: Option<int>)
    | AddMedia(p: ProductId, upload: Upload)
    | DeleteMedia(p: ProductId, m: int)
    | ReorderMedia(p: ProductId, orderedIds: seq<int>)

  // ---------------------------------------------------------------- pieces of the edits

  function Or<T>(change: Option<T>, current: T): T {
    if change.Some? then change.value else current
  }

  function PatchedProduct(product: Product, patch: ProductPatch): Product {
    Product(
      Or(patch.categoryId, product.categoryId),
      Or(patch.price, product.price),
      Or(patch.oldPrice, product.oldPrice),
      Or(patch.qty, product.qty),
      Or(patch.isActive, product.isActive),
      Or(patch.isFeatured, product.isFeatured),
      Or(patch.hasVariants, product.hasVariants))
  }

  function PatchedVariant(variant: Variant, patch: VariantPatch): Variant {
    variant.(
    code := Or(patch.code, variant.code),
    price := Or(patch.price, variant.price),
    oldPrice := Or(patch.oldPrice, variant.oldPrice),
    qty := Or(patch.qty, variant.qty),
    position := Or(patch.position, variant.position),
    isActive := Or(patch.isActive, variant.isActive))
  }

  /** First occurrences, in order. */
  function Dedup(list: seq<int>): (r: seq<int>)
    ensures NoRepeats(r)
    ensures forall x :: x in r <==> x in list
  {
    if list == [] then []
    else
      var init, last := list[..|list| - 1], list[|list| - 1];
      var kept := Dedup(init);
      assert list == init + [last];
      if last in kept then kept else kept + [last]
  }

  /** One past the highest position, 0 when there is none. */
  function NextPosition(positions: set<int>): int {
    if positions == {} then 0 else Greatest(positions) + 1
  }

  function VariantPositions(variants: map<int, Variant>, p: ProductId): set<int> {
    set v | v in variants && variants[v].productId == p :: variants[v].position
  }

  function Selectors(t: Tables, p: ProductId): seq<AttributeId> {
    if p in t.selectors then t.selectors[p] else []
  }

  predicate CodeTaken(variants: map<int, Variant>, code: Option<string>) {
    code.Some? && code.value != "" && exists v :: v in variants && variants[v].code == code
  }

  /** The value sets of a product's variants; a variant without value rows has none. */
  function ExistingSets(variants: map<int, Variant>, p: ProductId): set<set<ValueId>> {
    set v | v in variants && variants[v].productId == p && variants[v].values != {} :: variants[v].values
  }

  function AttributesOf(attributeOf: map<ValueId, AttributeId>, values: seq<ValueId>): seq<AttributeId>
    requires forall v :: v in values ==> v in attributeOf
  {
    if values == [] then []
    else
      var last := values[|values| - 1];
      assert last in values;
      AttributesOf(attributeOf, values[..|values| - 1]) + [attributeOf[last]]
  }

  /** The values assigned to the product for one attribute. */
  function AssignedValues(t: Tables, cat: Catalog, p: ProductId, a: AttributeId): set<ValueId> {
    set link | link in t.links && link.0 == p && link.1 in cat.attributeOf && cat.attributeOf[link.1] == a :: link.1
  }

  /** One ascending value list per selector, in selector order. */
  function ValueLists(t: Tables, cat: Catalog, p: ProductId): seq<seq<ValueId>> {
    var selectors := Selectors(t, p);
    seq(|selectors|, i requires 0 <= i < |selectors| => Ascending(AssignedValues(t, cat, p, selectors[i])))
  }

  function GeneratedVariant(p: ProductId, price: Money, position: int, values: set<ValueId>): Variant {
    Variant(p, None, price, None, 0, position, true, values)
  }

  /** The rows created for the missing sets: consecutive ids and positions. */
  function NewVariants(
    p: ProductId, price: Money, firstId: int, position: int, missing: seq<set<ValueId>>): (rows: map<int, Variant>)
    ensures forall id :: id in rows <==> firstId <= id < firstId + |missing|
    ensures forall i :: 0 <= i < |missing| ==> rows[firstId + i] == GeneratedVariant(p, price, position + i, missing[i])
  {
    if missing == [] then map[]
    else
      var n := |missing| - 1;
      NewVariants(p, price, firstId, position, missing[..n])
        [firstId + n := GeneratedVariant(p, price, position + n, missing[n])]
  }

  function Combinations(t: Tables, cat: Catalog, p: ProductId): seq<seq<ValueId>> {
    Cartesian(ValueLists(t, cat, p))
  }

  function MissingSets(t: Tables, cat: Catalog, p: ProductId): seq<set<ValueId>> {
    Missing(Combinations(t, cat, p), ExistingSets(t.variants, p))
  }

  function GeneratedRows(t: Tables, cat: Catalog, p: ProductId): map<int, Variant>
    requires p in t.products
  {
    NewVariants(p, t.products[p].price, t.nextId, NextPosition(VariantPositions(t.variants, p)), MissingSets(t, cat, p))
  }

  function PlacedMedia(media: map<int, Media>, orderedIds: seq<int>): map<int, Media> {
    map m | m in media ::
      if m in orderedIds then media[m].(position := IndexOf(orderedIds, m)) else media[m]
  }

  function IndexOf(list: seq<int>, x: int): (i: nat)
    requires x in list
    ensures i < |list| && list[i] == x
    ensures NoRepeats(list) ==> forall j :: 0 <= j < |list| && list[j] == x ==> j == i
  {
    if list[|list| - 1] == x then |list| - 1 else IndexOf(list[..|list| - 1], x)
  }

  /** The same ids, each once. */
  predicate IsPermutationOf(orderedIds: seq<int>, ids: set<int>) {
    Elements(orderedIds) == ids && |orderedIds| == |ids|
  }

  // ---------------------------------------------------------------- the edits

  /** Each edit yields the source rows after it, before any card is rebuilt. */
  type Edited = Result<Tables, ProductError>

  function AddProduct(t: Tables, cat: Catalog, product: Product, translations: map<Lang, Translation>): Edited {
    if product.categoryId !in cat.paths then Err(NotFound)
    else
      Ok(t.(products := t.products[t.nextId := product],
            translations := t.translations + KeyedBy(t.nextId, translations),
            nextId := t.nextId + 1))
  }

  function PatchProduct(t: Tables, cat: Catalog, p: ProductId, patch: ProductPatch): Edited {
    if p !in t.products then Err(NotFound)
    else if patch.categoryId.Some? && patch.categoryId.value !in cat.paths then Err(NotFound)
    else Ok(t.(products := t.products[p := PatchedProduct(t.products[p], patch)]))
  }

  function TranslationsWithout(translations: map<CardKey, Translation>, p: ProductId): map<CardKey, Translation> {
    map k | k in translations && k.productId != p :: translations[k]
  }

  function VariantsWithout(variants: map<int, Variant>, p: ProductId): map<int, Variant> {
    map v | v in variants && variants[v].productId != p :: variants[v]
  }

  function MediaWithout(media: map<int, Media>, p: ProductId): map<int, Media> {
    map m | m in media && media[m].productId != p :: media[m]
  }

  function RemoveProduct(t: Tables, p: ProductId): Edited {
    if p !in t.products then Err(NotFound)
    else
      Ok(Tables(
           t.products - {p},
           TranslationsWithout(t.translations, p),
           VariantsWithout(t.variants, p),
           MediaWithout(t.media, p),
           t.selectors - {p},
           (set link | link in t.links && link.0 != p),
           WithoutCards(t.cards, p),
           t.nextId))
  }

  function PutTranslation(t: Tables, p: ProductId, lang: Lang, translation: Translation): Edited {
    if p !in t.products then Err(NotFound)
    else Ok(t.(translations := t.translations[CardKey(p, lang) := translation]))
  }

  function PutSelectors(t: Tables, cat: Catalog, p: ProductId, attributeIds: seq<AttributeId>): Edited {
    var unique := Dedup(attributeIds);
    if p !in t.products then Err(NotFound)
    else if exists a :: a in unique && a !in cat.attributes then Err(NotFound)
    else if unique == [] && exists v :: v in t.variants && t.variants[v].productId == p then Err(Invalid)
    else
      Ok(t.(selectors := t.selectors[p := unique],
            products := t.products[p := t.products[p].(hasVariants := unique != [])]))
  }

  function PutLinks(t: Tables, cat: Catalog, p: ProductId, valueIds: seq<ValueId>): Edited {
    if p !in t.products then Err(NotFound)
    else if exists v :: v in valueIds && v !in cat.attributeOf then Err(NotFound)
    else Ok(t.(links := (set link | link in t.links && link.0 != p) + (set v | v in valueIds :: (p, v))))
  }

  function AddVariant(
    t: Tables, cat: Catalog, p: ProductId, valueIds: seq<ValueId>, code: Option<string>, price: Money,
    oldPrice: Option<Money>, qty: int, isActive: bool): Edited
  {
    var unique := Dedup(valueIds);
    if p !in t.products then Err(NotFound)
    else if Selectors(t, p) == [] then Err(Invalid)
    else if exists v :: v in unique && v !in cat.attributeOf then Err(NotFound)
    else if multiset(AttributesOf(cat.attributeOf, unique)) != multiset(Selectors(t, p)) then Err(Invalid)
    else if CodeTaken(t.variants, code) then Err(Conflict)
    else if Elements(unique) in ExistingSets(t.variants, p) then Err(Conflict)
    else
      var variant := Variant(p, code, price, oldPrice, qty, NextPosition(VariantPositions(t.variants, p)),
                             isActive, Elements(unique));
      Ok(t.(variants := t.variants[t.nextId := variant],
            products := t.products[p := t.products[p].(hasVariants := true)],
            nextId := t.nextId + 1))
  }

  /** The generated rows added; a product that got its first variants becomes variable. */
  function WithGenerated(t: Tables, p: ProductId, rows: map<int, Variant>, created: nat): Tables
    requires p in t.products
  {
    var product := t.products[p];
    t.(variants := t.variants + rows,
       products := if created > 0 && !product.hasVariants
       then t.products[p := product.(hasVariants := true)]
       else t.products,
       nextId := t.nextId + created)
  }

  function AddMissingVariants(t: Tables, cat: Catalog, p: ProductId): Edited {
    if p !in t.products then Err(NotFound)
    else if Selectors(t, p) == [] then Err(Invalid)
    else if [] in ValueLists(t, cat, p) then Err(Invalid)
    else Ok(WithGenerated(t, p, GeneratedRows(t, cat, p), |MissingSets(t, cat, p)|))
  }

  function PatchVariant(t: Tables, v: int, patch: VariantPatch): Edited {
    if v !in t.variants then Err(NotFound)
    else if patch.code.Some? && patch.code.value != t.variants[v].code && CodeTaken(t.variants, patch.code.value)
    then Err(Conflict)
    else if t.variants[v].productId !in t.products then Err(NotFound)
    else Ok(t.(variants := t.variants[v := PatchedVariant(t.variants[v], patch)]))
  }

  /** Images bound to the variant go back to the shared gallery. */
  function Unbound(media: map<int, Media>, v: int): map<int, Media> {
    map m | m in media :: if media[m].variantId == Some(v) then media[m].(variantId := None) else media[m]
  }

  function RemoveVariant(t: Tables, v: int): Edited {
    if v !in t.variants then Err(NotFound)
    else if t.variants[v].productId !in t.products then Err(NotFound)
    else
      Ok(t.(variants := t.variants - {v},
            media := Unbound(t.media, v)))
  }

  function RebindMedia(t: Tables, p: ProductId, m: int, variantId: Option<int>): Edited {
    if p !in t.products then Err(NotFound)
    else if m !in t.media || t.media[m].productId != p then Err(NotFound)
    else if variantId.Some? && (variantId.value !in t.variants || t.variants[variantId.value].productId != p)
    then Err(NotFound)
    else Ok(t.(media := t.media[m := t.media[m].(variantId := variantId)]))
  }

  predicate Acceptable(upload: Upload) {
    upload.declaredImage && (upload.size.Some? ==> upload.size.value <= MAX_UPLOAD_BYTES) && upload.stored.Some?
  }

  function AppendMedia(t: Tables, p: ProductId, upload: Upload): Edited {
    if p !in t.products then Err(NotFound)
    else if !Acceptable(upload) then Err(Invalid)
    else
      var position := NextPosition(Positions(MediaOf(t.media, p)));
      Ok(t.(media := t.media[t.nextId := Media(p, None, upload.stored.value, position)], nextId := t.nextId + 1))
  }

  function RemoveMedia(t: Tables, p: ProductId, m: int): Edited {
    if p !in t.products then Err(NotFound)
    else if m !in t.media || t.media[m].productId != p then Err(NotFound)
    else Ok(t.(media := t.media - {m}))
  }

  function PlaceMedia(t: Tables, p: ProductId, orderedIds: seq<int>): Edited {
    if p !in t.products then Err(NotFound)
    else if !IsPermutationOf(orderedIds, MediaOf(t.media, p).Keys) then Err(Invalid)
    else Ok(t.(media := PlacedMedia(t.media, orderedIds)))
  }

  function Edit(t: Tables, cat: Catalog, op: Op): Edited {
    match op
    case CreateProduct(product, translations) => AddProduct(t, cat, product, translations)
    case UpdateProduct(p, patch) => PatchProduct(t, cat, p, patch)
    case DeleteProduct(p) => RemoveProduct(t, p)
    case SetTranslation(p, lang, translation) => PutTranslation(t, p, lang, translation)
    case SetSelectors(p, attributeIds) => PutSelectors(t, cat, p, attributeIds)
    case SetLinks(p, valueIds) => PutLinks(t, cat, p, valueIds)
    case CreateVariant(p, valueIds, code, price, oldPrice, qty, isActive) =>
      AddVariant(t, cat, p, valueIds, code, price, oldPrice, qty, isActive)
    case GenerateVariants(p) => AddMissingVariants(t, cat, p)
    case UpdateVariant(v, patch) => PatchVariant(t, v, patch)
    case DeleteVariant(v) => RemoveVariant(t, v)
    case BindMedia(p, m, variantId) => RebindMedia(t, p, m, variantId)
    case AddMedia(p, upload) => AppendMedia(t, p, upload)
    case DeleteMedia(p, m) => RemoveMedia(t, p, m)
    case ReorderMedia(p, orderedIds) => PlaceMedia(t, p, orderedIds)
  }

  /** The product an operation touches. */
  function Target(t: Tables, op: Op): ProductId {
    match op
    case CreateProduct(_, _) => t.nextId
    case UpdateVariant(v, _) => if v in t.variants then t.variants[v].productId else 0
    case DeleteVariant(v) => if v in t.variants then t.variants[v].productId else 0
    case _ => op.p
  }

  /** Which operations rebuild: most always, some only when the product is active, two never. */
  datatype Publication = Always | WhenActive | Never

  function PublicationOf(op: Op): Publication {
    match op
    case CreateProduct(_, _) => WhenActive
    case AddMedia(_, _) => WhenActive
    case DeleteMedia(_, _) => WhenActive
    case ReorderMedia(_, _) => WhenActive
    case DeleteProduct(_) => Never
    case SetLinks(_, _) => Never
    case _ => Always
  }

  function Publish(t: Tables, cat: Catalog, p: ProductId, publication: Publication): Result<Tables, ProductError> {
    if publication == Always || (publication == WhenActive && p in t.products && t.products[p].isActive)
    then Rebuild(t, cat, p)
    else Ok(t)
  }

  /** An edit that is refused, or whose publication is, leaves every table as it was. */
  ghost predicate Outcome(
    edited: Edited, cat: Catalog, p: ProductId, publication: Publication,
    before: Tables, error: Option<ProductError>, after: Tables)
  {
    match edited
    case Err(e) => error == Some(e) && after == before
    case Ok(t) =>
      match Publish(t, cat, p, publication)
      case Err(e) => error == Some(e) && after == before
      case Ok(u) => error == None && after == u
  }

  function Perform(t: Tables, cat: Catalog, op: Op): Result<Tables, ProductError> {
    match Edit(t, cat, op)
    case Err(e) => Err(e)
    case Ok(t') => Publish(t', cat, Target(t, op), PublicationOf(op))
  }

  /** A refused operation leaves every table as it was. */
  function Step(t: Tables, cat: Catalog, op: Op): Tables {
    match Perform(t, cat, op)
    case Ok(t') => t'
    case Err(_) => t
  }

  /** The outcome of an operation's own edit is one step of the tables. */
  lemma OutcomeIsStep(t: Tables, cat: Catalog, op: Op, error: Option<ProductError>, after: Tables)
    requires Outcome(Edit(t, cat, op), cat, Target(t, op), PublicationOf(op), t, error, after)
    ensures after == Step(t, cat, op)
    ensures error == match Perform(t, cat, op) case Ok(_) => None case Err(e) => Some(e)
  {
  }

  function Run(t: Tables, cat: Catalog, ops: seq<Op>): Tables
    decreases |ops|
  {
    if ops == [] then t else Run(Step(t, cat, ops[0]), cat, ops[1..])
  }

  // ---------------------------------------------------------------- what every operation keeps

  /** Generated ids are fresh, and a bound image belongs to the product of its variant. */
  ghost predicate WellFormed(t: Tables) {
    && (forall p :: p in t.products ==> p < t.nextId)
    && (forall v :: v in t.variants ==> v < t.nextId)
    && (forall m :: m in t.media ==> m < t.nextId)
    && (forall m :: m in t.media && t.media[m].variantId.Some? ==>
          var v := t.media[m].variantId.value;
          v in t.variants && t.variants[v].productId == t.media[m].productId)
    && (forall p :: p in t.selectors ==> NoRepeats(t.selectors[p]))
  }

  /** No two variants of a product have the same value set. */
  ghost predicate DistinctVariants(t: Tables) {
    forall v, w :: v in t.variants && w in t.variants && v != w && t.variants[v].productId == t.variants[w].productId
                   ==> t.variants[v].values != t.variants[w].values
  }

  /** No two variants, of whatever products, have the same non-empty code. */
  ghost predicate DistinctCodes(t: Tables) {
    forall v, w ::
      v in t.variants && w in t.variants && t.variants[v].code == t.variants[w].code
      && t.variants[v].code.Some? && t.variants[v].code.value != ""
      ==> v == w
  }

  ghost predicate Consistent(t: Tables, cat: Catalog) {
    WellFormed(t) && DistinctVariants(t) && DistinctCodes(t) && AllHealthy(t, cat)
  }
}
