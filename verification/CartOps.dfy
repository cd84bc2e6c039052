/** The cart operations as steps of the cart tables, and what they keep over every run. */
module CartOps {
  import opened Outcomes
  import opened Aggregates
  import opened Products
  import opened Carts

  /** A cart belongs to a user or to a guest's session token; only drafts are still edited. */
  datatype Cart = Cart(userId: Option<int>, token: Option<int>, draft: bool)

  datatype Shop = Shop(carts: map<int, Cart>, items: Items, nextId: int)

  /** The product and variant rows a cart is priced and checked against. */
  datatype PriceList = PriceList(products: map<int, Product>, variants: map<int, Variant>)

  datatype CartError = NotAvailable | ItemNotFound

  // ---------------------------------------------------------------- which cart

  predicate OwnedBy(cart: Cart, userId: Option<int>, token: Option<int>) {
    && cart.draft
    && (if userId.Some? then cart.userId == userId else token.Some? && cart.token == token)
  }

  function DraftsOf(carts: map<int, Cart>, userId: Option<int>, token: Option<int>): set<int> {
    set c | c in carts && OwnedBy(carts[c], userId, token)
  }

  function DraftOf(carts: map<int, Cart>, userId: Option<int>, token: Option<int>): Option<int> {
    var drafts := DraftsOf(carts, userId, token);
    if drafts == {} then None else Some(Least(drafts))
  }

  function GetOrCreate(s: Shop, userId: Option<int>, token: Option<int>): (Shop, int) {
    match DraftOf(s.carts, userId, token)
    case Some(c) => (s, c)
    case None =>
      var cart := Cart(userId, if userId.Some? then None else token, true);
      (s.(carts := s.carts[s.nextId := cart], nextId := s.nextId + 1), s.nextId)
  }

  // ---------------------------------------------------------------- the operations

  /** A variable product needs one of its own active variants, a simple one forbids any. */
  predicate Purchasable(list: PriceList, k: LineKey) {
    && k.productId in list.products && list.products[k.productId].isActive
    && if list.products[k.productId].hasVariants then
         && k.variantId.Some? && k.variantId.value in list.variants
         && list.variants[k.variantId.value].productId == k.productId
         && list.variants[k.variantId.value].isActive
       else k.variantId.None?
  }

  function AddItem(
    s: Shop, list: PriceList, userId: Option<int>, token: Option<int>, k: LineKey, qty: int): Result<Shop, CartError> {
    if !Purchasable(list, k) then Err(NotAvailable)
    else
      var (ready, c) := GetOrCreate(s, userId, token);
      Ok(AddTo(ready, c, k, qty))
  }

  function AddTo(s: Shop, c: int, k: LineKey, qty: int): Shop {
    var (items, nextId) := AddOrIncrement(s.items, s.nextId, c, k, qty);
    Shop(s.carts, items, nextId)
  }

  function UpdateItem(s: Shop, userId: Option<int>, token: Option<int>, k: LineKey, qty: int): Result<Shop, CartError> {
    match DraftOf(s.carts, userId, token)
    case None => Err(ItemNotFound)
    case Some(c) =>
      if RowsFor(s.items, c, k) == {} then Err(ItemNotFound) else Ok(s.(items := SetQty(s.items, c, k, qty)))
  }

  function RemoveItem(s: Shop, userId: Option<int>, token: Option<int>, k: LineKey): Result<Shop, CartError> {
    match DraftOf(s.carts, userId, token)
    case None => Err(ItemNotFound)
    case Some(c) =>
      if RowsFor(s.items, c, k) == {} then Err(ItemNotFound) else Ok(s.(items := DeleteItem(s.items, c, k)))
  }

  function MergeGuest(s: Shop, userId: int, token: int): Shop {
    var (ready, c) := GetOrCreate(s, Some(userId), None);
    match DraftOf(ready.carts, None, Some(token))
    case None => ready
    case Some(guest) =>
      if guest == c then ready
      else Shop(ready.carts - {guest}, Merged(ready.items, c, RowsIn(ready.items, guest)), ready.nextId)
  }

  // ---------------------------------------------------------------- what every run keeps

  predicate SameOwner(a: Cart, b: Cart) {
    (a.userId.Some? && a.userId == b.userId) || (a.token.Some? && a.token == b.token)
  }

  ghost predicate OneDraft(carts: map<int, Cart>) {
    forall c, d {:trigger SameOwner(carts[c], carts[d])} ::
      c in carts && d in carts && carts[c].draft && carts[d].draft && SameOwner(carts[c], carts[d]) ==> c == d
  }

  ghost predicate LinesHaveCarts(s: Shop) {
    forall i :: i in s.items ==> s.items[i].cartId in s.carts
  }

  ghost predicate KeyFits(productOf: map<int, int>, k: LineKey) {
    k.variantId.Some? ==> k.variantId.value in productOf && productOf[k.variantId.value] == k.productId
  }

  /** Every line's variant is one of its product's. */
  ghost predicate LinesFit(items: Items, productOf: map<int, int>) {
    forall i :: i in items ==> KeyFits(productOf, items[i].key)
  }

  ghost predicate Sound(s: Shop, productOf: map<int, int>) {
    && OneDraft(s.carts) && LinesHaveCarts(s)
    && (forall c :: c in s.carts ==> c < s.nextId)
    && Unique(s.items) && IdsBelow(s.items, s.nextId) && LinesFit(s.items, productOf)
  }

  /** Uniqueness per product and variant is uniqueness under both partial indexes of the line table. */
  lemma BothIndexesHold(s: Shop, productOf: map<int, int>, i: int, j: int)
    requires Sound(s, productOf) && i in s.items && j in s.items && s.items[i].cartId == s.items[j].cartId
    requires s.items[i].key.variantId == s.items[j].key.variantId
    requires s.items[i].key.variantId.None? ==> s.items[i].key.productId == s.items[j].key.productId
    ensures i == j
  {
    assert KeyFits(productOf, s.items[i].key) && KeyFits(productOf, s.items[j].key);
    assert s.items[i].key == s.items[j].key;
  }

  lemma TheDraft(carts: map<int, Cart>, userId: Option<int>, token: Option<int>, c: int)
    requires OneDraft(carts) && c in carts && OwnedBy(carts[c], userId, token)
    ensures DraftOf(carts, userId, token) == Some(c)
  {
    assert c in DraftsOf(carts, userId, token);
    forall d | d in DraftsOf(carts, userId, token) ensures d == c {
      assert SameOwner(carts[c], carts[d]);
    }
  }

  lemma OpeningKeepsSound(s: Shop, productOf: map<int, int>, userId: Option<int>, token: Option<int>)
    requires Sound(s, productOf)
    ensures var (ready, c) := GetOrCreate(s, userId, token);
            && Sound(ready, productOf) && c in ready.carts && ready.items == s.items
            && s.carts.Keys <= ready.carts.Keys && (forall d :: d in s.carts ==> ready.carts[d] == s.carts[d])
            && (DraftOf(s.carts, userId, token) == None ==> RowsIn(s.items, c) == {} && c !in s.carts)
  {
    var (ready, c) := GetOrCreate(s, userId, token);
    if DraftOf(s.carts, userId, token) == None {
      forall d | d in s.carts && s.carts[d].draft
        ensures userId.Some? ==> s.carts[d].userId != userId
        ensures userId.None? && token.Some? ==> s.carts[d].token != token
      {
        assert d !in DraftsOf(s.carts, userId, token);
      }
      assert OneDraft(ready.carts);
      assert forall i :: i in s.items ==> s.items[i].cartId != s.nextId;
    }
  }

  datatype Action =
    | Add(list: PriceList, userId: Option<int>, token: Option<int>, k: LineKey, qty: int)
    | Update(userId: Option<int>, token: Option<int>, k: LineKey, qty: int)
    | Remove(userId: Option<int>, token: Option<int>, k: LineKey)
    | MergeInto(user: int, guest: int)

  function After(s: Shop, r: Result<Shop, CartError>): Shop {
    if r.Ok? then r.value else s
  }

  function Step(s: Shop, a: Action): Shop {
    match a
    case Add(list, userId, token, k, qty) => After(s, AddItem(s, list, userId, token, k, qty))
    case Update(userId, token, k, qty) => After(s, UpdateItem(s, userId, token, k, qty))
    case Remove(userId, token, k) => After(s, RemoveItem(s, userId, token, k))
    case MergeInto(user, guest) => MergeGuest(s, user, guest)
  }

  function Run(s: Shop, actions: seq<Action>): Shop
    decreases |actions|
  {
    if actions == [] then s else Run(Step(s, actions[0]), actions[1..])
  }

  /** Prices, stock and activity may change from action to action, a variant's product may not. */
  ghost predicate ListFits(list: PriceList, productOf: map<int, int>) {
    forall v :: v in list.variants ==> v in productOf && productOf[v] == list.variants[v].productId
  }

  ghost predicate ActionFits(a: Action, productOf: map<int, int>) {
    a.Add? ==> ListFits(a.list, productOf)
  }

  lemma PurchasableFits(list: PriceList, productOf: map<int, int>, k: LineKey)
    requires Purchasable(list, k) && ListFits(list, productOf)
    ensures KeyFits(productOf, k)
  {
    if k.variantId.Some? {
      var v := k.variantId.value;
      assert v in list.variants;
      assert list.variants[v].productId == k.productId;
      assert v in productOf;
    }
  }

  lemma AddKeepsSound(s: Shop, productOf: map<int, int>, a: Action)
    requires Sound(s, productOf) && a.Add? && ActionFits(a, productOf) && Purchasable(a.list, a.k)
    ensures Sound(Step(s, a), productOf)
  {
    OpeningKeepsSound(s, productOf, a.userId, a.token);
    var (ready, c) := GetOrCreate(s, a.userId, a.token);
    AddRaisesOneLine(ready.items, ready.nextId, c, a.k, a.qty, c);
    var items := AddOrIncrement(ready.items, ready.nextId, c, a.k, a.qty).0;
    PurchasableFits(a.list, productOf, a.k);
    forall i | i in items
      ensures KeyFits(productOf, items[i].key) && items[i].cartId in ready.carts
    {
      assert i in ready.items ==> items[i].key == ready.items[i].key && items[i].cartId == ready.items[i].cartId;
    }
  }

  lemma EditKeepsSound(s: Shop, productOf: map<int, int>, a: Action)
    requires Sound(s, productOf) && (a.Update? || a.Remove?)
    ensures Sound(Step(s, a), productOf)
  {
    var draft := DraftOf(s.carts, a.userId, a.token);
    if draft.Some? && RowsFor(s.items, draft.value, a.k) != {} {
      LineHasOneRow(s.items, draft.value, a.k);
      if a.Update? {
        SetChangesOneLine(s.items, draft.value, a.k, a.qty, draft.value);
      } else {
        DeleteDropsOneLine(s.items, draft.value, a.k, draft.value);
      }
    }
  }

  lemma MergeKeepsSound(s: Shop, productOf: map<int, int>, user: int, guest: int)
    requires Sound(s, productOf)
    ensures Sound(MergeGuest(s, user, guest), productOf)
  {
    OpeningKeepsSound(s, productOf, Some(user), None);
    var (ready, c) := GetOrCreate(s, Some(user), None);
    var g := DraftOf(ready.carts, None, Some(guest));
    if g.Some? && g.value != c {
      MergeConserves(ready.items, c, g.value);
      var merged := Merged(ready.items, c, RowsIn(ready.items, g.value));
      forall i | i in merged
        ensures merged[i].key == ready.items[i].key && merged[i].cartId in ready.carts - {g.value}
      {
        assert i !in RowsIn(merged, g.value);
      }
    }
  }

  /**
   At most one draft cart per owner and one line per product and variant, and no line without its
   cart, over every run.
   */
  lemma {:induction false} EveryRunKeepsCartsSound(s: Shop, productOf: map<int, int>, actions: seq<Action>)
    requires Sound(s, productOf) && forall a :: a in actions ==> ActionFits(a, productOf)
    ensures Sound(Run(s, actions), productOf)
    decreases |actions|
  {
    if actions != [] {
      var a := actions[0];
      assert ActionFits(a, productOf);
      if a.Add? {
        if Purchasable(a.list, a.k) { AddKeepsSound(s, productOf, a); }
      } else if a.MergeInto? {
        MergeKeepsSound(s, productOf, a.user, a.guest);
      } else {
        EditKeepsSound(s, productOf, a);
      }
      EveryRunKeepsCartsSound(Step(s, a), productOf, actions[1..]);
    }
  }

  // ---------------------------------------------------------------- what an owner sees

  /** The lines of an owner's draft cart; none without a cart. */
  ghost function LinesOf(s: Shop, userId: Option<int>, token: Option<int>): map<LineKey, int> {
    match DraftOf(s.carts, userId, token)
    case None => map[]
    case Some(c) => Lines(s.items, c)
  }

  lemma NoRowsNoLines(items: Items, c: int)
    requires RowsIn(items, c) == {}
    ensures Lines(items, c) == map[]
  {
    forall i | i in items ensures items[i].cartId != c {
      assert i !in RowsIn(items, c);
    }
    assert KeysIn(items, c) == {};
  }

  lemma OpenedCartIsTheDraft(s: Shop, productOf: map<int, int>, userId: Option<int>, token: Option<int>)
    requires Sound(s, productOf) && (userId.Some? || token.Some?)
    ensures var (ready, c) := GetOrCreate(s, userId, token);
            && DraftOf(ready.carts, userId, token) == Some(c)
            && Lines(ready.items, c) == LinesOf(s, userId, token)
  {
    OpeningKeepsSound(s, productOf, userId, token);
    var (ready, c) := GetOrCreate(s, userId, token);
    if DraftOf(s.carts, userId, token) == None {
      TheDraft(ready.carts, userId, token, c);
      NoRowsNoLines(s.items, c);
    }
  }

  lemma AddToAdds(s: Shop, userId: Option<int>, token: Option<int>, c: int, k: LineKey, qty: int)
    requires Unique(s.items) && IdsBelow(s.items, s.nextId) && DraftOf(s.carts, userId, token) == Some(c)
    ensures var before := Lines(s.items, c);
            LinesOf(AddTo(s, c, k, qty), userId, token) == before[k := QtyOf(before, k) + qty]
  {
    AddRaisesOneLine(s.items, s.nextId, c, k, qty, c);
  }

  lemma AddOpensTheCart(
    s: Shop, productOf: map<int, int>, userId: Option<int>, token: Option<int>, k: LineKey, qty: int)
    requires Sound(s, productOf) && (userId.Some? || token.Some?)
    ensures var (ready, c) := GetOrCreate(s, userId, token);
            LinesOf(AddTo(ready, c, k, qty), userId, token) ==
            LinesOf(s, userId, token)[k := QtyOf(LinesOf(s, userId, token), k) + qty]
  {
    OpeningKeepsSound(s, productOf, userId, token);
    OpenedCartIsTheDraft(s, productOf, userId, token);
    var (ready, c) := GetOrCreate(s, userId, token);
    AddToAdds(ready, userId, token, c, k, qty);
  }

  /** Adding puts exactly that many more of that product into exactly that owner's cart. */
  lemma AddItemAdds(
    s: Shop, productOf: map<int, int>, list: PriceList, userId: Option<int>, token: Option<int>, k: LineKey, qty: int)
    requires Sound(s, productOf) && (userId.Some? || token.Some?) && Purchasable(list, k)
    ensures AddItem(s, list, userId, token, k, qty).Ok?
    ensures var before, after := LinesOf(s, userId, token), AddItem(s, list, userId, token, k, qty).value;
            LinesOf(after, userId, token) == before[k := QtyOf(before, k) + qty]
  {
    AddOpensTheCart(s, productOf, userId, token, k, qty);
    assert AddItem(s, list, userId, token, k, qty).value ==
      AddTo(GetOrCreate(s, userId, token).0, GetOrCreate(s, userId, token).1, k, qty);
  }

  /** No other cart is touched by it. */
  lemma AddItemLeavesOthers(
    s: Shop, productOf: map<int, int>, list: PriceList, userId: Option<int>, token: Option<int>, k: LineKey, qty: int,
    d: int)
    requires Sound(s, productOf) && Purchasable(list, k) && d in s.carts && Some(d) != DraftOf(s.carts, userId, token)
    ensures var after := AddItem(s, list, userId, token, k, qty).value;
            d in after.carts && after.carts[d] == s.carts[d] && Lines(after.items, d) == Lines(s.items, d)
  {
    OpeningKeepsSound(s, productOf, userId, token);
    var (ready, c) := GetOrCreate(s, userId, token);
    AddRaisesOneLine(ready.items, ready.nextId, c, k, qty, d);
  }

  /** Setting and removing act on a line the owner has, and are refused for any other. */
  lemma EditsActOnOwnLines(
    s: Shop, productOf: map<int, int>, userId: Option<int>, token: Option<int>, k: LineKey, qty: int)
    requires Sound(s, productOf)
    ensures UpdateItem(s, userId, token, k, qty).Ok? <==> k in LinesOf(s, userId, token)
    ensures RemoveItem(s, userId, token, k).Ok? <==> k in LinesOf(s, userId, token)
    ensures k in LinesOf(s, userId, token) ==>
              && LinesOf(UpdateItem(s, userId, token, k, qty).value, userId, token) ==
                   LinesOf(s, userId, token)[k := qty]
              && LinesOf(RemoveItem(s, userId, token, k).value, userId, token) == LinesOf(s, userId, token) - {k}
  {
    var draft := DraftOf(s.carts, userId, token);
    if draft.Some? {
      LineHasOneRow(s.items, draft.value, k);
      if k in Lines(s.items, draft.value) {
        SetChangesOneLine(s.items, draft.value, k, qty, draft.value);
        DeleteDropsOneLine(s.items, draft.value, k, draft.value);
      }
    }
  }

  lemma EditTouchesOneCart(s: Shop, a: Action, c: int, d: int)
    requires Unique(s.items) && (a.Update? || a.Remove?) && DraftOf(s.carts, a.userId, a.token) == Some(c) && c != d
    ensures Step(s, a).carts == s.carts && Lines(Step(s, a).items, d) == Lines(s.items, d)
  {
    LineHasOneRow(s.items, c, a.k);
    if a.k in Lines(s.items, c) {
      if a.Update? {
        SetChangesOneLine(s.items, c, a.k, a.qty, d);
      } else {
        DeleteDropsOneLine(s.items, c, a.k, d);
      }
    }
  }

  // ---------------------------------------------------------------- the merge

  /** The cart a merge empties: the guest's, unless it is the user's own. */
  function GuestCart(s: Shop, user: int, guest: int): Option<int> {
    var (ready, c) := GetOrCreate(s, Some(user), None);
    var g := DraftOf(ready.carts, None, Some(guest));
    if g == Some(c) then None else g
  }

  lemma GuestSeenBeforeOpening(s: Shop, productOf: map<int, int>, user: int, guest: int)
    requires Sound(s, productOf)
    ensures DraftOf(GetOrCreate(s, Some(user), None).0.carts, None, Some(guest)) == DraftOf(s.carts, None, Some(guest))
  {
    OpeningKeepsSound(s, productOf, Some(user), None);
    var (ready, c) := GetOrCreate(s, Some(user), None);
    assert DraftsOf(ready.carts, None, Some(guest)) == DraftsOf(s.carts, None, Some(guest));
  }

  /** Nothing is lost or duplicated: afterwards the user has both carts' quantities, the guest no cart and no line. */
  lemma MergeGuestConserves(s: Shop, productOf: map<int, int>, user: int, guest: int)
    requires Sound(s, productOf) && GuestCart(s, user, guest).Some?
    ensures var g, after := GuestCart(s, user, guest).value, MergeGuest(s, user, guest);
            && DraftOf(s.carts, None, Some(guest)) == Some(g)
            && LinesOf(after, Some(user), None) == Combine(LinesOf(s, Some(user), None), LinesOf(s, None, Some(guest)))
            && g !in after.carts && RowsIn(after.items, g) == {}
            && DraftOf(after.carts, None, Some(guest)) == None
  {
    GuestSeenBeforeOpening(s, productOf, user, guest);
    OpeningKeepsSound(s, productOf, Some(user), None);
    OpenedCartIsTheDraft(s, productOf, Some(user), None);
    var (ready, c) := GetOrCreate(s, Some(user), None);
    var g, after := GuestCart(s, user, guest).value, MergeGuest(s, user, guest);
    MergeConserves(ready.items, c, g);
    MergeKeepsSound(s, productOf, user, guest);
    assert c in DraftsOf(ready.carts, Some(user), None);
    TheDraft(after.carts, Some(user), None, c);
    forall d | d in after.carts
      ensures d !in DraftsOf(after.carts, None, Some(guest))
    {
      assert g in DraftsOf(ready.carts, None, Some(guest));
      assert d in DraftsOf(after.carts, None, Some(guest)) ==> SameOwner(ready.carts[g], ready.carts[d]);
    }
  }

  /** Without a guest cart the merge changes nobody's lines. */
  lemma MergeWithoutGuest(s: Shop, productOf: map<int, int>, user: int, guest: int)
    requires Sound(s, productOf) && GuestCart(s, user, guest).None?
    ensures LinesOf(MergeGuest(s, user, guest), Some(user), None) == LinesOf(s, Some(user), None)
    ensures MergeGuest(s, user, guest).items == s.items
  {
    OpeningKeepsSound(s, productOf, Some(user), None);
    OpenedCartIsTheDraft(s, productOf, Some(user), None);
  }

  /** Every other cart is left as it was. */
  lemma MergeGuestLeavesOthers(s: Shop, productOf: map<int, int>, user: int, guest: int, d: int)
    requires Sound(s, productOf) && d in s.carts
    requires Some(d) != DraftOf(s.carts, Some(user), None) && Some(d) != GuestCart(s, user, guest)
    ensures d in MergeGuest(s, user, guest).carts && MergeGuest(s, user, guest).carts[d] == s.carts[d]
    ensures Lines(MergeGuest(s, user, guest).items, d) == Lines(s.items, d)
  {
    OpeningKeepsSound(s, productOf, Some(user), None);
    var (ready, c) := GetOrCreate(s, Some(user), None);
    var g := GuestCart(s, user, guest);
    if g.Some? {
      MergeLeavesOthers(ready.items, c, g.value, d);
    }
  }

  /** A duplicate merge finds the user's cart, no guest cart, and changes nothing. */
  lemma MergeIsIdempotent(s: Shop, productOf: map<int, int>, user: int, guest: int)
    requires Sound(s, productOf)
    ensures MergeGuest(MergeGuest(s, user, guest), user, guest) == MergeGuest(s, user, guest)
  {
    OpenedCartIsTheDraft(s, productOf, Some(user), None);
    var (ready, c) := GetOrCreate(s, Some(user), None);
    var after := MergeGuest(s, user, guest);
    if GuestCart(s, user, guest).Some? {
      MergeGuestConserves(s, productOf, user, guest);
      MergeKeepsSound(s, productOf, user, guest);
      assert c in DraftsOf(ready.carts, Some(user), None);
      TheDraft(after.carts, Some(user), None, c);
    }
  }

  // ---------------------------------------------------------------- money

  /** The price a line is shown at; none when it is not shown at all. */
  function UnitPrice(list: PriceList, k: LineKey): Option<int> {
    if k.productId !in list.products || !list.products[k.productId].isActive then None
    else if k.variantId.None? then Some(list.products[k.productId].price)
    else if k.variantId.value !in list.variants || !list.variants[k.variantId.value].isActive then None
    else Some(list.variants[k.variantId.value].price)
  }

  datatype Measure = Money | Units

  /** What one unit of a line adds to the cart's subtotal or item count. */
  ghost function Weight(list: PriceList, measure: Measure): LineKey -> int {
    k => if UnitPrice(list, k).None? then 0 else if measure.Money? then UnitPrice(list, k).value else 1
  }

  /** The merged cart's subtotal and item count are the sums of the two carts' own. */
  lemma MergedTotals(s: Shop, productOf: map<int, int>, list: PriceList, user: int, guest: int, measure: Measure)
    requires Sound(s, productOf)
    ensures var w := Weight(list, measure);
            Total(LinesOf(MergeGuest(s, user, guest), Some(user), None), w) ==
            Total(LinesOf(s, Some(user), None), w)
            + if GuestCart(s, user, guest).Some? then Total(LinesOf(s, None, Some(guest)), w) else 0
  {
    if GuestCart(s, user, guest).Some? {
      MergeGuestConserves(s, productOf, user, guest);
      TotalsAdd(LinesOf(s, Some(user), None), LinesOf(s, None, Some(guest)), Weight(list, measure));
    } else {
      MergeWithoutGuest(s, productOf, user, guest);
    }
  }
}
