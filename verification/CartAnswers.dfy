/** What the cart's answers mean, said of the stored lines, the carts and the price list alone. */
module CartAnswers {
  import opened Outcomes
  import opened Aggregates
  import opened Products
  import opened Carts
  import opened CartOps
  import opened CartService

  // ---------------------------------------------------------------- a rendered cart

  /** The product is there and active, and so is the variant if the line has one. */
  predicate OnSale(list: PriceList, k: LineKey) {
    && k.productId in list.products && list.products[k.productId].isActive
    && (k.variantId.Some? ==> k.variantId.value in list.variants && list.variants[k.variantId.value].isActive)
  }

  /** A shown line has its stored quantity, the live price of its variant or product, and the total of the two. */
  lemma ShownLine(out: CartOut, lines: map<LineKey, int>, list: PriceList, o: LineOut)
    requires Renders(out, lines, list) && o in out.items
    ensures o.key in lines && o.qty == lines[o.key] && o.lineTotal == o.price * o.qty
    ensures o.key.productId in list.products && list.products[o.key.productId].isActive
    ensures o.key.variantId.None? ==> o.price == list.products[o.key.productId].price
    ensures o.key.variantId.Some? ==>
              && o.key.variantId.value in list.variants && list.variants[o.key.variantId.value].isActive
              && o.price == list.variants[o.key.variantId.value].price
  {
    assert UnitPrice(list, o.key) == Some(o.price);
  }

  /**
   A stored line is shown if and only if it is still on sale, and then once; the totals are those of
   the shown lines.
   */
  lemma ShownIff(out: CartOut, lines: map<LineKey, int>, list: PriceList, k: LineKey)
    requires Renders(out, lines, list) && k in lines
    ensures (exists n :: 0 <= n < |out.items| && out.items[n].key == k) <==> OnSale(list, k)
    ensures forall m, n :: 0 <= m < n < |out.items| ==> out.items[m].key != out.items[n].key
    ensures out.subtotal == LineTotals(out.items) && out.itemCount == Quantities(out.items)
  {
    assert UnitPrice(list, k).Some? <==> OnSale(list, k);
    if n :| 0 <= n < |out.items| && out.items[n].key == k {
      assert out.items[n] in out.items;
    }
    assert OnSale(list, k) ==> Shows(out.items, k);
  }

  /** The merged cart's answer adds up the answers the two carts would have got. */
  lemma MergedAnswer(
    s: Shop, productOf: map<int, int>, list: PriceList, user: int, guest: int,
    mine: CartOut, theirs: CartOut, merged: CartOut)
    requires Sound(s, productOf) && GuestCart(s, user, guest).Some?
    requires Renders(mine, LinesOf(s, Some(user), None), list) && Renders(theirs, LinesOf(s, None, Some(guest)), list)
    requires Renders(merged, LinesOf(MergeGuest(s, user, guest), Some(user), None), list)
    ensures LineTotals(merged.items) == LineTotals(mine.items) + LineTotals(theirs.items)
    ensures Quantities(merged.items) == Quantities(mine.items) + Quantities(theirs.items)
    ensures merged.subtotal == mine.subtotal + theirs.subtotal && merged.itemCount == mine.itemCount + theirs.itemCount
  {
    MergedTotals(s, productOf, list, user, guest, Money);
    MergedTotals(s, productOf, list, user, guest, Units);
  }

  // ---------------------------------------------------------------- what may be added, and where it goes

  /**
   Adding is refused for exactly these: a product that is missing or inactive, a variant required and
   missing, inactive or another product's, a variant given and forbidden.
   */
  lemma AddRefusedIff(s: Shop, list: PriceList, userId: Option<int>, token: Option<int>, k: LineKey, qty: int)
    ensures AddItem(s, list, userId, token, k, qty) == Err(NotAvailable) <==>
              || k.productId !in list.products
              || !list.products[k.productId].isActive
              || (list.products[k.productId].hasVariants && k.variantId.None?)
              || (list.products[k.productId].hasVariants && k.variantId.Some? &&
                    (k.variantId.value !in list.variants
                     || list.variants[k.variantId.value].productId != k.productId
                     || !list.variants[k.variantId.value].isActive))
              || (!list.products[k.productId].hasVariants && k.variantId.Some?)
  {
  }

  /** What was added is shown at once. */
  lemma AddedIsOnSale(s: Shop, list: PriceList, userId: Option<int>, token: Option<int>, k: LineKey, qty: int)
    requires AddItem(s, list, userId, token, k, qty).Ok?
    ensures OnSale(list, k)
  {
  }

  /**
   The cart found is a draft of that user, or of that session when there is no user; none is found
   only if there is none.
   */
  lemma FoundCart(carts: map<int, Cart>, userId: Option<int>, token: Option<int>)
    ensures match DraftOf(carts, userId, token)
            case Some(c) =>
              && c in carts && carts[c].draft
              && (if userId.Some? then carts[c].userId == userId else token.Some? && carts[c].token == token)
            case None =>
              forall c :: c in carts && carts[c].draft ==>
                && (userId.Some? ==> carts[c].userId != userId)
                && (userId.None? && token.Some? ==> carts[c].token != token)
  {
    var drafts := DraftsOf(carts, userId, token);
    forall c | c in carts && OwnedBy(carts[c], userId, token) ensures c in drafts {}
  }

  /** A cart opened for an owner is a draft of exactly that owner, and the only new one. */
  lemma OpenedCart(s: Shop, userId: Option<int>, token: Option<int>)
    requires DraftOf(s.carts, userId, token).None?
    ensures var (ready, c) := GetOrCreate(s, userId, token);
            && c == s.nextId && ready.nextId == s.nextId + 1 && ready.items == s.items
            && ready.carts.Keys == s.carts.Keys + {c}
            && ready.carts[c] == Cart(userId, if userId.Some? then None else token, true)
            && forall d :: d in s.carts && d != c ==> ready.carts[d] == s.carts[d]
  {
  }
}
