/**
 The cart service on its tables: every method is proved against its step, and every answer against
 the stored lines.
 */
module CartService {
  import opened Outcomes
  import opened Rows
  import opened Aggregates
  import opened Carts
  import opened CartOps

  datatype LineOut = LineOut(key: LineKey, price: int, qty: int, lineTotal: int)

  datatype CartOut = CartOut(items: seq<LineOut>, subtotal: int, itemCount: int)

  ghost predicate ByProduct(items: Items, rows: seq<int>) {
    && (forall i :: i in rows ==> i in items)
    && forall i, j :: 0 <= i < j < |rows| ==> items[rows[i]].key.productId <= items[rows[j]].key.productId
  }

  lemma AnotherInOrder(items: Items, rows: seq<int>, i: int)
    requires ByProduct(items, rows) && i in items
    requires forall j :: j in rows ==> items[j].key.productId <= items[i].key.productId
    ensures ByProduct(items, rows + [i])
  {
    forall m | 0 <= m < |rows|
      ensures rows[m] in items && items[rows[m]].key.productId <= items[i].key.productId
    {
      var j := rows[m];
      assert j in rows;
    }
  }

  ghost predicate ShowsPriced(items: seq<LineOut>, lines: map<LineKey, int>, list: PriceList) {
    forall o :: o in items ==>
      && o.key in lines && o.qty == lines[o.key]
      && UnitPrice(list, o.key) == Some(o.price) && o.lineTotal == o.price * o.qty
  }

  ghost predicate Shows(items: seq<LineOut>, k: LineKey) {
    exists n :: 0 <= n < |items| && items[n].key == k
  }

  ghost predicate ShowsAll(items: seq<LineOut>, lines: map<LineKey, int>, list: PriceList) {
    forall k {:trigger UnitPrice(list, k)} :: k in lines && UnitPrice(list, k).Some? ==> Shows(items, k)
  }

  ghost predicate InProductOrder(items: seq<LineOut>) {
    forall i, j :: 0 <= i < j < |items| ==>
      items[i].key != items[j].key && items[i].key.productId <= items[j].key.productId
  }

  /** The shown line totals, and the shown quantities, added up. */
  function LineTotals(items: seq<LineOut>): int {
    if items == [] then 0 else LineTotals(items[..|items| - 1]) + items[|items| - 1].lineTotal
  }

  function Quantities(items: seq<LineOut>): int {
    if items == [] then 0 else Quantities(items[..|items| - 1]) + items[|items| - 1].qty
  }

  /** An answer shows the lines that still have a price, each once and in product order, and their totals. */
  ghost predicate Renders(out: CartOut, lines: map<LineKey, int>, list: PriceList) {
    && ShowsPriced(out.items, lines, list)
    && ShowsAll(out.items, lines, list)
    && InProductOrder(out.items)
    && out.subtotal == Total(lines, Weight(list, Money))
    && out.itemCount == Total(lines, Weight(list, Units))
    && out.subtotal == LineTotals(out.items) && out.itemCount == Quantities(out.items)
  }

  lemma AnotherLine(lines: map<LineKey, int>, k: LineKey, qty: int, weight: LineKey -> int)
    requires k !in lines
    ensures Total(lines[k := qty], weight) == Total(lines, weight) + qty * weight(k)
  {
    TotalSplitsOff(lines[k := qty], weight, k);
    assert lines[k := qty] - {k} == lines;
  }

  /** The answer after one more line, which is left out when it has no price. */
  function WithLine(out: CartOut, list: PriceList, k: LineKey, qty: int): CartOut {
    match UnitPrice(list, k)
    case None => out
    case Some(price) =>
      CartOut(out.items + [LineOut(k, price, qty, price * qty)], out.subtotal + price * qty, out.itemCount + qty)
  }

  ghost predicate UpTo(items: seq<LineOut>, productId: int) {
    forall o :: o in items ==> o.key.productId <= productId
  }

  lemma PricedStep(items: seq<LineOut>, lines: map<LineKey, int>, list: PriceList, o: LineOut)
    requires ShowsPriced(items, lines, list) && InProductOrder(items) && o.key !in lines && UpTo(items, o.key.productId)
    requires UnitPrice(list, o.key) == Some(o.price) && o.lineTotal == o.price * o.qty
    ensures ShowsPriced(items + [o], lines[o.key := o.qty], list) && InProductOrder(items + [o])
  {
    forall i | 0 <= i < |items|
      ensures items[i].key != o.key && items[i].key.productId <= o.key.productId
    {
      assert items[i] in items;
    }
  }

  lemma ShownStep(items: seq<LineOut>, o: LineOut, k: LineKey)
    requires Shows(items, k) || k == o.key
    ensures Shows(items + [o], k)
  {
    if k == o.key {
      assert (items + [o])[|items|].key == k;
    } else {
      var n :| 0 <= n < |items| && items[n].key == k;
      assert (items + [o])[n].key == k;
    }
  }

  lemma MeasureStep(lines: map<LineKey, int>, list: PriceList, k: LineKey, qty: int, measure: Measure)
    requires k !in lines
    ensures Total(lines[k := qty], Weight(list, measure)) ==
            Total(lines, Weight(list, measure))
            + if UnitPrice(list, k).None? then 0 else if measure.Money? then UnitPrice(list, k).value * qty else qty
  {
    AnotherLine(lines, k, qty, Weight(list, measure));
  }

  /** The rows gone through so far. */
  ghost function RowsSeen(items: Items, rows: seq<int>): Items {
    map j | j in rows && j in items :: items[j]
  }

  /** One more row of the cart: its line is new. */
  lemma SeeOneMore(items: Items, c: int, rows: seq<int>, n: nat)
    requires Unique(items) && Lists(rows, RowsIn(items, c)) && n < |rows| && rows[n] in items
    ensures var line, before := items[rows[n]], Lines(RowsSeen(items, rows[..n]), c);
            && line.key !in before
            && Lines(RowsSeen(items, rows[..n + 1]), c) == before[line.key := line.qty]
  {
    var i, seen := rows[n], RowsSeen(items, rows[..n]);
    assert i in rows;
    assert i in RowsIn(items, c);
    assert i !in seen;
    LineHasOneRow(seen, c, items[i].key);
    InsertLine(seen, i, items[i], c);
    assert rows[..n + 1] == rows[..n] + [i];
    assert RowsSeen(items, rows[..n + 1]) == seen[i := items[i]];
  }

  /** The answer after the first rows. */
  ghost function Rendered(items: Items, rows: seq<int>, n: nat, list: PriceList): CartOut
    requires n <= |rows| && forall m :: 0 <= m < |rows| ==> rows[m] in items
  {
    if n == 0 then CartOut([], 0, 0)
    else
      var line := items[rows[n - 1]];
      WithLine(Rendered(items, rows, n - 1, list), list, line.key, line.qty)
  }

  lemma RowsExist(items: Items, c: int, rows: seq<int>)
    requires Lists(rows, RowsIn(items, c))
    ensures forall m :: 0 <= m < |rows| ==> rows[m] in items && items[rows[m]].cartId == c
  {
    forall m | 0 <= m < |rows| ensures rows[m] in items && items[rows[m]].cartId == c {
      var i := rows[m];
      assert i in rows;
      assert i in RowsIn(items, c);
    }
  }

  lemma {:induction false} RenderedInOrder(items: Items, rows: seq<int>, n: nat, m: nat, list: PriceList)
    requires (forall m :: 0 <= m < |rows| ==> rows[m] in items) && ByProduct(items, rows) && n <= m < |rows|
    ensures UpTo(Rendered(items, rows, n, list).items, items[rows[m]].key.productId)
  {
    if n > 0 {
      RenderedInOrder(items, rows, n - 1, m, list);
    }
  }

  ghost function RowLines(items: Items, rows: seq<int>, n: nat): map<LineKey, int>
    requires n <= |rows| && forall m :: 0 <= m < |rows| ==> rows[m] in items
  {
    if n == 0 then map[]
    else
      var line := items[rows[n - 1]];
      RowLines(items, rows, n - 1)[line.key := line.qty]
  }

  lemma NothingSeen(items: Items, c: int, rows: seq<int>)
    ensures RowsSeen(items, rows[..0]) == map[] && Lines(RowsSeen(items, rows[..0]), c) == map[]
  {
    assert RowsSeen(items, rows[..0]) == map[];
    assert KeysIn(map[], c) == {};
  }

  lemma {:induction false} RowLinesAreLines(items: Items, c: int, rows: seq<int>, n: nat)
    requires Unique(items) && Lists(rows, RowsIn(items, c)) && n <= |rows|
    requires forall m :: 0 <= m < |rows| ==> rows[m] in items
    ensures RowLines(items, rows, n) == Lines(RowsSeen(items, rows[..n]), c)
  {
    if n == 0 {
      NothingSeen(items, c, rows);
    } else {
      RowLinesAreLines(items, c, rows, n - 1);
      SeeOneMore(items, c, rows, n - 1);
    }
  }

  ghost predicate NewLines(items: Items, rows: seq<int>) {
    && (forall m :: 0 <= m < |rows| ==> rows[m] in items)
    && forall m {:trigger RowLines(items, rows, m)} :: 0 <= m < |rows| ==>
         items[rows[m]].key !in RowLines(items, rows, m)
  }

  lemma {:induction false} RenderedPriced(items: Items, rows: seq<int>, n: nat, list: PriceList)
    requires n <= |rows| && NewLines(items, rows) && ByProduct(items, rows)
    ensures ShowsPriced(Rendered(items, rows, n, list).items, RowLines(items, rows, n), list)
    ensures InProductOrder(Rendered(items, rows, n, list).items)
  {
    if n > 0 {
      RenderedPriced(items, rows, n - 1, list);
      RenderedInOrder(items, rows, n - 1, n - 1, list);
      var line := items[rows[n - 1]];
      match UnitPrice(list, line.key)
      case None =>
      case Some(price) =>
        PricedStep(Rendered(items, rows, n - 1, list).items, RowLines(items, rows, n - 1), list,
                   LineOut(line.key, price, line.qty, price * line.qty));
    }
  }

  lemma {:induction false} RenderedShows(items: Items, rows: seq<int>, n: nat, list: PriceList, k: LineKey)
    requires n <= |rows| && NewLines(items, rows)
    requires k in RowLines(items, rows, n) && UnitPrice(list, k).Some?
    ensures Shows(Rendered(items, rows, n, list).items, k)
  {
    var line, shown := items[rows[n - 1]], Rendered(items, rows, n - 1, list).items;
    if k != line.key {
      RenderedShows(items, rows, n - 1, list, k);
    }
    match UnitPrice(list, line.key)
    case None =>
    case Some(price) => ShownStep(shown, LineOut(line.key, price, line.qty, price * line.qty), k);
  }

  lemma {:induction false} RenderedTotals(items: Items, rows: seq<int>, n: nat, list: PriceList)
    requires n <= |rows| && NewLines(items, rows)
    ensures Rendered(items, rows, n, list).subtotal == Total(RowLines(items, rows, n), Weight(list, Money))
    ensures Rendered(items, rows, n, list).itemCount == Total(RowLines(items, rows, n), Weight(list, Units))
  {
    if n > 0 {
      RenderedTotals(items, rows, n - 1, list);
      var line := items[rows[n - 1]];
      MeasureStep(RowLines(items, rows, n - 1), list, line.key, line.qty, Money);
      MeasureStep(RowLines(items, rows, n - 1), list, line.key, line.qty, Units);
    }
  }

  lemma {:induction false} RenderedAddsUp(items: Items, rows: seq<int>, n: nat, list: PriceList)
    requires n <= |rows| && forall m :: 0 <= m < |rows| ==> rows[m] in items
    ensures var out := Rendered(items, rows, n, list);
            out.subtotal == LineTotals(out.items) && out.itemCount == Quantities(out.items)
  {
    if n > 0 {
      RenderedAddsUp(items, rows, n - 1, list);
      var before, line := Rendered(items, rows, n - 1, list), items[rows[n - 1]];
      match UnitPrice(list, line.key)
      case None =>
      case Some(price) =>
        var o := LineOut(line.key, price, line.qty, price * line.qty);
        assert (before.items + [o])[..|before.items|] == before.items;
    }
  }

  lemma RenderedShowsCart(items: Items, c: int, rows: seq<int>, list: PriceList)
    requires Unique(items) && Lists(rows, RowsIn(items, c)) && ByProduct(items, rows)
    requires forall m :: 0 <= m < |rows| ==> rows[m] in items
    ensures Renders(Rendered(items, rows, |rows|, list), Lines(items, c), list)
  {
    forall m | 0 <= m < |rows|
      ensures items[rows[m]].key !in RowLines(items, rows, m)
    {
      RowLinesAreLines(items, c, rows, m);
      SeeOneMore(items, c, rows, m);
    }
    RenderedPriced(items, rows, |rows|, list);
    RenderedTotals(items, rows, |rows|, list);
    RenderedAddsUp(items, rows, |rows|, list);
    forall k | k in RowLines(items, rows, |rows|) && UnitPrice(list, k).Some?
      ensures Shows(Rendered(items, rows, |rows|, list).items, k)
    {
      RenderedShows(items, rows, |rows|, list, k);
    }
    RowLinesAreLines(items, c, rows, |rows|);
    assert rows[..|rows|] == rows;
    LinesOfSeen(items, RowsSeen(items, rows), c);
  }

  class CartDesk {
    const list: PriceList
    var db: Shop

    method GetCart(userId: Option<int>, token: Option<int>) returns (c: Option<int>)
      ensures c == DraftOf(db.carts, userId, token)
    {
      if userId.None? && token.None? {
        forall c | c in db.carts ensures !OwnedBy(db.carts[c], userId, token) {}
        assert DraftsOf(db.carts, userId, token) == {};
        return None;
      }
      var drafts := DraftsOf(db.carts, userId, token);
      c := if drafts == {} then None else Some(Least(drafts));
    }

    method GetOrCreateCart(userId: Option<int>, token: Option<int>) returns (c: int)
      modifies this
      ensures (db, c) == GetOrCreate(old(db), userId, token)
    {
      var found := GetCart(userId, token);
      if found.Some? { return found.value; }
      c := db.nextId;
      db := db.(carts := db.carts[c := Cart(userId, if userId.Some? then None else token, true)], nextId := c + 1);
    }

    method GetItem(c: int, k: LineKey) returns (item: Option<int>)
      requires Unique(db.items)
      ensures RowsFor(db.items, c, k) == if item.Some? then {item.value} else {}
    {
      LineHasOneRow(db.items, c, k);
      var rows := RowsFor(db.items, c, k);
      item := if rows == {} then None else Some(Least(rows));
    }

    method AddOrIncrementItem(c: int, k: LineKey, qty: int)
      requires Unique(db.items)
      modifies this
      ensures db.carts == old(db).carts
      ensures (db.items, db.nextId) == AddOrIncrement(old(db).items, old(db).nextId, c, k, qty)
    {
      var existing := GetItem(c, k);
      if existing.Some? {
        var i := existing.value;
        assert i in RowsFor(db.items, c, k);
        ghost var raised := AddOrIncrement(db.items, db.nextId, c, k, qty).0;
        db := db.(items := db.items[i := db.items[i].(qty := db.items[i].qty + qty)]);
        assert db.items == raised;
      } else {
        db := db.(items := db.items[db.nextId := CartItem(c, k, qty)], nextId := db.nextId + 1);
      }
    }

    method SetItemQty(c: int, k: LineKey, qty: int) returns (found: bool)
      requires Unique(db.items)
      modifies this
      ensures found == (RowsFor(old(db).items, c, k) != {})
      ensures db == if found then old(db).(items := SetQty(old(db).items, c, k, qty)) else old(db)
    {
      var item := GetItem(c, k);
      if item.None? { return false; }
      var i := item.value;
      assert i in RowsFor(db.items, c, k);
      db := db.(items := db.items[i := db.items[i].(qty := qty)]);
      found := true;
    }

    method DeleteOneItem(c: int, k: LineKey) returns (removed: bool)
      modifies this
      ensures removed == (RowsFor(old(db).items, c, k) != {})
      ensures db == old(db).(items := DeleteItem(old(db).items, c, k))
    {
      removed := RowsFor(db.items, c, k) != {};
      db := db.(items := DeleteItem(db.items, c, k));
    }

    /** Rows in the order the query asks for. */
    method RowsByProduct(c: int) returns (rows: seq<int>)
      ensures Lists(rows, RowsIn(db.items, c)) && ByProduct(db.items, rows)
    {
      rows := [];
      var rest := RowsIn(db.items, c);
      while rest != {}
        invariant rest <= RowsIn(db.items, c)
        invariant Lists(rows, RowsIn(db.items, c) - rest)
        invariant ByProduct(db.items, rows)
        invariant forall i, j :: i in rows && j in rest ==> db.items[i].key.productId <= db.items[j].key.productId
        decreases rest
      {
        var products := set i | i in rest :: db.items[i].key.productId;
        ghost var some := AnyOf(rest);
        assert some in RowsIn(db.items, c);
        assert db.items[some].key.productId in products;
        var p := Least(products);
        var same := set i | i in rest && db.items[i].key.productId == p;
        assert exists i :: i in same by {
          var i :| i in rest && db.items[i].key.productId == p;
          assert i in same;
        }
        var i := Least(same);
        assert forall j :: j in rest ==> db.items[j].key.productId in products;
        AnotherInOrder(db.items, rows, i);
        rows := rows + [i];
        rest := rest - {i};
      }
    }

    method Render(c: int) returns (out: CartOut)
      requires Unique(db.items)
      ensures Renders(out, Lines(db.items, c), list)
    {
      var rows := RowsByProduct(c);
      RowsExist(db.items, c, rows);
      var items, subtotal, itemCount, n := [], 0, 0, 0;
      while n < |rows|
        invariant 0 <= n <= |rows|
        invariant CartOut(items, subtotal, itemCount) == Rendered(db.items, rows, n, list)
      {
        var line := db.items[rows[n]];
        var unitPrice := UnitPrice(list, line.key);
        if unitPrice.Some? {
          subtotal := subtotal + unitPrice.value * line.qty;
          itemCount := itemCount + line.qty;
          items := items + [LineOut(line.key, unitPrice.value, line.qty, unitPrice.value * line.qty)];
        }
        n := n + 1;
      }
      out := CartOut(items, subtotal, itemCount);
      RenderedShowsCart(db.items, c, rows, list);
    }

    method ResolvePurchasable(k: LineKey) returns (ok: bool)
      ensures ok == Purchasable(list, k)
    {
      if k.productId !in list.products || !list.products[k.productId].isActive { return false; }
      if list.products[k.productId].hasVariants {
        if k.variantId.None? || k.variantId.value !in list.variants { return false; }
        var variant := list.variants[k.variantId.value];
        return variant.productId == k.productId && variant.isActive;
      }
      ok := k.variantId.None?;
    }

    method AddItem(
      userId: Option<int>, token: Option<int>, k: LineKey, qty: int) returns (r: Result<CartOut, CartError>)
      requires Sound(db, ProductsOf(list))
      modifies this
      ensures Sound(db, ProductsOf(list))
      ensures match CartOps.AddItem(old(db), list, userId, token, k, qty)
              case Err(e) => r == Err(e) && db == old(db)
              case Ok(s) =>
                && db == s && r.Ok?
                && Renders(r.value, Lines(s.items, GetOrCreate(old(db), userId, token).1), list)
    {
      ghost var before := db;
      var ok := ResolvePurchasable(k);
      if !ok { return Err(NotAvailable); }
      OpeningKeepsSound(db, ProductsOf(list), userId, token);
      AddKeepsSound(db, ProductsOf(list), Add(list, userId, token, k, qty));
      var c := GetOrCreateCart(userId, token);
      AddOrIncrementItem(c, k, qty);
      assert CartOps.AddItem(before, list, userId, token, k, qty) == Ok(db);
      var out := Render(c);
      r := Ok(out);
    }

    method UpdateItem(
      userId: Option<int>, token: Option<int>, k: LineKey, qty: int) returns (r: Result<CartOut, CartError>)
      requires Sound(db, ProductsOf(list))
      modifies this
      ensures Sound(db, ProductsOf(list))
      ensures match CartOps.UpdateItem(old(db), userId, token, k, qty)
              case Err(e) => r == Err(e) && db == old(db)
              case Ok(s) => db == s && r.Ok? && Renders(r.value, LinesOf(s, userId, token), list)
    {
      EditKeepsSound(db, ProductsOf(list), Update(userId, token, k, qty));
      var c := GetCart(userId, token);
      if c.None? { return Err(ItemNotFound); }
      var found := SetItemQty(c.value, k, qty);
      if !found { return Err(ItemNotFound); }
      var out := Render(c.value);
      r := Ok(out);
    }

    method RemoveItem(userId: Option<int>, token: Option<int>, k: LineKey) returns (r: Result<CartOut, CartError>)
      requires Sound(db, ProductsOf(list))
      modifies this
      ensures Sound(db, ProductsOf(list))
      ensures match CartOps.RemoveItem(old(db), userId, token, k)
              case Err(e) => r == Err(e) && db == old(db)
              case Ok(s) => db == s && r.Ok? && Renders(r.value, LinesOf(s, userId, token), list)
    {
      EditKeepsSound(db, ProductsOf(list), Remove(userId, token, k));
      var c := GetCart(userId, token);
      if c.None? { return Err(ItemNotFound); }
      var removed := DeleteOneItem(c.value, k);
      if !removed {
        NothingToDelete(db.items, c.value, k);
        return Err(ItemNotFound);
      }
      var out := Render(c.value);
      r := Ok(out);
    }

    /** The user's lines are read once; every guest line is added onto the one it matches there, or re-pointed. */
    method TakeOver(user: int, guest: int)
      requires Unique(db.items) && user != guest
      modifies this
      ensures db == old(db).(items := Merged(old(db).items, user, RowsIn(old(db).items, guest)))
    {
      ghost var before := db.items;
      var userLines := LinesByKey(db.items, user);
      var guestRows := InSomeOrder(RowsIn(db.items, guest));
      var n := 0;
      MergedNothing(before, user);
      while n < |guestRows|
        invariant 0 <= n <= |guestRows|
        invariant db == old(db).(items := Merged(before, user, Elements(guestRows[..n])))
      {
        var i := guestRows[n];
        RowsGrow(guestRows, n);
        TakeOne(before, user, guest, Elements(guestRows[..n]), i, userLines);
        var line := db.items[i];
        if line.key in userLines {
          var target := userLines[line.key];
          db := db.(items := WithMore(db.items, target, line.qty));
          var _ := DeleteOneItem(guest, line.key);
        } else {
          db := db.(items := db.items[i := line.(cartId := user)]);
        }
        n := n + 1;
      }
      assert guestRows[..n] == guestRows;
      assert Elements(guestRows) == RowsIn(before, guest);
    }

    method MergeGuestIntoUser(user: int, token: int) returns (out: CartOut)
      requires Sound(db, ProductsOf(list))
      modifies this
      ensures Sound(db, ProductsOf(list))
      ensures db == MergeGuest(old(db), user, token)
      ensures Renders(out, LinesOf(db, Some(user), None), list)
    {
      ghost var before := db;
      MergeKeepsSound(db, ProductsOf(list), user, token);
      OpeningKeepsSound(db, ProductsOf(list), Some(user), None);
      MergeKeepsTheUserCart(db, ProductsOf(list), user, token);
      var c := GetOrCreateCart(Some(user), None);
      var guest := GetCart(None, Some(token));
      if guest.Some? && guest.value != c {
        TakeOver(c, guest.value);
        db := db.(carts := db.carts - {guest.value});
      }
      assert db == MergeGuest(before, user, token);
      out := Render(c);
    }
  }

  function ProductsOf(list: PriceList): map<int, int> {
    map v | v in list.variants :: list.variants[v].productId
  }

  lemma NothingToDelete(items: Items, c: int, k: LineKey)
    requires RowsFor(items, c, k) == {}
    ensures DeleteItem(items, c, k) == items
  {}

  lemma RowsGrow(rows: seq<int>, n: nat)
    requires n < |rows|
    ensures Elements(rows[..n + 1]) == Elements(rows[..n]) + {rows[n]}
  {
    assert rows[..n + 1] == rows[..n] + [rows[n]];
  }

  lemma MergedNothing(items: Items, user: int)
    ensures Merged(items, user, {}) == items
  {
    forall i | i in items ensures MergedRow(items, user, {}, i) == items[i] {
      assert Brought(items, {}, items[i].key) == 0;
    }
  }

  lemma BroughtGrows(items: Items, guest: int, taken: set<int>, i: int, k: LineKey)
    requires Unique(items) && i in RowsIn(items, guest) && i !in taken && taken <= RowsIn(items, guest)
    ensures Brought(items, taken + {i}, k) == Brought(items, taken, k) + if k == items[i].key then items[i].qty else 0
  {
    BroughtByOneRow(items, guest, taken, k);
    BroughtByOneRow(items, guest, taken + {i}, k);
  }

  /** The user's lines by what they hold, as read before the loop. */
  ghost predicate AreLinesOf(lines: map<LineKey, int>, items: Items, user: int) {
    && (forall k :: k in lines ==> lines[k] in RowsFor(items, user, k))
    && (forall i :: i in items && items[i].cartId == user ==> items[i].key in lines)
  }

  function WithMore(items: Items, target: int, qty: int): Items
    requires target in items
  {
    items[target := items[target].(qty := items[target].qty + qty)]
  }

  /** The target rows stay the ones the user's cart had to begin with. */
  lemma TakeOne(items: Items, user: int, guest: int, taken: set<int>, i: int, userLines: map<LineKey, int>)
    requires Unique(items) && user != guest && AreLinesOf(userLines, items, user)
    requires i in RowsIn(items, guest) && i !in taken && taken <= RowsIn(items, guest)
    ensures var now, next, k := Merged(items, user, taken), Merged(items, user, taken + {i}), items[i].key;
            && i in now && now[i] == items[i]
            && if k in userLines
               then userLines[k] in now && next == DeleteItem(WithMore(now, userLines[k], items[i].qty), guest, k)
               else next == now[i := items[i].(cartId := user)]
  {
    var now, next, k := Merged(items, user, taken), Merged(items, user, taken + {i}), items[i].key;
    if k in userLines {
      TakeAbsorbed(items, user, guest, taken, i, userLines[k]);
    } else {
      forall j | j in items && items[j].cartId == user
        ensures Brought(items, taken + {i}, items[j].key) == Brought(items, taken, items[j].key)
      {
        BroughtGrows(items, guest, taken, i, items[j].key);
      }
      forall j | j in items ensures j !in RowsFor(items, user, k) {}
      assert RowsFor(items, user, k) == {};
      assert next == now[i := items[i].(cartId := user)];
    }
  }

  lemma TakeAbsorbed(items: Items, user: int, guest: int, taken: set<int>, i: int, t: int)
    requires Unique(items) && user != guest
    requires i in RowsIn(items, guest) && i !in taken && taken <= RowsIn(items, guest)
    requires t in RowsFor(items, user, items[i].key)
    ensures var now, next, k := Merged(items, user, taken), Merged(items, user, taken + {i}), items[i].key;
            t in now && next == DeleteItem(WithMore(now, t, items[i].qty), guest, k)
  {
    var now, next, k := Merged(items, user, taken), Merged(items, user, taken + {i}), items[i].key;
    var raised := WithMore(now, t, items[i].qty);
    forall j | j in raised
      ensures j in RowsFor(raised, guest, k) <==> j == i
    {
      assert Absorbed(items, user, i);
    }
    assert DeleteItem(raised, guest, k) == raised - {i};
    forall j | j in next
      ensures next[j] == raised[j]
    {
      BroughtGrows(items, guest, taken, i, items[j].key);
      assert items[j].cartId == user && items[j].key == k ==> j == t;
    }
    assert next.Keys == (raised - {i}).Keys;
  }

  lemma MergeKeepsTheUserCart(s: Shop, productOf: map<int, int>, user: int, guest: int)
    requires Sound(s, productOf)
    ensures DraftOf(MergeGuest(s, user, guest).carts, Some(user), None) == Some(GetOrCreate(s, Some(user), None).1)
  {
    OpenedCartIsTheDraft(s, productOf, Some(user), None);
    MergeKeepsSound(s, productOf, user, guest);
    var (ready, c) := GetOrCreate(s, Some(user), None);
    assert c in DraftsOf(ready.carts, Some(user), None);
    TheDraft(MergeGuest(s, user, guest).carts, Some(user), None, c);
  }

  method LinesByKey(items: Items, c: int) returns (lines: map<LineKey, int>)
    ensures AreLinesOf(lines, items, c)
  {
    lines := map[];
    var rows := InSomeOrder(RowsIn(items, c));
    for n := 0 to |rows|
      invariant forall i :: i in rows[..n] ==> i in items && items[i].key in lines
      invariant forall k :: k in lines ==> lines[k] in RowsFor(items, c, k)
    {
      assert rows[n] in rows;
      lines := lines[items[rows[n]].key := rows[n]];
    }
    assert rows[..|rows|] == rows;
    forall i | i in items && items[i].cartId == c
      ensures items[i].key in lines
    {
      assert i in rows;
    }
  }

  lemma LinesOfSeen(items: Items, seen: Items, c: int)
    requires Unique(items)
    requires forall j :: j in seen <==> j in RowsIn(items, c)
    requires forall j :: j in seen ==> seen[j] == items[j]
    ensures Lines(seen, c) == Lines(items, c)
  {
    var lines := Lines(items, c);
    forall j | j in seen && seen[j].cartId == c
      ensures seen[j].key in lines && lines[seen[j].key] == seen[j].qty
    {
      LineHasOneRow(items, c, items[j].key);
      assert j in RowsFor(items, c, items[j].key);
    }
    forall k | k in lines
      ensures RowsFor(seen, c, k) != {}
    {
      LineHasOneRow(items, c, k);
      var j :| j in RowsFor(items, c, k);
      assert j in RowsIn(items, c);
      assert j in RowsFor(seen, c, k);
    }
    LinesAre(seen, c, lines);
  }
}
