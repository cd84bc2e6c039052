/** Cart lines as rows, what a cart holds as a map from (product, variant) to quantity, and the guest merge. */
module Carts {
  import opened Outcomes
  import opened Aggregates

  /** What identifies a line inside its cart; no variant for a simple product. */
  datatype LineKey = LineKey(productId: int, variantId: Option<int>)

  datatype CartItem = CartItem(cartId: int, key: LineKey, qty: int)

  type Items = map<int, CartItem>

  /** At most one line per product and variant in each cart. */
  ghost predicate Unique(items: Items) {
    forall i, j ::
      i in items && j in items && items[i].cartId == items[j].cartId && items[i].key == items[j].key ==> i == j
  }

  ghost predicate IdsBelow(items: Items, nextId: int) {
    forall i :: i in items ==> i < nextId
  }

  ghost function KeysIn(items: Items, c: int): set<LineKey> {
    set i | i in items && items[i].cartId == c :: items[i].key
  }

  ghost function LineQty(items: Items, c: int, k: LineKey): int
    requires k in KeysIn(items, c)
  {
    var i :| i in items && items[i].cartId == c && items[i].key == k;
    items[i].qty
  }

  /** What a cart holds. */
  ghost function Lines(items: Items, c: int): map<LineKey, int> {
    map k | k in KeysIn(items, c) :: LineQty(items, c, k)
  }

  function QtyOf(lines: map<LineKey, int>, k: LineKey): int {
    if k in lines then lines[k] else 0
  }

  /** The ids of the rows that hold a given line; one or none while lines are unique. */
  function RowsFor(items: Items, c: int, k: LineKey): set<int> {
    set i | i in items && items[i].cartId == c && items[i].key == k
  }

  lemma LineHasOneRow(items: Items, c: int, k: LineKey)
    requires Unique(items)
    ensures k in Lines(items, c) <==> RowsFor(items, c, k) != {}
    ensures forall i :: i in RowsFor(items, c, k) ==> RowsFor(items, c, k) == {i} && Lines(items, c)[k] == items[i].qty
  {
    var lines, rows := Lines(items, c), RowsFor(items, c, k);
    if k in lines {
      var i :| i in items && items[i].cartId == c && items[i].key == k;
      assert i in rows;
    }
    forall i | i in rows
      ensures rows == {i} && k in lines && lines[k] == items[i].qty
    {
      forall j | j in rows ensures j == i {}
      assert items[i].key in KeysIn(items, c);
    }
  }

  /** A map holds a cart's lines when every row is in it and it holds nothing else. */
  lemma LinesAre(items: Items, c: int, m: map<LineKey, int>)
    requires Unique(items)
    requires forall i :: i in items && items[i].cartId == c ==> items[i].key in m && m[items[i].key] == items[i].qty
    requires forall k :: k in m ==> RowsFor(items, c, k) != {}
    ensures Lines(items, c) == m
  {
    var lines := Lines(items, c);
    forall k | k in m
      ensures k in lines && lines[k] == m[k]
    {
      LineHasOneRow(items, c, k);
      var i :| i in RowsFor(items, c, k);
    }
    assert lines.Keys == m.Keys;
  }

  // ---------------------------------------------------------------- one line at a time

  lemma InsertKeepsUnique(items: Items, nextId: int, item: CartItem)
    requires Unique(items) && nextId !in items && RowsFor(items, item.cartId, item.key) == {}
    ensures Unique(items[nextId := item])
  {
    forall i | i in items && items[i].cartId == item.cartId
      ensures items[i].key != item.key
    {
      assert i !in RowsFor(items, item.cartId, item.key);
    }
  }

  lemma InsertLine(items: Items, nextId: int, item: CartItem, c: int)
    requires Unique(items) && nextId !in items && RowsFor(items, item.cartId, item.key) == {}
    ensures Unique(items[nextId := item])
    ensures Lines(items[nextId := item], c) ==
            if c == item.cartId then Lines(items, c)[item.key := item.qty] else Lines(items, c)
  {
    InsertKeepsUnique(items, nextId, item);
    var items', before := items[nextId := item], Lines(items, c);
    var after := if c == item.cartId then before[item.key := item.qty] else before;
    forall i | i in items' && items'[i].cartId == c
      ensures items'[i].key in after && after[items'[i].key] == items'[i].qty
    {
      if i != nextId {
        LineHasOneRow(items, c, items[i].key);
        assert i in RowsFor(items, c, items[i].key);
      }
    }
    forall k | k in after
      ensures RowsFor(items', c, k) != {}
    {
      if k in before {
        LineHasOneRow(items, c, k);
        var i :| i in RowsFor(items, c, k);
        assert i in RowsFor(items', c, k);
      } else {
        assert nextId in RowsFor(items', c, k);
      }
    }
    LinesAre(items', c, after);
  }

  lemma ChangeQty(items: Items, i: int, qty: int, c: int)
    requires Unique(items) && i in items
    ensures Unique(items[i := items[i].(qty := qty)])
    ensures Lines(items[i := items[i].(qty := qty)], c) ==
            if c == items[i].cartId then Lines(items, c)[items[i].key := qty] else Lines(items, c)
  {
    var without := items - {i};
    DropLine(items, i, c);
    DropLine(items, i, items[i].cartId);
    LineHasOneRow(without, items[i].cartId, items[i].key);
    InsertLine(without, i, items[i].(qty := qty), c);
    assert without[i := items[i].(qty := qty)] == items[i := items[i].(qty := qty)];
    assert (Lines(items, c) - {items[i].key})[items[i].key := qty] == Lines(items, c)[items[i].key := qty];
  }

  lemma DropLine(items: Items, i: int, c: int)
    requires Unique(items) && i in items
    ensures Unique(items - {i})
    ensures Lines(items - {i}, c) == if c == items[i].cartId then Lines(items, c) - {items[i].key} else Lines(items, c)
  {
    var items', before := items - {i}, Lines(items, c);
    var after := if c == items[i].cartId then before - {items[i].key} else before;
    forall j | j in items' && items'[j].cartId == c
      ensures items'[j].key in after && after[items'[j].key] == items'[j].qty
    {
      LineHasOneRow(items, c, items[j].key);
      assert j in RowsFor(items, c, items[j].key);
    }
    forall k | k in after
      ensures RowsFor(items', c, k) != {}
    {
      LineHasOneRow(items, c, k);
      var j :| j in RowsFor(items, c, k);
      assert j in RowsFor(items', c, k);
    }
    LinesAre(items', c, after);
  }

  // ---------------------------------------------------------------- the repository operations

  function AddOrIncrement(items: Items, nextId: int, c: int, k: LineKey, qty: int): (Items, int)
  {
    if RowsFor(items, c, k) == {} then (items[nextId := CartItem(c, k, qty)], nextId + 1)
    else
      var rows := RowsFor(items, c, k);
      (map i | i in items :: if i in rows then items[i].(qty := items[i].qty + qty) else items[i], nextId)
  }

  function SetQty(items: Items, c: int, k: LineKey, qty: int): Items {
    map i | i in items :: if i in RowsFor(items, c, k) then items[i].(qty := qty) else items[i]
  }

  function DeleteItem(items: Items, c: int, k: LineKey): Items {
    items - RowsFor(items, c, k)
  }

  lemma AddToRow(items: Items, nextId: int, c: int, k: LineKey, qty: int, i: int)
    requires Unique(items) && i in RowsFor(items, c, k)
    ensures AddOrIncrement(items, nextId, c, k, qty) == (items[i := items[i].(qty := items[i].qty + qty)], nextId)
  {
    LineHasOneRow(items, c, k);
    assert AddOrIncrement(items, nextId, c, k, qty).0 == items[i := items[i].(qty := items[i].qty + qty)];
  }

  /** Adding raises exactly one quantity, by exactly the amount added. */
  lemma AddRaisesOneLine(items: Items, nextId: int, c: int, k: LineKey, qty: int, d: int)
    requires Unique(items) && IdsBelow(items, nextId)
    ensures var (items', nextId') := AddOrIncrement(items, nextId, c, k, qty);
            && Unique(items') && IdsBelow(items', nextId')
            && Lines(items', d) ==
               if d == c then Lines(items, d)[k := QtyOf(Lines(items, d), k) + qty] else Lines(items, d)
  {
    LineHasOneRow(items, c, k);
    if RowsFor(items, c, k) == {} {
      InsertLine(items, nextId, CartItem(c, k, qty), d);
    } else {
      var i :| i in RowsFor(items, c, k);
      AddToRow(items, nextId, c, k, qty, i);
      ChangeQty(items, i, items[i].qty + qty, d);
    }
  }

  lemma SetChangesOneLine(items: Items, c: int, k: LineKey, qty: int, d: int)
    requires Unique(items) && k in Lines(items, c)
    ensures Unique(SetQty(items, c, k, qty))
    ensures Lines(SetQty(items, c, k, qty), d) == if d == c then Lines(items, d)[k := qty] else Lines(items, d)
  {
    LineHasOneRow(items, c, k);
    var i :| i in RowsFor(items, c, k);
    ChangeQty(items, i, qty, d);
    assert SetQty(items, c, k, qty) == items[i := items[i].(qty := qty)];
  }

  lemma DeleteDropsOneLine(items: Items, c: int, k: LineKey, d: int)
    requires Unique(items)
    ensures Unique(DeleteItem(items, c, k))
    ensures Lines(DeleteItem(items, c, k), d) == if d == c then Lines(items, d) - {k} else Lines(items, d)
  {
    LineHasOneRow(items, c, k);
    if RowsFor(items, c, k) == {} {
      assert DeleteItem(items, c, k) == items;
      assert d == c ==> Lines(items, d) - {k} == Lines(items, d);
    } else {
      var i :| i in RowsFor(items, c, k);
      DropLine(items, i, d);
      assert DeleteItem(items, c, k) == items - {i};
    }
  }

  // ---------------------------------------------------------------- merging two carts

  /** Quantities added up, line by line. */
  ghost function Combine(a: map<LineKey, int>, b: map<LineKey, int>): map<LineKey, int> {
    map k | k in a.Keys + b.Keys :: QtyOf(a, k) + QtyOf(b, k)
  }

  function RowsIn(items: Items, c: int): set<int> {
    set i | i in items && items[i].cartId == c
  }

  /** What the guest lines taken over so far bring to a line. */
  function Brought(items: Items, taken: set<int>, k: LineKey): int {
    var rows := set i | i in taken && i in items && items[i].key == k;
    if rows == {} then 0 else items[Least(rows)].qty
  }

  /** A guest line whose key the user already has disappears into that line; every other one changes cart. */
  function Absorbed(items: Items, user: int, i: int): bool
    requires i in items
  {
    RowsFor(items, user, items[i].key) != {}
  }

  function MergedRow(items: Items, user: int, taken: set<int>, i: int): CartItem
    requires i in items
  {
    if i in taken then items[i].(cartId := user)
    else if items[i].cartId == user then items[i].(qty := items[i].qty + Brought(items, taken, items[i].key))
    else items[i]
  }

  /** The rows after the given guest lines have been taken over. */
  function Merged(items: Items, user: int, taken: set<int>): Items {
    map i | i in items && !(i in taken && Absorbed(items, user, i)) :: MergedRow(items, user, taken, i)
  }

  lemma BroughtByOneRow(items: Items, guest: int, taken: set<int>, k: LineKey)
    requires Unique(items) && taken <= RowsIn(items, guest)
    ensures forall i :: i in taken && items[i].key == k ==> Brought(items, taken, k) == items[i].qty
    ensures (forall i :: i in taken ==> items[i].key != k) ==> Brought(items, taken, k) == 0
  {
    var rows := set i | i in taken && i in items && items[i].key == k;
    forall i | i in taken && items[i].key == k
      ensures Brought(items, taken, k) == items[i].qty
    {
      assert i in rows;
      assert Least(rows) == i;
    }
  }

  lemma BroughtIsTheGuestLine(items: Items, guest: int, k: LineKey)
    requires Unique(items)
    ensures Brought(items, RowsIn(items, guest), k) == QtyOf(Lines(items, guest), k)
  {
    BroughtByOneRow(items, guest, RowsIn(items, guest), k);
    LineHasOneRow(items, guest, k);
    if k in Lines(items, guest) {
      var i :| i in RowsFor(items, guest, k);
      assert i in RowsIn(items, guest);
    } else {
      forall i | i in RowsIn(items, guest)
        ensures items[i].key != k
      {
        assert i !in RowsFor(items, guest, k);
      }
    }
  }

  lemma MergeKeepsUnique(items: Items, user: int, guest: int)
    requires Unique(items) && user != guest
    ensures Unique(Merged(items, user, RowsIn(items, guest)))
  {
    var merged := Merged(items, user, RowsIn(items, guest));
    forall i, j | i in merged && j in merged && merged[i].cartId == merged[j].cartId && merged[i].key == merged[j].key
      ensures i == j
    {
      if items[i].cartId == user {
        assert i in RowsFor(items, user, items[i].key);
      }
      if items[j].cartId == user {
        assert j in RowsFor(items, user, items[j].key);
      }
      assert items[i].cartId == items[j].cartId;
    }
  }

  lemma UserLineAfterMerge(items: Items, user: int, guest: int, i: int)
    requires Unique(items) && user != guest
    requires i in Merged(items, user, RowsIn(items, guest))
               && Merged(items, user, RowsIn(items, guest))[i].cartId == user
    ensures var k := items[i].key;
            Merged(items, user, RowsIn(items, guest))[i].qty ==
              QtyOf(Lines(items, user), k) + QtyOf(Lines(items, guest), k)
    ensures items[i].key in Lines(items, user) || items[i].key in Lines(items, guest)
  {
    var k := items[i].key;
    BroughtIsTheGuestLine(items, guest, k);
    LineHasOneRow(items, user, k);
    LineHasOneRow(items, guest, k);
    assert i in RowsFor(items, items[i].cartId, k);
  }

  lemma MergedLineHasRow(items: Items, user: int, guest: int, k: LineKey)
    requires Unique(items) && user != guest
    requires k in Lines(items, user) || k in Lines(items, guest)
    ensures RowsFor(Merged(items, user, RowsIn(items, guest)), user, k) != {}
  {
    LineHasOneRow(items, user, k);
    LineHasOneRow(items, guest, k);
    var rows := RowsFor(items, user, k);
    var i :| i in if rows != {} then rows else RowsFor(items, guest, k);
    assert i in RowsFor(Merged(items, user, RowsIn(items, guest)), user, k);
  }

  lemma UserLinesAfterMerge(items: Items, user: int, guest: int)
    requires Unique(items) && user != guest && Unique(Merged(items, user, RowsIn(items, guest)))
    ensures Lines(Merged(items, user, RowsIn(items, guest)), user) == Combine(Lines(items, user), Lines(items, guest))
  {
    var merged := Merged(items, user, RowsIn(items, guest));
    var both := Combine(Lines(items, user), Lines(items, guest));
    forall i | i in merged && merged[i].cartId == user
      ensures merged[i].key in both && both[merged[i].key] == merged[i].qty
    {
      UserLineAfterMerge(items, user, guest, i);
    }
    forall k | k in both
      ensures RowsFor(merged, user, k) != {}
    {
      MergedLineHasRow(items, user, guest, k);
    }
    LinesAre(merged, user, both);
  }

  /** The user's cart ends up with the two carts' quantities, key by key, and the guest's with nothing. */
  lemma MergeConserves(items: Items, user: int, guest: int)
    requires Unique(items) && user != guest
    ensures var merged := Merged(items, user, RowsIn(items, guest));
            && Unique(merged)
            && Lines(merged, user) == Combine(Lines(items, user), Lines(items, guest))
            && RowsIn(merged, guest) == {}
            && forall i :: i in items && items[i].cartId != user && items[i].cartId != guest ==>
                 i in merged && merged[i] == items[i]
  {
    MergeKeepsUnique(items, user, guest);
    UserLinesAfterMerge(items, user, guest);
  }

  /** Carts other than the two merged ones hold what they held. */
  lemma MergeLeavesOthers(items: Items, user: int, guest: int, c: int)
    requires Unique(items) && user != guest && c != user && c != guest
    ensures Lines(Merged(items, user, RowsIn(items, guest)), c) == Lines(items, c)
  {
    MergeKeepsUnique(items, user, guest);
    var merged := Merged(items, user, RowsIn(items, guest));
    forall i | i in merged && merged[i].cartId == c
      ensures merged[i].key in Lines(items, c) && Lines(items, c)[merged[i].key] == merged[i].qty
    {
      LineHasOneRow(items, c, items[i].key);
      assert i in RowsFor(items, c, items[i].key);
    }
    forall k | k in Lines(items, c)
      ensures RowsFor(merged, c, k) != {}
    {
      LineHasOneRow(items, c, k);
      var i :| i in RowsFor(items, c, k);
      assert i in RowsFor(merged, c, k);
    }
    LinesAre(merged, c, Lines(items, c));
  }

  // ---------------------------------------------------------------- weighted totals

  /** Quantities times a per-unit weight, summed over a cart's lines. */
  ghost function Total(lines: map<LineKey, int>, weight: LineKey -> int): int
    decreases |lines|
  {
    if lines == map[] then 0
    else
      KeysNonEmpty(lines);
      var k := AnyOf(lines.Keys);
      SmallerMap(lines, k);
      lines[k] * weight(k) + Total(lines - {k}, weight)
  }

  lemma {:induction false} TotalSplitsOff(lines: map<LineKey, int>, weight: LineKey -> int, k: LineKey)
    requires k in lines
    ensures Total(lines, weight) == lines[k] * weight(k) + Total(lines - {k}, weight)
    decreases |lines|
  {
    KeysNonEmpty(lines);
    var l := AnyOf(lines.Keys);
    if k != l {
      SmallerMap(lines, l);
      TotalSplitsOff(lines - {l}, weight, k);
      assert (lines - {l}) - {k} == (lines - {k}) - {l};
      SmallerMap(lines, k);
      TotalSplitsOff(lines - {k}, weight, l);
    }
  }

  lemma TotalWithout(lines: map<LineKey, int>, weight: LineKey -> int, k: LineKey)
    ensures Total(lines, weight) == QtyOf(lines, k) * weight(k) + Total(lines - {k}, weight)
  {
    if k in lines {
      TotalSplitsOff(lines, weight, k);
    } else {
      assert lines - {k} == lines;
    }
  }

  lemma CombineWithout(a: map<LineKey, int>, b: map<LineKey, int>, k: LineKey)
    requires k in b
    ensures Combine(a, b) - {k} == Combine(a, b - {k}) - {k}
    ensures QtyOf(Combine(a, b), k) == QtyOf(a, k) + b[k] && QtyOf(Combine(a, b - {k}), k) == QtyOf(a, k)
  {}

  lemma Distribute(x: int, y: int, w: int)
    ensures (x + y) * w == x * w + y * w
  {}

  lemma CombineOneKey(a: map<LineKey, int>, b: map<LineKey, int>, weight: LineKey -> int, k: LineKey)
    requires k in b
    ensures Total(Combine(a, b), weight) == Total(Combine(a, b - {k}), weight) + b[k] * weight(k)
  {
    CombineWithout(a, b, k);
    Distribute(QtyOf(a, k), b[k], weight(k));
    TotalWithout(Combine(a, b), weight, k);
    TotalWithout(Combine(a, b - {k}), weight, k);
  }

  /** The total of two carts put together is the sum of their totals, whatever is being totalled. */
  lemma {:induction false} TotalsAdd(a: map<LineKey, int>, b: map<LineKey, int>, weight: LineKey -> int)
    ensures Total(Combine(a, b), weight) == Total(a, weight) + Total(b, weight)
    decreases |b|
  {
    if b == map[] {
      assert Combine(a, b) == a;
    } else {
      KeysNonEmpty(b);
      var k := AnyOf(b.Keys);
      SmallerMap(b, k);
      TotalsAdd(a, b - {k}, weight);
      CombineOneKey(a, b, weight, k);
      TotalSplitsOff(b, weight, k);
    }
  }
}
