/**
 Concurrent requests on one user's cart. Every writer first locks the cart row, then reads
 the rows it needs statement by statement, computes new row values from what it read, and
 publishes them at commit. Any schedule, including rollbacks, leaves the carts as if the
 requests had run one after the other in the order they got the lock.
 */
module CartLocking {
  import opened Outcomes
  import opened Aggregates
  import opened Carts

  /** The committed rows. `guests` are the draft carts of session tokens. */
  datatype Db = Db(items: Items, guests: map<int, int>, nextId: int)

  datatype Op =
    | Add(k: LineKey, qty: int)
    | Set(k: LineKey, qty: int)
    | Remove(k: LineKey)
    | Merge(token: int)

  // ---------------------------------------------------------------- one after the other

  /** What the carts hold, without rows or ids. */
  datatype Shelf = Shelf(lines: map<LineKey, int>, guests: map<int, map<LineKey, int>>)

  ghost function Serial(s: Shelf, op: Op): Shelf {
    match op
    case Add(k, qty) => s.(lines := s.lines[k := QtyOf(s.lines, k) + qty])
    case Set(k, qty) => if k in s.lines then s.(lines := s.lines[k := qty]) else s
    case Remove(k) => s.(lines := s.lines - {k})
    case Merge(token) =>
      if token !in s.guests then s else Shelf(Combine(s.lines, s.guests[token]), s.guests - {token})
  }

  ghost function SerialRun(s: Shelf, ops: seq<Op>): Shelf {
    if ops == [] then s else Serial(SerialRun(s, ops[..|ops| - 1]), ops[|ops| - 1])
  }

  ghost function GuestLines(items: Items, guests: map<int, int>): map<int, map<LineKey, int>> {
    map token | token in guests :: Lines(items, guests[token])
  }

  ghost function ShelfOf(db: Db, c: int): Shelf {
    Shelf(Lines(db.items, c), GuestLines(db.items, db.guests))
  }

  // ---------------------------------------------------------------- one transaction

  /** Row values and deletions a transaction has flushed but not committed. */
  datatype Changes = Changes(put: Items, drop: set<int>, closes: set<int>)

  datatype Phase =
    | Waiting
    | Locked
    | Located(guest: Option<int>)
    | HasMine(guest: Option<int>, mine: Items)
    | HasBoth(guest: Option<int>, mine: Items, theirs: Items)
    | Wrote(changes: Changes)
    | Finished

  function CartRows(items: Items, c: int): Items {
    map i | i in items && items[i].cartId == c :: items[i]
  }

  /** The guest cart a merge finds, unless it is the user's own. */
  function GuestOf(op: Op, guests: map<int, int>, c: int): Option<int> {
    if op.Merge? && op.token in guests && guests[op.token] != c then Some(guests[op.token]) else None
  }

  /** Absolute new values, computed from the rows read earlier. */
  function ChangesOf(op: Op, c: int, guest: Option<int>, mine: Items, theirs: Items, nextId: int): Changes {
    match op
    case Add(k, qty) =>
      var rows := RowsFor(mine, c, k);
      if rows == {} then Changes(map[nextId := CartItem(c, k, qty)], {}, {})
      else Changes((map i | i in mine && i in rows :: mine[i].(qty := mine[i].qty + qty)), {}, {})
    case Set(k, qty) =>
      Changes((map i | i in mine && i in RowsFor(mine, c, k) :: mine[i].(qty := qty)), {}, {})
    case Remove(k) => Changes(map[], RowsFor(mine, c, k), {})
    case Merge(token) =>
      if guest.None? then Changes(map[], {}, {})
      else
        Changes(
          (map i | i in mine :: mine[i].(qty := mine[i].qty + Brought(theirs, theirs.Keys, mine[i].key)))
          + (map i | i in theirs && RowsFor(mine, c, theirs[i].key) == {} :: theirs[i].(cartId := c)),
          (set i | i in theirs && RowsFor(mine, c, theirs[i].key) != {}),
          {token})
  }

  function Inserted(op: Op, c: int, mine: Items): int {
    if op.Add? && RowsFor(mine, c, op.k) == {} then 1 else 0
  }

  function Apply(db: Db, changes: Changes): Db {
    db.(items := (db.items - changes.drop) + changes.put, guests := db.guests - changes.closes)
  }

  // ---------------------------------------------------------------- the machine

  type Txn = int

  /** `order` lists the transactions that got the lock and were not rolled back. */
  datatype System = System(db: Db, phases: map<Txn, Phase>, holder: Option<Txn>, order: seq<Txn>)

  datatype Event = Go(t: Txn) | Abort(t: Txn)

  /** The next statement of one transaction; a lock that is taken makes it wait. */
  function Advance(s: System, c: int, ops: map<Txn, Op>, t: Txn, locking: bool): System
    requires t in s.phases && t in ops
  {
    match s.phases[t]
    case Waiting =>
      if locking && s.holder.Some? then s
      else s.(phases := s.phases[t := Locked], holder := Some(t), order := s.order + [t])
    case Locked => s.(phases := s.phases[t := Located(GuestOf(ops[t], s.db.guests, c))])
    case Located(guest) => s.(phases := s.phases[t := HasMine(guest, CartRows(s.db.items, c))])
    case HasMine(guest, mine) =>
      var theirs := if guest.Some? then CartRows(s.db.items, guest.value) else map[];
      s.(phases := s.phases[t := HasBoth(guest, mine, theirs)])
    case HasBoth(guest, mine, theirs) =>
      var changes := ChangesOf(ops[t], c, guest, mine, theirs, s.db.nextId);
      s.(db := s.db.(nextId := s.db.nextId + Inserted(ops[t], c, mine)), phases := s.phases[t := Wrote(changes)])
    case Wrote(changes) => s.(db := Apply(s.db, changes), phases := s.phases[t := Finished], holder := None)
    case Finished => s
  }

  /** A rollback drops the flushed changes and the lock; ids drawn from the sequence stay drawn. */
  function RollBack(s: System, t: Txn): System
    requires t in s.phases
  {
    if s.holder == Some(t) && s.order != [] then
      System(s.db, s.phases[t := Finished], None, s.order[..|s.order| - 1])
    else if s.phases[t] == Waiting then s.(phases := s.phases[t := Finished])
    else s
  }

  function Step(s: System, c: int, ops: map<Txn, Op>, e: Event, locking: bool): System {
    if e.t !in s.phases || e.t !in ops then s
    else if e.Go? then Advance(s, c, ops, e.t, locking)
    else RollBack(s, e.t)
  }

  function Run(s: System, c: int, ops: map<Txn, Op>, schedule: seq<Event>, locking: bool): System {
    if schedule == [] then s
    else Step(Run(s, c, ops, schedule[..|schedule| - 1], locking), c, ops, schedule[|schedule| - 1], locking)
  }

  function Start(db: Db, ops: map<Txn, Op>): System {
    System(db, map t | t in ops :: Waiting, None, [])
  }

  // ---------------------------------------------------------------- what one transaction does

  ghost predicate Sound(db: Db, c: int) {
    && Unique(db.items) && IdsBelow(db.items, db.nextId)
    && (forall token :: token in db.guests ==> db.guests[token] != c)
    && (forall a, b :: a in db.guests && b in db.guests && db.guests[a] == db.guests[b] ==> a == b)
  }

  lemma CartRowsFor(items: Items, c: int, k: LineKey)
    ensures RowsFor(CartRows(items, c), c, k) == RowsFor(items, c, k)
  {}

  /** The changes computed from current rows do to the carts what the request asks for. */
  ghost predicate Faithful(db: Db, c: int, op: Op, changes: Changes) {
    Sound(Apply(db, changes), c) && ShelfOf(Apply(db, changes), c) == Serial(ShelfOf(db, c), op)
  }

  lemma FaithfulRows(db: Db, c: int, op: Op, changes: Changes, items: Items)
    requires Sound(db, c) && changes.closes == {} && (db.items - changes.drop) + changes.put == items
    requires Unique(items) && IdsBelow(items, db.nextId)
    requires GuestLines(items, db.guests) == GuestLines(db.items, db.guests)
    requires !op.Merge? && Lines(items, c) == Serial(ShelfOf(db, c), op).lines
    ensures Faithful(db, c, op, changes)
  {
    assert db.guests - {} == db.guests;
    assert Apply(db, changes) == db.(items := items);
  }

  lemma AddedRows(items: Items, c: int, op: Op, theirs: Items, guest: Option<int>, nextId: int)
    requires op.Add? && nextId !in items
    ensures var changes := ChangesOf(op, c, guest, CartRows(items, c), theirs, nextId);
            changes.closes == {} && (items - changes.drop) + changes.put ==
              AddOrIncrement(items, nextId, c, op.k, op.qty).0
    ensures AddOrIncrement(items, nextId, c, op.k, op.qty).1 == nextId + Inserted(op, c, CartRows(items, c))
  {
    CartRowsFor(items, c, op.k);
    var changes := ChangesOf(op, c, guest, CartRows(items, c), theirs, nextId);
    assert items - {} == items;
    assert items + changes.put == AddOrIncrement(items, nextId, c, op.k, op.qty).0;
  }

  lemma AddToOthers(items: Items, nextId: int, c: int, k: LineKey, qty: int, guests: map<int, int>)
    requires Unique(items) && IdsBelow(items, nextId) && forall token :: token in guests ==> guests[token] != c
    ensures var after := AddOrIncrement(items, nextId, c, k, qty).0;
            GuestLines(after, guests) == GuestLines(items, guests)
  {
    forall token | token in guests
      ensures Lines(AddOrIncrement(items, nextId, c, k, qty).0, guests[token]) == Lines(items, guests[token])
    {
      AddRaisesOneLine(items, nextId, c, k, qty, guests[token]);
    }
  }

  lemma AddedLines(db: Db, c: int, op: Op)
    requires Sound(db, c) && op.Add?
    ensures var items := AddOrIncrement(db.items, db.nextId, c, op.k, op.qty).0;
            && Unique(items) && IdsBelow(items, db.nextId + Inserted(op, c, CartRows(db.items, c)))
            && Lines(items, c) == Serial(ShelfOf(db, c), op).lines
            && GuestLines(items, db.guests) == GuestLines(db.items, db.guests)
  {
    CartRowsFor(db.items, c, op.k);
    AddRaisesOneLine(db.items, db.nextId, c, op.k, op.qty, c);
    AddToOthers(db.items, db.nextId, c, op.k, op.qty, db.guests);
  }

  lemma LaterIdsAreSound(db: Db, c: int, drawn: nat)
    requires Sound(db, c)
    ensures Sound(db.(nextId := db.nextId + drawn), c)
    ensures ShelfOf(db.(nextId := db.nextId + drawn), c) == ShelfOf(db, c)
  {}

  lemma AddFaithful(db: Db, c: int, op: Op, theirs: Items, guest: Option<int>)
    requires Sound(db, c) && op.Add?
    ensures var mine := CartRows(db.items, c);
            Faithful(
              db.(nextId := db.nextId + Inserted(op, c, mine)), c, op, ChangesOf(op, c, guest, mine, theirs, db.nextId))
  {
    var mine := CartRows(db.items, c);
    AddedRows(db.items, c, op, theirs, guest, db.nextId);
    AddedLines(db, c, op);
    LaterIdsAreSound(db, c, Inserted(op, c, mine));
    FaithfulRows(db.(nextId := db.nextId + Inserted(op, c, mine)), c, op,
                 ChangesOf(op, c, guest, mine, theirs, db.nextId),
                 AddOrIncrement(db.items, db.nextId, c, op.k, op.qty).0);
  }

  lemma SetFaithful(db: Db, c: int, op: Op, theirs: Items, guest: Option<int>)
    requires Sound(db, c) && op.Set?
    ensures Faithful(db, c, op, ChangesOf(op, c, guest, CartRows(db.items, c), theirs, db.nextId))
  {
    var changes := ChangesOf(op, c, guest, CartRows(db.items, c), theirs, db.nextId);
    var items := SetQty(db.items, c, op.k, op.qty);
    CartRowsFor(db.items, c, op.k);
    assert (db.items - changes.drop) + changes.put == items;
    LineHasOneRow(db.items, c, op.k);
    if op.k in Lines(db.items, c) {
      SetChangesOneLine(db.items, c, op.k, op.qty, c);
      forall token | token in db.guests
        ensures Lines(items, db.guests[token]) == Lines(db.items, db.guests[token])
      {
        SetChangesOneLine(db.items, c, op.k, op.qty, db.guests[token]);
      }
    } else {
      assert items == db.items;
    }
    FaithfulRows(db, c, op, changes, items);
  }

  lemma RemoveFaithful(db: Db, c: int, op: Op, theirs: Items, guest: Option<int>)
    requires Sound(db, c) && op.Remove?
    ensures Faithful(db, c, op, ChangesOf(op, c, guest, CartRows(db.items, c), theirs, db.nextId))
  {
    var changes := ChangesOf(op, c, guest, CartRows(db.items, c), theirs, db.nextId);
    var items := DeleteItem(db.items, c, op.k);
    CartRowsFor(db.items, c, op.k);
    assert (db.items - changes.drop) + changes.put == items;
    DeleteDropsOneLine(db.items, c, op.k, c);
    forall token | token in db.guests
      ensures Lines(items, db.guests[token]) == Lines(db.items, db.guests[token])
    {
      DeleteDropsOneLine(db.items, c, op.k, db.guests[token]);
    }
    FaithfulRows(db, c, op, changes, items);
  }

  lemma BroughtFromCart(items: Items, g: int, k: LineKey)
    ensures var theirs := CartRows(items, g); Brought(theirs, theirs.Keys, k) == Brought(items, RowsIn(items, g), k)
  {
    var theirs := CartRows(items, g);
    assert (set i | i in theirs.Keys && i in theirs && theirs[i].key == k)
        == (set i | i in RowsIn(items, g) && i in items && items[i].key == k);
  }

  lemma MergedRows(items: Items, c: int, g: int, op: Op, nextId: int)
    requires op.Merge? && c != g
    ensures var changes := ChangesOf(op, c, Some(g), CartRows(items, c), CartRows(items, g), nextId);
            (items - changes.drop) + changes.put == Merged(items, c, RowsIn(items, g))
  {
    var mine, theirs := CartRows(items, c), CartRows(items, g);
    var changes := ChangesOf(op, c, Some(g), mine, theirs, nextId);
    var rows, merged := (items - changes.drop) + changes.put, Merged(items, c, RowsIn(items, g));
    forall i | i in items
      ensures i in rows <==> i in merged
      ensures i in rows && i in merged ==> rows[i] == merged[i]
    {
      CartRowsFor(items, c, items[i].key);
      BroughtFromCart(items, g, items[i].key);
    }
    assert rows.Keys == merged.Keys;
  }

  lemma MergeFaithful(db: Db, c: int, op: Op)
    requires Sound(db, c) && op.Merge? && GuestOf(op, db.guests, c).Some?
    ensures var guest := GuestOf(op, db.guests, c);
            Faithful(
              db, c, op, ChangesOf(op, c, guest, CartRows(db.items, c), CartRows(db.items, guest.value), db.nextId))
  {
    var g := GuestOf(op, db.guests, c).value;
    var items := Merged(db.items, c, RowsIn(db.items, g));
    MergedRows(db.items, c, g, op, db.nextId);
    MergeConserves(db.items, c, g);
    var after := Db(items, db.guests - {op.token}, db.nextId);
    forall token | token in after.guests
      ensures Lines(items, db.guests[token]) == Lines(db.items, db.guests[token])
    {
      MergeLeavesOthers(db.items, c, g, db.guests[token]);
    }
    assert ShelfOf(after, c).guests == ShelfOf(db, c).guests - {op.token};
    assert Sound(after, c);
  }

  // ---------------------------------------------------------------- over any schedule

  function OpsOf(ops: map<Txn, Op>, order: seq<Txn>): seq<Op>
    requires forall i :: 0 <= i < |order| ==> order[i] in ops
  {
    if order == [] then [] else OpsOf(ops, order[..|order| - 1]) + [ops[order[|order| - 1]]]
  }

  /** The transactions whose effect is committed. */
  function Committed(s: System): seq<Txn> {
    if s.holder.Some? && s.order != [] then s.order[..|s.order| - 1] else s.order
  }

  /** What the lock holder has read is still so. */
  ghost predicate ViewCurrent(s: System, c: int, op: Op, phase: Phase) {
    match phase
    case Locked => true
    case Located(guest) => guest == GuestOf(op, s.db.guests, c)
    case HasMine(guest, mine) => guest == GuestOf(op, s.db.guests, c) && mine == CartRows(s.db.items, c)
    case HasBoth(guest, mine, theirs) =>
      && guest == GuestOf(op, s.db.guests, c) && mine == CartRows(s.db.items, c)
      && (guest.Some? ==> theirs == CartRows(s.db.items, guest.value))
    case Wrote(changes) => Faithful(s.db, c, op, changes)
    case _ => false
  }

  ghost predicate Exclusive(s: System, c: int, ops: map<Txn, Op>) {
    && s.phases.Keys == ops.Keys
    && (s.holder.Some? ==>
          && s.holder.value in ops && s.order != [] && s.order[|s.order| - 1] == s.holder.value
          && ViewCurrent(s, c, ops[s.holder.value], s.phases[s.holder.value]))
    && forall t :: t in s.phases && s.holder != Some(t) ==> s.phases[t].Waiting? || s.phases[t].Finished?
  }

  ghost predicate Ordered(s: System, ops: map<Txn, Op>) {
    && (forall i :: 0 <= i < |s.order| ==>
         s.order[i] in ops && s.order[i] in s.phases && !s.phases[s.order[i]].Waiting?)
    && forall i, j :: 0 <= i < j < |s.order| ==> s.order[i] != s.order[j]
  }

  ghost predicate Serializable(s: System, c: int, ops: map<Txn, Op>, db: Db) {
    && Sound(s.db, c) && Exclusive(s, c, ops) && Ordered(s, ops)
    && ShelfOf(s.db, c) == SerialRun(ShelfOf(db, c), OpsOf(ops, Committed(s)))
  }

  lemma WriteIsFaithful(db: Db, c: int, op: Op, guest: Option<int>, theirs: Items)
    requires Sound(db, c) && guest == GuestOf(op, db.guests, c)
               && (guest.Some? ==> theirs == CartRows(db.items, guest.value))
    ensures var mine := CartRows(db.items, c); var db' := db.(nextId := db.nextId + Inserted(op, c, mine));
            && Faithful(db', c, op, ChangesOf(op, c, guest, mine, theirs, db.nextId))
            && Sound(db', c) && ShelfOf(db', c) == ShelfOf(db, c)
  {
    match op
    case Add(_, _) => AddFaithful(db, c, op, theirs, guest);
    case Set(_, _) => SetFaithful(db, c, op, theirs, guest);
    case Remove(_) => RemoveFaithful(db, c, op, theirs, guest);
    case Merge(token) =>
      if guest.Some? {
        MergeFaithful(db, c, op);
      } else {
        assert Apply(db, Changes(map[], {}, {})) == db;
      }
  }

  lemma AdvanceKeepsOrder(s: System, c: int, ops: map<Txn, Op>, t: Txn)
    requires Ordered(s, ops) && t in s.phases && t in ops
    ensures Ordered(Advance(s, c, ops, t, true), ops)
  {
    var s' := Advance(s, c, ops, t, true);
    if s'.order != s.order {
      assert s.phases[t].Waiting?;
      assert s'.order == s.order + [t] && s'.phases == s.phases[t := Locked];
      assert forall i :: 0 <= i < |s.order| ==> s'.order[i] == s.order[i];
    } else {
      assert forall u :: u in s.phases && u != t ==> s'.phases[u] == s.phases[u];
      assert s'.phases[t].Waiting? ==> s.phases[t].Waiting?;
    }
  }

  lemma RollBackKeepsOrder(s: System, ops: map<Txn, Op>, t: Txn)
    requires Ordered(s, ops) && t in s.phases
    ensures Ordered(RollBack(s, t), ops)
  {
    assert forall i :: 0 <= i < |RollBack(s, t).order| ==> RollBack(s, t).order[i] == s.order[i];
  }

  lemma CommitExtends(s: System, c: int, ops: map<Txn, Op>, db: Db)
    requires Serializable(s, c, ops, db) && s.holder.Some? && s.phases[s.holder.value].Wrote?
    ensures Serializable(Advance(s, c, ops, s.holder.value, true), c, ops, db)
  {
    var t := s.holder.value;
    AdvanceKeepsOrder(s, c, ops, t);
    var s' := Advance(s, c, ops, t, true);
    var done, last := Committed(s), |s.order| - 1;
    assert s.order[..last] == done && s.order[last] == t && Committed(s') == s.order;
    var before := OpsOf(ops, done);
    assert OpsOf(ops, s.order) == before + [ops[t]];
    assert (before + [ops[t]])[..|before|] == before;
  }

  lemma HolderReads(s: System, c: int, ops: map<Txn, Op>, db: Db)
    requires Serializable(s, c, ops, db) && s.holder.Some?
    requires var phase := s.phases[s.holder.value]; phase.Locked? || phase.Located? || phase.HasMine?
    ensures Serializable(Advance(s, c, ops, s.holder.value, true), c, ops, db)
  {
    AdvanceKeepsOrder(s, c, ops, s.holder.value);
    var s' := Advance(s, c, ops, s.holder.value, true);
    assert Committed(s') == Committed(s) && s'.db == s.db;
    assert ViewCurrent(s', c, ops[s.holder.value], s'.phases[s.holder.value]);
  }

  lemma HolderWrites(s: System, c: int, ops: map<Txn, Op>, db: Db)
    requires Serializable(s, c, ops, db) && s.holder.Some? && s.phases[s.holder.value].HasBoth?
    ensures Serializable(Advance(s, c, ops, s.holder.value, true), c, ops, db)
  {
    var t := s.holder.value;
    AdvanceKeepsOrder(s, c, ops, t);
    WriteIsFaithful(s.db, c, ops[t], s.phases[t].guest, s.phases[t].theirs);
    var s' := Advance(s, c, ops, t, true);
    assert Committed(s') == Committed(s);
  }

  lemma OtherGoes(s: System, c: int, ops: map<Txn, Op>, db: Db, t: Txn)
    requires Serializable(s, c, ops, db) && t in ops && s.holder != Some(t)
    ensures Serializable(Advance(s, c, ops, t, true), c, ops, db)
  {
    AdvanceKeepsOrder(s, c, ops, t);
    var s' := Advance(s, c, ops, t, true);
    if s'.order != s.order {
      assert s'.order[..|s.order|] == s.order;
    }
  }

  lemma RollBackKeepsSerializable(s: System, c: int, ops: map<Txn, Op>, db: Db, t: Txn)
    requires Serializable(s, c, ops, db) && t in ops
    ensures Serializable(RollBack(s, t), c, ops, db)
  {
    RollBackKeepsOrder(s, ops, t);
    assert Committed(RollBack(s, t)) == Committed(s);
  }

  lemma StepKeepsSerializable(s: System, c: int, ops: map<Txn, Op>, db: Db, e: Event)
    requires Serializable(s, c, ops, db)
    ensures Serializable(Step(s, c, ops, e, true), c, ops, db)
  {
    if e.t in ops {
      if e.Abort? {
        RollBackKeepsSerializable(s, c, ops, db, e.t);
      } else if s.holder != Some(e.t) {
        OtherGoes(s, c, ops, db, e.t);
      } else {
        match s.phases[e.t]
        case HasBoth(_, _, _) => HolderWrites(s, c, ops, db);
        case Wrote(_) => CommitExtends(s, c, ops, db);
        case _ => HolderReads(s, c, ops, db);
      }
    }
  }

  /**
   For any set of requests and any schedule of their statements and rollbacks: the committed
   carts are those of the surviving requests run one after the other in the order they got
   the lock, and every product and variant keeps at most one line.
   */
  lemma {:induction false} EveryScheduleIsSerial(db: Db, c: int, ops: map<Txn, Op>, schedule: seq<Event>)
    requires Sound(db, c)
    ensures Serializable(Run(Start(db, ops), c, ops, schedule, true), c, ops, db)
  {
    if schedule == [] {
    } else {
      EveryScheduleIsSerial(db, c, ops, schedule[..|schedule| - 1]);
      StepKeepsSerializable(Run(Start(db, ops), c, ops, schedule[..|schedule| - 1], true), c, ops, db,
        schedule[|schedule| - 1]);
    }
  }

  // ---------------------------------------------------------------- no update is lost

  /** Without rollbacks, whoever got past waiting has its place in the order. */
  lemma {:induction false} EveryoneIsServed(db: Db, c: int, ops: map<Txn, Op>, schedule: seq<Event>, t: Txn)
    requires t in ops && forall e :: e in schedule ==> e.Go?
    ensures var s := Run(Start(db, ops), c, ops, schedule, true);
            t in s.phases && (s.phases[t].Waiting? || t in s.order)
  {
    if schedule != [] {
      EveryoneIsServed(db, c, ops, schedule[..|schedule| - 1], t);
      assert schedule[|schedule| - 1].Go?;
    }
  }

  function Quantities(ops: map<Txn, Op>, order: seq<Txn>): map<Txn, int> {
    map t | t in order && t in ops && ops[t].Add? :: ops[t].qty
  }

  lemma {:induction false} AddsAddUp(s: Shelf, ops: map<Txn, Op>, order: seq<Txn>, k: LineKey)
    requires forall i :: 0 <= i < |order| ==> order[i] in ops && ops[order[i]].Add? && ops[order[i]].k == k
    requires forall i, j :: 0 <= i < j < |order| ==> order[i] != order[j]
    ensures QtyOf(SerialRun(s, OpsOf(ops, order)).lines, k) == QtyOf(s.lines, k) + Sum(Quantities(ops, order))
  {
    if order == [] {
      assert Quantities(ops, order) == map[];
    } else {
      var last := |order| - 1;
      var t, rest := order[last], order[..last];
      AddsAddUp(s, ops, rest, k);
      var before, op := OpsOf(ops, rest), ops[t];
      assert (before + [op])[..|before|] == before;
      assert order == rest + [t];
      assert t !in rest;
      assert Quantities(ops, order) - {t} == Quantities(ops, rest);
      SumSplitsOff(Quantities(ops, order), t);
    }
  }

  ghost predicate AllFinished(s: System) {
    forall t :: t in s.phases ==> s.phases[t].Finished?
  }

  lemma NobodyHolds(s: System, c: int, ops: map<Txn, Op>)
    requires Exclusive(s, c, ops) && AllFinished(s)
    ensures s.holder.None?
  {}

  /** However concurrent additions of one product interleave, the final quantity has them all. */
  lemma NoAdditionIsLost(db: Db, c: int, ops: map<Txn, Op>, schedule: seq<Event>, k: LineKey)
    requires Sound(db, c) && forall t :: t in ops ==> ops[t].Add? && ops[t].k == k
    requires forall e :: e in schedule ==> e.Go?
    requires AllFinished(Run(Start(db, ops), c, ops, schedule, true))
    ensures var s := Run(Start(db, ops), c, ops, schedule, true);
            QtyOf(Lines(s.db.items, c), k) == QtyOf(Lines(db.items, c), k) + Sum(map t | t in ops :: ops[t].qty)
  {
    var s := Run(Start(db, ops), c, ops, schedule, true);
    EveryScheduleIsSerial(db, c, ops, schedule);
    NobodyHolds(s, c, ops);
    AddsAddUp(ShelfOf(db, c), ops, s.order, k);
    forall t | t in ops ensures t in s.order {
      EveryoneIsServed(db, c, ops, schedule, t);
    }
    assert Quantities(ops, s.order) == map t | t in ops :: ops[t].qty;
  }

  function Times(t: Txn, n: nat): seq<Event> {
    if n == 0 then [] else Times(t, n - 1) + [Go(t)]
  }

  lemma {:induction false} TimesLength(t: Txn, n: nat)
    ensures |Times(t, n)| == n
  {
    if n > 0 { TimesLength(t, n - 1); }
  }

  /** A transaction's next `n` statements, without the lock. */
  ghost function Steps(s: System, c: int, ops: map<Txn, Op>, t: Txn, n: nat): System {
    if n == 0 then s else Step(Steps(s, c, ops, t, n - 1), c, ops, Go(t), false)
  }

  lemma {:induction false} RunTimes(s: System, c: int, ops: map<Txn, Op>, done: seq<Event>, t: Txn, n: nat)
    ensures Run(s, c, ops, done + Times(t, n), false) == Steps(Run(s, c, ops, done, false), c, ops, t, n)
  {
    if n == 0 {
      assert done + Times(t, 0) == done;
    } else {
      RunTimes(s, c, ops, done, t, n - 1);
      var before := done + Times(t, n - 1);
      assert done + Times(t, n) == before + [Go(t)];
      assert (before + [Go(t)])[..|before|] == before;
    }
  }

  /** One transaction gets as far as holding the rows it read. */
  lemma ReadsTheRow(s: System, c: int, ops: map<Txn, Op>, t: Txn)
    requires t in ops && ops[t].Add? && t in s.phases && s.phases[t].Waiting?
    ensures Steps(s, c, ops, t, 4) ==
            System(s.db, s.phases[t := HasBoth(None, CartRows(s.db.items, c), map[])], Some(t), s.order + [t])
  {
    assert Steps(s, c, ops, t, 0) == s;
    var s1, s2, s3 := Steps(s, c, ops, t, 1), Steps(s, c, ops, t, 2), Steps(s, c, ops, t, 3);
    var order := s.order + [t];
    assert s1 == Step(s, c, ops, Go(t), false) == System(s.db, s.phases[t := Locked], Some(t), order);
    assert s2 == System(s.db, s.phases[t := Located(None)], Some(t), order);
    assert s3 == System(s.db, s.phases[t := HasMine(None, CartRows(s.db.items, c))], Some(t), order);
  }

  /** It then writes and commits the value it computed, whatever has been committed since. */
  lemma WritesItsValue(s: System, c: int, ops: map<Txn, Op>, t: Txn, mine: Items, put: Items)
    requires t in ops && t in s.phases && s.phases[t] == HasBoth(None, mine, map[])
    requires ops[t].Add? && RowsFor(mine, c, ops[t].k) != {}
    requires ChangesOf(ops[t], c, None, mine, map[], s.db.nextId) == Changes(put, {}, {})
    requires s.db.items.Keys == put.Keys
    ensures Steps(s, c, ops, t, 2) == System(s.db.(items := put), s.phases[t := Finished], None, s.order)
  {
    assert Steps(s, c, ops, t, 1) == Step(s, c, ops, Go(t), false);
    assert (s.db.items - {}) + put == put;
    assert s.db.guests - {} == s.db.guests;
    assert s.phases[t := Wrote(Changes(put, {}, {}))][t := Finished] == s.phases[t := Finished];
  }

  lemma OneMore(c: int, k: LineKey, nextId: int)
    ensures ChangesOf(Add(k, 1), c, None, OneLine(c, k, 1), map[], nextId) == Changes(OneLine(c, k, 2), {}, {})
    ensures RowsFor(OneLine(c, k, 1), c, k) != {} && CartRows(OneLine(c, k, 1), c) == OneLine(c, k, 1)
  {
    assert 1 in RowsFor(OneLine(c, k, 1), c, k);
    assert ChangesOf(Add(k, 1), c, None, OneLine(c, k, 1), map[], nextId).put == OneLine(c, k, 2);
  }

  function OneLine(c: int, k: LineKey, qty: int): Items {
    map[1 := CartItem(c, k, qty)]
  }

  ghost predicate EndsAtTwo(c: int, k: LineKey, ops: map<Txn, Op>, schedule: seq<Event>) {
    var s := Run(Start(Db(OneLine(c, k, 1), map[], 2), ops), c, ops, schedule, false);
    AllFinished(s) && s.db.items == OneLine(c, k, 2)
  }

  /** The same machine without the lock: two additions of one, and a line of one ends at two. */
  lemma WithoutTheLockAnAdditionIsLost(c: int, k: LineKey)
    ensures exists schedule :: EndsAtTwo(c, k, map[1 := Add(k, 1), 2 := Add(k, 1)], schedule)
  {
    var items, raised := OneLine(c, k, 1), OneLine(c, k, 2);
    var ops := map[1 := Add(k, 1), 2 := Add(k, 1)];
    OneMore(c, k, 2);
    var s0 := Start(Db(items, map[], 2), ops);
    ReadsTheRow(s0, c, ops, 1);
    var s1 := Steps(s0, c, ops, 1, 4);
    ReadsTheRow(s1, c, ops, 2);
    var s2 := Steps(s1, c, ops, 2, 4);
    WritesItsValue(s2, c, ops, 1, items, raised);
    var s3 := Steps(s2, c, ops, 1, 2);
    WritesItsValue(s3, c, ops, 2, items, raised);
    InTurn(s0, c, ops);
    assert EndsAtTwo(c, k, ops, BothReadFirst());
  }

  /** Both read before either writes. */
  function BothReadFirst(): seq<Event> {
    [] + Times(1, 4) + Times(2, 4) + Times(1, 2) + Times(2, 2)
  }

  lemma InTurn(s: System, c: int, ops: map<Txn, Op>)
    ensures Run(s, c, ops, BothReadFirst(), false) ==
            Steps(Steps(Steps(Steps(s, c, ops, 1, 4), c, ops, 2, 4), c, ops, 1, 2), c, ops, 2, 2)
  {
    RunTimes(s, c, ops, [], 1, 4);
    RunTimes(s, c, ops, [] + Times(1, 4), 2, 4);
    RunTimes(s, c, ops, [] + Times(1, 4) + Times(2, 4), 1, 2);
    RunTimes(s, c, ops, [] + Times(1, 4) + Times(2, 4) + Times(1, 2), 2, 2);
  }

  // ---------------------------------------------------------------- requests end

  /** How many statements a request has behind it. */
  function Stage(phase: Phase): nat {
    match phase
    case Waiting => 0
    case Locked => 1
    case Located(_) => 2
    case HasMine(_, _) => 3
    case HasBoth(_, _, _) => 4
    case Wrote(_) => 5
    case Finished => 6
  }

  /**
   The holder of the lock, and whoever asks for a free one, gets a statement further; only the commit
   frees the lock.
   */
  lemma HolderAdvances(s: System, c: int, ops: map<Txn, Op>, t: Txn)
    requires t in s.phases && t in ops && !s.phases[t].Finished?
    requires s.holder == Some(t) || (s.holder.None? && s.phases[t].Waiting?)
    requires s.holder == Some(t) ==> !s.phases[t].Waiting?
    ensures var s' := Step(s, c, ops, Go(t), true);
            && t in s'.phases && s'.phases == s.phases[t := s'.phases[t]]
            && Stage(s'.phases[t]) == Stage(s.phases[t]) + 1
            && s'.holder == (if s'.phases[t].Finished? then None else Some(t))
            && s'.order == (if s.phases[t].Waiting? then s.order + [t] else s.order)
            && (!s'.phases[t].Finished? ==> s'.db.items == s.db.items && s'.db.guests == s.db.guests)
  {
  }

  lemma WaitsAtStart(phase: Phase)
    ensures (phase.Waiting? <==> Stage(phase) == 0) && (phase.Finished? <==> Stage(phase) == 6)
  {
  }

  lemma OneMoreTime(s: System, c: int, ops: map<Txn, Op>, t: Txn, n: nat)
    requires n > 0
    ensures Run(s, c, ops, Times(t, n), true) == Step(Run(s, c, ops, Times(t, n - 1), true), c, ops, Go(t), true)
  {
    TimesLength(t, n - 1);
    assert Times(t, n)[..n - 1] == Times(t, n - 1);
  }

  /** Nothing but the request itself has moved: it is `n` statements on, and holds the lock unless it is done. */
  ghost predicate Advanced(s: System, t: Txn, n: nat, now: System) {
    && t in now.phases && now.phases == s.phases[t := now.phases[t]] && Stage(now.phases[t]) == n
    && now.holder == (if n == 0 || n == 6 then None else Some(t))
    && now.order == (if n == 0 then s.order else s.order + [t])
  }

  lemma AdvancesOnce(s: System, c: int, ops: map<Txn, Op>, t: Txn, n: nat, before: System)
    requires t in s.phases && t in ops && n < 6 && Advanced(s, t, n, before)
    ensures Advanced(s, t, n + 1, Step(before, c, ops, Go(t), true))
  {
    WaitsAtStart(before.phases[t]);
    HolderAdvances(before, c, ops, t);
  }

  lemma {:induction false} RequestAdvances(s: System, c: int, ops: map<Txn, Op>, t: Txn, n: nat)
    requires t in s.phases && t in ops && s.holder.None? && s.phases[t].Waiting? && n <= 6
    ensures Advanced(s, t, n, Run(s, c, ops, Times(t, n), true))
  {
    if n > 0 {
      RequestAdvances(s, c, ops, t, n - 1);
      OneMoreTime(s, c, ops, t, n);
      AdvancesOnce(s, c, ops, t, n - 1, Run(s, c, ops, Times(t, n - 1), true));
    } else {
      assert s.phases[t := s.phases[t]] == s.phases;
    }
  }

  /** With the lock free, six statements of a request run it to its end, and it has done what it asks for. */
  lemma RequestDoesItsWork(db: Db, c: int, ops: map<Txn, Op>, t: Txn)
    requires Sound(db, c) && t in ops
    ensures var after := Run(Start(db, ops), c, ops, Times(t, 6), true);
            && after.phases == Start(db, ops).phases[t := Finished] && after.holder.None?
            && ShelfOf(after.db, c) == Serial(ShelfOf(db, c), ops[t])
  {
    var after := Run(Start(db, ops), c, ops, Times(t, 6), true);
    RequestAdvances(Start(db, ops), c, ops, t, 6);
    FullStage(after.phases[t]);
    EveryScheduleIsSerial(db, c, ops, Times(t, 6));
    OneInOrder(ShelfOf(db, c), ops, t);
    assert after.order == [t];
  }

  lemma FullStage(phase: Phase)
    requires Stage(phase) == 6
    ensures phase == Finished
  {
  }

  lemma OneInOrder(s: Shelf, ops: map<Txn, Op>, t: Txn)
    requires t in ops
    ensures SerialRun(s, OpsOf(ops, [t])) == Serial(s, ops[t])
  {
    assert [t][..0] == [] && [ops[t]][..0] == [];
    assert OpsOf(ops, [t]) == [ops[t]];
  }
}
