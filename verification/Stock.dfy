/**
 Stock rows changed by conditional updates. An update waits for whoever has changed the row
 and not yet committed, then tests and changes the newest value; a caller that is told
 False by a decrement rolls back everything it did.
 */
module Stock {
  import opened Outcomes

  /** The row that is the stock authority: the variant's when there is one, else the product's. */
  datatype Row = ProductRow(id: int) | VariantRow(id: int)

  type Quantities = map<Row, int>

  datatype Call = Decrement(row: Row, qty: int) | Increment(row: Row, qty: int)

  /** The row a caller's product and variant ids name. */
  function RowOf(productId: int, variantId: Option<int>): Row {
    match variantId
    case None => ProductRow(productId)
    case Some(v) => VariantRow(v)
  }

  predicate Affects(rows: Quantities, call: Call) {
    call.row in rows && (call.Decrement? ==> rows[call.row] >= call.qty)
  }

  function Delta(call: Call, row: Row): int {
    if call.row != row then 0 else if call.Decrement? then -call.qty else call.qty
  }

  function Execute(rows: Quantities, call: Call): Quantities {
    if Affects(rows, call) then rows[call.row := rows[call.row] + Delta(call, call.row)] else rows
  }

  class StockTable {
    var rows: Quantities

    method DecrementStock(productId: int, qty: int, variantId: Option<int>) returns (ok: bool)
      modifies this
      ensures var row := if variantId.Some? then VariantRow(variantId.value) else ProductRow(productId);
              && ok == (row in old(rows) && old(rows)[row] >= qty)
              && rows == if ok then old(rows)[row := old(rows)[row] - qty] else old(rows)
      ensures var call := Decrement(RowOf(productId, variantId), qty);
              ok == Affects(old(rows), call) && rows == Execute(old(rows), call)
    {
      match variantId {
        case Some(v) =>
          ok := VariantRow(v) in rows && rows[VariantRow(v)] >= qty;
          if ok { rows := rows[VariantRow(v) := rows[VariantRow(v)] - qty]; }
        case None =>
          ok := ProductRow(productId) in rows && rows[ProductRow(productId)] >= qty;
          if ok { rows := rows[ProductRow(productId) := rows[ProductRow(productId)] - qty]; }
      }
    }

    /** Tells whether the stock was at zero; with a positive quantity that is a return to stock. */
    method IncrementStock(productId: int, qty: int, variantId: Option<int>) returns (wasEmpty: bool)
      modifies this
      ensures var row := if variantId.Some? then VariantRow(variantId.value) else ProductRow(productId);
              && wasEmpty == (row in old(rows) && old(rows)[row] == 0)
              && rows == (if row in old(rows) then old(rows)[row := old(rows)[row] + qty] else old(rows))
              && (wasEmpty && qty > 0 <==> row in old(rows) && old(rows)[row] == 0 && rows[row] > 0)
      ensures rows == Execute(old(rows), Increment(RowOf(productId, variantId), qty))
    {
      match variantId {
        case Some(v) =>
          var before := if VariantRow(v) in rows then Some(rows[VariantRow(v)]) else None;
          if before.Some? { rows := rows[VariantRow(v) := before.value + qty]; }
          wasEmpty := before == Some(0);
        case None =>
          var before := if ProductRow(productId) in rows then Some(rows[ProductRow(productId)]) else None;
          if before.Some? { rows := rows[ProductRow(productId) := before.value + qty]; }
          wasEmpty := before == Some(0);
      }
    }
  }

  // ---------------------------------------------------------------- many callers

  type Txn = int

  datatype State =
    | Active(made: nat, pending: Quantities)
    | Committed
    | RolledBack

  /** Uncommitted new values are visible to their own transaction only. */
  datatype System = System(rows: Quantities, states: map<Txn, State>, committed: seq<Txn>)

  datatype Event = Go(t: Txn) | Abort(t: Txn)

  type Calls = map<Txn, seq<Call>>

  predicate LockedByOther(s: System, t: Txn, row: Row) {
    exists u :: u in s.states && u != t && s.states[u].Active? && row in s.states[u].pending
  }

  /** One call of a transaction, or its commit once it has made them all. */
  function Advance(s: System, calls: Calls, t: Txn): System
    requires t in s.states && t in calls && s.states[t].Active? && s.states[t].made <= |calls[t]|
  {
    var Active(made, pending) := s.states[t];
    if made == |calls[t]| then
      System(s.rows + pending, s.states[t := Committed], s.committed + [t])
    else
      var call := calls[t][made];
      var view := s.rows + pending;
      if LockedByOther(s, t, call.row) then s
      else if Affects(view, call) then
        s.(states := s.states[t := Active(made + 1, pending[call.row := Execute(view, call)[call.row]])])
      else if call.Decrement? then s.(states := s.states[t := RolledBack])
      else s.(states := s.states[t := Active(made + 1, pending)])
  }

  predicate Ready(s: System, calls: Calls, t: Txn) {
    t in s.states && t in calls && s.states[t].Active? && s.states[t].made <= |calls[t]|
  }

  function Step(s: System, calls: Calls, e: Event): System {
    if !Ready(s, calls, e.t) then s
    else if e.Go? then Advance(s, calls, e.t)
    else s.(states := s.states[e.t := RolledBack])
  }

  function Run(s: System, calls: Calls, schedule: seq<Event>): System {
    if schedule == [] then s
    else Step(Run(s, calls, schedule[..|schedule| - 1]), calls, schedule[|schedule| - 1])
  }

  function Start(rows: Quantities, calls: Calls): System {
    System(rows, map t | t in calls :: Active(0, map[]), [])
  }

  // ---------------------------------------------------------------- what is kept

  function Net(made: seq<Call>, row: Row): int {
    if made == [] then 0 else Net(made[..|made| - 1], row) + Delta(made[|made| - 1], row)
  }

  function NetOfAll(calls: Calls, committed: seq<Txn>, row: Row): int
    requires forall i :: 0 <= i < |committed| ==> committed[i] in calls
  {
    if committed == [] then 0
    else NetOfAll(calls, committed[..|committed| - 1], row) + Net(calls[committed[|committed| - 1]], row)
  }

  /**
   A transaction's own values are the committed ones plus what it has done so far, and no one else
   has changed its rows.
   */
  ghost predicate Accurate(s: System, calls: Calls, t: Txn)
    requires t in s.states && t in calls
  {
    s.states[t].Active? ==>
      var Active(made, pending) := s.states[t];
      && made <= |calls[t]| && pending.Keys <= s.rows.Keys
      && (forall row :: row in s.rows ==> (s.rows + pending)[row] == s.rows[row] + Net(calls[t][..made], row))
      && (forall row :: row in pending ==> pending[row] >= 0)
  }

  ghost predicate Disjoint(s: System, t: Txn, u: Txn)
    requires t in s.states && u in s.states
  {
    t != u && s.states[t].Active? && s.states[u].Active? ==> s.states[t].pending.Keys !! s.states[u].pending.Keys
  }

  /** The committed list has every committed transaction, once. */
  ghost predicate Recorded(s: System) {
    && (forall i :: 0 <= i < |s.committed| ==> s.committed[i] in s.states && s.states[s.committed[i]].Committed?)
    && (forall t :: t in s.states && s.states[t].Committed? ==>
         exists i :: 0 <= i < |s.committed| && s.committed[i] == t)
    && forall i, j :: 0 <= i < j < |s.committed| ==> s.committed[i] != s.committed[j]
  }

  ghost predicate Kept(s: System, rows: Quantities, calls: Calls) {
    && s.states.Keys == calls.Keys && s.rows.Keys == rows.Keys && Recorded(s)
    && (forall t :: t in s.states ==> Accurate(s, calls, t))
    && (forall t, u :: t in s.states && u in s.states ==> Disjoint(s, t, u))
    && (forall i :: 0 <= i < |s.committed| ==> s.committed[i] in calls)
    && (forall row :: row in rows ==> s.rows[row] >= 0 && s.rows[row] == rows[row] + NetOfAll(calls, s.committed, row))
  }

  /** Returns put back a quantity, they do not take one away. */
  ghost predicate ReturnsAreReturns(calls: Calls) {
    forall t, i :: t in calls && 0 <= i < |calls[t]| && calls[t][i].Increment? ==> calls[t][i].qty >= 0
  }

  lemma NetGrows(calls: seq<Call>, made: nat, row: Row)
    requires made < |calls|
    ensures Net(calls[..made + 1], row) == Net(calls[..made], row) + Delta(calls[made], row)
  {
    assert calls[..made + 1][..made] == calls[..made];
  }

  lemma StepKeepsRecorded(s: System, calls: Calls, e: Event)
    requires Recorded(s)
    ensures Recorded(Step(s, calls, e))
  {
    var s' := Step(s, calls, e);
    if s'.committed != s.committed {
      assert s'.committed == s.committed + [e.t];
      assert s'.committed[|s.committed|] == e.t;
      assert forall i :: 0 <= i < |s.committed| ==> s'.committed[i] == s.committed[i];
    } else {
      forall t | t in s'.states && s'.states[t].Committed?
        ensures exists i :: 0 <= i < |s.committed| && s.committed[i] == t
      {
        assert s.states[t].Committed?;
      }
    }
  }

  lemma OwnCallStaysAccurate(s: System, calls: Calls, t: Txn)
    requires Ready(s, calls, t) && s.states[t].made < |calls[t]| && Accurate(s, calls, t) && ReturnsAreReturns(calls)
    requires forall row :: row in s.rows ==> s.rows[row] >= 0
    ensures Accurate(Advance(s, calls, t), calls, t)
  {
    var call := calls[t][s.states[t].made];
    forall row
      ensures Net(calls[t][..s.states[t].made + 1], row) == Net(calls[t][..s.states[t].made], row) + Delta(call, row)
    {
      NetGrows(calls[t], s.states[t].made, row);
    }
  }

  lemma CallStaysDisjoint(s: System, calls: Calls, t: Txn, u: Txn)
    requires Ready(s, calls, t) && s.states[t].made < |calls[t]| && u in s.states && u != t
    requires Disjoint(s, t, u)
    ensures Disjoint(Advance(s, calls, t), t, u) && Disjoint(Advance(s, calls, t), u, t)
  {
    var row := calls[t][s.states[t].made].row;
    assert s.states[u].Active? && row in s.states[u].pending ==> LockedByOther(s, t, row);
  }

  lemma CallKeeps(s: System, rows: Quantities, calls: Calls, t: Txn)
    requires Kept(s, rows, calls) && ReturnsAreReturns(calls) && Ready(s, calls, t) && s.states[t].made < |calls[t]|
    ensures Kept(Advance(s, calls, t), rows, calls)
  {
    StepKeepsRecorded(s, calls, Go(t));
    var s' := Advance(s, calls, t);
    OwnCallStaysAccurate(s, calls, t);
    forall u | u in s'.states && u != t ensures Accurate(s', calls, u) {
      assert Accurate(s, calls, u);
    }
    forall u, v | u in s'.states && v in s'.states ensures Disjoint(s', u, v) {
      assert Disjoint(s, u, v) && Disjoint(s, v, u);
      if u == t && v != t {
        CallStaysDisjoint(s, calls, t, v);
      } else if v == t && u != t {
        CallStaysDisjoint(s, calls, t, u);
      }
    }
  }

  lemma CommitKeeps(s: System, rows: Quantities, calls: Calls, t: Txn)
    requires Kept(s, rows, calls) && Ready(s, calls, t) && s.states[t].made == |calls[t]|
    ensures Kept(Advance(s, calls, t), rows, calls)
  {
    StepKeepsRecorded(s, calls, Go(t));
    var s', pending := Advance(s, calls, t), s.states[t].pending;
    assert Accurate(s, calls, t);
    assert calls[t][..|calls[t]|] == calls[t];
    assert s'.committed[..|s.committed|] == s.committed;
    forall u | u in s'.states ensures Accurate(s', calls, u) {
      assert Accurate(s, calls, u) && Disjoint(s, t, u);
    }
    forall u, v | u in s'.states && v in s'.states ensures Disjoint(s', u, v) {
      assert Disjoint(s, u, v);
    }
  }

  lemma RollBackKeeps(s: System, rows: Quantities, calls: Calls, t: Txn)
    requires Kept(s, rows, calls) && Ready(s, calls, t)
    ensures Kept(s.(states := s.states[t := RolledBack]), rows, calls)
  {
    StepKeepsRecorded(s, calls, Abort(t));
    var s' := s.(states := s.states[t := RolledBack]);
    forall u | u in s'.states ensures Accurate(s', calls, u) {
      assert Accurate(s, calls, u);
    }
    forall u, v | u in s'.states && v in s'.states ensures Disjoint(s', u, v) {
      assert Disjoint(s, u, v);
    }
  }

  /**
   Over any interleaving of any number of callers: no stock goes negative, and each stock is
   the initial one plus exactly what the committed callers asked for.
   */
  lemma {:induction false} StockIsConserved(rows: Quantities, calls: Calls, schedule: seq<Event>)
    requires (forall row :: row in rows ==> rows[row] >= 0) && ReturnsAreReturns(calls)
    ensures Kept(Run(Start(rows, calls), calls, schedule), rows, calls)
  {
    if schedule == [] {
      forall t | t in calls ensures Accurate(Start(rows, calls), calls, t) {}
    } else {
      var s, e := Run(Start(rows, calls), calls, schedule[..|schedule| - 1]), schedule[|schedule| - 1];
      StockIsConserved(rows, calls, schedule[..|schedule| - 1]);
      if Ready(s, calls, e.t) {
        if e.Abort? {
          RollBackKeeps(s, rows, calls, e.t);
        } else if s.states[e.t].made < |calls[e.t]| {
          CallKeeps(s, rows, calls, e.t);
        } else {
          CommitKeeps(s, rows, calls, e.t);
        }
      }
    }
  }

  // ---------------------------------------------------------------- calls do what they ask, and end

  /** What a caller's next step does, case by case. */
  lemma NextStep(s: System, calls: Calls, t: Txn)
    requires Ready(s, calls, t)
    ensures var s', made, pending := Step(s, calls, Go(t)), s.states[t].made, s.states[t].pending;
            if made == |calls[t]| then
              && s'.states == s.states[t := Committed] && s'.committed == s.committed + [t]
              && forall row :: row in s.rows || row in pending ==>
                   row in s'.rows && s'.rows[row] == if row in pending then pending[row] else s.rows[row]
            else
              var call := calls[t][made];
              var there := call.row in s.rows || call.row in pending;
              var qty := if call.row in pending then pending[call.row] else if there then s.rows[call.row] else 0;
              && s'.rows == s.rows && s'.committed == s.committed
              && var held := exists u ::
                   u in s.states && u != t && s.states[u].Active? && call.row in s.states[u].pending;
                 if held then s' == s
                 else
                   s'.states == s.states[t :=
                     match call
                     case Decrement(row, n) =>
                       if there && qty >= n then Active(made + 1, pending[row := qty - n]) else RolledBack
                     case Increment(row, n) =>
                       Active(made + 1, if there then pending[row := qty + n] else pending)]
  {
  }

  /** The calls one after the other on one table, up to the first decrement that does not find enough. */
  function RunAlone(rows: Quantities, calls: seq<Call>): Option<Quantities> {
    if calls == [] then Some(rows)
    else
      match RunAlone(rows, calls[..|calls| - 1])
      case None => None
      case Some(before) =>
        var call := calls[|calls| - 1];
        if call.row !in before then if call.Decrement? then None else Some(before)
        else
          var qty := before[call.row];
          if call.Increment? then Some(before[call.row := qty + call.qty])
          else if qty < call.qty then None
          else Some(before[call.row := qty - call.qty])
  }

  function Times(t: Txn, n: nat): seq<Event> {
    if n == 0 then [] else Times(t, n - 1) + [Go(t)]
  }

  ghost predicate OnlyCaller(s: System, calls: Calls, t: Txn) {
    && t in s.states && t in calls && s.states[t] == Active(0, map[])
    && forall u :: u in s.states && u != t ==> !s.states[u].Active?
  }

  /** The state of a caller that has made `n` calls with nobody else about. */
  ghost predicate AloneAfter(s: System, calls: Calls, t: Txn, n: nat, now: System)
    requires t in calls && n <= |calls[t]|
  {
    && now.rows == s.rows && now.committed == s.committed && t in now.states
    && now.states == s.states[t := now.states[t]] && now.states[t].Active? && now.states[t].made == n
    && RunAlone(s.rows, calls[t][..n]) == Some(s.rows + now.states[t].pending)
  }

  lemma AloneStep(s: System, calls: Calls, t: Txn, n: nat, now: System)
    requires OnlyCaller(s, calls, t) && n < |calls[t]| && RunAlone(s.rows, calls[t][..n + 1]).Some?
    requires AloneAfter(s, calls, t, n, now)
    ensures AloneAfter(s, calls, t, n + 1, Step(now, calls, Go(t)))
  {
    assert calls[t][..n + 1][..n] == calls[t][..n];
    assert !LockedByOther(now, t, calls[t][n].row);
    var view, call := s.rows + now.states[t].pending, calls[t][n];
    var after := Step(now, calls, Go(t));
    assert after.states == s.states[t := after.states[t]];
    if Affects(view, call) {
      var qty := Execute(view, call)[call.row];
      assert s.rows + now.states[t].pending[call.row := qty] == view[call.row := qty];
    }
  }

  lemma {:induction false} AloneSoFar(s: System, calls: Calls, t: Txn, n: nat)
    requires OnlyCaller(s, calls, t) && n <= |calls[t]| && RunAlone(s.rows, calls[t]).Some?
    ensures AloneAfter(s, calls, t, n, Run(s, calls, Times(t, n)))
  {
    if n > 0 {
      AloneSoFar(s, calls, t, n - 1);
      TimesLength(t, n - 1);
      assert Times(t, n)[..n - 1] == Times(t, n - 1);
      EveryPrefixRuns(s.rows, calls[t], n);
      AloneStep(s, calls, t, n - 1, Run(s, calls, Times(t, n - 1)));
    } else {
      assert s.rows + map[] == s.rows && s.states[t := s.states[t]] == s.states;
    }
  }

  lemma {:induction false} EveryPrefixRuns(rows: Quantities, calls: seq<Call>, n: nat)
    requires n <= |calls| && RunAlone(rows, calls).Some?
    ensures RunAlone(rows, calls[..n]).Some?
    decreases |calls| - n
  {
    if n < |calls| {
      EveryPrefixRuns(rows, calls, n + 1);
      assert calls[..n + 1][..n] == calls[..n];
    } else {
      assert calls[..n] == calls;
    }
  }

  lemma {:induction false} TimesLength(t: Txn, n: nat)
    ensures |Times(t, n)| == n
  {
    if n > 0 { TimesLength(t, n - 1); }
  }

  /** A caller with nobody else about, whose decrements all find enough, commits exactly its calls in order. */
  lemma AloneCommits(s: System, calls: Calls, t: Txn)
    requires OnlyCaller(s, calls, t) && RunAlone(s.rows, calls[t]).Some?
    ensures var after := Run(s, calls, Times(t, |calls[t]| + 1));
            && after.rows == RunAlone(s.rows, calls[t]).value
            && after.states == s.states[t := Committed] && after.committed == s.committed + [t]
  {
    var n := |calls[t]|;
    assert calls[t][..n] == calls[t];
    AloneSoFar(s, calls, t, n);
    TimesLength(t, n);
    assert Times(t, n + 1)[..n] == Times(t, n);
    var before := Run(s, calls, Times(t, n));
    assert before.states[t := Committed] == s.states[t := Committed];
  }
}
