/**
 Concurrent moves. A move reads the node, the new parent and the subtree, checks, and writes
 at commit; it takes no lock, so other moves may have committed in between. Only columns
 whose value differs from the one read are written, and they are written as absolute values.
 */
module CategoryRaces {
  import opened Outcomes
  import opened CategoryTree

  datatype MoveRequest = MoveRequest(id: CategoryId, parentId: Option<CategoryId>)

  /** A column keeps its current value when the move did not change what it had read. */
  function Written<T(==)>(read: T, computed: T, current: T): T {
    if computed == read then current else computed
  }

  function WrittenRow(read: Category, computed: Category, current: Category): Category {
    current.(
      path := Written(read.path, computed.path, current.path),
      depth := Written(read.depth, computed.depth, current.depth),
      parentId := Written(read.parentId, computed.parentId, current.parentId))
  }

  /** The committed table after the writes of a move that was computed from what it had `seen`. */
  function LateMove(seen: Table, now: Table, move: MoveRequest): Table
    requires MoveResult(seen, move.id, move.parentId).Ok?
  {
    var moved := Moved(seen, move.id, move.parentId);
    map m | m in now :: if m in seen then WrittenRow(seen[m], moved[m], now[m]) else now[m]
  }

  // ---------------------------------------------------------------- one late write

  /** Asking for the parent the node has already writes nothing. */
  lemma SameParentWritesNothing(seen: Table, now: Table, move: MoveRequest)
    requires Agrees(seen) && MoveResult(seen, move.id, move.parentId).Ok?
    requires seen[move.id].parentId == move.parentId
    ensures LateMove(seen, now, move) == now
  {
    var moved := Moved(seen, move.id, move.parentId);
    ChainLinks(seen, move.id);
    assert Prefix(seen, move.parentId) + [move.id] == seen[move.id].path;
    forall m | m in seen ensures moved[m] == seen[m] {
      assert RowAgrees(seen, m);
      if move.id in seen[m].path {
        MemberPathExtendsNodePath(seen, move.id, m);
      }
    }
    forall m | m in now ensures LateMove(seen, now, move)[m] == now[m] {}
  }

  lemma LateLinks(seen: Table, now: Table, move: MoveRequest)
    requires Agrees(seen) && MoveResult(seen, move.id, move.parentId).Ok? && seen.Keys == now.Keys
    requires seen[move.id].parentId != move.parentId
    ensures ParentLinks(LateMove(seen, now, move)) == ParentLinks(now)[move.id := move.parentId]
  {
    var late, moved := LateMove(seen, now, move), Moved(seen, move.id, move.parentId);
    assert RowAgrees(seen, move.id);
    forall m | m in now
      ensures late[m].parentId == if m == move.id then move.parentId else now[m].parentId
    {
      assert moved[m].parentId == if m == move.id then move.parentId else seen[m].parentId;
    }
  }

  lemma SameTable(a: Table, b: Table, links: Table)
    requires Agrees(a) && Agrees(b) && ParentLinks(a) == ParentLinks(b)
    requires a.Keys == links.Keys && b.Keys == links.Keys
    requires forall m :: m in links ==> a[m].position == links[m].position && a[m].isActive == links[m].isActive
    requires forall m :: m in links ==> b[m].position == links[m].position && b[m].isActive == links[m].isActive
    ensures a == b
  {
    forall m | m in a ensures a[m] == b[m] {
      LinksDeterminePaths(a, b, m);
      assert ParentLinks(a)[m] == ParentLinks(b)[m];
    }
  }

  /** An agreeing late move has done exactly what the same move does on the current table. */
  lemma AgreeingLateMoveIsSerial(seen: Table, now: Table, move: MoveRequest)
    requires Agrees(seen) && Agrees(now) && seen.Keys == now.Keys
    requires MoveResult(seen, move.id, move.parentId).Ok? && seen[move.id].parentId != move.parentId
    ensures Agrees(LateMove(seen, now, move)) <==>
              MoveResult(now, move.id, move.parentId) == Ok(LateMove(seen, now, move))
  {
    var late := LateMove(seen, now, move);
    LateLinks(seen, now, move);
    if MoveResult(now, move.id, move.parentId).Ok? {
      MoveKeepsAgreement(now, move.id, move.parentId);
      if Agrees(late) {
        SameTable(late, Moved(now, move.id, move.parentId), now);
      }
    } else {
      RefusedMoveHasNoAgreeingTable(now, move.id, move.parentId.value, late);
    }
  }

  /** The path names the parent. */
  lemma ParentFromPath(t: Table, id: CategoryId)
    requires Agrees(t) && id in t
    ensures var path := t[id].path;
            && path != [] && path[|path| - 1] == id && t[id].depth == |path| - 1
            && t[id].parentId == (if |path| == 1 then None else Some(path[|path| - 2]))
  {
    assert RowAgrees(t, id);
    var path := t[id].path;
    if |path| > 1 {
      assert LinkAt(t, path, |path| - 1);
    }
  }

  // ---------------------------------------------------------------- what may have changed in between

  /** The row is still in the subtree, and hangs there as it did. */
  ghost predicate SameTail(seen: Table, now: Table, id: CategoryId, m: CategoryId)
    requires id in seen && m in seen && id in now && m in now
  {
    id in now[m].path && From(now[m].path, |now[id].path|) == From(seen[m].path, |seen[id].path|)
  }

  /**
   What a caller could check before writing: the new parent's path is as it was read; every row
   read as part of the subtree is still in it with the same tail; no row has come into the
   subtree, unless the node hangs from the new parent already; and if the move read no change
   of depth, so that no depth is written, the node's depth is as it was read.
   */
  ghost predicate Fits(seen: Table, now: Table, move: MoveRequest)
    requires seen.Keys == now.Keys && MoveResult(seen, move.id, move.parentId).Ok?
  {
    var id, parentId := move.id, move.parentId;
    && Prefix(now, parentId) == Prefix(seen, parentId)
    && (forall m {:trigger SameTail(seen, now, id, m)} ::
          m in seen && id in seen[m].path ==> SameTail(seen, now, id, m))
    && (now[id].parentId == parentId || forall m :: m in now && id in now[m].path ==> id in seen[m].path)
    && (|Prefix(seen, parentId)| + 1 == |seen[id].path| ==> |now[id].path| == |seen[id].path|)
  }

  lemma CancelSuffix<T>(a: seq<T>, b: seq<T>, c: seq<T>)
    ensures a + c == b + c <==> a == b
  {
    if a + c == b + c {
      assert |a| == |b|;
      assert a == (a + c)[..|a|] && b == (b + c)[..|b|];
    }
  }

  /** The path the move computes for a row of its subtree differs from the one it read. */
  lemma ParentChangeChangesPaths(seen: Table, move: MoveRequest, m: CategoryId)
    requires Agrees(seen) && MoveResult(seen, move.id, move.parentId).Ok? && seen[move.id].parentId != move.parentId
    requires m in seen && move.id in seen[m].path
    ensures var head := Prefix(seen, move.parentId) + [move.id];
            && seen[m].path == seen[move.id].path + From(seen[m].path, |seen[move.id].path|)
            && head != seen[move.id].path
            && head + From(seen[m].path, |seen[move.id].path|) != seen[m].path
  {
    var head, path := Prefix(seen, move.parentId) + [move.id], seen[move.id].path;
    var tail := From(seen[m].path, |path|);
    MemberPathExtendsNodePath(seen, move.id, m);
    ParentFromPath(seen, move.id);
    if move.parentId.Some? {
      ParentFromPath(seen, move.parentId.value);
    }
    assert head != path;
    CancelSuffix(head, path, tail);
  }

  /** What a late move leaves in a row it read as part of its subtree. */
  lemma LateRow(seen: Table, now: Table, move: MoveRequest, m: CategoryId)
    requires Agrees(seen) && seen.Keys == now.Keys && m in now
    requires MoveResult(seen, move.id, move.parentId).Ok? && seen[move.id].parentId != move.parentId
    ensures var late, head := LateMove(seen, now, move)[m], Prefix(seen, move.parentId) + [move.id];
            var path := head + From(seen[m].path, |seen[move.id].path|);
            if move.id in seen[m].path
            then late.path == path
                 && late.depth == (if |head| == |seen[move.id].path| then now[m].depth else |path| - 1)
            else late == now[m]
  {
    if move.id in seen[m].path {
      ParentChangeChangesPaths(seen, move, m);
      assert RowAgrees(seen, m);
    }
  }

  lemma FittingMember(seen: Table, now: Table, move: MoveRequest, m: CategoryId)
    requires Agrees(seen) && Agrees(now) && seen.Keys == now.Keys && m in now
    requires MoveResult(seen, move.id, move.parentId).Ok? && seen[move.id].parentId != move.parentId
    requires Fits(seen, now, move) && move.id in seen[m].path
    ensures var late, moved := LateMove(seen, now, move)[m], Moved(now, move.id, move.parentId)[m];
            late.path == moved.path && late.depth == moved.depth
  {
    LateRow(seen, now, move, m);
    assert SameTail(seen, now, move.id, m);
    MemberPathExtendsNodePath(now, move.id, m);
    ParentFromPath(now, m);
  }

  lemma FittingNewcomer(seen: Table, now: Table, move: MoveRequest, m: CategoryId)
    requires Agrees(now) && seen.Keys == now.Keys && m in now && MoveResult(seen, move.id, move.parentId).Ok?
    requires Fits(seen, now, move) && move.id in now[m].path && move.id !in seen[m].path
    ensures now[m].path == Moved(now, move.id, move.parentId)[m].path
    ensures now[m].depth == Moved(now, move.id, move.parentId)[m].depth
  {
    MemberPathExtendsNodePath(now, move.id, m);
    ChainLinks(now, move.id);
    ParentFromPath(now, m);
  }

  lemma FittingRow(seen: Table, now: Table, move: MoveRequest, m: CategoryId)
    requires Agrees(seen) && Agrees(now) && seen.Keys == now.Keys && m in now
    requires MoveResult(seen, move.id, move.parentId).Ok? && seen[move.id].parentId != move.parentId
    requires Fits(seen, now, move)
    ensures LateMove(seen, now, move)[m] == Moved(now, move.id, move.parentId)[m]
  {
    LateLinks(seen, now, move);
    assert LateMove(seen, now, move)[m].parentId == ParentLinks(LateMove(seen, now, move))[m];
    ParentFromPath(seen, move.id);
    ParentFromPath(now, move.id);
    if move.id in seen[m].path {
      FittingMember(seen, now, move, m);
    } else {
      LateRow(seen, now, move, m);
      if move.id in now[m].path {
        FittingNewcomer(seen, now, move, m);
      }
    }
  }

  lemma FittingMoveIsSerial(seen: Table, now: Table, move: MoveRequest)
    requires Agrees(seen) && Agrees(now) && seen.Keys == now.Keys
    requires MoveResult(seen, move.id, move.parentId).Ok? && seen[move.id].parentId != move.parentId
    requires Fits(seen, now, move)
    ensures MoveResult(now, move.id, move.parentId) == Ok(LateMove(seen, now, move))
  {
    forall m | m in now
      ensures LateMove(seen, now, move)[m] == Moved(now, move.id, move.parentId)[m]
    {
      FittingRow(seen, now, move, m);
    }
    assert LateMove(seen, now, move) == Moved(now, move.id, move.parentId);
  }

  lemma SerialMoveFits(seen: Table, now: Table, move: MoveRequest)
    requires Agrees(seen) && Agrees(now) && seen.Keys == now.Keys
    requires MoveResult(seen, move.id, move.parentId).Ok? && seen[move.id].parentId != move.parentId
    requires MoveResult(now, move.id, move.parentId) == Ok(LateMove(seen, now, move))
    ensures Fits(seen, now, move)
  {
    var id, late := move.id, LateMove(seen, now, move);
    var head := Prefix(seen, move.parentId) + [id];
    assert RowAgrees(seen, id) && RowAgrees(now, id);
    LateRow(seen, now, move, id);
    assert From(seen[id].path, |seen[id].path|) == [] && From(now[id].path, |now[id].path|) == [];
    assert late[id] == Moved(now, id, move.parentId)[id];
    assert Prefix(now, move.parentId) + [id] + [] == head + [];
    CancelSuffix(Prefix(now, move.parentId) + [id], head, []);
    CancelSuffix(Prefix(now, move.parentId), Prefix(seen, move.parentId), [id]);
    forall m | m in seen && id in seen[m].path
      ensures SameTail(seen, now, id, m)
    {
      LateRow(seen, now, move, m);
      assert id in head;
      var tail := From(now[m].path, |now[id].path|);
      assert (head + tail)[|head|..] == tail;
      assert (head + From(seen[m].path, |seen[id].path|))[|head|..] == From(seen[m].path, |seen[id].path|);
    }
    if m :| m in now && id in now[m].path && id !in seen[m].path {
      NewcomerMeansSameParent(seen, now, move, m);
    }
  }

  lemma NewcomerMeansSameParent(seen: Table, now: Table, move: MoveRequest, m: CategoryId)
    requires Agrees(seen) && Agrees(now) && seen.Keys == now.Keys
    requires MoveResult(seen, move.id, move.parentId).Ok? && seen[move.id].parentId != move.parentId
    requires MoveResult(now, move.id, move.parentId) == Ok(LateMove(seen, now, move))
    requires m in now && move.id in now[m].path && move.id !in seen[m].path
    ensures now[move.id].parentId == move.parentId
  {
    var id := move.id;
    var head, tail := Prefix(now, move.parentId) + [id], From(now[m].path, |now[id].path|);
    LateRow(seen, now, move, m);
    MemberPathExtendsNodePath(now, id, m);
    assert head + tail == now[id].path + tail;
    CancelSuffix(head, now[id].path, tail);
    ParentFromPath(now, id);
    if move.parentId.Some? {
      ParentFromPath(now, move.parentId.value);
    }
  }

  /** A parent-changing late move leaves an agreeing table if and only if it fits the table it is written to. */
  lemma LateMoveAgreesIff(seen: Table, now: Table, move: MoveRequest)
    requires Agrees(seen) && Agrees(now) && seen.Keys == now.Keys
    requires MoveResult(seen, move.id, move.parentId).Ok? && seen[move.id].parentId != move.parentId
    ensures Agrees(LateMove(seen, now, move)) <==> Fits(seen, now, move)
    ensures Fits(seen, now, move) ==> MoveResult(now, move.id, move.parentId) == Ok(LateMove(seen, now, move))
  {
    AgreeingLateMoveIsSerial(seen, now, move);
    if Fits(seen, now, move) {
      FittingMoveIsSerial(seen, now, move);
    }
    if Agrees(LateMove(seen, now, move)) {
      SerialMoveFits(seen, now, move);
    }
  }

  /** Every row the move looked at still has the path it had then: the new parent, and the rows of either subtree. */
  ghost predicate ReadsCurrent(seen: Table, now: Table, move: MoveRequest)
    requires seen.Keys == now.Keys && (move.parentId.Some? ==> move.parentId.value in seen)
  {
    && Prefix(now, move.parentId) == Prefix(seen, move.parentId)
    && forall m :: m in now && (move.id in now[m].path || move.id in seen[m].path) ==> now[m].path == seen[m].path
  }

  /** In particular, when the rows read are current the move is as good as a serial one. */
  lemma CurrentReadsMoveSerially(seen: Table, now: Table, move: MoveRequest)
    requires Agrees(seen) && Agrees(now) && seen.Keys == now.Keys
    requires MoveResult(seen, move.id, move.parentId).Ok? && ReadsCurrent(seen, now, move)
    ensures MoveResult(now, move.id, move.parentId) == Ok(LateMove(seen, now, move))
  {
    assert RowAgrees(now, move.id) && RowAgrees(seen, move.id);
    ParentFromPath(now, move.id);
    ParentFromPath(seen, move.id);
    if seen[move.id].parentId == move.parentId {
      SameParentWritesNothing(seen, now, move);
      SameParentWritesNothing(now, now, move);
      SerialNothing(now, move);
    } else {
      FittingMoveIsSerial(seen, now, move);
    }
  }

  lemma SerialNothing(now: Table, move: MoveRequest)
    requires Agrees(now) && MoveResult(now, move.id, move.parentId).Ok?
    requires LateMove(now, now, move) == now
    ensures Moved(now, move.id, move.parentId) == now
  {
    var moved := Moved(now, move.id, move.parentId);
    forall m | m in now ensures moved[m] == now[m] {
      assert LateMove(now, now, move)[m] == now[m];
    }
  }

  // ---------------------------------------------------------------- any number of moves

  /** The committed table, and for each move under way the table it has read. */
  datatype State = State(table: Table, seen: map<int, Table>)

  /** A move reads and checks, or writes what it computed; a refused one ends at the check. */
  datatype Event = Read(t: int) | Write(t: int)

  type Moves = map<int, MoveRequest>

  function Accepted(table: Table, move: MoveRequest): bool {
    MoveResult(table, move.id, move.parentId).Ok?
  }

  function Step(s: State, moves: Moves, e: Event): State {
    if e.t !in moves then s
    else if e.Read? then if Accepted(s.table, moves[e.t]) then s.(seen := s.seen[e.t := s.table]) else s
    else if e.t in s.seen && Accepted(s.seen[e.t], moves[e.t])
    then State(LateMove(s.seen[e.t], s.table, moves[e.t]), s.seen - {e.t})
    else s
  }

  function Run(s: State, moves: Moves, events: seq<Event>): State {
    if events == [] then s else Step(Run(s, moves, events[..|events| - 1]), moves, events[|events| - 1])
  }

  ghost predicate SeenOk(s: State, moves: Moves) {
    forall t {:trigger s.seen[t]} :: t in s.seen ==>
      t in moves && Agrees(s.seen[t]) && s.seen[t].Keys == s.table.Keys && Accepted(s.seen[t], moves[t])
  }

  /** What every schedule keeps: moves under way have read tables with the same rows and were accepted there. */
  ghost predicate Underway(s: State, moves: Moves) {
    forall t {:trigger s.seen[t]} :: t in s.seen ==>
      t in moves && s.seen[t].Keys == s.table.Keys && Accepted(s.seen[t], moves[t])
  }

  lemma {:induction false} RunKeepsUnderway(table: Table, moves: Moves, events: seq<Event>)
    ensures Underway(Run(State(table, map[]), moves, events), moves)
  {
    if events != [] {
      RunKeepsUnderway(table, moves, events[..|events| - 1]);
    }
  }

  /** A commit that changes the parent fits the table it is written to. */
  ghost predicate CommitFits(s: State, moves: Moves, e: Event)
    requires Underway(s, moves)
  {
    e.Write? && e.t in s.seen && s.seen[e.t][moves[e.t].id].parentId != moves[e.t].parentId ==>
      Fits(s.seen[e.t], s.table, moves[e.t])
  }

  lemma StepAgreesIff(s: State, moves: Moves, e: Event)
    requires Agrees(s.table) && SeenOk(s, moves)
    ensures Agrees(Step(s, moves, e).table) <==> CommitFits(s, moves, e)
    ensures Agrees(Step(s, moves, e).table) ==> SeenOk(Step(s, moves, e), moves)
  {
    if e.t in moves && e.Write? && e.t in s.seen {
      var move, seen := moves[e.t], s.seen[e.t];
      if seen[move.id].parentId == move.parentId {
        SameParentWritesNothing(seen, s.table, move);
      } else {
        LateMoveAgreesIff(seen, s.table, move);
      }
    }
  }

  /** The committed table agrees after every event. */
  ghost predicate AgreesThroughout(table: Table, moves: Moves, events: seq<Event>) {
    && Agrees(Run(State(table, map[]), moves, events).table)
    && (events != [] ==> AgreesThroughout(table, moves, events[..|events| - 1]))
  }

  ghost predicate FitsThroughout(table: Table, moves: Moves, events: seq<Event>) {
    events != [] ==>
      var n := |events| - 1;
      RunKeepsUnderway(table, moves, events[..n]);
      FitsThroughout(table, moves, events[..n])
        && CommitFits(Run(State(table, map[]), moves, events[..n]), moves, events[n])
  }

  /**
   For any schedule of any moves: the committed tables agree throughout if and only if every
   parent-changing commit fits.
   */
  lemma {:induction false} RacesAgreeIff(table: Table, moves: Moves, events: seq<Event>)
    requires Agrees(table)
    ensures AgreesThroughout(table, moves, events) <==> FitsThroughout(table, moves, events)
    ensures AgreesThroughout(table, moves, events) ==> SeenOk(Run(State(table, map[]), moves, events), moves)
  {
    if events != [] {
      var n := |events| - 1;
      RacesAgreeIff(table, moves, events[..n]);
      var before := Run(State(table, map[]), moves, events[..n]);
      RunKeepsUnderway(table, moves, events[..n]);
      if AgreesThroughout(table, moves, events[..n]) {
        StepAgreesIff(before, moves, events[n]);
      }
    }
  }

  // ---------------------------------------------------------------- two moves that cross

  function Root(id: CategoryId): Category {
    Category(None, [id], 0, 0, true)
  }

  lemma NoMutualParents(t: Table, a: CategoryId, b: CategoryId)
    requires Agrees(t) && a in t && b in t && t[a].parentId == Some(b)
    ensures t[b].parentId != Some(a)
  {
    ChainLinks(t, a);
    ChainLinks(t, b);
  }

  lemma Then(s: State, moves: Moves, done: seq<Event>, e: Event)
    ensures Run(s, moves, done + [e]) == Step(Run(s, moves, done), moves, e)
  {
    assert (done + [e])[..|done|] == done;
  }

  lemma CrossedWrites(table: Table, a: MoveRequest, b: MoveRequest)
    requires Accepted(table, a) && Accepted(table, b)
    ensures var moves := map[1 := a, 2 := b];
            Run(State(table, map[]), moves, [] + [Read(1)] + [Read(2)] + [Write(1)] + [Write(2)]).table ==
            LateMove(table, LateMove(table, table, a), b)
  {
    var moves, s0 := map[1 := a, 2 := b], State(table, map[]);
    var none: seq<Event> := [];
    Then(s0, moves, none, Read(1));
    Then(s0, moves, none + [Read(1)], Read(2));
    Then(s0, moves, none + [Read(1)] + [Read(2)], Write(1));
    Then(s0, moves, none + [Read(1)] + [Read(2)] + [Write(1)], Write(2));
  }

  /** Two roots, each moved under the other at the same time: both pass the check, and they end up in a cycle. */
  lemma OppositeMovesCloseACycle()
    ensures var table := map[1 := Root(1), 2 := Root(2)];
            var moves := map[1 := MoveRequest(1, Some(2)), 2 := MoveRequest(2, Some(1))];
            var after := Run(State(table, map[]), moves, [] + [Read(1)] + [Read(2)] + [Write(1)] + [Write(2)]).table;
            && Agrees(table) && after.Keys == {1, 2}
            && after[1].parentId == Some(2) && after[2].parentId == Some(1) && !Agrees(after)
  {
    var table := map[1 := Root(1), 2 := Root(2)];
    var a, b := MoveRequest(1, Some(2)), MoveRequest(2, Some(1));
    assert RowLinked(table, 1) && RowLinked(table, 2);
    LinkedIffAgrees(table);
    CrossedWrites(table, a, b);
    var after := LateMove(table, LateMove(table, table, a), b);
    assert after.Keys == {1, 2} && after[1].parentId == Some(2) && after[2].parentId == Some(1);
    if Agrees(after) {
      NoMutualParents(after, 1, 2);
    }
  }

  function Row(parentId: Option<CategoryId>, path: seq<CategoryId>): Category {
    Category(parentId, path, |path| - 1, 0, true)
  }

  /** The trees 1-3-5 and 2-4. */
  function TwoBranches(): Table {
    map[1 := Row(None, [1]), 3 := Row(Some(1), [1, 3]), 5 := Row(Some(3), [1, 3, 5]),
        2 := Row(None, [2]), 4 := Row(Some(2), [2, 4])]
  }

  lemma TwoBranchesAgree()
    ensures Agrees(TwoBranches())
  {
    forall m | m in TwoBranches() ensures RowLinked(TwoBranches(), m) {}
    LinkedIffAgrees(TwoBranches());
  }

  /**
   While 5 moves under 4, which is as deep as 5's parent was, 3 becomes a root: there is no
   cycle and the path is right, but the depth is not written and stays one too small.
   */
  lemma AncestorMoveLeavesAWrongDepth()
    ensures var moves := map[1 := MoveRequest(3, None), 2 := MoveRequest(5, Some(4))];
            var events := [] + [Read(1)] + [Read(2)] + [Write(1)] + [Write(2)];
            var after := Run(State(TwoBranches(), map[]), moves, events).table;
            && Agrees(TwoBranches()) && 5 in after && !Agrees(after)
            && after[5].parentId == Some(4) && after[5].path == [2, 4, 5] && after[5].depth == 1
  {
    var a, b, table := MoveRequest(3, None), MoveRequest(5, Some(4)), TwoBranches();
    TwoBranchesAgree();
    CrossedWrites(table, a, b);
    var now := LateMove(table, table, a);
    assert now.Keys == table.Keys && now[5].depth == 1 && now[5].path == [3, 5];
    LateRow(table, now, b, 5);
    LateLinks(table, now, b);
    var after := LateMove(table, now, b);
    assert after[5].parentId == ParentLinks(after)[5];
    assert From([1, 3, 5], 3) == [] && [2, 4] + [5] + [] == [2, 4, 5];
    assert !RowAgrees(after, 5);
  }
}
