/**
 One order's carrier row and the shipments alive at the carrier. An operator's request locks
 the row, checks it, calls the carrier, writes the row and commits; many operators' requests
 interleave between any two of these steps.
 */
module Waybills {
  import opened Outcomes

  /** A parcel at the carrier: `serial` tells parcels apart, `id` and `number` are what the carrier answered. */
  datatype Shipment = Shipment(serial: int, id: string, number: string)

  /** The columns that name the waybill. */
  datatype CarrierRow = CarrierRow(awbId: Option<string>, awbNumber: Option<string>)

  datatype Answer = Refused | Accepted(id: string, number: string)

  datatype WaybillError = OrderNotFound | WaybillMissing | WaybillExists | CarrierUnavailable

  datatype Kind = Create | Cancel

  function NonEmpty(s: string): Option<string> {
    if s == "" then None else Some(s)
  }

  /** A missing and an empty number both count as none. */
  predicate HasNumber(row: CarrierRow) {
    row.awbNumber.Some? && row.awbNumber.value != ""
  }

  function Check(kind: Kind, row: CarrierRow): Option<WaybillError> {
    match kind
    case Create => if HasNumber(row) then Some(WaybillExists) else None
    case Cancel => if HasNumber(row) then None else Some(WaybillMissing)
  }

  /** The reference a cancellation sends: the id if the row has one, else the number. */
  function Reference(row: CarrierRow): string
    requires HasNumber(row)
  {
    if row.awbId.Some? && row.awbId.value != "" then row.awbId.value else row.awbNumber.value
  }

  function CarrierAfter(kind: Kind, row: CarrierRow, live: set<Shipment>, serial: int, answer: Answer): set<Shipment>
    requires Check(kind, row).None?
  {
    match (kind, answer)
    case (_, Refused) => live
    case (Create, Accepted(id, number)) => live + {Shipment(serial, id, number)}
    case (Cancel, Accepted(_, _)) => set s | s in live && s.id != Reference(row) && s.number != Reference(row)
  }

  function RowAfter(kind: Kind, answer: Answer): CarrierRow
    requires answer.Accepted?
  {
    if kind.Create? then CarrierRow(NonEmpty(answer.id), NonEmpty(answer.number)) else CarrierRow(None, None)
  }

  // ---------------------------------------------------------------- one request at a time

  class WaybillDesk {
    /** Orders by number; those not shipped with the carrier have no row. */
    var orders: map<string, Option<CarrierRow>>

    method LockCarrierRow(number: string) returns (r: Result<CarrierRow, WaybillError>)
      ensures r == if number !in orders then Err(OrderNotFound)
                   else if orders[number].None? then Err(WaybillMissing)
                   else Ok(orders[number].value)
    {
      if number !in orders { return Err(OrderNotFound); }
      match orders[number]
      case None => r := Err(WaybillMissing);
      case Some(row) => r := Ok(row);
    }

    method CreateWaybill(number: string, answer: Answer) returns (r: Result<CarrierRow, WaybillError>)
      modifies this
      ensures r.Ok? <==>
                && number in old(orders) && old(orders)[number].Some?
                && !HasNumber(old(orders)[number].value) && answer.Accepted?
      ensures r.Ok? ==> r.value == RowAfter(Create, answer) && orders == old(orders)[number := Some(r.value)]
      ensures r.Ok? ==>
                && r.value.awbId == (if answer.id == "" then None else Some(answer.id))
                && r.value.awbNumber == (if answer.number == "" then None else Some(answer.number))
      ensures r.Err? ==> orders == old(orders)
      ensures r == Err(WaybillExists) <==>
                number in old(orders) && old(orders)[number].Some? && HasNumber(old(orders)[number].value)
    {
      var locked := LockCarrierRow(number);
      if locked.Err? { return Err(locked.error); }
      var row := locked.value;
      if row.awbNumber.Some? && row.awbNumber.value != "" { return Err(WaybillExists); }
      if answer.Refused? { return Err(CarrierUnavailable); }
      row := row.(awbId := NonEmpty(answer.id));
      row := row.(awbNumber := NonEmpty(answer.number));
      orders := orders[number := Some(row)];
      r := Ok(row);
    }

    method CancelWaybill(number: string, answer: Answer) returns (r: Result<CarrierRow, WaybillError>)
      modifies this
      ensures r.Ok? <==>
                && number in old(orders) && old(orders)[number].Some?
                && HasNumber(old(orders)[number].value) && answer.Accepted?
      ensures r.Ok? ==> r.value == CarrierRow(None, None) && orders == old(orders)[number := Some(r.value)]
      ensures r.Err? ==> orders == old(orders)
      ensures r == Err(CarrierUnavailable) <==>
                && number in old(orders) && old(orders)[number].Some?
                && HasNumber(old(orders)[number].value) && answer.Refused?
    {
      var locked := LockCarrierRow(number);
      if locked.Err? { return Err(locked.error); }
      var row := locked.value;
      if row.awbNumber.None? || row.awbNumber.value == "" { return Err(WaybillMissing); }
      if answer.Refused? { return Err(CarrierUnavailable); }
      row := row.(awbId := None);
      row := row.(awbNumber := None);
      orders := orders[number := Some(row)];
      r := Ok(row);
    }
  }

  // ---------------------------------------------------------------- many operators

  datatype Phase =
    | Waiting
    | Locked(seen: CarrierRow)
    | Checked(seen: CarrierRow)
    | Called(answer: Answer)
    | Wrote(row: CarrierRow)
    | Over

  type Operator = int

  datatype System = System(
    row: CarrierRow, live: set<Shipment>, serial: int, holder: Option<Operator>, phases: map<Operator, Phase>)

  /** An operator's next step; the answer matters only when it is the carrier call. */
  datatype Event = Event(operator: Operator, answer: Answer)

  function Release(s: System, o: Operator): System {
    s.(holder := None, phases := s.phases[o := Over])
  }

  function Step(s: System, kinds: map<Operator, Kind>, e: Event): System {
    var o := e.operator;
    if o !in s.phases || o !in kinds then s
    else
      match s.phases[o]
      case Waiting => if s.holder.Some? then s else s.(holder := Some(o), phases := s.phases[o := Locked(s.row)])
      case Locked(seen) =>
        if Check(kinds[o], seen).Some? then Release(s, o) else s.(phases := s.phases[o := Checked(seen)])
      case Checked(seen) =>
        if Check(kinds[o], seen).Some? then s
        else
          s.(live := CarrierAfter(kinds[o], seen, s.live, s.serial, e.answer), serial := s.serial + 1,
             phases := s.phases[o := Called(e.answer)])
      case Called(answer) =>
        if answer.Refused? then Release(s, o) else s.(phases := s.phases[o := Wrote(RowAfter(kinds[o], answer))])
      case Wrote(row) => Release(s, o).(row := row)
      case Over => s
  }

  function Run(s: System, kinds: map<Operator, Kind>, events: seq<Event>): System {
    if events == [] then s else Step(Run(s, kinds, events[..|events| - 1]), kinds, events[|events| - 1])
  }

  /** The row names exactly the parcels that are alive: one when it has a number, none when it has not. */
  ghost predicate Agrees(row: CarrierRow, live: set<Shipment>) {
    if HasNumber(row) then
      exists s :: live == {s} && s.number == row.awbNumber.value && row.awbId == NonEmpty(s.id)
    else live == {}
  }

  ghost predicate HolderAgrees(s: System, kind: Kind, phase: Phase) {
    match phase
    case Locked(seen) => seen == s.row && Agrees(s.row, s.live)
    case Checked(seen) => seen == s.row && Agrees(s.row, s.live) && Check(kind, seen).None?
    case Called(answer) => if answer.Refused? then Agrees(s.row, s.live) else Agrees(RowAfter(kind, answer), s.live)
    case Wrote(row) => Agrees(row, s.live)
    case _ => false
  }

  ghost predicate Protocol(s: System, kinds: map<Operator, Kind>) {
    && s.phases.Keys == kinds.Keys
    && (forall o :: o in s.phases && s.holder != Some(o) ==> s.phases[o].Waiting? || s.phases[o].Over?)
    && match s.holder
       case None => Agrees(s.row, s.live)
       case Some(o) => o in s.phases && HolderAgrees(s, kinds[o], s.phases[o])
  }

  /** Whenever the carrier reports success it names the parcel. */
  predicate Named(answer: Answer) {
    answer.Accepted? ==> answer.number != ""
  }

  lemma AtMostOne(row: CarrierRow, live: set<Shipment>)
    requires Agrees(row, live)
    ensures |live| <= 1 && (HasNumber(row) <==> |live| == 1)
  {}

  /** A successful call leaves exactly what the row is about to say, unless a created parcel has no number. */
  lemma CallAgrees(kind: Kind, row: CarrierRow, live: set<Shipment>, serial: int, answer: Answer)
    requires Agrees(row, live) && Check(kind, row).None? && answer.Accepted?
    ensures Agrees(RowAfter(kind, answer), CarrierAfter(kind, row, live, serial, answer)) <==>
              kind.Cancel? || answer.number != ""
  {
    var after := CarrierAfter(kind, row, live, serial, answer);
    if kind.Create? {
      assert after == {Shipment(serial, answer.id, answer.number)};
    } else {
      assert after == {};
    }
  }

  lemma StepKeepsProtocol(s: System, kinds: map<Operator, Kind>, e: Event)
    requires Protocol(s, kinds)
    requires e.operator in kinds && kinds[e.operator].Create? ==> Named(e.answer)
    ensures Protocol(Step(s, kinds, e), kinds)
  {
    var o := e.operator;
    if s.holder == Some(o) && s.phases[o].Checked? && e.answer.Accepted? {
      CallAgrees(kinds[o], s.row, s.live, s.serial, e.answer);
    }
  }

  /**
   Over any interleaving of creating and cancelling operators, as long as a successful
   creation names its parcel, the order never has two live parcels, and while nobody holds
   the lock its number is set exactly when one is alive.
   */
  lemma {:induction false} AtMostOneLiveParcel(s: System, kinds: map<Operator, Kind>, events: seq<Event>)
    requires Protocol(s, kinds)
    requires forall e :: e in events && e.operator in kinds && kinds[e.operator].Create? ==> Named(e.answer)
    ensures var after := Run(s, kinds, events);
            && Protocol(after, kinds) && |after.live| <= 1
            && (after.holder.None? ==> (HasNumber(after.row) <==> |after.live| == 1))
  {
    if events != [] {
      AtMostOneLiveParcel(s, kinds, events[..|events| - 1]);
      StepKeepsProtocol(Run(s, kinds, events[..|events| - 1]), kinds, events[|events| - 1]);
    }
    LiveParcels(Run(s, kinds, events), kinds);
  }

  lemma LiveParcels(s: System, kinds: map<Operator, Kind>)
    requires Protocol(s, kinds)
    ensures |s.live| <= 1 && (s.holder.None? ==> (HasNumber(s.row) <==> |s.live| == 1))
  {
    match s.holder
    case None => AtMostOne(s.row, s.live);
    case Some(o) =>
      match s.phases[o]
      case Called(Accepted(id, number)) => AtMostOne(RowAfter(kinds[o], Accepted(id, number)), s.live);
      case Wrote(row) => AtMostOne(row, s.live);
      case _ => AtMostOne(s.row, s.live);
  }

  /** If this event is an accepted creation call, the answer names the parcel. */
  predicate CallNamed(s: System, kinds: map<Operator, Kind>, e: Event) {
    var o := e.operator;
    o in s.phases && o in kinds && s.phases[o].Checked? && kinds[o].Create? ==> Named(e.answer)
  }

  lemma StepKeepsProtocolIff(s: System, kinds: map<Operator, Kind>, e: Event)
    requires Protocol(s, kinds)
    ensures Protocol(Step(s, kinds, e), kinds) <==> CallNamed(s, kinds, e)
  {
    var o := e.operator;
    if s.holder == Some(o) && s.phases[o].Checked? && e.answer.Accepted? {
      CallAgrees(kinds[o], s.row, s.live, s.serial, e.answer);
      assert Step(s, kinds, e).phases[o] == Called(e.answer);
    }
  }

  /** At every moment the row, or the one about to be written, says what is alive at the carrier. */
  ghost predicate AgreeThroughout(s: System, kinds: map<Operator, Kind>, events: seq<Event>) {
    && Protocol(Run(s, kinds, events), kinds)
    && (events != [] ==> AgreeThroughout(s, kinds, events[..|events| - 1]))
  }

  ghost predicate NamedThroughout(s: System, kinds: map<Operator, Kind>, events: seq<Event>) {
    events != [] ==>
      var n := |events| - 1;
      NamedThroughout(s, kinds, events[..n]) && CallNamed(Run(s, kinds, events[..n]), kinds, events[n])
  }

  /** Over any schedule row and carrier agree throughout if and only if every accepted creation call is named. */
  lemma {:induction false} AgreeThroughoutIffNamed(s: System, kinds: map<Operator, Kind>, events: seq<Event>)
    requires Protocol(s, kinds)
    ensures AgreeThroughout(s, kinds, events) <==> NamedThroughout(s, kinds, events)
  {
    if events != [] {
      var n := |events| - 1;
      AgreeThroughoutIffNamed(s, kinds, events[..n]);
      if AgreeThroughout(s, kinds, events[..n]) {
        StepKeepsProtocolIff(Run(s, kinds, events[..n]), kinds, events[n]);
      }
    }
  }

  // ---------------------------------------------------------------- an answer without a number

  /** One operator's next `n` steps with nobody else in between. */
  function Steps(s: System, kinds: map<Operator, Kind>, e: Event, n: nat): System
    decreases n
  {
    if n == 0 then s else Steps(Step(s, kinds, e), kinds, e, n - 1)
  }

  function Repeated(e: Event, n: nat): seq<Event> {
    if n == 0 then [] else [e] + Repeated(e, n - 1)
  }

  lemma {:induction false} RunRepeated(s: System, kinds: map<Operator, Kind>, done: seq<Event>, e: Event, n: nat)
    ensures Run(s, kinds, done + Repeated(e, n)) == Steps(Run(s, kinds, done), kinds, e, n)
    decreases n
  {
    if n == 0 {
      assert done + Repeated(e, 0) == done;
    } else {
      RunRepeated(s, kinds, done + [e], e, n - 1);
      assert (done + [e])[..|done|] == done;
      assert done + [e] + Repeated(e, n - 1) == done + Repeated(e, n);
    }
  }

  /** The lock is free, the request has not begun, and its check will pass. */
  predicate ReadyFor(s: System, kinds: map<Operator, Kind>, o: Operator, kind: Kind) {
    && s.holder.None? && Check(kind, s.row).None?
    && o in s.phases && s.phases[o].Waiting? && o in kinds && kinds[o] == kind
  }

  lemma UpToTheCall(s: System, kinds: map<Operator, Kind>, o: Operator, kind: Kind, answer: Answer)
    requires ReadyFor(s, kinds, o, kind)
    ensures Steps(s, kinds, Event(o, answer), 3) ==
            System(s.row, CarrierAfter(kind, s.row, s.live, s.serial, answer), s.serial + 1, Some(o),
              s.phases[o := Called(answer)])
  {
    var e := Event(o, answer);
    var s1 := s.(holder := Some(o), phases := s.phases[o := Locked(s.row)]);
    var s2 := s1.(phases := s.phases[o := Checked(s.row)]);
    assert Step(s, kinds, e) == s1;
    assert s1.phases[o := Checked(s.row)] == s2.phases;
    assert Step(s1, kinds, e) == s2;
    assert s2.phases[o := Called(answer)] == s.phases[o := Called(answer)];
    assert Steps(s2, kinds, e, 1) == Step(s2, kinds, e);
  }

  lemma FromTheCall(s: System, kinds: map<Operator, Kind>, o: Operator, answer: Answer)
    requires s.holder == Some(o) && o in s.phases && o in kinds && s.phases[o] == Called(answer)
    ensures Steps(s, kinds, Event(o, answer), 2) ==
            System(if answer.Refused? then s.row else RowAfter(kinds[o], answer),
                   s.live, s.serial, None, s.phases[o := Over])
  {
    var e := Event(o, answer);
    var s1 := Step(s, kinds, e);
    if answer.Refused? {
      assert s1 == Release(s, o);
    } else {
      assert s1 == s.(phases := s.phases[o := Wrote(RowAfter(kinds[o], answer))]);
    }
    assert s1.phases[o := Over] == s.phases[o := Over];
    assert Steps(s1, kinds, e, 1) == Step(s1, kinds, e);
  }

  lemma {:induction false} StepsAdd(s: System, kinds: map<Operator, Kind>, e: Event, m: nat, n: nat)
    ensures Steps(s, kinds, e, m + n) == Steps(Steps(s, kinds, e, m), kinds, e, n)
    decreases m
  {
    if m > 0 {
      StepsAdd(Step(s, kinds, e), kinds, e, m - 1, n);
    }
  }

  lemma WholeRequest(s: System, kinds: map<Operator, Kind>, o: Operator, kind: Kind, answer: Answer)
    requires ReadyFor(s, kinds, o, kind)
    ensures Steps(s, kinds, Event(o, answer), 5) ==
            System(if answer.Refused? then s.row else RowAfter(kind, answer),
                   CarrierAfter(kind, s.row, s.live, s.serial, answer), s.serial + 1, None, s.phases[o := Over])
  {
    StepsAdd(s, kinds, Event(o, answer), 3, 2);
    UpToTheCall(s, kinds, o, kind, answer);
    FromTheCall(Steps(s, kinds, Event(o, answer), 3), kinds, o, answer);
    assert s.phases[o := Called(answer)][o := Over] == s.phases[o := Over];
  }

  /**
   An undisturbed creation stores what the carrier answered, empty strings as nothing, and one parcel
   more is alive.
   */
  lemma UndisturbedCreation(s: System, kinds: map<Operator, Kind>, o: Operator, id: string, number: string)
    requires ReadyFor(s, kinds, o, Create)
    ensures var after := Steps(s, kinds, Event(o, Accepted(id, number)), 5);
            && after.holder.None? && after.phases == s.phases[o := Over]
            && after.live == s.live + {Shipment(s.serial, id, number)}
            && (if id == "" then after.row.awbId == None else after.row.awbId == Some(id))
            && (if number == "" then after.row.awbNumber == None else after.row.awbNumber == Some(number))
  {
    WholeRequest(s, kinds, o, Create, Accepted(id, number));
  }

  /**
   An undisturbed cancellation clears the row and ends the parcel that has the row's id, or its
   number when the row has no id; a parcel with neither stays alive.
   */
  lemma UndisturbedCancellation(s: System, kinds: map<Operator, Kind>, o: Operator, parcel: Shipment, answer: Answer)
    requires ReadyFor(s, kinds, o, Cancel) && answer.Accepted? && parcel in s.live
    ensures var after := Steps(s, kinds, Event(o, answer), 5);
            && after.holder.None? && after.phases == s.phases[o := Over]
            && after.row == CarrierRow(None, None) && after.live <= s.live
            && (s.row.awbId == Some(parcel.id) && parcel.id != "" ==> parcel !in after.live)
            && ((s.row.awbId.None? || s.row.awbId.value == "") && Some(parcel.number) == s.row.awbNumber ==>
                  parcel !in after.live)
            && ({Some(parcel.id), Some(parcel.number)} !! {s.row.awbId, s.row.awbNumber} ==> parcel in after.live)
  {
    WholeRequest(s, kinds, o, Cancel, answer);
  }

  /** A refusing carrier leaves the row and the parcels, and so does a check that fails; both end the request. */
  lemma RefusedRequest(s: System, kinds: map<Operator, Kind>, o: Operator, answer: Answer)
    requires s.holder.None? && o in s.phases && s.phases[o].Waiting? && o in kinds
    ensures Check(kinds[o], s.row).None? && answer.Refused? ==>
              var after := Steps(s, kinds, Event(o, answer), 5);
              after.row == s.row && after.live == s.live && after.holder.None? && after.phases == s.phases[o := Over]
    ensures Check(kinds[o], s.row).Some? ==>
              var after := Steps(s, kinds, Event(o, answer), 2);
              after.row == s.row && after.live == s.live && after.holder.None? && after.phases == s.phases[o := Over]
  {
    if Check(kinds[o], s.row).None? {
      WholeRequest(s, kinds, o, kinds[o], answer);
    } else {
      var s1 := s.(holder := Some(o), phases := s.phases[o := Locked(s.row)]);
      assert Step(s, kinds, Event(o, answer)) == s1;
      assert s1.phases[o := Over] == s.phases[o := Over];
      assert Steps(s1, kinds, Event(o, answer), 1) == Step(s1, kinds, Event(o, answer));
    }
  }

  /** A whole creation on an order without a parcel keeps row and carrier in agreement if and only if it was named. */
  lemma CreationAgreesIffNamed(s: System, kinds: map<Operator, Kind>, o: Operator, answer: Answer)
    requires Protocol(s, kinds) && ReadyFor(s, kinds, o, Create)
    ensures var after := Steps(s, kinds, Event(o, answer), 5);
            after.holder.None? && (Agrees(after.row, after.live) <==> Named(answer))
  {
    WholeRequest(s, kinds, o, Create, answer);
    if answer.Accepted? {
      CallAgrees(Create, s.row, s.live, s.serial, answer);
    }
  }

  /** Two operators, a carrier that accepts without a number, and the order has two live parcels. */
  lemma UnnamedCreationsCanDouble()
    ensures exists events ::
              Run(System(CarrierRow(None, None), {}, 0, None, map[1 := Waiting, 2 := Waiting]),
                map[1 := Create, 2 := Create], events).live
              == {Shipment(0, "", ""), Shipment(1, "", "")}
  {
    var kinds, a, b := map[1 := Create, 2 := Create], Event(1, Accepted("", "")), Event(2, Accepted("", ""));
    var s := System(CarrierRow(None, None), {}, 0, None, map[1 := Waiting, 2 := Waiting]);
    WholeRequest(s, kinds, 1, Create, a.answer);
    WholeRequest(Steps(s, kinds, a, 5), kinds, 2, Create, b.answer);
    RunRepeated(s, kinds, [], a, 5);
    RunRepeated(s, kinds, [] + Repeated(a, 5), b, 5);
    assert Run(s, kinds, [] + Repeated(a, 5) + Repeated(b, 5)).live == {Shipment(0, "", ""), Shipment(1, "", "")};
  }
}
