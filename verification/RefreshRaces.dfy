/**
 Refreshes and logouts that overlap. Each request decodes its token, looks the token up (a
 refresh only), reads the clock and writes the blacklist as separate events; the events of
 different requests interleave in any way while time does not go backwards.
 */
module RefreshRaces {
  import opened RefreshTokens

  /** What a client sent; the expiries are those of the pair a refresh would issue. */
  datatype Ask = Ask(token: Token, rotates: bool, accessExp: int, refreshExp: int)

  /** `Clocked` carries the clock value the remaining life is computed from. */
  datatype Phase = Arrived | Decoded | Cleared | Clocked(read: real) | Done | Refused

  datatype State = State(server: Server, phases: map<int, Phase>)

  datatype Event = Event(request: int, now: real)

  type Asks = map<int, Ask>

  /** The write that ends a request, and for a refresh the pair it answers with. */
  function Finish(server: Server, ask: Ask, read: real, now: real): Server {
    var revoked := Blacklist(server, ask.token, Times(read, read, read, now));
    if ask.rotates then Issue(revoked, ask.token.login, ask.accessExp, ask.refreshExp) else revoked
  }

  function Step(s: State, asks: Asks, e: Event): State {
    if e.request !in s.phases || e.request !in asks then s
    else
      var ask := asks[e.request];
      match s.phases[e.request]
      case Arrived =>
        var next :=
          if !Decodes(s.server, ask.token, Refresh, e.now) then Refused else if ask.rotates then Decoded else Cleared;
        s.(phases := s.phases[e.request := next])
      case Decoded =>
        var next := if Blacklisted(s.server, ask.token.jti, e.now) then Refused else Cleared;
        s.(phases := s.phases[e.request := next])
      case Cleared => s.(phases := s.phases[e.request := Clocked(e.now)])
      case Clocked(read) => State(Finish(s.server, ask, read, e.now), s.phases[e.request := Done])
      case Done => s
      case Refused => s
  }

  function Run(s: State, asks: Asks, events: seq<Event>): State {
    if events == [] then s else Step(Run(s, asks, events[..|events| - 1]), asks, events[|events| - 1])
  }

  function Start(server: Server, asks: Asks): State {
    State(server, map r | r in asks :: Arrived)
  }

  ghost predicate InTimeOrder(events: seq<Event>) {
    forall i, j :: 0 <= i < j < |events| ==> events[i].now <= events[j].now
  }

  // ---------------------------------------------------------------- what every interleaving keeps

  predicate Signed(server: Server, token: Token) {
    token.jti in server.signed && server.signed[token.jti] == token
  }

  ghost predicate RequestOk(server: Server, ask: Ask, phase: Phase, now: real) {
    match phase
    case Arrived => true
    case Decoded => Signed(server, ask.token)
    case Cleared => Signed(server, ask.token)
    case Clocked(read) => Signed(server, ask.token) && read <= now
    case Done => Signed(server, ask.token) && Spent(server, ask.token, now)
    case Refused => true
  }

  ghost predicate Accurate(s: State, asks: Asks, now: real) {
    && Sound(s.server) && s.phases.Keys == asks.Keys
    && forall r {:trigger RequestOk(s.server, asks[r], s.phases[r], now)} ::
         r in asks ==> RequestOk(s.server, asks[r], s.phases[r], now)
  }

  /** A late write by another request that passed earlier still leaves an entry that outlives the token. */
  lemma FinishKeeps(server: Server, ask: Ask, read: real, now: real)
    requires Sound(server) && Signed(server, ask.token) && read <= now
    ensures var after := Finish(server, ask, read, now);
            && Sound(after) && Spent(after, ask.token, now)
            && forall j :: j in server.signed ==> j in after.signed && after.signed[j] == server.signed[j]
    ensures forall j :: j in server.blacklist ==> j in Finish(server, ask, read, now).blacklist
  {
    assert read.Floor as real <= read;
  }

  lemma RequestStaysOk(server: Server, after: Server, ask: Ask, phase: Phase, now: real, later: real)
    requires RequestOk(server, ask, phase, now) && now <= later && Sound(server) && Sound(after)
    requires forall j :: j in server.signed ==> j in after.signed && after.signed[j] == server.signed[j]
    requires forall j :: j in server.blacklist ==> j in after.blacklist
    ensures RequestOk(after, ask, phase, later)
  {
  }

  lemma StepKeepsAccurate(s: State, asks: Asks, now: real, e: Event)
    requires Accurate(s, asks, now) && now <= e.now
    ensures Accurate(Step(s, asks, e), asks, e.now)
  {
    var s', r := Step(s, asks, e), e.request;
    if r in asks && s.phases[r].Clocked? {
      assert RequestOk(s.server, asks[r], s.phases[r], now);
      FinishKeeps(s.server, asks[r], s.phases[r].read, e.now);
    }
    forall q | q in asks
      ensures RequestOk(s'.server, asks[q], s'.phases[q], e.now)
    {
      assert RequestOk(s.server, asks[q], s.phases[q], now);
      RequestStaysOk(s.server, s'.server, asks[q], s.phases[q], now, e.now);
    }
  }

  lemma {:induction false} RunKeepsAccurate(server: Server, asks: Asks, events: seq<Event>, start: real)
    requires Sound(server) && InTimeOrder(events) && forall i :: 0 <= i < |events| ==> start <= events[i].now
    ensures var now := if events == [] then start else events[|events| - 1].now;
            Accurate(Run(Start(server, asks), asks, events), asks, now)
  {
    if events != [] {
      var n := |events| - 1;
      RunKeepsAccurate(server, asks, events[..n], start);
      StepKeepsAccurate(Run(Start(server, asks), asks, events[..n]), asks,
                        if n == 0 then start else events[n - 1].now, events[n]);
    }
  }

  lemma {:induction false} FinishedStaysFinished(s: State, asks: Asks, events: seq<Event>, i: nat, r: int)
    requires i <= |events| && r in Run(s, asks, events[..i]).phases && Run(s, asks, events[..i]).phases[r].Done?
    ensures r in Run(s, asks, events).phases && Run(s, asks, events).phases[r].Done?
  {
    if i < |events| {
      var n := |events| - 1;
      assert events[..n][..i] == events[..i];
      FinishedStaysFinished(s, asks, events[..n], i, r);
    } else {
      assert events[..i] == events;
    }
  }

  // ---------------------------------------------------------------- revocation in every interleaving

  /** Event `i` is the one in which the request writes the blacklist and ends. */
  ghost predicate WritesAt(server: Server, asks: Asks, events: seq<Event>, i: int, r: int) {
    && 0 <= i < |events| && events[i].request == r && r in asks
    && Run(Start(server, asks), asks, events[..i]).phases.Keys == asks.Keys
    && Run(Start(server, asks), asks, events[..i]).phases[r].Clocked?
  }

  /** Event `i` is the one in which a refresh looks its token up. */
  ghost predicate LooksUpAt(server: Server, asks: Asks, events: seq<Event>, i: int, r: int) {
    && 0 <= i < |events| && events[i].request == r && r in asks
    && Run(Start(server, asks), asks, events[..i]).phases.Keys == asks.Keys
    && Run(Start(server, asks), asks, events[..i]).phases[r].Decoded?
  }

  /**
   Whatever else is under way, and whenever it decoded: a refresh that looks a token up after
   some request has revoked it, and before the token expires, is refused.
   */
  lemma RevokedIsRefusedInEveryInterleaving(
    server: Server, asks: Asks, events: seq<Event>, start: real, i: int, r: int, j: int, q: int)
    requires Sound(server) && InTimeOrder(events) && forall k :: 0 <= k < |events| ==> start <= events[k].now
    requires WritesAt(server, asks, events, i, r) && LooksUpAt(server, asks, events, j, q) && i < j
    requires asks[r].token == asks[q].token && events[j].now < asks[q].token.exp as real
    ensures var after := Run(Start(server, asks), asks, events[..j + 1]);
            q in after.phases && after.phases[q] == Refused
  {
    SpentAtLookUp(server, asks, events, start, i, r, j);
    LookUpDecides(server, asks, events, j, q);
  }

  /** From its write on a token is spent, whatever else is under way. */
  lemma SpentAtLookUp(server: Server, asks: Asks, events: seq<Event>, start: real, i: int, r: int, j: int)
    requires Sound(server) && InTimeOrder(events) && forall k :: 0 <= k < |events| ==> start <= events[k].now
    requires WritesAt(server, asks, events, i, r) && i < j < |events|
    ensures Spent(Run(Start(server, asks), asks, events[..j]).server, asks[r].token, events[j - 1].now)
    ensures Signed(Run(Start(server, asks), asks, events[..j]).server, asks[r].token)
  {
    var before := Run(Start(server, asks), asks, events[..j]);
    assert events[..i + 1][..i] == events[..i];
    assert events[..j][..i + 1] == events[..i + 1];
    FinishedStaysFinished(Start(server, asks), asks, events[..j], i + 1, r);
    RunKeepsAccurate(server, asks, events[..j], start);
    assert RequestOk(before.server, asks[r], before.phases[r], events[j - 1].now);
  }

  // ---------------------------------------------------------------- exactly when a look-up lets through

  /** Event `i` ends a request with this token and leaves an entry, because some of its life remained. */
  ghost predicate EntersAt(server: Server, asks: Asks, events: seq<Event>, i: int, r: int, jti: int) {
    && WritesAt(server, asks, events, i, r) && asks[r].token.jti == jti
    && Run(Start(server, asks), asks, events[..i]).phases[r].read.Floor < asks[r].token.exp
  }

  ghost function EntryEnd(server: Server, asks: Asks, events: seq<Event>, i: int, r: int): real
    requires WritesAt(server, asks, events, i, r)
  {
    events[i].now + (asks[r].token.exp - Run(Start(server, asks), asks, events[..i]).phases[r].read.Floor) as real
  }

  /** The last entry for the token among the first `n` events. */
  ghost predicate LatestEntry(server: Server, asks: Asks, events: seq<Event>, n: int, i: int, r: int, jti: int) {
    && i < n && EntersAt(server, asks, events, i, r, jti)
    && forall k, x :: i < k < n ==> !EntersAt(server, asks, events, k, x, jti)
  }

  lemma {:induction false} RunKeepsRequests(server: Server, asks: Asks, events: seq<Event>)
    ensures Run(Start(server, asks), asks, events).phases.Keys == asks.Keys
  {
    if events != [] {
      RunKeepsRequests(server, asks, events[..|events| - 1]);
    }
  }

  lemma OneStepOfBlacklist(server: Server, asks: Asks, events: seq<Event>, n: nat, jti: int)
    requires n < |events|
    ensures forall x :: EntersAt(server, asks, events, n, x, jti) ==> x == events[n].request
    ensures var s, s' := Run(Start(server, asks), asks, events[..n]), Run(Start(server, asks), asks, events[..n + 1]);
            var r := events[n].request;
            if EntersAt(server, asks, events, n, r, jti)
            then jti in s'.server.blacklist && s'.server.blacklist[jti] == EntryEnd(server, asks, events, n, r)
            else (jti in s'.server.blacklist <==> jti in s.server.blacklist)
                 && (jti in s.server.blacklist ==> s'.server.blacklist[jti] == s.server.blacklist[jti])
  {
    assert events[..n + 1][..n] == events[..n];
    RunKeepsRequests(server, asks, events[..n]);
  }

  /** The blacklist names a token exactly when some request has entered it, and the latest entry counts. */
  lemma {:induction false} BlacklistIsLatestEntry(server: Server, asks: Asks, events: seq<Event>, n: nat, jti: int)
    requires n <= |events| && jti !in server.blacklist
    ensures var blacklist := Run(Start(server, asks), asks, events[..n]).server.blacklist;
            && (jti !in blacklist ==> forall k, x :: k < n ==> !EntersAt(server, asks, events, k, x, jti))
            && (jti in blacklist ==>
                  exists i, r :: LatestEntry(server, asks, events, n, i, r, jti)
                                 && blacklist[jti] == EntryEnd(server, asks, events, i, r))
  {
    if n > 0 {
      BlacklistIsLatestEntry(server, asks, events, n - 1, jti);
      OneStepOfBlacklist(server, asks, events, n - 1, jti);
      NextLatestEntry(server, asks, events, n, jti);
    }
  }

  lemma NextLatestEntry(server: Server, asks: Asks, events: seq<Event>, n: nat, jti: int)
    requires 0 < n <= |events|
    ensures var r := events[n - 1].request;
            if EntersAt(server, asks, events, n - 1, r, jti) then LatestEntry(server, asks, events, n, n - 1, r, jti)
            else forall i, x :: LatestEntry(server, asks, events, n - 1, i, x, jti) ==>
                   LatestEntry(server, asks, events, n, i, x, jti)
  {
    OneStepOfBlacklist(server, asks, events, n - 1, jti);
  }

  lemma LatestEntryIsUnique(
    server: Server, asks: Asks, events: seq<Event>, n: int, i: int, r: int, j: int, q: int, jti: int)
    requires LatestEntry(server, asks, events, n, i, r, jti) && LatestEntry(server, asks, events, n, j, q, jti)
    ensures i == j && r == q
  {
  }

  /** What a look-up decides, and that it decides nothing else. */
  lemma LookUpDecides(server: Server, asks: Asks, events: seq<Event>, j: int, q: int)
    requires LooksUpAt(server, asks, events, j, q)
    ensures var s, s' := Run(Start(server, asks), asks, events[..j]), Run(Start(server, asks), asks, events[..j + 1]);
            q in s'.phases
            && s'.phases[q] == if Blacklisted(s.server, asks[q].token.jti, events[j].now) then Refused else Cleared
  {
    assert events[..j + 1][..j] == events[..j];
  }

  /** In every interleaving, early or late: a look-up refuses exactly while the latest entry for the token lasts. */
  lemma LookUpRefusesIff(server: Server, asks: Asks, events: seq<Event>, j: int, q: int)
    requires LooksUpAt(server, asks, events, j, q) && asks[q].token.jti !in server.blacklist
    ensures var after, jti := Run(Start(server, asks), asks, events[..j + 1]), asks[q].token.jti;
            && q in after.phases
            && (after.phases[q] == Cleared || after.phases[q] == Refused)
            && (after.phases[q] == Refused <==>
                  exists i, r :: LatestEntry(server, asks, events, j, i, r, jti)
                                 && events[j].now < EntryEnd(server, asks, events, i, r))
  {
    var jti := asks[q].token.jti;
    LookUpDecides(server, asks, events, j, q);
    BlacklistIsLatestEntry(server, asks, events, j, jti);
    var blacklist := Run(Start(server, asks), asks, events[..j]).server.blacklist;
    if jti in blacklist {
      var i, r :| LatestEntry(server, asks, events, j, i, r, jti)
                  && blacklist[jti] == EntryEnd(server, asks, events, i, r);
      forall k, x | LatestEntry(server, asks, events, j, k, x, jti)
        ensures EntryEnd(server, asks, events, k, x) == blacklist[jti]
      {
        LatestEntryIsUnique(server, asks, events, j, i, r, k, x, jti);
      }
    }
  }

  /** Before the token expires, a look-up clears the refresh if and only if no request has written for the token yet. */
  lemma ClearedIffFirst(server: Server, asks: Asks, events: seq<Event>, start: real, j: int, q: int)
    requires Sound(server) && InTimeOrder(events) && forall k :: 0 <= k < |events| ==> start <= events[k].now
    requires LooksUpAt(server, asks, events, j, q) && asks[q].token.jti !in server.blacklist
    requires events[j].now < asks[q].token.exp as real
    ensures var after := Run(Start(server, asks), asks, events[..j + 1]);
            && q in after.phases
            && (after.phases[q] == Cleared <==>
                  forall i, r :: i < j && WritesAt(server, asks, events, i, r) ==> asks[r].token != asks[q].token)
            && (after.phases[q] == Cleared || after.phases[q] == Refused)
  {
    LookUpRefusesIff(server, asks, events, j, q);
    if i, r :| i < j && WritesAt(server, asks, events, i, r) && asks[r].token == asks[q].token {
      RevokedIsRefusedInEveryInterleaving(server, asks, events, start, i, r, j, q);
    }
    if i, r :| LatestEntry(server, asks, events, j, i, r, asks[q].token.jti) {
      SameJtiSameToken(server, asks, events, start, i, r, j, q);
    }
  }

  /** Requests that got past decoding with the same `jti` carry the same token. */
  lemma SameJtiSameToken(server: Server, asks: Asks, events: seq<Event>, start: real, i: int, r: int, j: int, q: int)
    requires Sound(server) && InTimeOrder(events) && forall k :: 0 <= k < |events| ==> start <= events[k].now
    requires WritesAt(server, asks, events, i, r) && LooksUpAt(server, asks, events, j, q) && i < j
    requires asks[r].token.jti == asks[q].token.jti
    ensures asks[r].token == asks[q].token
  {
    var before := Run(Start(server, asks), asks, events[..j]);
    SpentAtLookUp(server, asks, events, start, i, r, j);
    RunKeepsAccurate(server, asks, events[..j], start);
    assert RequestOk(before.server, asks[q], before.phases[q], events[j - 1].now);
  }

  lemma {:induction false} RefusedStaysRefused(s: State, asks: Asks, events: seq<Event>, i: nat, r: int)
    requires i <= |events| && r in Run(s, asks, events[..i]).phases && Run(s, asks, events[..i]).phases[r].Refused?
    ensures r in Run(s, asks, events).phases && Run(s, asks, events).phases[r].Refused?
  {
    if i < |events| {
      var n := |events| - 1;
      assert events[..n][..i] == events[..i];
      RefusedStaysRefused(s, asks, events[..n], i, r);
    } else {
      assert events[..i] == events;
    }
  }

  lemma {:induction false} ClearedIsNeverRefused(s: State, asks: Asks, events: seq<Event>, i: nat, r: int)
    requires i <= |events| && r in Run(s, asks, events[..i]).phases
    requires var phase := Run(s, asks, events[..i]).phases[r]; phase.Cleared? || phase.Clocked? || phase.Done?
    ensures r in Run(s, asks, events).phases
    ensures var phase := Run(s, asks, events).phases[r]; phase.Cleared? || phase.Clocked? || phase.Done?
  {
    if i < |events| {
      var n := |events| - 1;
      assert events[..n][..i] == events[..i];
      ClearedIsNeverRefused(s, asks, events[..n], i, r);
    } else {
      assert events[..i] == events;
    }
  }

  /** So two refreshes with one token both succeed only if each looked it up before the other wrote. */
  lemma DoubleExchangeMeansOverlap(
    server: Server, asks: Asks, events: seq<Event>, start: real, i: int, r: int, k: int, j: int, q: int)
    requires Sound(server) && InTimeOrder(events) && forall l :: 0 <= l < |events| ==> start <= events[l].now
    requires WritesAt(server, asks, events, i, r) && WritesAt(server, asks, events, j, q)
    requires LooksUpAt(server, asks, events, k, q) && k < j && r != q
    requires asks[r].token == asks[q].token && events[k].now < asks[q].token.exp as real
    ensures k < i
  {
    if i < k {
      RevokedIsRefusedInEveryInterleaving(server, asks, events, start, i, r, k, q);
      assert events[..j][..k + 1] == events[..k + 1];
      RefusedStaysRefused(Start(server, asks), asks, events[..j], k + 1, q);
    }
  }

  /** The request has run to its end, one way or the other. */
  ghost predicate Ended(s: State, r: int) {
    r in s.phases && (s.phases[r].Done? || s.phases[r].Refused?)
  }

  /** No request has written for the token before event `n`. */
  ghost predicate UnwrittenBefore(server: Server, asks: Asks, events: seq<Event>, n: int, token: Token) {
    forall i, r :: i < n && WritesAt(server, asks, events, i, r) ==> asks[r].token != token
  }

  lemma ExchangedIffFirst(server: Server, asks: Asks, events: seq<Event>, start: real, j: int, q: int)
    requires Sound(server) && InTimeOrder(events) && forall k :: 0 <= k < |events| ==> start <= events[k].now
    requires LooksUpAt(server, asks, events, j, q) && asks[q].token.jti !in server.blacklist
    requires events[j].now < asks[q].token.exp as real && Ended(Run(Start(server, asks), asks, events), q)
    ensures Run(Start(server, asks), asks, events).phases[q].Done? <==>
              UnwrittenBefore(server, asks, events, j, asks[q].token)
  {
    ClearedIffFirst(server, asks, events, start, j, q);
    if Run(Start(server, asks), asks, events[..j + 1]).phases[q].Cleared? {
      ClearedIsNeverRefused(Start(server, asks), asks, events, j + 1, q);
    } else {
      RefusedStaysRefused(Start(server, asks), asks, events, j + 1, q);
    }
  }

  /** A look-up is not a write, so a write that does not come before it comes after it. */
  lemma WritesComeLater(server: Server, asks: Asks, events: seq<Event>, j: int, q: int, token: Token)
    requires LooksUpAt(server, asks, events, j, q)
    ensures UnwrittenBefore(server, asks, events, j, token) <==>
              forall k, x :: WritesAt(server, asks, events, k, x) && asks[x].token == token ==> j < k
  {
  }

  /**
   Two refreshes of one token that look it up before it expires both exchange it if and only
   if both look-ups come before every write for the token.
   */
  lemma DoubleExchangeIff(
    server: Server, asks: Asks, events: seq<Event>, start: real, i: int, r: int, j: int, q: int)
    requires Sound(server) && InTimeOrder(events) && forall k :: 0 <= k < |events| ==> start <= events[k].now
    requires LooksUpAt(server, asks, events, i, r) && LooksUpAt(server, asks, events, j, q) && r != q
    requires asks[r].token == asks[q].token && asks[q].token.jti !in server.blacklist
    requires events[i].now < asks[q].token.exp as real && events[j].now < asks[q].token.exp as real
    requires Ended(Run(Start(server, asks), asks, events), r) && Ended(Run(Start(server, asks), asks, events), q)
    ensures var phases := Run(Start(server, asks), asks, events).phases;
            phases[r].Done? && phases[q].Done? <==>
              forall k, x :: WritesAt(server, asks, events, k, x) && asks[x].token == asks[q].token ==> i < k && j < k
  {
    ExchangedIffFirst(server, asks, events, start, i, r);
    ExchangedIffFirst(server, asks, events, start, j, q);
    WritesComeLater(server, asks, events, i, r, asks[q].token);
    WritesComeLater(server, asks, events, j, q, asks[q].token);
  }

  // ---------------------------------------------------------------- two at once

  lemma Then(s: State, asks: Asks, done: seq<Event>, e: Event)
    ensures Run(s, asks, done + [e]) == Step(Run(s, asks, done), asks, e)
  {
    assert (done + [e])[..|done|] == done;
  }

  function Turn(done: seq<Event>): seq<Event> {
    done + [Event(1, 0.0)] + [Event(2, 0.0)]
  }

  lemma TurnIsTwoSteps(s: State, asks: Asks, done: seq<Event>)
    ensures Run(s, asks, Turn(done)) == Step(Step(Run(s, asks, done), asks, Event(1, 0.0)), asks, Event(2, 0.0))
  {
    Then(s, asks, done, Event(1, 0.0));
    Then(s, asks, done + [Event(1, 0.0)], Event(2, 0.0));
  }

  lemma BothLookUp(s: State, ask: Ask)
    requires ask.rotates && Decodes(s.server, ask.token, Refresh, 0.0) && !Blacklisted(s.server, ask.token.jti, 0.0)
    requires s.phases == map[1 := Arrived, 2 := Arrived]
    ensures Run(s, map[1 := ask, 2 := ask], Turn(Turn([]))) == State(s.server, map[1 := Cleared, 2 := Cleared])
  {
    var asks, a, b := map[1 := ask, 2 := ask], Event(1, 0.0), Event(2, 0.0);
    var half := State(s.server, map[1 := Decoded, 2 := Decoded]);
    assert Step(Step(s, asks, a), asks, b) == half;
    assert Step(Step(half, asks, a), asks, b) == State(s.server, map[1 := Cleared, 2 := Cleared]);
    TurnIsTwoSteps(s, asks, []);
    TurnIsTwoSteps(s, asks, Turn([]));
  }

  lemma BothWrite(s: State, asks: Asks, done: seq<Event>)
    requires asks.Keys == {1, 2} && Run(s, asks, done).phases == map[1 := Cleared, 2 := Cleared]
    ensures Run(s, asks, Turn(Turn(done))).phases == map[1 := Done, 2 := Done]
  {
    TurnIsTwoSteps(s, asks, done);
    assert Run(s, asks, Turn(done)).phases == map[1 := Clocked(0.0), 2 := Clocked(0.0)];
    TurnIsTwoSteps(s, asks, Turn(done));
  }

  ghost predicate AllAtOnce(events: seq<Event>) {
    forall i :: 0 <= i < |events| ==> events[i].now == 0.0
  }

  lemma TurnAtOnce(done: seq<Event>)
    requires AllAtOnce(done)
    ensures AllAtOnce(Turn(done))
  {}

  ghost predicate BothSucceed(server: Server, asks: Asks, events: seq<Event>) {
    InTimeOrder(events) && Run(Start(server, asks), asks, events).phases == map[1 := Done, 2 := Done]
  }

  /** Overlapping refreshes: both look the token up before either writes, and both are answered with a new pair. */
  lemma OneTokenExchangedTwice(server: Server, ask: Ask)
    requires ask.rotates && Decodes(server, ask.token, Refresh, 0.0) && !Blacklisted(server, ask.token.jti, 0.0)
    ensures exists events :: BothSucceed(server, map[1 := ask, 2 := ask], events)
  {
    var asks := map[1 := ask, 2 := ask];
    var s, looked := Start(server, asks), Turn(Turn([]));
    assert s.phases == map[1 := Arrived, 2 := Arrived];
    BothLookUp(s, ask);
    BothWrite(s, asks, looked);
    TurnAtOnce([]);
    TurnAtOnce(Turn([]));
    TurnAtOnce(looked);
    TurnAtOnce(Turn(looked));
    assert BothSucceed(server, asks, Turn(Turn(looked)));
  }

  // ---------------------------------------------------------------- requests end

  /** The steps of one request with nobody else about. */
  function Alone(s: State, asks: Asks, r: int, t: Times): State {
    var decoded := Step(s, asks, Event(r, t.decode));
    var checked := if asks.Keys >= {r} && asks[r].rotates then Step(decoded, asks, Event(r, t.check)) else decoded;
    Step(Step(checked, asks, Event(r, t.read)), asks, Event(r, t.write))
  }

  /**
   A refresh of a token that is ours, in time and not listed ends with the pair signed; a logout ends
   too. Both spend the token.
   */
  lemma LoneRequestEnds(s: State, asks: Asks, r: int, t: Times)
    requires Sound(s.server) && r in asks && r in s.phases && s.phases[r].Arrived? && Forward(t)
    requires Decodes(s.server, asks[r].token, Refresh, t.decode)
    requires asks[r].rotates ==> !Blacklisted(s.server, asks[r].token.jti, t.check)
    ensures var after, ask := Alone(s, asks, r, t), asks[r];
            && after.phases == s.phases[r := Done] && Spent(after.server, ask.token, t.write)
            && (ask.rotates ==>
                  && Signed(after.server, Token(s.server.nextJti, Access, ask.accessExp, ask.token.login))
                  && Signed(after.server, Token(s.server.nextJti + 1, Refresh, ask.refreshExp, ask.token.login)))
            && (!ask.rotates ==> after.server.signed == s.server.signed)
  {
    assert t.read.Floor as real <= t.read;
  }
}
