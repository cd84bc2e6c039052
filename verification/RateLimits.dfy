/** The fixed-window limiter: a counter per caller that expires, and what it lets through over any trace of requests. */
module RateLimits {
  /** `count` requests per `window` time units; the setting's parser refuses non-positive values. */
  datatype Limit = Limit(count: int, window: int)

  predicate Valid(limit: Limit) {
    limit.count > 0 && limit.window > 0
  }

  type Key = string

  /** A live counter: when its first hit was, and how many hits it has had. */
  datatype Counter = Counter(hits: int, since: int)

  type Counters = map<Key, Counter>

  /** The store drops a counter once its time to live has passed. */
  predicate Alive(limit: Limit, counters: Counters, key: Key, now: int) {
    key in counters && now < counters[key].since + limit.window
  }

  function Hit(limit: Limit, counters: Counters, key: Key, now: int): Counter {
    if Alive(limit, counters, key, now) then counters[key].(hits := counters[key].hits + 1) else Counter(1, now)
  }

  class RateLimiter {
    const limit: Limit
    /** Hits and time of expiry of every key the store still knows. */
    var hits: map<Key, int>
    var expiry: map<Key, int>

    ghost predicate Tracks(counters: Counters)
      reads this
    {
      && hits.Keys == counters.Keys && expiry.Keys == counters.Keys
      && forall key :: key in counters ==>
           hits[key] == counters[key].hits && expiry[key] == counters[key].since + limit.window
    }

    method Increment(key: Key, now: int) returns (n: int)
      modifies this
      ensures n == (if key in old(hits) && key in old(expiry) && now < old(expiry)[key] then old(hits)[key] + 1 else 1)
      ensures hits == old(hits)[key := n] && expiry == old(expiry)
    {
      n := if key in hits && key in expiry && now < expiry[key] then hits[key] + 1 else 1;
      hits := hits[key := n];
    }

    method Admit(key: Key, now: int, ghost counters: Counters) returns (ok: bool)
      requires Tracks(counters) && forall k :: k in counters ==> counters[k].hits >= 1
      modifies this
      ensures Tracks(counters[key := Hit(limit, counters, key, now)])
      ensures ok == (Hit(limit, counters, key, now).hits <= limit.count)
    {
      var n := Increment(key, now);
      if n == 1 { expiry := expiry[key := now + limit.window]; }
      ok := n <= limit.count;
    }
  }

  // ---------------------------------------------------------------- traces

  datatype Request = Request(key: Key, time: int)

  type Trace = seq<Request>

  ghost predicate InTimeOrder(trace: Trace) {
    forall i, j :: 0 <= i < j < |trace| ==> trace[i].time <= trace[j].time
  }

  function CountersAfter(limit: Limit, trace: Trace, n: nat): Counters
    requires n <= |trace|
  {
    if n == 0 then map[]
    else
      var before, r := CountersAfter(limit, trace, n - 1), trace[n - 1];
      before[r.key := Hit(limit, before, r.key, r.time)]
  }

  /** Whether the request at this place in the trace is let through. */
  function Admitted(limit: Limit, trace: Trace, i: nat): bool
    requires i < |trace|
  {
    Hit(limit, CountersAfter(limit, trace, i), trace[i].key, trace[i].time).hits <= limit.count
  }

  /** How many of a caller's first `n` requests from time `a` on are let through. */
  function AdmittedFrom(limit: Limit, trace: Trace, n: nat, key: Key, a: int): nat
    requires n <= |trace|
  {
    if n == 0 then 0
    else
      var r := trace[n - 1];
      AdmittedFrom(limit, trace, n - 1, key, a)
      + if r.key == key && a <= r.time && Admitted(limit, trace, n - 1) then 1 else 0
  }

  function Min(a: int, b: int): int {
    if a <= b then a else b
  }

  /** What a caller's counter says about the requests let through from any time `a` on. */
  ghost predicate Bounded(limit: Limit, trace: Trace, n: nat, key: Key, a: int)
    requires n <= |trace|
  {
    var admitted, counters := AdmittedFrom(limit, trace, n, key, a), CountersAfter(limit, trace, n);
    if key !in counters then admitted == 0
    else
      var Counter(hits, since) := counters[key];
      && hits >= 1
      && (a == since ==> admitted == Min(hits, limit.count))
      && (a > since ==> admitted < Min(hits, limit.count))
      && (a > since - limit.window ==> admitted < limit.count + Min(hits, limit.count))
      && (a >= since + limit.window ==> admitted == 0)
  }

  lemma {:induction false} CounterStartedBefore(limit: Limit, trace: Trace, n: nat, key: Key, b: int)
    requires n <= |trace| && forall i :: 0 <= i < n ==> trace[i].time < b
    ensures key in CountersAfter(limit, trace, n) ==> CountersAfter(limit, trace, n)[key].since < b
  {
    if n > 0 {
      CounterStartedBefore(limit, trace, n - 1, key, b);
    }
  }

  lemma {:induction false} AlwaysBounded(limit: Limit, trace: Trace, n: nat, key: Key, a: int)
    requires Valid(limit) && n <= |trace| && InTimeOrder(trace)
    ensures Bounded(limit, trace, n, key, a)
  {
    if n > 0 {
      CounterStartedBefore(limit, trace, n - 1, key, trace[n - 1].time + 1);
      AlwaysBounded(limit, trace, n - 1, key, a);
    }
  }

  /**
   A counter's generation lets through exactly its first `count` hits: never more, and never fewer
   while there are requests.
   */
  lemma GenerationAdmitsExactly(limit: Limit, trace: Trace, n: nat, key: Key)
    requires Valid(limit) && n <= |trace| && InTimeOrder(trace) && key in CountersAfter(limit, trace, n)
    ensures var Counter(hits, since) := CountersAfter(limit, trace, n)[key];
            AdmittedFrom(limit, trace, n, key, since) == Min(hits, limit.count)
  {
    AlwaysBounded(limit, trace, n, key, CountersAfter(limit, trace, n)[key].since);
  }

  /** How many of a caller's requests with `a <= time < b` are let through. */
  function AdmittedWithin(limit: Limit, trace: Trace, n: nat, key: Key, a: int, b: int): nat
    requires n <= |trace|
  {
    if n == 0 then 0
    else
      var r := trace[n - 1];
      AdmittedWithin(limit, trace, n - 1, key, a, b)
      + if r.key == key && a <= r.time < b && Admitted(limit, trace, n - 1) then 1 else 0
  }

  lemma {:induction false} WithinIsFrom(limit: Limit, trace: Trace, n: nat, key: Key, a: int, b: int)
    requires n <= |trace| && forall i :: 0 <= i < n ==> trace[i].time < b
    ensures AdmittedWithin(limit, trace, n, key, a, b) == AdmittedFrom(limit, trace, n, key, a)
  {
    if n > 0 {
      WithinIsFrom(limit, trace, n - 1, key, a, b);
    }
  }

  /** Any stretch of time as long as the window lets through fewer than twice the count, wherever it starts. */
  lemma {:induction false} AnyWindowIsBounded(limit: Limit, trace: Trace, n: nat, key: Key, a: int)
    requires Valid(limit) && n <= |trace| && InTimeOrder(trace)
    ensures AdmittedWithin(limit, trace, n, key, a, a + limit.window) <= 2 * limit.count - 1
  {
    if n > 0 {
      if trace[n - 1].time < a + limit.window {
        WithinIsFrom(limit, trace, n, key, a, a + limit.window);
        CounterStartedBefore(limit, trace, n, key, a + limit.window);
        AlwaysBounded(limit, trace, n, key, a);
      } else {
        AnyWindowIsBounded(limit, trace, n - 1, key, a);
      }
    }
  }

  // ---------------------------------------------------------------- the bound is reached

  /** One request opens a window, the rest of the budget goes at its last moment, and a whole budget right after. */
  function Burst(limit: Limit, key: Key): Trace
    requires Valid(limit)
  {
    seq(2 * limit.count,
        i => Request(key, if i == 0 then 0 else if i < limit.count then limit.window - 1 else limit.window))
  }

  lemma {:induction false} BurstSoFar(limit: Limit, key: Key, n: nat)
    requires Valid(limit) && limit.window >= 2 && 1 <= n <= 2 * limit.count
    ensures CountersAfter(limit, Burst(limit, key), n) ==
            map[key := if n <= limit.count then Counter(n, 0) else Counter(n - limit.count, limit.window)]
    ensures AdmittedFrom(limit, Burst(limit, key), n, key, 1) == n - 1
  {
    var trace := Burst(limit, key);
    if n > 1 {
      BurstSoFar(limit, key, n - 1);
    } else {
      assert CountersAfter(limit, trace, 0) == map[];
      assert AdmittedFrom(limit, trace, 0, key, 1) == 0;
      assert trace[0] == Request(key, 0);
    }
  }

  /** No smaller bound holds: for every limit with a window of two units or more some trace reaches it. */
  lemma BoundIsReached(limit: Limit, key: Key)
    requires Valid(limit) && limit.window >= 2
    ensures InTimeOrder(Burst(limit, key))
    ensures AdmittedWithin(limit, Burst(limit, key), 2 * limit.count, key, 1, 1 + limit.window) == 2 * limit.count - 1
  {
    BurstSoFar(limit, key, 2 * limit.count);
    WithinIsFrom(limit, Burst(limit, key), 2 * limit.count, key, 1, 1 + limit.window);
  }

  // ---------------------------------------------------------------- callers do not affect each other

  function RequestsOf(trace: Trace, key: Key): Trace {
    if trace == [] then []
    else
      var last := trace[|trace| - 1];
      RequestsOf(trace[..|trace| - 1], key) + if last.key == key then [last] else []
  }

  lemma {:induction false} PrefixDecides(limit: Limit, trace: Trace, more: Trace, n: nat)
    requires n <= |trace|
    ensures CountersAfter(limit, trace + more, n) == CountersAfter(limit, trace, n)
  {
    if n > 0 {
      PrefixDecides(limit, trace, more, n - 1);
    }
  }

  lemma {:induction false} OwnCounter(limit: Limit, trace: Trace, key: Key)
    ensures var own := RequestsOf(trace, key);
            var all, alone := CountersAfter(limit, trace, |trace|), CountersAfter(limit, own, |own|);
            (key in all <==> key in alone) && (key in all ==> all[key] == alone[key])
  {
    if trace != [] {
      var n := |trace| - 1;
      var rest, last := trace[..n], trace[n];
      var own := RequestsOf(rest, key);
      OwnCounter(limit, rest, key);
      assert rest + [last] == trace;
      if last.key == key {
        assert RequestsOf(trace, key) == own + [last];
      } else {
        assert RequestsOf(trace, key) == own;
      }
      PrefixDecides(limit, rest, [last], n);
      PrefixDecides(limit, own, [last], |own|);
    }
  }

  /** A request is let through exactly when it would be if its caller were the only one. */
  lemma CallersAreIndependent(limit: Limit, trace: Trace, request: Request)
    ensures var own := RequestsOf(trace, request.key);
            Admitted(limit, trace + [request], |trace|) == Admitted(limit, own + [request], |own|)
  {
    var own := RequestsOf(trace, request.key);
    OwnCounter(limit, trace, request.key);
    PrefixDecides(limit, trace, [request], |trace|);
    PrefixDecides(limit, own, [request], |own|);
  }

  // ---------------------------------------------------------------- what is let through

  /** A caller has a counter exactly from its first request on. */
  lemma {:induction false} CounterSinceFirstRequest(limit: Limit, trace: Trace, n: nat, key: Key)
    requires n <= |trace|
    ensures key in CountersAfter(limit, trace, n) <==> exists i :: 0 <= i < n && trace[i].key == key
    ensures key in CountersAfter(limit, trace, n) ==>
              exists i :: 0 <= i < n && trace[i] == Request(key, CountersAfter(limit, trace, n)[key].since)
  {
    if n > 0 {
      CounterSinceFirstRequest(limit, trace, n - 1, key);
    }
  }

  /**
   A request is turned away if and only if its caller's counter began less than a window ago and
   has let `count` requests through since; in particular a first one never is.
   */
  lemma RejectedIff(limit: Limit, trace: Trace, n: nat)
    requires Valid(limit) && n < |trace| && InTimeOrder(trace)
    ensures var key, now, counters := trace[n].key, trace[n].time, CountersAfter(limit, trace, n);
            && (!Admitted(limit, trace, n) <==>
                  key in counters && now < counters[key].since + limit.window
                  && AdmittedFrom(limit, trace, n, key, counters[key].since) >= limit.count)
            && ((forall i :: 0 <= i < n ==> trace[i].key != key) ==> Admitted(limit, trace, n))
  {
    var key, counters := trace[n].key, CountersAfter(limit, trace, n);
    CounterSinceFirstRequest(limit, trace, n, key);
    if key in counters {
      GenerationAdmitsExactly(limit, trace, n, key);
    }
  }
}
