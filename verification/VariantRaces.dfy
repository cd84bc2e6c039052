/**
 Concurrent creations of variants. Each first looks whether a variant with its value set
 exists and later stores its own; nothing is locked in between, and no constraint covers a
 variant's whole value set.
 */
module VariantRaces {
  /** What is asked for, and what is stored: a product and the value set of one of its variants. */
  datatype Combo = Combo(productId: int, values: set<int>)

  datatype Phase = Arrived | Cleared | Stored | Refused

  datatype State = State(variants: map<int, Combo>, nextId: int, phases: map<int, Phase>)

  type Asks = map<int, Combo>

  predicate Has(variants: map<int, Combo>, combo: Combo) {
    exists v :: v in variants && variants[v] == combo
  }

  /** The creation's next statement: the look-up, or the insert and commit. */
  function Step(s: State, asks: Asks, t: int): State {
    if t !in s.phases || t !in asks then s
    else
      match s.phases[t]
      case Arrived => s.(phases := s.phases[t := if Has(s.variants, asks[t]) then Refused else Cleared])
      case Cleared => State(s.variants[s.nextId := asks[t]], s.nextId + 1, s.phases[t := Stored])
      case Stored => s
      case Refused => s
  }

  function Run(s: State, asks: Asks, schedule: seq<int>): State {
    if schedule == [] then s else Step(Run(s, asks, schedule[..|schedule| - 1]), asks, schedule[|schedule| - 1])
  }

  function Start(variants: map<int, Combo>, nextId: int, asks: Asks): State {
    State(variants, nextId, map t | t in asks :: Arrived)
  }

  /** No two variants of a product have the same value set. */
  ghost predicate DistinctCombos(variants: map<int, Combo>) {
    forall v, w :: v in variants && w in variants && variants[v] == variants[w] ==> v == w
  }

  ghost predicate FreshIds(s: State) {
    forall v :: v in s.variants ==> v < s.nextId
  }

  // ---------------------------------------------------------------- which event does what

  ghost predicate InPhase(s: State, asks: Asks, schedule: seq<int>, n: int, phase: Phase) {
    && 0 <= n < |schedule| && schedule[n] in asks
    && var before := Run(s, asks, schedule[..n]);
       schedule[n] in before.phases && before.phases[schedule[n]] == phase
  }

  ghost predicate ChecksAt(s: State, asks: Asks, schedule: seq<int>, n: int, t: int) {
    InPhase(s, asks, schedule, n, Arrived) && schedule[n] == t
  }

  ghost predicate StoresAt(s: State, asks: Asks, schedule: seq<int>, n: int, t: int) {
    InPhase(s, asks, schedule, n, Cleared) && schedule[n] == t
  }

  ghost predicate ClearedAfter(s: State, asks: Asks, schedule: seq<int>, n: nat, t: int)
    requires n < |schedule|
  {
    var after := Run(s, asks, schedule[..n + 1]);
    t in after.phases && after.phases[t] == Cleared
  }

  /** Some creation stores this set before event `n`. */
  ghost predicate StoredBefore(s: State, asks: Asks, schedule: seq<int>, n: int, combo: Combo) {
    exists i, t :: i < n && StoresAt(s, asks, schedule, i, t) && asks[t] == combo
  }

  /** What is stored is what was there and what has been stored. */
  lemma {:induction false} StoredCombos(s: State, asks: Asks, schedule: seq<int>, n: nat, combo: Combo)
    requires FreshIds(s) && n <= |schedule|
    ensures FreshIds(Run(s, asks, schedule[..n]))
    ensures Has(Run(s, asks, schedule[..n]).variants, combo) <==>
              Has(s.variants, combo) || StoredBefore(s, asks, schedule, n, combo)
  {
    if n > 0 {
      StoredCombos(s, asks, schedule, n - 1, combo);
      assert schedule[..n][..n - 1] == schedule[..n - 1];
      StoreExtends(s, asks, schedule, n - 1, combo);
      OneMoreStore(s, asks, schedule, n - 1, combo);
    }
  }

  lemma StoreExtends(s: State, asks: Asks, schedule: seq<int>, n: nat, combo: Combo)
    requires n < |schedule| && FreshIds(Run(s, asks, schedule[..n]))
    ensures var before, after := Run(s, asks, schedule[..n]), Run(s, asks, schedule[..n + 1]);
            && FreshIds(after)
            && (Has(after.variants, combo) <==>
                  Has(before.variants, combo)
                  || (StoresAt(s, asks, schedule, n, schedule[n]) && asks[schedule[n]] == combo))
  {
    assert schedule[..n + 1][..n] == schedule[..n];
    var before, after := Run(s, asks, schedule[..n]), Run(s, asks, schedule[..n + 1]);
    if StoresAt(s, asks, schedule, n, schedule[n]) {
      OneMoreHas(before.variants, before.nextId, asks[schedule[n]], combo);
    } else {
      assert after.variants == before.variants;
    }
  }

  lemma OneMoreHas(variants: map<int, Combo>, id: int, stored: Combo, combo: Combo)
    requires id !in variants
    ensures Has(variants[id := stored], combo) <==> Has(variants, combo) || combo == stored
  {
    var after := variants[id := stored];
    assert after[id] == stored;
    if Has(variants, combo) {
      var v :| v in variants && variants[v] == combo;
      assert after[v] == combo;
    }
  }

  lemma OneMoreStore(s: State, asks: Asks, schedule: seq<int>, n: nat, combo: Combo)
    requires n < |schedule|
    ensures StoredBefore(s, asks, schedule, n + 1, combo) <==>
              StoredBefore(s, asks, schedule, n, combo)
              || (StoresAt(s, asks, schedule, n, schedule[n]) && asks[schedule[n]] == combo)
  {
  }

  /** A look-up clears a creation if and only if nobody had stored the set by then. */
  lemma ClearedIffFirst(s: State, asks: Asks, schedule: seq<int>, k: nat, t: int)
    requires FreshIds(s) && ChecksAt(s, asks, schedule, k, t)
    ensures var after := Run(s, asks, schedule[..k + 1]);
            && t in after.phases && (after.phases[t] == Cleared || after.phases[t] == Refused)
            && (after.phases[t] == Cleared <==>
                  !Has(s.variants, asks[t]) && !StoredBefore(s, asks, schedule, k, asks[t]))
  {
    assert schedule[..k + 1][..k] == schedule[..k];
    StoredCombos(s, asks, schedule, k, asks[t]);
  }

  lemma {:induction false} CheckedEarlier(
    variants: map<int, Combo>, nextId: int, asks: Asks, schedule: seq<int>, n: nat, t: int)
    requires n <= |schedule| && t in asks
    ensures var s := Start(variants, nextId, asks); var now := Run(s, asks, schedule[..n]);
            && t in now.phases
            && (now.phases[t] == Cleared || now.phases[t] == Stored ==>
                  exists k: nat :: k < n && ChecksAt(s, asks, schedule, k, t) && ClearedAfter(s, asks, schedule, k, t))
  {
    if n > 0 {
      var s := Start(variants, nextId, asks);
      CheckedEarlier(variants, nextId, asks, schedule, n - 1, t);
      assert schedule[..n][..n - 1] == schedule[..n - 1];
      var before, now := Run(s, asks, schedule[..n - 1]), Run(s, asks, schedule[..n]);
      if now.phases[t] == Cleared && before.phases[t] == Arrived {
        assert ChecksAt(s, asks, schedule, n - 1, t) && ClearedAfter(s, asks, schedule, n - 1, t);
      }
    }
  }

  // ---------------------------------------------------------------- when sets stay distinct

  /** Some creation looked before, and stored after, another stored the same set. */
  ghost predicate Overlap(s: State, asks: Asks, schedule: seq<int>, n: int) {
    exists k, i, j, t :: k < i < j < n && CrossesAt(s, asks, schedule, k, i, j, t)
  }

  ghost predicate CrossesAt(s: State, asks: Asks, schedule: seq<int>, k: int, i: int, j: int, t: int) {
    && ChecksAt(s, asks, schedule, k, t) && StoresAt(s, asks, schedule, j, t)
    && 0 <= i < |schedule| && StoresAt(s, asks, schedule, i, schedule[i]) && asks[schedule[i]] == asks[t]
  }

  /** A store that finds its set stored already was cleared before that happened. */
  lemma SecondStoreOverlaps(
    variants: map<int, Combo>, nextId: int, asks: Asks, schedule: seq<int>, n: nat, t: int)
    requires var s := Start(variants, nextId, asks);
             FreshIds(s) && StoresAt(s, asks, schedule, n, t) && Has(Run(s, asks, schedule[..n]).variants, asks[t])
    ensures Overlap(Start(variants, nextId, asks), asks, schedule, n + 1)
  {
    var s := Start(variants, nextId, asks);
    CheckedEarlier(variants, nextId, asks, schedule, n, t);
    var combo := asks[t];
    var k: nat :| k < n && ChecksAt(s, asks, schedule, k, t) && ClearedAfter(s, asks, schedule, k, t);
    ClearedIffFirst(s, asks, schedule, k, t);
    StoredCombos(s, asks, schedule, n, combo);
    var i, r :| i < n && StoresAt(s, asks, schedule, i, r) && asks[r] == combo;
    assert i < k ==> StoredBefore(s, asks, schedule, k, combo);
    assert CrossesAt(s, asks, schedule, k, i, n, t);
  }

  /** One more event keeps the two in step: stores of a set that is there are exactly the overlaps. */
  lemma OneMoreEvent(variants: map<int, Combo>, nextId: int, asks: Asks, schedule: seq<int>, n: nat)
    requires n < |schedule| && FreshIds(Start(variants, nextId, asks))
    requires var s := Start(variants, nextId, asks);
             DistinctCombos(Run(s, asks, schedule[..n]).variants) <==> !Overlap(s, asks, schedule, n)
    ensures var s := Start(variants, nextId, asks);
            DistinctCombos(Run(s, asks, schedule[..n + 1]).variants) <==> !Overlap(s, asks, schedule, n + 1)
  {
    var s, t := Start(variants, nextId, asks), schedule[n];
    assert schedule[..n + 1][..n] == schedule[..n];
    var before := Run(s, asks, schedule[..n]);
    if StoresAt(s, asks, schedule, n, t) {
      StoredCombos(s, asks, schedule, n, asks[t]);
      OneMoreVariant(before.variants, before.nextId, asks[t]);
      if Has(before.variants, asks[t]) {
        SecondStoreOverlaps(variants, nextId, asks, schedule, n, t);
      } else {
        NoNewOverlap(s, asks, schedule, n);
      }
    } else {
      NoNewOverlap(s, asks, schedule, n);
    }
  }

  lemma NothingYet(variants: map<int, Combo>, nextId: int, asks: Asks, schedule: seq<int>)
    ensures var s := Start(variants, nextId, asks);
            Run(s, asks, schedule[..0]).variants == variants && !Overlap(s, asks, schedule, 0)
  {
  }

  /**
   For any schedule of any creations on variants that are distinct: they stay distinct if and
   only if no creation looked before, and stored after, another stored the same set.
   */
  lemma {:induction false} DistinctIffNoOverlap(
    variants: map<int, Combo>, nextId: int, asks: Asks, schedule: seq<int>, n: nat)
    requires DistinctCombos(variants) && n <= |schedule|
    requires forall v :: v in variants ==> v < nextId
    ensures var s := Start(variants, nextId, asks);
            DistinctCombos(Run(s, asks, schedule[..n]).variants) <==> !Overlap(s, asks, schedule, n)
  {
    if n > 0 {
      DistinctIffNoOverlap(variants, nextId, asks, schedule, n - 1);
      OneMoreEvent(variants, nextId, asks, schedule, n - 1);
    } else {
      NothingYet(variants, nextId, asks, schedule);
    }
  }

  lemma OneMoreVariant(variants: map<int, Combo>, id: int, combo: Combo)
    requires forall v :: v in variants ==> v < id
    ensures DistinctCombos(variants[id := combo]) <==> DistinctCombos(variants) && !Has(variants, combo)
  {
    var after := variants[id := combo];
    if DistinctCombos(after) {
      forall v, w | v in variants && w in variants && variants[v] == variants[w] ensures v == w {
        assert after[v] == after[w];
      }
      forall v | v in variants ensures variants[v] != combo {
        assert after[v] == variants[v] && after[id] == combo;
      }
    }
  }

  lemma NoNewOverlap(s: State, asks: Asks, schedule: seq<int>, n: nat)
    requires FreshIds(s) && n < |schedule|
    requires StoresAt(s, asks, schedule, n, schedule[n]) ==>
               !Has(Run(s, asks, schedule[..n]).variants, asks[schedule[n]])
    ensures Overlap(s, asks, schedule, n + 1) <==> Overlap(s, asks, schedule, n)
  {
    if k, i, j, t :| k < i < j < n + 1 && CrossesAt(s, asks, schedule, k, i, j, t) {
      StoredCombos(s, asks, schedule, n, asks[t]);
      assert j == n ==> StoredBefore(s, asks, schedule, n, asks[t]);
      assert j < n;
    }
  }

  // ---------------------------------------------------------------- two at once

  lemma Then(s: State, asks: Asks, done: seq<int>, t: int)
    ensures Run(s, asks, done + [t]) == Step(Run(s, asks, done), asks, t)
  {
    assert (done + [t])[..|done|] == done;
  }

  /** Two creations of one set: both look, then both store, and the set is there twice. */
  lemma OneSetStoredTwice(combo: Combo)
    ensures var s, asks := Start(map[], 1, map[1 := combo, 2 := combo]), map[1 := combo, 2 := combo];
            Run(s, asks, [] + [1] + [2] + [1] + [2]).variants == map[1 := combo, 2 := combo]
  {
    var asks := map[1 := combo, 2 := combo];
    var s, none := Start(map[], 1, asks), [];
    Then(s, asks, none, 1);
    Then(s, asks, none + [1], 2);
    Then(s, asks, none + [1] + [2], 1);
    Then(s, asks, none + [1] + [2] + [1], 2);
  }
}
