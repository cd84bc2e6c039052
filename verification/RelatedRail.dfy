/** The related-products rail: buyable candidates in relevance order, topped up with the newest of the category. */
module RelatedRail {
  import opened Rows
  import opened Aggregates
  import opened Cards

  predicate Buyable(cards: CardTable, lang: Lang, p: ProductId) {
    var k := CardKey(p, lang);
    k in cards && cards[k].isActive && cards[k].inStock
  }

  /** Products whose card the batch read returns: buyable candidates other than the seed. */
  function Hydrated(cards: CardTable, lang: Lang, seed: ProductId, candidates: seq<ProductId>): set<ProductId> {
    set p | p in candidates && p != seed && Buyable(cards, lang, p)
  }

  /** Buyable products of the seed's category other than the seed. */
  function Siblings(cards: CardTable, lang: Lang, seed: ProductId, category: int): set<ProductId> {
    set k | k in cards && k.lang == lang && k.productId != seed && Buyable(cards, lang, k.productId)
      && cards[k].categoryId == category
      :: k.productId
  }

  function Descending(s: set<ProductId>): seq<ProductId>
    decreases |s|
  {
    if s == {} then [] else [Greatest(s)] + Descending(s - {Greatest(s)})
  }

  /** The newest `n` siblings. */
  function ListRelated(cards: CardTable, lang: Lang, seed: ProductId, category: int, n: nat): seq<ProductId> {
    Take(Descending(Siblings(cards, lang, seed, category)), n)
  }

  /** The elements of a list that are in a set, in the list's order. */
  function Within(list: seq<ProductId>, s: set<ProductId>): seq<ProductId> {
    if list == [] then []
    else
      var last := list[|list| - 1];
      Within(list[..|list| - 1], s) + if last in s then [last] else []
  }

  function Outside(list: seq<ProductId>, s: set<ProductId>): seq<ProductId> {
    if list == [] then []
    else
      var last := list[|list| - 1];
      Outside(list[..|list| - 1], s) + if last in s then [] else [last]
  }

  /**
   What the rail promises: every buyable candidate in order, then every other sibling newest first,
   cut at the limit.
   */
  function Rail(
    cards: CardTable, lang: Lang, seed: ProductId, category: int, candidates: seq<ProductId>,
    limit: nat): seq<ProductId> {
    var hits := Hydrated(cards, lang, seed, candidates);
    Take(Within(candidates, hits) + Outside(Descending(Siblings(cards, lang, seed, category)), hits), limit)
  }

  // ---------------------------------------------------------------- lists

  lemma {:induction false} DescendingLists(s: set<ProductId>)
    ensures Lists(Descending(s), s) && forall i, j :: 0 <= i < j < |Descending(s)| ==>
              Descending(s)[i] > Descending(s)[j]
    decreases |s|
  {
    if s != {} {
      DescendingLists(s - {Greatest(s)});
      GreatestInFront(s, Greatest(s), Descending(s - {Greatest(s)}));
    }
  }

  lemma GreatestInFront(s: set<ProductId>, g: ProductId, rest: seq<ProductId>)
    requires g in s && (forall x :: x in s ==> x <= g) && Lists(rest, s - {g})
    requires forall i, j :: 0 <= i < j < |rest| ==> rest[i] > rest[j]
    ensures Lists([g] + rest, s) && forall i, j :: 0 <= i < j < |[g] + rest| ==> ([g] + rest)[i] > ([g] + rest)[j]
  {
    forall j | 0 <= j < |rest| ensures g > rest[j] {
      var x := rest[j];
      assert x in rest;
    }
  }

  lemma {:induction false} WithinLists(list: seq<ProductId>, s: set<ProductId>)
    requires NoRepeats(list)
    ensures NoRepeats(Within(list, s)) && (forall x :: x in Within(list, s) <==> x in list && x in s)
    ensures NoRepeats(Outside(list, s)) && (forall x :: x in Outside(list, s) <==> x in list && x !in s)
    ensures |Within(list, s)| + |Outside(list, s)| == |list|
  {
    if list != [] {
      var n := |list| - 1;
      WithinLists(list[..n], s);
      assert list == list[..n] + [list[n]];
      assert list[n] !in list[..n];
    }
  }

  lemma {:induction false} OutsideAppend(a: seq<ProductId>, b: seq<ProductId>, s: set<ProductId>)
    ensures Outside(a + b, s) == Outside(a, s) + Outside(b, s)
    ensures Within(a + b, s) == Within(a, s) + Within(b, s)
  {
    if b == [] {
      assert a + b == a;
    } else {
      var n := |b| - 1;
      OutsideAppend(a, b[..n], s);
      assert (a + b)[..|a + b| - 1] == a + b[..n];
    }
  }

  lemma OneMoreWithin(list: seq<ProductId>, n: nat, s: set<ProductId>)
    requires n < |list|
    ensures Within(list[..n + 1], s) == Within(list[..n], s) + if list[n] in s then [list[n]] else []
    ensures Outside(list[..n + 1], s) == Outside(list[..n], s) + if list[n] in s then [] else [list[n]]
  {
    assert list[..n + 1][..n] == list[..n];
  }

  lemma TakePrefix(a: seq<ProductId>, b: seq<ProductId>, n: nat)
    requires n <= |a|
    ensures Take(a + b, n) == Take(a, n)
  {
    if n < |a + b| {
      assert (a + b)[..n] == a[..n];
    } else {
      assert b == [] && a + b == a;
    }
  }

  lemma EnoughRemain(fetched: seq<ProductId>, hits: set<ProductId>)
    requires NoRepeats(fetched)
    ensures |Outside(fetched, hits)| >= |fetched| - |hits|
  {
    WithinLists(fetched, hits);
    FewerThan(Within(fetched, hits), hits);
  }

  /** As many rows as were seen can be filtered out of the top-up, so reading that many more is enough. */
  lemma TopUpSuffices(list: seq<ProductId>, hits: set<ProductId>, missing: nat, limit: nat)
    requires NoRepeats(list) && missing <= limit && limit >= 1
    ensures var fetched := Take(list, limit + |hits| + 1);
            Take(Outside(fetched, hits), missing) == Take(Outside(list, hits), missing)
  {
    var n := limit + |hits| + 1;
    if n < |list| {
      var fetched, rest := list[..n], list[n..];
      EnoughRemain(fetched, hits);
      assert list == fetched + rest;
      OutsideAppend(fetched, rest, hits);
      TakePrefix(Outside(fetched, hits), Outside(rest, hits), missing);
    }
  }

  lemma FewerThan(list: seq<ProductId>, s: set<ProductId>)
    requires NoRepeats(list) && forall x :: x in list ==> x in s
    ensures |list| <= |s|
  {
    var elements := Elements(list);
    ListSize(list, elements);
    assert s == elements + (s - elements);
  }

  // ---------------------------------------------------------------- the two loops

  lemma CutHere(done: seq<ProductId>, rest: seq<ProductId>, limit: nat)
    requires |done| == limit
    ensures Take(done + rest, limit) == done
  {
    TakePrefix(done, rest, limit);
  }

  /** Relevance order is kept; the loop stops once the rail is full. */
  method PickHydrated(seed: ProductId, candidates: seq<ProductId>, hydrated: set<ProductId>, limit: nat)
    returns (picked: seq<ProductId>, seen: set<ProductId>)
    requires limit >= 1
    ensures picked == Take(Within(candidates, hydrated), limit)
    ensures seen == {seed} + Elements(picked)
  {
    picked := [];
    seen := {seed};
    var n := 0;
    while n < |candidates|
      invariant 0 <= n <= |candidates| && |picked| < limit
      invariant picked == Within(candidates[..n], hydrated)
      invariant seen == {seed} + Elements(picked)
    {
      OneMoreWithin(candidates, n, hydrated);
      var pid := candidates[n];
      n := n + 1;
      if pid in hydrated {
        picked := picked + [pid];
        seen := seen + {pid};
        if |picked| >= limit { break; }
      }
    }
    assert candidates == candidates[..n] + candidates[n..];
    OutsideAppend(candidates[..n], candidates[n..], hydrated);
    if |picked| >= limit {
      CutHere(picked, Within(candidates[n..], hydrated), limit);
    }
  }

  lemma NotBefore(list: seq<ProductId>, n: nat)
    requires NoRepeats(list) && n < |list|
    ensures list[n] !in Elements(list[..n]) && Elements(list[..n + 1]) == Elements(list[..n]) + {list[n]}
  {
    assert list[..n + 1] == list[..n] + [list[n]];
  }

  lemma UnseenStep(hits: seq<ProductId>, topup: seq<ProductId>, n: nat, already: set<ProductId>, seen: set<ProductId>)
    requires NoRepeats(topup) && n < |topup| && already <= seen <= already + Elements(topup[..n])
    ensures var p, picked := topup[n], hits + Outside(topup[..n], already);
            && (p in seen <==> p in already)
            && hits + Outside(topup[..n + 1], already) == (if p in seen then picked else picked + [p])
            && seen + {p} <= already + Elements(topup[..n + 1])
            && (p in seen ==> seen <= already + Elements(topup[..n + 1]))
  {
    OneMoreWithin(topup, n, already);
    NotBefore(topup, n);
    assert hits + (Outside(topup[..n], already) + [topup[n]]) == hits + Outside(topup[..n], already) + [topup[n]];
  }

  /** Appends what has not been seen yet until the rail is full. */
  method PickUnseen(topup: seq<ProductId>, hits: seq<ProductId>, already: set<ProductId>, limit: nat)
    returns (picked: seq<ProductId>)
    requires |hits| < limit && NoRepeats(topup)
    ensures picked == Take(hits + Outside(topup, already), limit)
  {
    picked := hits;
    var seen := already;
    var n := 0;
    while n < |topup|
      invariant 0 <= n <= |topup| && |picked| < limit
      invariant picked == hits + Outside(topup[..n], already)
      invariant already <= seen <= already + Elements(topup[..n])
    {
      UnseenStep(hits, topup, n, already, seen);
      var p := topup[n];
      n := n + 1;
      if p !in seen {
        picked := picked + [p];
        seen := seen + {p};
        if |picked| >= limit { break; }
      }
    }
    StoppedAt(hits, topup, already, n, limit);
  }

  lemma StoppedAt(hits: seq<ProductId>, topup: seq<ProductId>, already: set<ProductId>, n: nat, limit: nat)
    requires n <= |topup| && |hits + Outside(topup[..n], already)| <= limit
    requires n < |topup| ==> |hits + Outside(topup[..n], already)| == limit
    ensures Take(hits + Outside(topup, already), limit) == hits + Outside(topup[..n], already)
  {
    var added := Outside(topup[..n], already);
    assert topup == topup[..n] + topup[n..];
    OutsideAppend(topup[..n], topup[n..], already);
    assert hits + Outside(topup, already) == hits + added + Outside(topup[n..], already);
    if n < |topup| {
      CutHere(hits + added, Outside(topup[n..], already), limit);
    } else {
      assert topup[..n] == topup;
    }
  }

  /** `limit` is at least one at every caller. */
  method RelatedElastic(
    cards: CardTable, lang: Lang, seed: ProductId, category: int, candidates: seq<ProductId>, limit: nat)
    returns (picked: seq<ProductId>)
    requires limit >= 1
    ensures picked == Rail(cards, lang, seed, category, candidates, limit)
  {
    var hydrated := Hydrated(cards, lang, seed, candidates);
    ghost var hits, siblings := Within(candidates, hydrated), Descending(Siblings(cards, lang, seed, category));
    var seen;
    picked, seen := PickHydrated(seed, candidates, hydrated, limit);
    if |picked| < limit {
      var topup := ListRelated(cards, lang, seed, category, limit + |seen|);
      HitsAreHydrated(candidates, hydrated);
      NewestSiblings(cards, lang, seed, category, limit + |seen|);
      ToppedUp(siblings, seed, hydrated, hits, seen, limit);
      picked := PickUnseen(topup, picked, seen, limit);
    } else {
      FullOfHits(hits, Outside(siblings, hydrated), limit);
    }
  }

  /** With room left, topping up from the bounded read gives what topping up from the whole list would. */
  lemma ToppedUp(
    list: seq<ProductId>, seed: ProductId, hydrated: set<ProductId>, hits: seq<ProductId>, seen: set<ProductId>,
    limit: nat)
    requires NoRepeats(list) && seed !in list && seed !in hydrated && Elements(hits) == hydrated
    requires |Take(hits, limit)| < limit && seen == {seed} + Elements(Take(hits, limit))
    ensures Take(Take(hits, limit) + Outside(Take(list, limit + |seen|), seen), limit) ==
            Take(hits + Outside(list, hydrated), limit)
  {
    FirstFewHits(hits, hydrated, seed, seen, limit);
    TopUpShape(list, seed, hydrated, hits, limit);
  }

  lemma FullOfHits(hits: seq<ProductId>, rest: seq<ProductId>, limit: nat)
    requires limit >= 1 && |Take(hits, limit)| >= limit
    ensures Take(hits + rest, limit) == Take(hits, limit)
  {
    TakePrefix(hits, rest, limit);
  }

  lemma {:induction false} WithinHolds(list: seq<ProductId>, s: set<ProductId>, p: ProductId)
    ensures p in Within(list, s) <==> p in list && p in s
  {
    if list != [] {
      var n := |list| - 1;
      WithinHolds(list[..n], s, p);
      assert list == list[..n] + [list[n]];
    }
  }

  lemma HitsAreHydrated(candidates: seq<ProductId>, hydrated: set<ProductId>)
    requires hydrated <= Elements(candidates)
    ensures Elements(Within(candidates, hydrated)) == hydrated
  {
    forall p ensures p in Within(candidates, hydrated) <==> p in hydrated {
      WithinHolds(candidates, hydrated, p);
    }
  }

  /** When all the buyable candidates fit, what has been seen is those and the seed. */
  lemma FirstFewHits(hits: seq<ProductId>, hydrated: set<ProductId>, seed: ProductId, seen: set<ProductId>, limit: nat)
    requires seed !in hydrated && Elements(hits) == hydrated
    requires limit >= 1 && |Take(hits, limit)| < limit && seen == {seed} + Elements(Take(hits, limit))
    ensures Take(hits, limit) == hits && seen == {seed} + hydrated && |seen| == |hydrated| + 1
  {
    assert |{seed} + hydrated| == 1 + |hydrated|;
  }

  lemma {:induction false} SeedIsNoSibling(list: seq<ProductId>, hydrated: set<ProductId>, seed: ProductId)
    requires seed !in list
    ensures Outside(list, {seed} + hydrated) == Outside(list, hydrated)
  {
    if list != [] {
      SeedIsNoSibling(list[..|list| - 1], hydrated, seed);
    }
  }

  lemma TopUpShape(list: seq<ProductId>, seed: ProductId, hydrated: set<ProductId>, hits: seq<ProductId>, limit: nat)
    requires |hits| < limit && NoRepeats(list) && seed !in list
    ensures var topup := Take(list, limit + |hydrated| + 1);
            Take(hits + Outside(topup, {seed} + hydrated), limit) == Take(hits + Outside(list, hydrated), limit)
  {
    var topup := Take(list, limit + |hydrated| + 1);
    SeedIsNoSibling(topup, hydrated, seed);
    TopUpSuffices(list, hydrated, limit - |hits|, limit);
    CutAfterHits(hits, Outside(list, hydrated), limit);
    CutAfterHits(hits, Outside(topup, hydrated), limit);
  }

  lemma NewestSiblings(cards: CardTable, lang: Lang, seed: ProductId, category: int, n: nat)
    ensures var list := Descending(Siblings(cards, lang, seed, category)); NoRepeats(list) && seed !in list
    ensures NoRepeats(ListRelated(cards, lang, seed, category, n))
  {
    DescendingLists(Siblings(cards, lang, seed, category));
    TakeSize(Descending(Siblings(cards, lang, seed, category)), n);
  }

  lemma CutAfterHits(hits: seq<ProductId>, rest: seq<ProductId>, limit: nat)
    requires |hits| <= limit
    ensures Take(hits + rest, limit) == hits + Take(rest, limit - |hits|)
  {}

  lemma TakeSize(list: seq<ProductId>, n: nat)
    ensures |Take(list, n)| == (if n < |list| then n else |list|) && Take(list, n) <= list
  {}

  // ---------------------------------------------------------------- what the rail is worth

  lemma FirstAndRest(first: seq<ProductId>, rest: seq<ProductId>, hits: set<ProductId>, siblings: set<ProductId>)
    requires NoRepeats(first) && forall x :: x in first <==> x in hits
    requires NoRepeats(rest) && forall x :: x in rest <==> x in siblings && x !in hits
    ensures NoRepeats(first + rest) && |first + rest| == |hits + siblings|
    ensures forall x :: x in first + rest <==> x in hits + siblings
  {
    forall i, j | 0 <= i < |first| && 0 <= j < |rest| ensures first[i] != rest[j] {
      assert first[i] in first && rest[j] in rest;
    }
    ListSize(first + rest, hits + siblings);
  }

  /**
   No product twice, never the seed, buyable only, and as long as there is anything to show.
   Candidates have no repeats: they are the hits of one search over an index that holds one
   document per product, stored under the product's id.
   */
  lemma RailPromises(
    cards: CardTable, lang: Lang, seed: ProductId, category: int, candidates: seq<ProductId>, limit: nat)
    requires limit >= 1 && NoRepeats(candidates)
    ensures var rail := Rail(cards, lang, seed, category, candidates, limit);
            var eligible := Hydrated(cards, lang, seed, candidates) + Siblings(cards, lang, seed, category);
            && NoRepeats(rail) && seed !in rail
            && (forall p :: p in rail ==> p in eligible && Buyable(cards, lang, p))
            && |rail| == if limit < |eligible| then limit else |eligible|
  {
    var hits, siblings := Hydrated(cards, lang, seed, candidates), Siblings(cards, lang, seed, category);
    var first, rest := Within(candidates, hits), Outside(Descending(siblings), hits);
    DescendingLists(siblings);
    WithinLists(candidates, hits);
    WithinLists(Descending(siblings), hits);
    FirstAndRest(first, rest, hits, siblings);
    TakeSize(first + rest, limit);
    forall p | p in Take(first + rest, limit) ensures p in first + rest {}
  }

  /**
   What may appear, said of the cards: in the language, active, in stock, not the seed, and a
   candidate or of the seed's category.
   */
  ghost predicate Eligible(
    cards: CardTable, lang: Lang, seed: ProductId, category: int, candidates: seq<ProductId>, p: ProductId)
  {
    && p != seed && CardKey(p, lang) in cards
    && cards[CardKey(p, lang)].isActive && cards[CardKey(p, lang)].inStock
    && (p in candidates || cards[CardKey(p, lang)].categoryId == category)
  }

  lemma EligibleAre(
    cards: CardTable, lang: Lang, seed: ProductId, category: int, candidates: seq<ProductId>, p: ProductId)
    ensures p in Hydrated(cards, lang, seed, candidates) + Siblings(cards, lang, seed, category) <==>
              Eligible(cards, lang, seed, category, candidates, p)
  {
    if Eligible(cards, lang, seed, category, candidates, p) && p !in candidates {
      assert CardKey(p, lang) in cards;
    }
  }

  /** Only eligible products are shown, and all of them when there are fewer than the limit. */
  lemma RailShowsEligible(
    cards: CardTable, lang: Lang, seed: ProductId, category: int, candidates: seq<ProductId>, limit: nat, p: ProductId)
    requires limit >= 1 && NoRepeats(candidates)
    ensures var rail := Rail(cards, lang, seed, category, candidates, limit);
            && (p in rail ==> Eligible(cards, lang, seed, category, candidates, p))
            && (|rail| < limit ==> (p in rail <==> Eligible(cards, lang, seed, category, candidates, p)))
  {
    RailPromises(cards, lang, seed, category, candidates, limit);
    EligibleAre(cards, lang, seed, category, candidates, p);
    var hits, siblings := Hydrated(cards, lang, seed, candidates), Siblings(cards, lang, seed, category);
    var first, rest := Within(candidates, hits), Outside(Descending(siblings), hits);
    DescendingLists(siblings);
    WithinLists(candidates, hits);
    WithinLists(Descending(siblings), hits);
    FirstAndRest(first, rest, hits, siblings);
  }

  /** First before rest, each in its own order. */
  lemma TwoPartOrder(
    candidates: seq<ProductId>, list: seq<ProductId>, hits: set<ProductId>, limit: nat, i: nat, j: nat)
    requires (forall k, l :: 0 <= k < l < |list| ==> list[k] > list[l]) && hits <= Elements(candidates)
    requires forall p :: p in list && p in candidates ==> p in hits
    requires i < j < |Take(Within(candidates, hits) + Outside(list, hits), limit)|
    ensures var rail := Take(Within(candidates, hits) + Outside(list, hits), limit);
            && (rail[j] in candidates ==>
                  exists m, n :: 0 <= m < n < |candidates| && candidates[m] == rail[i] && candidates[n] == rail[j])
            && (rail[i] !in candidates ==> rail[j] !in candidates && rail[i] > rail[j])
  {
    var first, rest := Within(candidates, hits), Outside(list, hits);
    if j < |first| {
      WithinKeepsOrder(candidates, hits, i, j);
      HitIsCandidate(candidates, hits, i);
    } else {
      OthersAreNoCandidates(candidates, list, hits, j - |first|);
      if i >= |first| {
        OutsideDescends(list, hits, i - |first|, j - |first|);
      } else {
        HitIsCandidate(candidates, hits, i);
      }
    }
  }

  lemma HitIsCandidate(candidates: seq<ProductId>, hits: set<ProductId>, i: nat)
    requires i < |Within(candidates, hits)|
    ensures Within(candidates, hits)[i] in candidates
  {
    var p := Within(candidates, hits)[i];
    assert p in Within(candidates, hits);
    WithinHolds(candidates, hits, p);
  }

  lemma OthersAreNoCandidates(candidates: seq<ProductId>, list: seq<ProductId>, hits: set<ProductId>, i: nat)
    requires (forall p :: p in list && p in candidates ==> p in hits) && i < |Outside(list, hits)|
    ensures Outside(list, hits)[i] !in candidates
  {
    var p := Outside(list, hits)[i];
    assert p in Outside(list, hits);
    OutsideHolds(list, hits, p);
  }

  /** Candidates come first and in their own order; after them the other products, newest first. */
  lemma RailOrder(
    cards: CardTable, lang: Lang, seed: ProductId, category: int, candidates: seq<ProductId>, limit: nat,
    i: nat, j: nat)
    requires i < j < |Rail(cards, lang, seed, category, candidates, limit)|
    ensures var rail := Rail(cards, lang, seed, category, candidates, limit);
            && (rail[j] in candidates ==>
                  exists m, n :: 0 <= m < n < |candidates| && candidates[m] == rail[i] && candidates[n] == rail[j])
            && (rail[i] !in candidates ==> rail[j] !in candidates && rail[i] > rail[j])
  {
    var hits, siblings := Hydrated(cards, lang, seed, candidates), Siblings(cards, lang, seed, category);
    DescendingLists(siblings);
    forall p | p in Descending(siblings) && p in candidates ensures p in hits {
      assert p in siblings;
    }
    TwoPartOrder(candidates, Descending(siblings), hits, limit, i, j);
  }

  lemma {:induction false} WithinKeepsOrder(list: seq<ProductId>, s: set<ProductId>, i: nat, j: nat)
    requires i < j < |Within(list, s)|
    ensures exists m, n :: 0 <= m < n < |list| && list[m] == Within(list, s)[i] && list[n] == Within(list, s)[j]
  {
    var n := |list| - 1;
    var init := list[..n];
    if j < |Within(init, s)| {
      WithinKeepsOrder(init, s, i, j);
      var k, l :| 0 <= k < l < |init| && init[k] == Within(init, s)[i] && init[l] == Within(init, s)[j];
      assert list[k] == init[k] && list[l] == init[l];
    } else {
      var x := Within(init, s)[i];
      WithinHolds(init, s, x);
      assert x in Within(init, s);
      var k :| 0 <= k < |init| && init[k] == x;
      assert list[k] == x && list[n] == Within(list, s)[j];
    }
  }

  lemma {:induction false} OutsideDescends(list: seq<ProductId>, s: set<ProductId>, i: nat, j: nat)
    requires (forall k, l :: 0 <= k < l < |list| ==> list[k] > list[l]) && i < j < |Outside(list, s)|
    ensures Outside(list, s)[i] > Outside(list, s)[j]
  {
    var n := |list| - 1;
    var init := list[..n];
    if j < |Outside(init, s)| {
      OutsideDescends(init, s, i, j);
    } else {
      var x := Outside(init, s)[i];
      OutsideHolds(init, s, x);
      assert x in Outside(init, s);
      var k :| 0 <= k < |init| && init[k] == x;
      assert list[k] == x;
    }
  }

  lemma {:induction false} OutsideHolds(list: seq<ProductId>, s: set<ProductId>, p: ProductId)
    ensures p in Outside(list, s) <==> p in list && p !in s
  {
    if list != [] {
      var n := |list| - 1;
      OutsideHolds(list[..n], s, p);
      assert list == list[..n] + [list[n]];
    }
  }
}
