/** The cartesian product of the value lists of a product's selectors, one value from each list. */
module Combos {
  import opened Rows

  type ValueId = int

  /** Every way to take one value from each list; the last list varies fastest. */
  function Cartesian(lists: seq<seq<ValueId>>): seq<seq<ValueId>> {
    if lists == [] then [[]]
    else Prefixed(lists[0], Cartesian(lists[1..]))
  }

  /** Each head value in turn, in front of every tail. */
  function Prefixed(heads: seq<ValueId>, tails: seq<seq<ValueId>>): seq<seq<ValueId>> {
    if heads == [] then [] else Each(heads[0], tails) + Prefixed(heads[1..], tails)
  }

  function Each(head: ValueId, tails: seq<seq<ValueId>>): (r: seq<seq<ValueId>>)
    ensures |r| == |tails| && forall i :: 0 <= i < |r| ==> r[i] == [head] + tails[i]
  {
    seq(|tails|, i requires 0 <= i < |tails| => [head] + tails[i])
  }

  function SizesProduct(lists: seq<seq<ValueId>>): nat {
    if lists == [] then 1 else |lists[0]| * SizesProduct(lists[1..])
  }

  ghost predicate Picks(lists: seq<seq<ValueId>>, combo: seq<ValueId>) {
    |combo| == |lists| && forall i :: 0 <= i < |lists| ==> combo[i] in lists[i]
  }

  /** No value belongs to two of the lists. */
  ghost predicate PairwiseDisjoint(lists: seq<seq<ValueId>>) {
    forall i, j, v :: 0 <= i < j < |lists| && v in lists[i] ==> v !in lists[j]
  }

  lemma {:induction false} PrefixedSize(heads: seq<ValueId>, tails: seq<seq<ValueId>>)
    ensures |Prefixed(heads, tails)| == |heads| * |tails|
  {
    if heads != [] {
      PrefixedSize(heads[1..], tails);
      assert |heads| * |tails| == |tails| + |heads[1..]| * |tails|;
    }
  }

  lemma {:induction false} CartesianSize(lists: seq<seq<ValueId>>)
    ensures |Cartesian(lists)| == SizesProduct(lists)
  {
    if lists != [] {
      CartesianSize(lists[1..]);
      PrefixedSize(lists[0], Cartesian(lists[1..]));
    }
  }

  lemma {:induction false} PrefixedMembers(heads: seq<ValueId>, tails: seq<seq<ValueId>>, combo: seq<ValueId>)
    ensures combo in Prefixed(heads, tails) <==> combo != [] && combo[0] in heads && combo[1..] in tails
  {
    if heads != [] {
      PrefixedMembers(heads[1..], tails, combo);
      EachMembers(heads[0], tails, combo);
      assert heads == [heads[0]] + heads[1..];
    }
  }

  lemma EachMembers(head: ValueId, tails: seq<seq<ValueId>>, combo: seq<ValueId>)
    ensures combo in Each(head, tails) <==> combo != [] && combo[0] == head && combo[1..] in tails
  {
    if combo in Each(head, tails) {
      var i :| 0 <= i < |tails| && Each(head, tails)[i] == combo;
      assert combo[1..] == tails[i];
    }
    if combo != [] && combo[0] == head && combo[1..] in tails {
      var i :| 0 <= i < |tails| && tails[i] == combo[1..];
      assert combo == [head] + tails[i] == Each(head, tails)[i];
    }
  }

  /** The product holds exactly the picks of one value per list. */
  lemma {:induction false} CartesianMembers(lists: seq<seq<ValueId>>, combo: seq<ValueId>)
    ensures combo in Cartesian(lists) <==> Picks(lists, combo)
  {
    if lists == [] {
      assert combo in [[]] <==> combo == [];
    } else {
      PrefixedMembers(lists[0], Cartesian(lists[1..]), combo);
      if combo != [] {
        CartesianMembers(lists[1..], combo[1..]);
        PicksFirst(lists, combo);
      }
    }
  }

  lemma PicksFirst(lists: seq<seq<ValueId>>, combo: seq<ValueId>)
    requires lists != [] && combo != []
    ensures Picks(lists, combo) <==> combo[0] in lists[0] && Picks(lists[1..], combo[1..])
  {
    if combo[0] in lists[0] && Picks(lists[1..], combo[1..]) {
      forall i | 0 <= i < |lists|
        ensures combo[i] in lists[i]
      {
        assert i > 0 ==> combo[1..][i - 1] in lists[1..][i - 1];
      }
    }
  }

  lemma {:induction false} PrefixedNoRepeats(heads: seq<ValueId>, tails: seq<seq<ValueId>>)
    requires NoRepeats(heads) && NoRepeats(tails)
    ensures NoRepeats(Prefixed(heads, tails))
  {
    if heads != [] {
      var first, rest := Each(heads[0], tails), Prefixed(heads[1..], tails);
      PrefixedNoRepeats(heads[1..], tails);
      forall i, j | 0 <= i < |first| && 0 <= j < |rest|
        ensures first[i] != rest[j]
      {
        PrefixedMembers(heads[1..], tails, rest[j]);
        assert rest[j] in rest && first[i][0] == heads[0];
      }
      forall i, j | 0 <= i < j < |first|
        ensures first[i] != first[j]
      {
        assert first[i][1..] == tails[i] && first[j][1..] == tails[j];
      }
    }
  }

  /** No combination is produced twice. */
  lemma {:induction false} CartesianNoRepeats(lists: seq<seq<ValueId>>)
    requires forall i :: 0 <= i < |lists| ==> NoRepeats(lists[i])
    ensures NoRepeats(Cartesian(lists))
  {
    if lists != [] {
      CartesianNoRepeats(lists[1..]);
      PrefixedNoRepeats(lists[0], Cartesian(lists[1..]));
    }
  }

  /** A value belongs to one attribute, so two different picks are different value sets. */
  lemma DistinctPicksAreDistinctSets(lists: seq<seq<ValueId>>, c: seq<ValueId>, d: seq<ValueId>)
    requires PairwiseDisjoint(lists) && Picks(lists, c) && Picks(lists, d) && Elements(c) == Elements(d)
    ensures c == d
  {
    forall i | 0 <= i < |lists|
      ensures c[i] == d[i]
    {
      assert c[i] in Elements(c);
      var j :| 0 <= j < |d| && d[j] == c[i];
      assert c[i] in lists[i] && d[j] in lists[j];
      assert i < j || j < i || i == j;
    }
  }

  // ---------------------------------------------------------------- filling the gaps

  /** The value sets still missing, in combination order, given those that already exist. */
  function Missing(combos: seq<seq<ValueId>>, existing: set<set<ValueId>>): seq<set<ValueId>> {
    if combos == [] then []
    else
      var init, last := combos[..|combos| - 1], Elements(combos[|combos| - 1]);
      var before := Missing(init, existing);
      if last in existing || last in before then before else before + [last]
  }

  function CountSkipped(combos: seq<seq<ValueId>>, existing: set<set<ValueId>>): nat {
    if combos == [] then 0
    else
      var init, last := combos[..|combos| - 1], Elements(combos[|combos| - 1]);
      CountSkipped(init, existing) + if last in existing || last in Missing(init, existing) then 1 else 0
  }

  lemma {:induction false} MissingMembers(combos: seq<seq<ValueId>>, existing: set<set<ValueId>>, s: set<ValueId>)
    ensures s in Missing(combos, existing) <==> s !in existing && exists c :: c in combos && Elements(c) == s
    ensures NoRepeats(Missing(combos, existing))
    ensures |Missing(combos, existing)| + CountSkipped(combos, existing) == |combos|
  {
    if combos != [] {
      var init, c := combos[..|combos| - 1], combos[|combos| - 1];
      MissingMembers(init, existing, s);
      assert combos == init + [c];
      if s == Elements(c) { assert c in combos; }
      if exists d :: d in init && Elements(d) == s {
        var d :| d in init && Elements(d) == s;
        assert d in combos;
      }
    }
  }

  /** How many of the combinations some variant had before the run. */
  function CountExisting(combos: seq<seq<ValueId>>, existing: set<set<ValueId>>): nat {
    if combos == [] then 0
    else
      CountExisting(combos[..|combos| - 1], existing)
      + if Elements(combos[|combos| - 1]) in existing then 1 else 0
  }

  ghost predicate DistinctSets(combos: seq<seq<ValueId>>) {
    forall i, j :: 0 <= i < j < |combos| ==> Elements(combos[i]) != Elements(combos[j])
  }

  /** With distinct value sets, a combination is skipped only because a variant had it before the run. */
  lemma {:induction false} SkippedExistedBefore(combos: seq<seq<ValueId>>, existing: set<set<ValueId>>)
    requires DistinctSets(combos)
    ensures CountSkipped(combos, existing) == CountExisting(combos, existing)
  {
    if combos != [] {
      var n := |combos| - 1;
      var init := combos[..n];
      SkippedExistedBefore(init, existing);
      MissingMembers(init, existing, Elements(combos[n]));
      forall d | d in init
        ensures Elements(d) != Elements(combos[n])
      {
        var i :| 0 <= i < |init| && init[i] == d;
        assert combos[i] == d;
      }
    }
  }

  /** When every combination exists there is nothing to create. */
  lemma NothingMissing(combos: seq<seq<ValueId>>, existing: set<set<ValueId>>)
    requires forall c :: c in combos ==> Elements(c) in existing
    ensures Missing(combos, existing) == [] && CountSkipped(combos, existing) == |combos|
  {
    var missing := Missing(combos, existing);
    assert |missing| > 0 ==> missing[0] in missing;
    MissingMembers(combos, existing, if |missing| > 0 then missing[0] else {});
  }

  /** Selectors with disjoint, repetition-free value lists give combinations with pairwise different sets. */
  lemma CartesianDistinctSets(lists: seq<seq<ValueId>>)
    requires PairwiseDisjoint(lists) && forall i :: 0 <= i < |lists| ==> NoRepeats(lists[i])
    ensures DistinctSets(Cartesian(lists))
  {
    var combos := Cartesian(lists);
    CartesianNoRepeats(lists);
    forall i, j | 0 <= i < j < |combos|
      ensures Elements(combos[i]) != Elements(combos[j])
    {
      CartesianMembers(lists, combos[i]);
      CartesianMembers(lists, combos[j]);
      if Elements(combos[i]) == Elements(combos[j]) {
        DistinctPicksAreDistinctSets(lists, combos[i], combos[j]);
      }
    }
  }
}
