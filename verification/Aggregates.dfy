/** What the database's aggregate functions return over a finite set of rows. */
module Aggregates {
  ghost function AnyOf<T>(s: set<T>): (x: T)
    requires s != {}
    ensures x in s
  {
    var x :| x in s;
    x
  }

  /** The least element: `min(...)`, or the first id in ascending order. */
  function Least(s: set<int>): (m: int)
    requires s != {}
    ensures m in s && forall x :: x in s ==> m <= x
  {
    LeastExists(s);
    var m :| m in s && forall x :: x in s ==> m <= x;
    m
  }

  lemma {:induction false} LeastExists(s: set<int>)
    requires s != {}
    ensures exists m :: m in s && forall x :: x in s ==> m <= x
    decreases |s|
  {
    var x := AnyOf(s);
    var rest := s - {x};
    assert s == rest + {x};
    if rest != {} {
      LeastExists(rest);
      var m :| m in rest && forall y :: y in rest ==> m <= y;
      var least := if m <= x then m else x;
      assert least in s && forall y :: y in s ==> least <= y;
    } else {
      assert x in s && forall y :: y in s ==> x <= y;
    }
  }

  function Greatest(s: set<int>): (m: int)
    requires s != {}
    ensures m in s && forall x :: x in s ==> x <= m
  {
    var negated := set x | x in s :: -x;
    assert negated != {} by {
      assert -AnyOf(s) in negated;
    }
    var m := -Least(negated);
    assert forall x :: x in s ==> -x in negated;
    m
  }

  ghost predicate AscendingListOf(list: seq<int>, s: set<int>) {
    && (forall x :: x in list <==> x in s)
    && (forall i, j :: 0 <= i < j < |list| ==> list[i] < list[j])
    && |list| == |s|
  }

  lemma LeastInFront(m: int, rest: seq<int>, s: set<int>)
    requires m in s && (forall x :: x in s ==> m <= x) && AscendingListOf(rest, s - {m})
    ensures AscendingListOf([m] + rest, s)
  {
    assert s == (s - {m}) + {m};
    forall j | 0 <= j < |rest|
      ensures m < rest[j]
    {
      assert rest[j] in rest;
    }
  }

  /** The elements in ascending order. */
  function Ascending(s: set<int>): (list: seq<int>)
    ensures AscendingListOf(list, s)
  {
    if s == {} then []
    else
      var m := Least(s);
      var rest := Ascending(s - {m});
      LeastInFront(m, rest, s);
      [m] + rest
  }

  /** `sum(...)`, 0 over no rows. */
  function Sum(m: map<int, int>): int
    decreases |m|
  {
    if m == map[] then 0
    else
      KeysNonEmpty(m);
      var k := Least(m.Keys);
      SmallerMap(m, k);
      m[k] + Sum(m - {k})
  }

  lemma KeysNonEmpty<K, V>(m: map<K, V>)
    requires m != map[]
    ensures m.Keys != {}
  {
    assert m.Keys == {} ==> m == map[];
  }

  lemma SmallerMap<K, V>(m: map<K, V>, k: K)
    requires k in m
    ensures |m - {k}| == |m| - 1
  {
    assert (m - {k}).Keys == m.Keys - {k};
  }

  /** The order in which rows are added up does not matter. */
  lemma {:induction false} SumSplitsOff(m: map<int, int>, k: int)
    requires k in m
    ensures Sum(m) == m[k] + Sum(m - {k})
    decreases |m|
  {
    var l := Least(m.Keys);
    if k != l {
      SmallerMap(m, l);
      SumSplitsOff(m - {l}, k);
      assert k in m - {l} && l in m - {k};
      assert (m - {l}) - {k} == (m - {k}) - {l};
      assert Least((m - {k}).Keys) == l;
    }
  }
}
