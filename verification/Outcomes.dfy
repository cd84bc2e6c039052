/** Shared result types: a missing value, and an operation that may be refused. */
module Outcomes {
  datatype Option<+T> = None | Some(value: T)

  datatype Result<+T, +E> = Ok(value: T) | Err(error: E)
}

/** Rows come back from the database as a list in some order, each row once. */
module Rows {
  ghost predicate NoRepeats<T>(list: seq<T>) {
    forall i, j :: 0 <= i < j < |list| ==> list[i] != list[j]
  }

  ghost predicate Lists<T(!new)>(list: seq<T>, rows: set<T>) {
    && (forall x :: x in list <==> x in rows)
    && NoRepeats(list)
  }

  method InSomeOrder<T(==,!new)>(rows: set<T>) returns (list: seq<T>)
    ensures Lists(list, rows)
  {
    list := [];
    var rest := rows;
    while rest != {}
      invariant rest <= rows
      invariant Lists(list, rows - rest)
      decreases rest
    {
      var x :| x in rest;
      list := list + [x];
      rest := rest - {x};
    }
  }

  lemma {:induction false} ListSize<T(!new)>(list: seq<T>, rows: set<T>)
    requires Lists(list, rows)
    ensures |list| == |rows|
  {
    if list == [] {
      assert rows == {};
    } else {
      var n := |list| - 1;
      assert list[n] in list;
      forall x
        ensures x in list[..n] <==> x in rows - {list[n]}
      {
        assert list == list[..n] + [list[n]];
      }
      ListSize(list[..n], rows - {list[n]});
    }
  }

  function Take<T>(list: seq<T>, n: nat): seq<T> {
    if n < |list| then list[..n] else list
  }

  function Elements<T>(list: seq<T>): set<T> {
    set x | x in list
  }

  lemma SubsetSize<T>(a: set<T>, b: set<T>)
    requires a <= b
    ensures |a| <= |b|
  {
    assert b == a + (b - a);
  }

  ghost function Image<A, B>(rows: set<A>, f: A -> B): set<B> {
    set x | x in rows :: f(x)
  }

  /** Rows mapped to distinct values keep their number. */
  lemma {:induction false} ImageSize<A, B>(rows: set<A>, f: A -> B)
    requires forall x, y :: x in rows && y in rows && f(x) == f(y) ==> x == y
    ensures |Image(rows, f)| == |rows|
  {
    if rows == {} {
      assert Image(rows, f) == {};
    } else {
      var x :| x in rows;
      ImageSize(rows - {x}, f);
      assert f(x) !in Image(rows - {x}, f);
      assert Image(rows, f) == Image(rows - {x}, f) + {f(x)};
    }
  }
}
