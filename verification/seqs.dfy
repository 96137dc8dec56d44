/** Generic sequence helpers shared by the protocol and the visualisation
    code. */
module Seqs {
  import opened ModArith
  import opened Options

  /** Index arithmetic of a row-major layout with rows of length m. */
  lemma RowMajor(i: int, j: int, m: int, len: int)
    requires 0 <= i < len && 0 <= j < m
    ensures 0 <= i * m + j < len * m
    ensures len * m == m + (len - 1) * m
    ensures i > 0 ==> i * m + j - m == (i - 1) * m + j
  {
    assert len * m == i * m + (len - i) * m;
    MulAtLeast(len - i, m);
    assert i * m >= 0;
    if i > 0 {
      assert i * m == m + (i - 1) * m;
    }
  }

  /** Concatenate rows that all have length m, row after row. */
  function Flatten<T>(rows: seq<seq<T>>, m: nat): (r: seq<T>)
    requires forall i :: 0 <= i < |rows| ==> |rows[i]| == m
    ensures |r| == |rows| * m
    ensures forall i, j :: 0 <= i < |rows| && 0 <= j < m ==>
              i * m + j < |r| && r[i * m + j] == rows[i][j]
    decreases |rows|
  {
    if |rows| == 0 then []
    else
      var tail := Flatten(rows[1..], m);
      var r := rows[0] + tail;
      assert |rows| * m == m + (|rows| - 1) * m;
      forall i, j | 0 <= i < |rows| && 0 <= j < m
        ensures i * m + j < |r| && r[i * m + j] == rows[i][j]
      {
        RowMajor(i, j, m, |rows|);
        if i > 0 {
          assert rows[i] == rows[1..][i - 1];
          RowMajor(i - 1, j, m, |rows| - 1);
        }
      }
      r
  }

  /** Every element of a flattening sits at some row and column. */
  lemma {:induction false} FlattenMember<T>(rows: seq<seq<T>>, m: nat, x: T)
    requires forall i :: 0 <= i < |rows| ==> |rows[i]| == m
    requires x in Flatten(rows, m)
    ensures exists i, j :: 0 <= i < |rows| && 0 <= j < m && rows[i][j] == x
    decreases |rows|
  {
    if x in rows[0] {
      var j :| 0 <= j < |rows[0]| && rows[0][j] == x;
      assert rows[0][j] == x;
    } else {
      FlattenMember(rows[1..], m, x);
      var i, j :| 0 <= i < |rows| - 1 && 0 <= j < m && rows[1..][i][j] == x;
      assert rows[i + 1][j] == x;
    }
  }

  /** The leading elements of a sequence are members of it. */
  lemma LeadingMembers<T>(r: seq<T>)
    ensures |r| > 0 ==> r[0] in r
    ensures |r| > 1 ==> r[1] in r
  {
  }

  /** Apply f to every element, keeping the order. */
  function MapSeq<T, U>(xs: seq<T>, f: T -> U): (r: seq<U>)
    ensures |r| == |xs|
    ensures forall i :: 0 <= i < |xs| ==> r[i] == f(xs[i])
  {
    if |xs| == 0 then [] else [f(xs[0])] + MapSeq(xs[1..], f)
  }

  /** The elements satisfying p, in their original order (`Array.filter`). */
  function Filter<T(!new)>(xs: seq<T>, p: T -> bool): (r: seq<T>)
    ensures |r| <= |xs|
    ensures forall x :: x in r <==> x in xs && p(x)
  {
    if |xs| == 0 then []
    else
      var rest := Filter(xs[1..], p);
      assert forall x :: x in xs <==> x == xs[0] || x in xs[1..];
      if p(xs[0]) then [xs[0]] + rest else rest
  }

  /** Filtering a sequence with a known head. */
  lemma FilterCons<T(!new)>(x: T, xs: seq<T>, p: T -> bool)
    ensures Filter([x] + xs, p) == (if p(x) then [x] else []) + Filter(xs, p)
  {
    assert ([x] + xs)[1..] == xs;
  }

  /** Filtering keeps every copy of a kept element and drops every copy of
      the others. */
  lemma {:induction false} FilterCount<T(!new)>(xs: seq<T>, p: T -> bool, x: T)
    ensures multiset(Filter(xs, p))[x] == if p(x) then multiset(xs)[x] else 0
  {
    if |xs| > 0 {
      FilterCount(xs[1..], p, x);
      assert xs == [xs[0]] + xs[1..];
      assert multiset(xs) == multiset{xs[0]} + multiset(xs[1..]);
    }
  }

  /** The present values, in order (`filter(Boolean)` after a map that
      returns an object or null). */
  function Somes<T(!new)>(xs: seq<Option<T>>): (r: seq<T>)
    ensures |r| <= |xs|
    ensures forall y :: y in r <==> Some(y) in xs
  {
    if |xs| == 0 then []
    else
      var rest := Somes(xs[1..]);
      assert forall o :: o in xs <==> o == xs[0] || o in xs[1..];
      if xs[0].Some? then [xs[0].value] + rest else rest
  }

  /** Mapping each element to an optional value and keeping the present
      ones is filtering and then mapping. */
  lemma {:induction false} SomesOfGuarded<T(!new), U(!new)>(opts: seq<Option<U>>, xs: seq<T>, p: T -> bool, f: T -> U)
    requires |opts| == |xs|
    requires forall i :: 0 <= i < |xs| ==> opts[i] == if p(xs[i]) then Some(f(xs[i])) else None
    ensures Somes(opts) == MapSeq(Filter(xs, p), f)
  {
    if |xs| > 0 {
      SomesOfGuarded(opts[1..], xs[1..], p, f);
    }
  }

  /** Mapping with f and then with a left inverse of f gives back the input. */
  lemma MapSeqInverse<T, U>(xs: seq<T>, f: T -> U, g: U -> T)
    requires forall x :: g(f(x)) == x
    ensures MapSeq(MapSeq(xs, f), g) == xs
  {
  }

  /** Concatenation of f over xs, in order (nested `forEach` loops that
      append). */
  function FlatMap<T, U(!new)>(xs: seq<T>, f: T -> seq<U>): (r: seq<U>)
    ensures forall y :: y in r <==> exists i :: 0 <= i < |xs| && y in f(xs[i])
  {
    if |xs| == 0 then []
    else
      var rest := FlatMap(xs[1..], f);
      forall y | y in rest
        ensures exists i :: 0 <= i < |xs| && y in f(xs[i])
      {
        var i :| 0 <= i < |xs[1..]| && y in f(xs[1..][i]);
        assert xs[1..][i] == xs[i + 1];
      }
      forall y, i | 1 <= i < |xs| && y in f(xs[i])
        ensures y in rest
      {
        assert xs[1..][i - 1] == xs[i];
      }
      f(xs[0]) + rest
  }

  lemma FlatMapHas<T, U(!new)>(xs: seq<T>, f: T -> seq<U>, i: int, y: U)
    requires 0 <= i < |xs| && y in f(xs[i])
    ensures y in FlatMap(xs, f)
  {
  }

  /** No element occurs twice. */
  predicate NoDup<T(==)>(xs: seq<T>) {
    forall i, j :: 0 <= i < j < |xs| ==> xs[i] != xs[j]
  }

  /** The first occurrence of every element, in order of first occurrence. */
  function Dedup<T(==,!new)>(xs: seq<T>): (r: seq<T>)
    ensures NoDup(r)
    ensures forall x :: x in r <==> x in xs
  {
    if |xs| == 0 then []
    else
      var init := xs[..|xs| - 1];
      var d := Dedup(init);
      assert forall x :: x in xs <==> x in init || x == xs[|xs| - 1] by {
        assert xs == init + [xs[|xs| - 1]];
      }
      if xs[|xs| - 1] in d then d else d + [xs[|xs| - 1]]
  }

  /** Dedup keeps first occurrences: appending elements that are already
      present changes nothing, and a new one goes to the end. */
  lemma DedupSnoc<T(!new)>(xs: seq<T>, x: T)
    ensures Dedup(xs + [x]) == if x in xs then Dedup(xs) else Dedup(xs) + [x]
  {
    assert (xs + [x])[..|xs + [x]| - 1] == xs;
  }

  lemma FilterAppend<T(!new)>(xs: seq<T>, ys: seq<T>, p: T -> bool)
    ensures Filter(xs + ys, p) == Filter(xs, p) + Filter(ys, p)
  {
    if |xs| > 0 {
      FilterAppend(xs[1..], ys, p);
      assert (xs + ys)[1..] == xs[1..] + ys;
    } else {
      assert xs + ys == ys;
    }
  }

  lemma MapSeqAppend<T, U>(xs: seq<T>, ys: seq<T>, f: T -> U)
    ensures MapSeq(xs + ys, f) == MapSeq(xs, f) + MapSeq(ys, f)
  {
  }
}
