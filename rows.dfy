/** Generic operations on an ordered table of rows: the meaning of an SQL
    `DELETE ... WHERE` (keep the rows the condition rejects) and of an
    `UPDATE ... SET ... WHERE` (rewrite the rows the condition selects). */
module Rows {

  /** The elements of `xs` satisfying `p`, in their original order. */
  function Filter<T>(xs: seq<T>, p: T -> bool): (r: seq<T>)
    ensures |r| <= |xs|
    ensures forall i :: 0 <= i < |r| ==> r[i] in xs && p(r[i])
    ensures forall i :: 0 <= i < |xs| && p(xs[i]) ==> xs[i] in r
  {
    if xs == [] then []
    else (if p(xs[0]) then [xs[0]] else []) + Filter(xs[1..], p)
  }

  /** Every element of `xs` rewritten by `f` where `p` holds, and left
      alone where it does not; the length never changes. */
  function UpdateWhere<T>(xs: seq<T>, p: T -> bool, f: T -> T): (r: seq<T>)
    ensures |r| == |xs|
    ensures forall i :: 0 <= i < |xs| ==> r[i] == (if p(xs[i]) then f(xs[i]) else xs[i])
  {
    if xs == [] then []
    else [if p(xs[0]) then f(xs[0]) else xs[0]] + UpdateWhere(xs[1..], p, f)
  }

  /** Filtering a one-element sequence keeps it or drops it. */
  lemma FilterSingleton<T>(x: T, p: T -> bool)
    ensures Filter([x], p) == if p(x) then [x] else []
  {
    assert [x][1..] == [];
  }

  /** Filtering distributes over concatenation: order is preserved. */
  lemma {:induction false} FilterAppend<T>(a: seq<T>, b: seq<T>, p: T -> bool)
    ensures Filter(a + b, p) == Filter(a, p) + Filter(b, p)
  {
    if a == [] {
      assert a + b == b;
    } else {
      assert (a + b)[0] == a[0];
      assert (a + b)[1..] == a[1..] + b;
      FilterAppend(a[1..], b, p);
    }
  }

  /** When every element satisfies `p`, filtering removes nothing. */
  lemma {:induction false} FilterKeepsAll<T>(xs: seq<T>, p: T -> bool)
    requires forall i :: 0 <= i < |xs| ==> p(xs[i])
    ensures Filter(xs, p) == xs
  {
    if xs != [] {
      assert p(xs[0]);
      FilterKeepsAll(xs[1..], p);
    }
  }

  /** When no element satisfies `p`, filtering removes everything. */
  lemma {:induction false} FilterKeepsNone<T>(xs: seq<T>, p: T -> bool)
    requires forall i :: 0 <= i < |xs| ==> !p(xs[i])
    ensures Filter(xs, p) == []
  {
    if xs != [] {
      assert !p(xs[0]);
      FilterKeepsNone(xs[1..], p);
    }
  }

  /** When exactly one position satisfies `p`, filtering yields that one element. */
  lemma {:induction false} FilterKeepsOnlyOne<T>(xs: seq<T>, p: T -> bool, i: nat)
    requires i < |xs| && p(xs[i])
    requires forall j :: 0 <= j < |xs| && j != i ==> !p(xs[j])
    ensures Filter(xs, p) == [xs[i]]
  {
    var tail := xs[1..];
    if i == 0 {
      assert forall j :: 0 <= j < |tail| ==> tail[j] == xs[j + 1];
      FilterKeepsNone(tail, p);
    } else {
      assert !p(xs[0]);
      assert forall j :: 0 <= j < |tail| ==> tail[j] == xs[j + 1];
      FilterKeepsOnlyOne(tail, p, i - 1);
    }
  }

  /** A second filter by the same condition removes nothing more. */
  lemma FilterIdempotent<T>(xs: seq<T>, p: T -> bool)
    ensures Filter(Filter(xs, p), p) == Filter(xs, p)
  {
    var r := Filter(xs, p);
    FilterKeepsAll(r, p);
  }

  /** Filtering by `q` after filtering by a weaker `p` is filtering by `q`. */
  lemma {:induction false} FilterFilterWeaker<T>(xs: seq<T>, p: T -> bool, q: T -> bool)
    requires forall i :: 0 <= i < |xs| && q(xs[i]) ==> p(xs[i])
    ensures Filter(Filter(xs, p), q) == Filter(xs, q)
  {
    if xs != [] {
      FilterFilterWeaker(xs[1..], p, q);
      var head := if p(xs[0]) then [xs[0]] else [];
      FilterAppend(head, Filter(xs[1..], p), q);
      if p(xs[0]) {
        FilterSingleton(xs[0], q);
      } else {
        assert Filter(head, q) == [];
      }
    }
  }
}
