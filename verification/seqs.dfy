/** Index bookkeeping for `Array.prototype.filter`. */
module Seqs {

  /** The positions of the elements `keep` selects, in ascending order. */
  function Positions<T>(xs: seq<T>, keep: T -> bool): (ps: seq<nat>)
    ensures |ps| <= |xs|
    ensures forall t | 0 <= t < |ps| :: ps[t] < |xs| && keep(xs[ps[t]])
    ensures forall t, u | 0 <= t < u < |ps| :: ps[t] < ps[u]
    decreases |xs|
  {
    if |xs| == 0 then []
    else
      var ps := Positions(xs[..|xs| - 1], keep);
      assert forall k | 0 <= k < |xs| - 1 :: xs[..|xs| - 1][k] == xs[k];
      if keep(xs[|xs| - 1]) then ps + [|xs| - 1] else ps
  }

  /** Every selected position is listed. */
  lemma {:induction false} PositionsAreComplete<T>(xs: seq<T>, keep: T -> bool, k: nat)
    requires k < |xs| && keep(xs[k])
    ensures k in Positions(xs, keep)
    decreases |xs|
  {
    PositionsStep(xs, keep);
    if k < |xs| - 1 {
      assert xs[..|xs| - 1][k] == xs[k];
      PositionsAreComplete(xs[..|xs| - 1], keep, k);
    }
  }

  /** Nothing is selected when no element is kept. */
  lemma {:induction false} NoneSelected<T>(xs: seq<T>, keep: T -> bool)
    requires forall k | 0 <= k < |xs| :: !keep(xs[k])
    ensures Positions(xs, keep) == []
    decreases |xs|
  {
    if |xs| > 0 {
      PositionsStep(xs, keep);
      NoneSelected(xs[..|xs| - 1], keep);
    }
  }

  /** Nothing is selected exactly when no element is kept. */
  lemma NoneSelectedIff<T>(xs: seq<T>, keep: T -> bool)
    ensures Positions(xs, keep) == [] <==> forall k | 0 <= k < |xs| :: !keep(xs[k])
  {
    if forall k | 0 <= k < |xs| :: !keep(xs[k]) {
      NoneSelected(xs, keep);
    } else {
      var k :| 0 <= k < |xs| && keep(xs[k]);
      PositionsAreComplete(xs, keep, k);
    }
  }

  /** The positions in `xs` are those in all but its last element, then the last one if selected. */
  lemma PositionsStep<T>(xs: seq<T>, keep: T -> bool)
    requires |xs| > 0
    ensures var ps := Positions(xs[..|xs| - 1], keep);
            && Positions(xs, keep) == (if keep(xs[|xs| - 1]) then ps + [|xs| - 1] else ps)
            && forall t | 0 <= t < |ps| :: xs[ps[t]] == xs[..|xs| - 1][ps[t]]
  {
  }

  /** `xs.filter(keep)`: the selected elements, in their original order. */
  function Filter<T>(xs: seq<T>, keep: T -> bool): (ys: seq<T>)
    ensures |ys| == |Positions(xs, keep)|
    ensures forall t | 0 <= t < |ys| :: ys[t] == xs[Positions(xs, keep)[t]]
    decreases |xs|
  {
    if |xs| == 0 then []
    else
      var prefix := xs[..|xs| - 1];
      var last := xs[|xs| - 1];
      PositionsStep(xs, keep);
      Filter(prefix, keep) + (if keep(last) then [last] else [])
  }

  /** Filtering a sequence with a first element: that element when selected, then the rest filtered. */
  lemma {:induction false} FilterCons<T>(x: T, xs: seq<T>, keep: T -> bool)
    ensures Filter([x] + xs, keep) == (if keep(x) then [x] else []) + Filter(xs, keep)
    decreases |xs|
  {
    var ys := [x] + xs;
    if |xs| > 0 {
      assert ys[..|ys| - 1] == [x] + xs[..|xs| - 1];
      assert ys[|ys| - 1] == xs[|xs| - 1];
      FilterCons(x, xs[..|xs| - 1], keep);
    } else {
      assert ys[..|ys| - 1] == [];
    }
  }

  /** `xss.flat()`: the elements of all the sequences, one after the other. */
  function Flatten<T(!new)>(xss: seq<seq<T>>): (ys: seq<T>)
    ensures forall y :: y in ys <==> exists i | 0 <= i < |xss| :: y in xss[i]
    decreases |xss|
  {
    if |xss| == 0 then []
    else
      var prefix := xss[..|xss| - 1];
      assert forall i | 0 <= i < |prefix| :: prefix[i] == xss[i];
      Flatten(prefix) + xss[|xss| - 1]
  }

  /** Flattening keeps the inner sequences whole and in order: it distributes over concatenation. */
  lemma {:induction false} FlattenAppend<T(!new)>(a: seq<seq<T>>, b: seq<seq<T>>)
    ensures Flatten(a + b) == Flatten(a) + Flatten(b)
    decreases |b|
  {
    if |b| > 0 {
      var ab := a + b;
      assert ab[..|ab| - 1] == a + b[..|b| - 1];
      assert ab[|ab| - 1] == b[|b| - 1];
      FlattenAppend(a, b[..|b| - 1]);
    } else {
      assert a + b == a;
    }
  }

  /** A single inner sequence flattens to itself. */
  lemma FlattenOne<T(!new)>(x: seq<T>)
    ensures Flatten([x]) == x
  {
    assert [x][..0] == [];
  }

  /** `xs.flatMap(f)`. */
  function FlatMap<T, U(!new)>(xs: seq<T>, f: T -> seq<U>): seq<U> {
    Flatten(seq(|xs|, i requires 0 <= i < |xs| => f(xs[i])))
  }

  /** `xs.filter(keep).flatMap(f)` holds exactly what `f` gives for the selected elements. */
  lemma InFlatMapOfFilter<T, U(!new)>(xs: seq<T>, keep: T -> bool, f: T -> seq<U>, u: U)
    ensures u in FlatMap(Filter(xs, keep), f) <==> exists k | 0 <= k < |xs| :: keep(xs[k]) && u in f(xs[k])
  {
    InFlatMapOfFilterAt(xs, keep, f, u);
    SelectedAreKept(xs, keep, f, u);
  }

  lemma SelectedAreKept<T, U>(xs: seq<T>, keep: T -> bool, f: T -> seq<U>, u: U)
    ensures (exists t | 0 <= t < |Positions(xs, keep)| :: u in f(xs[Positions(xs, keep)[t]])) <==>
            (exists k | 0 <= k < |xs| :: keep(xs[k]) && u in f(xs[k]))
  {
    var ps := Positions(xs, keep);
    if exists t | 0 <= t < |ps| :: u in f(xs[ps[t]]) {
      var t :| 0 <= t < |ps| && u in f(xs[ps[t]]);
      assert keep(xs[ps[t]]);
    }
    if exists k | 0 <= k < |xs| :: keep(xs[k]) && u in f(xs[k]) {
      var k :| 0 <= k < |xs| && keep(xs[k]) && u in f(xs[k]);
      KeptIsSelected(xs, keep, f, u, k);
    }
  }

  lemma KeptIsSelected<T, U>(xs: seq<T>, keep: T -> bool, f: T -> seq<U>, u: U, k: nat)
    requires k < |xs| && keep(xs[k]) && u in f(xs[k])
    ensures exists t | 0 <= t < |Positions(xs, keep)| :: u in f(xs[Positions(xs, keep)[t]])
  {
    var ps := Positions(xs, keep);
    PositionsAreComplete(xs, keep, k);
    var t :| 0 <= t < |ps| && ps[t] == k;
    assert u in f(xs[ps[t]]);
  }

  /** The same, counting the selected elements by their place among the selected ones. */
  lemma InFlatMapOfFilterAt<T, U(!new)>(xs: seq<T>, keep: T -> bool, f: T -> seq<U>, u: U)
    ensures u in FlatMap(Filter(xs, keep), f) <==>
              exists t | 0 <= t < |Positions(xs, keep)| :: u in f(xs[Positions(xs, keep)[t]])
  {
    var ys := Filter(xs, keep);
    var ps := Positions(xs, keep);
    var xss := seq(|ys|, i requires 0 <= i < |ys| => f(ys[i]));
    assert FlatMap(ys, f) == Flatten(xss);
    assert u in Flatten(xss) <==> exists t | 0 <= t < |xss| :: u in xss[t];
    assert forall t | 0 <= t < |ys| :: xss[t] == f(xs[ps[t]]);
  }
}
