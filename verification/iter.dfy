/** The iterator adapters the puzzles use: `filter(..).count()` and
    itertools' `tuples()` on pairs. */
module Iter {
  import opened Wrappers

  /** `xs.iter().filter(p).count()`. */
  function CountIf<T>(xs: seq<T>, p: T -> bool): (n: nat)
    ensures n <= |xs|
    ensures n == |xs| <==> forall i :: 0 <= i < |xs| ==> p(xs[i])
    ensures n == 0 <==> forall i :: 0 <= i < |xs| ==> !p(xs[i])
    decreases |xs|
  {
    if xs == [] then 0
    else
      var rest := CountIf(xs[1..], p);
      assert forall i :: 1 <= i < |xs| ==> xs[i] == xs[1..][i - 1];
      (if p(xs[0]) then 1 else 0) + rest
  }

  /** Counting distributes over concatenation. */
  lemma {:induction false} CountIfAppend<T>(xs: seq<T>, ys: seq<T>, p: T -> bool)
    ensures CountIf(xs + ys, p) == CountIf(xs, p) + CountIf(ys, p)
    decreases |xs|
  {
    if xs == [] {
      assert xs + ys == ys;
    } else {
      assert (xs + ys)[1..] == xs[1..] + ys;
      CountIfAppend(xs[1..], ys, p);
    }
  }

  /** The positions of `xs` whose element passes `p`. */
  function Positions<T>(xs: seq<T>, p: T -> bool): (ps: set<nat>)
    ensures forall i :: i in ps <==> 0 <= i < |xs| && p(xs[i])
  {
    set i: nat | i < |xs| && p(xs[i])
  }

  /** The count is the number of positions whose element passes. */
  lemma {:induction false} CountIfIsCardinality<T>(xs: seq<T>, p: T -> bool)
    ensures CountIf(xs, p) == |Positions(xs, p)|
    decreases |xs|
  {
    var all := Positions(xs, p);
    if xs == [] {
      assert all == {};
    } else {
      var n := |xs| - 1;
      var init := xs[..n];
      CountIfIsCardinality(init, p);
      CountIfAppend(init, [xs[n]], p);
      assert init + [xs[n]] == xs;
      var front := Positions(init, p);
      assert forall i :: i in front <==> i < n && i in all;
      if p(xs[n]) {
        assert all == front + {n};
      } else {
        assert all == front;
      }
    }
  }

  /** `.map(f).collect()`: `f` applied to every element, in order. */
  function Map<A, B>(xs: seq<A>, f: A -> B): (ys: seq<B>)
    ensures |ys| == |xs| && forall i :: 0 <= i < |xs| ==> ys[i] == f(xs[i])
  {
    seq(|xs|, i requires 0 <= i < |xs| => f(xs[i]))
  }
  /** Mapping one element more appends its image. */
  lemma MapSnoc<A, B>(xs: seq<A>, i: nat, f: A -> B)
    requires i < |xs|
    ensures Map(xs[..i + 1], f) == Map(xs[..i], f) + [f(xs[i])]
  {
  }

  /** Mapping a non-empty sequence: the image of its head, then the images
      of its tail. */
  lemma MapCons<A, B>(xs: seq<A>, f: A -> B)
    requires |xs| > 0
    ensures Map(xs, f) == [f(xs[0])] + Map(xs[1..], f)
  {
  }

  /** `.flat_map(f)`: the images of the elements, concatenated in order. */
  function FlatMap<A, B>(xs: seq<A>, f: A -> seq<B>): seq<B>
    decreases |xs|
  {
    if xs == [] then [] else f(xs[0]) + FlatMap(xs[1..], f)
  }

  /** itertools' `tuples()` for pairs: consecutive elements two at a time,
      an odd last element dropped. */
  function Pairs<T>(xs: seq<T>): (ps: seq<(T, T)>)
    ensures |ps| == |xs| / 2
    ensures forall i :: 0 <= i < |ps| ==> ps[i] == (xs[2 * i], xs[2 * i + 1])
    decreases |xs|
  {
    if |xs| < 2 then []
    else
      var rest := Pairs(xs[2..]);
      assert forall i :: 1 <= i < |rest| + 1 ==> rest[i - 1] == (xs[2 * i], xs[2 * i + 1]);
      [(xs[0], xs[1])] + rest
  }

  /** `.filter_map(f)`: the values of the elements `f` keeps, in order. */
  function FilterMap<A, B>(xs: seq<A>, f: A -> Option<B>): (ys: seq<B>)
    ensures |ys| <= |xs|
    decreases |xs|
  {
    if xs == [] then []
    else
      match f(xs[0])
      case None => FilterMap(xs[1..], f)
      case Some(y) => [y] + FilterMap(xs[1..], f)
  }

  /** Every value kept comes from some element. */
  lemma {:induction false} FilterMapFrom<A, B>(xs: seq<A>, f: A -> Option<B>, j: nat)
    requires j < |FilterMap(xs, f)|
    ensures exists i :: 0 <= i < |xs| && f(xs[i]) == Some(FilterMap(xs, f)[j])
    decreases |xs|
  {
    var rest := xs[1..];
    if f(xs[0]).None? {
      FilterMapFrom(rest, f, j);
      var i :| 0 <= i < |rest| && f(rest[i]) == Some(FilterMap(rest, f)[j]);
      assert rest[i] == xs[i + 1];
    } else if j > 0 {
      FilterMapFrom(rest, f, j - 1);
      var i :| 0 <= i < |rest| && f(rest[i]) == Some(FilterMap(rest, f)[j - 1]);
      assert rest[i] == xs[i + 1];
    }
  }

  /** The value of every element `f` keeps is among the values kept. */
  lemma {:induction false} FilterMapKeeps<A, B>(xs: seq<A>, f: A -> Option<B>, i: nat)
    requires i < |xs| && f(xs[i]).Some?
    ensures f(xs[i]).value in FilterMap(xs, f)
    decreases |xs|
  {
    if i > 0 {
      var rest := xs[1..];
      assert rest[i - 1] == xs[i];
      FilterMapKeeps(rest, f, i - 1);
    }
  }
}
