/**
 * The sequence operations behind lodash's `groupBy`, `countBy` and `maxBy`:
 * the distinct values of a list in order of first appearance, and the
 * position of the first maximum.
 */
module Seqs {

  /** The distinct elements of xs, each where it first appears. */
  function Distinct<T(==)>(xs: seq<T>): seq<T>
    decreases |xs|
  {
    if xs == [] then []
    else
      var d := Distinct(xs[..|xs| - 1]);
      if xs[|xs| - 1] in d then d else d + [xs[|xs| - 1]]
  }

  /** Distinct keeps every element of xs, adds none, and lists none twice. */
  lemma {:induction false} DistinctMembers<T>(xs: seq<T>)
    ensures forall x :: x in Distinct(xs) <==> x in xs
    ensures forall i, j :: 0 <= i < j < |Distinct(xs)| ==> Distinct(xs)[i] != Distinct(xs)[j]
    decreases |xs|
  {
    if xs != [] {
      var p := xs[..|xs| - 1];
      DistinctMembers(p);
      assert xs == p + [xs[|xs| - 1]];
    }
  }

  /** The distinct elements of a prefix come first, in the same order. */
  lemma {:induction false} DistinctPrefix<T>(xs: seq<T>, n: nat)
    requires n <= |xs|
    ensures Distinct(xs[..n]) <= Distinct(xs)
    decreases |xs| - n
  {
    if n == |xs| {
      assert xs[..n] == xs;
    } else {
      DistinctPrefix(xs, n + 1);
      assert xs[..n + 1][..n] == xs[..n];
    }
  }

  /** The first position at which x occurs in xs. */
  lemma {:induction false} FirstOccurrence<T>(xs: seq<T>, x: T) returns (i: nat)
    requires x in xs
    ensures i < |xs| && xs[i] == x
    ensures x !in xs[..i]
    decreases |xs|
  {
    if xs[0] == x {
      i := 0;
    } else {
      var k := FirstOccurrence(xs[1..], x);
      i := k + 1;
      assert xs[..i] == [xs[0]] + xs[1..][..k];
    }
  }

  /** Every value Distinct lists occurs in xs. */
  lemma DistinctIn<T>(xs: seq<T>, i: nat)
    requires i < |Distinct(xs)|
    ensures Distinct(xs)[i] in xs
  {
    DistinctMembers(xs);
    assert Distinct(xs)[i] in Distinct(xs);
  }

  /**
   * Distinct lists values in order of first appearance: for i < j, the
   * first occurrence p of its i-th value comes before the first occurrence q
   * of its j-th value.
   */
  lemma {:induction false} DistinctFirstSeen<T>(xs: seq<T>, i: nat, j: nat) returns (p: nat, q: nat)
    requires i < j < |Distinct(xs)|
    ensures p < q < |xs|
    ensures xs[p] == Distinct(xs)[i] && Distinct(xs)[i] !in xs[..p]
    ensures xs[q] == Distinct(xs)[j] && Distinct(xs)[j] !in xs[..q]
    decreases |xs|
  {
    var n := |xs| - 1;
    var pre := xs[..n];
    var d := Distinct(pre);
    DistinctMembers(pre);
    if j < |d| {
      assert Distinct(xs)[i] == d[i] && Distinct(xs)[j] == d[j];
      p, q := DistinctFirstSeen(pre, i, j);
      assert pre[..p] == xs[..p] && pre[..q] == xs[..q];
    } else {
      assert Distinct(xs) == d + [xs[n]];
      assert i < |d|;
      var x := d[i];
      DistinctIn(pre, i);
      p := FirstOccurrence(pre, x);
      assert pre[..p] == xs[..p];
      q := n;
    }
  }

  /**
   * The position lodash's `maxBy` settles on: it walks left to right and
   * moves only on a strictly greater value, so it keeps the first maximum.
   */
  function FirstMax(cs: seq<nat>): (t: nat)
    requires cs != []
    ensures t < |cs|
    ensures forall k :: 0 <= k < |cs| ==> cs[k] <= cs[t]
    ensures forall k :: 0 <= k < t ==> cs[k] < cs[t]
    decreases |cs|
  {
    if |cs| == 1 then 0
    else
      var t := FirstMax(cs[..|cs| - 1]);
      if cs[|cs| - 1] > cs[t] then |cs| - 1 else t
  }
}
