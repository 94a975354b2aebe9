/** One row of a field on a periodic (self-neighbour) domain of n cells, with the
    neighbour indices that the halo supplies and the domain sum that the flux-form
    stencils conserve. */
module Periodic {
  import Grid

  /** The right neighbour of cell i: the halo cell n reads owned cell (n + n) % n = 0. */
  function Next(i: int, n: int): (r: int)
    requires 0 <= i < n
    ensures 0 <= r < n
    ensures i + 1 < n ==> r == i + 1
    ensures i + 1 == n ==> r == 0
  {
    Grid.Wrap(i + 1, n)
  }

  /** The left neighbour of cell i: the halo cell -1 reads owned cell (-1 + n) % n = n - 1. */
  function Prev(i: int, n: int): (r: int)
    requires 0 <= i < n
    ensures 0 <= r < n
    ensures i > 0 ==> r == i - 1
    ensures i == 0 ==> r == n - 1
  {
    Grid.Wrap(i - 1, n)
  }

  lemma NextOfPrev(i: int, n: int)
    requires 0 <= i < n
    ensures Next(Prev(i, n), n) == i
  {
  }

  function Sum(s: seq<real>): real {
    if |s| == 0 then 0.0 else s[0] + Sum(s[1..])
  }

  lemma {:induction false} SumConcat(a: seq<real>, b: seq<real>)
    ensures Sum(a + b) == Sum(a) + Sum(b)
  {
    if |a| == 0 {
      assert a + b == b;
    } else {
      assert (a + b)[1..] == a[1..] + b;
      SumConcat(a[1..], b);
    }
  }

  /** Sum distributes over a cell-wise difference. */
  lemma {:induction false} SumSub(a: seq<real>, b: seq<real>, d: seq<real>)
    requires |a| == |b| == |d|
    requires forall i :: 0 <= i < |d| ==> d[i] == a[i] - b[i]
    ensures Sum(d) == Sum(a) - Sum(b)
  {
    if |d| > 0 {
      SumSub(a[1..], b[1..], d[1..]);
    }
  }

  /** Reading every cell's right neighbour visits each cell once: the sum is unchanged. */
  lemma SumShiftNext(a: seq<real>, d: seq<real>)
    requires |a| == |d|
    requires forall i :: 0 <= i < |d| ==> d[i] == a[Next(i, |a|)]
    ensures Sum(d) == Sum(a)
  {
    var n := |a|;
    if n > 0 {
      assert d == a[1..] + a[..1];
      SumConcat(a[1..], a[..1]);
      SumConcat(a[..1], a[1..]);
      assert a[..1] + a[1..] == a;
    }
  }

  /** Reading every cell's left neighbour visits each cell once: the sum is unchanged. */
  lemma SumShiftPrev(a: seq<real>, d: seq<real>)
    requires |a| == |d|
    requires forall i :: 0 <= i < |d| ==> d[i] == a[Prev(i, |a|)]
    ensures Sum(d) == Sum(a)
  {
    var n := |a|;
    if n > 0 {
      assert d == a[n - 1..] + a[..n - 1];
      SumConcat(a[n - 1..], a[..n - 1]);
      SumConcat(a[..n - 1], a[n - 1..]);
      assert a[..n - 1] + a[n - 1..] == a;
    }
  }

  /** Telescoping: when cell i loses the flux through its right face, phi[i], and
      gains the flux through its left face, phi[Prev(i)], the domain total is unchanged. */
  lemma Telescope(phi: seq<real>, d: seq<real>)
    requires |phi| == |d|
    requires forall i :: 0 <= i < |d| ==> d[i] == phi[i] - phi[Prev(i, |phi|)]
    ensures Sum(d) == 0.0
  {
    var n := |phi|;
    var back := seq(n, i requires 0 <= i < n => phi[Prev(i, n)]);
    SumShiftPrev(phi, back);
    SumSub(phi, back, d);
  }
}
