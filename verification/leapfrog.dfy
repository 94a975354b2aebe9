/** The leapfrog operator adv_leapfrog::op on one periodic row along x: the
    centred difference of level n, weighted by the mean of the Courant numbers
    at the two faces of the cell, is subtracted from level n+1. The face i + 1/2
    of cell i holds cx[i]; the face i - 1/2 is therefore cx[Prev(i)]. */
module Leapfrog {
  import opened Periodic

  /** The amount subtracted from psi[n+1](i). */
  function Decrement(cur: seq<real>, cx: seq<real>, i: int): real
    requires |cx| == |cur|
    requires 0 <= i < |cur|
  {
    var n := |cur|;
    0.5 * (cx[i] + cx[Prev(i, n)]) * (cur[Next(i, n)] - cur[Prev(i, n)])
  }

  /** adv_leapfrog::op: a single pass (step must be 1) that writes level n+1 only.
      The y and z Courant fields are accepted and ignored, as in the source. */
  function Op(psi: seq<seq<real>>, n: nat, step: int, cx: seq<real>, cy: seq<real>, cz: seq<real>): (r: seq<seq<real>>)
    requires step == 1
    requires n + 1 < |psi|
    requires |psi[n + 1]| == |psi[n]| == |cx|
    ensures |r| == |psi|
    ensures forall l :: 0 <= l < |psi| && l != n + 1 ==> r[l] == psi[l]
    ensures |r[n + 1]| == |psi[n + 1]|
    ensures forall i :: 0 <= i < |psi[n]| ==>
      r[n + 1][i] == psi[n + 1][i]
        - 0.5 * (cx[i] + cx[Prev(i, |cx|)]) * (psi[n][Next(i, |cx|)] - psi[n][Prev(i, |cx|)])
    ensures forall i :: 0 <= i < |cx| && cx[i] == 0.0 && cx[Prev(i, |cx|)] == 0.0 ==>
      r[n + 1][i] == psi[n + 1][i]
    ensures (forall i :: 0 <= i < |psi[n]| ==> psi[n][i] == psi[n][0]) ==> r[n + 1] == psi[n + 1]
  {
    psi[n + 1 := Row(psi[n], psi[n + 1], cx)]
  }

  /** The new level n+1 row: each cell of next less its decrement. */
  function Row(cur: seq<real>, next: seq<real>, cx: seq<real>): (r: seq<real>)
    requires |next| == |cur| == |cx|
    ensures |r| == |next|
    ensures forall i :: 0 <= i < |next| ==> r[i] == next[i] - Decrement(cur, cx, i)
    ensures forall i :: 0 <= i < |cx| && cx[i] == 0.0 && cx[Prev(i, |cx|)] == 0.0 ==> r[i] == next[i]
    ensures (forall i :: 0 <= i < |cur| ==> cur[i] == cur[0]) ==> r == next
  {
    DecrementVanishes(cur, cx);
    seq(|next|, i requires 0 <= i < |next| => next[i] - Decrement(cur, cx, i))
  }

  /** No transport across a cell whose faces both have a zero Courant number, nor
      where the two neighbours agree. */
  lemma DecrementVanishes(cur: seq<real>, cx: seq<real>)
    requires |cx| == |cur|
    ensures forall i :: 0 <= i < |cur| && cx[i] == 0.0 && cx[Prev(i, |cur|)] == 0.0 ==> Decrement(cur, cx, i) == 0.0
    ensures forall i :: 0 <= i < |cur| && cur[Next(i, |cur|)] == cur[Prev(i, |cur|)] ==> Decrement(cur, cx, i) == 0.0
  {
    forall i | 0 <= i < |cur|
      ensures cx[i] == 0.0 && cx[Prev(i, |cur|)] == 0.0 ==> Decrement(cur, cx, i) == 0.0
      ensures cur[Next(i, |cur|)] == cur[Prev(i, |cur|)] ==> Decrement(cur, cx, i) == 0.0
    {
      var x := cx[i] + cx[Prev(i, |cur|)];
      var y := cur[Next(i, |cur|)] - cur[Prev(i, |cur|)];
      ProductZero(0.5 * x, y);
    }
  }

  lemma ProductZero(x: real, y: real)
    ensures x == 0.0 || y == 0.0 ==> x * y == 0.0
  {
  }

  /** Under a uniform Courant number the centred differences cancel over a periodic
      row: the total of level n+1 is unchanged by the pass. */
  lemma UniformCourantConserves(psi: seq<seq<real>>, n: nat, cx: seq<real>, cy: seq<real>, cz: seq<real>)
    requires n + 1 < |psi|
    requires |psi[n + 1]| == |psi[n]| == |cx|
    requires forall i :: 0 <= i < |cx| ==> cx[i] == cx[0]
    ensures Sum(Op(psi, n, 1, cx, cy, cz)[n + 1]) == Sum(psi[n + 1])
  {
    RowConserves(psi[n], psi[n + 1], cx);
  }

  /** The row-level form: with a uniform Courant number the decrements are
      differences of a shifted sequence and cancel around the periodic row. */
  lemma {:induction false} RowConserves(cur: seq<real>, next: seq<real>, cx: seq<real>)
    requires |next| == |cur| == |cx|
    requires forall i :: 0 <= i < |cx| ==> cx[i] == cx[0]
    ensures Sum(Row(cur, next, cx)) == Sum(next)
  {
    var m := |cur|;
    if m > 0 {
      var c := cx[0];
      var a := seq(m, i requires 0 <= i < m => c * cur[i]);
      var ahead := seq(m, i requires 0 <= i < m => a[Next(i, m)]);
      var behind := seq(m, i requires 0 <= i < m => a[Prev(i, m)]);
      var d := seq(m, i requires 0 <= i < m => Decrement(cur, cx, i));
      UniformDecrements(cur, cx, c);
      forall i | 0 <= i < m
        ensures d[i] == ahead[i] - behind[i]
      {
        assert ahead[i] == c * cur[Next(i, m)] && behind[i] == c * cur[Prev(i, m)];
      }
      SumShiftNext(a, ahead);
      SumShiftPrev(a, behind);
      SumSub(ahead, behind, d);
      SumSub(next, d, Row(cur, next, cx));
    }
  }

  /** Under a uniform Courant number c, each decrement is the difference of the
      scaled neighbours. */
  lemma UniformDecrements(cur: seq<real>, cx: seq<real>, c: real)
    requires |cx| == |cur|
    requires forall i :: 0 <= i < |cx| ==> cx[i] == c
    ensures forall i :: 0 <= i < |cur| ==>
      Decrement(cur, cx, i) == c * cur[Next(i, |cur|)] - c * cur[Prev(i, |cur|)]
  {
    forall i | 0 <= i < |cur|
      ensures Decrement(cur, cx, i) == c * cur[Next(i, |cur|)] - c * cur[Prev(i, |cur|)]
    {
      CentredDifference(c, cur[Next(i, |cur|)], cur[Prev(i, |cur|)]);
    }
  }

  /** A mean of two equal Courant numbers times a difference distributes. */
  lemma CentredDifference(c: real, x: real, y: real)
    ensures 0.5 * (c + c) * (x - y) == c * x - c * y
  {
  }

  /** Only the x Courant field enters the update. */
  lemma IgnoresTransverseCourants(psi: seq<seq<real>>, n: nat, cx: seq<real>, cy: seq<real>, cz: seq<real>,
                                  cy2: seq<real>, cz2: seq<real>)
    requires n + 1 < |psi|
    requires |psi[n + 1]| == |psi[n]| == |cx|
    ensures Op(psi, n, 1, cx, cy, cz) == Op(psi, n, 1, cx, cy2, cz2)
  {
  }
}
