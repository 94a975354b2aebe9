/** Halo filling on a self-neighbour periodic subdomain [0, n) along each axis,
    shared by both solver revisions. A fill along axis `a` writes the halo cells
    whose `a` coordinate is in lo..hi and whose other two coordinates lie in the
    given ranges, reading the same field at a source coordinate along `a`. */
module Halo {
  import opened Grid

  /** The cells one directional fill writes (idx_ijk / idx_jki / idx_kij order). */
  predicate InSlab(c: Cell, a: Axis, lo: int, hi: int, r1: Rng, r2: Rng) {
    lo <= Coord(c, a) <= hi && r1.Contains(Across(c, a).0) && r2.Contains(Across(c, a).1)
  }

  /** A Blitz range assignment psi(dest slab) = psi(source slab) along axis a:
      the cell at position x of lo..hi reads position x - lo of the source
      range, which starts at `srcLo`. */
  function RangeCopy(f: Field, a: Axis, lo: int, hi: int, srcLo: int, r1: Rng, r2: Rng): Field {
    (c: Cell) =>
      if InSlab(c, a, lo, hi, r1, r2) then f(WithCoord(c, a, srcLo + (Coord(c, a) - lo))) else f(c)
  }

  /** Each listed slab cell copies coordinate 0 along a (the degenerate-axis loop). */
  function CopyFromZero(f: Field, a: Axis, lo: int, hi: int, r1: Rng, r2: Rng): Field {
    (c: Cell) => if InSlab(c, a, lo, hi, r1, r2) then f(WithCoord(c, a, 0)) else f(c)
  }

  /** The start of the source range both revisions compute, (lo + mod) % mod in C++. */
  function SourceStart(lo: int, mod: int): int
    requires mod > 0
  {
    CRem(lo + mod, mod)
  }

  /** The two halo ranges of an axis of extent n with halo width h. */
  predicate LeftHalo(lo: int, hi: int, h: int) { lo == -h && hi == -1 }

  predicate RightHalo(lo: int, hi: int, n: int, h: int) { lo == n && hi == n - 1 + h }

  /** When the halo is not wider than the axis, the position-matched range copy
      reads exactly the periodic image (x + n) % n of every halo coordinate, and
      the source range has the same length as the destination (Blitz requires it). */
  lemma RangeCopyIsWrap(lo: int, hi: int, n: int, h: int, x: int)
    requires 1 <= n && 0 <= h <= n
    requires LeftHalo(lo, hi, h) || RightHalo(lo, hi, n, h)
    requires lo <= x <= hi
    ensures SourceStart(lo, n) + (x - lo) == Wrap(x, n)
    ensures CRem(hi + n, n) - SourceStart(lo, n) == hi - lo
  {
    if LeftHalo(lo, hi, h) {
      ModOffset(n - h, n, 0);
      ModOffset(n - 1, n, 0);
    } else {
      ModOffset(2 * n, n, 2);
      ModOffset(2 * n - 1 + h, n, 2);
    }
  }

  /** Any slab that starts no lower than -mod and whose source range, computed
      with the C++ remainder, is as long as the destination reads the periodic
      image of each of its coordinates: the source never wraps inside the slab. */
  lemma RangeCopyAligned(lo: int, hi: int, mod: int, x: int)
    requires mod >= 1 && -mod <= lo <= x <= hi
    requires CRem(hi + mod, mod) - SourceStart(lo, mod) == hi - lo
    ensures SourceStart(lo, mod) + (x - lo) == Wrap(x, mod)
  {
    var s := SourceStart(lo, mod);
    var t := CRem(hi + mod, mod);
    assert 0 <= s && t < mod;
    var q := (lo + mod) / mod;
    assert lo + mod == q * mod + s;
    var v := s + (x - lo);
    assert 0 <= v < mod;
    assert x - (q - 1) * mod == v;
    ModOffset(x, mod, q - 1);
  }

  /** a % n when a lies k periods above the owned range. */
  lemma ModOffset(a: int, n: int, k: int)
    requires n >= 1 && 0 <= a - k * n < n
    ensures a % n == a - k * n
  {
    var q, r := a / n, a % n;
    assert a == q * n + r;
    assert (q - k) * n == (a - k * n) - r;
    MulOutsideUnit(q - k, n);
  }

  /** A non-zero multiple of n is at least n in magnitude. */
  lemma MulOutsideUnit(d: int, n: int)
    requires n >= 1
    ensures d >= 1 ==> d * n >= n
    ensures d <= -1 ==> d * n <= -n
  {
    if d >= 1 {
      assert (d - 1) * n >= 0;
    } else if d <= -1 {
      assert (-d - 1) * n >= 0;
    }
  }

  /** Without the bound the copy is misaligned: with n = 2 and h = 3 the left
      source range (-3 + 2) % 2 .. (-1 + 2) % 2 = -1 .. 1 has the right length but
      starts at a negative index, outside the owned cells. */
  lemma WideHaloLeavesOwnedRange()
    ensures SourceStart(-3, 2) == -1
  {
  }
}
