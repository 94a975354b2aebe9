/** Index geometry shared by every component: cells, axes, closed index ranges,
    three-dimensional fields and the integer division of the C++ source. */
module Grid {

  /** A scalar point (i, j, k); halo cells have coordinates outside the owned range. */
  datatype Cell = Cell(i: int, j: int, k: int)

  datatype Axis = X | Y | Z

  /** A field value at every cell. Storage bounds are tracked separately (see Box). */
  type Field = Cell -> real

  /** The closed range first..last of mtx::rng / blitz::Range; empty when last < first. */
  datatype Rng = Rng(first: int, last: int) {
    predicate Contains(x: int) { first <= x <= last }
  }

  /** Global grid extents (nx, ny, nz), or lengths of a subdomain along each axis. */
  datatype Dims = Dims(nx: int, ny: int, nz: int) {
    function Along(a: Axis): int {
      match a
      case X => nx
      case Y => ny
      case Z => nz
    }

    predicate Positive() { nx >= 1 && ny >= 1 && nz >= 1 }
  }

  /** A box of cells: one range per axis. */
  datatype Box = Box(ri: Rng, rj: Rng, rk: Rng) {
    predicate Contains(c: Cell) { ri.Contains(c.i) && rj.Contains(c.j) && rk.Contains(c.k) }
  }

  function Coord(c: Cell, a: Axis): int {
    match a
    case X => c.i
    case Y => c.j
    case Z => c.k
  }

  function WithCoord(c: Cell, a: Axis, v: int): (r: Cell)
    ensures Coord(r, a) == v
    ensures forall b: Axis :: b != a ==> Coord(r, b) == Coord(c, b)
  {
    match a
    case X => c.(i := v)
    case Y => c.(j := v)
    case Z => c.(k := v)
  }

  /** The two coordinates other than `a`, in the order the source's index
      permutations idx_ijk, idx_jki and idx_kij list them after the halo axis. */
  function Across(c: Cell, a: Axis): (int, int) {
    match a
    case X => (c.j, c.k)
    case Y => (c.k, c.i)
    case Z => (c.i, c.j)
  }

  /** The owned range [0, n) of a self-neighbour periodic subdomain. */
  function Owned(n: int): Rng {
    Rng(0, n - 1)
  }

  /** The owned range widened by `halo` cells on both sides. */
  function Widened(r: Rng, halo: int): Rng {
    Rng(r.first - halo, r.last + halo)
  }

  /** C++ integer remainder: truncates toward zero, so it takes the sign of `a`. */
  function CRem(a: int, m: int): (r: int)
    requires m > 0
    ensures a >= 0 ==> 0 <= r < m
    ensures a < 0 ==> -m < r <= 0
    ensures a >= 0 ==> r == a % m
  {
    if a >= 0 then a % m else -((-a) % m)
  }

  /** C++ integer division: truncates toward zero. */
  function CDiv(a: int, m: int): (q: int)
    requires m > 0
    ensures q * m + CRem(a, m) == a
    ensures a >= 0 ==> q == a / m
  {
    if a >= 0 then a / m else -((-a) / m)
  }

  /** The periodic (always non-negative) index of `x` on an axis of extent m. */
  function Wrap(x: int, m: int): (r: int)
    requires m > 0
    ensures 0 <= r < m
    ensures 0 <= x < m ==> r == x
    ensures -m <= x < 0 ==> r == x + m
    ensures m <= x < 2 * m ==> r == x - m
  {
    x % m
  }

  /** Every coordinate wrapped into the owned range of extents d. */
  function WrapCell(c: Cell, d: Dims): (r: Cell)
    requires d.Positive()
    ensures Owned(d.nx).Contains(r.i) && Owned(d.ny).Contains(r.j) && Owned(d.nz).Contains(r.k)
  {
    Cell(Wrap(c.i, d.nx), Wrap(c.j, d.ny), Wrap(c.k, d.nz))
  }
}
