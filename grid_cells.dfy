/**
 * The integer side of the spatial grid of the grid searcher: grid cells, the
 * overlap of two bounding intervals, the C++ remainder and the periodic wrap
 * of a cell index, the binning of a coordinate, the neighbourhood of a cell
 * (get_nlist), the order in which the serial search visits the cells, and the
 * split of the longest axis between threads.  Coordinates are reals standing
 * for the source's floats.
 */
module GridCells {
  import opened Wrappers
  import opened AtomData

  /** A cell of the grid (Eigen::Vector3i used as a cell index). */
  datatype Cell = Cell(x: int, y: int, z: int)

  /** NgridX, NgridY, NgridZ */
  datatype Dims = Dims(nx: int, ny: int, nz: int)

  predicate DimsOk(d: Dims) {
    d.nx >= 1 && d.ny >= 1 && d.nz >= 1
  }

  predicate InGrid(d: Dims, c: Cell) {
    0 <= c.x < d.nx && 0 <= c.y < d.ny && 0 <= c.z < d.nz
  }

  /** `dims(dim)` */
  function Extent(d: Dims, dim: int): int
    requires 0 <= dim < 3
  {
    if dim == 0 then d.nx else if dim == 1 then d.ny else d.nz
  }

  /** `cell(dim)` */
  function Coord(c: Cell, dim: int): int
    requires 0 <= dim < 3
  {
    if dim == 0 then c.x else if dim == 1 then c.y else c.z
  }

  predicate Distinct<T(==)>(s: seq<T>) {
    forall i, j :: 0 <= i < j < |s| ==> s[i] != s[j]
  }

  function Max(a: real, b: real): real {
    if a < b then b else a
  }

  function Min(a: real, b: real): real {
    if a < b then a else b
  }

  // ---------------------------------------------------------------------------
  // overlap_1d

  /**
   * The intersection of the intervals [a1, a2] and [b1, b2] as its two ends,
   * or (0, 0) when they do not meet.
   */
  function Overlap1d(a1: real, a2: real, b1: real, b2: real): (r: (real, real))
    ensures a1 <= a2 && b1 <= b2 && a1 <= b2 && b1 <= a2 ==> r == (Max(a1, b1), Min(a2, b2))
    ensures a1 <= a2 && b1 <= b2 && !(a1 <= b2 && b1 <= a2) ==> r == (0.0, 0.0)
  {
    if a1 < b1 then
      if a2 < b1 then (0.0, 0.0) else (b1, if a2 < b2 then a2 else b2)
    else
      if a1 > b2 then (0.0, 0.0) else (a1, if a2 > b2 then b2 else a2)
  }

  /** Where the intervals meet, the overlap lies inside both. */
  lemma OverlapInside(a1: real, a2: real, b1: real, b2: real)
    requires a1 <= a2 && b1 <= b2 && a1 <= b2 && b1 <= a2
    ensures var r := Overlap1d(a1, a2, b1, b2);
      a1 <= r.0 <= r.1 <= a2 && b1 <= r.0 <= r.1 <= b2
  {
  }

  // ---------------------------------------------------------------------------
  // Cell indices

  /** C++ `a % n` for a positive n: it truncates, so the result has the sign of a. */
  function CMod(a: int, n: int): (r: int)
    requires n > 0
    ensures -n < r < n && (a >= 0 ==> r >= 0) && (a < 0 ==> r <= 0)
    ensures r % n == a % n
  {
    if a >= 0 then a % n
    else
      NegMod(-a, n);
      -((-a) % n)
  }

  /** -(b % n) and -b leave the same residue. */
  lemma NegMod(b: int, n: int)
    requires b > 0 && n > 0
    ensures (-(b % n)) % n == (-b) % n
  {
    var q := b / n;
    assert b == q * n + b % n;
    assert -b == -(b % n) - q * n;
    ModShift(-(b % n), q, n);
  }

  /** Adding multiples of n leaves the residue. */
  lemma ModShift(a: int, q: int, n: int)
    requires n > 0
    ensures (a - q * n) % n == a % n
  {
    var r := a % n;
    assert a == (a / n) * n + r;
    assert a - q * n == (a / n - q) * n + r;
    DivUnique(a - q * n, a / n - q, r, n);
  }

  /** x == k * n + r with 0 <= r < n fixes the residue. */
  lemma DivUnique(x: int, k: int, r: int, n: int)
    requires n > 0 && 0 <= r < n && x == k * n + r
    ensures x % n == r
  {
    var k' := x / n;
    var r' := x % n;
    var m := k - k';
    assert m * n == r' - r;
    if m >= 1 {
      MulAtLeast(m, n);
    } else if m <= -1 {
      MulAtLeast(-m, n);
    }
  }

  lemma {:induction false} MulAtLeast(m: int, n: int)
    requires m >= 1 && n > 0
    ensures m * n >= n
    decreases m
  {
    if m > 1 {
      MulAtLeast(m - 1, n);
      assert m * n == (m - 1) * n + n;
    }
  }

  lemma MulSucc(a: int, b: int)
    ensures (a + 1) * b == a * b + b
  {
  }

  lemma {:induction false} MulMono(a: int, c: int, b: int)
    requires 0 <= a <= c && b >= 0
    ensures a * b <= c * b
    decreases c - a
  {
    if a < c {
      MulMono(a, c - 1, b);
      MulSucc(c - 1, b);
    }
  }

  /** Three factors of at most 3 multiply to at most 27. */
  lemma ProductBound(a: int, b: int, c: int)
    requires 0 <= a <= 3 && 0 <= b <= 3 && 0 <= c <= 3
    ensures a * (b * c) <= 27
  {
    MulMono(b, 3, c);
    MulMono(c, 3, 3);
    MulMono(a, 3, b * c);
  }

  /**
   * The wrap loop of populate_grid:
   * `while(n >= N || n < 0) n >= 0 ? n %= N : n = N + n % N;`
   * It ends with the index in [0, N) and congruent to where it started.
   */
  method WrapIndex(n0: int, size: int) returns (n: int)
    requires size > 0
    ensures 0 <= n < size && n == n0 % size
  {
    n := n0;
    while n >= size || n < 0
      invariant n % size == n0 % size
      decreases if n < 0 then 2 else if n >= size then 1 else 0
    {
      if n >= 0 {
        n := CMod(n, size);
      } else {
        var m := CMod(n, size);
        ModShift(m, -1, size);
        n := size + m;
      }
    }
    DivUnique(n, 0, n, size);
  }

  /** The position of a coordinate along one axis measured in cells: N * (c - lo) / (hi - lo). */
  function Scaled(size: int, c: real, lo: real, hi: real): real
    requires hi != lo
  {
    (size as real) * (c - lo) / (hi - lo)
  }

  /** The raw cell of a coordinate along one axis: floor(N * (c - lo) / (hi - lo)). */
  function RawBin(size: int, c: real, lo: real, hi: real): int
    requires hi != lo
  {
    Scaled(size, c, lo, hi).Floor
  }

  /** Each axis of the bounding box has a positive width. */
  predicate Spread(lo: Vec3, hi: Vec3) {
    lo.x < hi.x && lo.y < hi.y && lo.z < hi.z
  }

  function RawCell(d: Dims, lo: Vec3, hi: Vec3, p: Vec3): Cell
    requires Spread(lo, hi)
  {
    Cell(RawBin(d.nx, p.x, lo.x, hi.x), RawBin(d.ny, p.y, lo.y, hi.y), RawBin(d.nz, p.z, lo.z, hi.z))
  }

  /**
   * The cell a point is put in: wrapped into the grid when periodic,
   * discarded when it falls outside a non-periodic grid.
   */
  function BinOf(d: Dims, periodic: bool, lo: Vec3, hi: Vec3, p: Vec3): (r: Option<Cell>)
    requires DimsOk(d) && Spread(lo, hi)
    ensures r.Some? ==> InGrid(d, r.value)
    ensures periodic ==> r.Some?
  {
    var raw := RawCell(d, lo, hi, p);
    if periodic then Some(Cell(raw.x % d.nx, raw.y % d.ny, raw.z % d.nz))
    else if InGrid(d, raw) then Some(raw)
    else None
  }

  // ---------------------------------------------------------------------------
  // get_nlist

  /**
   * The first and last offset tried along an axis of n cells: -1..1 without
   * periodicity; with it, -1 only if n > 1 and +1 only if n > 2.
   */
  function LowOffset(n: int, periodic: bool): int {
    if periodic && n <= 1 then 0 else -1
  }

  function HighOffset(n: int, periodic: bool): int {
    if periodic && n <= 2 then 0 else 1
  }

  /** One step off the grid is wrapped to the other side. */
  function WrapOnce(v: int, n: int): int {
    if v == n then 0 else if v == -1 then n - 1 else v
  }

  /** The neighbouring index v along an axis: wrapped when periodic, skipped when outside. */
  function AxisStep(v: int, n: int, periodic: bool): Option<int> {
    if periodic then Some(WrapOnce(v, n))
    else if 0 <= v < n then Some(v)
    else None
  }

  /** The indices the loop over offsets lo .. hi-1 around i reaches, in order. */
  function AxisCells(i: int, n: int, periodic: bool, lo: int, hi: int): (r: seq<int>)
    ensures |r| <= if hi <= lo then 0 else hi - lo
    decreases hi - lo
  {
    if hi <= lo then []
    else
      var rest := AxisCells(i, n, periodic, lo, hi - 1);
      match AxisStep(i + hi - 1, n, periodic)
      case Some(v) => rest + [v]
      case None => rest
  }

  /** The loop over offsets lo .. k reaches what it reached before k, then offset k if it stays in the grid. */
  lemma AxisCellsNext(i: int, n: int, periodic: bool, lo: int, k: int)
    requires lo <= k
    ensures AxisCells(i, n, periodic, lo, k + 1)
      == AxisCells(i, n, periodic, lo, k) + (if AxisStep(i + k, n, periodic).Some? then [AxisStep(i + k, n, periodic).value] else [])
  {
    if AxisStep(i + k, n, periodic).None? {
      assert AxisCells(i, n, periodic, lo, k) + [] == AxisCells(i, n, periodic, lo, k);
    }
  }

  function Axis(i: int, n: int, periodic: bool): seq<int> {
    AxisCells(i, n, periodic, LowOffset(n, periodic), HighOffset(n, periodic) + 1)
  }

  /** The cells (x, y, z) for z in zs, the centre left out. */
  function Column(x: int, y: int, zs: seq<int>, centre: Cell): seq<Cell>
    decreases |zs|
  {
    if |zs| == 0 then []
    else
      var c := Cell(x, y, zs[|zs| - 1]);
      Column(x, y, zs[..|zs| - 1], centre) + (if c == centre then [] else [c])
  }

  function Plane(x: int, ys: seq<int>, zs: seq<int>, centre: Cell): seq<Cell>
    decreases |ys|
  {
    if |ys| == 0 then []
    else Plane(x, ys[..|ys| - 1], zs, centre) + Column(x, ys[|ys| - 1], zs, centre)
  }

  function Block(xs: seq<int>, ys: seq<int>, zs: seq<int>, centre: Cell): seq<Cell>
    decreases |xs|
  {
    if |xs| == 0 then []
    else Block(xs[..|xs| - 1], ys, zs, centre) + Plane(xs[|xs| - 1], ys, zs, centre)
  }

  /** The neighbour list get_nlist builds for cell c, in the order it builds it. */
  function Neighbours(d: Dims, periodic: bool, c: Cell): seq<Cell> {
    Block(Axis(c.x, d.nx, periodic), Axis(c.y, d.ny, periodic), Axis(c.z, d.nz, periodic), c)
  }

  /** Index v is next to i (or is i) along an axis of n cells. */
  predicate AxisNear(v: int, i: int, n: int, periodic: bool) {
    if periodic then v == i || (n > 1 && v == (i - 1) % n) || (n > 2 && v == (i + 1) % n)
    else i - 1 <= v <= i + 1
  }

  predicate Near(d: Dims, periodic: bool, a: Cell, b: Cell) {
    && AxisNear(a.x, b.x, d.nx, periodic)
    && AxisNear(a.y, b.y, d.ny, periodic)
    && AxisNear(a.z, b.z, d.nz, periodic)
  }

  lemma {:induction false} ColumnMembers(x: int, y: int, zs: seq<int>, centre: Cell)
    ensures forall c :: c in Column(x, y, zs, centre) <==> c.x == x && c.y == y && c.z in zs && c != centre
    decreases |zs|
  {
    if |zs| > 0 {
      ColumnMembers(x, y, zs[..|zs| - 1], centre);
      assert zs == zs[..|zs| - 1] + [zs[|zs| - 1]];
    }
  }

  lemma {:induction false} PlaneMembers(x: int, ys: seq<int>, zs: seq<int>, centre: Cell)
    ensures forall c :: c in Plane(x, ys, zs, centre) <==> c.x == x && c.y in ys && c.z in zs && c != centre
    decreases |ys|
  {
    if |ys| > 0 {
      PlaneMembers(x, ys[..|ys| - 1], zs, centre);
      ColumnMembers(x, ys[|ys| - 1], zs, centre);
      assert ys == ys[..|ys| - 1] + [ys[|ys| - 1]];
    }
  }

  lemma {:induction false} BlockMembers(xs: seq<int>, ys: seq<int>, zs: seq<int>, centre: Cell)
    ensures forall c :: c in Block(xs, ys, zs, centre) <==> c.x in xs && c.y in ys && c.z in zs && c != centre
    decreases |xs|
  {
    if |xs| > 0 {
      BlockMembers(xs[..|xs| - 1], ys, zs, centre);
      PlaneMembers(xs[|xs| - 1], ys, zs, centre);
      assert xs == xs[..|xs| - 1] + [xs[|xs| - 1]];
    }
  }

  /** Two lists without repeats and without a common element concatenate without repeats. */
  lemma DistinctConcat<T>(a: seq<T>, b: seq<T>)
    requires Distinct(a) && Distinct(b) && forall v :: v in a ==> v !in b
    ensures Distinct(a + b)
  {
    forall i, j | 0 <= i < j < |a + b| ensures (a + b)[i] != (a + b)[j] {
      if j >= |a| && i < |a| {
        assert (a + b)[i] in a;
        assert (a + b)[j] == b[j - |a|];
      }
    }
  }

  lemma {:induction false} ColumnDistinct(x: int, y: int, zs: seq<int>, centre: Cell)
    requires Distinct(zs)
    ensures Distinct(Column(x, y, zs, centre))
    decreases |zs|
  {
    if |zs| > 0 {
      var init := zs[..|zs| - 1];
      ColumnDistinct(x, y, init, centre);
      ColumnMembers(x, y, init, centre);
      assert zs[|zs| - 1] !in init;
      var c := Cell(x, y, zs[|zs| - 1]);
      DistinctConcat(Column(x, y, init, centre), if c == centre then [] else [c]);
    }
  }

  lemma {:induction false} PlaneDistinct(x: int, ys: seq<int>, zs: seq<int>, centre: Cell)
    requires Distinct(ys) && Distinct(zs)
    ensures Distinct(Plane(x, ys, zs, centre))
    decreases |ys|
  {
    if |ys| > 0 {
      var init := ys[..|ys| - 1];
      PlaneDistinct(x, init, zs, centre);
      ColumnDistinct(x, ys[|ys| - 1], zs, centre);
      PlaneMembers(x, init, zs, centre);
      ColumnMembers(x, ys[|ys| - 1], zs, centre);
      assert ys[|ys| - 1] !in init;
      DistinctConcat(Plane(x, init, zs, centre), Column(x, ys[|ys| - 1], zs, centre));
    }
  }

  lemma {:induction false} BlockDistinct(xs: seq<int>, ys: seq<int>, zs: seq<int>, centre: Cell)
    requires Distinct(xs) && Distinct(ys) && Distinct(zs)
    ensures Distinct(Block(xs, ys, zs, centre))
    decreases |xs|
  {
    if |xs| > 0 {
      var init := xs[..|xs| - 1];
      BlockDistinct(init, ys, zs, centre);
      PlaneDistinct(xs[|xs| - 1], ys, zs, centre);
      BlockMembers(init, ys, zs, centre);
      PlaneMembers(xs[|xs| - 1], ys, zs, centre);
      assert xs[|xs| - 1] !in init;
      DistinctConcat(Block(init, ys, zs, centre), Plane(xs[|xs| - 1], ys, zs, centre));
    }
  }

  lemma {:induction false} ColumnSize(x: int, y: int, zs: seq<int>, centre: Cell)
    requires Distinct(zs)
    ensures |Column(x, y, zs, centre)| == |zs| - if x == centre.x && y == centre.y && centre.z in zs then 1 else 0
    decreases |zs|
  {
    if |zs| > 0 {
      var init := zs[..|zs| - 1];
      ColumnSize(x, y, init, centre);
      assert zs == init + [zs[|zs| - 1]];
      assert zs[|zs| - 1] !in init;
    }
  }

  lemma {:induction false} PlaneSize(x: int, ys: seq<int>, zs: seq<int>, centre: Cell)
    requires Distinct(ys) && Distinct(zs)
    ensures |Plane(x, ys, zs, centre)| == |ys| * |zs| - if x == centre.x && centre.y in ys && centre.z in zs then 1 else 0
    decreases |ys|
  {
    if |ys| > 0 {
      var init, y := ys[..|ys| - 1], ys[|ys| - 1];
      PlaneSize(x, init, zs, centre);
      ColumnSize(x, y, zs, centre);
      assert ys == init + [y];
      assert y !in init;
      assert (centre.y in ys) == (centre.y in init || centre.y == y);
      MulSucc(|init|, |zs|);
      assert |Plane(x, ys, zs, centre)| == |Plane(x, init, zs, centre)| + |Column(x, y, zs, centre)|;
    }
  }

  lemma {:induction false} BlockSize(xs: seq<int>, ys: seq<int>, zs: seq<int>, centre: Cell)
    requires Distinct(xs) && Distinct(ys) && Distinct(zs)
    ensures |Block(xs, ys, zs, centre)| == |xs| * (|ys| * |zs|) - if centre.x in xs && centre.y in ys && centre.z in zs then 1 else 0
    decreases |xs|
  {
    if |xs| > 0 {
      var init, x := xs[..|xs| - 1], xs[|xs| - 1];
      var yz := |ys| * |zs|;
      var inYZ := centre.y in ys && centre.z in zs;
      BlockSize(init, ys, zs, centre);
      PlaneSize(x, ys, zs, centre);
      assert xs == init + [x];
      assert x !in init;
      assert (centre.x in xs) == (centre.x in init || centre.x == x);
      MulSucc(|init|, yz);
      assert |Block(xs, ys, zs, centre)| == |Block(init, ys, zs, centre)| + |Plane(x, ys, zs, centre)|;
    }
  }

  /** The indices one axis contributes: below it takes at most three values. */
  lemma AxisShape(i: int, n: int, periodic: bool)
    requires 0 <= i < n
    ensures var a := Axis(i, n, periodic);
      && Distinct(a) && |a| <= 3 && i in a
      && (forall v :: v in a <==> 0 <= v < n && AxisNear(v, i, n, periodic))
  {
    var lo := LowOffset(n, periodic);
    var hi := HighOffset(n, periodic);
    assert AxisCells(i, n, periodic, lo, lo) == [];
    if periodic {
      if n == 1 {
        assert Axis(i, n, periodic) == [i];
      } else if n == 2 {
        assert Axis(i, n, periodic) == [WrapOnce(i - 1, n), i];
        assert (i - 1) % 2 == 1 - i;
      } else {
        assert AxisCells(i, n, periodic, -1, 0) == [WrapOnce(i - 1, n)];
        assert AxisCells(i, n, periodic, -1, 1) == [WrapOnce(i - 1, n), i];
        assert Axis(i, n, periodic) == [WrapOnce(i - 1, n), i, WrapOnce(i + 1, n)];
        if i == 0 {
          ModShift(-1, -1, n);
          DivUnique(n - 1, 0, n - 1, n);
          DivUnique(1, 0, 1, n);
        } else if i == n - 1 {
          ModShift(n, 1, n);
          DivUnique(0, 0, 0, n);
          DivUnique(n - 2, 0, n - 2, n);
        } else {
          DivUnique(i - 1, 0, i - 1, n);
          DivUnique(i + 1, 0, i + 1, n);
        }
      }
    } else {
      var a1 := AxisCells(i, n, periodic, -1, 0);
      var a2 := AxisCells(i, n, periodic, -1, 1);
      assert a1 == if i >= 1 then [i - 1] else [];
      assert a2 == a1 + [i];
      assert Axis(i, n, periodic) == a2 + if i + 1 < n then [i + 1] else [];
    }
  }

  /**
   * get_nlist: the cells next to c along every axis, c itself left out; at
   * most 26 of them, none twice, all inside the grid.
   */
  lemma NeighboursShape(d: Dims, periodic: bool, c: Cell)
    requires InGrid(d, c)
    ensures var nl := Neighbours(d, periodic, c);
      && Distinct(nl) && |nl| <= 26
      && (forall b :: b in nl <==> InGrid(d, b) && b != c && Near(d, periodic, b, c))
  {
    var xs, ys, zs := Axis(c.x, d.nx, periodic), Axis(c.y, d.ny, periodic), Axis(c.z, d.nz, periodic);
    AxisShape(c.x, d.nx, periodic);
    AxisShape(c.y, d.ny, periodic);
    AxisShape(c.z, d.nz, periodic);
    BlockMembers(xs, ys, zs, c);
    BlockDistinct(xs, ys, zs, c);
    BlockSize(xs, ys, zs, c);
    ProductBound(|xs|, |ys|, |zs|);
  }

  /** The cells before and after i on a periodic axis of n > 1 cells. */
  lemma WrapValues(i: int, n: int)
    requires 0 <= i < n && n > 1
    ensures (i - 1) % n == if i == 0 then n - 1 else i - 1
    ensures (i + 1) % n == if i == n - 1 then 0 else i + 1
  {
    if i == 0 {
      ModShift(-1, -1, n);
      DivUnique(n - 1, 0, n - 1, n);
    } else {
      DivUnique(i - 1, 0, i - 1, n);
    }
    if i == n - 1 {
      ModShift(n, 1, n);
      DivUnique(0, 0, 0, n);
    } else {
      DivUnique(i + 1, 0, i + 1, n);
    }
  }

  /** Being next to each other along an axis is symmetric, wrap included. */
  lemma AxisNearSymmetric(a: int, b: int, n: int, periodic: bool)
    requires 0 <= a < n && 0 <= b < n
    ensures AxisNear(a, b, n, periodic) <==> AxisNear(b, a, n, periodic)
  {
    if periodic && n > 1 {
      WrapValues(a, n);
      WrapValues(b, n);
    }
  }

  /** b is in the neighbour list of a exactly when a is in that of b. */
  lemma NeighboursSymmetric(d: Dims, periodic: bool, a: Cell, b: Cell)
    requires InGrid(d, a) && InGrid(d, b)
    ensures b in Neighbours(d, periodic, a) <==> a in Neighbours(d, periodic, b)
  {
    NeighboursShape(d, periodic, a);
    NeighboursShape(d, periodic, b);
    AxisNearSymmetric(a.x, b.x, d.nx, periodic);
    AxisNearSymmetric(a.y, b.y, d.ny, periodic);
    AxisNearSymmetric(a.z, b.z, d.nz, periodic);
  }

  // ---------------------------------------------------------------------------
  // The order of the serial search

  /** Cell a comes before cell b in the loops over x, then y, then z. */
  predicate Before(a: Cell, b: Cell) {
    a.x < b.x || (a.x == b.x && (a.y < b.y || (a.y == b.y && a.z < b.z)))
  }

  lemma BeforeTotal(a: Cell, b: Cell)
    ensures a == b || Before(a, b) || Before(b, a)
    ensures !(Before(a, b) && Before(b, a))
  {
  }

  /** Cell c lies in the box [lo, hi) along every axis. */
  predicate InBox(lo: Cell, hi: Cell, c: Cell) {
    lo.x <= c.x < hi.x && lo.y <= c.y < hi.y && lo.z <= c.z < hi.z
  }

  /** The table t has an entry for every cell of the box. */
  ghost predicate Covers<T>(t: map<Cell, seq<T>>, lo: Cell, hi: Cell) {
    forall c :: InBox(lo, hi, c) ==> c in t
  }

  /** The innermost loop over the box (z), up to z: the entries of t, concatenated. */
  function ZWalk<T>(t: map<Cell, seq<T>>, lo: Cell, hi: Cell, x: int, y: int, z: int): seq<T>
    requires Covers(t, lo, hi) && lo.x <= x < hi.x && lo.y <= y < hi.y && z <= hi.z
    decreases z - lo.z
  {
    if z <= lo.z then [] else ZWalk(t, lo, hi, x, y, z - 1) + t[Cell(x, y, z - 1)]
  }

  function YWalk<T>(t: map<Cell, seq<T>>, lo: Cell, hi: Cell, x: int, y: int): seq<T>
    requires Covers(t, lo, hi) && lo.x <= x < hi.x && y <= hi.y
    decreases y - lo.y
  {
    if y <= lo.y then [] else YWalk(t, lo, hi, x, y - 1) + ZWalk(t, lo, hi, x, y - 1, hi.z)
  }

  function XWalk<T>(t: map<Cell, seq<T>>, lo: Cell, hi: Cell, x: int): seq<T>
    requires Covers(t, lo, hi) && x <= hi.x
    decreases x - lo.x
  {
    if x <= lo.x then [] else XWalk(t, lo, hi, x - 1) + YWalk(t, lo, hi, x - 1, hi.y)
  }

  /** The three nested loops over the box, in order: x, then y, then z. */
  function Walk<T>(t: map<Cell, seq<T>>, lo: Cell, hi: Cell): seq<T>
    requires Covers(t, lo, hi)
  {
    XWalk(t, lo, hi, hi.x)
  }

  lemma {:induction false} ZWalkMembers<T>(t: map<Cell, seq<T>>, lo: Cell, hi: Cell, x: int, y: int, z: int, v: T)
    requires Covers(t, lo, hi) && lo.x <= x < hi.x && lo.y <= y < hi.y && z <= hi.z
    ensures v in ZWalk(t, lo, hi, x, y, z) <==> exists w :: lo.z <= w < z && v in t[Cell(x, y, w)]
    decreases z - lo.z
  {
    if z > lo.z {
      ZWalkMembers(t, lo, hi, x, y, z - 1, v);
    }
  }

  /** Some cell of the column (x, y) of the box holds v. */
  ghost predicate ColumnHolds<T>(t: map<Cell, seq<T>>, lo: Cell, hi: Cell, x: int, y: int, v: T) {
    exists w :: lo.z <= w < hi.z && Cell(x, y, w) in t && v in t[Cell(x, y, w)]
  }

  /** Some cell of the plane x of the box holds v. */
  ghost predicate PlaneHolds<T>(t: map<Cell, seq<T>>, lo: Cell, hi: Cell, x: int, v: T) {
    exists u :: lo.y <= u < hi.y && ColumnHolds(t, lo, hi, x, u, v)
  }

  lemma ColumnStep<T>(t: map<Cell, seq<T>>, lo: Cell, hi: Cell, x: int, y: int, v: T)
    requires Covers(t, lo, hi) && lo.x <= x < hi.x && lo.y <= y < hi.y
    ensures v in ZWalk(t, lo, hi, x, y, hi.z) <==> ColumnHolds(t, lo, hi, x, y, v)
  {
    ZWalkMembers(t, lo, hi, x, y, hi.z, v);
  }

  lemma {:induction false} YWalkMembers<T>(t: map<Cell, seq<T>>, lo: Cell, hi: Cell, x: int, y: int, v: T)
    requires Covers(t, lo, hi) && lo.x <= x < hi.x && y <= hi.y
    ensures v in YWalk(t, lo, hi, x, y) <==> exists u :: lo.y <= u < y && ColumnHolds(t, lo, hi, x, u, v)
    decreases y - lo.y
  {
    if y > lo.y {
      YWalkMembers(t, lo, hi, x, y - 1, v);
      ColumnStep(t, lo, hi, x, y - 1, v);
    }
  }

  lemma PlaneStep<T>(t: map<Cell, seq<T>>, lo: Cell, hi: Cell, x: int, v: T)
    requires Covers(t, lo, hi) && lo.x <= x < hi.x
    ensures v in YWalk(t, lo, hi, x, hi.y) <==> PlaneHolds(t, lo, hi, x, v)
  {
    YWalkMembers(t, lo, hi, x, hi.y, v);
  }

  lemma {:induction false} XWalkMembers<T>(t: map<Cell, seq<T>>, lo: Cell, hi: Cell, x: int, v: T)
    requires Covers(t, lo, hi) && x <= hi.x
    ensures v in XWalk(t, lo, hi, x) <==> exists s :: lo.x <= s < x && PlaneHolds(t, lo, hi, s, v)
    decreases x - lo.x
  {
    if x > lo.x {
      XWalkMembers(t, lo, hi, x - 1, v);
      PlaneStep(t, lo, hi, x - 1, v);
    }
  }

  /** The loops over the box meet every cell of it: v is walked past exactly when a cell of the box holds it. */
  lemma WalkMembers<T>(t: map<Cell, seq<T>>, lo: Cell, hi: Cell, v: T)
    requires Covers(t, lo, hi)
    ensures v in Walk(t, lo, hi) <==> exists c :: InBox(lo, hi, c) && v in t[c]
  {
    XWalkMembers(t, lo, hi, hi.x, v);
    if v in Walk(t, lo, hi) {
      var s :| lo.x <= s < hi.x && PlaneHolds(t, lo, hi, s, v);
      var u :| lo.y <= u < hi.y && ColumnHolds(t, lo, hi, s, u, v);
      var w :| lo.z <= w < hi.z && Cell(s, u, w) in t && v in t[Cell(s, u, w)];
      assert InBox(lo, hi, Cell(s, u, w));
    }
    if exists c :: InBox(lo, hi, c) && v in t[c] {
      var c :| InBox(lo, hi, c) && v in t[c];
      assert c == Cell(c.x, c.y, c.z);
      assert ColumnHolds(t, lo, hi, c.x, c.y, v);
      assert PlaneHolds(t, lo, hi, c.x, v);
    }
  }

  /** One more iteration of each of the three loops over the box, after the output acc. */
  lemma ZWalkStep<T>(t: map<Cell, seq<T>>, lo: Cell, hi: Cell, x: int, y: int, z: int, acc: seq<T>)
    requires Covers(t, lo, hi) && lo.x <= x < hi.x && lo.y <= y < hi.y && lo.z <= z < hi.z
    ensures (acc + ZWalk(t, lo, hi, x, y, z)) + t[Cell(x, y, z)] == acc + ZWalk(t, lo, hi, x, y, z + 1)
  {
  }

  lemma YWalkStep<T>(t: map<Cell, seq<T>>, lo: Cell, hi: Cell, x: int, y: int, acc: seq<T>)
    requires Covers(t, lo, hi) && lo.x <= x < hi.x && lo.y <= y < hi.y
    ensures (acc + YWalk(t, lo, hi, x, y)) + ZWalk(t, lo, hi, x, y, hi.z) == acc + YWalk(t, lo, hi, x, y + 1)
  {
  }

  lemma XWalkStep<T>(t: map<Cell, seq<T>>, lo: Cell, hi: Cell, x: int, acc: seq<T>)
    requires Covers(t, lo, hi) && lo.x <= x < hi.x
    ensures (acc + XWalk(t, lo, hi, x)) + YWalk(t, lo, hi, x, hi.y) == acc + XWalk(t, lo, hi, x + 1)
  {
  }

  lemma WalkStart<T>(t: map<Cell, seq<T>>, lo: Cell, hi: Cell, x: int, y: int, acc: seq<T>)
    requires Covers(t, lo, hi) && lo.x <= x < hi.x && lo.y <= y < hi.y && lo.z <= hi.z
    ensures acc + ZWalk(t, lo, hi, x, y, lo.z) == acc
  {
    assert acc + [] == acc;
  }

  // ---------------------------------------------------------------------------
  // One more step of the get_nlist loops

  lemma ColumnSnoc(x: int, y: int, zs: seq<int>, z: int, centre: Cell)
    ensures Column(x, y, zs + [z], centre)
      == Column(x, y, zs, centre) + (if Cell(x, y, z) == centre then [] else [Cell(x, y, z)])
  {
    assert (zs + [z])[..|zs|] == zs;
  }

  lemma PlaneSnoc(x: int, ys: seq<int>, y: int, zs: seq<int>, centre: Cell)
    ensures Plane(x, ys + [y], zs, centre) == Plane(x, ys, zs, centre) + Column(x, y, zs, centre)
  {
    assert (ys + [y])[..|ys|] == ys;
  }

  lemma BlockSnoc(xs: seq<int>, x: int, ys: seq<int>, zs: seq<int>, centre: Cell)
    ensures Block(xs + [x], ys, zs, centre) == Block(xs, ys, zs, centre) + Plane(x, ys, zs, centre)
  {
    assert (xs + [x])[..|xs|] == xs;
  }

  /** The cells searched around c: its neighbours, then c itself (get_nlist followed by push_back). */
  function Around(d: Dims, periodic: bool, c: Cell): seq<Cell> {
    Neighbours(d, periodic, c) + [c]
  }

  lemma AroundShape(d: Dims, periodic: bool, c: Cell)
    requires InGrid(d, c)
    ensures var a := Around(d, periodic, c);
      && Distinct(a) && |a| <= 27
      && (forall b :: b in a <==> InGrid(d, b) && Near(d, periodic, b, c))
  {
    var nl := Neighbours(d, periodic, c);
    NeighboursShape(d, periodic, c);
    AxisShape(c.x, d.nx, periodic);
    AxisShape(c.y, d.ny, periodic);
    AxisShape(c.z, d.nz, periodic);
    DistinctConcat(nl, [c]);
  }

  // ---------------------------------------------------------------------------
  // Splitting the longest axis between threads

  /** `dims.maxCoeff(&max_dim)`: the first axis of largest extent. */
  function MaxDim(d: Dims): (r: int)
    ensures 0 <= r < 3
    ensures forall k :: 0 <= k < 3 ==> Extent(d, k) <= Extent(d, r)
    ensures forall k :: 0 <= k < r ==> Extent(d, k) < Extent(d, r)
  {
    if d.nx >= d.ny && d.nx >= d.nz then 0
    else if d.ny >= d.nz then 1
    else 2
  }

  /** `std::min(max_N, hardware_concurrency())` */
  function ThreadCount(d: Dims, hardware: int): (nt: int)
    ensures nt <= Extent(d, MaxDim(d)) && nt <= hardware
    ensures nt == Extent(d, MaxDim(d)) || nt == hardware
  {
    var n := Extent(d, MaxDim(d));
    if n < hardware then n else hardware
  }

  /**
   * The ranges [b[i], e[i]) of the longest axis given to each of nt
   * threads: every thread but the last gets total / nt cells, the last one
   * the rest.
   */
  method PartitionRanges(total: int, nt: int) returns (b: seq<int>, e: seq<int>)
    requires nt >= 1 && total >= 0
    ensures |b| == nt && |e| == nt
    ensures b[0] == 0 && e[nt - 1] == total
    ensures forall i :: 0 <= i < nt - 1 ==> e[i] == b[i + 1]
    ensures forall i :: 0 <= i < nt ==> b[i] <= e[i]
    ensures forall i :: 0 <= i < nt - 1 ==> e[i] - b[i] == total / nt
    ensures nt <= total ==> forall i :: 0 <= i < nt ==> b[i] < e[i]
  {
    var q := total / nt;
    ChunksFit(total, nt);
    b, e := [], [];
    var cur := 0;
    var i := 0;
    while i < nt - 1
      invariant 0 <= i <= nt - 1
      invariant |b| == i && |e| == i
      invariant 0 <= cur && cur + Chunks(nt - i, q) <= total
      invariant i == 0 ==> cur == 0
      invariant i > 0 ==> b[0] == 0 && e[i - 1] == cur
      invariant forall k :: 0 <= k < i ==> e[k] == b[k] + q
      invariant forall k :: 0 <= k < i - 1 ==> e[k] == b[k + 1]
    {
      b := b + [cur];
      cur := cur + q;
      e := e + [cur];
      i := i + 1;
    }
    assert Chunks(1, q) == q;
    b := b + [cur];
    e := e + [total];
  }

  /** k chunks of q cells each. */
  function Chunks(k: nat, q: int): int {
    if k == 0 then 0 else Chunks(k - 1, q) + q
  }

  /** nt chunks of total / nt cells fit in total cells, and a chunk is never negative. */
  lemma ChunksFit(total: int, nt: int)
    requires nt >= 1 && total >= 0
    ensures 0 <= total / nt && Chunks(nt, total / nt) <= total
    ensures nt <= total ==> total / nt >= 1
  {
    var q := total / nt;
    ChunksIsProduct(nt, q);
    assert total == q * nt + total % nt;
  }

  lemma {:induction false} ChunksIsProduct(k: nat, q: int)
    ensures Chunks(k, q) == k * q
  {
    if k > 0 {
      ChunksIsProduct(k - 1, q);
      MulSucc(k - 1, q);
    }
  }

  /** The branch a search takes: serial, or split between threads. */
  datatype Branch = Serial | Parallel

  /**
   * do_search (both overloads) as written: serial only when nt == 1, so a
   * thread count of 0 takes the parallel branch.
   */
  function SearchBranchAsWritten(nt: int): Branch {
    if nt == 1 then Serial else Parallel
  }

  /** The test of the within search, which do_search means too: parallel only when nt > 1. */
  function SearchBranch(nt: int): (r: Branch)
    ensures r == Parallel <==> nt > 1
  {
    if nt > 1 then Parallel else Serial
  }

  /**
   * `hardware_concurrency()` may return 0.  do_search then takes the
   * parallel branch with nt == 0, where PartitionRanges cannot be called
   * (the source writes b[nt-1], that is b[-1]); the corrected test searches
   * serially.
   */
  lemma ZeroThreadsGoParallel(d: Dims)
    requires DimsOk(d)
    ensures ThreadCount(d, 0) == 0
    ensures SearchBranchAsWritten(ThreadCount(d, 0)) == Parallel
    ensures SearchBranch(ThreadCount(d, 0)) == Serial
  {
  }

  /** With at least one thread the ranges from the corrected test are never empty. */
  lemma ParallelPartsNonEmpty(d: Dims, hardware: int)
    requires DimsOk(d)
    ensures var nt := ThreadCount(d, hardware);
      SearchBranch(nt) == Parallel ==> 1 <= nt <= Extent(d, MaxDim(d))
  {
  }

  // ---------------------------------------------------------------------------
  // The cell of a query point in search_within(point)

  /** search_within(point) as written bins with N - 1 instead of N. */
  function PointBinAsWritten(size: int, c: real, lo: real, hi: real): int
    requires hi != lo
  {
    (((size - 1) as real) * (c - lo) / (hi - lo)).Floor
  }

  /**
   * On an axis of 10 cells over [0, 1] a query point at 0.55 is put in
   * cell 4 while an atom at 0.64, closer to it than one cell width, sits in
   * cell 6: the cells searched around 4 do not include 6, with or without
   * periodicity.
   */
  lemma PointBinMissesNeighbour()
    ensures 0.64 - 0.55 <= (1.0 - 0.0) / 10.0
    ensures PointBinAsWritten(10, 0.55, 0.0, 1.0) == 4
    ensures RawBin(10, 0.64, 0.0, 1.0) == 6
    ensures !AxisNear(6, 4, 10, false) && !AxisNear(6, 4, 10, true)
  {
    assert (9 as real) * (0.55 - 0.0) / (1.0 - 0.0) == 4.95;
    assert (10 as real) * (0.64 - 0.0) / (1.0 - 0.0) == 6.4;
    WrapValues(4, 10);
  }

  /**
   * Binned with N, as populate_grid does, two coordinates less than one cell
   * width apart land in cells at most one apart.
   */
  lemma BinStable(size: int, c1: real, c2: real, lo: real, hi: real)
    requires size >= 1 && lo < hi
    requires -(hi - lo) / (size as real) <= c1 - c2 <= (hi - lo) / (size as real)
    ensures -1 <= RawBin(size, c1, lo, hi) - RawBin(size, c2, lo, hi) <= 1
  {
    ScaledGap(size, c1, c2, lo, hi);
    FloorGap(Scaled(size, c1, lo, hi), Scaled(size, c2, lo, hi));
  }

  lemma ScaledGap(size: int, c1: real, c2: real, lo: real, hi: real)
    requires size >= 1 && lo < hi
    requires -(hi - lo) / (size as real) <= c1 - c2 <= (hi - lo) / (size as real)
    ensures -1.0 <= Scaled(size, c1, lo, hi) - Scaled(size, c2, lo, hi) <= 1.0
  {
    var n, w, k := size as real, hi - lo, c1 - c2;
    assert -w <= n * k <= w by {
      assert n * (w / n) == w;
      assert n * k <= n * (w / n);
      assert n * (-(w / n)) <= n * k;
    }
    assert Scaled(size, c1, lo, hi) - Scaled(size, c2, lo, hi) == n * k / w by {
      assert n * (c1 - lo) - n * (c2 - lo) == n * k;
    }
    var q := n * k / w;
    assert q * w == n * k;
  }

  lemma FloorGap(a1: real, a2: real)
    requires -1.0 <= a1 - a2 <= 1.0
    ensures -1 <= a1.Floor - a2.Floor <= 1
  {
    assert a1.Floor as real <= a1 < a1.Floor as real + 1.0;
    assert a2.Floor as real <= a2 < a2.Floor as real + 1.0;
  }

  /** So in a grid without periodicity such a point and atom are in neighbouring cells. */
  lemma BinNear(size: int, c1: real, c2: real, lo: real, hi: real)
    requires size >= 1 && lo < hi
    requires -(hi - lo) / (size as real) <= c1 - c2 <= (hi - lo) / (size as real)
    ensures AxisNear(RawBin(size, c1, lo, hi), RawBin(size, c2, lo, hi), size, false)
  {
    BinStable(size, c1, c2, lo, hi);
  }
}
