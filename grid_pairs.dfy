/**
 * What the grid searcher computes, as functions of its inputs: the contents of
 * a populated grid, the contact lists get_central_* and get_side_* build, the
 * cells the serial and the per-thread searches compare, and the hits of the
 * within searches.  The searcher class in module GridSearch is proved against
 * these.  The distance test is abstract: `Metric` names the two distance
 * functions (the plain norm and the periodic box distance) and the cutoff.
 */
module GridPairs {
  import opened Wrappers
  import opened AtomData
  import opened GridCells
  import opened StdAlgorithms

  /** A selection as the searcher reads it: XYZ(i) and Index(i) for i < size(). */
  datatype Points = Points(coords: seq<Vec3>, index: seq<int>)

  predicate PointsOk(s: Points) {
    |s.coords| == |s.index|
  }

  /** The contents of every cell of a grid (a boost::multi_array of index vectors). */
  type Grid = map<Cell, seq<int>>

  /** A grid allocated with extents d holds exactly the cells of d. */
  ghost predicate Shaped(d: Dims, g: Grid) {
    forall c :: c in g <==> InGrid(d, c)
  }

  function CellsOf(d: Dims): (r: set<Cell>)
    ensures forall c :: c in r <==> InGrid(d, c)
  {
    var r := set x, y, z | 0 <= x < d.nx && 0 <= y < d.ny && 0 <= z < d.nz :: Cell(x, y, z);
    assert forall c :: InGrid(d, c) ==> Cell(c.x, c.y, c.z) in r;
    r
  }

  /**
   * `grid.resize(extents[nx][ny][nz])`: a cell inside both the old and the
   * new extents keeps its contents, a new cell is empty.
   */
  function Resized(g: Grid, d: Dims): (r: Grid)
    ensures Shaped(d, r)
  {
    map c | c in CellsOf(d) :: if c in g then g[c] else []
  }

  lemma ResizeKeeps(g: Grid, was: Dims, d: Dims)
    requires Shaped(was, g)
    ensures forall c :: InGrid(was, c) && InGrid(d, c) ==> Resized(g, d)[c] == g[c]
    ensures forall c :: InGrid(d, c) && !InGrid(was, c) ==> Resized(g, d)[c] == []
  {
  }

  /** Every entry of every cell is a position in a selection of n points. */
  predicate EntriesIn(g: Grid, n: int) {
    forall c, k :: c in g && 0 <= k < |g[c]| ==> 0 <= g[c][k] < n
  }

  // ---------------------------------------------------------------------------
  // populate_grid

  /**
   * What decides the cell of a point: the grid extents, the bounding box
   * [lo, hi], periodicity, and the box with its lab_to_box conversion, used
   * for a triclinic periodic box.
   */
  datatype Layout = Layout(dims: Dims, periodic: bool, lo: Vec3, hi: Vec3, box: Box, labToBox: (Box, Vec3) -> Vec3)

  predicate LayoutOk(l: Layout) {
    DimsOk(l.dims) && Spread(l.lo, l.hi)
  }

  /** The cell populate_grid puts a point in, if it keeps the point at all. */
  function CellOf(l: Layout, p: Vec3): Option<Cell>
    requires LayoutOk(l)
  {
    BinOf(l.dims, l.periodic, l.lo, l.hi, if l.periodic && l.box.triclinic then l.labToBox(l.box, p) else p)
  }

  /** The positions i < n of the points in cell c, ascending. */
  function Members(l: Layout, pts: seq<Vec3>, n: int, c: Cell): seq<int>
    requires LayoutOk(l) && 0 <= n <= |pts|
    decreases n
  {
    if n == 0 then []
    else Members(l, pts, n - 1, c) + (if CellOf(l, pts[n - 1]) == Some(c) then [n - 1] else [])
  }

  /** A cell holds, ascending, exactly the points whose cell it is. */
  lemma {:induction false} MembersExact(l: Layout, pts: seq<Vec3>, n: int, c: Cell)
    requires LayoutOk(l) && 0 <= n <= |pts|
    ensures forall i :: i in Members(l, pts, n, c) <==> 0 <= i < n && CellOf(l, pts[i]) == Some(c)
    ensures Strict(Members(l, pts, n, c))
    decreases n
  {
    if n > 0 {
      MembersExact(l, pts, n - 1, c);
      if CellOf(l, pts[n - 1]) == Some(c) {
        StrictSnoc(Members(l, pts, n - 1, c), n - 1);
      }
    }
  }

  /** A point no cell keeps leaves every cell as it was. */
  lemma MembersSkip(l: Layout, pts: seq<Vec3>, i: int, r: Grid)
    requires LayoutOk(l) && 0 <= i < |pts| && CellOf(l, pts[i]).None?
    requires forall c :: c in r ==> r[c] == Members(l, pts, i, c)
    ensures forall c :: c in r ==> r[c] == Members(l, pts, i + 1, c)
  {
  }

  /** A point kept in cell b joins the end of b's list and no other. */
  lemma MembersPlace(l: Layout, pts: seq<Vec3>, i: int, r: Grid, b: Cell) returns (r': Grid)
    requires LayoutOk(l) && 0 <= i < |pts| && CellOf(l, pts[i]) == Some(b) && b in r
    requires forall c :: c in r ==> r[c] == Members(l, pts, i, c)
    ensures r' == r[b := r[b] + [i]]
    ensures forall c :: c in r' ==> r'[c] == Members(l, pts, i + 1, c)
  {
    r' := r[b := r[b] + [i]];
  }

  /** The grid populate_grid leaves behind. */
  ghost predicate Populated(l: Layout, pts: seq<Vec3>, g: Grid)
    requires LayoutOk(l)
  {
    Shaped(l.dims, g) && forall c :: c in g ==> g[c] == Members(l, pts, |pts|, c)
  }

  /** A populated grid holds positions of the selection only. */
  lemma PopulatedEntries(l: Layout, pts: seq<Vec3>, g: Grid)
    requires LayoutOk(l) && Populated(l, pts, g)
    ensures EntriesIn(g, |pts|)
    ensures forall c :: c in g ==> Strict(g[c])
  {
    forall c, k | c in g && 0 <= k < |g[c]|
      ensures 0 <= g[c][k] < |pts|
    {
      MembersExact(l, pts, |pts|, c);
      assert g[c][k] in Members(l, pts, |pts|, c);
    }
    forall c | c in g
      ensures Strict(g[c])
    {
      MembersExact(l, pts, |pts|, c);
    }
  }

  /**
   * With periodicity every point is in exactly one cell; without, in at most
   * one, and in one exactly when its cell falls inside the grid.
   */
  lemma OneCell(l: Layout, pts: seq<Vec3>, g: Grid, i: int)
    requires LayoutOk(l) && Populated(l, pts, g) && 0 <= i < |pts|
    ensures forall c, c' :: c in g && c' in g && i in g[c] && i in g[c'] ==> c == c'
    ensures (exists c :: c in g && i in g[c]) <==> CellOf(l, pts[i]).Some?
    ensures l.periodic ==> exists c :: c in g && i in g[c]
  {
    forall c | c in g
      ensures i in g[c] <==> CellOf(l, pts[i]) == Some(c)
    {
      MembersExact(l, pts, |pts|, c);
    }
    if CellOf(l, pts[i]).Some? {
      var c := CellOf(l, pts[i]).value;
      assert c in g && i in g[c];
    }
  }

  // ---------------------------------------------------------------------------
  // The distance test

  /**
   * The distance test of the searcher: the plain distance without
   * periodicity, the box distance with it, against the cutoff.
   */
  datatype Metric = Metric(
    periodic: bool,
    box: Box,
    cutoff: real,
    distance: (Vec3, Vec3) -> real,
    boxDistance: (Box, Vec3, Vec3) -> real)

  predicate Close(m: Metric, p: Vec3, q: Vec3) {
    (if m.periodic then m.boxDistance(m.box, p, q) else m.distance(p, q)) <= m.cutoff
  }

  // ---------------------------------------------------------------------------
  // get_central_* and get_side_*

  /** The contact (a, b) found between two entries. */
  datatype Bond = Bond(a: int, b: int)

  /** An entry as it is reported: its index in the system with absolute indices, else its position. */
  function Label(s: Points, abs: bool, i: int): int
    requires 0 <= i < |s.index|
  {
    if abs then s.index[i] else i
  }

  predicate InRange(t: seq<int>, n: int) {
    forall k :: 0 <= k < |t| ==> 0 <= t[k] < n
  }

  /** The bond of entry a of sa with entry b of st; `flip` reports it as (b, a). */
  function BondOf(sa: Points, st: Points, abs: bool, flip: bool, a: int, b: int): Bond
    requires 0 <= a < |sa.index| && 0 <= b < |st.index|
  {
    if flip then Bond(Label(st, abs, b), Label(sa, abs, a)) else Bond(Label(sa, abs, a), Label(st, abs, b))
  }

  /** The inner loop of every pair search: entry a of sa against the entries t of st, in order. */
  function Row(m: Metric, sa: Points, st: Points, abs: bool, flip: bool, a: int, t: seq<int>): seq<Bond>
    requires PointsOk(sa) && PointsOk(st) && 0 <= a < |sa.coords| && InRange(t, |st.coords|)
    decreases |t|
  {
    if |t| == 0 then []
    else
      var b := t[|t| - 1];
      Row(m, sa, st, abs, flip, a, t[..|t| - 1])
        + (if Close(m, sa.coords[a], st.coords[b]) then [BondOf(sa, st, abs, flip, a, b)] else [])
  }

  /** Both loops of get_side_* and get_central_2: every entry of s against every entry of t. */
  function Cross(m: Metric, sa: Points, st: Points, abs: bool, flip: bool, s: seq<int>, t: seq<int>): seq<Bond>
    requires PointsOk(sa) && PointsOk(st) && InRange(s, |sa.coords|) && InRange(t, |st.coords|)
    decreases |s|
  {
    if |s| == 0 then []
    else Cross(m, sa, st, abs, flip, s[..|s| - 1], t) + Row(m, sa, st, abs, flip, s[|s| - 1], t)
  }

  /** The first `rows` rows of get_central_1: entry s[c1] against the entries after it. */
  function TriangleRows(m: Metric, sa: Points, abs: bool, s: seq<int>, rows: int): seq<Bond>
    requires PointsOk(sa) && InRange(s, |sa.coords|) && 0 <= rows <= |s|
    decreases rows
  {
    if rows == 0 then []
    else TriangleRows(m, sa, abs, s, rows - 1) + Row(m, sa, sa, abs, false, s[rows - 1], s[rows..])
  }

  /** get_central_1: every pair of positions c1 < c2 of one cell. */
  function Triangle(m: Metric, sa: Points, abs: bool, s: seq<int>): seq<Bond>
    requires PointsOk(sa) && InRange(s, |sa.coords|)
  {
    TriangleRows(m, sa, abs, s, |s|)
  }

  lemma {:induction false} RowMembers(m: Metric, sa: Points, st: Points, abs: bool, flip: bool, a: int, t: seq<int>)
    requires PointsOk(sa) && PointsOk(st) && 0 <= a < |sa.coords| && InRange(t, |st.coords|)
    ensures forall x :: x in Row(m, sa, st, abs, flip, a, t) <==>
      exists k :: 0 <= k < |t| && Close(m, sa.coords[a], st.coords[t[k]]) && x == BondOf(sa, st, abs, flip, a, t[k])
    decreases |t|
  {
    if |t| > 0 {
      var t' := t[..|t| - 1];
      RowMembers(m, sa, st, abs, flip, a, t');
      forall x ensures x in Row(m, sa, st, abs, flip, a, t) <==>
        exists k :: 0 <= k < |t| && Close(m, sa.coords[a], st.coords[t[k]]) && x == BondOf(sa, st, abs, flip, a, t[k])
      {
        if x in Row(m, sa, st, abs, flip, a, t) {
          if x in Row(m, sa, st, abs, flip, a, t') {
            var k :| 0 <= k < |t'| && Close(m, sa.coords[a], st.coords[t'[k]]) && x == BondOf(sa, st, abs, flip, a, t'[k]);
            assert t[k] == t'[k];
          } else {
            assert Close(m, sa.coords[a], st.coords[t[|t| - 1]]) && x == BondOf(sa, st, abs, flip, a, t[|t| - 1]);
          }
        }
        if exists k :: 0 <= k < |t| && Close(m, sa.coords[a], st.coords[t[k]]) && x == BondOf(sa, st, abs, flip, a, t[k]) {
          var k :| 0 <= k < |t| && Close(m, sa.coords[a], st.coords[t[k]]) && x == BondOf(sa, st, abs, flip, a, t[k]);
          if k < |t| - 1 {
            assert t'[k] == t[k];
          }
        }
      }
    }
  }

  /** Entries s[j] and t[k] within the cutoff whose bond is x. */
  ghost predicate CrossHas(m: Metric, sa: Points, st: Points, abs: bool, flip: bool, s: seq<int>, t: seq<int>, x: Bond)
    requires PointsOk(sa) && PointsOk(st) && InRange(s, |sa.coords|) && InRange(t, |st.coords|)
  {
    exists j, k :: 0 <= j < |s| && 0 <= k < |t| && Close(m, sa.coords[s[j]], st.coords[t[k]])
      && x == BondOf(sa, st, abs, flip, s[j], t[k])
  }

  /** get_side_*: a bond for each pair of entries, one from each cell, within the cutoff, and nothing else. */
  lemma {:induction false} CrossMembers(m: Metric, sa: Points, st: Points, abs: bool, flip: bool, s: seq<int>, t: seq<int>)
    requires PointsOk(sa) && PointsOk(st) && InRange(s, |sa.coords|) && InRange(t, |st.coords|)
    ensures forall x :: x in Cross(m, sa, st, abs, flip, s, t) <==> CrossHas(m, sa, st, abs, flip, s, t, x)
    decreases |s|
  {
    if |s| > 0 {
      CrossMembers(m, sa, st, abs, flip, s[..|s| - 1], t);
      forall x ensures x in Cross(m, sa, st, abs, flip, s, t) <==> CrossHas(m, sa, st, abs, flip, s, t, x) {
        CrossStep(m, sa, st, abs, flip, s, t, x);
      }
    }
  }

  lemma CrossStep(m: Metric, sa: Points, st: Points, abs: bool, flip: bool, s: seq<int>, t: seq<int>, x: Bond)
    requires PointsOk(sa) && PointsOk(st) && InRange(s, |sa.coords|) && InRange(t, |st.coords|) && |s| > 0
    requires x in Cross(m, sa, st, abs, flip, s[..|s| - 1], t) <==> CrossHas(m, sa, st, abs, flip, s[..|s| - 1], t, x)
    ensures x in Cross(m, sa, st, abs, flip, s, t) <==> CrossHas(m, sa, st, abs, flip, s, t, x)
  {
    var row := Row(m, sa, st, abs, flip, s[|s| - 1], t);
    assert Cross(m, sa, st, abs, flip, s, t) == Cross(m, sa, st, abs, flip, s[..|s| - 1], t) + row;
    if x in row {
      LastCrossRowHas(m, sa, st, abs, flip, s, t, x);
    }
    if CrossHas(m, sa, st, abs, flip, s[..|s| - 1], t, x) {
      CrossHasGrow(m, sa, st, abs, flip, s, t, x);
    }
    if CrossHas(m, sa, st, abs, flip, s, t, x) {
      CrossHasSplit(m, sa, st, abs, flip, s, t, x);
    }
  }

  lemma LastCrossRowHas(m: Metric, sa: Points, st: Points, abs: bool, flip: bool, s: seq<int>, t: seq<int>, x: Bond)
    requires PointsOk(sa) && PointsOk(st) && InRange(s, |sa.coords|) && InRange(t, |st.coords|) && |s| > 0
    requires x in Row(m, sa, st, abs, flip, s[|s| - 1], t)
    ensures CrossHas(m, sa, st, abs, flip, s, t, x)
  {
    var a := s[|s| - 1];
    RowMembers(m, sa, st, abs, flip, a, t);
    var k :| 0 <= k < |t| && Close(m, sa.coords[a], st.coords[t[k]]) && x == BondOf(sa, st, abs, flip, a, t[k]);
    assert 0 <= |s| - 1 < |s|;
  }

  lemma CrossHasGrow(m: Metric, sa: Points, st: Points, abs: bool, flip: bool, s: seq<int>, t: seq<int>, x: Bond)
    requires PointsOk(sa) && PointsOk(st) && InRange(s, |sa.coords|) && InRange(t, |st.coords|) && |s| > 0
    requires CrossHas(m, sa, st, abs, flip, s[..|s| - 1], t, x)
    ensures CrossHas(m, sa, st, abs, flip, s, t, x)
  {
    var s' := s[..|s| - 1];
    var j, k :| 0 <= j < |s'| && 0 <= k < |t| && Close(m, sa.coords[s'[j]], st.coords[t[k]])
      && x == BondOf(sa, st, abs, flip, s'[j], t[k]);
    assert s[j] == s'[j];
  }

  lemma CrossHasSplit(m: Metric, sa: Points, st: Points, abs: bool, flip: bool, s: seq<int>, t: seq<int>, x: Bond)
    requires PointsOk(sa) && PointsOk(st) && InRange(s, |sa.coords|) && InRange(t, |st.coords|) && |s| > 0
    requires CrossHas(m, sa, st, abs, flip, s, t, x)
    ensures CrossHas(m, sa, st, abs, flip, s[..|s| - 1], t, x) || x in Row(m, sa, st, abs, flip, s[|s| - 1], t)
  {
    var s' := s[..|s| - 1];
    var a := s[|s| - 1];
    var j, k :| 0 <= j < |s| && 0 <= k < |t| && Close(m, sa.coords[s[j]], st.coords[t[k]])
      && x == BondOf(sa, st, abs, flip, s[j], t[k]);
    if j < |s| - 1 {
      assert s'[j] == s[j];
      assert 0 <= j < |s'|;
    } else {
      RowMembers(m, sa, st, abs, flip, a, t);
      assert Close(m, sa.coords[a], st.coords[t[k]]) && x == BondOf(sa, st, abs, flip, a, t[k]);
    }
  }

  /** Positions j < k of s, j among the first `rows`, hold entries within the cutoff whose bond is x. */
  ghost predicate TriangleHas(m: Metric, sa: Points, abs: bool, s: seq<int>, rows: int, x: Bond)
    requires PointsOk(sa) && InRange(s, |sa.coords|) && 0 <= rows <= |s|
  {
    exists j, k :: 0 <= j < rows && j < k < |s| && Close(m, sa.coords[s[j]], sa.coords[s[k]])
      && x == BondOf(sa, sa, abs, false, s[j], s[k])
  }

  /** get_central_1: a bond for each pair of positions c1 < c2 within the cutoff, and nothing else. */
  lemma {:induction false} TriangleMembers(m: Metric, sa: Points, abs: bool, s: seq<int>, rows: int)
    requires PointsOk(sa) && InRange(s, |sa.coords|) && 0 <= rows <= |s|
    ensures forall x :: x in TriangleRows(m, sa, abs, s, rows) <==> TriangleHas(m, sa, abs, s, rows, x)
    decreases rows
  {
    if rows > 0 {
      TriangleMembers(m, sa, abs, s, rows - 1);
      forall x ensures x in TriangleRows(m, sa, abs, s, rows) <==> TriangleHas(m, sa, abs, s, rows, x) {
        TriangleStep(m, sa, abs, s, rows, x);
      }
    }
  }

  lemma TriangleStep(m: Metric, sa: Points, abs: bool, s: seq<int>, rows: int, x: Bond)
    requires PointsOk(sa) && InRange(s, |sa.coords|) && 0 < rows <= |s|
    requires x in TriangleRows(m, sa, abs, s, rows - 1) <==> TriangleHas(m, sa, abs, s, rows - 1, x)
    ensures x in TriangleRows(m, sa, abs, s, rows) <==> TriangleHas(m, sa, abs, s, rows, x)
  {
    var row := Row(m, sa, sa, abs, false, s[rows - 1], s[rows..]);
    assert TriangleRows(m, sa, abs, s, rows) == TriangleRows(m, sa, abs, s, rows - 1) + row;
    if x in row {
      LastRowHas(m, sa, abs, s, rows, x);
    }
    if TriangleHas(m, sa, abs, s, rows, x) {
      TriangleHasSplit(m, sa, abs, s, rows, x);
    }
    if TriangleHas(m, sa, abs, s, rows - 1, x) {
      TriangleHasGrow(m, sa, abs, s, rows, x);
    }
  }

  lemma TriangleHasGrow(m: Metric, sa: Points, abs: bool, s: seq<int>, rows: int, x: Bond)
    requires PointsOk(sa) && InRange(s, |sa.coords|) && 0 < rows <= |s|
    requires TriangleHas(m, sa, abs, s, rows - 1, x)
    ensures TriangleHas(m, sa, abs, s, rows, x)
  {
    var j, k :| 0 <= j < rows - 1 && j < k < |s| && Close(m, sa.coords[s[j]], sa.coords[s[k]])
      && x == BondOf(sa, sa, abs, false, s[j], s[k]);
    assert 0 <= j < rows;
  }

  lemma LastRowHas(m: Metric, sa: Points, abs: bool, s: seq<int>, rows: int, x: Bond)
    requires PointsOk(sa) && InRange(s, |sa.coords|) && 0 < rows <= |s|
    requires x in Row(m, sa, sa, abs, false, s[rows - 1], s[rows..])
    ensures TriangleHas(m, sa, abs, s, rows, x)
  {
    var t := s[rows..];
    var a := s[rows - 1];
    RowMembers(m, sa, sa, abs, false, a, t);
    var k :| 0 <= k < |t| && Close(m, sa.coords[a], sa.coords[t[k]]) && x == BondOf(sa, sa, abs, false, a, t[k]);
    assert t[k] == s[rows + k];
    assert 0 <= rows - 1 < rows && rows - 1 < rows + k < |s|;
  }

  lemma TriangleHasSplit(m: Metric, sa: Points, abs: bool, s: seq<int>, rows: int, x: Bond)
    requires PointsOk(sa) && InRange(s, |sa.coords|) && 0 < rows <= |s|
    requires TriangleHas(m, sa, abs, s, rows, x)
    ensures TriangleHas(m, sa, abs, s, rows - 1, x) || x in Row(m, sa, sa, abs, false, s[rows - 1], s[rows..])
  {
    var t := s[rows..];
    var a := s[rows - 1];
    var j, k :| 0 <= j < rows && j < k < |s| && Close(m, sa.coords[s[j]], sa.coords[s[k]])
      && x == BondOf(sa, sa, abs, false, s[j], s[k]);
    if j == rows - 1 {
      RowMembers(m, sa, sa, abs, false, a, t);
      var k' := k - rows;
      assert 0 <= k' < |t| && t[k'] == s[k];
      assert Close(m, sa.coords[a], sa.coords[t[k']]) && x == BondOf(sa, sa, abs, false, a, t[k']);
    } else {
      assert 0 <= j < rows - 1 && j < k < |s|;
    }
  }

  // ---------------------------------------------------------------------------
  // Each pair of positions once

  /** Bond x comes before bond y, first by a, then by b. */
  predicate BondLess(x: Bond, y: Bond) {
    x.a < y.a || (x.a == y.a && x.b < y.b)
  }

  predicate LexStrict(bs: seq<Bond>) {
    forall i, j :: 0 <= i < j < |bs| ==> BondLess(bs[i], bs[j])
  }

  /** Labels keep the order of positions: always without absolute indices, with them when Index is ascending. */
  predicate Rising(sa: Points, abs: bool) {
    abs ==> Strict(sa.index)
  }

  lemma LabelRising(sa: Points, abs: bool, i: int, j: int)
    requires PointsOk(sa) && Rising(sa, abs) && 0 <= i < j < |sa.index|
    ensures Label(sa, abs, i) < Label(sa, abs, j)
  {
  }

  lemma LexStrictConcat(x: seq<Bond>, y: seq<Bond>)
    requires LexStrict(x) && LexStrict(y)
    requires forall u, v :: u in x && v in y ==> u.a < v.a
    ensures LexStrict(x + y)
  {
    var z := x + y;
    forall i, j | 0 <= i < j < |z| ensures BondLess(z[i], z[j]) {
      if i < |x| && j >= |x| {
        assert z[i] in x && z[j] in y;
      } else if i >= |x| {
        assert z[i] == y[i - |x|] && z[j] == y[j - |x|];
      }
    }
  }

  /** Row of entry a against ascending entries t after it: one bond per entry of t, ascending, each (a, later). */
  lemma {:induction false} RowOrdered(m: Metric, sa: Points, abs: bool, a: int, t: seq<int>)
    requires PointsOk(sa) && Rising(sa, abs) && 0 <= a < |sa.coords| && InRange(t, |sa.coords|)
    requires Strict(t) && forall k :: 0 <= k < |t| ==> a < t[k]
    ensures LexStrict(Row(m, sa, sa, abs, false, a, t))
    ensures forall x :: x in Row(m, sa, sa, abs, false, a, t) ==> x.a == Label(sa, abs, a) && x.a < x.b
    decreases |t|
  {
    RowMembers(m, sa, sa, abs, false, a, t);
    forall x | x in Row(m, sa, sa, abs, false, a, t)
      ensures x.a == Label(sa, abs, a) && x.a < x.b
    {
      var k :| 0 <= k < |t| && Close(m, sa.coords[a], sa.coords[t[k]]) && x == BondOf(sa, sa, abs, false, a, t[k]);
      LabelRising(sa, abs, a, t[k]);
    }
    if |t| > 0 {
      var t' := t[..|t| - 1];
      var last := t[|t| - 1];
      RowOrdered(m, sa, abs, a, t');
      RowMembers(m, sa, sa, abs, false, a, t');
      var r := Row(m, sa, sa, abs, false, a, t');
      if Close(m, sa.coords[a], sa.coords[last]) {
        var y := BondOf(sa, sa, abs, false, a, last);
        forall u | u in r ensures BondLess(u, y) {
          var k :| 0 <= k < |t'| && Close(m, sa.coords[a], sa.coords[t'[k]]) && u == BondOf(sa, sa, abs, false, a, t'[k]);
          assert t'[k] == t[k] < last;
          LabelRising(sa, abs, t'[k], last);
        }
        var z := r + [y];
        forall i, j | 0 <= i < j < |z| ensures BondLess(z[i], z[j]) {
          if j == |r| {
            assert z[i] in r;
          } else {
            assert z[i] == r[i] && z[j] == r[j];
          }
        }
      }
    }
  }

  /**
   * get_central_1 over a cell holding ascending positions reports each pair
   * of positions c1 < c2 at most once, as (lower, higher), in ascending
   * order; so no bond appears twice.
   */
  lemma {:induction false} TriangleOrdered(m: Metric, sa: Points, abs: bool, s: seq<int>, rows: int)
    requires PointsOk(sa) && Rising(sa, abs) && InRange(s, |sa.coords|) && Strict(s) && 0 <= rows <= |s|
    ensures LexStrict(TriangleRows(m, sa, abs, s, rows))
    ensures forall x :: x in TriangleRows(m, sa, abs, s, rows) ==> x.a < x.b
    ensures forall x :: x in TriangleRows(m, sa, abs, s, rows) ==> exists j :: 0 <= j < rows && x.a == Label(sa, abs, s[j])
    decreases rows
  {
    if rows > 0 {
      var a := s[rows - 1];
      var t := s[rows..];
      var before := TriangleRows(m, sa, abs, s, rows - 1);
      TriangleOrdered(m, sa, abs, s, rows - 1);
      forall k | 0 <= k < |t| ensures a < t[k] {
        assert t[k] == s[rows + k];
      }
      assert Strict(t) by {
        forall i, j | 0 <= i < j < |t| ensures t[i] < t[j] {
          assert t[i] == s[rows + i] && t[j] == s[rows + j];
        }
      }
      RowOrdered(m, sa, abs, a, t);
      var row := Row(m, sa, sa, abs, false, a, t);
      forall u, v | u in before && v in row ensures u.a < v.a {
        var j :| 0 <= j < rows - 1 && u.a == Label(sa, abs, s[j]);
        LabelRising(sa, abs, s[j], a);
      }
      LexStrictConcat(before, row);
      forall x | x in before + row
        ensures exists j :: 0 <= j < rows && x.a == Label(sa, abs, s[j])
      {
        if x in row {
          assert x.a == Label(sa, abs, s[rows - 1]);
        }
      }
    }
  }

  lemma LexStrictDistinct(bs: seq<Bond>)
    requires LexStrict(bs)
    ensures Distinct(bs)
  {
  }

  // ---------------------------------------------------------------------------
  // The cells a search compares

  /**
   * One pass of do_search/do_part*: the grids, the selections (the same
   * for a search inside one selection, `two` false), the distance test and
   * whether indices are absolute.
   */
  datatype Scan = Scan(dims: Dims, periodic: bool, m: Metric, abs: bool, two: bool, g1: Grid, g2: Grid, s1: Points, s2: Points)

  ghost predicate ScanOk(j: Scan) {
    && DimsOk(j.dims) && PointsOk(j.s1) && PointsOk(j.s2)
    && Shaped(j.dims, j.g1) && Shaped(j.dims, j.g2)
    && EntriesIn(j.g1, |j.s1.coords|) && EntriesIn(j.g2, |j.s2.coords|)
  }

  lemma CellEntries(g: Grid, n: int, c: Cell)
    requires EntriesIn(g, n) && c in g
    ensures InRange(g[c], n)
  {
  }

  /** get_central_1, or get_central_2 for two selections: the contacts inside cell c. */
  function Central(j: Scan, c: Cell): seq<Bond>
    requires ScanOk(j) && InGrid(j.dims, c)
  {
    CellEntries(j.g1, |j.s1.coords|, c);
    CellEntries(j.g2, |j.s2.coords|, c);
    if j.two then Cross(j.m, j.s1, j.s2, j.abs, false, j.g1[c], j.g2[c])
    else Triangle(j.m, j.s1, j.abs, j.g1[c])
  }

  /**
   * get_side_1, or get_side_2 for two selections: the contacts between cell
   * c and its neighbour nb; with two selections first those of selection 1
   * in c with selection 2 in nb, then those of selection 2 in c with
   * selection 1 in nb, still reported as (selection 1, selection 2).
   */
  function Side(j: Scan, c: Cell, nb: Cell): seq<Bond>
    requires ScanOk(j) && InGrid(j.dims, c) && InGrid(j.dims, nb)
  {
    CellEntries(j.g1, |j.s1.coords|, c);
    CellEntries(j.g2, |j.s2.coords|, c);
    CellEntries(j.g1, |j.s1.coords|, nb);
    CellEntries(j.g2, |j.s2.coords|, nb);
    if j.two then
      Cross(j.m, j.s1, j.s2, j.abs, false, j.g1[c], j.g2[nb]) + Cross(j.m, j.s2, j.s1, j.abs, true, j.g2[c], j.g1[nb])
    else Cross(j.m, j.s1, j.s1, j.abs, false, j.g1[c], j.g1[nb])
  }

  /** The range [b, e) of axis dim one search covers (a thread's part, or the whole axis). */
  datatype Part = Part(dim: int, b: int, e: int)

  predicate PartOk(d: Dims, p: Part) {
    0 <= p.dim < 3 && 0 <= p.b <= p.e <= Extent(d, p.dim)
  }

  function Low(p: Part, k: int): int {
    if k == p.dim then p.b else 0
  }

  function High(d: Dims, p: Part, k: int): int
    requires 0 <= k < 3
  {
    if k == p.dim then p.e else Extent(d, k)
  }

  predicate InPart(d: Dims, p: Part, c: Cell)
    requires 0 <= p.dim < 3
  {
    InGrid(d, c) && p.b <= Coord(c, p.dim) < p.e
  }

  /**
   * Whether the search of part p compares cell c with its neighbour nb:
   * not when nb lies below the part along dim, and, inside the part, only
   * when nb is not visited yet, i.e. comes after c in the loop order.
   */
  predicate Compared(p: Part, c: Cell, nb: Cell)
    requires 0 <= p.dim < 3
  {
    p.b <= Coord(nb, p.dim) && (Coord(nb, p.dim) < p.e ==> Before(c, nb))
  }

  predicate AllInGrid(d: Dims, nl: seq<Cell>) {
    forall k :: 0 <= k < |nl| ==> InGrid(d, nl[k])
  }

  /** The side searches of cell c over the neighbour list nl, in order. */
  function Sides(j: Scan, p: Part, c: Cell, nl: seq<Cell>): seq<Bond>
    requires ScanOk(j) && PartOk(j.dims, p) && InGrid(j.dims, c) && AllInGrid(j.dims, nl)
    decreases |nl|
  {
    if |nl| == 0 then []
    else
      var nb := nl[|nl| - 1];
      Sides(j, p, c, nl[..|nl| - 1]) + (if Compared(p, c, nb) then Side(j, c, nb) else [])
  }

  lemma NeighboursInGrid(d: Dims, periodic: bool, c: Cell)
    requires DimsOk(d) && InGrid(d, c)
    ensures AllInGrid(d, Neighbours(d, periodic, c))
  {
    NeighboursShape(d, periodic, c);
    var nl := Neighbours(d, periodic, c);
    forall k | 0 <= k < |nl| ensures InGrid(d, nl[k]) {
      assert nl[k] in nl;
    }
  }

  /** Everything the search of part p reports for cell c. */
  function CellBonds(j: Scan, p: Part, c: Cell): seq<Bond>
    requires ScanOk(j) && PartOk(j.dims, p) && InGrid(j.dims, c)
  {
    NeighboursInGrid(j.dims, j.periodic, c);
    Central(j, c) + Sides(j, p, c, Neighbours(j.dims, j.periodic, c))
  }

  /** The report of a cell is its central search followed by its side search. */
  lemma CellBondsSplit(j: Scan, p: Part, c: Cell, nl: seq<Cell>, bonds: seq<Bond>, mid: seq<Bond>, r: seq<Bond>)
    requires ScanOk(j) && PartOk(j.dims, p) && InGrid(j.dims, c) && nl == Neighbours(j.dims, j.periodic, c)
    requires AllInGrid(j.dims, nl) && mid == bonds + Central(j, c) && r == mid + Sides(j, p, c, nl)
    ensures r == bonds + CellBonds(j, p, c)
  {
    var x, y := Central(j, c), Sides(j, p, c, nl);
    assert CellBonds(j, p, c) == x + y;
    SeqAssoc(bonds, x, y);
  }

  lemma SeqAssoc(a: seq<Bond>, b: seq<Bond>, c: seq<Bond>)
    ensures a + b + c == a + (b + c)
  {
  }

  /** What the search of part p reports for each cell of the grid. */
  function BondTable(j: Scan, p: Part): (t: map<Cell, seq<Bond>>)
    requires ScanOk(j) && PartOk(j.dims, p)
    ensures forall c :: c in t <==> InGrid(j.dims, c)
  {
    map c | c in CellsOf(j.dims) :: CellBonds(j, p, c)
  }

  /** The corners of the sub-box a part covers. */
  function PartLo(p: Part): Cell {
    Cell(Low(p, 0), Low(p, 1), Low(p, 2))
  }

  function PartHi(d: Dims, p: Part): Cell {
    Cell(High(d, p, 0), High(d, p, 1), High(d, p, 2))
  }

  lemma PartBox(d: Dims, p: Part, c: Cell)
    requires PartOk(d, p)
    ensures InBox(PartLo(p), PartHi(d, p), c) <==> InPart(d, p, c)
  {
  }

  /** Everything the search of part p reports, in its loop order. */
  function PartBonds(j: Scan, p: Part): seq<Bond>
    requires ScanOk(j) && PartOk(j.dims, p)
  {
    var t := BondTable(j, p);
    assert Covers(t, PartLo(p), PartHi(j.dims, p));
    Walk(t, PartLo(p), PartHi(j.dims, p))
  }

  /** The part search reports a bond exactly when some cell of the part reports it. */
  lemma PartBondsMembers(j: Scan, p: Part, x: Bond)
    requires ScanOk(j) && PartOk(j.dims, p)
    ensures x in PartBonds(j, p) <==> exists c :: InPart(j.dims, p, c) && x in CellBonds(j, p, c)
  {
    var t := BondTable(j, p);
    assert Covers(t, PartLo(p), PartHi(j.dims, p));
    WalkMembers(t, PartLo(p), PartHi(j.dims, p), x);
  }

  /** The whole grid as one part, which is what the serial search covers. */
  function Whole(d: Dims): (p: Part)
    requires DimsOk(d)
    ensures PartOk(d, p)
  {
    Part(0, 0, d.nx)
  }

  /** Over the whole grid a neighbour is compared exactly when it is not visited yet. */
  lemma WholeCompared(d: Dims, c: Cell, nb: Cell)
    requires DimsOk(d) && InGrid(d, nb)
    ensures Compared(Whole(d), c, nb) <==> Before(c, nb)
  {
  }

  /**
   * The serial search compares every pair of neighbouring cells exactly
   * once: from whichever of the two comes first.
   */
  lemma SerialPairOnce(d: Dims, periodic: bool, a: Cell, b: Cell)
    requires DimsOk(d) && InGrid(d, a) && InGrid(d, b) && b in Neighbours(d, periodic, a)
    ensures a in Neighbours(d, periodic, b)
    ensures Compared(Whole(d), a, b) != Compared(Whole(d), b, a)
  {
    NeighboursSymmetric(d, periodic, a, b);
    NeighboursShape(d, periodic, a);
    BeforeTotal(a, b);
  }

  /** The ranges of PartitionRanges: contiguous, from 0 to the extent of the axis. */
  predicate Partition(total: int, b: seq<int>, e: seq<int>) {
    && |b| == |e| && |b| >= 1
    && b[0] == 0 && e[|e| - 1] == total
    && (forall i :: 0 <= i < |b| - 1 ==> e[i] == b[i + 1])
    && (forall i :: 0 <= i < |b| ==> b[i] <= e[i])
  }

  lemma {:induction false} PartitionRising(total: int, b: seq<int>, e: seq<int>, i: int, k: int)
    requires Partition(total, b, e) && 0 <= i < k < |b|
    ensures e[i] <= b[k]
    decreases k - i
  {
    if k > i + 1 {
      PartitionRising(total, b, e, i + 1, k);
    }
  }

  /** Each range of a partition lies inside [0, total). */
  lemma {:induction false} PartitionFloor(total: int, b: seq<int>, e: seq<int>, i: int)
    requires Partition(total, b, e) && 0 <= i < |b|
    ensures 0 <= b[i]
  {
    if i > 0 {
      PartitionFloor(total, b, e, i - 1);
    }
  }

  lemma {:induction false} PartitionCeiling(total: int, b: seq<int>, e: seq<int>, i: int)
    requires Partition(total, b, e) && 0 <= i < |b|
    ensures e[i] <= total
    decreases |b| - i
  {
    if i < |b| - 1 {
      PartitionCeiling(total, b, e, i + 1);
    }
  }

  /** The part of thread i: the cells whose coordinate along dim lies in [b[i], e[i]). */
  lemma PartitionPart(d: Dims, dim: int, b: seq<int>, e: seq<int>, i: int)
    requires 0 <= dim < 3 && Partition(Extent(d, dim), b, e) && 0 <= i < |b|
    ensures PartOk(d, Part(dim, b[i], e[i]))
  {
    PartitionFloor(Extent(d, dim), b, e, i);
    PartitionCeiling(Extent(d, dim), b, e, i);
  }

  /**
   * What the threads of the parallel search report, collected in thread
   * order: the reports of the first n parts of the partition, one after the other.
   */
  ghost function PartsBonds(j: Scan, dim: int, b: seq<int>, e: seq<int>, n: int): seq<Bond>
    requires ScanOk(j) && 0 <= dim < 3 && Partition(Extent(j.dims, dim), b, e) && 0 <= n <= |b|
    decreases n
  {
    if n == 0 then []
    else
      PartitionPart(j.dims, dim, b, e, n - 1);
      PartsBonds(j, dim, b, e, n - 1) + PartBonds(j, Part(dim, b[n - 1], e[n - 1]))
  }

  /** Every position of the axis falls in exactly one range. */
  lemma {:induction false} PartitionCovers(total: int, b: seq<int>, e: seq<int>, v: int, n: int)
    requires Partition(total, b, e) && 0 <= v < total && 1 <= n <= |b| && v < e[n - 1]
    ensures exists i :: 0 <= i < n && b[i] <= v < e[i]
    ensures forall i, k :: 0 <= i < |b| && 0 <= k < |b| && b[i] <= v < e[i] && b[k] <= v < e[k] ==> i == k
    decreases n
  {
    if n > 1 && v < e[n - 2] {
      PartitionCovers(total, b, e, v, n - 1);
    } else if n > 1 {
      assert b[n - 1] == e[n - 2];
    }
    forall i, k | 0 <= i < |b| && 0 <= k < |b| && b[i] <= v < e[i] && b[k] <= v < e[k] ensures i == k {
      if i < k {
        PartitionRising(total, b, e, i, k);
      } else if k < i {
        PartitionRising(total, b, e, k, i);
      }
    }
  }

  /**
   * Split between threads, the search still compares every pair of
   * neighbouring cells exactly once: a thread compares a cell with a
   * neighbour in a later part always and with one in an earlier part never.
   */
  lemma PartsPairOnce(d: Dims, periodic: bool, dim: int, b: seq<int>, e: seq<int>, pa: int, pb: int, ca: Cell, cb: Cell)
    requires DimsOk(d) && 0 <= dim < 3 && Partition(Extent(d, dim), b, e)
    requires InGrid(d, ca) && InGrid(d, cb) && cb in Neighbours(d, periodic, ca)
    requires 0 <= pa < |b| && b[pa] <= Coord(ca, dim) < e[pa]
    requires 0 <= pb < |b| && b[pb] <= Coord(cb, dim) < e[pb]
    ensures ca in Neighbours(d, periodic, cb)
    ensures Compared(Part(dim, b[pa], e[pa]), ca, cb) != Compared(Part(dim, b[pb], e[pb]), cb, ca)
  {
    NeighboursSymmetric(d, periodic, ca, cb);
    NeighboursShape(d, periodic, ca);
    BeforeTotal(ca, cb);
    if pa < pb {
      PartitionRising(Extent(d, dim), b, e, pa, pb);
    } else if pb < pa {
      PartitionRising(Extent(d, dim), b, e, pb, pa);
    }
  }
}
