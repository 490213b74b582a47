/**
 * What the within searches of the grid searcher compute.  grid1 holds the
 * source selection (s1 of a Scan), grid2 the target (s2); a source point is
 * reported when it is within cutoff of a target point in the same or a
 * neighbouring cell.  search_within(target) walks the target cells and
 * reports labels in loop order; the within constructor only raises a flag
 * per source point; search_within(point) looks around the cell of one point.
 */
module GridWithin {
  import opened Wrappers
  import opened AtomData
  import opened GridCells
  import opened StdAlgorithms
  import opened GridPairs

  lemma AroundInGrid(d: Dims, periodic: bool, c: Cell)
    requires InGrid(d, c)
    ensures forall k :: 0 <= k < |Around(d, periodic, c)| ==> InGrid(d, Around(d, periodic, c)[k])
  {
    AroundShape(d, periodic, c);
    var a := Around(d, periodic, c);
    forall k | 0 <= k < |a| ensures InGrid(d, a[k]) {
      assert a[k] in a;
    }
  }

  // ---------------------------------------------------------------------------
  // search_within(target)

  /** The labels of the source entries e within cutoff of q, in order. */
  function EntryHits(j: Scan, e: seq<int>, q: Vec3): seq<int>
    requires ScanOk(j) && InRange(e, |j.s1.coords|)
    decreases |e|
  {
    if |e| == 0 then []
    else
      var a := e[|e| - 1];
      EntryHits(j, e[..|e| - 1], q) + (if Close(j.m, j.s1.coords[a], q) then [Label(j.s1, j.abs, a)] else [])
  }

  /** The first n target points of cell c against the source points of cell nb. */
  function PairHits(j: Scan, c: Cell, nb: Cell, n: int): seq<int>
    requires ScanOk(j) && InGrid(j.dims, c) && InGrid(j.dims, nb) && 0 <= n <= |j.g2[c]|
    decreases n
  {
    CellEntries(j.g1, |j.s1.coords|, nb);
    if n == 0 then []
    else PairHits(j, c, nb, n - 1) + EntryHits(j, j.g1[nb], j.s2.coords[j.g2[c][n - 1]])
  }

  /** Target cell c against the first n cells of Around(c). */
  function CellHits(j: Scan, c: Cell, n: int): seq<int>
    requires ScanOk(j) && InGrid(j.dims, c) && 0 <= n <= |Around(j.dims, j.periodic, c)|
    decreases n
  {
    AroundInGrid(j.dims, j.periodic, c);
    if n == 0 then []
    else CellHits(j, c, n - 1) + PairHits(j, c, Around(j.dims, j.periodic, c)[n - 1], |j.g2[c]|)
  }

  function AllCellHits(j: Scan, c: Cell): seq<int>
    requires ScanOk(j) && InGrid(j.dims, c)
  {
    CellHits(j, c, |Around(j.dims, j.periodic, c)|)
  }

  /** The hits of every target cell. */
  function HitsTable(j: Scan): (t: map<Cell, seq<int>>)
    requires ScanOk(j)
    ensures forall c :: c in t <==> InGrid(j.dims, c)
  {
    map c | c in CellsOf(j.dims) :: AllCellHits(j, c)
  }

  function Origin(): Cell {
    Cell(0, 0, 0)
  }

  function Corner(d: Dims): Cell {
    Cell(d.nx, d.ny, d.nz)
  }

  /** Everything the loops of search_within(target) push, in order, marks aside. */
  function WithinHits(j: Scan): seq<int>
    requires ScanOk(j)
  {
    var t := HitsTable(j);
    assert Covers(t, Origin(), Corner(j.dims));
    Walk(t, Origin(), Corner(j.dims))
  }

  /** Source point a in cell nb is within cutoff of target point b in cell c, and nb is around c. */
  ghost predicate Witness(j: Scan, x: int, c: Cell, nb: Cell, a: int, b: int) {
    && c in j.g2 && nb in j.g1 && nb in Around(j.dims, j.periodic, c)
    && a in j.g1[nb] && b in j.g2[c]
    && 0 <= a < |j.s1.coords| == |j.s1.index| && 0 <= b < |j.s2.coords|
    && Close(j.m, j.s1.coords[a], j.s2.coords[b]) && x == Label(j.s1, j.abs, a)
  }

  lemma {:induction false} EntryHitsMembers(j: Scan, e: seq<int>, q: Vec3)
    requires ScanOk(j) && InRange(e, |j.s1.coords|)
    ensures forall x :: x in EntryHits(j, e, q) <==>
      exists k :: 0 <= k < |e| && Close(j.m, j.s1.coords[e[k]], q) && x == Label(j.s1, j.abs, e[k])
    decreases |e|
  {
    if |e| > 0 {
      var e' := e[..|e| - 1];
      EntryHitsMembers(j, e', q);
      forall x ensures x in EntryHits(j, e, q) <==>
        exists k :: 0 <= k < |e| && Close(j.m, j.s1.coords[e[k]], q) && x == Label(j.s1, j.abs, e[k])
      {
        if exists k :: 0 <= k < |e| && Close(j.m, j.s1.coords[e[k]], q) && x == Label(j.s1, j.abs, e[k]) {
          var k :| 0 <= k < |e| && Close(j.m, j.s1.coords[e[k]], q) && x == Label(j.s1, j.abs, e[k]);
          if k < |e'| {
            assert e'[k] == e[k];
          }
        }
      }
    }
  }

  lemma {:induction false} PairHitsMembers(j: Scan, c: Cell, nb: Cell, n: int)
    requires ScanOk(j) && InGrid(j.dims, c) && InGrid(j.dims, nb) && 0 <= n <= |j.g2[c]|
    ensures forall x :: x in PairHits(j, c, nb, n) <==>
      exists i, k :: 0 <= i < n && 0 <= k < |j.g1[nb]|
        && Close(j.m, j.s1.coords[j.g1[nb][k]], j.s2.coords[j.g2[c][i]]) && x == Label(j.s1, j.abs, j.g1[nb][k])
    decreases n
  {
    CellEntries(j.g1, |j.s1.coords|, nb);
    if n > 0 {
      PairHitsMembers(j, c, nb, n - 1);
      var q := j.s2.coords[j.g2[c][n - 1]];
      EntryHitsMembers(j, j.g1[nb], q);
    }
  }

  /** x is a hit of target cell c against the t-th cell around it. */
  ghost predicate HitAt(j: Scan, c: Cell, t: int, x: int)
    requires ScanOk(j) && InGrid(j.dims, c)
  {
    var ar := Around(j.dims, j.periodic, c);
    0 <= t < |ar| && InGrid(j.dims, ar[t]) && c in j.g2 && x in PairHits(j, c, ar[t], |j.g2[c]|)
  }

  lemma {:induction false} CellHitsMembers(j: Scan, c: Cell, n: int)
    requires ScanOk(j) && InGrid(j.dims, c) && 0 <= n <= |Around(j.dims, j.periodic, c)|
    ensures forall x :: x in CellHits(j, c, n) <==> exists t :: 0 <= t < n && HitAt(j, c, t, x)
    decreases n
  {
    if n > 0 {
      CellHitsMembers(j, c, n - 1);
      forall x ensures x in CellHits(j, c, n) <==> exists t :: 0 <= t < n && HitAt(j, c, t, x) {
        CellHitsStep(j, c, n, x);
      }
    }
  }

  lemma CellHitsStep(j: Scan, c: Cell, n: int, x: int)
    requires ScanOk(j) && InGrid(j.dims, c) && 0 < n <= |Around(j.dims, j.periodic, c)|
    requires x in CellHits(j, c, n - 1) <==> exists t :: 0 <= t < n - 1 && HitAt(j, c, t, x)
    ensures x in CellHits(j, c, n) <==> exists t :: 0 <= t < n && HitAt(j, c, t, x)
  {
    var ar := Around(j.dims, j.periodic, c);
    AroundInGrid(j.dims, j.periodic, c);
    var last := PairHits(j, c, ar[n - 1], |j.g2[c]|);
    assert CellHits(j, c, n) == CellHits(j, c, n - 1) + last;
    if x in last {
      assert HitAt(j, c, n - 1, x);
    }
    if exists t :: 0 <= t < n && HitAt(j, c, t, x) {
      var t :| 0 <= t < n && HitAt(j, c, t, x);
      if t < n - 1 {
        assert x in CellHits(j, c, n - 1);
      }
    }
  }

  /** The hits of one target cell: the source points around it within cutoff of one of its points. */
  lemma AllCellHitsMembers(j: Scan, c: Cell, x: int)
    requires ScanOk(j) && InGrid(j.dims, c)
    ensures x in AllCellHits(j, c) <==> exists nb, a, b :: Witness(j, x, c, nb, a, b)
  {
    var ar := Around(j.dims, j.periodic, c);
    CellHitsMembers(j, c, |ar|);
    if x in AllCellHits(j, c) {
      var t :| 0 <= t < |ar| && HitAt(j, c, t, x);
      HitAtWitness(j, c, t, x);
    }
    if exists nb, a, b :: Witness(j, x, c, nb, a, b) {
      var nb, a, b :| Witness(j, x, c, nb, a, b);
      WitnessHitAt(j, c, nb, a, b, x);
    }
  }

  lemma HitAtWitness(j: Scan, c: Cell, t: int, x: int)
    requires ScanOk(j) && InGrid(j.dims, c) && HitAt(j, c, t, x)
    ensures exists nb, a, b :: Witness(j, x, c, nb, a, b)
  {
    var ar := Around(j.dims, j.periodic, c);
    var nb := ar[t];
    AroundInGrid(j.dims, j.periodic, c);
    CellEntries(j.g2, |j.s2.coords|, c);
    PairHitsMembers(j, c, nb, |j.g2[c]|);
    CellEntries(j.g1, |j.s1.coords|, nb);
    var i, k :| 0 <= i < |j.g2[c]| && 0 <= k < |j.g1[nb]|
      && Close(j.m, j.s1.coords[j.g1[nb][k]], j.s2.coords[j.g2[c][i]]) && x == Label(j.s1, j.abs, j.g1[nb][k]);
    assert Witness(j, x, c, nb, j.g1[nb][k], j.g2[c][i]);
  }

  lemma WitnessHitAt(j: Scan, c: Cell, nb: Cell, a: int, b: int, x: int)
    requires ScanOk(j) && InGrid(j.dims, c) && Witness(j, x, c, nb, a, b)
    ensures exists t :: 0 <= t < |Around(j.dims, j.periodic, c)| && HitAt(j, c, t, x)
  {
    var ar := Around(j.dims, j.periodic, c);
    AroundInGrid(j.dims, j.periodic, c);
    CellEntries(j.g2, |j.s2.coords|, c);
    var t :| 0 <= t < |ar| && ar[t] == nb;
    var i :| 0 <= i < |j.g2[c]| && j.g2[c][i] == b;
    var k :| 0 <= k < |j.g1[nb]| && j.g1[nb][k] == a;
    PairHitsMembers(j, c, nb, |j.g2[c]|);
    assert x in PairHits(j, c, ar[t], |j.g2[c]|);
    assert HitAt(j, c, t, x);
  }

  /**
   * search_within(target) reports exactly the labels of source points
   * within cutoff of a target point whose cell is around theirs.
   */
  lemma WithinHitsMembers(j: Scan, x: int)
    requires ScanOk(j)
    ensures x in WithinHits(j) <==> exists c, nb, a, b :: Witness(j, x, c, nb, a, b)
  {
    var t := HitsTable(j);
    assert Covers(t, Origin(), Corner(j.dims));
    WalkMembers(t, Origin(), Corner(j.dims), x);
    if x in WithinHits(j) {
      var c :| InBox(Origin(), Corner(j.dims), c) && x in t[c];
      AllCellHitsMembers(j, c, x);
    }
    if exists c, nb, a, b :: Witness(j, x, c, nb, a, b) {
      var c, nb, a, b :| Witness(j, x, c, nb, a, b);
      AllCellHitsMembers(j, c, x);
      assert InBox(Origin(), Corner(j.dims), c) && x in t[c];
    }
  }

  // ---------------------------------------------------------------------------
  // search_within(target) as written: the sign marks on grid1

  /** x is the label of a source point within cutoff of a target point around its cell. */
  ghost predicate Reported(j: Scan, x: int) {
    exists c, nb, a, b :: Witness(j, x, c, nb, a, b)
  }

  /** Every label reported has a witness. */
  ghost predicate Sound(j: Scan, raw: seq<int>) {
    forall x :: x in raw ==> Reported(j, x)
  }

  /** Every hit of target cell c against a source cell of L is reported. */
  ghost predicate DoneIn(j: Scan, raw: seq<int>, c: Cell, L: seq<Cell>) {
    forall x, nb, a, b :: nb in L && Witness(j, x, c, nb, a, b) ==> x in raw
  }

  /** Every hit of target cell c is reported. */
  ghost predicate CellDone(j: Scan, raw: seq<int>, c: Cell) {
    DoneIn(j, raw, c, Around(j.dims, j.periodic, c))
  }

  /** Every hit of every target cell of S is reported. */
  ghost predicate AllDone(j: Scan, raw: seq<int>, S: set<Cell>) {
    forall c :: c in S ==> CellDone(j, raw, c)
  }

  /** raw' reports everything raw does. */
  ghost predicate Grows(raw: seq<int>, raw': seq<int>) {
    forall x :: x in raw ==> x in raw'
  }

  /**
   * g is grid1 of scan j with some entries negated (the mark of
   * search_within(target)), and the label of every negated entry is
   * already reported.
   */
  ghost predicate Marks(g: Grid, j: Scan, raw: seq<int>) {
    && (forall c :: c in g <==> c in j.g1)
    && (forall c :: c in g ==> |g[c]| == |j.g1[c]|)
    && forall c, k :: c in g && 0 <= k < |g[c]| ==> MarkOk(g[c][k], j, j.g1[c][k], raw)
  }

  ghost predicate MarkOk(v: int, j: Scan, e: int, raw: seq<int>) {
    v == e || (v == -e && 0 <= e < |j.s1.index| && Label(j.s1, j.abs, e) in raw)
  }

  /** g is g0 with some entries negated. */
  ghost predicate Signs(g: Grid, g0: Grid) {
    && (forall c :: c in g <==> c in g0)
    && (forall c :: c in g ==> |g[c]| == |g0[c]|)
    && forall c, k :: c in g && 0 <= k < |g[c]| ==> g[c][k] == g0[c][k] || g[c][k] == -g0[c][k]
  }

  lemma SoundNone(j: Scan)
    ensures Sound(j, [])
  {
  }

  lemma SoundSnoc(j: Scan, raw: seq<int>, x: int, tc: Cell, sc: Cell, sa: int, tb: int)
    requires Sound(j, raw) && Witness(j, x, tc, sc, sa, tb)
    ensures Sound(j, raw + [x]) && Grows(raw, raw + [x])
  {
  }

  lemma GrowsChain(r0: seq<int>, r1: seq<int>, r2: seq<int>)
    requires Grows(r0, r1) && Grows(r1, r2)
    ensures Grows(r0, r2)
  {
  }

  lemma MarksGrow(g: Grid, j: Scan, raw: seq<int>, raw': seq<int>)
    requires Marks(g, j, raw) && Grows(raw, raw')
    ensures Marks(g, j, raw')
  {
  }

  /** A mark on an entry whose label is reported keeps the marks sound. */
  lemma MarkOne(g: Grid, j: Scan, raw: seq<int>, nb: Cell, k: int)
    requires Marks(g, j, raw) && nb in g && 0 <= k < |g[nb]| && g[nb][k] == j.g1[nb][k]
    requires 0 <= j.g1[nb][k] < |j.s1.index| && Label(j.s1, j.abs, j.g1[nb][k]) in raw
    ensures Marks(g[nb := g[nb][k := -g[nb][k]]], j, raw)
  {
  }

  lemma MarksSigns(g: Grid, j: Scan, raw: seq<int>)
    requires Marks(g, j, raw)
    ensures Signs(g, j.g1)
  {
  }

  lemma DoneInNone(j: Scan, raw: seq<int>, c: Cell)
    ensures DoneIn(j, raw, c, [])
  {
  }

  lemma DoneInSnoc(j: Scan, raw: seq<int>, c: Cell, L: seq<Cell>, nb: Cell)
    requires DoneIn(j, raw, c, L) && DoneIn(j, raw, c, [nb])
    ensures DoneIn(j, raw, c, L + [nb])
  {
  }

  lemma DoneInGrow(j: Scan, raw: seq<int>, raw': seq<int>, c: Cell, L: seq<Cell>)
    requires DoneIn(j, raw, c, L) && Grows(raw, raw')
    ensures DoneIn(j, raw', c, L)
  {
  }

  /** A target cell without points has nothing to report. */
  lemma CellDoneEmpty(j: Scan, raw: seq<int>, c: Cell)
    requires c in j.g2 && |j.g2[c]| == 0
    ensures CellDone(j, raw, c)
  {
  }

  lemma AllDoneStart(j: Scan, raw: seq<int>)
    ensures AllDone(j, raw, {})
  {
  }

  /** Cell c done after the cells of S, reporting more on the way, leaves the cells of S + {c} done. */
  lemma AllDoneAdd(j: Scan, raw: seq<int>, raw': seq<int>, S: set<Cell>, c: Cell)
    requires AllDone(j, raw, S) && Grows(raw, raw') && CellDone(j, raw', c)
    ensures AllDone(j, raw', S + {c})
  {
    forall c' | c' in S + {c} ensures CellDone(j, raw', c') {
      if c' != c {
        DoneInGrow(j, raw, raw', c', Around(j.dims, j.periodic, c'));
      }
    }
  }

  /** Sound and done over every cell: exactly the members of WithinHits are reported. */
  lemma ReportedExactly(j: Scan, raw: seq<int>)
    requires ScanOk(j) && Sound(j, raw) && AllDone(j, raw, CellsOf(j.dims))
    ensures forall x :: x in raw <==> x in WithinHits(j)
  {
    forall x ensures x in raw <==> x in WithinHits(j) {
      WithinHitsMembers(j, x);
      if x in WithinHits(j) {
        var c, nb, a, b :| Witness(j, x, c, nb, a, b);
        assert CellDone(j, raw, c);
      }
    }
  }

  /** The result of search_within(target) depends only on which labels were reported. */
  lemma TargetResultSame(a: seq<int>, b: seq<int>, target: seq<int>, includeSelf: bool)
    requires forall x :: x in a <==> x in b
    ensures TargetResult(a, target, includeSelf) == TargetResult(b, target, includeSelf)
  {
    var a', b' := if includeSelf then a + target else a, if includeSelf then b + target else b;
    SortedUnique(a');
    SortedUnique(b');
    StrictUnique(Unique(Sort(a')), Unique(Sort(b')));
  }

  // ---------------------------------------------------------------------------
  // Grids populated from the selections

  /** The layout and the scan describe the same grid. */
  predicate Agrees(l: Layout, j: Scan) {
    l.dims == j.dims && l.periodic == j.periodic
  }

  /**
   * The grid is fine enough for the cutoff: two binned points within cutoff
   * are in neighbouring cells.  This is what set_grid_size's choice of cell
   * width provides; it is taken as a hypothesis.
   */
  ghost predicate Local(l: Layout, m: Metric)
    requires LayoutOk(l)
  {
    forall p, q :: CellOf(l, p).Some? && CellOf(l, q).Some? && Close(m, p, q) ==>
      Near(l.dims, l.periodic, CellOf(l, p).value, CellOf(l, q).value)
  }

  /** In a populated grid, position i is in cell c exactly when c is its cell. */
  lemma InCell(l: Layout, pts: seq<Vec3>, g: Grid, c: Cell, i: int)
    requires LayoutOk(l) && Populated(l, pts, g) && c in g
    ensures i in g[c] <==> 0 <= i < |pts| && CellOf(l, pts[i]) == Some(c)
  {
    MembersExact(l, pts, |pts|, c);
  }

  lemma CellOfInGrid(l: Layout, p: Vec3)
    requires LayoutOk(l) && CellOf(l, p).Some?
    ensures InGrid(l.dims, CellOf(l, p).value)
  {
  }

  /** Source point a and target point b are both binned and within cutoff; x is the label of a. */
  ghost predicate Found(l: Layout, j: Scan, x: int, a: int, b: int)
    requires LayoutOk(l)
  {
    && 0 <= a < |j.s1.coords| == |j.s1.index| && 0 <= b < |j.s2.coords|
    && CellOf(l, j.s1.coords[a]).Some? && CellOf(l, j.s2.coords[b]).Some?
    && Close(j.m, j.s1.coords[a], j.s2.coords[b]) && x == Label(j.s1, j.abs, a)
  }

  lemma WitnessFound(l: Layout, j: Scan, x: int, c: Cell, nb: Cell, a: int, b: int)
    requires LayoutOk(l) && ScanOk(j) && Agrees(l, j)
    requires Populated(l, j.s1.coords, j.g1) && Populated(l, j.s2.coords, j.g2)
    requires Witness(j, x, c, nb, a, b)
    ensures Found(l, j, x, a, b)
  {
    InCell(l, j.s1.coords, j.g1, nb, a);
    InCell(l, j.s2.coords, j.g2, c, b);
  }

  lemma FoundWitness(l: Layout, j: Scan, x: int, a: int, b: int)
    requires LayoutOk(l) && ScanOk(j) && Agrees(l, j)
    requires Populated(l, j.s1.coords, j.g1) && Populated(l, j.s2.coords, j.g2) && Local(l, j.m)
    requires Found(l, j, x, a, b)
    ensures Witness(j, x, CellOf(l, j.s2.coords[b]).value, CellOf(l, j.s1.coords[a]).value, a, b)
  {
    var nb := CellOf(l, j.s1.coords[a]).value;
    var c := CellOf(l, j.s2.coords[b]).value;
    assert Near(l.dims, l.periodic, nb, c);
    CellOfInGrid(l, j.s1.coords[a]);
    CellOfInGrid(l, j.s2.coords[b]);
    AroundShape(j.dims, j.periodic, c);
    InCell(l, j.s1.coords, j.g1, nb, a);
    InCell(l, j.s2.coords, j.g2, c, b);
  }

  /**
   * With both grids populated and cells no narrower than the cutoff,
   * search_within(target) reports the label of every binned source point
   * within cutoff of a binned target point, and nothing else.
   */
  lemma WithinFindsAll(l: Layout, j: Scan, x: int)
    requires LayoutOk(l) && ScanOk(j) && Agrees(l, j)
    requires Populated(l, j.s1.coords, j.g1) && Populated(l, j.s2.coords, j.g2) && Local(l, j.m)
    ensures x in WithinHits(j) <==> exists a, b :: Found(l, j, x, a, b)
  {
    WithinHitsMembers(j, x);
    if x in WithinHits(j) {
      var c, nb, a, b :| Witness(j, x, c, nb, a, b);
      WitnessFound(l, j, x, c, nb, a, b);
    }
    if exists a, b :: Found(l, j, x, a, b) {
      var a, b :| Found(l, j, x, a, b);
      FoundWitness(l, j, x, a, b);
    }
  }

  // ---------------------------------------------------------------------------
  // search_within(point)

  /** The source points of the first n cells of Around(c) within cutoff of q. */
  function PointHits(j: Scan, c: Cell, q: Vec3, n: int): seq<int>
    requires ScanOk(j) && InGrid(j.dims, c) && 0 <= n <= |Around(j.dims, j.periodic, c)|
    decreases n
  {
    AroundInGrid(j.dims, j.periodic, c);
    if n == 0 then []
    else
      var nb := Around(j.dims, j.periodic, c)[n - 1];
      CellEntries(j.g1, |j.s1.coords|, nb);
      PointHits(j, c, q, n - 1) + EntryHits(j, j.g1[nb], q)
  }

  /**
   * search_within(point) with the point binned like the atoms: nothing when
   * the point falls outside a grid without periodicity, else the hits
   * around its cell.
   */
  function PointSearch(l: Layout, j: Scan, q: Vec3): seq<int>
    requires LayoutOk(l) && ScanOk(j) && Agrees(l, j)
  {
    match CellOf(l, q)
    case None => []
    case Some(c) => PointHits(j, c, q, |Around(j.dims, j.periodic, c)|)
  }

  lemma {:induction false} PointHitsMembers(j: Scan, c: Cell, q: Vec3, n: int)
    requires ScanOk(j) && InGrid(j.dims, c) && 0 <= n <= |Around(j.dims, j.periodic, c)|
    ensures forall x :: x in PointHits(j, c, q, n) <==>
      exists t :: 0 <= t < n && InGrid(j.dims, Around(j.dims, j.periodic, c)[t])
        && x in EntryHits(j, j.g1[Around(j.dims, j.periodic, c)[t]], q)
    decreases n
  {
    AroundInGrid(j.dims, j.periodic, c);
    if n > 0 {
      PointHitsMembers(j, c, q, n - 1);
    }
  }

  /** Source point a in cell nb, around cell c, is within cutoff of q. */
  ghost predicate PointWitness(j: Scan, x: int, c: Cell, q: Vec3, nb: Cell, a: int) {
    && nb in Around(j.dims, j.periodic, c) && nb in j.g1 && a in j.g1[nb]
    && 0 <= a < |j.s1.coords| == |j.s1.index| && Close(j.m, j.s1.coords[a], q) && x == Label(j.s1, j.abs, a)
  }

  lemma AllPointHitsMembers(j: Scan, c: Cell, q: Vec3, x: int)
    requires ScanOk(j) && InGrid(j.dims, c)
    ensures x in PointHits(j, c, q, |Around(j.dims, j.periodic, c)|) <==> exists nb, a :: PointWitness(j, x, c, q, nb, a)
  {
    var ar := Around(j.dims, j.periodic, c);
    AroundInGrid(j.dims, j.periodic, c);
    PointHitsMembers(j, c, q, |ar|);
    if x in PointHits(j, c, q, |ar|) {
      var t :| 0 <= t < |ar| && InGrid(j.dims, ar[t]) && x in EntryHits(j, j.g1[ar[t]], q);
      var nb := ar[t];
      CellEntries(j.g1, |j.s1.coords|, nb);
      EntryHitsMembers(j, j.g1[nb], q);
      var k :| 0 <= k < |j.g1[nb]| && Close(j.m, j.s1.coords[j.g1[nb][k]], q) && x == Label(j.s1, j.abs, j.g1[nb][k]);
      assert PointWitness(j, x, c, q, nb, j.g1[nb][k]);
    }
    if exists nb, a :: PointWitness(j, x, c, q, nb, a) {
      var nb, a :| PointWitness(j, x, c, q, nb, a);
      var t :| 0 <= t < |ar| && ar[t] == nb;
      CellEntries(j.g1, |j.s1.coords|, nb);
      EntryHitsMembers(j, j.g1[nb], q);
      var k :| 0 <= k < |j.g1[nb]| && j.g1[nb][k] == a;
      assert x in EntryHits(j, j.g1[ar[t]], q);
    }
  }

  /** Source point a is binned and within cutoff of q; x is its label. */
  ghost predicate PointFound(l: Layout, j: Scan, x: int, q: Vec3, a: int)
    requires LayoutOk(l)
  {
    && 0 <= a < |j.s1.coords| == |j.s1.index|
    && CellOf(l, j.s1.coords[a]).Some? && Close(j.m, j.s1.coords[a], q) && x == Label(j.s1, j.abs, a)
  }

  lemma PointWitnessFound(l: Layout, j: Scan, x: int, c: Cell, q: Vec3, nb: Cell, a: int)
    requires LayoutOk(l) && ScanOk(j) && Agrees(l, j) && Populated(l, j.s1.coords, j.g1)
    requires PointWitness(j, x, c, q, nb, a)
    ensures PointFound(l, j, x, q, a)
  {
    InCell(l, j.s1.coords, j.g1, nb, a);
  }

  lemma PointFoundWitness(l: Layout, j: Scan, x: int, q: Vec3, a: int)
    requires LayoutOk(l) && ScanOk(j) && Agrees(l, j) && Populated(l, j.s1.coords, j.g1) && Local(l, j.m)
    requires PointFound(l, j, x, q, a) && CellOf(l, q).Some?
    ensures PointWitness(j, x, CellOf(l, q).value, q, CellOf(l, j.s1.coords[a]).value, a)
  {
    var c := CellOf(l, q).value;
    var nb := CellOf(l, j.s1.coords[a]).value;
    CellOfInGrid(l, q);
    CellOfInGrid(l, j.s1.coords[a]);
    assert Near(l.dims, l.periodic, nb, c);
    AroundShape(j.dims, j.periodic, c);
    InCell(l, j.s1.coords, j.g1, nb, a);
  }

  /**
   * With the grid populated and cells no narrower than the cutoff, the
   * corrected search_within(point) reports every binned source point within
   * cutoff of a binned query point, and nothing else.
   */
  lemma PointFindsAll(l: Layout, j: Scan, q: Vec3, x: int)
    requires LayoutOk(l) && ScanOk(j) && Agrees(l, j) && Populated(l, j.s1.coords, j.g1) && Local(l, j.m)
    ensures x in PointSearch(l, j, q) <==> CellOf(l, q).Some? && exists a :: PointFound(l, j, x, q, a)
  {
    if CellOf(l, q).Some? {
      var c := CellOf(l, q).value;
      CellOfInGrid(l, q);
      AllPointHitsMembers(j, c, q, x);
      if x in PointSearch(l, j, q) {
        var nb, a :| PointWitness(j, x, c, q, nb, a);
        PointWitnessFound(l, j, x, c, q, nb, a);
      }
      if exists a :: PointFound(l, j, x, q, a) {
        var a :| PointFound(l, j, x, q, a);
        PointFoundWitness(l, j, x, q, a);
      }
    }
  }

  /** The point search_within(point) measures from: lab_to_box(q) on a periodic triclinic box, else q. */
  function BoxQuery(l: Layout, q: Vec3): Vec3 {
    if l.periodic && l.box.triclinic then l.labToBox(l.box, q) else q
  }

  /**
   * search_within(point) as written: the point is converted to the box
   * basis on a periodic triclinic box, and the distances are then measured
   * from the converted point to the atoms' lab coordinates.
   */
  function PointSearchAsWritten(l: Layout, j: Scan, q: Vec3): seq<int>
    requires LayoutOk(l) && ScanOk(j) && Agrees(l, j)
  {
    match CellOf(l, q)
    case None => []
    case Some(c) => PointHits(j, c, BoxQuery(l, q), |Around(j.dims, j.periodic, c)|)
  }

  /**
   * As written, a label is reported when its lab point is within the cutoff
   * of lab_to_box(q) rather than of q; the written and the corrected search
   * agree whenever the box is not both periodic and triclinic.
   */
  lemma PointAsWrittenMeasuresBoxPoint(l: Layout, j: Scan, q: Vec3, x: int)
    requires LayoutOk(l) && ScanOk(j) && Agrees(l, j)
    ensures !(l.periodic && l.box.triclinic) ==> PointSearchAsWritten(l, j, q) == PointSearch(l, j, q)
    ensures x in PointSearchAsWritten(l, j, q) <==>
      CellOf(l, q).Some? && exists nb, a :: PointWitness(j, x, CellOf(l, q).value, BoxQuery(l, q), nb, a)
  {
    if CellOf(l, q).Some? {
      CellOfInGrid(l, q);
      AllPointHitsMembers(j, CellOf(l, q).value, BoxQuery(l, q), x);
    }
  }

  // ---------------------------------------------------------------------------
  // The within constructor: flags per source point

  /** Some target point of the entries t is within cutoff of p (distance_squared(target, source)). */
  ghost predicate AnyClose(j: Scan, p: Vec3, t: seq<int>) {
    exists k :: 0 <= k < |t| && 0 <= t[k] < |j.s2.coords| && Close(j.m, j.s2.coords[t[k]], p)
  }

  /** Source point i sits in cell c and cell nb holds a target point within cutoff of it. */
  ghost predicate PairFlag(j: Scan, i: int, c: Cell, nb: Cell) {
    && c in j.g1 && i in j.g1[c] && 0 <= i < |j.s1.coords|
    && nb in j.g2 && AnyClose(j, j.s1.coords[i], j.g2[nb])
  }

  /** Source point i sits in cell c and one of the cells of l holds a target point within cutoff of it. */
  ghost predicate FlagFrom(j: Scan, i: int, c: Cell, l: seq<Cell>) {
    exists nb :: nb in l && PairFlag(j, i, c, nb)
  }

  /** Source point i sits in cell c, and some cell around c holds a target point within cutoff of it. */
  ghost predicate FlagVia(j: Scan, i: int, c: Cell) {
    FlagFrom(j, i, c, Around(j.dims, j.periodic, c))
  }

  lemma FlagFromNone(j: Scan, i: int, c: Cell)
    ensures !FlagFrom(j, i, c, [])
  {
  }

  lemma FlagFromSnoc(j: Scan, i: int, c: Cell, l: seq<Cell>, nb: Cell)
    ensures FlagFrom(j, i, c, l + [nb]) <==> FlagFrom(j, i, c, l) || PairFlag(j, i, c, nb)
  {
    if FlagFrom(j, i, c, l + [nb]) {
      var x :| x in l + [nb] && PairFlag(j, i, c, x);
      assert x in l || x == nb;
    }
    if FlagFrom(j, i, c, l) {
      var x :| x in l && PairFlag(j, i, c, x);
      assert x in l + [nb];
    }
    assert nb in l + [nb];
  }

  /** Only which cells are listed matters, not their order. */
  lemma FlagFromSame(j: Scan, i: int, c: Cell, l: seq<Cell>, l': seq<Cell>)
    requires forall x :: x in l <==> x in l'
    ensures FlagFrom(j, i, c, l) <==> FlagFrom(j, i, c, l')
  {
  }

  /** What the within constructor flags: source points with a target point within cutoff around their cell. */
  ghost predicate Flagged(j: Scan, i: int) {
    exists c :: FlagVia(j, i, c)
  }

  /** Source point i is binned and some binned target point is within cutoff of it. */
  ghost predicate FlagFound(l: Layout, j: Scan, i: int)
    requires LayoutOk(l)
  {
    && 0 <= i < |j.s1.coords| && CellOf(l, j.s1.coords[i]).Some?
    && exists b :: 0 <= b < |j.s2.coords| && CellOf(l, j.s2.coords[b]).Some? && Close(j.m, j.s2.coords[b], j.s1.coords[i])
  }

  lemma FlagViaFound(l: Layout, j: Scan, i: int, c: Cell)
    requires LayoutOk(l) && ScanOk(j) && Agrees(l, j)
    requires Populated(l, j.s1.coords, j.g1) && Populated(l, j.s2.coords, j.g2)
    requires FlagVia(j, i, c)
    ensures FlagFound(l, j, i)
  {
    var nb :| nb in Around(j.dims, j.periodic, c) && PairFlag(j, i, c, nb);
    var k :| 0 <= k < |j.g2[nb]| && 0 <= j.g2[nb][k] < |j.s2.coords| && Close(j.m, j.s2.coords[j.g2[nb][k]], j.s1.coords[i]);
    InCell(l, j.s1.coords, j.g1, c, i);
    InCell(l, j.s2.coords, j.g2, nb, j.g2[nb][k]);
  }

  lemma FoundFlagVia(l: Layout, j: Scan, i: int, b: int)
    requires LayoutOk(l) && ScanOk(j) && Agrees(l, j)
    requires Populated(l, j.s1.coords, j.g1) && Populated(l, j.s2.coords, j.g2) && Local(l, j.m)
    requires 0 <= i < |j.s1.coords| && CellOf(l, j.s1.coords[i]).Some?
    requires 0 <= b < |j.s2.coords| && CellOf(l, j.s2.coords[b]).Some? && Close(j.m, j.s2.coords[b], j.s1.coords[i])
    ensures FlagVia(j, i, CellOf(l, j.s1.coords[i]).value)
  {
    var c := CellOf(l, j.s1.coords[i]).value;
    var nb := CellOf(l, j.s2.coords[b]).value;
    CellOfInGrid(l, j.s1.coords[i]);
    CellOfInGrid(l, j.s2.coords[b]);
    assert Near(l.dims, l.periodic, nb, c);
    AroundShape(j.dims, j.periodic, c);
    InCell(l, j.s1.coords, j.g1, c, i);
    InCell(l, j.s2.coords, j.g2, nb, b);
    var k :| 0 <= k < |j.g2[nb]| && j.g2[nb][k] == b;
    assert AnyClose(j, j.s1.coords[i], j.g2[nb]);
    assert PairFlag(j, i, c, nb);
  }

  /**
   * With both grids populated and cells no narrower than the cutoff, the
   * within constructor flags a source point exactly when it is binned and
   * some binned target point is within cutoff of it.
   */
  lemma FlagFindsAll(l: Layout, j: Scan, i: int)
    requires LayoutOk(l) && ScanOk(j) && Agrees(l, j)
    requires Populated(l, j.s1.coords, j.g1) && Populated(l, j.s2.coords, j.g2) && Local(l, j.m)
    ensures Flagged(j, i) <==> FlagFound(l, j, i)
  {
    if Flagged(j, i) {
      var c :| FlagVia(j, i, c);
      FlagViaFound(l, j, i, c);
    }
    if FlagFound(l, j, i) {
      var b :| 0 <= b < |j.s2.coords| && CellOf(l, j.s2.coords[b]).Some? && Close(j.m, j.s2.coords[b], j.s1.coords[i]);
      FoundFlagVia(l, j, i, b);
    }
  }

  // ---------------------------------------------------------------------------
  // The flags after a sweep over a set of source cells

  /** The cells of part p that come before next in loop order. */
  ghost function Swept(d: Dims, p: Part, next: Cell): set<Cell>
    requires 0 <= p.dim < 3
  {
    set c | c in CellsOf(d) && InPart(d, p, c) && Before(c, next)
  }

  /** The cells of part p. */
  ghost function PartCells(d: Dims, p: Part): set<Cell>
    requires 0 <= p.dim < 3
  {
    set c | c in CellsOf(d) && InPart(d, p, c)
  }

  /** The cells below front along axis dim. */
  ghost function CellsBelow(d: Dims, dim: int, front: int): set<Cell>
    requires 0 <= dim < 3
  {
    set c | c in CellsOf(d) && Coord(c, dim) < front
  }

  lemma SweptStart(d: Dims, p: Part)
    requires PartOk(d, p)
    ensures Swept(d, p, PartLo(p)) == {}
  {
  }

  lemma SweptStep(d: Dims, p: Part, c: Cell, next: Cell)
    requires PartOk(d, p) && InPart(d, p, c) && next == Cell(c.x, c.y, c.z + 1)
    ensures Swept(d, p, next) == Swept(d, p, c) + {c}
  {
  }

  lemma SweptColumn(d: Dims, p: Part, lo: Cell, hi: Cell, x: int, y: int)
    requires PartOk(d, p) && lo == PartLo(p) && hi == PartHi(d, p)
    ensures Swept(d, p, Cell(x, y, hi.z)) == Swept(d, p, Cell(x, y + 1, lo.z))
  {
  }

  lemma SweptPlane(d: Dims, p: Part, lo: Cell, hi: Cell, x: int)
    requires PartOk(d, p) && lo == PartLo(p) && hi == PartHi(d, p)
    ensures Swept(d, p, Cell(x, hi.y, lo.z)) == Swept(d, p, Cell(x + 1, lo.y, lo.z))
  {
  }

  lemma SweptEnd(d: Dims, p: Part, lo: Cell, hi: Cell)
    requires PartOk(d, p) && lo == PartLo(p) && hi == PartHi(d, p)
    ensures Swept(d, p, Cell(hi.x, lo.y, lo.z)) == PartCells(d, p)
  {
  }

  /** The parts of a partition, taken in turn, cover the axis from 0 to the end of the last one. */
  lemma BelowStep(d: Dims, p: Part)
    requires PartOk(d, p)
    ensures CellsBelow(d, p.dim, p.b) + PartCells(d, p) == CellsBelow(d, p.dim, p.e)
  {
  }

  lemma BelowEnds(d: Dims, dim: int)
    requires 0 <= dim < 3
    ensures CellsBelow(d, dim, 0) == {} && CellsBelow(d, dim, Extent(d, dim)) == CellsOf(d)
    ensures PartCells(d, Part(dim, 0, Extent(d, dim))) == CellsOf(d)
  {
  }

  /**
   * Flags u are the flags u0 with every source point raised that some cell
   * of S flags.
   */
  ghost predicate UsedBy(u: seq<bool>, u0: seq<bool>, j: Scan, S: set<Cell>) {
    |u| == |u0| && forall i :: 0 <= i < |u| ==> (u[i] <==> u0[i] || exists c :: c in S && FlagVia(j, i, c))
  }

  lemma UsedByNone(u: seq<bool>, j: Scan)
    ensures UsedBy(u, u, j, {})
  {
  }

  lemma UsedByCell(u: seq<bool>, u': seq<bool>, u0: seq<bool>, j: Scan, S: set<Cell>, c: Cell)
    requires UsedBy(u, u0, j, S) && |u'| == |u|
    requires forall i :: 0 <= i < |u| ==> (u'[i] <==> u[i] || FlagVia(j, i, c))
    ensures UsedBy(u', u0, j, S + {c})
  {
  }

  lemma UsedByChain(u0: seq<bool>, u1: seq<bool>, u2: seq<bool>, j: Scan, S1: set<Cell>, S2: set<Cell>)
    requires UsedBy(u1, u0, j, S1) && UsedBy(u2, u1, j, S2)
    ensures UsedBy(u2, u0, j, S1 + S2)
  {
  }

  /** A sweep over the whole grid from cleared flags raises exactly the flagged source points. */
  lemma UsedByAll(u: seq<bool>, u0: seq<bool>, j: Scan)
    requires ScanOk(j) && UsedBy(u, u0, j, CellsOf(j.dims)) && forall i :: 0 <= i < |u0| ==> !u0[i]
    ensures forall i :: 0 <= i < |u| ==> (u[i] <==> Flagged(j, i))
  {
  }

  // ---------------------------------------------------------------------------
  // Result assembly

  /** The labels of the flagged source points, ascending by position (the loop over `used`). */
  function FlaggedLabels(s: Points, abs: bool, used: seq<bool>, n: int): (r: seq<int>)
    requires PointsOk(s) && |used| == |s.index| && 0 <= n <= |used|
    decreases n
  {
    if n == 0 then []
    else FlaggedLabels(s, abs, used, n - 1) + (if used[n - 1] then [Label(s, abs, n - 1)] else [])
  }

  lemma {:induction false} FlaggedLabelsMembers(s: Points, abs: bool, used: seq<bool>, n: int)
    requires PointsOk(s) && |used| == |s.index| && 0 <= n <= |used|
    ensures forall x :: x in FlaggedLabels(s, abs, used, n) <==> exists i :: 0 <= i < n && used[i] && x == Label(s, abs, i)
    ensures Rising(s, abs) ==> Strict(FlaggedLabels(s, abs, used, n))
    ensures Rising(s, abs) ==> forall x :: x in FlaggedLabels(s, abs, used, n) ==> n > 0 && x <= Label(s, abs, n - 1)
    decreases n
  {
    if n > 0 {
      FlaggedLabelsMembers(s, abs, used, n - 1);
      var r := FlaggedLabels(s, abs, used, n - 1);
      if Rising(s, abs) {
        forall x | x in r ensures x < Label(s, abs, n - 1) {
          LabelRising(s, abs, n - 2, n - 1);
        }
        if used[n - 1] {
          StrictSnoc(r, Label(s, abs, n - 1));
        }
      }
    }
  }

  /**
   * The result of search_within(target): with include_self the hits and
   * the target, sorted without repeats; without it the sorted distinct hits
   * minus the target.
   */
  function TargetResult(hits: seq<int>, target: seq<int>, includeSelf: bool): seq<int> {
    if includeSelf then Unique(Sort(hits + target)) else Difference(Unique(Sort(hits)), target)
  }

  function FastResultTail(raw: seq<int>, target: seq<int>, includeSelf: bool): seq<int> {
    if includeSelf then Unique(Sort(raw + target)) else Difference(Sort(raw), target)
  }

  lemma SortedUnique(s: seq<int>)
    ensures Strict(Unique(Sort(s))) && forall x :: x in Unique(Sort(s)) <==> x in s
  {
    SortMembers(s);
  }

  /**
   * The result is ascending without repeats; with include_self it holds
   * every target index, without it none.
   */
  lemma TargetResultShape(hits: seq<int>, target: seq<int>, includeSelf: bool)
    requires Sorted(target)
    ensures Strict(TargetResult(hits, target, includeSelf))
    ensures forall x :: x in TargetResult(hits, target, includeSelf) <==>
      if includeSelf then x in hits || x in target else x in hits && x !in target
  {
    if includeSelf {
      SortedUnique(hits + target);
    } else {
      SortedUnique(hits);
      DifferenceStrict(Unique(Sort(hits)), target);
    }
  }

  /**
   * The within constructor's result: the same shape, given labels without
   * repeats ("Shoud be no duplicates without include_self!").
   */
  lemma FastResultShape(raw: seq<int>, target: seq<int>, includeSelf: bool)
    requires Sorted(target) && Strict(raw)
    ensures Strict(FastResultTail(raw, target, includeSelf))
    ensures forall x :: x in FastResultTail(raw, target, includeSelf) <==>
      if includeSelf then x in raw || x in target else x in raw && x !in target
  {
    if includeSelf {
      SortedUnique(raw + target);
    } else {
      StrictIsSorted(raw);
      SortOfSorted(raw);
      DifferenceStrict(raw, target);
    }
  }
}
