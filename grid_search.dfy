/**
 * The grid searcher object (Grid_searcher): its fields, the grid set-up
 * (set_grid_size, create_grid, create_grid2, populate_grid), the cell
 * neighbourhood (get_nlist, get_nlist_local), the per-cell contact loops
 * (get_central_*, get_side_*), the contact searches (do_part*, do_search),
 * the within searches (search_within, search_in_pair_of_cells,
 * do_part_within_fast, the within constructor) and the custom grid.  Every
 * loop is proved against the functions of modules GridPairs and GridWithin.
 * Threads are run one after another, in thread order.
 */
module GridSearch {
  import opened Wrappers
  import opened AtomData
  import opened GridCells
  import opened StdAlgorithms
  import opened GridPairs
  import opened GridWithin

  /**
   * What the searcher asks of a Selection: its coordinates and indices, the
   * box of its frame, and the corners `minmax` returns.
   */
  datatype Selection = Selection(pts: Points, box: Box, low: Vec3, high: Vec3)

  /** The cell counts the cube-root estimate of set_grid_size gives, before they are fitted to the cutoff. */
  datatype Counts = Counts(nx: nat, ny: nat, nz: nat)

  /** `min.array() -= cutoff; max.array() += cutoff;` */
  function Halo(v: Vec3, amount: real): Vec3 {
    Vec3(v.x + amount, v.y + amount, v.z + amount)
  }

  /** Each coordinate of a is at most that of b (what minmax returns for its two corners). */
  predicate Ordered(a: Vec3, b: Vec3) {
    a.x <= b.x && a.y <= b.y && a.z <= b.z
  }

  /** The bounding box of create_grid: the unit cell when periodic, else the corners widened by the cutoff. */
  function Bounds(periodic: bool, box: Box, cutoff: real, low: Vec3, high: Vec3): (Vec3, Vec3) {
    if periodic then (Vec3(0.0, 0.0, 0.0), box.extents) else (Halo(low, -cutoff), Halo(high, cutoff))
  }

  /** v with its coordinate along axis k set to w. */
  function WithAxis(v: Vec3, k: int, w: real): (r: Vec3)
    requires 0 <= k < 3
    ensures AtomData.Axis(r, k) == w
    ensures forall i :: 0 <= i < 3 && i != k ==> AtomData.Axis(r, i) == AtomData.Axis(v, i)
  {
    if k == 0 then Vec3(w, v.y, v.z) else if k == 1 then Vec3(v.x, w, v.z) else Vec3(v.x, v.y, w)
  }

  /** The overlap of the boxes [a1, a2] and [b1, b2], axis by axis, as overlap_1d computes it. */
  function OverlapLow(a1: Vec3, a2: Vec3, b1: Vec3, b2: Vec3): Vec3 {
    Vec3(Overlap1d(a1.x, a2.x, b1.x, b2.x).0, Overlap1d(a1.y, a2.y, b1.y, b2.y).0, Overlap1d(a1.z, a2.z, b1.z, b2.z).0)
  }

  function OverlapHigh(a1: Vec3, a2: Vec3, b1: Vec3, b2: Vec3): Vec3 {
    Vec3(Overlap1d(a1.x, a2.x, b1.x, b2.x).1, Overlap1d(a1.y, a2.y, b1.y, b2.y).1, Overlap1d(a1.z, a2.z, b1.z, b2.z).1)
  }

  /** The first axis on which the overlap has zero length, or 3 when there is none. */
  function FirstFlat(l: Vec3, h: Vec3): (k: int)
    ensures 0 <= k <= 3
    ensures forall i :: 0 <= i < k ==> AtomData.Axis(h, i) != AtomData.Axis(l, i)
    ensures k < 3 ==> AtomData.Axis(h, k) == AtomData.Axis(l, k)
  {
    if h.x == l.x then 0 else if h.y == l.y then 1 else if h.z == l.z then 2 else 3
  }

  /** The axes 0 .. k of v, the others of w. */
  function Upto(w: Vec3, v: Vec3, k: int): (r: Vec3)
    ensures forall i :: 0 <= i < 3 ==> AtomData.Axis(r, i) == if i <= k then AtomData.Axis(v, i) else AtomData.Axis(w, i)
  {
    Vec3(if 0 <= k then v.x else w.x, if 1 <= k then v.y else w.y, if 2 <= k then v.z else w.z)
  }

  /**
   * Two boxes that do not shrink to zero length on any axis meet in a
   * box of positive width on every axis.
   */
  lemma OverlapSpread(a1: Vec3, a2: Vec3, b1: Vec3, b2: Vec3)
    requires Ordered(a1, a2) && Ordered(b1, b2)
    requires FirstFlat(OverlapLow(a1, a2, b1, b2), OverlapHigh(a1, a2, b1, b2)) == 3
    ensures Spread(OverlapLow(a1, a2, b1, b2), OverlapHigh(a1, a2, b1, b2))
    ensures Ordered(a1, OverlapLow(a1, a2, b1, b2)) && Ordered(b1, OverlapLow(a1, a2, b1, b2))
    ensures Ordered(OverlapHigh(a1, a2, b1, b2), a2) && Ordered(OverlapHigh(a1, a2, b1, b2), b2)
  {
    if a1.x <= b2.x && b1.x <= a2.x { OverlapInside(a1.x, a2.x, b1.x, b2.x); }
    if a1.y <= b2.y && b1.y <= a2.y { OverlapInside(a1.y, a2.y, b1.y, b2.y); }
    if a1.z <= b2.z && b1.z <= a2.z { OverlapInside(a1.z, a2.z, b1.z, b2.z); }
  }

  /**
   * With cutoff 0 and a target of one point, the halo adds nothing and the
   * overlap of the source box with that point has zero length along x, so
   * the non-periodic within constructor returns before it adds the target
   * (include_self) to the result.
   */
  lemma ZeroCutoffPointTargetIsFlat(a: Vec3, b: Vec3, t: Vec3)
    requires Ordered(a, b)
    ensures FirstFlat(OverlapLow(Halo(a, -0.0), Halo(b, 0.0), Halo(t, -0.0), Halo(t, 0.0)),
                      OverlapHigh(Halo(a, -0.0), Halo(b, 0.0), Halo(t, -0.0), Halo(t, 0.0))) == 0
  {
    assert Halo(a, -0.0) == a && Halo(b, 0.0) == b && Halo(t, -0.0) == t && Halo(t, 0.0) == t;
    var r := Overlap1d(a.x, b.x, t.x, t.x);
    assert r.0 == r.1;
  }

  /** The vector with width w along axis k and zero elsewhere. */
  function AlongAxis(k: int, w: real): Vec3 {
    if k == 0 then Vec3(w, 0.0, 0.0) else if k == 1 then Vec3(0.0, w, 0.0) else Vec3(0.0, 0.0, w)
  }

  /** Every cell of the grid has an entry of the visited array. */
  ghost predicate VisitedShaped(d: Dims, v: map<Cell, bool>) {
    forall c :: c in v <==> InGrid(d, c)
  }

  /** `visited.resize(extents[nx][ny][nz])` */
  function ResizedFlags(v: map<Cell, bool>, d: Dims): (r: map<Cell, bool>)
    ensures VisitedShaped(d, r)
  {
    map c | c in CellsOf(d) :: if c in v then v[c] else false
  }

  /**
   * The two nested loops of get_side_*, get_central_2 and of each phase of
   * get_side_2: entry s[c1] of sa against entry t[c2] of st, pushing the
   * bond of every pair within the cutoff.
   */
  method CrossInto(m: Metric, sa: Points, st: Points, abs: bool, flip: bool, s: seq<int>, t: seq<int>, bonds: seq<Bond>)
    returns (r: seq<Bond>)
    requires PointsOk(sa) && PointsOk(st) && InRange(s, |sa.coords|) && InRange(t, |st.coords|)
    ensures r == bonds + Cross(m, sa, st, abs, flip, s, t)
  {
    r := bonds;
    for c1 := 0 to |s|
      invariant r == bonds + Cross(m, sa, st, abs, flip, s[..c1], t)
    {
      r := RowInto(m, sa, st, abs, flip, s[c1], t, 0, r);
      assert t[0..|t|] == t;
      assert s[..c1 + 1][..c1] == s[..c1];
      assert (bonds + Cross(m, sa, st, abs, flip, s[..c1], t)) + Row(m, sa, st, abs, flip, s[c1], t)
        == bonds + (Cross(m, sa, st, abs, flip, s[..c1], t) + Row(m, sa, st, abs, flip, s[c1], t));
    }
    assert s[..|s|] == s;
  }

  /** The inner loop of get_side_*, get_central_*: entry a against t[from], t[from + 1], ... */
  method RowInto(m: Metric, sa: Points, st: Points, abs: bool, flip: bool, a: int, t: seq<int>, from: int, r: seq<Bond>)
    returns (r': seq<Bond>)
    requires PointsOk(sa) && PointsOk(st) && 0 <= a < |sa.coords| && InRange(t, |st.coords|) && 0 <= from <= |t|
    ensures r' == r + Row(m, sa, st, abs, flip, a, t[from..])
  {
    r' := r;
    for c2 := from to |t|
      invariant r' == r + Row(m, sa, st, abs, flip, a, t[from..c2])
    {
      RowSnoc(m, sa, st, abs, flip, a, t, from, c2);
      if Close(m, sa.coords[a], st.coords[t[c2]]) {
        r' := r' + [BondOf(sa, st, abs, flip, a, t[c2])];
      }
    }
    assert t[from..|t|] == t[from..];
  }

  /** Row over one more entry of t. */
  lemma RowSnoc(m: Metric, sa: Points, st: Points, abs: bool, flip: bool, a: int, t: seq<int>, from: int, c2: int)
    requires PointsOk(sa) && PointsOk(st) && 0 <= a < |sa.coords| && InRange(t, |st.coords|) && 0 <= from <= c2 < |t|
    ensures Row(m, sa, st, abs, flip, a, t[from..c2 + 1]) == Row(m, sa, st, abs, flip, a, t[from..c2])
      + (if Close(m, sa.coords[a], st.coords[t[c2]]) then [BondOf(sa, st, abs, flip, a, t[c2])] else [])
  {
    assert t[from..c2 + 1][..c2 - from] == t[from..c2];
  }

  /** An empty second cell gives nothing (the early return of get_side_*). */
  lemma {:induction false} CrossNone(m: Metric, sa: Points, st: Points, abs: bool, flip: bool, s: seq<int>)
    requires PointsOk(sa) && PointsOk(st) && InRange(s, |sa.coords|)
    ensures Cross(m, sa, st, abs, flip, s, []) == []
    decreases |s|
  {
    if |s| > 0 {
      CrossNone(m, sa, st, abs, flip, s[..|s| - 1]);
    }
  }

  lemma ZeroProduct(a: int, b: int)
    requires a >= 0 && b >= 0
    ensures a * b != 0 <==> a != 0 && b != 0
  {
    if a != 0 && b != 0 {
      MulAtLeast(a, b);
    }
  }

  /**
   * What a search of part p over scan j keeps fixed: lo and hi are the
   * corners of the part, t its table of cell reports, v0 the flags before.
   */
  ghost predicate Walking(j: Scan, p: Part, lo: Cell, hi: Cell, v0: map<Cell, bool>, t: map<Cell, seq<Bond>>) {
    && ScanOk(j) && PartOk(j.dims, p) && lo == PartLo(p) && hi == PartHi(j.dims, p)
    && Covers(t, lo, hi) && TableOf(j, p, t) && Fresh(v0, j.dims, p)
  }

  /** The search of part p starts from an empty report and ends with all of PartBonds. */
  lemma WalkingStart(j: Scan, p: Part, lo: Cell, hi: Cell, v0: map<Cell, bool>, t: map<Cell, seq<Bond>>)
    requires ScanOk(j) && PartOk(j.dims, p) && Fresh(v0, j.dims, p)
    requires lo == PartLo(p) && hi == PartHi(j.dims, p) && t == BondTable(j, p)
    ensures Walking(j, p, lo, hi, v0, t)
    ensures [] + XWalk(t, lo, hi, lo.x) == []
    ensures PartBonds(j, p) == [] + XWalk(t, lo, hi, hi.x)
  {
    assert Covers(t, lo, hi);
    forall c | c in t && InGrid(j.dims, c)
      ensures t[c] == CellBonds(j, p, c)
    {
    }
    assert [] + PartBonds(j, p) == PartBonds(j, p);
  }

  /**
   * Every entry of t is what its cell reports in the search of part p. The
   * trigger keeps the reports folded until a cell's report is asked for.
   */
  ghost predicate TableOf(j: Scan, p: Part, t: map<Cell, seq<Bond>>)
    requires ScanOk(j) && PartOk(j.dims, p)
  {
    forall c {:trigger CellBonds(j, p, c)} :: c in t && InGrid(j.dims, c) ==> t[c] == CellBonds(j, p, c)
  }

  /** No cell of part p is visited yet. */
  ghost predicate Fresh(v: map<Cell, bool>, d: Dims, p: Part)
    requires 0 <= p.dim < 3
  {
    forall c :: InPart(d, p, c) ==> c in v && !v[c]
  }

  /** The visited flags once the cells of part p before `next` in loop order are done. */
  ghost function Done(v0: map<Cell, bool>, d: Dims, p: Part, next: Cell): map<Cell, bool>
    requires 0 <= p.dim < 3
  {
    map c | c in v0 :: v0[c] || (InPart(d, p, c) && Before(c, next))
  }

  /** The visited flags v are those of Done. */
  ghost predicate DoneAt(v: map<Cell, bool>, v0: map<Cell, bool>, d: Dims, p: Part, next: Cell)
    requires 0 <= p.dim < 3
  {
    v == Done(v0, d, p, next)
  }

  lemma DoneStart(v0: map<Cell, bool>, d: Dims, p: Part)
    requires PartOk(d, p)
    ensures DoneAt(v0, v0, d, p, PartLo(p))
  {
  }

  /** Marking cell c visited moves the frontier one cell along z. */
  lemma DoneStep(v: map<Cell, bool>, v0: map<Cell, bool>, d: Dims, p: Part, c: Cell)
    requires PartOk(d, p) && InPart(d, p, c) && c in v0 && DoneAt(v, v0, d, p, c)
    ensures DoneAt(v[c := true], v0, d, p, Cell(c.x, c.y, c.z + 1))
  {
  }

  /** Inside the part, a cell is visited once c is marked exactly when it is c or comes before c. */
  lemma DoneFlags(v: map<Cell, bool>, v0: map<Cell, bool>, d: Dims, p: Part, c: Cell)
    requires PartOk(d, p) && Fresh(v0, d, p) && DoneAt(v, v0, d, p, c)
    ensures forall nb :: InPart(d, p, nb) ==> nb in v[c := true] && (v[c := true][nb] <==> Before(nb, c) || nb == c)
  {
  }

  lemma DoneColumn(v: map<Cell, bool>, v0: map<Cell, bool>, d: Dims, p: Part, lo: Cell, hi: Cell, x: int, y: int)
    requires PartOk(d, p) && lo == PartLo(p) && hi == PartHi(d, p) && DoneAt(v, v0, d, p, Cell(x, y, hi.z))
    ensures DoneAt(v, v0, d, p, Cell(x, y + 1, lo.z))
  {
  }

  lemma DonePlane(v: map<Cell, bool>, v0: map<Cell, bool>, d: Dims, p: Part, lo: Cell, hi: Cell, x: int)
    requires PartOk(d, p) && lo == PartLo(p) && hi == PartHi(d, p) && DoneAt(v, v0, d, p, Cell(x, hi.y, lo.z))
    ensures DoneAt(v, v0, d, p, Cell(x + 1, lo.y, lo.z))
  {
  }

  lemma DoneEnd(v: map<Cell, bool>, v0: map<Cell, bool>, d: Dims, p: Part, lo: Cell, hi: Cell)
    requires PartOk(d, p) && lo == PartLo(p) && hi == PartHi(d, p) && DoneAt(v, v0, d, p, Cell(hi.x, lo.y, lo.z))
    ensures v == map c | c in v0 :: v0[c] || InPart(d, p, c)
  {
  }

  /**
   * What do_search reports for scan j with `hardware` threads available:
   * the whole grid searched serially, or the reports of the nt parts of
   * the longest axis, each but the last Extent / nt wide, in thread order.
   */
  ghost predicate Searched(j: Scan, hardware: int, bon: seq<Bond>, b: seq<int>, e: seq<int>)
    requires ScanOk(j)
  {
    var nt := ThreadCount(j.dims, hardware);
    var dim := MaxDim(j.dims);
    && (SearchBranch(nt) == Serial ==> bon == PartBonds(j, Whole(j.dims)))
    && (SearchBranch(nt) == Parallel ==>
          && |b| == nt && Partition(Extent(j.dims, dim), b, e)
          && (forall i :: 0 <= i < nt - 1 ==> e[i] - b[i] == Extent(j.dims, dim) / nt)
          && bon == PartsBonds(j, dim, b, e, nt))
  }

  /** Along axis dim, exactly the cells below front are visited. */
  ghost predicate VisitedBelow(v: map<Cell, bool>, d: Dims, dim: int, front: int)
    requires 0 <= dim < 3
  {
    VisitedShaped(d, v) && forall c :: InGrid(d, c) ==> (v[c] <==> Coord(c, dim) < front)
  }

  /** Below the part of a thread every cell is visited and inside it none. */
  lemma FrontFresh(v: map<Cell, bool>, d: Dims, p: Part)
    requires 0 <= p.dim < 3 && VisitedBelow(v, d, p.dim, p.b)
    ensures Fresh(v, d, p)
  {
  }

  /** After the thread of part p, the front has moved to the end of the part. */
  lemma FrontStep(v: map<Cell, bool>, v': map<Cell, bool>, d: Dims, p: Part)
    requires PartOk(d, p) && VisitedBelow(v, d, p.dim, p.b)
    requires v' == map c | c in v :: v[c] || InPart(d, p, c)
    ensures VisitedBelow(v', d, p.dim, p.e)
  {
  }

  /** Cleared flags: the front is at 0. */
  lemma AllFresh(v: map<Cell, bool>, d: Dims, dim: int)
    requires 0 <= dim < 3 && VisitedShaped(d, v) && forall c :: c in v ==> !v[c]
    ensures VisitedBelow(v, d, dim, 0)
  {
  }

  /** With the front at the end of the axis every cell is visited. */
  lemma AllVisited(v: map<Cell, bool>, d: Dims, dim: int, total: int)
    requires 0 <= dim < 3 && total == Extent(d, dim) && VisitedBelow(v, d, dim, total)
    ensures VisitedShaped(d, v) && forall c :: c in v ==> v[c]
  {
  }

  /** After the serial search of the whole grid every cell is visited. */
  lemma WholeDone(v: map<Cell, bool>, v': map<Cell, bool>, d: Dims)
    requires DimsOk(d) && VisitedShaped(d, v)
    requires v' == map c | c in v :: v[c] || InPart(d, Whole(d), c)
    ensures VisitedShaped(d, v') && forall c :: c in v' ==> v'[c]
  {
  }

  /** The inner loop of search_in_pair_of_cells: whether some target entry of tv is within cutoff of p. */
  method AnyCloseIn(j: Scan, p: Vec3, tv: seq<int>) returns (found: bool)
    requires ScanOk(j) && InRange(tv, |j.s2.coords|)
    ensures found <==> AnyClose(j, p, tv)
  {
    for t := 0 to |tv|
      invariant forall k :: 0 <= k < t ==> !Close(j.m, j.s2.coords[tv[k]], p)
    {
      if Close(j.m, j.s2.coords[tv[t]], p) {
        return true;
      }
    }
    return false;
  }

  /**
   * search_in_pair_of_cells: every source point of cell c (source grid) not
   * used yet is marked used when some target point of cell nb (target
   * grid) is within cutoff of it.  Nothing to do when either cell is empty.
   */
  method SearchInPairOfCells(j: Scan, c: Cell, nb: Cell, used: seq<bool>) returns (u: seq<bool>)
    requires ScanOk(j) && InGrid(j.dims, c) && InGrid(j.dims, nb) && |used| == |j.s1.coords|
    ensures |u| == |used|
    ensures forall i :: 0 <= i < |used| ==> (u[i] <==> used[i] || PairFlag(j, i, c, nb))
  {
    var sv, tv := j.g1[c], j.g2[nb];
    CellEntries(j.g1, |j.s1.coords|, c);
    CellEntries(j.g2, |j.s2.coords|, nb);
    u := used;
    ZeroProduct(|sv|, |tv|);
    if |sv| * |tv| == 0 {
      return;
    }
    for s := 0 to |sv|
      invariant |u| == |used|
      invariant forall i :: 0 <= i < |used| ==> (u[i] <==> used[i] || (i in sv[..s] && PairFlag(j, i, c, nb)))
    {
      assert sv[..s + 1] == sv[..s] + [sv[s]];
      var ind := sv[s];
      if u[ind] {
        continue;
      }
      var found := AnyCloseIn(j, j.s1.coords[ind], tv);
      if found {
        u := u[ind := true];
      }
    }
    assert sv[..|sv|] == sv;
  }

  /** The positions of the raised flags, as labels, ascending (the loop over `used`). */
  method UsedLabels(s: Points, abs: bool, used: seq<bool>) returns (raw: seq<int>)
    requires PointsOk(s) && |used| == |s.index|
    ensures raw == FlaggedLabels(s, abs, used, |used|)
  {
    raw := [];
    for i := 0 to |used|
      invariant raw == FlaggedLabels(s, abs, used, i)
    {
      if used[i] {
        raw := raw + [Label(s, abs, i)];
      }
    }
  }

  /** What a sweep of part p over scan j keeps fixed: lo and hi are the corners of the part. */
  ghost predicate Sweeping(j: Scan, p: Part, lo: Cell, hi: Cell) {
    ScanOk(j) && PartOk(j.dims, p) && lo == PartLo(p) && hi == PartHi(j.dims, p)
  }

  /** The flags of the within constructor: the flagged source points of scan j. */
  ghost function FlagsOf(j: Scan): (u: seq<bool>)
    ensures |u| == |j.s1.coords| && forall i :: 0 <= i < |u| ==> (u[i] <==> Flagged(j, i))
  {
    seq(|j.s1.coords|, i => Flagged(j, i))
  }

  /**
   * What the within constructor returns, once both grids are populated on a
   * layout fine enough for the cutoff: an ascending list without repeats
   * holding the label of every binned source point with some binned target
   * point within cutoff, joined by the target indices with include_self and
   * without them otherwise.
   */
  lemma WithinAnswer(l: Layout, j: Scan, abs: bool, target: seq<int>, includeSelf: bool, x: int)
    requires LayoutOk(l) && ScanOk(j) && Agrees(l, j) && Local(l, j.m)
    requires Populated(l, j.s1.coords, j.g1) && Populated(l, j.s2.coords, j.g2)
    requires PointsOk(j.s1) && Rising(j.s1, abs) && Sorted(target)
    ensures Strict(FastResultTail(FlaggedLabels(j.s1, abs, FlagsOf(j), |j.s1.index|), target, includeSelf))
    ensures x in FastResultTail(FlaggedLabels(j.s1, abs, FlagsOf(j), |j.s1.index|), target, includeSelf) <==>
      var hit := exists i :: 0 <= i < |j.s1.index| && FlagFound(l, j, i) && x == Label(j.s1, abs, i);
      if includeSelf then hit || x in target else hit && x !in target
  {
    var u := FlagsOf(j);
    var raw := FlaggedLabels(j.s1, abs, u, |j.s1.index|);
    FlaggedLabelsMembers(j.s1, abs, u, |j.s1.index|);
    FastResultShape(raw, target, includeSelf);
    forall i | 0 <= i < |j.s1.index| ensures u[i] <==> FlagFound(l, j, i) {
      FlagFindsAll(l, j, i);
    }
  }

  /**
   * A source point on the upper face of a non-periodic grid along x falls
   * in cell N, outside the grid, so populate_grid drops it and the within
   * constructor never flags it, however close it is to a target point.
   */
  lemma UpperFaceNeverFlagged(l: Layout, j: Scan, i: int)
    requires LayoutOk(l) && ScanOk(j) && Agrees(l, j) && !l.periodic
    requires Populated(l, j.s1.coords, j.g1) && Populated(l, j.s2.coords, j.g2)
    requires 0 <= i < |j.s1.coords| && j.s1.coords[i].x == l.hi.x
    ensures CellOf(l, j.s1.coords[i]).None? && !Flagged(j, i)
  {
    var n, w := l.dims.nx as real, l.hi.x - l.lo.x;
    assert Scaled(l.dims.nx, j.s1.coords[i].x, l.lo.x, l.hi.x) == n * w / w;
    assert n * w / w == n;
    if Flagged(j, i) {
      var c :| FlagVia(j, i, c);
      FlagViaFound(l, j, i, c);
    }
  }

  /**
   * `within 0.25 of index 0` over atoms at (0,0,0) and (0.25,0,0), not
   * periodic: the overlap of the widened boxes ends at x = 0.25, atom 1 lies
   * on that face, and the within constructor leaves it out although its
   * distance to atom 0 is exactly the cutoff.
   */
  lemma UpperFaceDropped(l: Layout, j: Scan)
    requires LayoutOk(l) && ScanOk(j) && Agrees(l, j) && !l.periodic
    requires Populated(l, j.s1.coords, j.g1) && Populated(l, j.s2.coords, j.g2)
    requires j.s1 == Points([Vec3(0.0, 0.0, 0.0), Vec3(0.25, 0.0, 0.0)], [0, 1])
    requires j.s2 == Points([Vec3(0.0, 0.0, 0.0)], [0])
    requires var a, b := Vec3(0.0, 0.0, 0.0), Vec3(0.25, 0.0, 0.0);
      l.hi == OverlapHigh(Halo(a, -0.25), Halo(b, 0.25), Halo(a, -0.25), Halo(a, 0.25))
    requires j.m.cutoff == 0.25 && !j.m.periodic && j.m.distance(Vec3(0.0, 0.0, 0.0), Vec3(0.25, 0.0, 0.0)) == 0.25
    ensures Close(j.m, j.s2.coords[0], j.s1.coords[1])
    ensures 1 !in FastResultTail(FlaggedLabels(j.s1, false, FlagsOf(j), 2), [0], true)
  {
    assert l.hi.x == 0.25;
    UpperFaceNeverFlagged(l, j, 1);
    UnflaggedLeftOut(j.s1, FlagsOf(j), [0], 1);
  }

  /** With positions as labels, an unflagged position outside the target is not in the result. */
  lemma UnflaggedLeftOut(s: Points, u: seq<bool>, target: seq<int>, i: int)
    requires PointsOk(s) && |u| == |s.index| && 0 <= i < |u| && !u[i] && i !in target
    ensures i !in FastResultTail(FlaggedLabels(s, false, u, |u|), target, true)
  {
    var raw := FlaggedLabels(s, false, u, |u|);
    FlaggedLabelsMembers(s, false, u, |u|);
    SortedUnique(raw + target);
  }

  /** The loop over the entries e of one cell against the query point q in search_within(point). */
  method EntryHitsIn(j: Scan, e: seq<int>, q: Vec3) returns (r: seq<int>)
    requires ScanOk(j) && InRange(e, |j.s1.coords|)
    ensures r == EntryHits(j, e, q)
  {
    r := [];
    for c := 0 to |e|
      invariant r == EntryHits(j, e[..c], q)
    {
      assert e[..c + 1][..c] == e[..c];
      if Close(j.m, j.s1.coords[e[c]], q) {
        r := r + [Label(j.s1, j.abs, e[c])];
      }
    }
    assert e[..|e|] == e;
  }

  /**
   * What search_within(target) returns, once both grids are populated on a
   * layout fine enough for the cutoff: an ascending list without repeats
   * holding the label of every binned source point with some binned target
   * point within cutoff, joined by the target indices with include_self and
   * without them otherwise.
   */
  lemma TargetAnswer(l: Layout, j: Scan, target: seq<int>, includeSelf: bool, x: int)
    requires LayoutOk(l) && ScanOk(j) && Agrees(l, j) && Local(l, j.m)
    requires Populated(l, j.s1.coords, j.g1) && Populated(l, j.s2.coords, j.g2) && Sorted(target)
    ensures Strict(TargetResult(WithinHits(j), target, includeSelf))
    ensures x in TargetResult(WithinHits(j), target, includeSelf) <==>
      var hit := exists a, b :: Found(l, j, x, a, b);
      if includeSelf then hit || x in target else hit && x !in target
  {
    TargetResultShape(WithinHits(j), target, includeSelf);
    WithinFindsAll(l, j, x);
  }

  /** Entry n1 of source cell nb within cutoff of target point b of cell c is a witness for its label. */
  lemma EntryWitness(j: Scan, c: Cell, nb: Cell, n1: int, b: int)
    requires ScanOk(j) && c in j.g2 && b in j.g2[c] && 0 <= b < |j.s2.coords|
    requires nb in j.g1 && nb in Around(j.dims, j.periodic, c) && 0 <= n1 < |j.g1[nb]|
    requires 0 <= j.g1[nb][n1] < |j.s1.coords| && Close(j.m, j.s1.coords[j.g1[nb][n1]], j.s2.coords[b])
    ensures Witness(j, Label(j.s1, j.abs, j.g1[nb][n1]), c, nb, j.g1[nb][n1], b)
  {
    assert j.g1[nb][n1] in j.g1[nb];
  }

  /**
   * The end of search_within(target): with include_self the target indices
   * appended; sorted, repeats removed; without include_self the target
   * indices then taken out.
   */
  method TargetTail(raw: seq<int>, target: seq<int>, includeSelf: bool) returns (bon: seq<int>)
    ensures bon == TargetResult(raw, target, includeSelf)
  {
    var all := if includeSelf then raw + target else raw;
    var unique := Unique(Sort(all));
    bon := if includeSelf then unique else Difference(unique, target);
  }

  class GridSearcher {
    /** The searcher's state: the cutoff, the flags, the box, the grid extents and bounding box, the grids. */
    var cutoff: real
    var periodic: bool
    var absIndex: bool
    var box: Box
    var dims: Dims
    var lo: Vec3
    var hi: Vec3
    var grid1: Grid
    var grid2: Grid
    var coor1: Grid
    var coor2: Grid
    var visited: map<Cell, bool>
    var nlist: seq<Cell>
    var sel: Points

    /** The box operations the searcher calls (Periodic_box::distance, lab_to_box, box_to_lab) and the norm. */
    const distance: (Vec3, Vec3) -> real
    const boxDistance: (Box, Vec3, Vec3) -> real
    const labToBox: (Box, Vec3) -> Vec3
    const boxToLab: (Box, Vec3) -> Vec3
    /** The cube-root estimate of set_grid_size from the bounding box and the atom count. */
    const estimate: (Vec3, Vec3, int) -> Counts

    /** `Grid_searcher()`: nothing allocated yet. */
    constructor (distance: (Vec3, Vec3) -> real, boxDistance: (Box, Vec3, Vec3) -> real,
                 labToBox: (Box, Vec3) -> Vec3, boxToLab: (Box, Vec3) -> Vec3, estimate: (Vec3, Vec3, int) -> Counts)
      ensures this.distance == distance && this.boxDistance == boxDistance
      ensures this.labToBox == labToBox && this.boxToLab == boxToLab && this.estimate == estimate
      ensures dims == Dims(0, 0, 0) && grid1 == map[] && grid2 == map[] && coor1 == map[] && coor2 == map[]
      ensures visited == map[] && nlist == [] && sel == Points([], [])
    {
      this.distance := distance;
      this.boxDistance := boxDistance;
      this.labToBox := labToBox;
      this.boxToLab := boxToLab;
      this.estimate := estimate;
      dims := Dims(0, 0, 0);
      grid1, grid2, coor1, coor2 := map[], map[], map[], map[];
      visited := map[];
      nlist := [];
      sel := Points([], []);
    }

    /** What decides the cell of a point in the current grid. */
    function Layout(): Layout
      reads this`dims, this`periodic, this`lo, this`hi, this`box
    {
      GridPairs.Layout(dims, periodic, lo, hi, box, labToBox)
    }

    /** The current distance test. */
    function Metric(): Metric
      reads this`periodic, this`box, this`cutoff
    {
      GridPairs.Metric(periodic, box, cutoff, distance, boxDistance)
    }

    /** A contact search over grid1 (and grid2 for two selections). */
    function ScanOf(two: bool, s1: Points, s2: Points): Scan
      reads this`dims, this`periodic, this`box, this`cutoff, this`absIndex, this`grid1, this`grid2
    {
      Scan(dims, periodic, Metric(), absIndex, two, grid1, if two then grid2 else grid1, s1, if two then s2 else s1)
    }

    /** The width of one cell along axis k, seen in the lab frame. */
    function LabWidth(k: int, w: real): real
      reads this`box
      requires 0 <= k < 3
    {
      AtomData.Axis(boxToLab(box, AlongAxis(k, w)), k)
    }

    /**
     * The growth loop of set_grid_size as written, on a box whose
     * box_to_lab leaves vectors as they are: with cutoff 0 a cell of any
     * positive width is wider than twice the cutoff for every count n, so
     * `++NgridX` does not stop before the int count overflows.
     */
    lemma GrowthNeverStopsAtZeroCutoff(k: int, width: real, n: int)
      requires 0 <= k < 3 && cutoff == 0.0 && width > 0.0 && n >= 1
      requires forall v :: boxToLab(box, v) == v
      ensures LabWidth(k, width / (n as real)) > 2.0 * cutoff
    {
      var w := width / (n as real);
      assert w > 0.0;
      assert boxToLab(box, AlongAxis(k, w)) == AlongAxis(k, w);
    }

    /**
     * One axis of set_grid_size after the estimate: 0 becomes 1, then
     * fewer cells while a cell is narrower than the cutoff (down to one),
     * then more while a cell is wider than twice the cutoff (at most `fuel`
     * more).  The growth loop runs only for a positive cutoff, the
     * corrected form of the written loop (GrowthNeverStopsAtZeroCutoff).
     */
    method FitAxis(k: int, n0: int, width: real, fuel: nat) returns (n: int)
      requires 0 <= k < 3 && n0 >= 0
      ensures n >= 1
      ensures n0 >= 1 && LabWidth(k, width / (n0 as real)) >= cutoff && LabWidth(k, width / (n0 as real)) <= 2.0 * cutoff
        ==> n == n0
      ensures var n1 := if n0 == 0 then 1 else n0;
        cutoff <= 0.0 && LabWidth(k, width / (n1 as real)) >= cutoff ==> n == n1
    {
      n := if n0 == 0 then 1 else n0;
      ghost var start := n;
      var w := width / (n as real);
      while LabWidth(k, w) < cutoff && n > 1
        invariant n >= 1 && w == width / (n as real)
        invariant LabWidth(k, width / (start as real)) >= cutoff ==> n == start
        decreases n
      {
        n := n - 1;
        w := width / (n as real);
      }
      ghost var n1 := n;
      var more := 0;
      while cutoff > 0.0 && LabWidth(k, w) > 2.0 * cutoff && more < fuel
        invariant n >= 1 && w == width / (n as real)
        invariant n0 >= 1 && LabWidth(k, width / (n0 as real)) >= cutoff && LabWidth(k, width / (n0 as real)) <= 2.0 * cutoff
          ==> n == n0 && more == 0
        invariant cutoff <= 0.0 ==> n == n1
        decreases fuel - more
      {
        n := n + 1;
        more := more + 1;
        w := width / (n as real);
      }
    }

    /** set_grid_size: the bounding box [low, high] and at least one cell on every axis. */
    method SetGridSize(low: Vec3, high: Vec3, natoms: int, fuel: nat)
      modifies this`dims, this`lo, this`hi
      requires Spread(low, high)
      ensures lo == low && hi == high && DimsOk(dims)
    {
      lo, hi := low, high;
      var e := estimate(low, high, natoms);
      var nx := FitAxis(0, e.nx, high.x - low.x, fuel);
      var ny := FitAxis(1, e.ny, high.y - low.y, fuel);
      var nz := FitAxis(2, e.nz, high.z - low.z, fuel);
      dims := Dims(nx, ny, nz);
    }

    // -------------------------------------------------------------------------
    // get_nlist_local and get_nlist

    /**
     * get_nlist_local: the neighbours of cell c, by the loops over the
     * offsets of each axis, bounds-checked without periodicity and wrapped
     * with it.
     */
    method NlistLocal(c: Cell) returns (nl: seq<Cell>)
      requires DimsOk(dims)
      ensures nl == Neighbours(dims, periodic, c)
    {
      var d, per := dims, periodic;
      // -1 .. 1 on every axis; with periodicity -1 only for more than one cell and +1 only for more than two
      var lowX, highX := LowOffset(d.nx, per), HighOffset(d.nx, per);
      var lowY, highY := LowOffset(d.ny, per), HighOffset(d.ny, per);
      var lowZ, highZ := LowOffset(d.nz, per), HighOffset(d.nz, per);
      ghost var xs, ys, zs := GridCells.Axis(c.x, d.nx, per), GridCells.Axis(c.y, d.ny, per), GridCells.Axis(c.z, d.nz, per);
      nl := NlistBlock(c, lowX, highX, lowY, highY, lowZ, highZ, xs, ys, zs);
    }

    /** The loops of get_nlist_local over the offsets lowX .. highX, lowY .. highY, lowZ .. highZ. */
    method NlistBlock(c: Cell, lowX: int, highX: int, lowY: int, highY: int, lowZ: int, highZ: int,
                      ghost xs: seq<int>, ghost ys: seq<int>, ghost zs: seq<int>) returns (nl: seq<Cell>)
      requires lowX <= highX + 1 && lowY <= highY + 1 && lowZ <= highZ + 1
      requires xs == AxisCells(c.x, dims.nx, periodic, lowX, highX + 1)
      requires ys == AxisCells(c.y, dims.ny, periodic, lowY, highY + 1)
      requires zs == AxisCells(c.z, dims.nz, periodic, lowZ, highZ + 1)
      ensures nl == Block(xs, ys, zs, c)
    {
      nl := [];
      for c1 := lowX to highX + 1
        invariant nl == Block(AxisCells(c.x, dims.nx, periodic, lowX, c1), ys, zs, c)
      {
        nl := NlistStep(c, c1, lowX, lowY, highY, lowZ, highZ, ys, zs, nl);
      }
    }

    /** One turn of the loop over the x offsets: offset c1 adds its plane, unless it leaves the grid. */
    method NlistStep(c: Cell, c1: int, lowX: int, lowY: int, highY: int, lowZ: int, highZ: int,
                     ghost ys: seq<int>, ghost zs: seq<int>, nl: seq<Cell>) returns (nl': seq<Cell>)
      requires lowX <= c1 && lowY <= highY + 1 && lowZ <= highZ + 1
      requires ys == AxisCells(c.y, dims.ny, periodic, lowY, highY + 1)
      requires zs == AxisCells(c.z, dims.nz, periodic, lowZ, highZ + 1)
      requires nl == Block(AxisCells(c.x, dims.nx, periodic, lowX, c1), ys, zs, c)
      ensures nl' == Block(AxisCells(c.x, dims.nx, periodic, lowX, c1 + 1), ys, zs, c)
    {
      var d, per := dims, periodic;
      ghost var xs := AxisCells(c.x, d.nx, per, lowX, c1);
      AxisCellsNext(c.x, d.nx, per, lowX, c1);
      var x := c.x + c1;
      if per {
        if x == d.nx { x := 0; }
        if x == -1 { x := d.nx - 1; }
      } else if x < 0 || x >= d.nx {
        assert AxisStep(c.x + c1, d.nx, per) == None;
        return nl;
      }
      assert AxisStep(c.x + c1, d.nx, per) == Some(x);
      BlockSnoc(xs, x, ys, zs, c);
      var pl := NlistPlane(c, x, lowY, highY, lowZ, highZ, zs);
      nl' := nl + pl;
    }

    /** The loops over the y and z offsets for one x of get_nlist_local. */
    method NlistPlane(c: Cell, x: int, lowY: int, highY: int, lowZ: int, highZ: int, ghost zs: seq<int>) returns (pl: seq<Cell>)
      requires lowY <= highY + 1 && lowZ <= highZ + 1
      requires zs == AxisCells(c.z, dims.nz, periodic, lowZ, highZ + 1)
      ensures pl == Plane(x, AxisCells(c.y, dims.ny, periodic, lowY, highY + 1), zs, c)
    {
      var d, per := dims, periodic;
      pl := [];
      for c2 := lowY to highY + 1
        invariant pl == Plane(x, AxisCells(c.y, d.ny, per, lowY, c2), zs, c)
      {
        var y := c.y + c2;
        if per {
          if y == d.ny { y := 0; }
          if y == -1 { y := d.ny - 1; }
        } else if y < 0 || y >= d.ny {
          continue;
        }
        PlaneSnoc(x, AxisCells(c.y, d.ny, per, lowY, c2), y, zs, c);
        var col := NlistColumn(c, x, y, lowZ, highZ);
        pl := pl + col;
      }
    }

    /** The loop over the z offsets for one x and y of get_nlist_local; the centre is skipped. */
    method NlistColumn(c: Cell, x: int, y: int, lowZ: int, highZ: int) returns (col: seq<Cell>)
      requires lowZ <= highZ + 1
      ensures col == Column(x, y, AxisCells(c.z, dims.nz, periodic, lowZ, highZ + 1), c)
    {
      var d, per := dims, periodic;
      col := [];
      for c3 := lowZ to highZ + 1
        invariant col == Column(x, y, AxisCells(c.z, d.nz, per, lowZ, c3), c)
      {
        var z := c.z + c3;
        if per {
          if z == d.nz { z := 0; }
          if z == -1 { z := d.nz - 1; }
        } else if z < 0 || z >= d.nz {
          continue;
        }
        ColumnSnoc(x, y, AxisCells(c.z, d.nz, per, lowZ, c3), z, c);
        if x == c.x && y == c.y && z == c.z {
          continue;
        }
        col := col + [Cell(x, y, z)];
      }
    }

    /** get_nlist: the same neighbours, kept in the member list. */
    method GetNlist(c: Cell)
      modifies this`nlist
      requires DimsOk(dims)
      ensures nlist == Neighbours(dims, periodic, c)
    {
      nlist := NlistLocal(c);
    }

    // -------------------------------------------------------------------------
    // get_central_* and get_side_*

    /** get_central_1: bonds gets the contacts between the entries of cell c of grid1, each pair once. */
    method GetCentral1(c: Cell, s: Points, bonds: seq<Bond>) returns (r: seq<Bond>)
      requires c in grid1 && PointsOk(s) && InRange(grid1[c], |s.coords|)
      ensures r == bonds + Triangle(Metric(), s, absIndex, grid1[c])
    {
      var abs := absIndex;
      var e := grid1[c];
      var n1 := |e|;
      if n1 == 0 {
        return bonds;
      }
      var m := Metric();
      r := bonds;
      for c1 := 0 to n1 - 1
        invariant r == bonds + TriangleRows(m, s, abs, e, c1)
      {
        r := CentralRow(m, s, abs, e, c1, bonds, r);
      }
      assert e[n1..] == [];
      assert TriangleRows(m, s, abs, e, n1) == TriangleRows(m, s, abs, e, n1 - 1) + [];
    }

    /** One turn of the outer loop of get_central_1: entry c1 against the entries after it. */
    method CentralRow(m: Metric, s: Points, abs: bool, e: seq<int>, c1: int, ghost bonds: seq<Bond>, r: seq<Bond>)
      returns (r': seq<Bond>)
      requires PointsOk(s) && InRange(e, |s.coords|) && 0 <= c1 < |e|
      requires r == bonds + TriangleRows(m, s, abs, e, c1)
      ensures r' == bonds + TriangleRows(m, s, abs, e, c1 + 1)
    {
      r' := RowInto(m, s, s, abs, false, e[c1], e, c1 + 1, r);
      ghost var row := Row(m, s, s, abs, false, e[c1], e[c1 + 1..]);
      assert (bonds + TriangleRows(m, s, abs, e, c1)) + row == bonds + (TriangleRows(m, s, abs, e, c1) + row);
    }

    /** get_side_1: bonds gets the contacts between the entries of cells c and nb of grid1. */
    method GetSide1(c: Cell, nb: Cell, s: Points, bonds: seq<Bond>) returns (r: seq<Bond>)
      requires c in grid1 && nb in grid1 && PointsOk(s)
      requires InRange(grid1[c], |s.coords|) && InRange(grid1[nb], |s.coords|)
      ensures r == bonds + Cross(Metric(), s, s, absIndex, false, grid1[c], grid1[nb])
    {
      var n1, n2 := |grid1[c]|, |grid1[nb]|;
      if n1 == 0 || n2 == 0 {
        CrossNone(Metric(), s, s, absIndex, false, grid1[c]);
        return bonds;
      }
      r := CrossInto(Metric(), s, s, absIndex, false, grid1[c], grid1[nb], bonds);
    }

    /** get_central_2: bonds gets the contacts of selection 1 with selection 2 inside cell c. */
    method GetCentral2(c: Cell, s1: Points, s2: Points, bonds: seq<Bond>) returns (r: seq<Bond>)
      requires c in grid1 && c in grid2 && PointsOk(s1) && PointsOk(s2)
      requires InRange(grid1[c], |s1.coords|) && InRange(grid2[c], |s2.coords|)
      ensures r == bonds + Cross(Metric(), s1, s2, absIndex, false, grid1[c], grid2[c])
    {
      var n1, n2 := |grid1[c]|, |grid2[c]|;
      if n1 == 0 || n2 == 0 {
        CrossNone(Metric(), s1, s2, absIndex, false, grid1[c]);
        return bonds;
      }
      r := CrossInto(Metric(), s1, s2, absIndex, false, grid1[c], grid2[c], bonds);
    }

    /**
     * get_side_2: bonds gets the contacts of selection 1 in c with selection
     * 2 in nb, then those of selection 2 in c with selection 1 in nb, each
     * written as (selection 1, selection 2).
     */
    method GetSide2(c: Cell, nb: Cell, s1: Points, s2: Points, bonds: seq<Bond>) returns (r: seq<Bond>)
      requires c in grid1 && c in grid2 && nb in grid1 && nb in grid2 && PointsOk(s1) && PointsOk(s2)
      requires InRange(grid1[c], |s1.coords|) && InRange(grid2[c], |s2.coords|)
      requires InRange(grid1[nb], |s1.coords|) && InRange(grid2[nb], |s2.coords|)
      ensures r == bonds + Cross(Metric(), s1, s2, absIndex, false, grid1[c], grid2[nb])
        + Cross(Metric(), s2, s1, absIndex, true, grid2[c], grid1[nb])
    {
      var g1, g2, abs := grid1, grid2, absIndex;
      var m := Metric();
      r := bonds;
      var n1, n2 := |g1[c]|, |g2[nb]|;
      ZeroProduct(n1, n2);
      if n1 * n2 != 0 {
        r := CrossInto(m, s1, s2, abs, false, g1[c], g2[nb], r);
      } else {
        CrossNone(m, s1, s2, abs, false, g1[c]);
        assert Cross(m, s1, s2, abs, false, g1[c], g2[nb]) == [];
        assert r == bonds + [];
      }
      ghost var first := r;
      n1, n2 := |g2[c]|, |g1[nb]|;
      ZeroProduct(n1, n2);
      if n1 * n2 != 0 {
        r := CrossInto(m, s2, s1, abs, true, g2[c], g1[nb], r);
      } else {
        CrossNone(m, s2, s1, abs, true, g2[c]);
        assert Cross(m, s2, s1, abs, true, g2[c], g1[nb]) == [];
        assert r == first + [];
      }
    }

    // -------------------------------------------------------------------------
    // populate_grid

    /** The clearing loops of populate_grid: every cell of the grid emptied. */
    method ClearCells(g: Grid) returns (r: Grid)
      requires DimsOk(dims) && Shaped(dims, g)
      ensures Shaped(dims, r) && forall c :: c in r ==> r[c] == []
    {
      var d := dims;
      r := g;
      for x := 0 to d.nx
        invariant Shaped(dims, r)
        invariant forall c :: c in r && c.x < x ==> r[c] == []
      {
        for y := 0 to d.ny
          invariant Shaped(dims, r)
          invariant forall c :: c in r && (c.x < x || (c.x == x && c.y < y)) ==> r[c] == []
        {
          for z := 0 to d.nz
            invariant Shaped(dims, r)
            invariant forall c :: c in r && (c.x < x || (c.x == x && (c.y < y || (c.y == y && c.z < z)))) ==> r[c] == []
          {
            r := r[Cell(x, y, z) := []];
          }
        }
      }
    }

    /**
     * populate_grid (and populate_coor_grid, whose entries also carry a
     * pointer to the coordinates): every cell holds, ascending, the
     * positions of the points binned into it.
     */
    method PopulateGrid(g: Grid, pts: seq<Vec3>) returns (r: Grid)
      requires LayoutOk(Layout()) && Shaped(dims, g)
      ensures Populated(Layout(), pts, r)
    {
      r := ClearCells(g);
      if !periodic {
        for i := 0 to |pts|
          invariant Shaped(dims, r)
          invariant forall c :: c in r ==> r[c] == Members(Layout(), pts, i, c)
        {
          r := BinDirect(pts, i, r);
        }
      } else {
        for i := 0 to |pts|
          invariant Shaped(dims, r)
          invariant forall c :: c in r ==> r[c] == Members(Layout(), pts, i, c)
        {
          r := BinWrapped(pts, i, r);
        }
      }
    }

    /** One turn of the loop of populate_grid without periodicity: a point outside the grid is skipped. */
    method BinDirect(pts: seq<Vec3>, i: int, r: Grid) returns (r': Grid)
      requires LayoutOk(Layout()) && !periodic && 0 <= i < |pts| && Shaped(dims, r)
      requires forall c :: c in r ==> r[c] == Members(Layout(), pts, i, c)
      ensures Shaped(dims, r') && forall c :: c in r' ==> r'[c] == Members(Layout(), pts, i + 1, c)
    {
      var d, low, high := dims, lo, hi;
      var coor := pts[i];
      var n1 := RawBin(d.nx, coor.x, low.x, high.x);
      var n2 := RawBin(d.ny, coor.y, low.y, high.y);
      var n3 := RawBin(d.nz, coor.z, low.z, high.z);
      if n1 < 0 || n1 >= d.nx || n2 < 0 || n2 >= d.ny || n3 < 0 || n3 >= d.nz {
        assert CellOf(Layout(), coor).None?;
        MembersSkip(Layout(), pts, i, r);
        return r;
      }
      assert CellOf(Layout(), coor) == Some(Cell(n1, n2, n3));
      ghost var placed := MembersPlace(Layout(), pts, i, r, Cell(n1, n2, n3));
      r' := r[Cell(n1, n2, n3) := r[Cell(n1, n2, n3)] + [i]];
    }

    /** One turn of the loop of populate_grid with periodicity: every point is wrapped into the grid. */
    method BinWrapped(pts: seq<Vec3>, i: int, r: Grid) returns (r': Grid)
      requires LayoutOk(Layout()) && periodic && 0 <= i < |pts| && Shaped(dims, r)
      requires forall c :: c in r ==> r[c] == Members(Layout(), pts, i, c)
      ensures Shaped(dims, r') && forall c :: c in r' ==> r'[c] == Members(Layout(), pts, i + 1, c)
    {
      var d, low, high, bx := dims, lo, hi, box;
      var coor := pts[i];
      if bx.triclinic { coor := labToBox(bx, coor); }
      var n1 := RawBin(d.nx, coor.x, low.x, high.x);
      var n2 := RawBin(d.ny, coor.y, low.y, high.y);
      var n3 := RawBin(d.nz, coor.z, low.z, high.z);
      n1 := WrapIndex(n1, d.nx);
      n2 := WrapIndex(n2, d.ny);
      n3 := WrapIndex(n3, d.nz);
      assert CellOf(Layout(), pts[i]) == Some(Cell(n1, n2, n3));
      ghost var placed := MembersPlace(Layout(), pts, i, r, Cell(n1, n2, n3));
      r' := r[Cell(n1, n2, n3) := r[Cell(n1, n2, n3)] + [i]];
    }

    // -------------------------------------------------------------------------
    // create_grid, create_grid2, assign_to_grid and the custom grid

    /**
     * create_grid over grid1: the bounding box, the grid size, then grid1
     * and the visited flags resized to the new extents.
     */
    method CreateGrid(s: Selection, fuel: nat)
      modifies this`dims, this`lo, this`hi, this`grid1, this`visited
      requires var b := Bounds(periodic, box, cutoff, s.low, s.high); Spread(b.0, b.1)
      ensures (lo, hi) == Bounds(periodic, box, cutoff, s.low, s.high) && DimsOk(dims)
      ensures grid1 == Resized(old(grid1), dims) && visited == ResizedFlags(old(visited), dims)
    {
      var low, high;
      if !periodic {
        low, high := Halo(s.low, -cutoff), Halo(s.high, cutoff);
      } else {
        low, high := Vec3(0.0, 0.0, 0.0), box.extents;
      }
      SetGridSize(low, high, |s.pts.coords|, fuel);
      grid1 := Resized(grid1, dims);
      visited := ResizedFlags(visited, dims);
    }

    /**
     * The loop of create_grid2 over the axes: lo and hi get the overlap of
     * [min1, max1] and [min2, max2] axis by axis, up to and including the
     * first axis where it has zero length, which stops the loop.
     */
    method OverlapBounds(min1: Vec3, max1: Vec3, min2: Vec3, max2: Vec3) returns (flat: bool)
      modifies this`lo, this`hi
      ensures var k := FirstFlat(OverlapLow(min1, max1, min2, max2), OverlapHigh(min1, max1, min2, max2));
        && lo == Upto(old(lo), OverlapLow(min1, max1, min2, max2), k)
        && hi == Upto(old(hi), OverlapHigh(min1, max1, min2, max2), k)
        && (flat <==> k < 3)
    {
      ghost var ol, oh := OverlapLow(min1, max1, min2, max2), OverlapHigh(min1, max1, min2, max2);
      ghost var lo0, hi0 := lo, hi;
      for i := 0 to 3
        invariant lo == Upto(lo0, ol, i - 1) && hi == Upto(hi0, oh, i - 1)
        invariant FirstFlat(ol, oh) >= i
      {
        var r := Overlap1d(AtomData.Axis(min1, i), AtomData.Axis(max1, i), AtomData.Axis(min2, i), AtomData.Axis(max2, i));
        lo := WithAxis(lo, i, r.0);
        hi := WithAxis(hi, i, r.1);
        if r.1 == r.0 {
          return true;
        }
      }
      return false;
    }

    /**
     * The non-periodic start of create_grid2: both bounding boxes widened
     * by the cutoff, then their overlap written axis by axis; `flat` when
     * it has zero length along some axis.
     */
    method WidenedOverlap(s1: Selection, s2: Selection, cut: real) returns (flat: bool)
      modifies this`lo, this`hi
      requires cut >= 0.0 && Ordered(s1.low, s1.high) && Ordered(s2.low, s2.high)
      ensures
        var ol := OverlapLow(Halo(s1.low, -cut), Halo(s1.high, cut), Halo(s2.low, -cut), Halo(s2.high, cut));
        var oh := OverlapHigh(Halo(s1.low, -cut), Halo(s1.high, cut), Halo(s2.low, -cut), Halo(s2.high, cut));
        var k := FirstFlat(ol, oh);
        && lo == Upto(old(lo), ol, k) && hi == Upto(old(hi), oh, k)
        && (flat <==> k < 3)
        && (k == 3 ==> Spread(lo, hi))
    {
      var min1, max1 := Halo(s1.low, -cut), Halo(s1.high, cut);
      var min2, max2 := Halo(s2.low, -cut), Halo(s2.high, cut);
      flat := OverlapBounds(min1, max1, min2, max2);
      if !flat {
        OverlapSpread(min1, max1, min2, max2);
      }
    }

    /**
     * create_grid2: without periodicity the bounding box is the overlap of
     * the two widened boxes, found axis by axis; at the first axis where it
     * has zero length the search stops with that axis and the ones before
     * it written and nothing allocated.  Otherwise both grids and the
     * visited flags are resized.
     */
    method CreateGrid2(s1: Selection, s2: Selection, fuel: nat)
      modifies this`dims, this`lo, this`hi, this`grid1, this`grid2, this`visited
      requires cutoff >= 0.0 && Ordered(s1.low, s1.high) && Ordered(s2.low, s2.high)
      requires periodic ==> Spread(Vec3(0.0, 0.0, 0.0), box.extents)
      ensures !periodic ==>
        var ol := OverlapLow(Halo(s1.low, -cutoff), Halo(s1.high, cutoff), Halo(s2.low, -cutoff), Halo(s2.high, cutoff));
        var oh := OverlapHigh(Halo(s1.low, -cutoff), Halo(s1.high, cutoff), Halo(s2.low, -cutoff), Halo(s2.high, cutoff));
        var k := FirstFlat(ol, oh);
        && lo == Upto(old(lo), ol, k) && hi == Upto(old(hi), oh, k)
        && (k < 3 ==> dims == old(dims) && grid1 == old(grid1) && grid2 == old(grid2) && visited == old(visited))
        && (k == 3 ==> Spread(lo, hi))
      ensures periodic ==> lo == Vec3(0.0, 0.0, 0.0) && hi == box.extents
      ensures periodic || FirstFlat(lo, hi) == 3 ==>
        && DimsOk(dims) && grid1 == Resized(old(grid1), dims) && grid2 == Resized(old(grid2), dims)
        && visited == ResizedFlags(old(visited), dims)
    {
      var low, high;
      if !periodic {
        var flat := WidenedOverlap(s1, s2, cutoff);
        if flat {
          return;
        }
        low, high := lo, hi;
      } else {
        low, high := Vec3(0.0, 0.0, 0.0), box.extents;
      }
      AllocateBoth(low, high, |s1.pts.coords| + |s2.pts.coords|, fuel);
    }

    /** The end of create_grid2: the grid size, then both grids and the visited flags resized. */
    method AllocateBoth(low: Vec3, high: Vec3, natoms: int, fuel: nat)
      modifies this`dims, this`lo, this`hi, this`grid1, this`grid2, this`visited
      requires Spread(low, high)
      ensures lo == low && hi == high && DimsOk(dims)
      ensures grid1 == Resized(old(grid1), dims) && grid2 == Resized(old(grid2), dims)
      ensures visited == ResizedFlags(old(visited), dims)
    {
      SetGridSize(low, high, natoms, fuel);
      grid1 := Resized(grid1, dims);
      grid2 := Resized(grid2, dims);
      visited := ResizedFlags(visited, dims);
    }

    /**
     * The common start of the one-selection constructor and assign_to_grid:
     * the search parameters, then grid1 created and populated from the selection.
     */
    method GridOver(d: real, s: Selection, abs: bool, per: bool, fuel: nat)
      modifies this`cutoff, this`periodic, this`absIndex, this`box, this`dims, this`lo, this`hi, this`grid1,
        this`visited
      requires var b := Bounds(per, s.box, d, s.low, s.high); Spread(b.0, b.1)
      ensures cutoff == d && periodic == per && absIndex == abs && box == s.box
      ensures (lo, hi) == Bounds(periodic, box, cutoff, s.low, s.high) && LayoutOk(Layout())
      ensures Populated(Layout(), s.pts.coords, grid1) && EntriesIn(grid1, |s.pts.coords|)
      ensures visited == ResizedFlags(old(visited), dims)
    {
      cutoff, periodic, absIndex, box := d, per, abs, s.box;
      CreateGrid(s, fuel);
      grid1 := PopulateGrid(grid1, s.pts.coords);
      PopulatedEntries(Layout(), s.pts.coords, grid1);
    }

    /** assign_to_grid: grid1 as for the one-selection search, and the selection kept for the within searches. */
    method AssignToGrid(d: real, s: Selection, abs: bool, per: bool, fuel: nat)
      modifies this`cutoff, this`periodic, this`absIndex, this`box, this`dims, this`lo, this`hi, this`grid1,
        this`visited, this`sel
      requires var b := Bounds(per, s.box, d, s.low, s.high); Spread(b.0, b.1)
      ensures cutoff == d && periodic == per && absIndex == abs && box == s.box && sel == s.pts
      ensures (lo, hi) == Bounds(periodic, box, cutoff, s.low, s.high) && LayoutOk(Layout())
      ensures Populated(Layout(), s.pts.coords, grid1) && visited == ResizedFlags(old(visited), dims)
    {
      GridOver(d, s, abs, per, fuel);
      sel := s.pts;
    }

    /** create_custom_grid: the extents given, and grid1 resized to them. */
    method CreateCustomGrid(nx: int, ny: int, nz: int)
      modifies this`dims, this`grid1
      requires nx >= 0 && ny >= 0 && nz >= 0
      ensures dims == Dims(nx, ny, nz) && grid1 == Resized(old(grid1), dims)
    {
      dims := Dims(nx, ny, nz);
      grid1 := Resized(grid1, dims);
    }

    /**
     * fill_custom_grid: the box of the selection's frame; a triclinic box is
     * refused, otherwise the grid spans the unit cell, is periodic, and
     * grid1 is populated from the selection.  The selection is not kept.
     */
    method FillCustomGrid(s: Selection, abs: bool) returns (r: Outcome)
      modifies this`box, this`lo, this`hi, this`periodic, this`absIndex, this`grid1
      requires DimsOk(dims) && Shaped(dims, grid1) && Spread(Vec3(0.0, 0.0, 0.0), s.box.extents)
      ensures box == s.box
      ensures s.box.triclinic <==> r.Fail?
      ensures r.Fail? ==> (r.msg == "Custom grids are not implemented for triclinic boxes"
        && lo == old(lo) && hi == old(hi) && periodic == old(periodic) && absIndex == old(absIndex) && grid1 == old(grid1))
      ensures r.Pass? ==> (lo == Vec3(0.0, 0.0, 0.0) && hi == box.extents && periodic && absIndex == abs
        && Populated(Layout(), s.pts.coords, grid1))
    {
      box := s.box;
      if box.triclinic {
        return Fail("Custom grids are not implemented for triclinic boxes");
      }
      lo, hi := Vec3(0.0, 0.0, 0.0), box.extents;
      periodic := true;
      absIndex := abs;
      grid1 := PopulateGrid(grid1, s.pts.coords);
      r := Pass;
    }

    /** cell_of_custom_grid: the entries of one cell of grid1. */
    function CellOfCustomGrid(x: int, y: int, z: int): (r: seq<int>)
      reads this`grid1, this`dims, this`periodic, this`lo, this`hi, this`box
      requires Cell(x, y, z) in grid1
      ensures forall pts :: LayoutOk(Layout()) && Populated(Layout(), pts, grid1) ==>
        forall i :: i in r <==> 0 <= i < |pts| && CellOf(Layout(), pts[i]) == Some(Cell(x, y, z))
    {
      forall pts | LayoutOk(Layout()) && Populated(Layout(), pts, grid1)
        ensures forall i :: i in grid1[Cell(x, y, z)] <==> 0 <= i < |pts| && CellOf(Layout(), pts[i]) == Some(Cell(x, y, z))
      {
        MembersExact(Layout(), pts, |pts|, Cell(x, y, z));
      }
      grid1[Cell(x, y, z)]
    }

    // -------------------------------------------------------------------------
    // do_search and do_part1/do_part2

    /** The first loops of do_search: every visited flag cleared. */
    method ResetVisited()
      modifies this`visited
      requires DimsOk(dims) && VisitedShaped(dims, visited)
      ensures VisitedShaped(dims, visited) && forall c :: c in visited ==> !visited[c]
    {
      var d := dims;
      var v := visited;
      for x := 0 to d.nx
        invariant VisitedShaped(d, v)
        invariant forall c :: c in v && c.x < x ==> !v[c]
      {
        for y := 0 to d.ny
          invariant VisitedShaped(d, v)
          invariant forall c :: c in v && (c.x < x || (c.x == x && c.y < y)) ==> !v[c]
        {
          for z := 0 to d.nz
            invariant VisitedShaped(d, v)
            invariant forall c :: c in v && (c.x < x || (c.x == x && (c.y < y || (c.y == y && c.z < z)))) ==> !v[c]
          {
            v := v[Cell(x, y, z) := false];
          }
        }
      }
      visited := v;
    }

    /**
     * The body of do_part1/do_part2 for cell c: the central search, the
     * visited flag of c, then the side search with every neighbour the part
     * compares: none below the part along its axis, inside the part only
     * the ones not visited yet, all of those above it.
     */
    method PartCell(two: bool, s1: Points, s2: Points, ghost j: Scan, p: Part, c: Cell, ghost next: Cell,
                    ghost v0: map<Cell, bool>, bonds: seq<Bond>) returns (r: seq<Bond>)
      modifies this`visited
      requires j == ScanOf(two, s1, s2) && ScanOk(j) && j.dims == dims && PartOk(dims, p) && InPart(dims, p, c)
      requires next == Cell(c.x, c.y, c.z + 1) && Fresh(v0, dims, p) && DoneAt(visited, v0, dims, p, c)
      ensures DoneAt(visited, v0, dims, p, next)
      ensures r == bonds + CellBonds(j, p, c)
    {
      assert j.periodic == periodic;
      r := PartCentral(two, s1, s2, j, c, bonds);
      MarkVisited(two, s1, s2, v0, p, c);
      var nl := NlistLocal(c);
      NeighboursInGrid(dims, periodic, c);
      ghost var central := r;
      r := PartSides(two, s1, s2, j, p, c, nl, r);
      CellBondsSplit(j, p, c, nl, bonds, central, r);
    }

    /** `visited[i][j][k] = true` for cell c of part p. */
    method MarkVisited(ghost two: bool, ghost s1: Points, ghost s2: Points, ghost v0: map<Cell, bool>, p: Part, c: Cell)
      modifies this`visited
      requires PartOk(dims, p) && InPart(dims, p, c) && Fresh(v0, dims, p) && DoneAt(visited, v0, dims, p, c)
      ensures visited == old(visited)[c := true] && ScanOf(two, s1, s2) == old(ScanOf(two, s1, s2))
      ensures DoneAt(visited, v0, dims, p, Cell(c.x, c.y, c.z + 1))
      ensures forall nb :: InPart(dims, p, nb) ==> nb in visited && (visited[nb] <==> Before(nb, c) || nb == c)
    {
      DoneFlags(visited, v0, dims, p, c);
      DoneStep(visited, v0, dims, p, c);
      visited := visited[c := true];
    }

    /** get_central_1, or get_central_2 for two selections. */
    method PartCentral(two: bool, s1: Points, s2: Points, ghost j: Scan, c: Cell, bonds: seq<Bond>) returns (r: seq<Bond>)
      requires j == ScanOf(two, s1, s2) && ScanOk(j) && InGrid(j.dims, c)
      ensures r == bonds + Central(j, c)
    {
      CellEntries(j.g1, |j.s1.coords|, c);
      CellEntries(j.g2, |j.s2.coords|, c);
      if two {
        r := GetCentral2(c, s1, s2, bonds);
      } else {
        r := GetCentral1(c, s1, bonds);
      }
    }

    /** The loop of do_part1/do_part2 over the neighbour list nl of cell c, after c is marked visited. */
    method PartSides(two: bool, s1: Points, s2: Points, ghost j: Scan, p: Part, c: Cell, nl: seq<Cell>,
                     bonds: seq<Bond>) returns (r: seq<Bond>)
      requires j == ScanOf(two, s1, s2) && ScanOk(j) && j.dims == dims
      requires PartOk(j.dims, p) && InGrid(j.dims, c) && AllInGrid(j.dims, nl)
      requires forall nb :: InPart(dims, p, nb) ==> nb in visited && (visited[nb] <==> Before(nb, c) || nb == c)
      ensures r == bonds + Sides(j, p, c, nl)
    {
      r := bonds;
      for i1 := 0 to |nl|
        invariant r == bonds + Sides(j, p, c, nl[..i1])
      {
        assert nl[..i1 + 1][..i1] == nl[..i1];
        r := PartNeighbour(two, s1, s2, j, p, c, nl[i1], r);
      }
      assert nl[..|nl|] == nl;
    }

    /** One neighbour nb of c: skipped below the part, compared only if not visited inside it, always above it. */
    method PartNeighbour(two: bool, s1: Points, s2: Points, ghost j: Scan, p: Part, c: Cell, nb: Cell,
                         bonds: seq<Bond>) returns (r: seq<Bond>)
      requires j == ScanOf(two, s1, s2) && ScanOk(j) && j.dims == dims
      requires PartOk(dims, p) && InGrid(dims, c) && InGrid(dims, nb)
      requires InPart(dims, p, nb) ==> nb in visited && (visited[nb] <==> Before(nb, c) || nb == c)
      ensures r == bonds + (if Compared(p, c, nb) then Side(j, c, nb) else [])
    {
      BeforeTotal(c, nb);
      if Coord(nb, p.dim) < p.b {
        return bonds;
      }
      if Coord(nb, p.dim) < p.e {
        assert InPart(dims, p, nb);
        if !visited[nb] {
          r := PartSide(two, c, nb, s1, s2, bonds);
        } else {
          r := bonds;
        }
      } else {
        r := PartSide(two, c, nb, s1, s2, bonds);
      }
    }

    /** get_side_1, or get_side_2 for two selections. */
    method PartSide(two: bool, c: Cell, nb: Cell, s1: Points, s2: Points, bonds: seq<Bond>) returns (r: seq<Bond>)
      requires ScanOk(ScanOf(two, s1, s2)) && InGrid(dims, c) && InGrid(dims, nb)
      ensures r == bonds + Side(ScanOf(two, s1, s2), c, nb)
    {
      ghost var j := ScanOf(two, s1, s2);
      CellEntries(j.g1, |j.s1.coords|, c);
      CellEntries(j.g2, |j.s2.coords|, c);
      CellEntries(j.g1, |j.s1.coords|, nb);
      CellEntries(j.g2, |j.s2.coords|, nb);
      if two {
        r := GetSide2(c, nb, s1, s2, bonds);
      } else {
        r := GetSide1(c, nb, s1, bonds);
      }
    }

    /** One turn of the innermost loop of do_part1/do_part2: cell (x, y, z) joins the walk. */
    method ColumnStep(two: bool, s1: Points, s2: Points, p: Part, x: int, y: int, z: int, ghost j: Scan,
                      ghost lo: Cell, ghost hi: Cell, ghost v0: map<Cell, bool>, ghost t: map<Cell, seq<Bond>>,
                      ghost bonds: seq<Bond>, r: seq<Bond>)
      returns (r': seq<Bond>)
      modifies this`visited
      requires j == ScanOf(two, s1, s2) && Walking(j, p, lo, hi, v0, t) && dims == j.dims
      requires lo.x <= x < hi.x && lo.y <= y < hi.y && lo.z <= z < hi.z
      requires DoneAt(visited, v0, dims, p, Cell(x, y, z))
      requires r == bonds + ZWalk(t, lo, hi, x, y, z)
      ensures DoneAt(visited, v0, dims, p, Cell(x, y, z + 1))
      ensures r' == bonds + ZWalk(t, lo, hi, x, y, z + 1)
    {
      PartBox(dims, p, Cell(x, y, z));
      r' := PartCell(two, s1, s2, j, p, Cell(x, y, z), Cell(x, y, z + 1), v0, r);
      ZWalkStep(t, lo, hi, x, y, z, bonds);
    }

    /** The innermost loop of do_part1/do_part2 (over z) at x and y. */
    method PartColumn(two: bool, s1: Points, s2: Points, p: Part, x: int, y: int,
                      ghost j: Scan, ghost lo: Cell, ghost hi: Cell, ghost v0: map<Cell, bool>, ghost t: map<Cell, seq<Bond>>,
                      bonds: seq<Bond>)
      returns (r: seq<Bond>)
      modifies this`visited
      requires j == ScanOf(two, s1, s2) && Walking(j, p, lo, hi, v0, t) && dims == j.dims
      requires lo.x <= x < hi.x && lo.y <= y < hi.y
      requires DoneAt(visited, v0, dims, p, Cell(x, y, lo.z))
      ensures DoneAt(visited, v0, dims, p, Cell(x, y, hi.z))
      ensures r == bonds + ZWalk(t, lo, hi, x, y, hi.z)
    {
      WalkStart(t, lo, hi, x, y, bonds);
      r := bonds;
      for z := PartLo(p).z to PartHi(dims, p).z
        invariant j == ScanOf(two, s1, s2)
        invariant DoneAt(visited, v0, dims, p, Cell(x, y, z))
        invariant r == bonds + ZWalk(t, lo, hi, x, y, z)
      {
        r := ColumnStep(two, s1, s2, p, x, y, z, j, lo, hi, v0, t, bonds, r);
      }
    }

    /** The middle loop of do_part1/do_part2 (over y) at x. */
    method PartPlane(two: bool, s1: Points, s2: Points, p: Part, x: int,
                     ghost j: Scan, ghost lo: Cell, ghost hi: Cell, ghost v0: map<Cell, bool>, ghost t: map<Cell, seq<Bond>>,
                     bonds: seq<Bond>)
      returns (r: seq<Bond>)
      modifies this`visited
      requires j == ScanOf(two, s1, s2) && Walking(j, p, lo, hi, v0, t) && dims == j.dims
      requires lo.x <= x < hi.x
      requires DoneAt(visited, v0, dims, p, Cell(x, lo.y, lo.z))
      ensures DoneAt(visited, v0, dims, p, Cell(x, hi.y, lo.z))
      ensures r == bonds + YWalk(t, lo, hi, x, hi.y)
    {
      assert YWalk(t, lo, hi, x, lo.y) == [];
      assert bonds + [] == bonds;
      r := bonds;
      for y := PartLo(p).y to PartHi(dims, p).y
        invariant j == ScanOf(two, s1, s2)
        invariant DoneAt(visited, v0, dims, p, Cell(x, y, lo.z))
        invariant r == bonds + YWalk(t, lo, hi, x, y)
      {
        r := PlaneStep(two, s1, s2, p, x, y, j, lo, hi, v0, t, bonds, r);
      }
    }

    /** One turn of the middle loop of do_part1/do_part2: column (x, y) joins the walk. */
    method PlaneStep(two: bool, s1: Points, s2: Points, p: Part, x: int, y: int,
                     ghost j: Scan, ghost lo: Cell, ghost hi: Cell, ghost v0: map<Cell, bool>, ghost t: map<Cell, seq<Bond>>,
                     ghost bonds: seq<Bond>, r: seq<Bond>)
      returns (r': seq<Bond>)
      modifies this`visited
      requires j == ScanOf(two, s1, s2) && Walking(j, p, lo, hi, v0, t) && dims == j.dims
      requires lo.x <= x < hi.x && lo.y <= y < hi.y
      requires DoneAt(visited, v0, dims, p, Cell(x, y, lo.z))
      requires r == bonds + YWalk(t, lo, hi, x, y)
      ensures DoneAt(visited, v0, dims, p, Cell(x, y + 1, lo.z))
      ensures r' == bonds + YWalk(t, lo, hi, x, y + 1)
    {
      r' := PartColumn(two, s1, s2, p, x, y, j, lo, hi, v0, t, r);
      DoneColumn(visited, v0, dims, p, lo, hi, x, y);
      YWalkStep(t, lo, hi, x, y, bonds);
    }

    /** One turn of the outer loop of do_part1/do_part2: plane x joins the walk. */
    method BoxStep(two: bool, s1: Points, s2: Points, p: Part, x: int,
                   ghost j: Scan, ghost lo: Cell, ghost hi: Cell, ghost v0: map<Cell, bool>, ghost t: map<Cell, seq<Bond>>,
                   r: seq<Bond>)
      returns (r': seq<Bond>)
      modifies this`visited
      requires j == ScanOf(two, s1, s2) && Walking(j, p, lo, hi, v0, t) && dims == j.dims
      requires lo.x <= x < hi.x
      requires DoneAt(visited, v0, dims, p, Cell(x, lo.y, lo.z))
      requires r == [] + XWalk(t, lo, hi, x)
      ensures DoneAt(visited, v0, dims, p, Cell(x + 1, lo.y, lo.z))
      ensures r' == [] + XWalk(t, lo, hi, x + 1)
    {
      r' := PartPlane(two, s1, s2, p, x, j, lo, hi, v0, t, r);
      DonePlane(visited, v0, dims, p, lo, hi, x);
      XWalkStep(t, lo, hi, x, []);
    }

    /**
     * do_part1, or do_part2 for two selections, run alone: the cells of
     * part p in loop order, each cell compared with the neighbours the part
     * compares; every cell of the part ends visited.
     */
    method DoPart(two: bool, s1: Points, s2: Points, p: Part) returns (bon: seq<Bond>)
      modifies this`visited
      requires ScanOk(ScanOf(two, s1, s2)) && PartOk(dims, p) && Fresh(visited, dims, p)
      ensures visited == map c | c in old(visited) :: old(visited)[c] || InPart(dims, p, c)
      ensures bon == PartBonds(ScanOf(two, s1, s2), p)
    {
      ghost var j := ScanOf(two, s1, s2);
      ghost var t := BondTable(j, p);
      ghost var v0 := visited;
      ghost var lo, hi := PartLo(p), PartHi(dims, p);
      WalkingStart(j, p, lo, hi, v0, t);
      DoneStart(v0, dims, p);
      bon := WalkPart(two, s1, s2, p, j, lo, hi, v0, t);
      DoneEnd(visited, v0, dims, p, lo, hi);
    }

    /** The three loops of do_part1/do_part2 over the cells of part p. */
    method WalkPart(two: bool, s1: Points, s2: Points, p: Part,
                     ghost j: Scan, ghost lo: Cell, ghost hi: Cell, ghost v0: map<Cell, bool>, ghost t: map<Cell, seq<Bond>>)
      returns (bon: seq<Bond>)
      modifies this`visited
      requires j == ScanOf(two, s1, s2) && Walking(j, p, lo, hi, v0, t) && dims == j.dims
      requires DoneAt(visited, v0, dims, p, lo)
      ensures DoneAt(visited, v0, dims, p, Cell(hi.x, lo.y, lo.z))
      ensures bon == [] + XWalk(t, lo, hi, hi.x)
    {
      bon := [];
      assert bon == [] + XWalk(t, lo, hi, lo.x);
      for x := PartLo(p).x to PartHi(dims, p).x
        invariant j == ScanOf(two, s1, s2)
        invariant DoneAt(visited, v0, dims, p, Cell(x, lo.y, lo.z))
        invariant bon == [] + XWalk(t, lo, hi, x)
      {
        bon := BoxStep(two, s1, s2, p, x, j, lo, hi, v0, t, bon);
      }
    }

    /**
     * do_search (both overloads): clear the visited flags, then search the
     * whole grid serially, or split its longest axis into nt ranges
     * [b[i], e[i]) and collect the reports of the parts in thread order.
     * The threads may run in any interleaving: each part reads and writes
     * only its own visited flags, so running them one after the other gives
     * the same result.
     */
    method DoSearch(two: bool, s1: Points, s2: Points, hardware: int)
      returns (bon: seq<Bond>, b: seq<int>, e: seq<int>)
      modifies this`visited
      requires ScanOk(ScanOf(two, s1, s2)) && VisitedShaped(dims, visited)
      ensures VisitedShaped(dims, visited) && forall c :: c in visited ==> visited[c]
      ensures Searched(ScanOf(two, s1, s2), hardware, bon, b, e)
    {
      ResetVisited();
      ghost var j := ScanOf(two, s1, s2);
      var nt := ThreadCount(dims, hardware);
      if SearchBranch(nt) == Serial {
        ghost var v := visited;
        bon := DoPart(two, s1, s2, Whole(dims));
        WholeDone(v, visited, dims);
        b, e := [0], [dims.nx];
      } else {
        AllFresh(visited, dims, MaxDim(dims));
        bon, b, e := ThreadedSearch(two, s1, s2, nt);
      }
    }

    /** The parallel branch of do_search with nt threads, run one thread after the other. */
    method ThreadedSearch(two: bool, s1: Points, s2: Points, nt: int)
      returns (bon: seq<Bond>, b: seq<int>, e: seq<int>)
      modifies this`visited
      requires ScanOk(ScanOf(two, s1, s2)) && 1 <= nt
      requires VisitedBelow(visited, dims, MaxDim(dims), 0)
      ensures VisitedShaped(dims, visited) && forall c :: c in visited ==> visited[c]
      ensures var dim := MaxDim(dims);
        && |b| == nt && Partition(Extent(dims, dim), b, e)
        && (forall i :: 0 <= i < nt - 1 ==> e[i] - b[i] == Extent(dims, dim) / nt)
        && bon == PartsBonds(ScanOf(two, s1, s2), dim, b, e, nt)
    {
      ghost var j := ScanOf(two, s1, s2);
      var dim := MaxDim(dims);
      var total := Extent(dims, dim);
      b, e := PartitionRanges(total, nt);
      bon := [];
      ghost var front := 0;
      for i := 0 to nt
        invariant j == ScanOf(two, s1, s2)
        invariant VisitedBelow(visited, dims, dim, front)
        invariant front == if i < nt then b[i] else total
        invariant bon == PartsBonds(j, dim, b, e, i)
      {
        PartitionPart(dims, dim, b, e, i);
        FrontFresh(visited, dims, Part(dim, b[i], e[i]));
        ghost var v := visited;
        var part := DoPart(two, s1, s2, Part(dim, b[i], e[i]));
        FrontStep(v, visited, dims, Part(dim, b[i], e[i]));
        bon := bon + part;
        front := e[i];
      }
      AllVisited(visited, dims, dim, total);
    }

    /**
     * The contact-search constructor over one selection: the parameters,
     * grid1 created and populated from the selection, then do_search.
     */
    method SelfSearch(d: real, s: Selection, abs: bool, per: bool, hardware: int, fuel: nat)
      returns (bon: seq<Bond>, b: seq<int>, e: seq<int>)
      modifies this`cutoff, this`periodic, this`absIndex, this`box, this`dims, this`lo, this`hi, this`grid1,
        this`visited
      requires PointsOk(s.pts) && var bb := Bounds(per, s.box, d, s.low, s.high); Spread(bb.0, bb.1)
      ensures cutoff == d && periodic == per && absIndex == abs && box == s.box
      ensures (lo, hi) == Bounds(per, s.box, d, s.low, s.high) && LayoutOk(Layout())
      ensures Populated(Layout(), s.pts.coords, grid1)
      ensures ScanOk(ScanOf(false, s.pts, s.pts)) && Searched(ScanOf(false, s.pts, s.pts), hardware, bon, b, e)
    {
      GridOver(d, s, abs, per, fuel);
      bon, b, e := DoSearch(false, s.pts, s.pts, hardware);
    }

    /**
     * The contact-search constructor over two selections: create_grid2,
     * both grids populated, then do_search.  When the overlap of the widened
     * boxes is flat, create_grid2 returns before setting the grid extents or
     * allocating the grids, and the source goes on to populate and search
     * grids of indeterminate size; the model stops there instead, with no
     * contacts.
     */
    method PairSearch(d: real, s1: Selection, s2: Selection, abs: bool, per: bool, hardware: int, fuel: nat)
      returns (bon: seq<Bond>, b: seq<int>, e: seq<int>)
      modifies this`cutoff, this`periodic, this`absIndex, this`box, this`dims, this`lo, this`hi, this`grid1,
        this`grid2, this`visited
      requires PointsOk(s1.pts) && PointsOk(s2.pts) && d >= 0.0
      requires Ordered(s1.low, s1.high) && Ordered(s2.low, s2.high)
      requires per ==> Spread(Vec3(0.0, 0.0, 0.0), s1.box.extents)
      ensures cutoff == d && periodic == per && absIndex == abs && box == s1.box
      ensures !per && FirstFlat(lo, hi) < 3 ==> bon == []
      ensures per || FirstFlat(lo, hi) == 3 ==>
        && LayoutOk(Layout()) && Populated(Layout(), s1.pts.coords, grid1) && Populated(Layout(), s2.pts.coords, grid2)
        && ScanOk(ScanOf(true, s1.pts, s2.pts)) && Searched(ScanOf(true, s1.pts, s2.pts), hardware, bon, b, e)
    {
      var ready := GridsOver(d, s1, s2, abs, per, fuel);
      if !ready {
        bon, b, e := [], [], [];
        return;
      }
      bon, b, e := DoSearch(true, s1.pts, s2.pts, hardware);
    }

    // -------------------------------------------------------------------------
    // search_within(point)

    /** The cell search_within(point) puts q in, binned as populate_grid bins the atoms. */
    method QueryCell(q: Vec3) returns (r: Option<Cell>)
      requires LayoutOk(Layout())
      ensures r == CellOf(Layout(), q)
    {
      var coor := q;
      if periodic && box.triclinic {
        coor := labToBox(box, coor);
      }
      var n1 := RawBin(dims.nx, coor.x, lo.x, hi.x);
      var n2 := RawBin(dims.ny, coor.y, lo.y, hi.y);
      var n3 := RawBin(dims.nz, coor.z, lo.z, hi.z);
      if periodic {
        n1 := WrapIndex(n1, dims.nx);
        n2 := WrapIndex(n2, dims.ny);
        n3 := WrapIndex(n3, dims.nz);
      } else if n1 < 0 || n1 >= dims.nx || n2 < 0 || n2 >= dims.ny || n3 < 0 || n3 >= dims.nz {
        return None;
      }
      return Some(Cell(n1, n2, n3));
    }

    /**
     * search_within(point), with the point binned as populate_grid bins the
     * atoms: the source points within cutoff of q in the cell of q and in
     * its neighbours, in nlist order.  Without periodicity a point outside
     * the grid finds nothing.  The distances are measured from q itself;
     * as written they are measured from lab_to_box(q) on a periodic
     * triclinic box (GridWithin.PointSearchAsWritten).
     */
    method SearchWithinPoint(q: Vec3) returns (bon: seq<int>)
      modifies this`nlist
      requires LayoutOk(Layout()) && ScanOk(ScanOf(false, sel, sel))
      ensures bon == PointSearch(Layout(), ScanOf(false, sel, sel), q)
    {
      var j := ScanOf(false, sel, sel);
      var cell := QueryCell(q);
      if cell.None? {
        return [];
      }
      var c := cell.value;
      CellOfInGrid(Layout(), q);
      GetNlist(c);
      nlist := nlist + [c];
      bon := PointCellHits(j, c, q, nlist);
    }

    /** The loop over the cells of nl, the neighbours of c and c itself, against q. */
    method PointCellHits(j: Scan, c: Cell, q: Vec3, nl: seq<Cell>) returns (bon: seq<int>)
      requires ScanOk(j) && InGrid(j.dims, c) && nl == Around(j.dims, j.periodic, c)
      ensures bon == PointHits(j, c, q, |nl|)
    {
      AroundInGrid(j.dims, j.periodic, c);
      bon := [];
      for i := 0 to |nl|
        invariant bon == PointHits(j, c, q, i)
      {
        CellEntries(j.g1, |j.s1.coords|, nl[i]);
        var hits := EntryHitsIn(j, j.g1[nl[i]], q);
        bon := bon + hits;
      }
    }

    // -------------------------------------------------------------------------
    // search_within(target)

    /** j is the scan of search_within(target): grid1 over sel as it was, grid2 over target. */
    ghost predicate TargetScan(j: Scan, target: Points)
      reads this`dims, this`periodic, this`box, this`cutoff, this`absIndex, this`sel, this`grid2
    {
      && ScanOk(j) && j.dims == dims && j.periodic == periodic && j.m == Metric() && j.abs == absIndex
      && j.s1 == sel && j.s2 == target && j.g2 == grid2
    }

    /**
     * The loop over the entries of source cell nb for target point b of
     * cell c: an entry not marked yet whose point is within cutoff of coor1
     * is reported and marked by negating it in grid1 (an entry 0 stays
     * unmarked, since -0 is 0).
     */
    method MarkEntries(ghost j: Scan, ghost c: Cell, nb: Cell, ghost b: int, coor1: Vec3, raw: seq<int>)
      returns (raw': seq<int>)
      modifies this`grid1
      requires ScanOk(j) && j.s1 == sel && j.m == Metric() && j.abs == absIndex
      requires c in j.g2 && b in j.g2[c] && 0 <= b < |j.s2.coords| && coor1 == j.s2.coords[b]
      requires nb in j.g1 && nb in Around(j.dims, j.periodic, c)
      requires Marks(grid1, j, raw) && Sound(j, raw)
      ensures Marks(grid1, j, raw') && Sound(j, raw') && Grows(raw, raw')
      ensures forall a :: a in j.g1[nb] && 0 <= a < |j.s1.coords| && Close(j.m, j.s1.coords[a], coor1) ==>
        Label(j.s1, j.abs, a) in raw'
    {
      raw' := raw;
      CellEntries(j.g1, |j.s1.coords|, nb);
      for n1 := 0 to |grid1[nb]|
        invariant Marks(grid1, j, raw') && Sound(j, raw') && Grows(raw, raw')
        invariant forall k :: 0 <= k < n1 && Close(j.m, j.s1.coords[j.g1[nb][k]], coor1) ==>
          Label(j.s1, j.abs, j.g1[nb][k]) in raw'
      {
        ghost var prev := raw';
        raw' := MarkStep(j, c, nb, b, coor1, n1, raw');
        GrowsChain(raw, prev, raw');
      }
    }

    /** One entry n1 of source cell nb: skipped when marked, else reported and marked when within cutoff. */
    method MarkStep(ghost j: Scan, ghost c: Cell, nb: Cell, ghost b: int, coor1: Vec3, n1: int, raw: seq<int>)
      returns (raw': seq<int>)
      modifies this`grid1
      requires ScanOk(j) && j.s1 == sel && j.m == Metric() && j.abs == absIndex
      requires c in j.g2 && b in j.g2[c] && 0 <= b < |j.s2.coords| && coor1 == j.s2.coords[b]
      requires nb in j.g1 && nb in Around(j.dims, j.periodic, c) && 0 <= n1 < |j.g1[nb]|
      requires Marks(grid1, j, raw) && Sound(j, raw)
      ensures Marks(grid1, j, raw') && Sound(j, raw') && Grows(raw, raw')
      ensures 0 <= j.g1[nb][n1] < |j.s1.coords| && (Close(j.m, j.s1.coords[j.g1[nb][n1]], coor1) ==>
        Label(j.s1, j.abs, j.g1[nb][n1]) in raw')
    {
      raw' := raw;
      ghost var e := j.g1[nb][n1];
      assert 0 <= e < |j.s1.coords| && MarkOk(grid1[nb][n1], j, e, raw);
      if grid1[nb][n1] < 0 {
        return;
      }
      var v := grid1[nb][n1];
      assert v == e;
      if Close(Metric(), sel.coords[v], coor1) {
        raw' := ReportAndMark(j, c, nb, b, n1, raw);
      }
    }

    /** Entry n1 of source cell nb, unmarked and within cutoff of target point b: its label reported, the entry marked. */
    method ReportAndMark(ghost j: Scan, ghost c: Cell, nb: Cell, ghost b: int, n1: int, raw: seq<int>)
      returns (raw': seq<int>)
      modifies this`grid1
      requires ScanOk(j) && j.s1 == sel && j.abs == absIndex
      requires c in j.g2 && b in j.g2[c] && 0 <= b < |j.s2.coords|
      requires nb in j.g1 && nb in Around(j.dims, j.periodic, c) && 0 <= n1 < |j.g1[nb]|
      requires Marks(grid1, j, raw) && Sound(j, raw) && grid1[nb][n1] == j.g1[nb][n1]
      requires 0 <= j.g1[nb][n1] < |j.s1.coords| && Close(j.m, j.s1.coords[j.g1[nb][n1]], j.s2.coords[b])
      ensures Marks(grid1, j, raw') && Sound(j, raw') && Grows(raw, raw')
      ensures raw' == raw + [Label(j.s1, j.abs, j.g1[nb][n1])]
    {
      var v := grid1[nb][n1];
      var g := grid1;
      EntryWitness(j, c, nb, n1, b);
      SoundSnoc(j, raw, Label(j.s1, j.abs, v), c, nb, v, b);
      raw' := raw + [Label(sel, absIndex, v)];
      MarksGrow(g, j, raw, raw');
      MarkOne(g, j, raw', nb, n1);
      grid1 := g[nb := g[nb][n1 := -g[nb][n1]]];
    }

    /** The loops over the target points of cell c against the entries of source cell nb. */
    method PairTargets(ghost j: Scan, target: Points, c: Cell, nb: Cell, raw: seq<int>) returns (raw': seq<int>)
      modifies this`grid1
      requires TargetScan(j, target) && c in j.g2 && nb in j.g1 && nb in Around(j.dims, j.periodic, c)
      requires Marks(grid1, j, raw) && Sound(j, raw)
      ensures Marks(grid1, j, raw') && Sound(j, raw') && Grows(raw, raw') && DoneIn(j, raw', c, [nb])
    {
      raw' := raw;
      if |grid1[nb]| == 0 {
        return;
      }
      var ts := grid2[c];
      CellEntries(grid2, |target.coords|, c);
      for n2 := 0 to |ts|
        invariant TargetScan(j, target)
        invariant Marks(grid1, j, raw') && Sound(j, raw') && Grows(raw, raw')
        invariant forall x, a, b :: b in ts[..n2] && Witness(j, x, c, nb, a, b) ==> x in raw'
      {
        raw' := PointStep(j, target, c, nb, ts, n2, raw, raw');
      }
      assert ts[..|ts|] == ts;
    }

    /** One target point ts[n2] of cell c against the entries of source cell nb. */
    method PointStep(ghost j: Scan, target: Points, c: Cell, nb: Cell, ts: seq<int>, n2: int,
                      ghost raw: seq<int>, cur: seq<int>) returns (cur': seq<int>)
      modifies this`grid1
      requires TargetScan(j, target) && c in j.g2 && nb in j.g1 && nb in Around(j.dims, j.periodic, c)
      requires ts == j.g2[c] && 0 <= n2 < |ts| && InRange(ts, |target.coords|)
      requires Marks(grid1, j, cur) && Sound(j, cur) && Grows(raw, cur)
      requires forall x, a, b :: b in ts[..n2] && Witness(j, x, c, nb, a, b) ==> x in cur
      ensures TargetScan(j, target) && Marks(grid1, j, cur') && Sound(j, cur') && Grows(raw, cur')
      ensures forall x, a, b :: b in ts[..n2 + 1] && Witness(j, x, c, nb, a, b) ==> x in cur'
    {
      assert ts[n2] in j.g2[c];
      cur' := MarkEntries(j, c, nb, ts[n2], target.coords[ts[n2]], cur);
      GrowsChain(raw, cur, cur');
      assert ts[..n2 + 1] == ts[..n2] + [ts[n2]];
    }

    /** One target cell: skipped when it has no points, else searched against its neighbours and itself. */
    method CellTargets(ghost j: Scan, target: Points, c: Cell, raw: seq<int>) returns (raw': seq<int>)
      modifies this`grid1, this`nlist
      requires TargetScan(j, target) && InGrid(dims, c)
      requires Marks(grid1, j, raw) && Sound(j, raw)
      ensures Marks(grid1, j, raw') && Sound(j, raw') && Grows(raw, raw') && CellDone(j, raw', c)
    {
      raw' := raw;
      if |grid2[c]| == 0 {
        CellDoneEmpty(j, raw, c);
        return;
      }
      GetNlist(c);
      nlist := nlist + [c];
      var nl := nlist;
      AroundInGrid(dims, periodic, c);
      DoneInNone(j, raw, c);
      for k := 0 to |nl|
        invariant Marks(grid1, j, raw') && Sound(j, raw') && Grows(raw, raw') && DoneIn(j, raw', c, nl[..k])
      {
        ghost var prev := raw';
        assert nl[k] in Around(j.dims, j.periodic, c);
        raw' := PairTargets(j, target, c, nl[k], raw');
        GrowsChain(raw, prev, raw');
        DoneInGrow(j, prev, raw', c, nl[..k]);
        DoneInSnoc(j, raw', c, nl[..k], nl[k]);
        assert nl[..k + 1] == nl[..k] + [nl[k]];
      }
      assert nl[..|nl|] == nl;
    }

    /** One turn of the z loop over the target cells. */
    method TargetStep(ghost j: Scan, target: Points, x: int, y: int, z: int, raw: seq<int>) returns (raw': seq<int>)
      modifies this`grid1, this`nlist
      requires TargetScan(j, target) && InGrid(dims, Cell(x, y, z))
      requires Marks(grid1, j, raw) && Sound(j, raw) && AllDone(j, raw, Swept(dims, Whole(dims), Cell(x, y, z)))
      ensures Marks(grid1, j, raw') && Sound(j, raw') && AllDone(j, raw', Swept(dims, Whole(dims), Cell(x, y, z + 1)))
    {
      raw' := CellTargets(j, target, Cell(x, y, z), raw);
      AllDoneAdd(j, raw, raw', Swept(dims, Whole(dims), Cell(x, y, z)), Cell(x, y, z));
      SweptStep(dims, Whole(dims), Cell(x, y, z), Cell(x, y, z + 1));
    }

    /** The z loop over the target cells at x and y. */
    method TargetColumn(ghost j: Scan, target: Points, x: int, y: int, raw: seq<int>) returns (raw': seq<int>)
      modifies this`grid1, this`nlist
      requires TargetScan(j, target) && 0 <= x < dims.nx && 0 <= y < dims.ny
      requires Marks(grid1, j, raw) && Sound(j, raw) && AllDone(j, raw, Swept(dims, Whole(dims), Cell(x, y, 0)))
      ensures Marks(grid1, j, raw') && Sound(j, raw') && AllDone(j, raw', Swept(dims, Whole(dims), Cell(x, y, dims.nz)))
    {
      raw' := raw;
      for z := 0 to dims.nz
        invariant Marks(grid1, j, raw') && Sound(j, raw') && AllDone(j, raw', Swept(dims, Whole(dims), Cell(x, y, z)))
      {
        raw' := TargetStep(j, target, x, y, z, raw');
      }
    }

    /** The y loop over the target cells at x. */
    method TargetPlane(ghost j: Scan, target: Points, x: int, raw: seq<int>) returns (raw': seq<int>)
      modifies this`grid1, this`nlist
      requires TargetScan(j, target) && 0 <= x < dims.nx
      requires Marks(grid1, j, raw) && Sound(j, raw) && AllDone(j, raw, Swept(dims, Whole(dims), Cell(x, 0, 0)))
      ensures Marks(grid1, j, raw') && Sound(j, raw') && AllDone(j, raw', Swept(dims, Whole(dims), Cell(x + 1, 0, 0)))
    {
      raw' := raw;
      ghost var lo, hi := PartLo(Whole(dims)), PartHi(dims, Whole(dims));
      for y := 0 to dims.ny
        invariant Marks(grid1, j, raw') && Sound(j, raw') && AllDone(j, raw', Swept(dims, Whole(dims), Cell(x, y, 0)))
      {
        raw' := TargetColumn(j, target, x, y, raw');
        SweptColumn(dims, Whole(dims), lo, hi, x, y);
      }
      SweptPlane(dims, Whole(dims), lo, hi, x);
    }

    /** The loops of search_within(target) over every cell of grid2, from an unmarked grid1. */
    method TargetSweep(ghost j: Scan, target: Points) returns (raw: seq<int>)
      modifies this`grid1, this`nlist
      requires TargetScan(j, target) && grid1 == j.g1
      ensures Marks(grid1, j, raw) && Sound(j, raw) && AllDone(j, raw, CellsOf(dims))
    {
      raw := [];
      SoundNone(j);
      ghost var lo, hi := PartLo(Whole(dims)), PartHi(dims, Whole(dims));
      SweptStart(dims, Whole(dims));
      AllDoneStart(j, raw);
      for x := 0 to dims.nx
        invariant Marks(grid1, j, raw) && Sound(j, raw) && AllDone(j, raw, Swept(dims, Whole(dims), Cell(x, 0, 0)))
      {
        raw := TargetPlane(j, target, x, raw);
      }
      SweptEnd(dims, Whole(dims), lo, hi);
      BelowEnds(dims, 0);
    }

    /** The restore loop over the entries of cell c: every entry back to its absolute value. */
    method RestoreCell(ghost g0: Grid, c: Cell)
      modifies this`grid1
      requires Signs(grid1, g0) && c in grid1 && EntriesIn(g0, |sel.coords|)
      ensures Signs(grid1, g0) && grid1 == old(grid1)[c := g0[c]]
    {
      for n1 := 0 to |grid1[c]|
        invariant c in grid1 && grid1 == old(grid1)[c := grid1[c]] && |grid1[c]| == |g0[c]|
        invariant forall k :: 0 <= k < n1 ==> grid1[c][k] == g0[c][k]
        invariant forall k :: n1 <= k < |grid1[c]| ==> grid1[c][k] == old(grid1)[c][k]
      {
        var v := grid1[c][n1];
        grid1 := grid1[c := grid1[c][n1 := if v < 0 then -v else v]];
      }
      assert grid1[c] == g0[c];
    }

    /** The restore loops of search_within(target): grid1 as it was before the marks. */
    method RestoreMarks(ghost g0: Grid)
      modifies this`grid1
      requires DimsOk(dims) && Shaped(dims, g0) && EntriesIn(g0, |sel.coords|) && Signs(grid1, g0)
      ensures grid1 == g0
    {
      var d := dims;
      for x := 0 to d.nx
        invariant Signs(grid1, g0)
        invariant forall c :: c in grid1 && c.x < x ==> grid1[c] == g0[c]
      {
        for y := 0 to d.ny
          invariant Signs(grid1, g0)
          invariant forall c :: c in grid1 && (c.x < x || (c.x == x && c.y < y)) ==> grid1[c] == g0[c]
        {
          for z := 0 to d.nz
            invariant Signs(grid1, g0)
            invariant forall c :: c in grid1 && (c.x < x || (c.x == x && (c.y < y || (c.y == y && c.z < z)))) ==> grid1[c] == g0[c]
          {
            RestoreCell(g0, Cell(x, y, z));
          }
        }
      }
      assert forall c :: c in grid1 ==> grid1[c] == g0[c];
    }

    /**
     * search_within(target): grid2 populated from the target, every
     * target cell searched with hits marked in grid1, grid1 restored, then
     * the result assembled.  The result is that of the unmarked search: the
     * marks only spare repeated reports.
     */
    method SearchWithinTarget(target: Points, includeSelf: bool) returns (bon: seq<int>)
      modifies this`grid1, this`grid2, this`nlist
      requires LayoutOk(Layout()) && PointsOk(sel) && PointsOk(target)
      requires Shaped(dims, grid1) && EntriesIn(grid1, |sel.coords|)
      ensures grid1 == old(grid1) && Populated(Layout(), target.coords, grid2) && ScanOk(ScanOf(true, sel, target))
      ensures bon == TargetResult(WithinHits(ScanOf(true, sel, target)), target.index, includeSelf)
    {
      PopulateTarget(target.coords);
      ghost var j := ScanOf(true, sel, target);
      assert TargetScan(j, target);
      var raw := TargetHits(j, target);
      TargetResultSame(raw, WithinHits(j), target.index, includeSelf);
      bon := TargetTail(raw, target.index, includeSelf);
    }

    /** The loops of search_within(target) and the restore of grid1: the labels reported are those of WithinHits. */
    method TargetHits(ghost j: Scan, target: Points) returns (raw: seq<int>)
      modifies this`grid1, this`nlist
      requires TargetScan(j, target) && grid1 == j.g1
      ensures grid1 == j.g1 && forall x :: x in raw <==> x in WithinHits(j)
    {
      raw := TargetSweep(j, target);
      MarksSigns(grid1, j, raw);
      RestoreMarks(j.g1);
      ReportedExactly(j, raw);
    }

    /** The start of search_within(target): grid2 resized and populated from the target points. */
    method PopulateTarget(pts: seq<Vec3>)
      modifies this`grid2
      requires LayoutOk(Layout())
      ensures Populated(Layout(), pts, grid2) && Shaped(dims, grid2) && EntriesIn(grid2, |pts|)
    {
      grid2 := Resized(grid2, dims);
      grid2 := PopulateGrid(grid2, pts);
      PopulatedEntries(Layout(), pts, grid2);
    }

    // -------------------------------------------------------------------------
    // The within constructor

    /** The scan of the within constructor: grid_coor1 over src, grid_coor2 over target. */
    function CoorScan(s1: Points, s2: Points): Scan
      reads this`dims, this`periodic, this`box, this`cutoff, this`absIndex, this`coor1, this`coor2
    {
      Scan(dims, periodic, Metric(), absIndex, true, coor1, coor2, s1, s2)
    }

    /**
     * One cell of do_part_within_fast: the source points of cell c against
     * the target points of c, then of every neighbour of c.
     */
    method WithinCell(s1: Points, s2: Points, c: Cell, u: seq<bool>) returns (u': seq<bool>)
      requires ScanOk(CoorScan(s1, s2)) && InGrid(dims, c) && |u| == |s1.coords|
      ensures |u'| == |u| && forall i :: 0 <= i < |u| ==> (u'[i] <==> u[i] || FlagVia(CoorScan(s1, s2), i, c))
    {
      var j := CoorScan(s1, s2);
      u' := SearchInPairOfCells(j, c, c, u);
      forall i | 0 <= i < |u| ensures FlagFrom(j, i, c, [c]) <==> PairFlag(j, i, c, c) {
        FlagFromNone(j, i, c);
        FlagFromSnoc(j, i, c, [], c);
      }
      var nl := NlistLocal(c);
      NeighboursInGrid(dims, periodic, c);
      for k := 0 to |nl|
        invariant |u'| == |u|
        invariant forall i :: 0 <= i < |u| ==> (u'[i] <==> u[i] || FlagFrom(j, i, c, [c] + nl[..k]))
      {
        u' := SearchInPairOfCells(j, c, nl[k], u');
        forall i | 0 <= i < |u|
          ensures FlagFrom(j, i, c, [c] + nl[..k + 1]) <==> FlagFrom(j, i, c, [c] + nl[..k]) || PairFlag(j, i, c, nl[k])
        {
          assert [c] + nl[..k + 1] == ([c] + nl[..k]) + [nl[k]];
          FlagFromSnoc(j, i, c, [c] + nl[..k], nl[k]);
        }
      }
      forall i | 0 <= i < |u| ensures FlagFrom(j, i, c, [c] + nl[..|nl|]) <==> FlagVia(j, i, c) {
        assert nl[..|nl|] == nl;
        FlagFromSame(j, i, c, [c] + nl, Around(dims, periodic, c));
      }
    }

    /** The innermost loop of do_part_within_fast (over z) at x and y. */
    method WithinColumn(s1: Points, s2: Points, p: Part, x: int, y: int, ghost lo: Cell, ghost hi: Cell,
                        ghost u0: seq<bool>, u: seq<bool>) returns (u': seq<bool>)
      requires Sweeping(CoorScan(s1, s2), p, lo, hi) && lo.x <= x < hi.x && lo.y <= y < hi.y
      requires UsedBy(u, u0, CoorScan(s1, s2), Swept(dims, p, Cell(x, y, lo.z))) && |u0| == |s1.coords|
      ensures UsedBy(u', u0, CoorScan(s1, s2), Swept(dims, p, Cell(x, y, hi.z)))
    {
      u' := u;
      for z := PartLo(p).z to PartHi(dims, p).z
        invariant UsedBy(u', u0, CoorScan(s1, s2), Swept(dims, p, Cell(x, y, z)))
      {
        u' := WithinStep(s1, s2, p, x, y, z, lo, hi, u0, u');
      }
    }

    /** One turn of the z loop: cell (x, y, z) searched and added to the swept cells. */
    method WithinStep(s1: Points, s2: Points, p: Part, x: int, y: int, z: int, ghost lo: Cell, ghost hi: Cell,
                      ghost u0: seq<bool>, u: seq<bool>) returns (u': seq<bool>)
      requires Sweeping(CoorScan(s1, s2), p, lo, hi) && lo.x <= x < hi.x && lo.y <= y < hi.y && lo.z <= z < hi.z
      requires UsedBy(u, u0, CoorScan(s1, s2), Swept(dims, p, Cell(x, y, z))) && |u0| == |s1.coords|
      ensures UsedBy(u', u0, CoorScan(s1, s2), Swept(dims, p, Cell(x, y, z + 1)))
    {
      PartBox(dims, p, Cell(x, y, z));
      u' := WithinCell(s1, s2, Cell(x, y, z), u);
      UsedByCell(u, u', u0, CoorScan(s1, s2), Swept(dims, p, Cell(x, y, z)), Cell(x, y, z));
      SweptStep(dims, p, Cell(x, y, z), Cell(x, y, z + 1));
    }

    /** The middle loop of do_part_within_fast (over y) at x. */
    method WithinPlane(s1: Points, s2: Points, p: Part, x: int, ghost lo: Cell, ghost hi: Cell,
                       ghost u0: seq<bool>, u: seq<bool>) returns (u': seq<bool>)
      requires Sweeping(CoorScan(s1, s2), p, lo, hi) && lo.x <= x < hi.x
      requires UsedBy(u, u0, CoorScan(s1, s2), Swept(dims, p, Cell(x, lo.y, lo.z))) && |u0| == |s1.coords|
      ensures UsedBy(u', u0, CoorScan(s1, s2), Swept(dims, p, Cell(x, hi.y, lo.z)))
    {
      ghost var j := CoorScan(s1, s2);
      u' := u;
      for y := PartLo(p).y to PartHi(dims, p).y
        invariant UsedBy(u', u0, j, Swept(dims, p, Cell(x, y, lo.z)))
      {
        u' := WithinColumn(s1, s2, p, x, y, lo, hi, u0, u');
        SweptColumn(dims, p, lo, hi, x, y);
      }
    }

    /**
     * do_part_within_fast: every source cell of part p, in loop order; the
     * flags come out raised for every source point some cell of the part flags.
     */
    method DoPartWithinFast(s1: Points, s2: Points, p: Part, u: seq<bool>) returns (u': seq<bool>)
      requires ScanOk(CoorScan(s1, s2)) && PartOk(dims, p) && |u| == |s1.coords|
      ensures UsedBy(u', u, CoorScan(s1, s2), PartCells(dims, p))
    {
      ghost var j := CoorScan(s1, s2);
      ghost var lo, hi := PartLo(p), PartHi(dims, p);
      SweptStart(dims, p);
      UsedByNone(u, j);
      u' := u;
      for x := PartLo(p).x to PartHi(dims, p).x
        invariant UsedBy(u', u, j, Swept(dims, p, Cell(x, lo.y, lo.z)))
      {
        u' := WithinPlane(s1, s2, p, x, lo, hi, u, u');
        SweptPlane(dims, p, lo, hi, x);
      }
      SweptEnd(dims, p, lo, hi);
    }

    /**
     * The search part of the within constructor: the longest axis split
     * between nt threads when nt > 1, else one part over the whole grid.
     */
    method WithinSweep(s1: Points, s2: Points, hardware: int, u: seq<bool>) returns (u': seq<bool>)
      requires ScanOk(CoorScan(s1, s2)) && |u| == |s1.coords|
      ensures UsedBy(u', u, CoorScan(s1, s2), CellsOf(dims))
    {
      ghost var j := CoorScan(s1, s2);
      var dim := MaxDim(dims);
      var total := Extent(dims, dim);
      var nt := ThreadCount(dims, hardware);
      BelowEnds(dims, dim);
      if nt > 1 {
        var b, e := PartitionRanges(total, nt);
        UsedByNone(u, j);
        u' := u;
        ghost var front := 0;
        for i := 0 to nt
          invariant UsedBy(u', u, j, CellsBelow(dims, dim, front))
          invariant front == if i < nt then b[i] else total
        {
          PartitionPart(dims, dim, b, e, i);
          ghost var prev := u';
          u' := DoPartWithinFast(s1, s2, Part(dim, b[i], e[i]), u');
          UsedByChain(u, prev, u', j, CellsBelow(dims, dim, front), PartCells(dims, Part(dim, b[i], e[i])));
          BelowStep(dims, Part(dim, b[i], e[i]));
          front := e[i];
        }
      } else {
        u' := DoPartWithinFast(s1, s2, Part(dim, 0, total), u);
      }
    }

    /**
     * The grid creation of the within constructor, as create_grid2 but for
     * grid_coor1 and grid_coor2 and with the grid size chosen for the
     * larger of the two selections rather than for both together.
     */
    method CreateCoorGrids(s1: Selection, s2: Selection, fuel: nat)
      modifies this`dims, this`lo, this`hi, this`coor1, this`coor2
      requires cutoff >= 0.0 && Ordered(s1.low, s1.high) && Ordered(s2.low, s2.high)
      requires periodic ==> Spread(Vec3(0.0, 0.0, 0.0), box.extents)
      ensures !periodic ==>
        var ol := OverlapLow(Halo(s1.low, -cutoff), Halo(s1.high, cutoff), Halo(s2.low, -cutoff), Halo(s2.high, cutoff));
        var oh := OverlapHigh(Halo(s1.low, -cutoff), Halo(s1.high, cutoff), Halo(s2.low, -cutoff), Halo(s2.high, cutoff));
        var k := FirstFlat(ol, oh);
        && lo == Upto(old(lo), ol, k) && hi == Upto(old(hi), oh, k)
        && (k < 3 ==> dims == old(dims) && coor1 == old(coor1) && coor2 == old(coor2))
        && (k == 3 ==> Spread(lo, hi))
      ensures periodic ==> lo == Vec3(0.0, 0.0, 0.0) && hi == box.extents
      ensures periodic || FirstFlat(lo, hi) == 3 ==>
        DimsOk(dims) && coor1 == Resized(old(coor1), dims) && coor2 == Resized(old(coor2), dims)
    {
      var low, high;
      if !periodic {
        var flat := WidenedOverlap(s1, s2, cutoff);
        if flat {
          return;
        }
        low, high := lo, hi;
      } else {
        low, high := Vec3(0.0, 0.0, 0.0), box.extents;
      }
      var natoms := if |s1.pts.coords| >= |s2.pts.coords| then |s1.pts.coords| else |s2.pts.coords|;
      AllocateCoor(low, high, natoms, fuel);
    }

    /** The grid size, then grid_coor1 and grid_coor2 resized. */
    method AllocateCoor(low: Vec3, high: Vec3, natoms: int, fuel: nat)
      modifies this`dims, this`lo, this`hi, this`coor1, this`coor2
      requires Spread(low, high)
      ensures lo == low && hi == high && DimsOk(dims)
      ensures coor1 == Resized(old(coor1), dims) && coor2 == Resized(old(coor2), dims)
    {
      SetGridSize(low, high, natoms, fuel);
      coor1 := Resized(coor1, dims);
      coor2 := Resized(coor2, dims);
    }

    /**
     * The start of the within constructor: the parameters, the grids
     * created, then populate_coor_grid for both when they were allocated.
     */
    method CoorGrids(d: real, s1: Selection, s2: Selection, abs: bool, per: bool, fuel: nat) returns (ready: bool)
      modifies this`cutoff, this`periodic, this`absIndex, this`box, this`dims, this`lo, this`hi, this`coor1, this`coor2
      requires d >= 0.0 && Ordered(s1.low, s1.high) && Ordered(s2.low, s2.high)
      requires per ==> Spread(Vec3(0.0, 0.0, 0.0), s1.box.extents)
      ensures cutoff == d && periodic == per && absIndex == abs && box == s1.box
      ensures ready <==> per || FirstFlat(lo, hi) == 3
      ensures ready ==>
        && LayoutOk(Layout()) && Populated(Layout(), s1.pts.coords, coor1) && Populated(Layout(), s2.pts.coords, coor2)
        && EntriesIn(coor1, |s1.pts.coords|) && EntriesIn(coor2, |s2.pts.coords|)
    {
      cutoff, periodic, absIndex, box := d, per, abs, s1.box;
      CreateCoorGrids(s1, s2, fuel);
      if !periodic && FirstFlat(lo, hi) < 3 {
        return false;
      }
      PopulateCoor(s1.pts.coords, s2.pts.coords);
      return true;
    }

    /** populate_coor_grid for grid_coor1 from the source points and grid_coor2 from the target points. */
    method PopulateCoor(pts1: seq<Vec3>, pts2: seq<Vec3>)
      modifies this`coor1, this`coor2
      requires LayoutOk(Layout()) && Shaped(dims, coor1) && Shaped(dims, coor2)
      ensures Populated(Layout(), pts1, coor1) && Populated(Layout(), pts2, coor2)
      ensures EntriesIn(coor1, |pts1|) && EntriesIn(coor2, |pts2|)
    {
      coor1 := PopulateGrid(coor1, pts1);
      coor2 := PopulateGrid(coor2, pts2);
      PopulatedEntries(Layout(), pts1, coor1);
      PopulatedEntries(Layout(), pts2, coor2);
    }

    /**
     * The within constructor: the labels of the source points within
     * cutoff of some target point, ascending; with include_self joined by
     * the target indices without repeats, without it minus the target
     * indices.  When the grid cannot be made the caller's vector bon0 comes
     * back as it was, since it is cleared only after the grids are made.
     */
    method WithinSearch(d: real, src: Selection, target: Selection, bon0: seq<int>, includeSelf: bool, abs: bool,
                        per: bool, hardware: int, fuel: nat) returns (bon: seq<int>)
      modifies this`cutoff, this`periodic, this`absIndex, this`box, this`dims, this`lo, this`hi, this`coor1, this`coor2
      requires PointsOk(src.pts) && PointsOk(target.pts) && d >= 0.0
      requires Ordered(src.low, src.high) && Ordered(target.low, target.high)
      requires per ==> Spread(Vec3(0.0, 0.0, 0.0), src.box.extents)
      ensures cutoff == d && periodic == per && absIndex == abs && box == src.box
      ensures !per && FirstFlat(lo, hi) < 3 ==> bon == bon0
      ensures per || FirstFlat(lo, hi) == 3 ==>
        && LayoutOk(Layout()) && Populated(Layout(), src.pts.coords, coor1) && Populated(Layout(), target.pts.coords, coor2)
        && ScanOk(CoorScan(src.pts, target.pts))
        && bon == FastResultTail(FlaggedLabels(src.pts, abs, FlagsOf(CoorScan(src.pts, target.pts)), |src.pts.index|),
                                 target.pts.index, includeSelf)
    {
      var ready := CoorGrids(d, src, target, abs, per, fuel);
      if !ready {
        return bon0;
      }
      ghost var j := CoorScan(src.pts, target.pts);
      var used := seq(|src.pts.coords|, _ => false);
      var u := WithinSweep(src.pts, target.pts, hardware, used);
      UsedByAll(u, used, j);
      assert u == FlagsOf(j);
      var raw := UsedLabels(src.pts, abs, u);
      bon := FastResultTail(raw, target.pts.index, includeSelf);
    }

    /**
     * The start of the two-selection constructor: the parameters,
     * create_grid2, then both grids populated when it allocated them.
     */
    method GridsOver(d: real, s1: Selection, s2: Selection, abs: bool, per: bool, fuel: nat) returns (ready: bool)
      modifies this`cutoff, this`periodic, this`absIndex, this`box, this`dims, this`lo, this`hi, this`grid1,
        this`grid2, this`visited
      requires d >= 0.0 && Ordered(s1.low, s1.high) && Ordered(s2.low, s2.high)
      requires per ==> Spread(Vec3(0.0, 0.0, 0.0), s1.box.extents)
      ensures cutoff == d && periodic == per && absIndex == abs && box == s1.box
      ensures ready <==> per || FirstFlat(lo, hi) == 3
      ensures ready ==>
        && LayoutOk(Layout()) && Populated(Layout(), s1.pts.coords, grid1) && Populated(Layout(), s2.pts.coords, grid2)
        && EntriesIn(grid1, |s1.pts.coords|) && EntriesIn(grid2, |s2.pts.coords|) && VisitedShaped(dims, visited)
    {
      cutoff, periodic, absIndex, box := d, per, abs, s1.box;
      CreateGrid2(s1, s2, fuel);
      if !periodic && FirstFlat(lo, hi) < 3 {
        return false;
      }
      PopulateBoth(s1.pts.coords, s2.pts.coords);
      return true;
    }

    /** populate_grid for grid1 from the source points and grid2 from the target points. */
    method PopulateBoth(pts1: seq<Vec3>, pts2: seq<Vec3>)
      modifies this`grid1, this`grid2
      requires LayoutOk(Layout()) && Shaped(dims, grid1) && Shaped(dims, grid2)
      ensures Populated(Layout(), pts1, grid1) && Populated(Layout(), pts2, grid2)
      ensures EntriesIn(grid1, |pts1|) && EntriesIn(grid2, |pts2|)
    {
      grid1 := PopulateGrid(grid1, pts1);
      grid2 := PopulateGrid(grid2, pts2);
      PopulatedEntries(Layout(), pts1, grid1);
      PopulatedEntries(Layout(), pts2, grid2);
    }
  }
}
