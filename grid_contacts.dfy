/**
 * What a contact search reports, pair by pair.  do_search walks the cells of
 * each part of a split of the grid and asks get_central_* and get_side_* for
 * the contacts of a cell and of the neighbours it compares; the lemmas here
 * put those pieces together: a bond is reported exactly when two binned
 * positions are within the cutoff and the search meets them in the right
 * order, each pair once, with the same pairs whether the grid is searched
 * serially or split between threads.
 */
module GridContacts {
  import opened Wrappers
  import opened AtomData
  import opened GridCells
  import opened StdAlgorithms
  import opened GridPairs
  import opened GridWithin
  import opened GridSearch

  // ---------------------------------------------------------------------------
  // Splits of the grid

  /**
   * How a search divides the grid: the ranges [b[i], e[i]) of axis dim, one
   * per thread.  The serial search is the one range [0, nx) of axis 0.
   */
  datatype Split = Split(dim: int, b: seq<int>, e: seq<int>)

  predicate SplitOk(d: Dims, sp: Split) {
    0 <= sp.dim < 3 && Partition(Extent(d, sp.dim), sp.b, sp.e)
  }

  /** The split of the serial search. */
  function OnePart(d: Dims): (sp: Split)
    requires DimsOk(d)
    ensures SplitOk(d, sp)
  {
    Split(0, [0], [d.nx])
  }

  /** The range among the first n that holds v: the first one ending above v. */
  function Slot(e: seq<int>, v: int, n: int): (i: int)
    requires 1 <= n <= |e|
    ensures 0 <= i < n
    decreases n
  {
    if n == 1 then 0 else if v < e[n - 2] then Slot(e, v, n - 1) else n - 1
  }

  lemma {:induction false} SlotIn(total: int, b: seq<int>, e: seq<int>, v: int, n: int)
    requires Partition(total, b, e) && 0 <= v && 1 <= n <= |b| && v < e[n - 1]
    ensures b[Slot(e, v, n)] <= v < e[Slot(e, v, n)]
    decreases n
  {
    if n > 1 && v < e[n - 2] {
      SlotIn(total, b, e, v, n - 1);
    }
  }

  /** The part of the split that searches cell c. */
  function PartOf(d: Dims, sp: Split, c: Cell): (p: Part)
    requires SplitOk(d, sp) && InGrid(d, c)
    ensures PartOk(d, p) && InPart(d, p, c)
  {
    var i := Slot(sp.e, Coord(c, sp.dim), |sp.e|);
    SlotIn(Extent(d, sp.dim), sp.b, sp.e, Coord(c, sp.dim), |sp.e|);
    PartitionPart(d, sp.dim, sp.b, sp.e, i);
    Part(sp.dim, sp.b[i], sp.e[i])
  }

  /** The part holding a cell is the one range of the split around it. */
  lemma PartOfUnique(d: Dims, sp: Split, c: Cell, i: int)
    requires SplitOk(d, sp) && InGrid(d, c) && 0 <= i < |sp.b|
    ensures InPart(d, Part(sp.dim, sp.b[i], sp.e[i]), c) <==> PartOf(d, sp, c) == Part(sp.dim, sp.b[i], sp.e[i])
  {
    var v := Coord(c, sp.dim);
    var k := Slot(sp.e, v, |sp.e|);
    SlotIn(Extent(d, sp.dim), sp.b, sp.e, v, |sp.e|);
    PartitionCovers(Extent(d, sp.dim), sp.b, sp.e, v, |sp.b|);
    if PartOf(d, sp, c) == Part(sp.dim, sp.b[i], sp.e[i]) {
      assert sp.b[i] == sp.b[k] && sp.e[i] == sp.e[k];
    }
  }

  /** Cell ca compares its neighbour cb: the part that searches ca does. */
  predicate Ahead(d: Dims, sp: Split, ca: Cell, cb: Cell)
    requires SplitOk(d, sp) && InGrid(d, ca)
  {
    Compared(PartOf(d, sp, ca), ca, cb)
  }

  /** In the serial search a cell compares exactly the neighbours after it in loop order. */
  lemma SerialAhead(d: Dims, ca: Cell, cb: Cell)
    requires DimsOk(d) && InGrid(d, ca) && InGrid(d, cb)
    ensures Ahead(d, OnePart(d), ca, cb) <==> Before(ca, cb)
  {
    WholeCompared(d, ca, cb);
  }

  /** The serial search is the split into one part. */
  lemma SerialIsOnePart(j: Scan)
    requires ScanOk(j)
    ensures PartsBonds(j, 0, [0], [j.dims.nx], 1) == PartBonds(j, Whole(j.dims))
  {
    assert PartsBonds(j, 0, [0], [j.dims.nx], 1) == [] + PartBonds(j, Whole(j.dims));
  }

  /**
   * Of two neighbouring cells, exactly one compares the other, in every split.
   */
  lemma AheadOnce(d: Dims, periodic: bool, sp: Split, ca: Cell, cb: Cell)
    requires DimsOk(d) && SplitOk(d, sp) && InGrid(d, ca) && InGrid(d, cb) && cb in Neighbours(d, periodic, ca)
    ensures Ahead(d, sp, ca, cb) != Ahead(d, sp, cb, ca)
  {
    var v, w := Coord(ca, sp.dim), Coord(cb, sp.dim);
    var pa, pb := Slot(sp.e, v, |sp.e|), Slot(sp.e, w, |sp.e|);
    SlotIn(Extent(d, sp.dim), sp.b, sp.e, v, |sp.e|);
    SlotIn(Extent(d, sp.dim), sp.b, sp.e, w, |sp.e|);
    PartsPairOnce(d, periodic, sp.dim, sp.b, sp.e, pa, pb, ca, cb);
  }

  // ---------------------------------------------------------------------------
  // What the threads report, cell by cell

  /** Cell c reports x in the search of split sp. */
  ghost predicate Reports(j: Scan, sp: Split, c: Cell, x: Bond)
    requires ScanOk(j) && SplitOk(j.dims, sp)
  {
    InGrid(j.dims, c) && x in CellBonds(j, PartOf(j.dims, sp, c), c)
  }

  /** The first n threads report x exactly when some cell of their parts does. */
  lemma {:induction false} PartsMembers(j: Scan, sp: Split, n: int, x: Bond)
    requires ScanOk(j) && SplitOk(j.dims, sp) && 0 <= n <= |sp.b|
    ensures x in PartsBonds(j, sp.dim, sp.b, sp.e, n) <==>
      exists c :: Reports(j, sp, c, x) && Slot(sp.e, Coord(c, sp.dim), |sp.e|) < n
    decreases n
  {
    if n > 0 {
      PartsMembers(j, sp, n - 1, x);
      PartsStep(j, sp, n, x);
    }
  }

  lemma PartsStep(j: Scan, sp: Split, n: int, x: Bond)
    requires ScanOk(j) && SplitOk(j.dims, sp) && 0 < n <= |sp.b|
    requires x in PartsBonds(j, sp.dim, sp.b, sp.e, n - 1) <==>
      exists c :: Reports(j, sp, c, x) && Slot(sp.e, Coord(c, sp.dim), |sp.e|) < n - 1
    ensures x in PartsBonds(j, sp.dim, sp.b, sp.e, n) <==>
      exists c :: Reports(j, sp, c, x) && Slot(sp.e, Coord(c, sp.dim), |sp.e|) < n
  {
    var p := Part(sp.dim, sp.b[n - 1], sp.e[n - 1]);
    PartitionPart(j.dims, sp.dim, sp.b, sp.e, n - 1);
    assert PartsBonds(j, sp.dim, sp.b, sp.e, n) == PartsBonds(j, sp.dim, sp.b, sp.e, n - 1) + PartBonds(j, p);
    PartMembers(j, sp, n - 1, x);
  }

  /** Thread i reports x exactly when some cell of its part does. */
  lemma PartMembers(j: Scan, sp: Split, i: int, x: Bond)
    requires ScanOk(j) && SplitOk(j.dims, sp) && 0 <= i < |sp.b|
    ensures PartOk(j.dims, Part(sp.dim, sp.b[i], sp.e[i]))
    ensures x in PartBonds(j, Part(sp.dim, sp.b[i], sp.e[i])) <==>
      exists c :: Reports(j, sp, c, x) && Slot(sp.e, Coord(c, sp.dim), |sp.e|) == i
  {
    var p := Part(sp.dim, sp.b[i], sp.e[i]);
    PartitionPart(j.dims, sp.dim, sp.b, sp.e, i);
    PartBondsMembers(j, p, x);
    if x in PartBonds(j, p) {
      var c :| InPart(j.dims, p, c) && x in CellBonds(j, p, c);
      PartReports(j, sp, i, c, x);
    }
    if exists c :: Reports(j, sp, c, x) && Slot(sp.e, Coord(c, sp.dim), |sp.e|) == i {
      var c :| Reports(j, sp, c, x) && Slot(sp.e, Coord(c, sp.dim), |sp.e|) == i;
      PartOfUnique(j.dims, sp, c, i);
      assert InPart(j.dims, p, c) && x in CellBonds(j, p, c);
    }
  }

  lemma PartReports(j: Scan, sp: Split, i: int, c: Cell, x: Bond)
    requires ScanOk(j) && SplitOk(j.dims, sp) && 0 <= i < |sp.b|
    requires PartOk(j.dims, Part(sp.dim, sp.b[i], sp.e[i])) && InPart(j.dims, Part(sp.dim, sp.b[i], sp.e[i]), c)
    requires x in CellBonds(j, Part(sp.dim, sp.b[i], sp.e[i]), c)
    ensures Reports(j, sp, c, x) && Slot(sp.e, Coord(c, sp.dim), |sp.e|) == i
  {
    PartOfUnique(j.dims, sp, c, i);
    SlotIn(Extent(j.dims, sp.dim), sp.b, sp.e, Coord(c, sp.dim), |sp.e|);
    PartitionCovers(Extent(j.dims, sp.dim), sp.b, sp.e, Coord(c, sp.dim), |sp.b|);
  }

  /** All the threads together report x exactly when some cell does. */
  lemma SplitMembers(j: Scan, sp: Split, x: Bond)
    requires ScanOk(j) && SplitOk(j.dims, sp)
    ensures x in PartsBonds(j, sp.dim, sp.b, sp.e, |sp.b|) <==> exists c :: Reports(j, sp, c, x)
  {
    PartsMembers(j, sp, |sp.b|, x);
  }

  /** The side searches of cell c report x exactly when the search with one compared neighbour does. */
  lemma {:induction false} SidesMembers(j: Scan, p: Part, c: Cell, nl: seq<Cell>, x: Bond)
    requires ScanOk(j) && PartOk(j.dims, p) && InGrid(j.dims, c) && AllInGrid(j.dims, nl)
    ensures x in Sides(j, p, c, nl) <==>
      exists k :: 0 <= k < |nl| && Compared(p, c, nl[k]) && x in Side(j, c, nl[k])
    decreases |nl|
  {
    if |nl| > 0 {
      var nl' := nl[..|nl| - 1];
      assert AllInGrid(j.dims, nl');
      SidesMembers(j, p, c, nl', x);
      if exists k :: 0 <= k < |nl'| && Compared(p, c, nl'[k]) && x in Side(j, c, nl'[k]) {
        var k :| 0 <= k < |nl'| && Compared(p, c, nl'[k]) && x in Side(j, c, nl'[k]);
        assert nl[k] == nl'[k];
      }
      if exists k :: 0 <= k < |nl| && Compared(p, c, nl[k]) && x in Side(j, c, nl[k]) {
        var k :| 0 <= k < |nl| && Compared(p, c, nl[k]) && x in Side(j, c, nl[k]);
        if k < |nl| - 1 {
          assert nl'[k] == nl[k];
        }
      }
    }
  }

  /**
   * A cell reports the contacts inside it and those with each neighbour
   * its part compares.
   */
  lemma CellBondsMembers(j: Scan, p: Part, c: Cell, x: Bond)
    requires ScanOk(j) && PartOk(j.dims, p) && InGrid(j.dims, c)
    ensures x in CellBonds(j, p, c) <==> (x in Central(j, c) ||
      exists nb :: nb in Neighbours(j.dims, j.periodic, c) && InGrid(j.dims, nb) && Compared(p, c, nb) && x in Side(j, c, nb))
  {
    var nl := Neighbours(j.dims, j.periodic, c);
    NeighboursInGrid(j.dims, j.periodic, c);
    SidesMembers(j, p, c, nl, x);
    if exists nb :: nb in nl && InGrid(j.dims, nb) && Compared(p, c, nb) && x in Side(j, c, nb) {
      var nb :| nb in nl && InGrid(j.dims, nb) && Compared(p, c, nb) && x in Side(j, c, nb);
      var k :| 0 <= k < |nl| && nl[k] == nb;
    }
  }

  // ---------------------------------------------------------------------------
  // Every contact within the cutoff, and nothing else

  /** The selection the entries of selection 1 are paired with: selection 2, or selection 1 itself. */
  function Partner(j: Scan): Points {
    if j.two then j.s2 else j.s1
  }

  function PartnerGrid(j: Scan): Grid {
    if j.two then j.g2 else j.g1
  }

  /** Both grids hold what populate_grid puts in them. */
  ghost predicate Binned(l: Layout, j: Scan)
    requires LayoutOk(l)
  {
    Populated(l, j.s1.coords, j.g1) && Populated(l, Partner(j).coords, PartnerGrid(j))
  }

  /**
   * A search in split sp meets position a of selection 1 and position y of
   * its partner, in that order: inside one cell when a < y (for one
   * selection), or always (for two); in two cells from the cell of a when
   * it compares the cell of y, measuring from a; and, for two selections,
   * from the cell of y when that compares the cell of a, measuring from y.
   */
  ghost predicate Meets(l: Layout, j: Scan, sp: Split, a: int, y: int)
    requires LayoutOk(l) && ScanOk(j) && Agrees(l, j) && SplitOk(j.dims, sp)
    requires 0 <= a < |j.s1.coords| && 0 <= y < |Partner(j).coords|
    requires CellOf(l, j.s1.coords[a]).Some? && CellOf(l, Partner(j).coords[y]).Some?
  {
    var p, q := j.s1.coords[a], Partner(j).coords[y];
    var ca, cb := CellOf(l, p).value, CellOf(l, q).value;
    CellOfInGrid(l, p);
    CellOfInGrid(l, q);
    if ca == cb then (j.two || a < y) && Close(j.m, p, q)
    else (Ahead(j.dims, sp, ca, cb) && Close(j.m, p, q)) || (j.two && Ahead(j.dims, sp, cb, ca) && Close(j.m, q, p))
  }

  /** Bond x is that of binned positions a and y, and the search of split sp meets them. */
  ghost predicate Contact(l: Layout, j: Scan, sp: Split, x: Bond, a: int, y: int)
    requires LayoutOk(l) && ScanOk(j) && Agrees(l, j) && SplitOk(j.dims, sp)
  {
    && 0 <= a < |j.s1.coords| && 0 <= y < |Partner(j).coords|
    && CellOf(l, j.s1.coords[a]).Some? && CellOf(l, Partner(j).coords[y]).Some?
    && x == BondOf(j.s1, Partner(j), j.abs, false, a, y)
    && Meets(l, j, sp, a, y)
  }

  /** A contact found inside one cell. */
  lemma CentralContact(l: Layout, j: Scan, sp: Split, c: Cell, x: Bond)
    requires LayoutOk(l) && ScanOk(j) && Agrees(l, j) && SplitOk(j.dims, sp) && Binned(l, j)
    requires InGrid(j.dims, c) && x in Central(j, c)
    ensures exists a, y :: Contact(l, j, sp, x, a, y)
  {
    var t, g := Partner(j), PartnerGrid(j);
    var s := j.g1[c];
    CellEntries(j.g1, |j.s1.coords|, c);
    CellEntries(g, |t.coords|, c);
    var a, y;
    if j.two {
      CrossMembers(j.m, j.s1, j.s2, j.abs, false, s, g[c]);
      var u, w :| 0 <= u < |s| && 0 <= w < |g[c]| && Close(j.m, j.s1.coords[s[u]], t.coords[g[c][w]])
        && x == BondOf(j.s1, t, j.abs, false, s[u], g[c][w]);
      a, y := s[u], g[c][w];
    } else {
      TriangleMembers(j.m, j.s1, j.abs, s, |s|);
      var u, w :| 0 <= u < |s| && u < w < |s| && Close(j.m, j.s1.coords[s[u]], j.s1.coords[s[w]])
        && x == BondOf(j.s1, j.s1, j.abs, false, s[u], s[w]);
      PopulatedEntries(l, j.s1.coords, j.g1);
      a, y := s[u], s[w];
    }
    InCell(l, j.s1.coords, j.g1, c, a);
    InCell(l, t.coords, g, c, y);
    assert Contact(l, j, sp, x, a, y);
  }

  /** A contact found by the first phase of a side search: s1 in c against the partner in nb. */
  lemma SideHeadContact(l: Layout, j: Scan, sp: Split, c: Cell, nb: Cell, x: Bond)
    requires LayoutOk(l) && ScanOk(j) && Agrees(l, j) && SplitOk(j.dims, sp) && Binned(l, j)
    requires InGrid(j.dims, c) && InGrid(j.dims, nb) && c != nb && Ahead(j.dims, sp, c, nb)
    requires x in Cross(j.m, j.s1, Partner(j), j.abs, false, j.g1[c], PartnerGrid(j)[nb])
    ensures exists a, y :: Contact(l, j, sp, x, a, y)
  {
    var t, g := Partner(j), PartnerGrid(j);
    CrossMembers(j.m, j.s1, t, j.abs, false, j.g1[c], g[nb]);
    var u, w :| 0 <= u < |j.g1[c]| && 0 <= w < |g[nb]| && Close(j.m, j.s1.coords[j.g1[c][u]], t.coords[g[nb][w]])
      && x == BondOf(j.s1, t, j.abs, false, j.g1[c][u], g[nb][w]);
    var a, y := j.g1[c][u], g[nb][w];
    InCell(l, j.s1.coords, j.g1, c, a);
    InCell(l, t.coords, g, nb, y);
    assert Contact(l, j, sp, x, a, y);
  }

  /** A contact found by the flipped phase of a side search: s2 in c against s1 in nb. */
  lemma SideTailContact(l: Layout, j: Scan, sp: Split, c: Cell, nb: Cell, x: Bond)
    requires LayoutOk(l) && ScanOk(j) && Agrees(l, j) && SplitOk(j.dims, sp) && Binned(l, j) && j.two
    requires InGrid(j.dims, c) && InGrid(j.dims, nb) && c != nb && Ahead(j.dims, sp, c, nb)
    requires x in Cross(j.m, j.s2, j.s1, j.abs, true, j.g2[c], j.g1[nb])
    ensures exists a, y :: Contact(l, j, sp, x, a, y)
  {
    CrossMembers(j.m, j.s2, j.s1, j.abs, true, j.g2[c], j.g1[nb]);
    var u, w :| 0 <= u < |j.g2[c]| && 0 <= w < |j.g1[nb]| && Close(j.m, j.s2.coords[j.g2[c][u]], j.s1.coords[j.g1[nb][w]])
      && x == BondOf(j.s2, j.s1, j.abs, true, j.g2[c][u], j.g1[nb][w]);
    var a, y := j.g1[nb][w], j.g2[c][u];
    InCell(l, j.s1.coords, j.g1, nb, a);
    InCell(l, j.s2.coords, j.g2, c, y);
    assert Contact(l, j, sp, x, a, y);
  }

  /** A contact found between a cell and a neighbour it compares. */
  lemma SideContact(l: Layout, j: Scan, sp: Split, c: Cell, nb: Cell, x: Bond)
    requires LayoutOk(l) && ScanOk(j) && Agrees(l, j) && SplitOk(j.dims, sp) && Binned(l, j)
    requires InGrid(j.dims, c) && InGrid(j.dims, nb) && nb in Neighbours(j.dims, j.periodic, c)
    requires Ahead(j.dims, sp, c, nb) && x in Side(j, c, nb)
    ensures exists a, y :: Contact(l, j, sp, x, a, y)
  {
    NeighboursShape(j.dims, j.periodic, c);
    CellEntries(j.g1, |j.s1.coords|, c);
    CellEntries(j.g1, |j.s1.coords|, nb);
    CellEntries(PartnerGrid(j), |Partner(j).coords|, nb);
    if x in Cross(j.m, j.s1, Partner(j), j.abs, false, j.g1[c], PartnerGrid(j)[nb]) {
      SideHeadContact(l, j, sp, c, nb, x);
    } else {
      CellEntries(j.g2, |j.s2.coords|, c);
      SideTailContact(l, j, sp, c, nb, x);
    }
  }

  /** Everything a cell reports is a contact. */
  lemma ReportsContact(l: Layout, j: Scan, sp: Split, c: Cell, x: Bond)
    requires LayoutOk(l) && ScanOk(j) && Agrees(l, j) && SplitOk(j.dims, sp) && Binned(l, j)
    requires Reports(j, sp, c, x)
    ensures exists a, y :: Contact(l, j, sp, x, a, y)
  {
    CellBondsMembers(j, PartOf(j.dims, sp, c), c, x);
    if x in Central(j, c) {
      CentralContact(l, j, sp, c, x);
    } else {
      var nb :| nb in Neighbours(j.dims, j.periodic, c) && InGrid(j.dims, nb)
        && Compared(PartOf(j.dims, sp, c), c, nb) && x in Side(j, c, nb);
      SideContact(l, j, sp, c, nb, x);
    }
  }

  /** Two different cells near each other, either way round, are each other's neighbours. */
  lemma NearNeighbours(d: Dims, periodic: bool, u: Cell, w: Cell)
    requires DimsOk(d) && InGrid(d, u) && InGrid(d, w) && u != w
    requires Near(d, periodic, u, w) || Near(d, periodic, w, u)
    ensures w in Neighbours(d, periodic, u) && u in Neighbours(d, periodic, w)
  {
    NeighboursShape(d, periodic, u);
    NeighboursShape(d, periodic, w);
    AxisNearSymmetric(u.x, w.x, d.nx, periodic);
    AxisNearSymmetric(u.y, w.y, d.ny, periodic);
    AxisNearSymmetric(u.z, w.z, d.nz, periodic);
  }

  /** Cell c reports the bond of entries u of s and w of t whenever its central search does. */
  lemma CentralReports(j: Scan, sp: Split, c: Cell, x: Bond)
    requires ScanOk(j) && SplitOk(j.dims, sp) && InGrid(j.dims, c) && x in Central(j, c)
    ensures Reports(j, sp, c, x)
  {
    CellBondsMembers(j, PartOf(j.dims, sp, c), c, x);
  }

  lemma SideReports(j: Scan, sp: Split, c: Cell, nb: Cell, x: Bond)
    requires ScanOk(j) && SplitOk(j.dims, sp) && InGrid(j.dims, c) && InGrid(j.dims, nb)
    requires nb in Neighbours(j.dims, j.periodic, c) && Ahead(j.dims, sp, c, nb) && x in Side(j, c, nb)
    ensures Reports(j, sp, c, x)
  {
    CellBondsMembers(j, PartOf(j.dims, sp, c), c, x);
  }

  /** A contact inside one cell is reported by that cell. */
  lemma SameCellReports(l: Layout, j: Scan, sp: Split, x: Bond, a: int, y: int)
    requires LayoutOk(l) && ScanOk(j) && Agrees(l, j) && SplitOk(j.dims, sp) && Binned(l, j)
    requires Contact(l, j, sp, x, a, y) && CellOf(l, j.s1.coords[a]) == CellOf(l, Partner(j).coords[y])
    ensures exists c :: Reports(j, sp, c, x)
  {
    var t, g := Partner(j), PartnerGrid(j);
    var c := CellOf(l, j.s1.coords[a]).value;
    CellOfInGrid(l, j.s1.coords[a]);
    InCell(l, j.s1.coords, j.g1, c, a);
    InCell(l, t.coords, g, c, y);
    var s := j.g1[c];
    CellEntries(j.g1, |j.s1.coords|, c);
    CellEntries(g, |t.coords|, c);
    var u :| 0 <= u < |s| && s[u] == a;
    var w :| 0 <= w < |g[c]| && g[c][w] == y;
    if j.two {
      CrossMembers(j.m, j.s1, j.s2, j.abs, false, s, g[c]);
      assert CrossHas(j.m, j.s1, j.s2, j.abs, false, s, g[c], x);
    } else {
      PopulatedEntries(l, j.s1.coords, j.g1);
      assert u < w;
      TriangleMembers(j.m, j.s1, j.abs, s, |s|);
      assert TriangleHas(j.m, j.s1, j.abs, s, |s|, x);
    }
    CentralReports(j, sp, c, x);
  }

  /** A contact across two cells is reported by the cell that compares the other. */
  lemma TwoCellsReport(l: Layout, j: Scan, sp: Split, x: Bond, a: int, y: int)
    requires LayoutOk(l) && ScanOk(j) && Agrees(l, j) && SplitOk(j.dims, sp) && Binned(l, j) && Local(l, j.m)
    requires Contact(l, j, sp, x, a, y) && CellOf(l, j.s1.coords[a]) != CellOf(l, Partner(j).coords[y])
    ensures exists c :: Reports(j, sp, c, x)
  {
    var t, g := Partner(j), PartnerGrid(j);
    var p, q := j.s1.coords[a], t.coords[y];
    var ca, cb := CellOf(l, p).value, CellOf(l, q).value;
    CellOfInGrid(l, p);
    CellOfInGrid(l, q);
    InCell(l, j.s1.coords, j.g1, ca, a);
    InCell(l, t.coords, g, cb, y);
    CellEntries(j.g1, |j.s1.coords|, ca);
    CellEntries(g, |t.coords|, cb);
    var u :| 0 <= u < |j.g1[ca]| && j.g1[ca][u] == a;
    var w :| 0 <= w < |g[cb]| && g[cb][w] == y;
    if Ahead(j.dims, sp, ca, cb) && Close(j.m, p, q) {
      NearNeighbours(j.dims, j.periodic, ca, cb);
      CrossMembers(j.m, j.s1, t, j.abs, false, j.g1[ca], g[cb]);
      assert CrossHas(j.m, j.s1, t, j.abs, false, j.g1[ca], g[cb], x);
      SideReports(j, sp, ca, cb, x);
    } else {
      assert j.two && Ahead(j.dims, sp, cb, ca) && Close(j.m, q, p);
      NearNeighbours(j.dims, j.periodic, ca, cb);
      CrossMembers(j.m, j.s2, j.s1, j.abs, true, j.g2[cb], j.g1[ca]);
      assert CrossHas(j.m, j.s2, j.s1, j.abs, true, j.g2[cb], j.g1[ca], x);
      SideReports(j, sp, cb, ca, x);
    }
  }

  /**
   * With the grids populated and cells no narrower than the cutoff, the
   * threads of split sp report, all together, exactly the contacts the
   * split meets.
   */
  lemma SplitFindsAll(l: Layout, j: Scan, sp: Split, x: Bond)
    requires LayoutOk(l) && ScanOk(j) && Agrees(l, j) && SplitOk(j.dims, sp) && Binned(l, j) && Local(l, j.m)
    ensures x in PartsBonds(j, sp.dim, sp.b, sp.e, |sp.b|) <==> exists a, y :: Contact(l, j, sp, x, a, y)
  {
    SplitMembers(j, sp, x);
    if exists c :: Reports(j, sp, c, x) {
      var c :| Reports(j, sp, c, x);
      ReportsContact(l, j, sp, c, x);
    }
    if exists a, y :: Contact(l, j, sp, x, a, y) {
      var a, y :| Contact(l, j, sp, x, a, y);
      if CellOf(l, j.s1.coords[a]) == CellOf(l, Partner(j).coords[y]) {
        SameCellReports(l, j, sp, x, a, y);
      } else {
        TwoCellsReport(l, j, sp, x, a, y);
      }
    }
  }

  // ---------------------------------------------------------------------------
  // The same pairs in every split

  /**
   * The distance test does not depend on the order of the two points, as
   * for the norm of their difference and for the periodic box distance.
   */
  ghost predicate Symmetric(m: Metric) {
    forall p, q :: Close(m, p, q) ==> Close(m, q, p)
  }

  /** Binned position a of selection 1 and y of its partner are within the cutoff, and x is their bond. */
  ghost predicate PairFound(l: Layout, j: Scan, x: Bond, a: int, y: int)
    requires LayoutOk(l) && ScanOk(j)
  {
    && 0 <= a < |j.s1.coords| && 0 <= y < |Partner(j).coords|
    && CellOf(l, j.s1.coords[a]).Some? && CellOf(l, Partner(j).coords[y]).Some?
    && Close(j.m, j.s1.coords[a], Partner(j).coords[y])
    && x == BondOf(j.s1, Partner(j), j.abs, false, a, y)
  }

  /** A contact the search meets is a pair within the cutoff. */
  lemma ContactFound(l: Layout, j: Scan, sp: Split, x: Bond, a: int, y: int)
    requires LayoutOk(l) && ScanOk(j) && Agrees(l, j) && SplitOk(j.dims, sp) && Symmetric(j.m)
    requires Contact(l, j, sp, x, a, y)
    ensures PairFound(l, j, x, a, y)
  {
  }

  /**
   * Of two binned positions within the cutoff, the search meets them in
   * the given order, or (for one selection) the other way round.
   */
  lemma FoundMet(l: Layout, j: Scan, sp: Split, x: Bond, a: int, y: int)
    requires LayoutOk(l) && ScanOk(j) && Agrees(l, j) && SplitOk(j.dims, sp) && Symmetric(j.m) && Local(l, j.m)
    requires PairFound(l, j, x, a, y) && (j.two || a != y)
    ensures j.two ==> Contact(l, j, sp, x, a, y)
    ensures !j.two ==> Contact(l, j, sp, x, a, y) || Contact(l, j, sp, BondOf(j.s1, j.s1, j.abs, false, y, a), y, a)
  {
    var p, q := j.s1.coords[a], Partner(j).coords[y];
    var ca, cb := CellOf(l, p).value, CellOf(l, q).value;
    CellOfInGrid(l, p);
    CellOfInGrid(l, q);
    assert Close(j.m, q, p);
    if ca != cb {
      NearNeighbours(j.dims, j.periodic, ca, cb);
      AheadOnce(j.dims, j.periodic, sp, ca, cb);
    }
  }

  /**
   * Two selections: with a symmetric distance test, every split reports the
   * bond of each pair of binned positions, one from each selection, within
   * the cutoff, and nothing else.
   */
  lemma PairsFindsAll(l: Layout, j: Scan, sp: Split, x: Bond)
    requires LayoutOk(l) && ScanOk(j) && Agrees(l, j) && SplitOk(j.dims, sp) && Binned(l, j) && Local(l, j.m)
    requires j.two && Symmetric(j.m)
    ensures x in PartsBonds(j, sp.dim, sp.b, sp.e, |sp.b|) <==> exists a, y :: PairFound(l, j, x, a, y)
  {
    SplitFindsAll(l, j, sp, x);
    if exists a, y :: Contact(l, j, sp, x, a, y) {
      var a, y :| Contact(l, j, sp, x, a, y);
      ContactFound(l, j, sp, x, a, y);
    }
    if exists a, y :: PairFound(l, j, x, a, y) {
      var a, y :| PairFound(l, j, x, a, y);
      FoundMet(l, j, sp, x, a, y);
    }
  }

  /** Labels tell positions apart. */
  lemma LabelsApart(s: Points, abs: bool, i: int, k: int)
    requires PointsOk(s) && Rising(s, abs) && 0 <= i < |s.index| && 0 <= k < |s.index|
    ensures Label(s, abs, i) == Label(s, abs, k) ==> i == k
  {
    if i < k {
      LabelRising(s, abs, i, k);
    } else if k < i {
      LabelRising(s, abs, k, i);
    }
  }

  /**
   * One selection: every split reports only bonds of two different binned
   * positions within the cutoff, and, with a symmetric distance test and
   * labels that tell positions apart, each such pair exactly once, as (a, y)
   * or as (y, a).
   */
  lemma SelfFindsAll(l: Layout, j: Scan, sp: Split, x: Bond, a: int, y: int)
    requires LayoutOk(l) && ScanOk(j) && Agrees(l, j) && SplitOk(j.dims, sp) && Binned(l, j) && Local(l, j.m)
    requires !j.two
    ensures x in PartsBonds(j, sp.dim, sp.b, sp.e, |sp.b|) ==>
      exists a', y' :: a' != y' && PairFound(l, j, x, a', y')
    ensures Symmetric(j.m) && Rising(j.s1, j.abs) && PairFound(l, j, x, a, y) && a != y ==>
      (x in PartsBonds(j, sp.dim, sp.b, sp.e, |sp.b|)) != (BondOf(j.s1, j.s1, j.abs, false, y, a) in PartsBonds(j, sp.dim, sp.b, sp.e, |sp.b|))
  {
    SplitFindsAll(l, j, sp, x);
    if x in PartsBonds(j, sp.dim, sp.b, sp.e, |sp.b|) {
      var a', y' :| Contact(l, j, sp, x, a', y');
      assert a' != y' && PairFound(l, j, x, a', y');
    }
    if Symmetric(j.m) && Rising(j.s1, j.abs) && PairFound(l, j, x, a, y) && a != y {
      SelfOnce(l, j, sp, x, a, y);
    }
  }

  lemma SelfOnce(l: Layout, j: Scan, sp: Split, x: Bond, a: int, y: int)
    requires LayoutOk(l) && ScanOk(j) && Agrees(l, j) && SplitOk(j.dims, sp) && Binned(l, j) && Local(l, j.m)
    requires !j.two && Symmetric(j.m) && Rising(j.s1, j.abs) && PairFound(l, j, x, a, y) && a != y
    ensures (x in PartsBonds(j, sp.dim, sp.b, sp.e, |sp.b|)) != (BondOf(j.s1, j.s1, j.abs, false, y, a) in PartsBonds(j, sp.dim, sp.b, sp.e, |sp.b|))
  {
    var z := BondOf(j.s1, j.s1, j.abs, false, y, a);
    SplitFindsAll(l, j, sp, x);
    SplitFindsAll(l, j, sp, z);
    FoundMet(l, j, sp, x, a, y);
    assert Contact(l, j, sp, x, a, y) || Contact(l, j, sp, z, y, a);
    forall a', y' | Contact(l, j, sp, x, a', y') ensures a' == a && y' == y {
      LabelsApart(j.s1, j.abs, a, a');
      LabelsApart(j.s1, j.abs, y, y');
    }
    forall a', y' | Contact(l, j, sp, z, a', y') ensures a' == y && y' == a {
      LabelsApart(j.s1, j.abs, y, a');
      LabelsApart(j.s1, j.abs, a, y');
    }
    MeetsOnce(l, j, sp, a, y);
  }

  /** For one selection the search meets two different positions in one order only. */
  lemma MeetsOnce(l: Layout, j: Scan, sp: Split, a: int, y: int)
    requires LayoutOk(l) && ScanOk(j) && Agrees(l, j) && SplitOk(j.dims, sp) && Local(l, j.m)
    requires !j.two && 0 <= a < |j.s1.coords| && 0 <= y < |j.s1.coords| && a != y
    requires CellOf(l, j.s1.coords[a]).Some? && CellOf(l, j.s1.coords[y]).Some?
    ensures !(Meets(l, j, sp, a, y) && Meets(l, j, sp, y, a))
  {
    var p, q := j.s1.coords[a], j.s1.coords[y];
    var ca, cb := CellOf(l, p).value, CellOf(l, q).value;
    CellOfInGrid(l, p);
    CellOfInGrid(l, q);
    if ca != cb && Meets(l, j, sp, a, y) {
      NearNeighbours(j.dims, j.periodic, ca, cb);
      AheadOnce(j.dims, j.periodic, sp, ca, cb);
    }
  }

  /** Bond x the other way round. */
  function Swap(x: Bond): Bond {
    Bond(x.b, x.a)
  }

  /** Whatever one split of a one-selection search reports, another reports too, maybe the other way round. */
  lemma SelfCovered(l: Layout, j: Scan, sp: Split, sp': Split, x: Bond)
    requires LayoutOk(l) && ScanOk(j) && Agrees(l, j) && SplitOk(j.dims, sp) && SplitOk(j.dims, sp')
    requires Binned(l, j) && Local(l, j.m) && !j.two && Symmetric(j.m)
    requires x in PartsBonds(j, sp.dim, sp.b, sp.e, |sp.b|)
    ensures x in PartsBonds(j, sp'.dim, sp'.b, sp'.e, |sp'.b|) || Swap(x) in PartsBonds(j, sp'.dim, sp'.b, sp'.e, |sp'.b|)
  {
    SelfFindsAll(l, j, sp, x, 0, 0);
    var a, y :| a != y && PairFound(l, j, x, a, y);
    FoundMet(l, j, sp', x, a, y);
    SplitFindsAll(l, j, sp', x);
    SplitFindsAll(l, j, sp', Swap(x));
  }

  /**
   * Two selections: with a symmetric distance test, the threads of any
   * split report, all together, the same bonds as the serial search.
   */
  lemma ThreadedPairsSame(l: Layout, j: Scan, sp: Split, x: Bond)
    requires LayoutOk(l) && ScanOk(j) && Agrees(l, j) && SplitOk(j.dims, sp) && Binned(l, j) && Local(l, j.m)
    requires j.two && Symmetric(j.m)
    ensures x in PartsBonds(j, sp.dim, sp.b, sp.e, |sp.b|) <==> x in PartBonds(j, Whole(j.dims))
  {
    PairsFindsAll(l, j, sp, x);
    PairsFindsAll(l, j, OnePart(j.dims), x);
    SerialIsOnePart(j);
  }

  /**
   * One selection: with a symmetric distance test, the threads of any split
   * report the same pairs as the serial search, though a pair compared
   * across the boundary of two parts may come out the other way round.
   */
  lemma ThreadedSelfSame(l: Layout, j: Scan, sp: Split, x: Bond)
    requires LayoutOk(l) && ScanOk(j) && Agrees(l, j) && SplitOk(j.dims, sp) && Binned(l, j) && Local(l, j.m)
    requires !j.two && Symmetric(j.m)
    ensures var threads := PartsBonds(j, sp.dim, sp.b, sp.e, |sp.b|);
      var serial := PartBonds(j, Whole(j.dims));
      (x in threads || Swap(x) in threads) <==> (x in serial || Swap(x) in serial)
  {
    var one := OnePart(j.dims);
    SerialIsOnePart(j);
    assert Swap(Swap(x)) == x;
    if x in PartsBonds(j, sp.dim, sp.b, sp.e, |sp.b|) {
      SelfCovered(l, j, sp, one, x);
    }
    if Swap(x) in PartsBonds(j, sp.dim, sp.b, sp.e, |sp.b|) {
      SelfCovered(l, j, sp, one, Swap(x));
    }
    if x in PartBonds(j, Whole(j.dims)) {
      SelfCovered(l, j, one, sp, x);
    }
    if Swap(x) in PartBonds(j, Whole(j.dims)) {
      SelfCovered(l, j, one, sp, Swap(x));
    }
  }

  // ---------------------------------------------------------------------------
  // do_search

  /** The split do_search uses: the whole grid when serial, the thread ranges of the longest axis when parallel. */
  function SplitOf(j: Scan, hardware: int, b: seq<int>, e: seq<int>): Split
    requires DimsOk(j.dims)
  {
    if SearchBranch(ThreadCount(j.dims, hardware)) == Serial then OnePart(j.dims) else Split(MaxDim(j.dims), b, e)
  }

  /** What do_search reports is what the threads of its split report. */
  lemma SearchedIsSplit(j: Scan, hardware: int, bon: seq<Bond>, b: seq<int>, e: seq<int>)
    requires ScanOk(j) && Searched(j, hardware, bon, b, e)
    ensures var sp := SplitOf(j, hardware, b, e);
      SplitOk(j.dims, sp) && bon == PartsBonds(j, sp.dim, sp.b, sp.e, |sp.b|)
  {
    if SearchBranch(ThreadCount(j.dims, hardware)) == Serial {
      SerialIsOnePart(j);
    }
  }

  /**
   * do_search on populated grids whose cells are no narrower than the
   * cutoff reports exactly the contacts its split meets.
   */
  lemma SearchFindsAll(l: Layout, j: Scan, hardware: int, bon: seq<Bond>, b: seq<int>, e: seq<int>, x: Bond)
    requires LayoutOk(l) && ScanOk(j) && Agrees(l, j) && Binned(l, j) && Local(l, j.m)
    requires Searched(j, hardware, bon, b, e)
    ensures SplitOk(j.dims, SplitOf(j, hardware, b, e))
    ensures x in bon <==> exists a, y :: Contact(l, j, SplitOf(j, hardware, b, e), x, a, y)
  {
    SearchedIsSplit(j, hardware, bon, b, e);
    SplitFindsAll(l, j, SplitOf(j, hardware, b, e), x);
  }

  /**
   * do_search over two selections, with a symmetric distance test: exactly
   * the bonds of binned pairs within the cutoff, one position from each
   * selection, whatever the number of threads.
   */
  lemma PairSearchFindsAll(l: Layout, j: Scan, hardware: int, bon: seq<Bond>, b: seq<int>, e: seq<int>, x: Bond)
    requires LayoutOk(l) && ScanOk(j) && Agrees(l, j) && Binned(l, j) && Local(l, j.m)
    requires j.two && Symmetric(j.m) && Searched(j, hardware, bon, b, e)
    ensures x in bon <==> exists a, y :: PairFound(l, j, x, a, y)
  {
    SearchedIsSplit(j, hardware, bon, b, e);
    PairsFindsAll(l, j, SplitOf(j, hardware, b, e), x);
  }

  /**
   * do_search over one selection: only bonds of two different binned
   * positions within the cutoff, and, with a symmetric distance test and
   * labels that tell positions apart, each such pair exactly once, one way
   * round or the other.
   */
  lemma SelfSearchFindsAll(l: Layout, j: Scan, hardware: int, bon: seq<Bond>, b: seq<int>, e: seq<int>, x: Bond, a: int, y: int)
    requires LayoutOk(l) && ScanOk(j) && Agrees(l, j) && Binned(l, j) && Local(l, j.m)
    requires !j.two && Searched(j, hardware, bon, b, e)
    ensures x in bon ==> exists a', y' :: a' != y' && PairFound(l, j, x, a', y')
    ensures Symmetric(j.m) && Rising(j.s1, j.abs) && PairFound(l, j, x, a, y) && a != y ==>
      (x in bon) != (BondOf(j.s1, j.s1, j.abs, false, y, a) in bon)
  {
    SearchedIsSplit(j, hardware, bon, b, e);
    SelfFindsAll(l, j, SplitOf(j, hardware, b, e), x, a, y);
  }

  // ---------------------------------------------------------------------------
  // No bond twice

  /** Each cell of the box lists no entry twice, and no two cells share one. */
  ghost predicate Apart<T>(t: map<Cell, seq<T>>, lo: Cell, hi: Cell) {
    && (forall c :: InBox(lo, hi, c) && c in t ==> Distinct(t[c]))
    && (forall c, c', v :: InBox(lo, hi, c) && InBox(lo, hi, c') && c in t && c' in t && c != c' && v in t[c] ==> v !in t[c'])
  }

  lemma {:induction false} ZWalkDistinct<T>(t: map<Cell, seq<T>>, lo: Cell, hi: Cell, x: int, y: int, z: int)
    requires Covers(t, lo, hi) && Apart(t, lo, hi) && lo.x <= x < hi.x && lo.y <= y < hi.y && z <= hi.z
    ensures Distinct(ZWalk(t, lo, hi, x, y, z))
    decreases z - lo.z
  {
    if z > lo.z {
      ZWalkDistinct(t, lo, hi, x, y, z - 1);
      var c := Cell(x, y, z - 1);
      assert InBox(lo, hi, c);
      forall v | v in ZWalk(t, lo, hi, x, y, z - 1) ensures v !in t[c] {
        ZWalkMembers(t, lo, hi, x, y, z - 1, v);
        var w :| lo.z <= w < z - 1 && v in t[Cell(x, y, w)];
        assert InBox(lo, hi, Cell(x, y, w));
      }
      DistinctConcat(ZWalk(t, lo, hi, x, y, z - 1), t[c]);
    }
  }

  lemma {:induction false} YWalkDistinct<T>(t: map<Cell, seq<T>>, lo: Cell, hi: Cell, x: int, y: int)
    requires Covers(t, lo, hi) && Apart(t, lo, hi) && lo.x <= x < hi.x && y <= hi.y
    ensures Distinct(YWalk(t, lo, hi, x, y))
    decreases y - lo.y
  {
    if y > lo.y {
      YWalkDistinct(t, lo, hi, x, y - 1);
      ZWalkDistinct(t, lo, hi, x, y - 1, hi.z);
      var front, last := YWalk(t, lo, hi, x, y - 1), ZWalk(t, lo, hi, x, y - 1, hi.z);
      forall v | v in front ensures v !in last {
        YWalkMembers(t, lo, hi, x, y - 1, v);
        var u :| lo.y <= u < y - 1 && ColumnHolds(t, lo, hi, x, u, v);
        var w :| lo.z <= w < hi.z && Cell(x, u, w) in t && v in t[Cell(x, u, w)];
        assert InBox(lo, hi, Cell(x, u, w));
        var y' := y - 1;
        forall w' | lo.z <= w' < hi.z && Cell(x, y', w') in t ensures v !in t[Cell(x, y', w')] {
          assert InBox(lo, hi, Cell(x, y', w'));
        }
        ColumnStep(t, lo, hi, x, y', v);
      }
      DistinctConcat(front, last);
    }
  }

  lemma {:induction false} XWalkDistinct<T>(t: map<Cell, seq<T>>, lo: Cell, hi: Cell, x: int)
    requires Covers(t, lo, hi) && Apart(t, lo, hi) && x <= hi.x
    ensures Distinct(XWalk(t, lo, hi, x))
    decreases x - lo.x
  {
    if x > lo.x {
      XWalkDistinct(t, lo, hi, x - 1);
      YWalkDistinct(t, lo, hi, x - 1, hi.y);
      var front, last := XWalk(t, lo, hi, x - 1), YWalk(t, lo, hi, x - 1, hi.y);
      forall v | v in front ensures v !in last {
        XWalkMembers(t, lo, hi, x - 1, v);
        var r :| lo.x <= r < x - 1 && PlaneHolds(t, lo, hi, r, v);
        var u :| lo.y <= u < hi.y && ColumnHolds(t, lo, hi, r, u, v);
        var w :| lo.z <= w < hi.z && Cell(r, u, w) in t && v in t[Cell(r, u, w)];
        assert InBox(lo, hi, Cell(r, u, w));
        var x' := x - 1;
        forall u', w' | lo.y <= u' < hi.y && lo.z <= w' < hi.z && Cell(x', u', w') in t
          ensures v !in t[Cell(x', u', w')]
        {
          assert InBox(lo, hi, Cell(x', u', w'));
        }
        PlaneStep(t, lo, hi, x', v);
      }
      DistinctConcat(front, last);
    }
  }

  /** The loops over the box list nothing twice when the cells list nothing twice between them. */
  lemma WalkDistinct<T>(t: map<Cell, seq<T>>, lo: Cell, hi: Cell)
    requires Covers(t, lo, hi) && Apart(t, lo, hi)
    ensures Distinct(Walk(t, lo, hi))
  {
    XWalkDistinct(t, lo, hi, hi.x);
  }

  /** Entry a of sa against ascending entries t: ascending bonds, all from a. */
  lemma {:induction false} RowLex(m: Metric, sa: Points, st: Points, abs: bool, a: int, t: seq<int>)
    requires PointsOk(sa) && PointsOk(st) && Rising(st, abs) && 0 <= a < |sa.coords| && InRange(t, |st.coords|) && Strict(t)
    ensures LexStrict(Row(m, sa, st, abs, false, a, t))
    ensures forall x :: x in Row(m, sa, st, abs, false, a, t) ==> x.a == Label(sa, abs, a)
    decreases |t|
  {
    RowMembers(m, sa, st, abs, false, a, t);
    if |t| > 0 {
      var t' := t[..|t| - 1];
      var last := t[|t| - 1];
      RowLex(m, sa, st, abs, a, t');
      RowMembers(m, sa, st, abs, false, a, t');
      var r := Row(m, sa, st, abs, false, a, t');
      if Close(m, sa.coords[a], st.coords[last]) {
        var y := BondOf(sa, st, abs, false, a, last);
        forall u | u in r ensures BondLess(u, y) {
          var k :| 0 <= k < |t'| && Close(m, sa.coords[a], st.coords[t'[k]]) && u == BondOf(sa, st, abs, false, a, t'[k]);
          assert t'[k] == t[k] < last;
          LabelRising(st, abs, t'[k], last);
        }
        var z := r + [y];
        forall i, k | 0 <= i < k < |z| ensures BondLess(z[i], z[k]) {
          if k == |r| {
            assert z[i] in r;
          } else {
            assert z[i] == r[i] && z[k] == r[k];
          }
        }
      }
    }
  }

  /** Ascending entries s against ascending entries t: ascending bonds, each from an entry of s. */
  lemma {:induction false} CrossLex(m: Metric, sa: Points, st: Points, abs: bool, s: seq<int>, t: seq<int>)
    requires PointsOk(sa) && PointsOk(st) && Rising(sa, abs) && Rising(st, abs)
    requires InRange(s, |sa.coords|) && InRange(t, |st.coords|) && Strict(s) && Strict(t)
    ensures LexStrict(Cross(m, sa, st, abs, false, s, t))
    ensures forall x :: x in Cross(m, sa, st, abs, false, s, t) ==> exists k :: 0 <= k < |s| && x.a == Label(sa, abs, s[k])
    decreases |s|
  {
    if |s| > 0 {
      var s' := s[..|s| - 1];
      var a := s[|s| - 1];
      CrossLex(m, sa, st, abs, s', t);
      RowLex(m, sa, st, abs, a, t);
      var before, row := Cross(m, sa, st, abs, false, s', t), Row(m, sa, st, abs, false, a, t);
      forall u, v | u in before && v in row ensures u.a < v.a {
        var k :| 0 <= k < |s'| && u.a == Label(sa, abs, s'[k]);
        assert s'[k] == s[k] < a;
        LabelRising(sa, abs, s'[k], a);
      }
      LexStrictConcat(before, row);
      forall x | x in before + row ensures exists k :: 0 <= k < |s| && x.a == Label(sa, abs, s[k]) {
        if x in before {
          var k :| 0 <= k < |s'| && x.a == Label(sa, abs, s'[k]);
          assert s'[k] == s[k];
        } else {
          assert x.a == Label(sa, abs, s[|s| - 1]);
        }
      }
    }
  }

  /** One selection: a bond of the central search joins two entries of the cell. */
  lemma CentralEnds(j: Scan, c: Cell, x: Bond)
    requires ScanOk(j) && !j.two && InGrid(j.dims, c) && x in Central(j, c)
    ensures exists u, w ::
      && u in j.g1[c] && w in j.g1[c] && 0 <= u < |j.s1.index| && 0 <= w < |j.s1.index|
      && x == Bond(Label(j.s1, j.abs, u), Label(j.s1, j.abs, w))
  {
    var s := j.g1[c];
    CellEntries(j.g1, |j.s1.coords|, c);
    TriangleMembers(j.m, j.s1, j.abs, s, |s|);
    var u, w :| 0 <= u < |s| && u < w < |s| && Close(j.m, j.s1.coords[s[u]], j.s1.coords[s[w]])
      && x == BondOf(j.s1, j.s1, j.abs, false, s[u], s[w]);
    assert s[u] in s && s[w] in s;
  }

  /** One selection: a bond of the side search joins an entry of the cell with one of the neighbour. */
  lemma SideEnds(j: Scan, c: Cell, nb: Cell, x: Bond)
    requires ScanOk(j) && !j.two && InGrid(j.dims, c) && InGrid(j.dims, nb) && x in Side(j, c, nb)
    ensures exists u, w ::
      && u in j.g1[c] && w in j.g1[nb] && 0 <= u < |j.s1.index| && 0 <= w < |j.s1.index|
      && x == Bond(Label(j.s1, j.abs, u), Label(j.s1, j.abs, w))
  {
    CellEntries(j.g1, |j.s1.coords|, c);
    CellEntries(j.g1, |j.s1.coords|, nb);
    CrossMembers(j.m, j.s1, j.s1, j.abs, false, j.g1[c], j.g1[nb]);
    var u, w :| 0 <= u < |j.g1[c]| && 0 <= w < |j.g1[nb]| && Close(j.m, j.s1.coords[j.g1[c][u]], j.s1.coords[j.g1[nb][w]])
      && x == BondOf(j.s1, j.s1, j.abs, false, j.g1[c][u], j.g1[nb][w]);
    assert j.g1[c][u] in j.g1[c] && j.g1[nb][w] in j.g1[nb];
  }

  /** One selection: every bond a cell reports starts at an entry of that cell. */
  lemma CellBondEnds(j: Scan, p: Part, c: Cell, x: Bond)
    requires ScanOk(j) && !j.two && PartOk(j.dims, p) && InGrid(j.dims, c) && x in CellBonds(j, p, c)
    ensures exists u :: u in j.g1[c] && 0 <= u < |j.s1.index| && x.a == Label(j.s1, j.abs, u)
  {
    CellBondsMembers(j, p, c, x);
    if x in Central(j, c) {
      CentralEnds(j, c, x);
    } else {
      var nb :| nb in Neighbours(j.dims, j.periodic, c) && InGrid(j.dims, nb) && Compared(p, c, nb) && x in Side(j, c, nb);
      SideEnds(j, c, nb, x);
    }
  }

  /** With labels that tell positions apart, one label belongs to entries of one cell only. */
  lemma LabelCell(l: Layout, j: Scan, c: Cell, c': Cell, u: int, u': int)
    requires LayoutOk(l) && ScanOk(j) && Populated(l, j.s1.coords, j.g1) && Rising(j.s1, j.abs)
    requires c in j.g1 && c' in j.g1 && u in j.g1[c] && u' in j.g1[c']
    requires 0 <= u < |j.s1.index| && 0 <= u' < |j.s1.index| && Label(j.s1, j.abs, u) == Label(j.s1, j.abs, u')
    ensures c == c'
  {
    LabelsApart(j.s1, j.abs, u, u');
    OneCell(l, j.s1.coords, j.g1, u);
  }

  /** The bonds one neighbour's side search adds are new. */
  lemma SideDistinct(l: Layout, j: Scan, c: Cell, nb: Cell)
    requires LayoutOk(l) && ScanOk(j) && Populated(l, j.s1.coords, j.g1) && Rising(j.s1, j.abs) && !j.two
    requires InGrid(j.dims, c) && InGrid(j.dims, nb)
    ensures Distinct(Side(j, c, nb))
  {
    CellEntries(j.g1, |j.s1.coords|, c);
    CellEntries(j.g1, |j.s1.coords|, nb);
    PopulatedEntries(l, j.s1.coords, j.g1);
    CrossLex(j.m, j.s1, j.s1, j.abs, j.g1[c], j.g1[nb]);
    LexStrictDistinct(Side(j, c, nb));
  }

  /** One selection: the second end of a side bond names the neighbour it came from. */
  lemma SideSame(l: Layout, j: Scan, c: Cell, nb: Cell, nb': Cell, x: Bond)
    requires LayoutOk(l) && ScanOk(j) && Populated(l, j.s1.coords, j.g1) && Rising(j.s1, j.abs) && !j.two
    requires InGrid(j.dims, c) && InGrid(j.dims, nb) && InGrid(j.dims, nb') && x in Side(j, c, nb')
    ensures x in Side(j, c, nb) ==> nb == nb'
  {
    SideEnds(j, c, nb', x);
    var u', w' :| u' in j.g1[c] && w' in j.g1[nb'] && 0 <= u' < |j.s1.index| && 0 <= w' < |j.s1.index|
      && x == Bond(Label(j.s1, j.abs, u'), Label(j.s1, j.abs, w'));
    if x in Side(j, c, nb) {
      SideEnds(j, c, nb, x);
      var u, w :| u in j.g1[c] && w in j.g1[nb] && 0 <= u < |j.s1.index| && 0 <= w < |j.s1.index|
        && x == Bond(Label(j.s1, j.abs, u), Label(j.s1, j.abs, w));
      LabelCell(l, j, nb, nb', w, w');
    }
  }

  /** One selection: a central bond has both ends in c, so no side search of c reports it. */
  lemma CentralSide(l: Layout, j: Scan, c: Cell, nb: Cell, x: Bond)
    requires LayoutOk(l) && ScanOk(j) && Populated(l, j.s1.coords, j.g1) && Rising(j.s1, j.abs) && !j.two
    requires InGrid(j.dims, c) && InGrid(j.dims, nb) && x in Central(j, c)
    ensures x in Side(j, c, nb) ==> nb == c
  {
    CentralEnds(j, c, x);
    var u', w' :| u' in j.g1[c] && w' in j.g1[c] && 0 <= u' < |j.s1.index| && 0 <= w' < |j.s1.index|
      && x == Bond(Label(j.s1, j.abs, u'), Label(j.s1, j.abs, w'));
    if x in Side(j, c, nb) {
      SideEnds(j, c, nb, x);
      var u, w :| u in j.g1[c] && w in j.g1[nb] && 0 <= u < |j.s1.index| && 0 <= w < |j.s1.index|
        && x == Bond(Label(j.s1, j.abs, u), Label(j.s1, j.abs, w));
      LabelCell(l, j, nb, c, w, w');
    }
  }

  /** One selection: the side searches over distinct neighbours report no bond twice. */
  lemma {:induction false} SidesDistinct(l: Layout, j: Scan, p: Part, c: Cell, nl: seq<Cell>)
    requires LayoutOk(l) && ScanOk(j) && Populated(l, j.s1.coords, j.g1) && Rising(j.s1, j.abs) && !j.two
    requires PartOk(j.dims, p) && InGrid(j.dims, c) && AllInGrid(j.dims, nl) && Distinct(nl)
    ensures Distinct(Sides(j, p, c, nl))
    decreases |nl|
  {
    if |nl| > 0 {
      var nl' := nl[..|nl| - 1];
      var nb := nl[|nl| - 1];
      assert AllInGrid(j.dims, nl') && Distinct(nl');
      SidesDistinct(l, j, p, c, nl');
      if Compared(p, c, nb) {
        SideDistinct(l, j, c, nb);
        forall x | x in Sides(j, p, c, nl') ensures x !in Side(j, c, nb) {
          SidesMembers(j, p, c, nl', x);
          var k :| 0 <= k < |nl'| && Compared(p, c, nl'[k]) && x in Side(j, c, nl'[k]);
          assert nl'[k] == nl[k] && nl[k] != nb;
          SideSame(l, j, c, nb, nl'[k], x);
        }
        DistinctConcat(Sides(j, p, c, nl'), Side(j, c, nb));
      } else {
        assert Sides(j, p, c, nl) == Sides(j, p, c, nl') + [];
      }
    }
  }

  /** One selection: the central search and the side searches of c share no bond. */
  lemma CentralSidesApart(l: Layout, j: Scan, p: Part, c: Cell, x: Bond)
    requires LayoutOk(l) && ScanOk(j) && Populated(l, j.s1.coords, j.g1) && Rising(j.s1, j.abs) && !j.two
    requires PartOk(j.dims, p) && InGrid(j.dims, c) && x in Central(j, c)
    ensures AllInGrid(j.dims, Neighbours(j.dims, j.periodic, c))
    ensures x !in Sides(j, p, c, Neighbours(j.dims, j.periodic, c))
  {
    var nl := Neighbours(j.dims, j.periodic, c);
    NeighboursShape(j.dims, j.periodic, c);
    NeighboursInGrid(j.dims, j.periodic, c);
    assert c !in nl;
    forall k | 0 <= k < |nl| ensures x !in Side(j, c, nl[k]) {
      assert nl[k] in nl;
      CentralSide(l, j, c, nl[k], x);
    }
    SidesMembers(j, p, c, nl, x);
  }

  /** One selection: a cell reports no bond twice. */
  lemma CellBondsDistinct(l: Layout, j: Scan, p: Part, c: Cell)
    requires LayoutOk(l) && ScanOk(j) && Populated(l, j.s1.coords, j.g1) && Rising(j.s1, j.abs) && !j.two
    requires PartOk(j.dims, p) && InGrid(j.dims, c)
    ensures Distinct(CellBonds(j, p, c))
  {
    var nl := Neighbours(j.dims, j.periodic, c);
    NeighboursShape(j.dims, j.periodic, c);
    NeighboursInGrid(j.dims, j.periodic, c);
    var s := j.g1[c];
    CellEntries(j.g1, |j.s1.coords|, c);
    PopulatedEntries(l, j.s1.coords, j.g1);
    TriangleOrdered(j.m, j.s1, j.abs, s, |s|);
    LexStrictDistinct(Central(j, c));
    SidesDistinct(l, j, p, c, nl);
    forall x | x in Central(j, c) ensures x !in Sides(j, p, c, nl) {
      CentralSidesApart(l, j, p, c, x);
    }
    DistinctConcat(Central(j, c), Sides(j, p, c, nl));
  }

  /** One selection: two cells that report the same bond, in any parts, are one cell. */
  lemma CellsApart(l: Layout, j: Scan, p: Part, p': Part, c: Cell, c': Cell, x: Bond)
    requires LayoutOk(l) && ScanOk(j) && Populated(l, j.s1.coords, j.g1) && Rising(j.s1, j.abs) && !j.two
    requires PartOk(j.dims, p) && PartOk(j.dims, p') && InGrid(j.dims, c) && InGrid(j.dims, c')
    requires x in CellBonds(j, p, c)
    ensures x in CellBonds(j, p', c') ==> c == c'
  {
    CellBondEnds(j, p, c, x);
    var u :| u in j.g1[c] && 0 <= u < |j.s1.index| && x.a == Label(j.s1, j.abs, u);
    if x in CellBonds(j, p', c') {
      CellBondEnds(j, p', c', x);
      var u' :| u' in j.g1[c'] && 0 <= u' < |j.s1.index| && x.a == Label(j.s1, j.abs, u');
      LabelCell(l, j, c, c', u, u');
    }
  }
  /** One selection: the search of one part reports no bond twice. */
  lemma PartDistinct(l: Layout, j: Scan, p: Part)
    requires LayoutOk(l) && ScanOk(j) && Populated(l, j.s1.coords, j.g1) && Rising(j.s1, j.abs) && !j.two
    requires PartOk(j.dims, p)
    ensures Distinct(PartBonds(j, p))
  {
    var t := BondTable(j, p);
    var lo, hi := PartLo(p), PartHi(j.dims, p);
    assert Covers(t, lo, hi);
    forall c | InBox(lo, hi, c) && c in t ensures Distinct(t[c]) {
      PartBox(j.dims, p, c);
      CellBondsDistinct(l, j, p, c);
    }
    forall c, c', v | InBox(lo, hi, c) && InBox(lo, hi, c') && c in t && c' in t && c != c' && v in t[c]
      ensures v !in t[c']
    {
      PartBox(j.dims, p, c);
      PartBox(j.dims, p, c');
      CellsApart(l, j, p, p, c, c', v);
    }
    WalkDistinct(t, lo, hi);
  }

  /** One selection: the first n threads together report no bond twice. */
  lemma {:induction false} PartsDistinct(l: Layout, j: Scan, sp: Split, n: int)
    requires LayoutOk(l) && ScanOk(j) && Populated(l, j.s1.coords, j.g1) && Rising(j.s1, j.abs) && !j.two
    requires SplitOk(j.dims, sp) && 0 <= n <= |sp.b|
    ensures Distinct(PartsBonds(j, sp.dim, sp.b, sp.e, n))
    decreases n
  {
    if n > 0 {
      var p := Part(sp.dim, sp.b[n - 1], sp.e[n - 1]);
      PartitionPart(j.dims, sp.dim, sp.b, sp.e, n - 1);
      var before := PartsBonds(j, sp.dim, sp.b, sp.e, n - 1);
      assert PartsBonds(j, sp.dim, sp.b, sp.e, n) == before + PartBonds(j, p);
      PartsDistinct(l, j, sp, n - 1);
      PartDistinct(l, j, p);
      forall x | x in before ensures x !in PartBonds(j, p) {
        PartsMembers(j, sp, n - 1, x);
        var c :| Reports(j, sp, c, x) && Slot(sp.e, Coord(c, sp.dim), |sp.e|) < n - 1;
        PartMembers(j, sp, n - 1, x);
        if x in PartBonds(j, p) {
          var c' :| Reports(j, sp, c', x) && Slot(sp.e, Coord(c', sp.dim), |sp.e|) == n - 1;
          CellsApart(l, j, PartOf(j.dims, sp, c), PartOf(j.dims, sp, c'), c, c', x);
        }
      }
      DistinctConcat(before, PartBonds(j, p));
    }
  }

  /**
   * do_search over one selection whose labels tell positions apart reports
   * no bond twice, whatever the number of threads.
   */
  lemma SelfSearchNoRepeat(l: Layout, j: Scan, hardware: int, bon: seq<Bond>, b: seq<int>, e: seq<int>)
    requires LayoutOk(l) && ScanOk(j) && Populated(l, j.s1.coords, j.g1) && Rising(j.s1, j.abs)
    requires !j.two && Searched(j, hardware, bon, b, e)
    ensures Distinct(bon)
  {
    SearchedIsSplit(j, hardware, bon, b, e);
    var sp := SplitOf(j, hardware, b, e);
    PartsDistinct(l, j, sp, |sp.b|);
  }
}
