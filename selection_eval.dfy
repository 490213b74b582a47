/**
 * Evaluation of a selection tree against a system: `eval_numeric` gives the
 * value of an arithmetic node at one atom, `eval_node` the list of selected
 * atom indices.  Logical nodes work over index lists with the sorted-range
 * algorithms; AND hands the result of its left operand to the right one as a
 * subspace.  Regex matching, the distance kernels of `dist point/vector/plane`
 * and the within-cutoff test of the grid searcher are parameters of the
 * context.
 */
module SelectionEval {
  import opened Wrappers
  import opened SelectionAst
  import opened StdAlgorithms
  import opened AtomData

  /**
   * What evaluation reads: the atoms, the coordinates of the current frame,
   * `regexMatch(pattern, text)`, `distance(code, parameters, pbc, coordinate)`
   * for the geometric distances, and `near(cutoff, periodic, i, j)`, atom i
   * lying within the cutoff of atom j.
   */
  datatype Context = Context(
    atoms: seq<Atom>,
    coords: seq<Vec3>,
    regexMatch: (string, string) -> bool,
    distance: (Code, seq<real>, bool, Vec3) -> real,
    near: (real, bool, int, int) -> bool)

  const BadGet := "bad_get"
  const AtomRange := "atom index out of range"
  const NoValue := "node has no numeric value"
  const DivByZero := "Divition by zero in selection!"

  datatype TextField = AtomName | ResidueName | AtomTag
  datatype IntField = ResidueId | ResidueIndex

  function Text(a: Atom, f: TextField): string {
    match f
    case AtomName => a.name
    case ResidueName => a.resname
    case AtomTag => a.tag
  }

  function Number(a: Atom, f: IntField): int {
    match f
    case ResidueId => a.resid
    case ResidueIndex => a.resindex
  }

  /** The per-atom tests of the loops over all atoms. */
  datatype AtomTest =
    | TextIs(f: TextField, s: string)
    | TextLike(f: TextField, pattern: string)
    | ChainIs(c: char)
    | IntIs(g: IntField, k: int)
    | InResidues(rs: set<int>)
    | Everyone

  predicate Holds(ctx: Context, t: AtomTest, at: int)
    requires 0 <= at < |ctx.atoms|
  {
    var a := ctx.atoms[at];
    match t
    case TextIs(f, s) => Text(a, f) == s
    case TextLike(f, p) => ctx.regexMatch(p, Text(a, f))
    case ChainIs(c) => a.chain == c
    case IntIs(g, k) => Number(a, g) == k
    case InResidues(rs) => a.resindex in rs
    case Everyone => true
  }

  /** `for(at=0;at<m;++at) if(test) result.push_back(at)`: the passing atoms below m, ascending. */
  function Select(ctx: Context, t: AtomTest, m: nat): (r: seq<int>)
    requires m <= |ctx.atoms|
    ensures Strict(r) && InRange(r, m)
    ensures forall x :: x in r <==> 0 <= x < m && Holds(ctx, t, x)
    decreases m
  {
    if m == 0 then []
    else
      var p := Select(ctx, t, m - 1);
      if Holds(ctx, t, m - 1) then
        StrictSnoc(p, m - 1);
        p + [m - 1]
      else p
  }

  /** Every atom index, ascending. */
  function AllAtoms(ctx: Context): (r: seq<int>)
    ensures Strict(r) && forall x :: x in r <==> 0 <= x < |ctx.atoms|
  {
    Select(ctx, Everyone, |ctx.atoms|)
  }

  /** The candidates of a node: the subspace when one is given, else all atoms. */
  function Sub(ctx: Context, sub: Option<seq<int>>): seq<int> {
    if sub.None? then AllAtoms(ctx) else sub.value
  }

  predicate InRange(s: seq<int>, n: int) {
    forall i :: 0 <= i < |s| ==> 0 <= s[i] < n
  }

  // ---------------------------------------------------------------------------
  // eval_numeric

  /**
   * The value of an arithmetic node at atom `at`.  DIV divides its first
   * child by its second and fails on a zero divisor (the corrected order; see
   * DivAsWritten).  A code without a branch returns nothing in the source and
   * is an error here.
   */
  function EvalNumeric(ctx: Context, n: Node, at: int): (r: Result<real>)
    decreases n
  {
    match n.code
    case Int => if |n.children| > 0 && n.children[0].IntC? then Ok(n.children[0].i as real) else Err(BadGet)
    case Float => if |n.children| > 0 && n.children[0].FloatC? then Ok(n.children[0].f) else Err(BadGet)
    case X => if 0 <= at < |ctx.coords| then Ok(ctx.coords[at].x) else Err(AtomRange)
    case Y => if 0 <= at < |ctx.coords| then Ok(ctx.coords[at].y) else Err(AtomRange)
    case Z => if 0 <= at < |ctx.coords| then Ok(ctx.coords[at].z) else Err(AtomRange)
    case Beta => if 0 <= at < |ctx.atoms| then Ok(ctx.atoms[at].beta) else Err(AtomRange)
    case Occ => if 0 <= at < |ctx.atoms| then Ok(ctx.atoms[at].occupancy) else Err(AtomRange)
    case UnaryMinus =>
      var c :- ChildNode(n, 0);
      var v :- EvalNumeric(ctx, c, at);
      Ok(-v)
    case Plus => Arith(ctx, n, at)
    case Minus => Arith(ctx, n, at)
    case Mult => Arith(ctx, n, at)
    case Div => Arith(ctx, n, at)
    case Point => GeometryOf(ctx, n, 3, at)
    case Vector => GeometryOf(ctx, n, 6, at)
    case Plane => GeometryOf(ctx, n, 6, at)
    case _ => Err(NoValue)
  }

  /**
   * PLUS, MINUS, MULT and DIV: both children are evaluated in order, DIV
   * stops on a zero second operand, and the two values are combined.
   */
  function Arith(ctx: Context, n: Node, at: int): (r: Result<real>)
    decreases n, 1
  {
    var c0 :- ChildNode(n, 0);
    var v0 :- EvalNumeric(ctx, c0, at);
    var c1 :- ChildNode(n, 1);
    var v1 :- EvalNumeric(ctx, c1, at);
    if n.code == Div && v1 == 0.0 then Err(DivByZero) else Ok(Combine(n.code, v0, v1))
  }

  /** The arithmetic of the binary codes, left operand first. */
  function Combine(c: Code, a: real, b: real): real
    requires c == Div ==> b != 0.0
  {
    match c
    case Plus => a + b
    case Minus => a - b
    case Mult => a * b
    case Div => a / b
    case _ => 0.0
  }

  /**
   * `a / b` (the tree num_term builds, left operand first): a zero divisor
   * is the division-by-zero error, otherwise the quotient a / b.
   */
  lemma DivOperands(ctx: Context, a: Node, b: Node, at: int)
    requires EvalNumeric(ctx, a, at).Ok? && EvalNumeric(ctx, b, at).Ok?
    ensures var va := EvalNumeric(ctx, a, at).value;
      var vb := EvalNumeric(ctx, b, at).value;
      var r := EvalNumeric(ctx, Node(Div, [NodeC(a), NodeC(b)], []), at);
      && (r.Err? <==> vb == 0.0)
      && (r.Err? ==> r.msg == DivByZero)
      && (vb != 0.0 ==> r == Ok(va / vb))
  {
    var nd := Node(Div, [NodeC(a), NodeC(b)], []);
    assert ChildNode(nd, 0) == Ok(a) && ChildNode(nd, 1) == Ok(b);
    var va := EvalNumeric(ctx, a, at).value;
    var vb := EvalNumeric(ctx, b, at).value;
    assert EvalNumeric(ctx, nd, at) == Arith(ctx, nd, at);
  }

  /**
   * DIV as written: the FIRST child is tested for zero and the second is
   * divided by it, so the tree of `a / b` computes b / a.
   */
  function DivAsWritten(ctx: Context, n: Node, at: int): (r: Result<real>)
    requires n.code == Div
    ensures r.Ok? ==> ChildNode(n, 0).Ok? && ChildNode(n, 1).Ok?
  {
    var c0 :- ChildNode(n, 0);
    var v0 :- EvalNumeric(ctx, c0, at);
    if v0 == 0.0 then Err(DivByZero)
    else
      var c1 :- ChildNode(n, 1);
      var v1 :- EvalNumeric(ctx, c1, at);
      Ok(v1 / v0)
  }

  /** `6 / 2` */
  function SixOverTwo(): Node {
    Node(Div, [NodeC(IntLit(6)), NodeC(IntLit(2))], [])
  }

  /** As written `6 / 2` is 1/3; the corrected division gives 3. */
  lemma DivIsReversed(ctx: Context, at: int)
    ensures DivAsWritten(ctx, SixOverTwo(), at) == Ok(2.0 / 6.0)
    ensures EvalNumeric(ctx, SixOverTwo(), at) == Ok(3.0)
  {
    assert EvalNumeric(ctx, IntLit(6), at) == Ok(6.0);
    assert EvalNumeric(ctx, IntLit(2), at) == Ok(2.0);
  }

  /**
   * What is_node_pure promises of a value: a pure node reads no coordinate,
   * so its value at an atom is the same under any other coordinates and
   * any other geometry function.
   */
  lemma {:induction false} PureValueIgnoresCoordinates(ctx: Context, coords: seq<Vec3>,
      distance: (Code, seq<real>, bool, Vec3) -> real, n: Node, at: int)
    requires Pure(n)
    ensures EvalNumeric(ctx.(coords := coords, distance := distance), n, at) == EvalNumeric(ctx, n, at)
    decreases n
  {
    var ctx' := ctx.(coords := coords, distance := distance);
    if n.code == UnaryMinus {
      if ChildNode(n, 0).Ok? {
        PureChild(n, 0, 0);
        PureValueIgnoresCoordinates(ctx, coords, distance, n.children[0].n, at);
      }
    } else if n.code == Plus || n.code == Minus || n.code == Mult || n.code == Div {
      if ChildNode(n, 0).Ok? {
        PureChild(n, 0, 0);
        PureValueIgnoresCoordinates(ctx, coords, distance, n.children[0].n, at);
      }
      if ChildNode(n, 1).Ok? {
        PureChild(n, 0, 1);
        PureValueIgnoresCoordinates(ctx, coords, distance, n.children[1].n, at);
      }
      assert Arith(ctx', n, at) == Arith(ctx, n, at);
    }
  }

  /**
   * POINT (k = 3) and VECTOR/PLANE (k = 6): the parameters are the first k
   * numeric children, and a child k, when present, is the pbc flag.
   */
  function GeometryOf(ctx: Context, n: Node, k: nat, at: int): (r: Result<real>)
    decreases n, 1
  {
    var ps :- NumericKids(ctx, n, 0, k, at);
    var pbc :- if |n.children| == k + 1 then ChildAsBool(n, k) else Ok(false);
    if 0 <= at < |ctx.coords| then Ok(ctx.distance(n.code, ps, pbc, ctx.coords[at])) else Err(AtomRange)
  }

  /** The values of the sub-tree children i .. k-1 at one atom, in order. */
  function NumericKids(ctx: Context, n: Node, i: nat, k: nat, at: int): (r: Result<seq<real>>)
    ensures r.Ok? ==> |r.value| == if i >= k then 0 else k - i
    decreases n, 0, k - i
  {
    if i >= k then Ok([])
    else
      var c :- ChildNode(n, i);
      var v :- EvalNumeric(ctx, c, at);
      var rest :- NumericKids(ctx, n, i + 1, k, at);
      Ok([v] + rest)
  }

  /** The relation of a comparison code. */
  predicate Compare(c: Code, a: real, b: real) {
    match c
    case Eq => a == b
    case Neq => a != b
    case Lt => a < b
    case Gt => a > b
    case Leq => a <= b
    case Geq => a >= b
    case _ => false
  }

  predicate IsComparison(c: Code) {
    c.Eq? || c.Neq? || c.Lt? || c.Gt? || c.Leq? || c.Geq?
  }

  // ---------------------------------------------------------------------------
  // The list nodes: NAME, RESNAME, TAG, CHAIN, RESID, RESINDEX, INDEX.  Each
  // child contributes its own list and the lists are concatenated in child order.

  /** child_as_str(i)[0]; an empty string yields its terminating NUL. */
  function FirstChar(s: string): char {
    if |s| > 0 then s[0] else 0 as char
  }

  /** The atoms whose integer field lies in lo..hi, value by value: `for(k=i1;k<=i2;++k)`. */
  function RangeSelect(ctx: Context, g: IntField, lo: int, hi: int): (r: seq<int>)
    ensures InRange(r, |ctx.atoms|)
    ensures forall x :: x in r <==> 0 <= x < |ctx.atoms| && lo <= Number(ctx.atoms[x], g) <= hi
    decreases if lo > hi then 0 else hi - lo + 1
  {
    if lo > hi then [] else Select(ctx, IntIs(g, lo), |ctx.atoms|) + RangeSelect(ctx, g, lo + 1, hi)
  }

  /** The indices lo..hi that are valid atom indices, ascending. */
  function IndexRange(lo: int, hi: int, size: int): (r: seq<int>)
    ensures Strict(r) && InRange(r, size)
    ensures forall x :: x in r <==> lo <= x <= hi && 0 <= x < size
    decreases if lo > hi then 0 else hi - lo + 1
  {
    if lo > hi then []
    else
      var rest := IndexRange(lo + 1, hi, size);
      if 0 <= lo < size then
        BelowMembers(lo, rest, true);
        ConsStrict(lo, rest);
        [lo] + rest
      else rest
  }

  /** An index child: the value itself if it is a valid atom index. */
  function IndexOne(k: int, size: int): (r: seq<int>)
    ensures InRange(r, size)
    ensures forall x :: x in r <==> x == k && 0 <= x < size
  {
    if 0 <= k < size then [k] else []
  }

  /**
   * The list child j of a list node contributes.  An integer child that is
   * not an int literal is taken as a range node (the source's catch of
   * bad_get), whose two ends must be int literals.
   */
  function KidList(ctx: Context, n: Node, j: int): (r: Result<seq<int>>)
    requires 0 <= j < |n.children|
    ensures r.Ok? ==> InRange(r.value, |ctx.atoms|)
  {
    var size := |ctx.atoms|;
    match n.code
    case Name => TextKid(ctx, n, j, AtomName)
    case Resname => TextKid(ctx, n, j, ResidueName)
    case Tag => TextKid(ctx, n, j, AtomTag)
    case Chain =>
      var s :- ChildAsStr(n, j);
      Ok(Select(ctx, ChainIs(FirstChar(s)), size))
    case Resid => IntKid(ctx, n, j, ResidueId)
    case Resindex => IntKid(ctx, n, j, ResidueIndex)
    case Index =>
      (match ChildAsInt(n, j)
       case Ok(k) => Ok(IndexOne(k, size))
       case Err(_) =>
         var range :- ChildNode(n, j);
         var i1 :- ChildAsInt(range, 0);
         var i2 :- ChildAsInt(range, 1);
         Ok(IndexRange(i1, i2, size)))
    case _ => Ok([])
  }

  /** A string child selects by equality, a regex child by the matcher, any other code nothing. */
  function TextKid(ctx: Context, n: Node, j: int, f: TextField): (r: Result<seq<int>>)
    requires 0 <= j < |n.children|
    ensures r.Ok? <==> ChildAsStr(n, j).Ok?
    ensures r.Ok? ==> Strict(r.value) && forall x :: x in r.value <==>
      0 <= x < |ctx.atoms| && TextMatches(ctx, n.children[j].n, ChildAsStr(n, j).value, Text(ctx.atoms[x], f))
  {
    var s :- ChildAsStr(n, j);
    var c := n.children[j].n;
    Ok(if c.code == Str then Select(ctx, TextIs(f, s), |ctx.atoms|)
       else if c.code == Regex then Select(ctx, TextLike(f, s), |ctx.atoms|)
       else [])
  }

  predicate TextMatches(ctx: Context, c: Node, s: string, text: string) {
    (c.code == Str && text == s) || (c.code == Regex && ctx.regexMatch(s, text))
  }

  function IntKid(ctx: Context, n: Node, j: int, g: IntField): (r: Result<seq<int>>)
    requires 0 <= j < |n.children|
    ensures r.Ok? ==> InRange(r.value, |ctx.atoms|)
    ensures ChildAsInt(n, j).Ok? ==> r.Ok? && forall x :: x in r.value <==>
      0 <= x < |ctx.atoms| && Number(ctx.atoms[x], g) == ChildAsInt(n, j).value
  {
    match ChildAsInt(n, j)
    case Ok(k) => Ok(Select(ctx, IntIs(g, k), |ctx.atoms|))
    case Err(_) =>
      var range :- ChildNode(n, j);
      var i1 :- ChildAsInt(range, 0);
      var i2 :- ChildAsInt(range, 1);
      Ok(RangeSelect(ctx, g, i1, i2))
  }

  /** The lists of children i, i+1, ... concatenated; the first failing child stops it. */
  function ListKids(ctx: Context, n: Node, i: nat): (r: Result<seq<int>>)
    ensures r.Ok? ==> InRange(r.value, |ctx.atoms|)
    ensures r.Ok? ==> forall j :: i <= j < |n.children| ==> KidList(ctx, n, j).Ok?
    ensures r.Ok? ==> forall x :: x in r.value <==>
      exists j :: i <= j < |n.children| && x in KidList(ctx, n, j).value
    decreases |n.children| - i
  {
    if i >= |n.children| then Ok([])
    else
      var here :- KidList(ctx, n, i);
      var rest :- ListKids(ctx, n, i + 1);
      Ok(here + rest)
  }

  // ---------------------------------------------------------------------------
  // Comparisons and WITHIN: loops over the candidates.

  /** Both sides of a comparison are sub-trees that evaluate at the atom. */
  predicate Defined(ctx: Context, n: Node, at: int) {
    && ChildNode(n, 0).Ok? && ChildNode(n, 1).Ok?
    && EvalNumeric(ctx, ChildNode(n, 0).value, at).Ok?
    && EvalNumeric(ctx, ChildNode(n, 1).value, at).Ok?
  }

  /** Both sides of a comparison evaluate at the atom and satisfy its relation. */
  predicate Passes(ctx: Context, n: Node, at: int) {
    && Defined(ctx, n, at)
    && Compare(n.code, EvalNumeric(ctx, ChildNode(n, 0).value, at).value, EvalNumeric(ctx, ChildNode(n, 1).value, at).value)
  }

  /** The first m candidates that pass the comparison, in candidate order; the first error stops it. */
  function Keep(ctx: Context, n: Node, cs: seq<int>, m: nat): (r: Result<seq<int>>)
    requires m <= |cs|
    ensures r.Ok? ==> forall x :: x in r.value <==> x in cs[..m] && Passes(ctx, n, x)
    ensures r.Ok? ==> |r.value| <= m
    ensures r.Ok? && Strict(cs) ==> Strict(r.value)
    ensures r.Ok? ==> forall j :: 0 <= j < m ==> Defined(ctx, n, cs[j])
    decreases m
  {
    if m == 0 then Ok([])
    else
      var p :- Keep(ctx, n, cs, m - 1);
      var at := cs[m - 1];
      var c0 :- ChildNode(n, 0);
      var v0 :- EvalNumeric(ctx, c0, at);
      var c1 :- ChildNode(n, 1);
      var v1 :- EvalNumeric(ctx, c1, at);
      assert cs[..m] == cs[..m - 1] + [at];
      if Compare(n.code, v0, v1) then
        if Strict(cs) then
          KeepBelow(cs, m, p);
          Ok(p + [at])
        else Ok(p + [at])
      else Ok(p)
  }

  lemma KeepBelow(cs: seq<int>, m: nat, p: seq<int>)
    requires 0 < m <= |cs| && Strict(cs) && Strict(p)
    requires forall x :: x in p ==> x in cs[..m - 1]
    ensures Strict(p + [cs[m - 1]])
  {
    forall x | x in p ensures x < cs[m - 1] {
      var k :| 0 <= k < m - 1 && cs[..m - 1][k] == x;
    }
    StrictSnoc(p, cs[m - 1]);
  }

  /** Some atom of the target list lies within the cutoff of atom `at`. */
  predicate NearAny(ctx: Context, d: real, periodic: bool, at: int, target: seq<int>) {
    exists j :: 0 <= j < |target| && ctx.near(d, periodic, at, target[j])
  }

  /** The first m source atoms lying within the cutoff of some target atom, in source order. */
  function NearOnes(ctx: Context, d: real, periodic: bool, src: seq<int>, target: seq<int>, m: nat): (r: seq<int>)
    requires m <= |src|
    ensures forall x :: x in r <==> x in src[..m] && NearAny(ctx, d, periodic, x, target)
    decreases m
  {
    if m == 0 then []
    else
      var p := NearOnes(ctx, d, periodic, src, target, m - 1);
      assert src[..m] == src[..m - 1] + [src[m - 1]];
      if NearAny(ctx, d, periodic, src[m - 1], target) then p + [src[m - 1]] else p
  }

  /**
   * The within-cutoff search with include_self: the source atoms near some
   * target atom, then every target atom, sorted and without duplicates.
   */
  function WithinOf(ctx: Context, d: real, periodic: bool, src: seq<int>, target: seq<int>): (r: seq<int>)
    ensures Strict(r)
    ensures forall x :: x in r <==> (x in src && NearAny(ctx, d, periodic, x, target)) || x in target
  {
    var u := NearOnes(ctx, d, periodic, src, target, |src|);
    assert src[..|src|] == src;
    SortMembers(u + target);
    Unique(Sort(u + target))
  }

  // ---------------------------------------------------------------------------
  // eval_node

  /** The residue indices of the listed atoms. */
  function ResidueSet(ctx: Context, r: seq<int>): set<int> {
    set j | j in r && 0 <= j < |ctx.atoms| :: ctx.atoms[j].resindex
  }

  /** The complement of an operand in [0, Natoms), ascending. */
  function NotOf(ctx: Context, r: seq<int>): (c: seq<int>)
    ensures Strict(c) && forall x :: x in c <==> 0 <= x < |ctx.atoms| && x !in r
  {
    SortMembers(r);
    DifferenceStrict(AllAtoms(ctx), Sort(r));
    Difference(AllAtoms(ctx), Sort(r))
  }

  /**
   * The selected atom indices of node n; `sub` is the subspace handed down by
   * an enclosing AND (None: all atoms).  PRECOMPUTED under a subspace sorts
   * both lists before intersecting them, NOT of an empty operand is every
   * atom and BY evaluates its operand over all atoms (see the findings).
   */
  function Eval(ctx: Context, n: Node, sub: Option<seq<int>>): (r: Result<seq<int>>)
    decreases n, 2
  {
    var c := n.code;
    if c.Precomputed? then Ok(PrecomputedOf(n, sub))
    else if c.Not? then NotNode(ctx, n, sub)
    else if c.Or? then OrNode(ctx, n, sub)
    else if c.And? then AndNode(ctx, n, sub)
    else if ListCode(c) then ListKids(ctx, n, 0)
    else if c.Within? then WithinNode(ctx, n, sub)
    else if c.By? then ByNode(ctx, n)
    else if c.All? then Ok(AllAtoms(ctx))
    else if IsComparison(c) then CompareNode(ctx, n, sub)
    else Ok([])
  }

  /** PRECOMPUTED: the stored list, intersected with the sorted subspace when there is one. */
  function PrecomputedOf(n: Node, sub: Option<seq<int>>): seq<int> {
    if sub.None? then n.precomputed else Intersection(Sort(sub.value), Sort(n.precomputed))
  }

  /** NOT: the complement of the operand. */
  function NotNode(ctx: Context, n: Node, sub: Option<seq<int>>): (r: Result<seq<int>>)
    ensures r.Ok? ==> ChildNode(n, 0).Ok? && Eval(ctx, n.children[0].n, sub).Ok?
    decreases n, 1
  {
    var c :- ChildNode(n, 0);
    var r1 :- Eval(ctx, c, sub);
    Ok(NotOf(ctx, r1))
  }

  /** OR: the union of the sorted operands. */
  function OrNode(ctx: Context, n: Node, sub: Option<seq<int>>): (r: Result<seq<int>>)
    ensures r.Ok? ==> (ChildNode(n, 0).Ok? && ChildNode(n, 1).Ok?
      && Eval(ctx, n.children[0].n, sub).Ok? && Eval(ctx, n.children[1].n, sub).Ok?)
    decreases n, 1
  {
    var c0 :- ChildNode(n, 0);
    var r1 :- Eval(ctx, c0, sub);
    var c1 :- ChildNode(n, 1);
    var r2 :- Eval(ctx, c1, sub);
    Ok(Union(Sort(r1), Sort(r2)))
  }

  /** AND: the right operand over the left one's result, then the intersection of the sorted two. */
  function AndNode(ctx: Context, n: Node, sub: Option<seq<int>>): (r: Result<seq<int>>)
    ensures r.Ok? ==> (ChildNode(n, 0).Ok? && ChildNode(n, 1).Ok? && Eval(ctx, n.children[0].n, sub).Ok?
      && Eval(ctx, n.children[1].n, Some(Eval(ctx, n.children[0].n, sub).value)).Ok?)
    decreases n, 1
  {
    var c0 :- ChildNode(n, 0);
    var r1 :- Eval(ctx, c0, sub);
    var c1 :- ChildNode(n, 1);
    var r2 :- Eval(ctx, c1, Some(r1));
    Ok(Intersection(Sort(r1), Sort(r2)))
  }

  /** WITHIN: the candidates near the operand, evaluated over all atoms, with the operand itself. */
  function WithinNode(ctx: Context, n: Node, sub: Option<seq<int>>): (r: Result<seq<int>>)
    ensures r.Ok? ==> ChildNode(n, 1).Ok? && Eval(ctx, n.children[1].n, None).Ok?
    decreases n, 1
  {
    var d :- ChildAsFloatOrInt(n, 0);
    var c1 :- ChildNode(n, 1);
    var inner :- Eval(ctx, c1, None);
    var periodic :- if |n.children| == 3 then ChildAsBool(n, 2) else Ok(false);
    Ok(WithinOf(ctx, d, periodic, Sub(ctx, sub), inner))
  }

  /** BY RESIDUE: the residues of the operand, evaluated over all atoms. */
  function ByNode(ctx: Context, n: Node): (r: Result<seq<int>>)
    ensures r.Ok? ==> (ChildNode(n, 0).Ok? && Eval(ctx, n.children[0].n, None).Ok?
      && InRange(Eval(ctx, n.children[0].n, None).value, |ctx.atoms|))
    decreases n, 1
  {
    var c :- ChildNode(n, 0);
    var r1 :- Eval(ctx, c, None);
    ByOf(ctx, r1)
  }

  /** A comparison: the candidates that pass it, in candidate order. */
  function CompareNode(ctx: Context, n: Node, sub: Option<seq<int>>): (r: Result<seq<int>>)
  {
    Keep(ctx, n, Sub(ctx, sub), |Sub(ctx, sub)|)
  }

  // Eval on one kind of node at a time: each lemma unfolds the dispatch once.

  predicate ListCode(c: Code) {
    c.Name? || c.Resname? || c.Tag? || c.Chain? || c.Resid? || c.Resindex? || c.Index?
  }

  lemma EvalPrecomputedIs(ctx: Context, n: Node, sub: Option<seq<int>>)
    requires n.code == Precomputed
    ensures Eval(ctx, n, sub) == Ok(PrecomputedOf(n, sub))
  {
  }

  lemma EvalListIs(ctx: Context, n: Node, sub: Option<seq<int>>)
    requires ListCode(n.code)
    ensures Eval(ctx, n, sub) == ListKids(ctx, n, 0)
  {
  }

  lemma EvalCompareIs(ctx: Context, n: Node, sub: Option<seq<int>>)
    requires IsComparison(n.code)
    ensures Eval(ctx, n, sub) == Keep(ctx, n, Sub(ctx, sub), |Sub(ctx, sub)|)
  {
  }

  lemma EvalWithinIs(ctx: Context, n: Node, sub: Option<seq<int>>)
    requires n.code == Within
    ensures Eval(ctx, n, sub) == WithinNode(ctx, n, sub)
  {
  }

  lemma EvalByIs(ctx: Context, n: Node, sub: Option<seq<int>>)
    requires n.code == By
    ensures Eval(ctx, n, sub) == ByNode(ctx, n)
  {
  }

  /** BY RESIDUE over an operand: every atom of the system in a residue the operand touches, ascending. */
  function ByOf(ctx: Context, r1: seq<int>): (r: Result<seq<int>>)
    ensures r.Ok? <==> InRange(r1, |ctx.atoms|)
    ensures r.Ok? ==> Strict(r.value) && forall x :: x in r.value <==>
      0 <= x < |ctx.atoms| && exists j :: j in r1 && ctx.atoms[j].resindex == ctx.atoms[x].resindex
  {
    if !InRange(r1, |ctx.atoms|) then Err(AtomRange)
    else Ok(Select(ctx, InResidues(ResidueSet(ctx, r1)), |ctx.atoms|))
  }

  // ---------------------------------------------------------------------------
  // What each node selects.

  /** PRECOMPUTED: the stored list, or under a subspace the sorted atoms in both. */
  lemma EvalPrecomputed(ctx: Context, n: Node, sub: Option<seq<int>>)
    requires n.code == Precomputed
    ensures sub.None? ==> Eval(ctx, n, sub) == Ok(n.precomputed)
    ensures sub.Some? ==> Eval(ctx, n, sub).Ok? && Sorted(Eval(ctx, n, sub).value)
    ensures sub.Some? ==> forall x :: x in Eval(ctx, n, sub).value <==> x in sub.value && x in n.precomputed
  {
    if sub.Some? {
      SortMembers(sub.value);
      SortMembers(n.precomputed);
      IntersectionSorted(Sort(sub.value), Sort(n.precomputed), false);
    }
  }

  /** OR: the sorted union of what its operands select under the same subspace. */
  lemma EvalOr(ctx: Context, n: Node, sub: Option<seq<int>>)
    requires n.code == Or && Eval(ctx, n, sub).Ok?
    ensures ChildNode(n, 0).Ok? && ChildNode(n, 1).Ok?
    ensures var l := Eval(ctx, n.children[0].n, sub); var q := Eval(ctx, n.children[1].n, sub);
      && l.Ok? && q.Ok? && Sorted(Eval(ctx, n, sub).value)
      && forall x :: x in Eval(ctx, n, sub).value <==> x in l.value || x in q.value
  {
    var l := Eval(ctx, n.children[0].n, sub).value;
    var q := Eval(ctx, n.children[1].n, sub).value;
    SortMembers(l);
    SortMembers(q);
    UnionSorted(Sort(l), Sort(q), false);
  }

  /** AND: the right operand is evaluated over the left one's result; the sorted atoms in both. */
  lemma EvalAnd(ctx: Context, n: Node, sub: Option<seq<int>>)
    requires n.code == And && Eval(ctx, n, sub).Ok?
    ensures ChildNode(n, 0).Ok? && ChildNode(n, 1).Ok?
    ensures var l := Eval(ctx, n.children[0].n, sub);
      && l.Ok?
      && var q := Eval(ctx, n.children[1].n, Some(l.value));
      && q.Ok? && Sorted(Eval(ctx, n, sub).value)
      && forall x :: x in Eval(ctx, n, sub).value <==> x in l.value && x in q.value
  {
    var l := Eval(ctx, n.children[0].n, sub).value;
    var q := Eval(ctx, n.children[1].n, Some(l)).value;
    SortMembers(l);
    SortMembers(q);
    IntersectionSorted(Sort(l), Sort(q), false);
  }

  /** NOT: every atom its operand does not select, ascending, also for an empty operand. */
  lemma EvalNot(ctx: Context, n: Node, sub: Option<seq<int>>)
    requires n.code == Not && Eval(ctx, n, sub).Ok?
    ensures ChildNode(n, 0).Ok? && Eval(ctx, n.children[0].n, sub).Ok?
    ensures Strict(Eval(ctx, n, sub).value)
    ensures forall x :: x in Eval(ctx, n, sub).value <==>
      0 <= x < |ctx.atoms| && x !in Eval(ctx, n.children[0].n, sub).value
  {
  }

  /** Every list node, INDEX included, selects valid atom indices only. */
  lemma EvalListInRange(ctx: Context, n: Node, sub: Option<seq<int>>)
    requires n.code in {Name, Resname, Tag, Chain, Resid, Resindex, Index} && Eval(ctx, n, sub).Ok?
    ensures InRange(Eval(ctx, n, sub).value, |ctx.atoms|)
    ensures forall x :: x in Eval(ctx, n, sub).value <==>
      exists j :: 0 <= j < |n.children| && x in KidList(ctx, n, j).value
  {
  }

  /** An INDEX value outside [0, Natoms) selects nothing; a valid one selects itself. */
  lemma IndexValue(ctx: Context, n: Node, j: int)
    requires n.code == Index && 0 <= j < |n.children| && ChildAsInt(n, j).Ok?
    ensures var k := ChildAsInt(n, j).value;
      KidList(ctx, n, j) == Ok(if 0 <= k < |ctx.atoms| then [k] else [])
  {
  }

  /** An INDEX range keeps exactly its values inside [0, Natoms), ascending. */
  lemma IndexRangeValue(ctx: Context, n: Node, j: int)
    requires n.code == Index && 0 <= j < |n.children| && ChildAsInt(n, j).Err?
    requires ChildNode(n, j).Ok?
    requires ChildAsInt(n.children[j].n, 0).Ok? && ChildAsInt(n.children[j].n, 1).Ok?
    ensures var lo := ChildAsInt(n.children[j].n, 0).value; var hi := ChildAsInt(n.children[j].n, 1).value;
      && KidList(ctx, n, j).Ok? && Strict(KidList(ctx, n, j).value)
      && forall x :: x in KidList(ctx, n, j).value <==> lo <= x <= hi && 0 <= x < |ctx.atoms|
  {
  }

  /** BY RESIDUE: ascending, no duplicates, every atom of the system sharing a residue with the operand. */
  lemma EvalBy(ctx: Context, n: Node, sub: Option<seq<int>>)
    requires n.code == By && Eval(ctx, n, sub).Ok?
    ensures ChildNode(n, 0).Ok? && Eval(ctx, n.children[0].n, None).Ok?
    ensures var inner := Eval(ctx, n.children[0].n, None).value;
      && Strict(Eval(ctx, n, sub).value)
      && forall x :: x in Eval(ctx, n, sub).value <==>
           0 <= x < |ctx.atoms| && exists j :: j in inner && ctx.atoms[j].resindex == ctx.atoms[x].resindex
  {
  }

  /**
   * A comparison keeps the candidates (all atoms, or the subspace) on which
   * both sides evaluate and satisfy the relation; over all atoms the result
   * is ascending.
   */
  lemma EvalComparison(ctx: Context, n: Node, sub: Option<seq<int>>)
    requires IsComparison(n.code) && Eval(ctx, n, sub).Ok?
    ensures forall x :: x in Eval(ctx, n, sub).value <==> x in Sub(ctx, sub) && Passes(ctx, n, x)
    ensures |Eval(ctx, n, sub).value| <= |Sub(ctx, sub)|
    ensures sub.None? ==> Strict(Eval(ctx, n, sub).value)
    ensures forall x :: x in Sub(ctx, sub) ==> Defined(ctx, n, x)
  {
    assert Sub(ctx, sub)[..|Sub(ctx, sub)|] == Sub(ctx, sub);
  }

  /** WITHIN: ascending and duplicate-free; every atom of its operand, plus the candidates near one. */
  lemma EvalWithin(ctx: Context, n: Node, sub: Option<seq<int>>)
    requires n.code == Code.Within && Eval(ctx, n, sub).Ok?
    ensures ChildAsFloatOrInt(n, 0).Ok? && ChildNode(n, 1).Ok? && Eval(ctx, n.children[1].n, None).Ok?
    ensures var d := ChildAsFloatOrInt(n, 0).value;
      var inner := Eval(ctx, n.children[1].n, None).value;
      var periodic := |n.children| == 3 && ChildAsBool(n, 2) == Ok(true);
      && Strict(Eval(ctx, n, sub).value)
      && (forall x :: x in inner ==> x in Eval(ctx, n, sub).value)
      && forall x :: x in Eval(ctx, n, sub).value <==>
           x in inner || (x in Sub(ctx, sub) && NearAny(ctx, d, periodic, x, inner))
  {
  }

  // ---------------------------------------------------------------------------
  // Ranges: `resid 1-5`, `resid 1 to 5` and `resid 1 2 3 4 5` select the same atoms.

  /** An int literal node, as the classifier makes it. */
  function IntLit(k: int): (n: Node)
    ensures n.code == Int && n.children == [IntC(k)]
  {
    Node(Int, [IntC(k)], [])
  }

  /** The TO node the grammar builds for `lo - hi` and `lo to hi`. */
  function RangeNode(lo: int, hi: int): Node {
    Node(To, [NodeC(IntLit(lo)), NodeC(IntLit(hi))], [])
  }

  /** The int literals lo, lo+1, ..., hi as the children of a list node. */
  function IntNodes(lo: int, hi: int): (cs: seq<Child>)
    ensures |cs| == if lo > hi then 0 else hi - lo + 1
    ensures forall i :: 0 <= i < |cs| ==> cs[i] == NodeC(IntLit(lo + i))
  {
    seq(if lo > hi then 0 else hi - lo + 1, i => NodeC(IntLit(lo + i)))
  }

  predicate RangeCode(c: Code) {
    c == Resid || c == Resindex || c == Index
  }

  /** What a range lo..hi selects under a RESID, RESINDEX or INDEX node. */
  function RangeOf(ctx: Context, c: Code, lo: int, hi: int): seq<int> {
    if c == Index then IndexRange(lo, hi, |ctx.atoms|)
    else RangeSelect(ctx, if c == Resid then ResidueId else ResidueIndex, lo, hi)
  }

  lemma {:induction false} IntListKids(ctx: Context, c: Code, lo: int, hi: int, p: seq<int>, j: nat)
    requires RangeCode(c) && j <= |IntNodes(lo, hi)|
    ensures ListKids(ctx, Node(c, IntNodes(lo, hi), p), j) == Ok(RangeOf(ctx, c, lo + j, hi))
    decreases |IntNodes(lo, hi)| - j
  {
    var n := Node(c, IntNodes(lo, hi), p);
    if j < |IntNodes(lo, hi)| {
      IntListKids(ctx, c, lo, hi, p, j + 1);
      assert n.children[j] == NodeC(IntLit(lo + j));
      assert ChildAsInt(n, j) == Ok(lo + j);
      KidListInt(ctx, n, j, lo + j);
      ListKidsStep(ctx, n, j);
      RangeOfStep(ctx, c, lo + j, hi);
    } else {
      ListKidsEnd(ctx, n, j);
    }
  }

  /** The piece one value k contributes under a RESID, RESINDEX or INDEX node. */
  function RangePiece(ctx: Context, c: Code, k: int): seq<int> {
    if c == Index then IndexOne(k, |ctx.atoms|)
    else Select(ctx, IntIs(if c == Resid then ResidueId else ResidueIndex, k), |ctx.atoms|)
  }

  lemma KidListInt(ctx: Context, n: Node, j: int, k: int)
    requires RangeCode(n.code) && 0 <= j < |n.children| && ChildAsInt(n, j) == Ok(k)
    ensures KidList(ctx, n, j) == Ok(RangePiece(ctx, n.code, k))
  {
  }

  lemma ListKidsStep(ctx: Context, n: Node, j: nat)
    requires j < |n.children| && KidList(ctx, n, j).Ok? && ListKids(ctx, n, j + 1).Ok?
    ensures ListKids(ctx, n, j) == Ok(KidList(ctx, n, j).value + ListKids(ctx, n, j + 1).value)
  {
  }

  lemma ListKidsEnd(ctx: Context, n: Node, j: nat)
    requires j >= |n.children|
    ensures ListKids(ctx, n, j) == Ok([])
  {
  }

  lemma RangeOfStep(ctx: Context, c: Code, k: int, hi: int)
    requires RangeCode(c) && k <= hi
    ensures RangeOf(ctx, c, k, hi) == RangePiece(ctx, c, k) + RangeOf(ctx, c, k + 1, hi)
  {
  }

  lemma RangeOfEnd(ctx: Context, c: Code, k: int, hi: int)
    requires RangeCode(c) && k > hi
    ensures RangeOf(ctx, c, k, hi) == []
  {
  }

  /** A range child selects exactly what the list of all its values selects, in the same order. */
  lemma RangeIsList(ctx: Context, c: Code, lo: int, hi: int, p: seq<int>, sub: Option<seq<int>>)
    requires RangeCode(c)
    ensures Eval(ctx, Node(c, [NodeC(RangeNode(lo, hi))], p), sub) == Eval(ctx, Node(c, IntNodes(lo, hi), p), sub)
  {
    var n := Node(c, [NodeC(RangeNode(lo, hi))], p);
    EvalListIs(ctx, n, sub);
    EvalListIs(ctx, Node(c, IntNodes(lo, hi), p), sub);
    IntListKids(ctx, c, lo, hi, p, 0);
    RangeKid(ctx, c, lo, hi, p);
    ListKidsEnd(ctx, n, 1);
    ListKidsStep(ctx, n, 0);
    assert RangeOf(ctx, c, lo, hi) + [] == RangeOf(ctx, c, lo, hi);
  }

  lemma RangeKid(ctx: Context, c: Code, lo: int, hi: int, p: seq<int>)
    requires RangeCode(c)
    ensures KidList(ctx, Node(c, [NodeC(RangeNode(lo, hi))], p), 0) == Ok(RangeOf(ctx, c, lo, hi))
  {
    var n := Node(c, [NodeC(RangeNode(lo, hi))], p);
    assert ChildAsInt(n, 0).Err?;
    assert ChildAsInt(RangeNode(lo, hi), 0) == Ok(lo);
    assert ChildAsInt(RangeNode(lo, hi), 1) == Ok(hi);
  }

  // ---------------------------------------------------------------------------
  // The subspace.

  /**
   * On the atoms that are candidates under both, a node selects the same
   * whichever subspace it is given: the subspace only saves work.
   */
  lemma {:induction false} SubspaceIrrelevant(ctx: Context, n: Node, a: Option<seq<int>>, b: Option<seq<int>>, x: int)
    requires Eval(ctx, n, a).Ok? && Eval(ctx, n, b).Ok?
    requires x in Sub(ctx, a) && x in Sub(ctx, b)
    ensures x in Eval(ctx, n, a).value <==> x in Eval(ctx, n, b).value
    decreases n
  {
    match n.code
    case Precomputed =>
      EvalPrecomputed(ctx, n, a);
      EvalPrecomputed(ctx, n, b);
    case Not =>
      EvalNot(ctx, n, a);
      EvalNot(ctx, n, b);
      SubspaceIrrelevant(ctx, n.children[0].n, a, b, x);
    case Or =>
      EvalOr(ctx, n, a);
      EvalOr(ctx, n, b);
      SubspaceIrrelevant(ctx, n.children[0].n, a, b, x);
      SubspaceIrrelevant(ctx, n.children[1].n, a, b, x);
    case And =>
      EvalAnd(ctx, n, a);
      EvalAnd(ctx, n, b);
      var la := Eval(ctx, n.children[0].n, a).value;
      var lb := Eval(ctx, n.children[0].n, b).value;
      SubspaceIrrelevant(ctx, n.children[0].n, a, b, x);
      if x in la {
        SubspaceIrrelevant(ctx, n.children[1].n, Some(la), Some(lb), x);
      }
    case Within =>
      EvalWithin(ctx, n, a);
      EvalWithin(ctx, n, b);
    case Eq => EvalComparison(ctx, n, a); EvalComparison(ctx, n, b);
    case Neq => EvalComparison(ctx, n, a); EvalComparison(ctx, n, b);
    case Lt => EvalComparison(ctx, n, a); EvalComparison(ctx, n, b);
    case Gt => EvalComparison(ctx, n, a); EvalComparison(ctx, n, b);
    case Leq => EvalComparison(ctx, n, a); EvalComparison(ctx, n, b);
    case Geq => EvalComparison(ctx, n, a); EvalComparison(ctx, n, b);
    case _ =>
      assert Eval(ctx, n, a) == Eval(ctx, n, b);
  }

  /**
   * Handing the left result of AND down as a subspace gives, on every atom,
   * the plain intersection of the two operands evaluated over all atoms.
   */
  lemma AndIsIntersection(ctx: Context, n: Node)
    requires n.code == And && Eval(ctx, n, None).Ok?
    requires ChildNode(n, 1).Ok? && Eval(ctx, n.children[1].n, None).Ok?
    ensures forall x :: 0 <= x < |ctx.atoms| ==>
      (x in Eval(ctx, n, None).value <==>
       x in Eval(ctx, n.children[0].n, None).value && x in Eval(ctx, n.children[1].n, None).value)
  {
    EvalAnd(ctx, n, None);
    var l := Eval(ctx, n.children[0].n, None).value;
    forall x | 0 <= x < |ctx.atoms| && x in l
      ensures x in Eval(ctx, n.children[1].n, Some(l)).value <==> x in Eval(ctx, n.children[1].n, None).value
    {
      SubspaceIrrelevant(ctx, n.children[1].n, Some(l), None, x);
    }
  }

  // ---------------------------------------------------------------------------
  // The evaluator as written, where it differs (see the findings).

  /** The integers lo .. hi-1, ascending. */
  function Interval(lo: int, hi: int): (r: seq<int>)
    ensures Strict(r) && forall x :: x in r <==> lo <= x < hi
    decreases hi - lo
  {
    if lo >= hi then []
    else
      var rest := Interval(lo + 1, hi);
      BelowMembers(lo, rest, true);
      ConsStrict(lo, rest);
      [lo] + rest
  }

  /**
   * The gap filling of NOT over a sorted operand: the integers from lo below
   * its first element, between each two neighbours, and after the last one
   * up to `size`.
   */
  function GapsFrom(r: seq<int>, lo: int, size: int): seq<int>
    decreases |r|
  {
    if r == [] then Interval(lo, size) else Interval(lo, r[0]) + GapsFrom(r[1..], r[0] + 1, size)
  }

  lemma {:induction false} GapsMembers(r: seq<int>, lo: int, size: int)
    requires Sorted(r) && InRange(r, size) && (r != [] ==> lo <= r[0] + 1)
    ensures Strict(GapsFrom(r, lo, size))
    ensures forall x :: x in GapsFrom(r, lo, size) <==> lo <= x < size && x !in r
    decreases |r|
  {
    if r != [] {
      var h := r[0];
      HeadBounds(r, false);
      assert r == [h] + r[1..];
      if r[1..] != [] {
        assert r[1..][0] == r[1];
      }
      GapsMembers(r[1..], h + 1, size);
      StrictConcat(Interval(lo, h), GapsFrom(r[1..], h + 1, size));
      GapsStep(r, lo, size, GapsFrom(r[1..], h + 1, size));
    }
  }

  /** One step of GapsMembers: the gap before the head joined to the rest. */
  lemma GapsStep(r: seq<int>, lo: int, size: int, g: seq<int>)
    requires r != [] && lo <= r[0] + 1 && r[0] < size
    requires forall x :: x in r ==> r[0] <= x
    requires forall x :: x in g <==> r[0] + 1 <= x < size && x !in r[1..]
    ensures forall x :: x in Interval(lo, r[0]) + g <==> lo <= x < size && x !in r
  {
    var h := r[0];
    assert r == [h] + r[1..];
    forall x ensures x in Interval(lo, h) + g <==> lo <= x < size && x !in r {
      if x < h {
        assert x !in r;
      } else if x > h {
        assert x in r <==> x in r[1..];
      }
    }
  }

  const EmptyNot := "NOT reads the first element of an empty operand"

  /**
   * NOT as written: the gap filling reads `res1[0]` and `res1[n-1]`, which do
   * not exist for an empty operand; that case is an error here.
   */
  function NotAsWritten(ctx: Context, r1: seq<int>): (r: Result<seq<int>>)
    ensures r.Ok? <==> r1 != []
  {
    if r1 == [] then Err(EmptyNot) else Ok(GapsFrom(Sort(r1), 0, |ctx.atoms|))
  }

  lemma SortInRange(r: seq<int>, size: int)
    requires InRange(r, size)
    ensures InRange(Sort(r), size) && forall x :: x in Sort(r) <==> x in r
  {
    SortMembers(r);
    forall i | 0 <= i < |Sort(r)| ensures 0 <= Sort(r)[i] < size {
      assert Sort(r)[i] in r;
    }
  }

  /** On a non-empty operand of valid indices the gap filling is exactly the complement. */
  lemma GapFillIsComplement(ctx: Context, r1: seq<int>)
    requires r1 != [] && InRange(r1, |ctx.atoms|)
    ensures NotAsWritten(ctx, r1) == Ok(NotOf(ctx, r1))
  {
    var s := Sort(r1);
    SortInRange(r1, |ctx.atoms|);
    assert s != [] by {
      assert r1[0] in r1;
    }
    GapsMembers(s, 0, |ctx.atoms|);
    assert 0 <= s[0];
    StrictUnique(GapsFrom(s, 0, |ctx.atoms|), NotOf(ctx, r1));
  }

  /** PRECOMPUTED as written: std::set_intersection straight on the two lists, sorted or not. */
  function PrecomputedAsWritten(n: Node, sub: Option<seq<int>>): (r: seq<int>)
    ensures forall x :: x in r ==> x in n.precomputed && (sub.Some? ==> x in sub.value)
  {
    if sub.None? then n.precomputed else Intersection(sub.value, n.precomputed)
  }

  /** When both lists are already sorted, the written intersection is the intended one. */
  lemma PrecomputedSortedAgrees(ctx: Context, n: Node, s: seq<int>)
    requires n.code == Precomputed && Sorted(s) && Sorted(n.precomputed)
    ensures Eval(ctx, n, Some(s)) == Ok(PrecomputedAsWritten(n, Some(s)))
  {
    EvalPrecomputedIs(ctx, n, Some(s));
    SortedPrecomputed(n, s);
  }

  lemma SortedPrecomputed(n: Node, s: seq<int>)
    requires Sorted(s) && Sorted(n.precomputed)
    ensures PrecomputedOf(n, Some(s)) == PrecomputedAsWritten(n, Some(s))
  {
    SortOfSorted(s);
    SortOfSorted(n.precomputed);
  }

  /** An unsorted subspace loses common atoms: [1, 0] and [0] share 0, yet nothing is kept. */
  lemma PrecomputedUnsortedLoses(ctx: Context)
    ensures PrecomputedAsWritten(Node(Precomputed, [], [0]), Some([1, 0])) == []
    ensures Eval(ctx, Node(Precomputed, [], [0]), Some([1, 0])) == Ok([0])
  {
    EvalPrecomputedIs(ctx, Node(Precomputed, [], [0]), Some([1, 0]));
    UnsortedIntersection();
  }

  lemma UnsortedIntersection()
    ensures PrecomputedAsWritten(Node(Precomputed, [], [0]), Some([1, 0])) == []
    ensures PrecomputedOf(Node(Precomputed, [], [0]), Some([1, 0])) == [0]
  {
    assert Intersection([1, 0], [0]) == Intersection([1, 0], []) == [];
    assert Sort([]) == [];
    assert Sort([0]) == Insert(0, []) == [0];
    assert Insert(1, []) == [1];
    assert Insert(1, [0]) == [0] + Insert(1, []) == [0, 1];
    assert [1, 0][1..] == [0];
    assert Sort([1, 0]) == Insert(1, Sort([0])) == [0, 1];
    assert Intersection([1], []) == [];
    assert Intersection([0, 1], [0]) == [0] + Intersection([1], []) == [0];
  }

  /** BY as written: the operand is evaluated under the enclosing subspace. */
  function ByAsWritten(ctx: Context, n: Node, sub: Option<seq<int>>): (r: Result<seq<int>>)
    requires n.code == By
    ensures r.Ok? ==> Strict(r.value) && InRange(r.value, |ctx.atoms|)
  {
    var c :- ChildNode(n, 0);
    var r1 :- Eval(ctx, c, sub);
    ByOf(ctx, r1)
  }

  // ---------------------------------------------------------------------------
  // Two atoms of one residue: a CA at x = 10 and a CB at x = 0.

  predicate TwoAtoms(ctx: Context) {
    && |ctx.atoms| == 2 && |ctx.coords| == 2
    && ctx.atoms[0].name == "CA" && ctx.atoms[1].name == "CB"
    && ctx.atoms[0].resindex == 0 && ctx.atoms[1].resindex == 0
    && ctx.coords[0].x == 10.0 && ctx.coords[1].x == 0.0
  }

  /** `x < 5` */
  function XBelow5(): Node {
    Node(Lt, [NodeC(Leaf(X)), NodeC(IntLit(5))], [])
  }

  /** `by residue x < 5` */
  function ByXBelow5(): Node {
    Node(By, [NodeC(XBelow5())], [])
  }

  lemma TwoAtomsAll(ctx: Context)
    requires |ctx.atoms| == 2
    ensures AllAtoms(ctx) == [0, 1]
  {
    assert Select(ctx, Everyone, 0) == [];
    assert Select(ctx, Everyone, 1) == [0];
  }

  /** Over [0] only the CA is tried, and it fails x < 5. */
  lemma XBelow5OverCA(ctx: Context)
    requires TwoAtoms(ctx)
    ensures Eval(ctx, XBelow5(), Some([0])) == Ok([])
  {
    KeepXBelow5(ctx);
    CompareOver(ctx, XBelow5(), Some([0]), [0], []);
  }

  /** Over all atoms the CB passes x < 5. */
  lemma XBelow5OverAll(ctx: Context)
    requires TwoAtoms(ctx)
    ensures Eval(ctx, XBelow5(), None) == Ok([1])
  {
    TwoAtomsAll(ctx);
    KeepXBelow5(ctx);
    CompareOver(ctx, XBelow5(), None, [0, 1], [1]);
  }

  lemma CompareOver(ctx: Context, n: Node, sub: Option<seq<int>>, s: seq<int>, want: seq<int>)
    requires IsComparison(n.code) && Sub(ctx, sub) == s && Keep(ctx, n, s, |s|) == Ok(want)
    ensures Eval(ctx, n, sub) == Ok(want)
  {
    EvalCompareIs(ctx, n, sub);
  }

  lemma KeepXBelow5(ctx: Context)
    requires TwoAtoms(ctx)
    ensures Keep(ctx, XBelow5(), [0], 1) == Ok([])
    ensures Keep(ctx, XBelow5(), [0, 1], 2) == Ok([1])
  {
    var lt := XBelow5();
    assert ChildNode(lt, 0) == Ok(Leaf(X));
    assert ChildNode(lt, 1) == Ok(IntLit(5));
    assert EvalNumeric(ctx, Leaf(X), 0) == Ok(10.0);
    assert EvalNumeric(ctx, Leaf(X), 1) == Ok(0.0);
    assert EvalNumeric(ctx, IntLit(5), 0) == Ok(5.0);
    assert EvalNumeric(ctx, IntLit(5), 1) == Ok(5.0);
    assert Keep(ctx, lt, [0], 1) == Ok([]);
    assert Keep(ctx, lt, [0, 1], 1) == Ok([]);
    assert Compare(Lt, 0.0, 5.0);
    var none: seq<int> := [];
    assert none + [1] == [1];
  }

  /**
   * In `name CA and by residue x < 5` the BY node is handed the subspace [0]
   * (the CA).  As written its operand then sees only the CA, which fails
   * x < 5, and the residue is lost; over all atoms the CB passes and the
   * residue, CA included, is selected.
   */
  lemma BySubspaceLoses(ctx: Context)
    requires TwoAtoms(ctx)
    ensures ByAsWritten(ctx, ByXBelow5(), Some([0])) == Ok([])
    ensures Eval(ctx, ByXBelow5(), Some([0])) == Ok([0, 1])
  {
    XBelow5OverCA(ctx);
    XBelow5OverAll(ctx);
    ResiduesOfTwoAtoms(ctx);
    EvalByIs(ctx, ByXBelow5(), Some([0]));
    ByOperand(ctx);
  }

  lemma ByOperand(ctx: Context)
    requires Eval(ctx, XBelow5(), Some([0])) == Ok([])
    requires Eval(ctx, XBelow5(), None) == Ok([1])
    ensures ByAsWritten(ctx, ByXBelow5(), Some([0])) == ByOf(ctx, [])
    ensures ByNode(ctx, ByXBelow5()) == ByOf(ctx, [1])
  {
    assert ChildNode(ByXBelow5(), 0) == Ok(XBelow5());
  }

  /** Nothing has no residue; the CB's residue holds both atoms. */
  lemma ResiduesOfTwoAtoms(ctx: Context)
    requires TwoAtoms(ctx)
    ensures ByOf(ctx, []) == Ok([])
    ensures ByOf(ctx, [1]) == Ok([0, 1])
  {
    assert ByOf(ctx, []).value == [] by {
      assert forall x :: x !in ByOf(ctx, []).value;
    }
    assert ByOf(ctx, [1]).value == [0, 1] by {
      TwoAtomsAll(ctx);
      assert forall x :: x in ByOf(ctx, [1]).value <==> x in AllAtoms(ctx);
      StrictUnique(ByOf(ctx, [1]).value, AllAtoms(ctx));
    }
  }

  /** `name XYZ` */
  function NameXYZ(): Node {
    Node(Name, [NodeC(Node(Str, [StrC("XYZ")], []))], [])
  }

  lemma NameXYZOnTwoAtoms(ctx: Context)
    requires TwoAtoms(ctx)
    ensures Eval(ctx, NameXYZ(), None) == Ok([])
  {
    var inner := NameXYZ();
    assert ChildAsStr(inner, 0) == Ok("XYZ");
    assert Select(ctx, TextIs(AtomName, "XYZ"), 2) == [] by {
      assert forall x :: x !in Select(ctx, TextIs(AtomName, "XYZ"), 2);
    }
    assert KidList(ctx, inner, 0) == Ok([]);
    assert ListKids(ctx, inner, 1) == Ok([]);
    var none: seq<int> := [];
    assert none + none == none;
  }

  /** `not name XYZ` with no atom named XYZ: the written gap filling has no first element to read. */
  lemma NotOfNothing(ctx: Context)
    requires TwoAtoms(ctx)
    ensures Eval(ctx, NameXYZ(), None) == Ok([])
    ensures NotAsWritten(ctx, []).Err?
    ensures Eval(ctx, Node(Not, [NodeC(NameXYZ())], []), None) == Ok([0, 1])
  {
    NameXYZOnTwoAtoms(ctx);
    TwoAtomsAll(ctx);
    assert NotOf(ctx, []) == [0, 1] by {
      StrictUnique(NotOf(ctx, []), AllAtoms(ctx));
    }
  }
}
