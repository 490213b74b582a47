/**
 * The optimizer of coordinate-dependent selections (`do_optimization`).  Pure
 * sub-trees are evaluated once and frozen into PRECOMPUTED index lists.  A
 * pure unary minus over a literal is folded into the negated literal.  An AND
 * whose left operand is coordinate dependent and whose right operand is pure
 * has its operands exchanged, so that the pure one sets the subspace.  The
 * source rewrites the tree in place; here the rewritten tree is returned.
 *
 * `asWritten` selects which nodes are frozen: as written every pure node
 * other than a unary minus is, numeric and flag nodes included, which leaves
 * them without a value; corrected, only the nodes that select atoms are.
 */
module SelectionOptimize {
  import opened Wrappers
  import opened SelectionAst
  import opened StdAlgorithms
  import opened SelectionEval

  /** The trivial leaf codes the optimizer skips. */
  predicate LiteralCode(c: Code) {
    c.Void? || c.Str? || c.Regex? || c.Float? || c.Int?
  }

  /** The codes for which eval_node selects atoms. */
  predicate Selective(c: Code) {
    c.Precomputed? || c.Not? || c.Or? || c.And? || ListCode(c)
    || c.Within? || c.By? || c.All? || IsComparison(c)
  }

  /** Whether a pure node other than a unary minus is frozen. */
  predicate Freezes(c: Code, asWritten: bool) {
    if asWritten then c != UnaryMinus else Selective(c)
  }

  /** The AND exchange test: the left operand is coordinate dependent, the right one pure. */
  predicate Swaps(n: Node) {
    && n.code == And && ChildNode(n, 0).Ok? && ChildNode(n, 1).Ok?
    && !Pure(n.children[0].n) && Pure(n.children[1].n)
  }

  /** The children with the first two exchanged. */
  function Swapped(cs: seq<Child>): (r: seq<Child>)
    requires |cs| >= 2
    ensures |r| == |cs| && r[0] == cs[1] && r[1] == cs[0]
    ensures forall j :: 2 <= j < |cs| ==> r[j] == cs[j]
    ensures forall j :: 0 <= j < |r| ==> r[j] in cs
  {
    cs[0 := cs[1]][1 := cs[0]]
  }

  /** The children the optimizer descends into: exchanged for an AND that passes the test. */
  function KidsOf(n: Node): (r: seq<Child>)
    ensures |r| == |n.children|
    ensures forall j :: 0 <= j < |r| ==> r[j] in n.children
  {
    if Swaps(n) then Swapped(n.children) else n.children
  }

  /** do_optimization on one node and everything below it. */
  function Optimize(ctx: Context, n: Node, asWritten: bool): (r: Result<Node>)
    decreases n, 2
  {
    if LiteralCode(n.code) then Ok(n)
    else if Pure(n) && n.code == UnaryMinus then
      var c :- ChildNode(n, 0);
      if c.code == Int then
        var v :- ChildAsInt(n, 0);
        Ok(Node(Int, [IntC(-v)], n.precomputed))
      else if c.code == Float then
        var v :- ChildAsFloat(n, 0);
        Ok(Node(Float, [FloatC(-v)], n.precomputed))
      else Descend(ctx, n, n.children, asWritten)
    else if Pure(n) && Freezes(n.code, asWritten) then
      var r :- Eval(ctx, n, None);
      Ok(Node(Precomputed, [], r))
    else Descend(ctx, n, KidsOf(n), asWritten)
  }

  /** The node with its (possibly exchanged) children optimized in order. */
  function Descend(ctx: Context, n: Node, kids: seq<Child>, asWritten: bool): (r: Result<Node>)
    requires forall j :: 0 <= j < |kids| ==> kids[j] in n.children
    decreases n, 1
  {
    var ks :- OptimizeKids(ctx, n, kids, 0, asWritten);
    Ok(Node(n.code, ks, n.precomputed))
  }

  /**
   * The loop over the children: a literal child makes child_node throw
   * bad_get, which is caught, and so does a bad_get thrown while optimizing a
   * sub-tree child, which then stays as it was; any other error ends the
   * optimization.
   */
  function OptimizeKids(ctx: Context, n: Node, kids: seq<Child>, i: nat, asWritten: bool): (r: Result<seq<Child>>)
    requires forall j :: 0 <= j < |kids| ==> kids[j] in n.children
    decreases n, 0, |kids| - i
  {
    if i >= |kids| then Ok([])
    else
      assert kids[i] in n.children;
      var k :- if !kids[i].NodeC? then Ok(kids[i])
        else match Optimize(ctx, kids[i].n, asWritten)
          case Ok(c) => Ok(NodeC(c))
          case Err(e) => if e == BadGet then Ok(kids[i]) else Err(e);
      var rest :- OptimizeKids(ctx, n, kids, i + 1, asWritten);
      Ok([k] + rest)
  }

  /** What the loop makes of one child: a literal stays; a sub-tree stays or is its optimized form. */
  predicate KidStep(ctx: Context, k: Child, k': Child, asWritten: bool) {
    if k.NodeC? then k'.NodeC? && (k'.n == k.n || Optimize(ctx, k.n, asWritten) == Ok(k'.n))
    else k' == k
  }

  lemma {:induction false} KidsStep(ctx: Context, n: Node, kids: seq<Child>, i: nat, asWritten: bool)
    requires forall j :: 0 <= j < |kids| ==> kids[j] in n.children
    requires i <= |kids| && OptimizeKids(ctx, n, kids, i, asWritten).Ok?
    ensures var r := OptimizeKids(ctx, n, kids, i, asWritten).value;
      && |r| == |kids| - i
      && forall j :: i <= j < |kids| ==> KidStep(ctx, kids[j], r[j - i], asWritten)
    decreases |kids| - i
  {
    if i < |kids| {
      KidsStep(ctx, n, kids, i + 1, asWritten);
    }
  }

  /** A descended node keeps its code and precomputed list, and each child takes one step. */
  lemma DescendStep(ctx: Context, n: Node, kids: seq<Child>, asWritten: bool)
    requires forall j :: 0 <= j < |kids| ==> kids[j] in n.children
    requires Descend(ctx, n, kids, asWritten).Ok?
    ensures var m := Descend(ctx, n, kids, asWritten).value;
      && m.code == n.code && m.precomputed == n.precomputed && |m.children| == |kids|
      && forall j :: 0 <= j < |kids| ==> KidStep(ctx, kids[j], m.children[j], asWritten)
  {
    KidsStep(ctx, n, kids, 0, asWritten);
  }

  /** The four outcomes: a literal is kept, a unary minus folded, a pure node frozen, any other descended into. */
  lemma Shape(ctx: Context, n: Node, asWritten: bool)
    requires Optimize(ctx, n, asWritten).Ok?
    ensures var m := Optimize(ctx, n, asWritten).value;
      || (LiteralCode(n.code) && m == n)
      || (Pure(n) && n.code == UnaryMinus && ChildAsInt(n, 0).Ok? && n.children[0].n.code == Int
          && m == Node(Int, [IntC(-ChildAsInt(n, 0).value)], n.precomputed))
      || (Pure(n) && n.code == UnaryMinus && ChildAsFloat(n, 0).Ok? && n.children[0].n.code == Float
          && m == Node(Float, [FloatC(-ChildAsFloat(n, 0).value)], n.precomputed))
      || (Pure(n) && n.code != UnaryMinus && Freezes(n.code, asWritten) && Eval(ctx, n, None).Ok?
          && m == Node(Precomputed, [], Eval(ctx, n, None).value))
      || (&& !LiteralCode(n.code) && !(Pure(n) && Freezes(n.code, asWritten))
          && m.code == n.code && m.precomputed == n.precomputed && |m.children| == |n.children|
          && forall j :: 0 <= j < |n.children| ==> KidStep(ctx, KidsOf(n)[j], m.children[j], asWritten))
  {
    if !LiteralCode(n.code) {
      if Pure(n) && n.code == UnaryMinus {
        var c := n.children[0].n;
        if c.code != Int && c.code != Float {
          DescendStep(ctx, n, n.children, asWritten);
        }
      } else if !(Pure(n) && Freezes(n.code, asWritten)) {
        DescendStep(ctx, n, KidsOf(n), asWritten);
      }
    }
  }

  // ---------------------------------------------------------------------------
  // Trees of the grammar's shape.

  /**
   * The shape the grammar gives a tree, as far as the optimizer's soundness
   * depends on it: a list node (NAME ... INDEX) holds only literals, so it is
   * pure, and a PRECOMPUTED node holds valid atom indices only.
   */
  predicate Formed(n: Node, size: int)
    decreases n, |n.children| + 1
  {
    && (ListCode(n.code) ==> Pure(n))
    && (n.code == Precomputed ==> InRange(n.precomputed, size))
    && FormedFrom(n, 0, size)
  }

  predicate FormedFrom(n: Node, i: nat, size: int)
    decreases n, |n.children| - i
  {
    i >= |n.children| || ((n.children[i].NodeC? ==> Formed(n.children[i].n, size)) && FormedFrom(n, i + 1, size))
  }

  lemma {:induction false} FormedChild(n: Node, i: nat, j: int, size: int)
    requires FormedFrom(n, i, size) && i <= j < |n.children| && n.children[j].NodeC?
    ensures Formed(n.children[j].n, size)
    decreases |n.children| - i
  {
    if i < j {
      FormedChild(n, i + 1, j, size);
    }
  }

  /** Children one by one formed make the children from i on formed. */
  lemma {:induction false} FormedFromAll(n: Node, i: nat, size: int)
    requires forall j :: i <= j < |n.children| && n.children[j].NodeC? ==> Formed(n.children[j].n, size)
    ensures FormedFrom(n, i, size)
    decreases |n.children| - i
  {
    if i < |n.children| {
      FormedFromAll(n, i + 1, size);
    }
  }

  /** The candidate list handed to a node is absent or made of valid atom indices. */
  predicate SubIn(sub: Option<seq<int>>, size: int) {
    sub.None? || InRange(sub.value, size)
  }

  lemma InRangeBy(s: seq<int>, t: seq<int>, size: int)
    requires InRange(t, size) && forall x :: x in s ==> x in t
    ensures InRange(s, size)
  {
    forall i | 0 <= i < |s| ensures 0 <= s[i] < size {
      assert s[i] in s;
      var k :| 0 <= k < |t| && t[k] == s[i];
    }
  }

  lemma UnionInRange(r: seq<int>, a: seq<int>, b: seq<int>, size: int)
    requires InRange(a, size) && InRange(b, size) && forall x :: x in r ==> x in a || x in b
    ensures InRange(r, size)
  {
    forall i | 0 <= i < |r| ensures 0 <= r[i] < size {
      assert r[i] in r;
      if r[i] in a {
        InRangeBy([r[i]], a, size);
      } else {
        InRangeBy([r[i]], b, size);
      }
    }
  }

  /** Over a formed tree and valid candidates, a node selects valid atom indices only. */
  lemma {:induction false} EvalInRange(ctx: Context, n: Node, sub: Option<seq<int>>)
    requires Formed(n, |ctx.atoms|) && SubIn(sub, |ctx.atoms|) && Eval(ctx, n, sub).Ok?
    ensures InRange(Eval(ctx, n, sub).value, |ctx.atoms|)
    decreases n, 1
  {
    if n.code == Or || n.code == And || n.code == Within {
      BranchInRange(ctx, n, sub);
    } else {
      LeafInRange(ctx, n, sub);
    }
  }

  /** EvalInRange for the nodes that evaluate child selections. */
  lemma {:induction false} BranchInRange(ctx: Context, n: Node, sub: Option<seq<int>>)
    requires n.code == Or || n.code == And || n.code == Within
    requires Formed(n, |ctx.atoms|) && SubIn(sub, |ctx.atoms|) && Eval(ctx, n, sub).Ok?
    ensures InRange(Eval(ctx, n, sub).value, |ctx.atoms|)
    decreases n, 0
  {
    var N := |ctx.atoms|;
    var r := Eval(ctx, n, sub).value;
    if n.code == Or {
      EvalOr(ctx, n, sub);
      FormedChild(n, 0, 0, N);
      FormedChild(n, 0, 1, N);
      EvalInRange(ctx, n.children[0].n, sub);
      EvalInRange(ctx, n.children[1].n, sub);
      UnionInRange(r, Eval(ctx, n.children[0].n, sub).value, Eval(ctx, n.children[1].n, sub).value, N);
    } else if n.code == And {
      EvalAnd(ctx, n, sub);
      FormedChild(n, 0, 0, N);
      EvalInRange(ctx, n.children[0].n, sub);
      InRangeBy(r, Eval(ctx, n.children[0].n, sub).value, N);
    } else {
      EvalWithin(ctx, n, sub);
      FormedChild(n, 0, 1, N);
      EvalInRange(ctx, n.children[1].n, None);
      UnionInRange(r, Eval(ctx, n.children[1].n, None).value, Sub(ctx, sub), N);
    }
  }

  /** EvalInRange for the nodes that do not evaluate child selections under the subspace. */
  lemma LeafInRange(ctx: Context, n: Node, sub: Option<seq<int>>)
    requires n.code != Or && n.code != And && n.code != Within
    requires Formed(n, |ctx.atoms|) && SubIn(sub, |ctx.atoms|) && Eval(ctx, n, sub).Ok?
    ensures InRange(Eval(ctx, n, sub).value, |ctx.atoms|)
  {
    var N := |ctx.atoms|;
    var r := Eval(ctx, n, sub).value;
    if n.code == Precomputed {
      EvalPrecomputed(ctx, n, sub);
      if sub.Some? {
        InRangeBy(r, n.precomputed, N);
      }
    } else if n.code == Not {
      EvalNot(ctx, n, sub);
      InRangeBy(r, AllAtoms(ctx), N);
    } else if n.code == By {
      EvalBy(ctx, n, sub);
      InRangeBy(r, AllAtoms(ctx), N);
    } else if IsComparison(n.code) {
      EvalComparison(ctx, n, sub);
      InRangeBy(r, Sub(ctx, sub), N);
    } else if ListCode(n.code) {
      EvalListInRange(ctx, n, sub);
    } else if n.code == All {
      InRangeBy(r, AllAtoms(ctx), N);
    }
  }

  // ---------------------------------------------------------------------------
  // What optimizing keeps.

  /** A literal first child survives optimization wherever the result still has one. */
  lemma FirstKept(ctx: Context, c: Node, asWritten: bool)
    requires Optimize(ctx, c, asWritten).Ok?
    ensures var c' := Optimize(ctx, c, asWritten).value;
      |c'.children| > 0 && !c'.children[0].NodeC? && |c.children| > 0 && !c.children[0].NodeC? ==>
        c'.children[0] == c.children[0]
  {
    Shape(ctx, c, asWritten);
    if Swaps(c) {
      assert KidsOf(c)[0] == c.children[1];
    }
  }

  /** The literal first child of a child, read through one step of the loop. */
  lemma ReadKept(ctx: Context, k: Child, k': Child, asWritten: bool)
    requires KidStep(ctx, k, k', asWritten) && k.NodeC?
    ensures |k'.n.children| > 0 && !k'.n.children[0].NodeC? && |k.n.children| > 0 && !k.n.children[0].NodeC? ==>
      k'.n.children[0] == k.n.children[0]
  {
    if k'.n != k.n {
      FirstKept(ctx, k.n, asWritten);
    }
  }

  /** Optimizing a formed tree gives a formed tree: frozen lists are results of evaluation. */
  lemma {:induction false} OptimizeFormed(ctx: Context, n: Node, asWritten: bool)
    requires Formed(n, |ctx.atoms|) && Optimize(ctx, n, asWritten).Ok?
    ensures Formed(Optimize(ctx, n, asWritten).value, |ctx.atoms|)
    decreases n, 1
  {
    var N := |ctx.atoms|;
    var m := Optimize(ctx, n, asWritten).value;
    Shape(ctx, n, asWritten);
    if LiteralCode(n.code) {
    } else if Pure(n) && Freezes(n.code, asWritten) && n.code != UnaryMinus {
      EvalInRange(ctx, n, None);
    } else if m.code == Int || m.code == Float {
      assert FormedFrom(m, 1, N);
    } else {
      var kids := KidsOf(n);
      forall j | 0 <= j < |m.children| && m.children[j].NodeC? ensures Formed(m.children[j].n, N) {
        KidFormed(ctx, n, kids[j], m.children[j], asWritten);
      }
      FormedFromAll(m, 0, N);
    }
  }

  lemma {:induction false} KidFormed(ctx: Context, n: Node, k: Child, k': Child, asWritten: bool)
    requires Formed(n, |ctx.atoms|) && k in n.children && KidStep(ctx, k, k', asWritten) && k.NodeC?
    ensures Formed(k'.n, |ctx.atoms|)
    decreases n, 0
  {
    var i :| 0 <= i < |n.children| && n.children[i] == k;
    FormedChild(n, 0, i, |ctx.atoms|);
    if k'.n != k.n {
      OptimizeFormed(ctx, k.n, asWritten);
    }
  }

  /**
   * Where the original and the optimized numeric node both have a value at an
   * atom, it is the same value: a folded minus is the negated literal, frozen
   * nodes never had one and everything else is evaluated from children that
   * agree.
   */
  lemma {:induction false} OptimizeNumeric(ctx: Context, n: Node, at: int)
    requires Optimize(ctx, n, false).Ok?
    requires EvalNumeric(ctx, n, at).Ok? && EvalNumeric(ctx, Optimize(ctx, n, false).value, at).Ok?
    ensures EvalNumeric(ctx, Optimize(ctx, n, false).value, at) == EvalNumeric(ctx, n, at)
    decreases n, 3
  {
    var m := Optimize(ctx, n, false).value;
    Shape(ctx, n, false);
    if Selective(n.code) {
      SelectiveNoValue(ctx, n, at);
    } else if !LiteralCode(n.code) && !(Pure(n) && Freezes(n.code, false)) && m.code == n.code {
      assert KidsOf(n) == n.children;
      DescendNumeric(ctx, n, m, at);
    }
  }

  /** A node that selects atoms has no numeric value. */
  lemma SelectiveNoValue(ctx: Context, n: Node, at: int)
    requires Selective(n.code)
    ensures EvalNumeric(ctx, n, at) == Err(NoValue)
  {
  }

  lemma {:induction false} DescendNumeric(ctx: Context, n: Node, m: Node, at: int)
    requires m.code == n.code && Stepped(ctx, n, m)
    requires EvalNumeric(ctx, n, at).Ok? && EvalNumeric(ctx, m, at).Ok?
    ensures EvalNumeric(ctx, m, at) == EvalNumeric(ctx, n, at)
    decreases n, 2
  {
    match n.code
    case UnaryMinus => KidNumeric(ctx, n.children[0], m.children[0], at);
    case Plus => ArithKept(ctx, n, m, at);
    case Minus => ArithKept(ctx, n, m, at);
    case Mult => ArithKept(ctx, n, m, at);
    case Div => ArithKept(ctx, n, m, at);
    case Point => GeometryKept(ctx, n, m, 3, at);
    case Vector => GeometryKept(ctx, n, m, 6, at);
    case Plane => GeometryKept(ctx, n, m, 6, at);
    case _ =>
  }

  /** Both children lists took one step each. */
  predicate Stepped(ctx: Context, n: Node, m: Node) {
    |m.children| == |n.children| && forall j :: 0 <= j < |n.children| ==> KidStep(ctx, n.children[j], m.children[j], false)
  }

  lemma {:induction false} KidNumeric(ctx: Context, k: Child, k': Child, at: int)
    requires KidStep(ctx, k, k', false) && k.NodeC?
    requires EvalNumeric(ctx, k.n, at).Ok? && EvalNumeric(ctx, k'.n, at).Ok?
    ensures EvalNumeric(ctx, k'.n, at) == EvalNumeric(ctx, k.n, at)
    decreases k.n, 4
  {
    if k'.n != k.n {
      OptimizeNumeric(ctx, k.n, at);
    }
  }

  lemma {:induction false} ArithKept(ctx: Context, n: Node, m: Node, at: int)
    requires n.code in {Plus, Minus, Mult, Div} && m.code == n.code && Stepped(ctx, n, m)
    requires Arith(ctx, n, at).Ok? && Arith(ctx, m, at).Ok?
    ensures Arith(ctx, m, at) == Arith(ctx, n, at)
    decreases n, 1
  {
    KidNumeric(ctx, n.children[0], m.children[0], at);
    KidNumeric(ctx, n.children[1], m.children[1], at);
  }

  lemma {:induction false} GeometryKept(ctx: Context, n: Node, m: Node, k: nat, at: int)
    requires m.code == n.code && Stepped(ctx, n, m)
    requires GeometryOf(ctx, n, k, at).Ok? && GeometryOf(ctx, m, k, at).Ok?
    ensures GeometryOf(ctx, m, k, at) == GeometryOf(ctx, n, k, at)
    decreases n, 1, k + 1
  {
    NumericKidsKept(ctx, n, m, 0, k, at);
    if |n.children| == k + 1 {
      ReadKept(ctx, n.children[k], m.children[k], false);
    }
  }

  lemma {:induction false} NumericKidsKept(ctx: Context, n: Node, m: Node, i: nat, k: nat, at: int)
    requires Stepped(ctx, n, m)
    requires NumericKids(ctx, n, i, k, at).Ok? && NumericKids(ctx, m, i, k, at).Ok?
    ensures NumericKids(ctx, m, i, k, at) == NumericKids(ctx, n, i, k, at)
    decreases n, 1, k - i
  {
    if i < k {
      KidNumeric(ctx, n.children[i], m.children[i], at);
      NumericKidsKept(ctx, n, m, i + 1, k, at);
    }
  }

  // ---------------------------------------------------------------------------
  // Soundness: the optimized tree selects what the original selects.

  /** A descended node: same code and list, every (possibly exchanged) child one step on. */
  predicate Descended(ctx: Context, n: Node, m: Node) {
    && m.code == n.code && m.precomputed == n.precomputed && |m.children| == |n.children|
    && forall j :: 0 <= j < |n.children| ==> KidStep(ctx, KidsOf(n)[j], m.children[j], false)
  }

  lemma SubMember(ctx: Context, s: Option<seq<int>>, x: int)
    requires SubIn(s, |ctx.atoms|) && x in Sub(ctx, s)
    ensures 0 <= x < |ctx.atoms| && x in AllAtoms(ctx)
  {
    if s.Some? {
      var i :| 0 <= i < |s.value| && s.value[i] == x;
    }
  }

  /** A node that selects nothing selects nothing whatever its children. */
  lemma NotSelectiveEmpty(ctx: Context, n: Node, s: Option<seq<int>>)
    requires !Selective(n.code)
    ensures Eval(ctx, n, s) == Ok([])
  {
  }

  /** Two lists with the same members contain an atom near `at` alike. */
  lemma NearSame(ctx: Context, d: real, periodic: bool, at: int, t1: seq<int>, t2: seq<int>)
    requires forall y :: y in t1 <==> y in t2
    ensures NearAny(ctx, d, periodic, at, t1) <==> NearAny(ctx, d, periodic, at, t2)
  {
    if NearAny(ctx, d, periodic, at, t1) {
      var j :| 0 <= j < |t1| && ctx.near(d, periodic, at, t1[j]);
      assert t1[j] in t1;
      var k :| 0 <= k < |t2| && t2[k] == t1[j];
    }
    if NearAny(ctx, d, periodic, at, t2) {
      var j :| 0 <= j < |t2| && ctx.near(d, periodic, at, t2[j]);
      assert t2[j] in t2;
      var k :| 0 <= k < |t1| && t1[k] == t2[j];
    }
  }

  /**
   * On every candidate of both subspaces, an optimized formed tree selects
   * what the original selects, whenever both evaluate without error.
   */
  lemma {:induction false} OptimizeSound(ctx: Context, n: Node, a: Option<seq<int>>, b: Option<seq<int>>, x: int)
    requires Optimize(ctx, n, false).Ok? && Formed(n, |ctx.atoms|)
    requires SubIn(a, |ctx.atoms|) && SubIn(b, |ctx.atoms|)
    requires Eval(ctx, n, a).Ok? && Eval(ctx, Optimize(ctx, n, false).value, b).Ok?
    requires x in Sub(ctx, a) && x in Sub(ctx, b)
    ensures x in Eval(ctx, n, a).value <==> x in Eval(ctx, Optimize(ctx, n, false).value, b).value
    decreases n, 3
  {
    var m := Optimize(ctx, n, false).value;
    Shape(ctx, n, false);
    if LiteralCode(n.code) {
      SubspaceIrrelevant(ctx, n, a, b, x);
    } else if Pure(n) && Freezes(n.code, false) {
      SubMember(ctx, a, x);
      EvalPrecomputed(ctx, m, b);
      SubspaceIrrelevant(ctx, n, a, None, x);
    } else if !Selective(n.code) {
      NotSelectiveEmpty(ctx, n, a);
      NotSelectiveEmpty(ctx, m, b);
    } else if ListCode(n.code) {
      assert false;
    } else {
      DescendSound(ctx, n, m, a, b, x);
    }
  }

  lemma {:induction false} KidSound(ctx: Context, k: Child, k': Child, a: Option<seq<int>>, b: Option<seq<int>>, x: int)
    requires KidStep(ctx, k, k', false) && k.NodeC? && Formed(k.n, |ctx.atoms|)
    requires SubIn(a, |ctx.atoms|) && SubIn(b, |ctx.atoms|)
    requires Eval(ctx, k.n, a).Ok? && Eval(ctx, k'.n, b).Ok?
    requires x in Sub(ctx, a) && x in Sub(ctx, b)
    ensures x in Eval(ctx, k.n, a).value <==> x in Eval(ctx, k'.n, b).value
    decreases k.n, 4
  {
    if k'.n == k.n {
      SubspaceIrrelevant(ctx, k.n, a, b, x);
    } else {
      OptimizeSound(ctx, k.n, a, b, x);
    }
  }

  lemma {:induction false} DescendSound(ctx: Context, n: Node, m: Node, a: Option<seq<int>>, b: Option<seq<int>>, x: int)
    requires Descended(ctx, n, m) && Selective(n.code) && !ListCode(n.code) && Formed(n, |ctx.atoms|)
    requires SubIn(a, |ctx.atoms|) && SubIn(b, |ctx.atoms|)
    requires Eval(ctx, n, a).Ok? && Eval(ctx, m, b).Ok?
    requires x in Sub(ctx, a) && x in Sub(ctx, b)
    ensures x in Eval(ctx, n, a).value <==> x in Eval(ctx, m, b).value
    decreases n, 2
  {
    if n.code == And {
      SoundAnd(ctx, n, m, a, b, x);
    } else {
      assert KidsOf(n) == n.children;
      if n.code == Not {
        SoundNot(ctx, n, m, a, b, x);
      } else if n.code == Or {
        SoundOr(ctx, n, m, a, b, x);
      } else if n.code == Code.Within {
        SoundWithin(ctx, n, m, a, b, x);
      } else if n.code == By {
        SoundBy(ctx, n, m, a, b, x);
      } else if n.code == Precomputed || n.code == All {
        SoundLeaf(ctx, n, m, a, b, x);
      } else {
        SoundCompare(ctx, n, m, a, b, x);
      }
    }
  }

  /** PRECOMPUTED and ALL read no child, so the descended node evaluates like the original. */
  lemma SoundLeaf(ctx: Context, n: Node, m: Node, a: Option<seq<int>>, b: Option<seq<int>>, x: int)
    requires m.code == n.code && m.precomputed == n.precomputed && (n.code == Precomputed || n.code == All)
    requires Eval(ctx, n, a).Ok? && Eval(ctx, m, b).Ok?
    requires x in Sub(ctx, a) && x in Sub(ctx, b)
    ensures x in Eval(ctx, n, a).value <==> x in Eval(ctx, m, b).value
  {
    assert Eval(ctx, m, b) == Eval(ctx, n, b);
    SubspaceIrrelevant(ctx, n, a, b, x);
  }

  lemma {:induction false} SoundNot(ctx: Context, n: Node, m: Node, a: Option<seq<int>>, b: Option<seq<int>>, x: int)
    requires Descended(ctx, n, m) && n.code == Not && KidsOf(n) == n.children && Formed(n, |ctx.atoms|)
    requires SubIn(a, |ctx.atoms|) && SubIn(b, |ctx.atoms|)
    requires Eval(ctx, n, a).Ok? && Eval(ctx, m, b).Ok?
    requires x in Sub(ctx, a) && x in Sub(ctx, b)
    ensures x in Eval(ctx, n, a).value <==> x in Eval(ctx, m, b).value
    decreases n, 1
  {
    EvalNot(ctx, n, a);
    EvalNot(ctx, m, b);
    FormedChild(n, 0, 0, |ctx.atoms|);
    KidSound(ctx, n.children[0], m.children[0], a, b, x);
  }

  lemma {:induction false} SoundOr(ctx: Context, n: Node, m: Node, a: Option<seq<int>>, b: Option<seq<int>>, x: int)
    requires Descended(ctx, n, m) && n.code == Or && KidsOf(n) == n.children && Formed(n, |ctx.atoms|)
    requires SubIn(a, |ctx.atoms|) && SubIn(b, |ctx.atoms|)
    requires Eval(ctx, n, a).Ok? && Eval(ctx, m, b).Ok?
    requires x in Sub(ctx, a) && x in Sub(ctx, b)
    ensures x in Eval(ctx, n, a).value <==> x in Eval(ctx, m, b).value
    decreases n, 1
  {
    EvalOr(ctx, n, a);
    EvalOr(ctx, m, b);
    FormedChild(n, 0, 0, |ctx.atoms|);
    FormedChild(n, 0, 1, |ctx.atoms|);
    KidSound(ctx, n.children[0], m.children[0], a, b, x);
    KidSound(ctx, n.children[1], m.children[1], a, b, x);
  }

  /**
   * AND, exchanged or not: on a common candidate both sides select it
   * exactly when both operands do, each operand being compared under the
   * subspaces it gets on either side.
   */
  lemma {:induction false} SoundAnd(ctx: Context, n: Node, m: Node, a: Option<seq<int>>, b: Option<seq<int>>, x: int)
    requires Descended(ctx, n, m) && n.code == And && Formed(n, |ctx.atoms|)
    requires SubIn(a, |ctx.atoms|) && SubIn(b, |ctx.atoms|)
    requires Eval(ctx, n, a).Ok? && Eval(ctx, m, b).Ok?
    requires x in Sub(ctx, a) && x in Sub(ctx, b)
    ensures x in Eval(ctx, n, a).value <==> x in Eval(ctx, m, b).value
    decreases n, 1
  {
    var N := |ctx.atoms|;
    EvalAnd(ctx, n, a);
    EvalAnd(ctx, m, b);
    FormedChild(n, 0, 0, N);
    FormedChild(n, 0, 1, N);
    var l := Eval(ctx, n.children[0].n, a).value;
    var l' := Eval(ctx, m.children[0].n, b).value;
    EvalInRange(ctx, n.children[0].n, a);
    if Swaps(n) {
      assert KidsOf(n)[0] == n.children[1] && KidsOf(n)[1] == n.children[0];
      KidFormed(ctx, n, n.children[1], m.children[0], false);
      EvalInRange(ctx, m.children[0].n, b);
      if x in l {
        KidSound(ctx, n.children[1], m.children[0], Some(l), b, x);
      }
      if x in l' {
        KidSound(ctx, n.children[0], m.children[1], a, Some(l'), x);
      }
    } else {
      assert KidsOf(n) == n.children;
      KidFormed(ctx, n, n.children[0], m.children[0], false);
      EvalInRange(ctx, m.children[0].n, b);
      KidSound(ctx, n.children[0], m.children[0], a, b, x);
      if x in l {
        KidSound(ctx, n.children[1], m.children[1], Some(l), Some(l'), x);
      }
    }
  }

  /** The operand of WITHIN or BY, evaluated over all atoms, has the same members after optimizing. */
  lemma {:induction false} InnerSame(ctx: Context, n: Node, m: Node, j: nat)
    requires Descended(ctx, n, m) && n.code != And && Formed(n, |ctx.atoms|)
    requires j < |n.children| && n.children[j].NodeC?
    requires Eval(ctx, n.children[j].n, None).Ok? && Eval(ctx, m.children[j].n, None).Ok?
    ensures forall y :: y in Eval(ctx, n.children[j].n, None).value <==> y in Eval(ctx, m.children[j].n, None).value
    decreases n, 0
  {
    var N := |ctx.atoms|;
    assert KidsOf(n) == n.children;
    FormedChild(n, 0, j, N);
    KidFormed(ctx, n, n.children[j], m.children[j], false);
    EvalInRange(ctx, n.children[j].n, None);
    EvalInRange(ctx, m.children[j].n, None);
    var p := Eval(ctx, n.children[j].n, None).value;
    var q := Eval(ctx, m.children[j].n, None).value;
    forall y ensures y in p <==> y in q {
      if y in p || y in q {
        if y in p {
          InRangeBy([y], p, N);
        } else {
          InRangeBy([y], q, N);
        }
        KidSound(ctx, n.children[j], m.children[j], None, None, y);
      }
    }
  }

  /** What an error-free WITHIN has read. */
  lemma WithinOk(ctx: Context, n: Node, sub: Option<seq<int>>)
    requires n.code == Code.Within && Eval(ctx, n, sub).Ok?
    ensures ChildAsFloatOrInt(n, 0).Ok? && ChildNode(n, 1).Ok? && Eval(ctx, n.children[1].n, None).Ok?
    ensures |n.children| == 3 ==> ChildAsBool(n, 2).Ok?
  {
  }

  /** What an error-free BY has read. */
  lemma ByOk(ctx: Context, n: Node, sub: Option<seq<int>>)
    requires n.code == By && Eval(ctx, n, sub).Ok?
    ensures ChildNode(n, 0).Ok? && Eval(ctx, n.children[0].n, None).Ok?
  {
  }

  /** The cutoff and the periodic flag of WITHIN read the same literals after optimizing. */
  lemma WithinReads(ctx: Context, n: Node, m: Node)
    requires Descended(ctx, n, m) && KidsOf(n) == n.children && |n.children| >= 1
    requires n.children[0].NodeC? && ChildAsFloatOrInt(n, 0).Ok? && ChildAsFloatOrInt(m, 0).Ok?
    requires |n.children| == 3 ==> n.children[2].NodeC? && ChildAsBool(n, 2).Ok? && ChildAsBool(m, 2).Ok?
    ensures ChildAsFloatOrInt(m, 0) == ChildAsFloatOrInt(n, 0)
    ensures |n.children| == 3 ==> ChildAsBool(m, 2) == ChildAsBool(n, 2)
  {
    ReadKept(ctx, n.children[0], m.children[0], false);
    if |n.children| == 3 {
      ReadKept(ctx, n.children[2], m.children[2], false);
    }
  }

  lemma {:induction false} SoundWithin(ctx: Context, n: Node, m: Node, a: Option<seq<int>>, b: Option<seq<int>>, x: int)
    requires Descended(ctx, n, m) && n.code == Code.Within && KidsOf(n) == n.children && Formed(n, |ctx.atoms|)
    requires SubIn(a, |ctx.atoms|) && SubIn(b, |ctx.atoms|)
    requires Eval(ctx, n, a).Ok? && Eval(ctx, m, b).Ok?
    requires x in Sub(ctx, a) && x in Sub(ctx, b)
    ensures x in Eval(ctx, n, a).value <==> x in Eval(ctx, m, b).value
    decreases n, 1
  {
    WithinOk(ctx, n, a);
    WithinOk(ctx, m, b);
    WithinReads(ctx, n, m);
    InnerSame(ctx, n, m, 1);
    EvalWithin(ctx, n, a);
    EvalWithin(ctx, m, b);
    var d := ChildAsFloatOrInt(n, 0).value;
    var periodic := |n.children| == 3 && ChildAsBool(n, 2) == Ok(true);
    NearSame(ctx, d, periodic, x, Eval(ctx, n.children[1].n, None).value, Eval(ctx, m.children[1].n, None).value);
  }

  /** Two lists with the same members touch the residue of an atom alike. */
  lemma ResidueSame(ctx: Context, p: seq<int>, q: seq<int>, x: int)
    requires 0 <= x < |ctx.atoms| && forall y :: y in p <==> y in q
    ensures (exists j :: j in p && 0 <= j < |ctx.atoms| && ctx.atoms[j].resindex == ctx.atoms[x].resindex)
        <==> (exists j :: j in q && 0 <= j < |ctx.atoms| && ctx.atoms[j].resindex == ctx.atoms[x].resindex)
  {
  }

  lemma {:induction false} SoundBy(ctx: Context, n: Node, m: Node, a: Option<seq<int>>, b: Option<seq<int>>, x: int)
    requires Descended(ctx, n, m) && n.code == By && KidsOf(n) == n.children && Formed(n, |ctx.atoms|)
    requires Eval(ctx, n, a).Ok? && Eval(ctx, m, b).Ok?
    ensures x in Eval(ctx, n, a).value <==> x in Eval(ctx, m, b).value
    decreases n, 1
  {
    ByOk(ctx, n, a);
    ByOk(ctx, m, b);
    InnerSame(ctx, n, m, 0);
    EvalBy(ctx, n, a);
    EvalBy(ctx, m, b);
    if 0 <= x < |ctx.atoms| {
      ResidueSame(ctx, Eval(ctx, n.children[0].n, None).value, Eval(ctx, m.children[0].n, None).value, x);
    }
  }

  lemma {:induction false} SoundCompare(ctx: Context, n: Node, m: Node, a: Option<seq<int>>, b: Option<seq<int>>, x: int)
    requires Descended(ctx, n, m) && IsComparison(n.code) && KidsOf(n) == n.children
    requires Eval(ctx, n, a).Ok? && Eval(ctx, m, b).Ok?
    requires x in Sub(ctx, a) && x in Sub(ctx, b)
    ensures x in Eval(ctx, n, a).value <==> x in Eval(ctx, m, b).value
    decreases n, 1
  {
    EvalComparison(ctx, n, a);
    EvalComparison(ctx, m, b);
    KidNumeric(ctx, n.children[0], m.children[0], x);
    KidNumeric(ctx, n.children[1], m.children[1], x);
  }

  // ---------------------------------------------------------------------------
  // What `apply` relies on.

  /**
   * A formed tree and its corrected optimized form select the same atoms of
   * the whole system, whenever both evaluate without error.
   */
  lemma OptimizeKeepsSelection(ctx: Context, n: Node)
    requires Formed(n, |ctx.atoms|) && Optimize(ctx, n, false).Ok?
    requires Eval(ctx, n, None).Ok? && Eval(ctx, Optimize(ctx, n, false).value, None).Ok?
    ensures forall x :: x in Eval(ctx, n, None).value <==> x in Eval(ctx, Optimize(ctx, n, false).value, None).value
  {
    var m := Optimize(ctx, n, false).value;
    EvalInRange(ctx, n, None);
    OptimizeFormed(ctx, n, false);
    EvalInRange(ctx, m, None);
    forall x ensures x in Eval(ctx, n, None).value <==> x in Eval(ctx, m, None).value {
      if 0 <= x < |ctx.atoms| {
        OptimizeSound(ctx, n, None, None, x);
      }
    }
  }

  /** One step of the loop over the children: an optimized sub-tree child. */
  lemma NodeKidStep(ctx: Context, n: Node, kids: seq<Child>, i: nat, asWritten: bool, c: Node, rest: seq<Child>)
    requires forall j :: 0 <= j < |kids| ==> kids[j] in n.children
    requires i < |kids| && kids[i].NodeC? && Optimize(ctx, kids[i].n, asWritten) == Ok(c)
    requires OptimizeKids(ctx, n, kids, i + 1, asWritten) == Ok(rest)
    ensures OptimizeKids(ctx, n, kids, i, asWritten) == Ok([NodeC(c)] + rest)
  {
  }

  /** A coordinate-dependent node, not an exchanged AND, with two sub-tree children, each optimized. */
  lemma DescendTwo(ctx: Context, n: Node, asWritten: bool, c0: Node, c1: Node)
    requires !LiteralCode(n.code) && !Pure(n) && !Swaps(n)
    requires |n.children| == 2 && n.children[0].NodeC? && n.children[1].NodeC?
    requires Optimize(ctx, n.children[0].n, asWritten) == Ok(c0)
    requires Optimize(ctx, n.children[1].n, asWritten) == Ok(c1)
    ensures Optimize(ctx, n, asWritten) == Ok(Node(n.code, [NodeC(c0), NodeC(c1)], n.precomputed))
  {
    var none: seq<Child> := [];
    assert KidsOf(n) == n.children;
    assert OptimizeKids(ctx, n, n.children, 2, asWritten) == Ok(none);
    NodeKidStep(ctx, n, n.children, 1, asWritten, c1, none);
    var r1 := [NodeC(c1)] + none;
    NodeKidStep(ctx, n, n.children, 0, asWritten, c0, r1);
    assert [NodeC(c0)] + r1 == [NodeC(c0), NodeC(c1)];
  }

  /** The same with three sub-tree children. */
  lemma DescendThree(ctx: Context, n: Node, asWritten: bool, c0: Node, c1: Node, c2: Node)
    requires !LiteralCode(n.code) && !Pure(n) && !Swaps(n)
    requires |n.children| == 3 && n.children[0].NodeC? && n.children[1].NodeC? && n.children[2].NodeC?
    requires Optimize(ctx, n.children[0].n, asWritten) == Ok(c0)
    requires Optimize(ctx, n.children[1].n, asWritten) == Ok(c1)
    requires Optimize(ctx, n.children[2].n, asWritten) == Ok(c2)
    ensures Optimize(ctx, n, asWritten) == Ok(Node(n.code, [NodeC(c0), NodeC(c1), NodeC(c2)], n.precomputed))
  {
    var none: seq<Child> := [];
    assert KidsOf(n) == n.children;
    assert OptimizeKids(ctx, n, n.children, 3, asWritten) == Ok(none);
    NodeKidStep(ctx, n, n.children, 2, asWritten, c2, none);
    var r2 := [NodeC(c2)] + none;
    NodeKidStep(ctx, n, n.children, 1, asWritten, c1, r2);
    var r1 := [NodeC(c1)] + r2;
    NodeKidStep(ctx, n, n.children, 0, asWritten, c0, r1);
    assert [NodeC(c0)] + r1 == [NodeC(c0), NodeC(c1), NodeC(c2)];
  }

  /** A pure node that selects nothing is kept by the corrected optimizer and frozen as written. */
  lemma ValueLeaf(ctx: Context, c: Code)
    requires c == X || c == Beta
    ensures Optimize(ctx, Leaf(c), false) == Ok(Leaf(c))
    ensures c == Beta ==> Optimize(ctx, Leaf(c), true) == Ok(Leaf(Precomputed))
    ensures c == X ==> Optimize(ctx, Leaf(c), true) == Ok(Leaf(c))
  {
    var none: seq<Child> := [];
    assert OptimizeKids(ctx, Leaf(c), [], 0, false) == Ok(none);
    assert OptimizeKids(ctx, Leaf(c), [], 0, true) == Ok(none);
    assert Eval(ctx, Leaf(c), None) == Ok([]);
  }

  // ---------------------------------------------------------------------------
  // Freezing every pure node, as written.

  /** `x < beta` */
  function XBelowBeta(): Node {
    Node(Lt, [NodeC(Leaf(X)), NodeC(Leaf(Beta))], [])
  }

  /**
   * In `x < beta` the BETA operand is pure.  As written it is frozen into an
   * empty PRECOMPUTED node, which has no numeric value, so the optimized
   * comparison fails where the original selects; corrected, the tree stays.
   */
  lemma FrozenBetaFails(ctx: Context)
    requires TwoAtoms(ctx)
    ensures Eval(ctx, XBelowBeta(), None).Ok?
    ensures Optimize(ctx, XBelowBeta(), true) == Ok(Node(Lt, [NodeC(Leaf(X)), NodeC(Leaf(Precomputed))], []))
    ensures Eval(ctx, Optimize(ctx, XBelowBeta(), true).value, None).Err?
    ensures Optimize(ctx, XBelowBeta(), false) == Ok(XBelowBeta())
  {
    BetaOptimized(ctx);
    BetaEvaluated(ctx);
  }

  lemma BetaOptimized(ctx: Context)
    ensures Optimize(ctx, XBelowBeta(), true) == Ok(Node(Lt, [NodeC(Leaf(X)), NodeC(Leaf(Precomputed))], []))
    ensures Optimize(ctx, XBelowBeta(), false) == Ok(XBelowBeta())
  {
    var n := XBelowBeta();
    assert !Pure(n) by {
      assert !Pure(Leaf(X));
    }
    ValueLeaf(ctx, X);
    ValueLeaf(ctx, Beta);
    DescendTwo(ctx, n, true, Leaf(X), Leaf(Precomputed));
    DescendTwo(ctx, n, false, Leaf(X), Leaf(Beta));
  }

  lemma BetaEvaluated(ctx: Context)
    requires TwoAtoms(ctx)
    ensures Eval(ctx, XBelowBeta(), None).Ok?
    ensures Eval(ctx, Node(Lt, [NodeC(Leaf(X)), NodeC(Leaf(Precomputed))], []), None).Err?
  {
    var n := XBelowBeta();
    var m := Node(Lt, [NodeC(Leaf(X)), NodeC(Leaf(Precomputed))], []);
    CompareOnTwoAtoms(ctx, n);
    CompareOnTwoAtoms(ctx, m);
    KeepBeta(ctx, n, m);
  }

  lemma CompareOnTwoAtoms(ctx: Context, n: Node)
    requires TwoAtoms(ctx) && IsComparison(n.code)
    ensures Eval(ctx, n, None) == Keep(ctx, n, [0, 1], 2)
  {
    EvalCompareIs(ctx, n, None);
    TwoAtomsAll(ctx);
  }

  /** Both atoms have a BETA value; a PRECOMPUTED operand has none. */
  lemma KeepBeta(ctx: Context, n: Node, m: Node)
    requires TwoAtoms(ctx)
    requires n == XBelowBeta() && m == Node(Lt, [NodeC(Leaf(X)), NodeC(Leaf(Precomputed))], [])
    ensures Keep(ctx, n, [0, 1], 2).Ok?
    ensures Keep(ctx, m, [0, 1], 2).Err?
  {
    assert EvalNumeric(ctx, Leaf(Precomputed), 0).Err?;
    assert Keep(ctx, n, [0, 1], 1).Ok?;
    assert Keep(ctx, m, [0, 1], 1).Err?;
  }

  /** The operand `name CA` */
  function NameCA(): Node {
    Node(Name, [NodeC(Node(Str, [StrC("CA")], []))], [])
  }

  /** The `nopbc` flag node the grammar keeps as WITHIN's third child. */
  function NoPbc(): Node {
    Node(Periodic, [BoolC(false)], [])
  }

  /** The cutoff literal 0.25 */
  function Dist(): Node {
    Node(Float, [FloatC(0.25)], [])
  }

  /** `within 0.25 nopbc of name CA` */
  function WithinNoPbc(): Node {
    Node(Code.Within, [NodeC(Dist()), NodeC(NameCA()), NodeC(NoPbc())], [])
  }

  /**
   * The flag child of WITHIN is pure.  As written it is frozen into an empty
   * PRECOMPUTED node, whose flag can no longer be read, so the optimized
   * WITHIN fails on every system; corrected, the flag child stays.
   */
  lemma FrozenFlagFails(ctx: Context) returns (r: seq<int>)
    ensures Eval(ctx, NameCA(), None) == Ok(r)
    ensures Eval(ctx, WithinNoPbc(), None).Ok?
    ensures Optimize(ctx, WithinNoPbc(), true) == Ok(WithinFrozen(r))
    ensures Eval(ctx, WithinFrozen(r), None).Err?
    ensures Optimize(ctx, WithinNoPbc(), false) == Ok(WithinKept(r))
  {
    r := FlagOptimizedWithin(ctx);
    FlagEvaluated(ctx, r);
  }

  /** `within 0.25 of <r>` with the flag frozen, as the written optimizer leaves it. */
  function WithinFrozen(r: seq<int>): Node {
    Node(Code.Within, [NodeC(Dist()), NodeC(Node(Precomputed, [], r)), NodeC(Leaf(Precomputed))], [])
  }

  /** `within 0.25 nopbc of <r>`, as the corrected optimizer leaves it. */
  function WithinKept(r: seq<int>): Node {
    Node(Code.Within, [NodeC(Dist()), NodeC(Node(Precomputed, [], r)), NodeC(NoPbc())], [])
  }

  /** Both optimizers freeze `name CA`; only the written one freezes the flag. */
  lemma FlagOptimizedWithin(ctx: Context) returns (r: seq<int>)
    ensures Eval(ctx, NameCA(), None) == Ok(r)
    ensures Optimize(ctx, WithinNoPbc(), true) == Ok(WithinFrozen(r))
    ensures Optimize(ctx, WithinNoPbc(), false) == Ok(WithinKept(r))
  {
    var n := WithinNoPbc();
    r := NameCAFrozen(ctx);
    FlagOptimized(ctx);
    assert !Pure(n);
    DescendThree(ctx, n, true, Dist(), Node(Precomputed, [], r), Leaf(Precomputed));
    DescendThree(ctx, n, false, Dist(), Node(Precomputed, [], r), NoPbc());
  }

  lemma FlagEvaluated(ctx: Context, r: seq<int>)
    requires Eval(ctx, NameCA(), None) == Ok(r)
    ensures Eval(ctx, WithinNoPbc(), None).Ok?
    ensures Eval(ctx, WithinFrozen(r), None).Err?
  {
    var n := WithinNoPbc();
    var m := WithinFrozen(r);
    EvalWithinIs(ctx, n, None);
    EvalWithinIs(ctx, m, None);
    WithinKeptSelects(ctx, r);
    WithinFrozenFails(ctx, r);
  }

  lemma WithinKeptSelects(ctx: Context, r: seq<int>)
    requires Eval(ctx, NameCA(), None) == Ok(r)
    ensures WithinNode(ctx, WithinNoPbc(), None).Ok?
  {
    var n := WithinNoPbc();
    assert ChildAsFloat(n, 0) == Ok(0.25);
    assert ChildAsBool(n, 2) == Ok(false);
  }

  lemma WithinFrozenFails(ctx: Context, r: seq<int>)
    ensures WithinNode(ctx, WithinFrozen(r), None).Err?
  {
    assert ChildAsBool(WithinFrozen(r), 2).Err?;
  }

  /** `name CA` is pure and selective: both optimizers freeze it into its selection. */
  lemma NameCAFrozen(ctx: Context) returns (r: seq<int>)
    ensures Eval(ctx, NameCA(), None) == Ok(r)
    ensures Optimize(ctx, NameCA(), true) == Ok(Node(Precomputed, [], r))
    ensures Optimize(ctx, NameCA(), false) == Ok(Node(Precomputed, [], r))
  {
    r := NameCAEvaluated(ctx);
    NameCAPure();
    FreezeNode(ctx, NameCA(), true, r);
    FreezeNode(ctx, NameCA(), false, r);
  }

  lemma NameCAPure()
    ensures Pure(NameCA()) && Selective(NameCA().code)
  {
    assert Pure(Node(Str, [StrC("CA")], []));
  }

  /** A pure node that is frozen becomes the PRECOMPUTED list of its selection. */
  lemma FreezeNode(ctx: Context, n: Node, asWritten: bool, r: seq<int>)
    requires !LiteralCode(n.code) && n.code != UnaryMinus && Pure(n) && Freezes(n.code, asWritten)
    requires Eval(ctx, n, None) == Ok(r)
    ensures Optimize(ctx, n, asWritten) == Ok(Node(Precomputed, [], r))
  {
  }

  lemma NameCAEvaluated(ctx: Context) returns (r: seq<int>)
    ensures Eval(ctx, NameCA(), None) == Ok(r)
  {
    var name := NameCA();
    assert ChildAsStr(name, 0) == Ok("CA");
    assert ListKids(ctx, name, 1) == Ok([]);
    r := Eval(ctx, name, None).value;
  }

  /** The flag node is pure and selects nothing: frozen as written, kept when corrected. */
  lemma FlagOptimized(ctx: Context)
    ensures Optimize(ctx, NoPbc(), true) == Ok(Leaf(Precomputed))
    ensures Optimize(ctx, NoPbc(), false) == Ok(NoPbc())
  {
    var pbc := NoPbc();
    assert Pure(pbc);
    assert Eval(ctx, pbc, None) == Ok([]);
    var none: seq<Child> := [];
    assert OptimizeKids(ctx, pbc, pbc.children, 1, false) == Ok(none);
    assert OptimizeKids(ctx, pbc, pbc.children, 0, false) == Ok([BoolC(false)] + none);
    assert [BoolC(false)] + none == pbc.children;
  }
}
