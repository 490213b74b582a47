/**
 * Exchanging the operands of AND can make the optimized tree fail where the
 * original evaluates: the exchanged AND hands its coordinate-dependent
 * operand a smaller subspace, and NOT, which complements over all atoms,
 * then lets atoms through that the original never tried.
 */
module SelectionExchange {
  import opened Wrappers
  import opened SelectionAst
  import opened SelectionEval
  import opened SelectionOptimize

  /** `x/x > 0`: fails at an atom with x = 0, in either order of the division. */
  function XOverXPositive(): Node {
    Node(Gt, [NodeC(Node(Div, [NodeC(Leaf(X)), NodeC(Leaf(X))], [])), NodeC(IntLit(0))], [])
  }

  /** `not x < 5` */
  function NotXBelow5(): Node {
    Node(Not, [NodeC(XBelow5())], [])
  }

  /** `not x < 5 and x/x > 0` */
  function GuardedDivision(): Node {
    Node(And, [NodeC(NotXBelow5()), NodeC(XOverXPositive())], [])
  }

  /** `index 0 2` */
  function Index02(): Node {
    Node(Index, [NodeC(IntLit(0)), NodeC(IntLit(2))], [])
  }

  /** `not x < 5 and x/x > 0 and index 0 2` */
  function GuardedAndIndex(): Node {
    Node(And, [NodeC(GuardedDivision()), NodeC(Index02())], [])
  }

  /** GuardedAndIndex with `index 0 2` frozen into r and moved to the front. */
  function IndexFirst(r: seq<int>): Node {
    Node(And, [NodeC(Node(Precomputed, [], r)), NodeC(GuardedDivision())], [])
  }

  /** Three atoms with x = 10, 0 and 1. */
  predicate ThreeAtoms(ctx: Context) {
    && |ctx.atoms| == 3 && |ctx.coords| == 3
    && ctx.coords[0].x == 10.0 && ctx.coords[1].x == 0.0 && ctx.coords[2].x == 1.0
  }

  /**
   * The optimizer introduces an error.  Unoptimized, NOT complements `x < 5`
   * over all atoms, so `x/x > 0` is tried at atom 0 only.  The pure
   * `index 0 2` passes the exchange test and is moved to the front; NOT then
   * complements `x < 5` over atoms 0 and 2, which lets atom 1 (x = 0)
   * through to the division.  The tree has the grammar's shape.
   */
  lemma ExchangeAddsError(ctx: Context) returns (r: seq<int>)
    requires ThreeAtoms(ctx)
    ensures Formed(GuardedAndIndex(), |ctx.atoms|)
    ensures Eval(ctx, GuardedAndIndex(), None).Ok?
    ensures Optimize(ctx, GuardedAndIndex(), false) == Ok(IndexFirst(r))
    ensures Eval(ctx, IndexFirst(r), None).Err?
  {
    r := ExchangeOptimized(ctx);
    GuardedFormed(ctx);
    GuardedEvaluates(ctx);
    IndexFirstFails(ctx, r);
  }

  lemma GuardedFormed(ctx: Context)
    ensures Formed(GuardedAndIndex(), |ctx.atoms|)
  {
    var size := |ctx.atoms|;
    NotFormed(size);
    GuardFormed(size);
    IndexFormed(size);
    var g := GuardedDivision();
    assert FormedFrom(g, 2, size);
    assert Formed(g, size);
  }

  lemma FormedPair(n: Node, size: int)
    requires |n.children| == 2 && n.children[0].NodeC? && n.children[1].NodeC?
    requires !ListCode(n.code) && n.code != Precomputed
    requires Formed(n.children[0].n, size) && Formed(n.children[1].n, size)
    ensures Formed(n, size)
  {
    assert FormedFrom(n, 2, size);
  }

  lemma NotFormed(size: int)
    ensures Formed(NotXBelow5(), size)
  {
    assert Formed(Leaf(X), size);
    assert Formed(IntLit(5), size);
    FormedPair(XBelow5(), size);
    assert FormedFrom(NotXBelow5(), 1, size);
  }

  lemma GuardFormed(size: int)
    ensures Formed(XOverXPositive(), size)
  {
    assert Formed(Leaf(X), size);
    FormedPair(Node(Div, [NodeC(Leaf(X)), NodeC(Leaf(X))], []), size);
    assert Formed(IntLit(0), size);
    FormedPair(XOverXPositive(), size);
  }

  lemma IndexFormed(size: int)
    ensures Formed(Index02(), size) && Pure(Index02())
  {
    var n := Index02();
    assert Pure(IntLit(0)) && Pure(IntLit(2));
    assert PureFrom(n, 2);
    assert Formed(IntLit(0), size) && Formed(IntLit(2), size);
    assert FormedFrom(n, 2, size);
  }

  /** A node with an impure sub-tree child is impure. */
  lemma ImpureParent(n: Node, j: int)
    requires 0 <= j < |n.children| && n.children[j].NodeC? && !Pure(n.children[j].n)
    ensures !Pure(n)
  {
    if Pure(n) {
      PureChild(n, 0, j);
    }
  }

  /** `index 0 2` is frozen; the coordinate-dependent rest is kept and put second. */
  lemma ExchangeOptimized(ctx: Context) returns (r: seq<int>)
    ensures Eval(ctx, Index02(), None) == Ok(r)
    ensures Optimize(ctx, GuardedAndIndex(), false) == Ok(IndexFirst(r))
  {
    var n := GuardedAndIndex();
    r := Index02Frozen(ctx);
    GuardedKept(ctx);
    ExchangeTest();
    DescendSwapped(ctx, n, false, GuardedDivision(), Node(Precomputed, [], r));
  }

  /** An AND that passes the exchange test, with both sub-tree children optimized. */
  lemma DescendSwapped(ctx: Context, n: Node, asWritten: bool, c0: Node, c1: Node)
    requires !Pure(n) && Swaps(n) && |n.children| == 2
    requires Optimize(ctx, n.children[0].n, asWritten) == Ok(c0)
    requires Optimize(ctx, n.children[1].n, asWritten) == Ok(c1)
    ensures Optimize(ctx, n, asWritten) == Ok(Node(And, [NodeC(c1), NodeC(c0)], n.precomputed))
  {
    var none: seq<Child> := [];
    var kids := KidsOf(n);
    assert kids == [n.children[1], n.children[0]];
    assert OptimizeKids(ctx, n, kids, 2, asWritten) == Ok(none);
    NodeKidStep(ctx, n, kids, 1, asWritten, c0, none);
    NodeKidStep(ctx, n, kids, 0, asWritten, c1, [NodeC(c0)] + none);
    assert [NodeC(c1)] + ([NodeC(c0)] + none) == [NodeC(c1), NodeC(c0)];
  }

  /** The AND passes the exchange test: its left operand is coordinate dependent, `index 0 2` pure. */
  lemma ExchangeTest()
    ensures Swaps(GuardedAndIndex()) && !Pure(GuardedAndIndex())
  {
    var n := GuardedAndIndex();
    ImpureParent(XBelow5(), 0);
    ImpureParent(NotXBelow5(), 0);
    ImpureParent(GuardedDivision(), 0);
    ImpureParent(n, 0);
    IndexFormed(0);
  }

  lemma Index02Frozen(ctx: Context) returns (r: seq<int>)
    ensures Eval(ctx, Index02(), None) == Ok(r)
    ensures Optimize(ctx, Index02(), false) == Ok(Node(Precomputed, [], r))
  {
    var n := Index02();
    r := IndexSelects(ctx);
    EvalListIs(ctx, n, None);
    IndexFormed(0);
    FreezeNode(ctx, n, false, r);
  }

  /** The INDEX node reads its two integers, whatever the number of atoms. */
  lemma IndexSelects(ctx: Context) returns (r: seq<int>)
    ensures ListKids(ctx, Index02(), 0) == Ok(r)
    ensures |ctx.atoms| == 3 ==> forall x :: x in r <==> x == 0 || x == 2
  {
    var n := Index02();
    IndexReads();
    assert ListKids(ctx, n, 2) == Ok([]);
    r := ListKids(ctx, n, 0).value;
  }

  lemma IndexReads()
    ensures ChildAsInt(Index02(), 0) == Ok(0) && ChildAsInt(Index02(), 1) == Ok(2)
  {
  }

  /** Nothing in `not x < 5 and x/x > 0` is pure, so the corrected optimizer leaves it as it is. */
  lemma GuardedKept(ctx: Context)
    ensures Optimize(ctx, GuardedDivision(), false) == Ok(GuardedDivision())
  {
    NotKept(ctx);
    GuardKept(ctx);
    GuardedImpure();
    KeptTwo(ctx, GuardedDivision());
  }

  lemma GuardedImpure()
    ensures !Pure(XOverXPositive()) && !Pure(GuardedDivision()) && !Swaps(GuardedDivision())
  {
    DivImpure();
    ImpureParent(XOverXPositive(), 0);
    ImpureParent(GuardedDivision(), 1);
  }

  /** A node with two sub-tree children that the optimizer keeps is kept. */
  lemma KeptTwo(ctx: Context, n: Node)
    requires !LiteralCode(n.code) && !Pure(n) && !Swaps(n)
    requires |n.children| == 2 && n.children[0].NodeC? && n.children[1].NodeC?
    requires Optimize(ctx, n.children[0].n, false) == Ok(n.children[0].n)
    requires Optimize(ctx, n.children[1].n, false) == Ok(n.children[1].n)
    ensures Optimize(ctx, n, false) == Ok(n)
  {
    DescendTwo(ctx, n, false, n.children[0].n, n.children[1].n);
    assert [NodeC(n.children[0].n), NodeC(n.children[1].n)] == n.children;
  }

  lemma NotKept(ctx: Context)
    ensures Optimize(ctx, NotXBelow5(), false) == Ok(NotXBelow5())
  {
    BelowKept(ctx);
    ImpureParent(NotXBelow5(), 0);
    DescendOne(ctx, NotXBelow5(), false, XBelow5());
  }

  lemma BelowKept(ctx: Context)
    ensures Optimize(ctx, XBelow5(), false) == Ok(XBelow5()) && !Pure(XBelow5())
  {
    ValueLeaf(ctx, X);
    ImpureParent(XBelow5(), 0);
    DescendTwo(ctx, XBelow5(), false, Leaf(X), IntLit(5));
  }

  lemma GuardKept(ctx: Context)
    ensures Optimize(ctx, XOverXPositive(), false) == Ok(XOverXPositive())
  {
    DivKept(ctx);
    var div := Node(Div, [NodeC(Leaf(X)), NodeC(Leaf(X))], []);
    ImpureParent(XOverXPositive(), 0);
    DescendTwo(ctx, XOverXPositive(), false, div, IntLit(0));
  }

  lemma DivKept(ctx: Context)
    ensures var div := Node(Div, [NodeC(Leaf(X)), NodeC(Leaf(X))], []);
      Optimize(ctx, div, false) == Ok(div) && !Pure(div)
  {
    ValueLeaf(ctx, X);
    DivImpure();
    DescendTwo(ctx, Node(Div, [NodeC(Leaf(X)), NodeC(Leaf(X))], []), false, Leaf(X), Leaf(X));
  }

  lemma DivImpure()
    ensures !Pure(Node(Div, [NodeC(Leaf(X)), NodeC(Leaf(X))], []))
  {
    ImpureParent(Node(Div, [NodeC(Leaf(X)), NodeC(Leaf(X))], []), 0);
  }

  /** A coordinate-dependent node with one sub-tree child, optimized. */
  lemma DescendOne(ctx: Context, n: Node, asWritten: bool, c0: Node)
    requires !LiteralCode(n.code) && !Pure(n) && !Swaps(n)
    requires |n.children| == 1 && n.children[0].NodeC?
    requires Optimize(ctx, n.children[0].n, asWritten) == Ok(c0)
    ensures Optimize(ctx, n, asWritten) == Ok(Node(n.code, [NodeC(c0)], n.precomputed))
  {
    var none: seq<Child> := [];
    assert KidsOf(n) == n.children;
    assert OptimizeKids(ctx, n, n.children, 1, asWritten) == Ok(none);
    NodeKidStep(ctx, n, n.children, 0, asWritten, c0, none);
    assert [NodeC(c0)] + none == [NodeC(c0)];
  }

  /** A comparison whose sides evaluate at every candidate evaluates. */
  lemma {:induction false} KeepDefined(ctx: Context, n: Node, cs: seq<int>, m: nat)
    requires m <= |cs| && forall j :: 0 <= j < m ==> Defined(ctx, n, cs[j])
    ensures Keep(ctx, n, cs, m).Ok?
    decreases m
  {
    if m > 0 {
      KeepDefined(ctx, n, cs, m - 1);
      assert Defined(ctx, n, cs[m - 1]);
    }
  }

  /** `x/x > 0` is defined exactly at the atoms whose x is not 0. */
  lemma XOverXDefined(ctx: Context, at: int)
    requires ThreeAtoms(ctx) && 0 <= at < 3
    ensures Defined(ctx, XOverXPositive(), at) <==> ctx.coords[at].x != 0.0
  {
    var div := Node(Div, [NodeC(Leaf(X)), NodeC(Leaf(X))], []);
    assert EvalNumeric(ctx, Leaf(X), at) == Ok(ctx.coords[at].x);
    assert EvalNumeric(ctx, div, at).Ok? <==> ctx.coords[at].x != 0.0;
    assert EvalNumeric(ctx, IntLit(0), at).Ok?;
  }

  /** `x < 5` is defined at every atom and holds where x is below 5. */
  lemma XBelow5At(ctx: Context, at: int)
    requires ThreeAtoms(ctx) && 0 <= at < 3
    ensures Defined(ctx, XBelow5(), at)
    ensures Passes(ctx, XBelow5(), at) <==> ctx.coords[at].x < 5.0
  {
    assert EvalNumeric(ctx, Leaf(X), at) == Ok(ctx.coords[at].x);
    assert EvalNumeric(ctx, IntLit(5), at) == Ok(5.0);
  }

  /** Over the candidates, `x < 5` evaluates and keeps those with x below 5. */
  lemma XBelow5Over(ctx: Context, sub: Option<seq<int>>)
    requires ThreeAtoms(ctx) && SubIn(sub, 3)
    ensures Eval(ctx, XBelow5(), sub).Ok?
    ensures forall x :: x in Eval(ctx, XBelow5(), sub).value <==> x in Sub(ctx, sub) && ctx.coords[x].x < 5.0
  {
    XBelow5Evaluates(ctx, sub);
    EvalComparison(ctx, XBelow5(), sub);
    CandidatesInRange(ctx, sub);
    forall x | x in Sub(ctx, sub) ensures Passes(ctx, XBelow5(), x) <==> ctx.coords[x].x < 5.0 {
      XBelow5At(ctx, x);
    }
  }

  lemma XBelow5Evaluates(ctx: Context, sub: Option<seq<int>>)
    requires ThreeAtoms(ctx) && SubIn(sub, 3)
    ensures Eval(ctx, XBelow5(), sub).Ok?
  {
    var cs := Sub(ctx, sub);
    CandidatesInRange(ctx, sub);
    forall j | 0 <= j < |cs| ensures Defined(ctx, XBelow5(), cs[j]) {
      XBelow5At(ctx, cs[j]);
    }
    KeepDefined(ctx, XBelow5(), cs, |cs|);
    EvalCompareIs(ctx, XBelow5(), sub);
  }

  lemma CandidatesInRange(ctx: Context, sub: Option<seq<int>>)
    requires |ctx.atoms| == 3 && SubIn(sub, 3)
    ensures forall j :: 0 <= j < |Sub(ctx, sub)| ==> 0 <= Sub(ctx, sub)[j] < 3
    ensures forall x :: x in Sub(ctx, sub) ==> 0 <= x < 3
  {
    if sub.None? {
      forall j | 0 <= j < |Sub(ctx, sub)| ensures 0 <= Sub(ctx, sub)[j] < 3 {
        assert Sub(ctx, sub)[j] in AllAtoms(ctx);
      }
    }
  }

  /** AND evaluates when its left operand does and its right one does over the left one's result. */
  lemma AndEvaluates(ctx: Context, n: Node, sub: Option<seq<int>>)
    requires n.code == And && |n.children| >= 2 && n.children[0].NodeC? && n.children[1].NodeC?
    requires Eval(ctx, n.children[0].n, sub).Ok?
    requires Eval(ctx, n.children[1].n, Some(Eval(ctx, n.children[0].n, sub).value)).Ok?
    ensures Eval(ctx, n, sub).Ok?
  {
    assert Eval(ctx, n, sub) == AndNode(ctx, n, sub);
  }

  /** AND fails when its right operand fails over the left one's result. */
  lemma AndFails(ctx: Context, n: Node, sub: Option<seq<int>>)
    requires n.code == And && |n.children| >= 2 && n.children[0].NodeC? && n.children[1].NodeC?
    requires Eval(ctx, n.children[0].n, sub).Ok?
    requires Eval(ctx, n.children[1].n, Some(Eval(ctx, n.children[0].n, sub).value)).Err?
    ensures Eval(ctx, n, sub).Err?
  {
    assert Eval(ctx, n, sub) == AndNode(ctx, n, sub);
  }

  /** Unoptimized: `not x < 5` keeps atom 0 only, where x/x is 1, and `index 0 2` reads no candidate. */
  lemma GuardedEvaluates(ctx: Context)
    requires ThreeAtoms(ctx)
    ensures Eval(ctx, GuardedAndIndex(), None).Ok?
  {
    var c := NotBelow5OnlyZero(ctx);
    GuardOverZero(ctx, c);
    AndEvaluates(ctx, GuardedDivision(), None);
    var l := Eval(ctx, GuardedDivision(), None).value;
    IndexAnywhere(ctx, Some(l));
    AndEvaluates(ctx, GuardedAndIndex(), None);
  }

  /** `index 0 2` selects atoms 0 and 2 whatever the subspace. */
  lemma IndexAnywhere(ctx: Context, sub: Option<seq<int>>)
    requires |ctx.atoms| == 3
    ensures Eval(ctx, Index02(), sub).Ok?
    ensures Eval(ctx, Index02(), sub) == Eval(ctx, Index02(), None)
    ensures forall x :: x in Eval(ctx, Index02(), sub).value <==> x == 0 || x == 2
  {
    var n := Index02();
    var r := IndexSelects(ctx);
    EvalListIs(ctx, n, sub);
    EvalListIs(ctx, n, None);
  }

  /** `not x < 5` evaluates over the candidates and keeps every atom but the candidates with x below 5. */
  lemma NotOver(ctx: Context, sub: Option<seq<int>>)
    requires ThreeAtoms(ctx) && SubIn(sub, 3)
    ensures Eval(ctx, NotXBelow5(), sub).Ok?
    ensures forall x :: x in Eval(ctx, NotXBelow5(), sub).value <==>
      0 <= x < 3 && !(x in Sub(ctx, sub) && ctx.coords[x].x < 5.0)
  {
    XBelow5Over(ctx, sub);
    assert Eval(ctx, NotXBelow5(), sub) == NotNode(ctx, NotXBelow5(), sub);
    EvalNot(ctx, NotXBelow5(), sub);
  }

  /** Over all atoms `not x < 5` keeps those with x at least 5: atom 0 only. */
  lemma NotBelow5OnlyZero(ctx: Context) returns (c: seq<int>)
    requires ThreeAtoms(ctx)
    ensures Eval(ctx, NotXBelow5(), None) == Ok(c)
    ensures forall x :: x in c ==> x == 0
  {
    NotOver(ctx, None);
    c := Eval(ctx, NotXBelow5(), None).value;
    forall x | x in c ensures x == 0 {
      assert 0 <= x < 3 && x in AllAtoms(ctx);
      assert x != 1 && x != 2;
    }
  }

  /** `x/x > 0` over candidates that are all atom 0 evaluates. */
  lemma GuardOverZero(ctx: Context, c: seq<int>)
    requires ThreeAtoms(ctx) && forall x :: x in c ==> x == 0
    ensures Eval(ctx, XOverXPositive(), Some(c)).Ok?
  {
    var d := XOverXPositive();
    EvalCompareIs(ctx, d, Some(c));
    forall j | 0 <= j < |c| ensures Defined(ctx, d, c[j]) {
      assert c[j] in c;
      XOverXDefined(ctx, c[j]);
    }
    KeepDefined(ctx, d, c, |c|);
  }

  /** Optimized: `x < 5` over atoms 0 and 2 keeps atom 2, so NOT lets atom 1 through to x/x. */
  lemma IndexFirstFails(ctx: Context, r: seq<int>)
    requires ThreeAtoms(ctx) && Eval(ctx, Index02(), None) == Ok(r)
    ensures Eval(ctx, IndexFirst(r), None).Err?
  {
    IndexAnywhere(ctx, None);
    var p := Node(Precomputed, [], r);
    EvalPrecomputedIs(ctx, p, None);
    assert SubIn(Some(r), 3) by {
      forall i | 0 <= i < |r| ensures 0 <= r[i] < 3 { assert r[i] in r; }
    }
    var c := NotBelow5LetsOneIn(ctx, r);
    GuardFailsAtOne(ctx, c);
    AndFails(ctx, GuardedDivision(), Some(r));
    AndFails(ctx, IndexFirst(r), None);
  }

  /** Over atoms 0 and 2 `not x < 5` keeps every atom but 2, atom 1 among them. */
  lemma NotBelow5LetsOneIn(ctx: Context, r: seq<int>) returns (c: seq<int>)
    requires ThreeAtoms(ctx) && SubIn(Some(r), 3) && forall x :: x in r <==> x == 0 || x == 2
    ensures Eval(ctx, NotXBelow5(), Some(r)) == Ok(c)
    ensures 1 in c
  {
    NotOver(ctx, Some(r));
    c := Eval(ctx, NotXBelow5(), Some(r)).value;
  }

  /** `x/x > 0` over candidates that hold atom 1 fails. */
  lemma GuardFailsAtOne(ctx: Context, c: seq<int>)
    requires ThreeAtoms(ctx) && 1 in c
    ensures Eval(ctx, XOverXPositive(), Some(c)).Err?
  {
    var i :| 0 <= i < |c| && c[i] == 1;
    XOverXDefined(ctx, 1);
    var d := XOverXPositive();
    EvalCompareIs(ctx, d, Some(c));
    assert c[..|c|] == c;
    assert !Defined(ctx, d, c[i]);
  }
}
