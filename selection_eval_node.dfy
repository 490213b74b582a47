/**
 * eval_node in the source's imperative form: the loops that fill the result
 * list (over the atoms, over the children of a list node, over a range,
 * over the gaps of a NOT operand, over the candidates of a comparison) and
 * the recursion over the tree.  Each method is proved to compute what the
 * function of the same node kind in SelectionEval computes, over the trees
 * the grammar builds (`Formed`: PRECOMPUTED nodes and subspaces hold valid
 * atom indices), so the properties proved of `Eval` hold of it.
 */
module SelectionEvalNode {
  import opened Wrappers
  import opened SelectionAst
  import opened StdAlgorithms
  import opened SelectionEval
  import opened SelectionOptimize

  /** `for(at=0;at<m;++at) if(test) result.push_back(at)`. */
  method SelectAtoms(ctx: Context, t: AtomTest, m: nat) returns (r: seq<int>)
    requires m <= |ctx.atoms|
    ensures r == Select(ctx, t, m)
  {
    r := [];
    var at := 0;
    while at < m
      invariant 0 <= at <= m && r == Select(ctx, t, at)
    {
      if Holds(ctx, t, at) {
        r := r + [at];
      }
      at := at + 1;
    }
  }

  /** `for(j=lo;j<hi;++j) result.push_back(j)`. */
  method PushRange(r: seq<int>, lo: int, hi: int) returns (r': seq<int>)
    ensures r' == r + Interval(lo, hi)
  {
    r' := r;
    var j := lo;
    while j < hi
      invariant lo <= j && r' + Interval(j, hi) == r + Interval(lo, hi)
      decreases hi - j
    {
      assert Interval(j, hi) == [j] + Interval(j + 1, hi);
      assert r' + Interval(j, hi) == (r' + [j]) + Interval(j + 1, hi);
      r' := r' + [j];
      j := j + 1;
    }
  }

  /**
   * The gap filling of NOT over a sorted, non-empty operand: the indices below
   * its first element, between each two neighbours and after the last one.
   */
  method GapFill(s: seq<int>, size: int) returns (r: seq<int>)
    requires s != []
    ensures r == GapsFrom(s, 0, size)
  {
    var n := |s|;
    ghost var goal := GapsFrom(s, 0, size);
    r := GapStart(s, size);
    var i := 1;
    while i < n
      invariant 1 <= i <= n
      invariant r + GapsFrom(s[i..], s[i - 1] + 1, size) == goal
    {
      r := GapTurn(r, s, i, size);
      i := i + 1;
    }
    r := GapEnd(r, s, size);
  }

  /** The indices below the first element. */
  method GapStart(s: seq<int>, size: int) returns (r: seq<int>)
    requires s != []
    ensures r + GapsFrom(s[1..], s[0] + 1, size) == GapsFrom(s, 0, size)
  {
    r := PushRange([], 0, s[0]);
    GapsFirst(r, s, size);
  }

  /** The indices after the last element. */
  method GapEnd(r: seq<int>, s: seq<int>, size: int) returns (r': seq<int>)
    requires s != []
    ensures r' == r + GapsFrom(s[|s|..], s[|s| - 1] + 1, size)
  {
    GapsLast(s, size);
    r' := PushRange(r, s[|s| - 1] + 1, size);
  }

  /** One neighbour pair: the indices strictly between s[i - 1] and s[i]. */
  method GapTurn(r: seq<int>, s: seq<int>, i: int, size: int) returns (r': seq<int>)
    requires 1 <= i < |s|
    ensures r' + GapsFrom(s[i + 1..], s[i] + 1, size) == r + GapsFrom(s[i..], s[i - 1] + 1, size)
  {
    GapsStep(r, s, i, size);
    r' := PushRange(r, s[i - 1] + 1, s[i]);
  }

  lemma GapsStep(r: seq<int>, s: seq<int>, i: int, size: int)
    requires 1 <= i < |s|
    ensures r + GapsFrom(s[i..], s[i - 1] + 1, size) ==
      (r + Interval(s[i - 1] + 1, s[i])) + GapsFrom(s[i + 1..], s[i] + 1, size)
  {
    assert s[i..][1..] == s[i + 1..];
  }

  lemma GapsFirst(r: seq<int>, s: seq<int>, size: int)
    requires s != [] && r == [] + Interval(0, s[0])
    ensures r + GapsFrom(s[1..], s[0] + 1, size) == GapsFrom(s, 0, size)
  {
    assert r == Interval(0, s[0]);
  }

  lemma GapsLast(s: seq<int>, size: int)
    requires s != []
    ensures GapsFrom(s[|s|..], s[|s| - 1] + 1, size) == Interval(s[|s| - 1] + 1, size)
  {
    assert s[|s|..] == [];
  }

  /** NOT of an empty operand: every atom (the source reads past the empty list). */
  lemma NotOfNone(ctx: Context)
    ensures NotOf(ctx, []) == AllAtoms(ctx)
  {
    StrictUnique(NotOf(ctx, []), AllAtoms(ctx));
  }

  /** NOT: the complement of the sorted operand, by gap filling. */
  method NotEval(ctx: Context, n: Node, sub: Option<seq<int>>) returns (r: Result<seq<int>>)
    ensures Formed(n, |ctx.atoms|) && SubIn(sub, |ctx.atoms|) ==> r == NotNode(ctx, n, sub)
    decreases n, 1
  {
    var c :- ChildNode(n, 0);
    if Formed(n, |ctx.atoms|) {
      FormedChild(n, 0, 0, |ctx.atoms|);
    }
    var r1 :- EvalNode(ctx, c, sub);
    var s := Sort(r1);
    SortMembers(r1);
    if |s| == 0 {
      var all := SelectAtoms(ctx, Everyone, |ctx.atoms|);
      NotOfNone(ctx);
      assert r1 == [] by {
        assert |multiset(r1)| == |multiset(s)|;
      }
      return Ok(all);
    }
    var g := GapFill(s, |ctx.atoms|);
    if Formed(n, |ctx.atoms|) && SubIn(sub, |ctx.atoms|) {
      EvalInRange(ctx, c, sub);
      assert r1 != [] by {
        assert s[0] in s;
      }
      GapFillIsComplement(ctx, r1);
    }
    return Ok(g);
  }

  /** OR: the union of the sorted operands. */
  method OrEval(ctx: Context, n: Node, sub: Option<seq<int>>) returns (r: Result<seq<int>>)
    ensures Formed(n, |ctx.atoms|) && SubIn(sub, |ctx.atoms|) ==> r == OrNode(ctx, n, sub)
    decreases n, 1
  {
    var c0 :- ChildNode(n, 0);
    if Formed(n, |ctx.atoms|) {
      FormedChild(n, 0, 0, |ctx.atoms|);
    }
    var r1 :- EvalNode(ctx, c0, sub);
    var c1 :- ChildNode(n, 1);
    if Formed(n, |ctx.atoms|) {
      FormedChild(n, 0, 1, |ctx.atoms|);
    }
    var r2 :- EvalNode(ctx, c1, sub);
    return Ok(Union(Sort(r1), Sort(r2)));
  }

  /** AND: the right operand over the left one's result, then the intersection of the sorted two. */
  method AndEval(ctx: Context, n: Node, sub: Option<seq<int>>) returns (r: Result<seq<int>>)
    ensures Formed(n, |ctx.atoms|) && SubIn(sub, |ctx.atoms|) ==> r == AndNode(ctx, n, sub)
    decreases n, 1
  {
    var c0 :- ChildNode(n, 0);
    if Formed(n, |ctx.atoms|) {
      FormedChild(n, 0, 0, |ctx.atoms|);
    }
    var r1 :- EvalNode(ctx, c0, sub);
    var c1 :- ChildNode(n, 1);
    if Formed(n, |ctx.atoms|) && SubIn(sub, |ctx.atoms|) {
      FormedChild(n, 0, 1, |ctx.atoms|);
      EvalInRange(ctx, c0, sub);
    }
    var r2 :- EvalNode(ctx, c1, Some(r1));
    return Ok(Intersection(Sort(r1), Sort(r2)));
  }

  /** `for(k=i1;k<=i2;++k)` over the atoms with that residue id or index. */
  method RangeLoop(ctx: Context, g: IntField, lo: int, hi: int) returns (r: seq<int>)
    ensures r == RangeSelect(ctx, g, lo, hi)
  {
    r := [];
    var k := lo;
    while k <= hi
      invariant lo <= k && r + RangeSelect(ctx, g, k, hi) == RangeSelect(ctx, g, lo, hi)
      decreases hi - k
    {
      var found := SelectAtoms(ctx, IntIs(g, k), |ctx.atoms|);
      assert RangeSelect(ctx, g, k, hi) == found + RangeSelect(ctx, g, k + 1, hi);
      assert r + RangeSelect(ctx, g, k, hi) == (r + found) + RangeSelect(ctx, g, k + 1, hi);
      r := r + found;
      k := k + 1;
    }
  }

  lemma IndexStep(r: seq<int>, k: int, hi: int, size: int)
    requires k <= hi
    ensures r + IndexRange(k, hi, size) == (r + (if 0 <= k < size then [k] else [])) + IndexRange(k + 1, hi, size)
  {
    var here := if 0 <= k < size then [k] else [];
    assert IndexRange(k, hi, size) == here + IndexRange(k + 1, hi, size);
  }

  /** `for(k=i1;k<=i2;++k) if(k>=0 && k<Natoms) result.push_back(k)`. */
  method IndexLoop(lo: int, hi: int, size: int) returns (r: seq<int>)
    ensures r == IndexRange(lo, hi, size)
  {
    r := [];
    var k := lo;
    while k <= hi
      invariant lo <= k && r + IndexRange(k, hi, size) == IndexRange(lo, hi, size)
      decreases hi - k
    {
      var here := if 0 <= k < size then [k] else [];
      IndexStep(r, k, hi, size);
      r := r + here;
      k := k + 1;
    }
  }

  /** A string child of NAME, RESNAME or TAG: equality or the regex matcher over all atoms. */
  method TextEval(ctx: Context, n: Node, j: int, f: TextField) returns (r: Result<seq<int>>)
    requires 0 <= j < |n.children|
    ensures r == TextKid(ctx, n, j, f)
  {
    var s :- ChildAsStr(n, j);
    var c := n.children[j].n;
    var found: seq<int> := [];
    if c.code == Str {
      found := SelectAtoms(ctx, TextIs(f, s), |ctx.atoms|);
    } else if c.code == Regex {
      found := SelectAtoms(ctx, TextLike(f, s), |ctx.atoms|);
    }
    return Ok(found);
  }

  /** An integer child of RESID or RESINDEX, or on bad_get a range child. */
  method IntEval(ctx: Context, n: Node, j: int, g: IntField) returns (r: Result<seq<int>>)
    requires 0 <= j < |n.children|
    ensures r == IntKid(ctx, n, j, g)
  {
    var k := ChildAsInt(n, j);
    if k.Ok? {
      var found := SelectAtoms(ctx, IntIs(g, k.value), |ctx.atoms|);
      return Ok(found);
    }
    var range :- ChildNode(n, j);
    var i1 :- ChildAsInt(range, 0);
    var i2 :- ChildAsInt(range, 1);
    var found := RangeLoop(ctx, g, i1, i2);
    return Ok(found);
  }

  /** An index child of INDEX, or on bad_get a range child; only valid indices are kept. */
  method IndexEval(ctx: Context, n: Node, j: int) returns (r: Result<seq<int>>)
    requires 0 <= j < |n.children| && n.code == Index
    ensures r == KidList(ctx, n, j)
  {
    var k := ChildAsInt(n, j);
    if k.Ok? {
      return Ok(if 0 <= k.value < |ctx.atoms| then [k.value] else []);
    }
    var range :- ChildNode(n, j);
    var i1 :- ChildAsInt(range, 0);
    var i2 :- ChildAsInt(range, 1);
    var found := IndexLoop(i1, i2, |ctx.atoms|);
    return Ok(found);
  }

  /** What child j of a list node contributes. */
  method KidEval(ctx: Context, n: Node, j: int) returns (r: Result<seq<int>>)
    requires 0 <= j < |n.children|
    ensures r == KidList(ctx, n, j)
  {
    match n.code
    case Name => r := TextEval(ctx, n, j, AtomName);
    case Resname => r := TextEval(ctx, n, j, ResidueName);
    case Tag => r := TextEval(ctx, n, j, AtomTag);
    case Chain =>
      var s :- ChildAsStr(n, j);
      var found := SelectAtoms(ctx, ChainIs(FirstChar(s)), |ctx.atoms|);
      r := Ok(found);
    case Resid => r := IntEval(ctx, n, j, ResidueId);
    case Resindex => r := IntEval(ctx, n, j, ResidueIndex);
    case Index => r := IndexEval(ctx, n, j);
    case _ => r := Ok([]);
  }

  /** The list so far followed by what the remaining children give, or their error. */
  function Then(acc: seq<int>, rest: Result<seq<int>>): (r: Result<seq<int>>)
    ensures r.Ok? <==> rest.Ok?
  {
    if rest.Ok? then Ok(acc + rest.value) else rest
  }

  /** A list node: the children one after another, each appending its atoms. */
  method ListEval(ctx: Context, n: Node) returns (r: Result<seq<int>>)
    ensures r == ListKids(ctx, n, 0)
  {
    var acc: seq<int> := [];
    var i := 0;
    if ListKids(ctx, n, 0).Ok? {
      assert acc + ListKids(ctx, n, 0).value == ListKids(ctx, n, 0).value;
    }
    while i < |n.children|
      invariant 0 <= i <= |n.children|
      invariant ListKids(ctx, n, 0) == Then(acc, ListKids(ctx, n, i))
      decreases |n.children| - i
    {
      var here := KidEval(ctx, n, i);
      if here.Err? {
        return Err(here.msg);
      }
      assert ListKids(ctx, n, i) == Then(here.value, ListKids(ctx, n, i + 1));
      if ListKids(ctx, n, i + 1).Ok? {
        assert acc + (here.value + ListKids(ctx, n, i + 1).value) == (acc + here.value) + ListKids(ctx, n, i + 1).value;
      }
      acc := acc + here.value;
      i := i + 1;
    }
    assert ListKids(ctx, n, i) == Ok([]);
    assert acc + [] == acc;
    return Ok(acc);
  }

  /** WITHIN: the operand over all atoms, then the grid search from the candidates. */
  method WithinEval(ctx: Context, n: Node, sub: Option<seq<int>>) returns (r: Result<seq<int>>)
    ensures Formed(n, |ctx.atoms|) ==> r == WithinNode(ctx, n, sub)
    decreases n, 1
  {
    var d :- ChildAsFloatOrInt(n, 0);
    var c1 :- ChildNode(n, 1);
    if Formed(n, |ctx.atoms|) {
      FormedChild(n, 0, 1, |ctx.atoms|);
    }
    var inner :- EvalNode(ctx, c1, None);
    var periodic := false;
    if |n.children| == 3 {
      periodic :- ChildAsBool(n, 2);
    }
    var cand: seq<int>;
    if sub.None? {
      cand := SelectAtoms(ctx, Everyone, |ctx.atoms|);
    } else {
      cand := sub.value;
    }
    return Ok(WithinOf(ctx, d, periodic, cand, inner));
  }

  /** BY RESIDUE: the residue indices of the operand, then every atom in one of them. */
  method ByEval(ctx: Context, n: Node) returns (r: Result<seq<int>>)
    ensures Formed(n, |ctx.atoms|) ==> r == ByNode(ctx, n)
    decreases n, 1
  {
    var c :- ChildNode(n, 0);
    if Formed(n, |ctx.atoms|) {
      FormedChild(n, 0, 0, |ctx.atoms|);
    }
    var r1 :- EvalNode(ctx, c, None);
    var resind: set<int> := {};
    var i := 0;
    while i < |r1|
      invariant 0 <= i <= |r1|
      invariant InRange(r1[..i], |ctx.atoms|) && resind == ResidueSet(ctx, r1[..i])
    {
      if !(0 <= r1[i] < |ctx.atoms|) {
        assert !InRange(r1, |ctx.atoms|);
        return Err(AtomRange);
      }
      ResidueStep(ctx, r1, i);
      resind := resind + {ctx.atoms[r1[i]].resindex};
      i := i + 1;
    }
    assert r1[..|r1|] == r1;
    var found := SelectAtoms(ctx, InResidues(resind), |ctx.atoms|);
    return Ok(found);
  }

  lemma ResidueStep(ctx: Context, r1: seq<int>, i: int)
    requires 0 <= i < |r1| && 0 <= r1[i] < |ctx.atoms| && InRange(r1[..i], |ctx.atoms|)
    ensures InRange(r1[..i + 1], |ctx.atoms|)
    ensures ResidueSet(ctx, r1[..i + 1]) == ResidueSet(ctx, r1[..i]) + {ctx.atoms[r1[i]].resindex}
  {
    assert r1[..i + 1] == r1[..i] + [r1[i]];
  }

  /** One candidate of a comparison: both sides at the atom, and the atom kept if they satisfy it. */
  method KeepTurn(ctx: Context, n: Node, cs: seq<int>, i: int, acc: seq<int>) returns (r: Result<seq<int>>)
    requires 0 <= i < |cs| && Keep(ctx, n, cs, i) == Ok(acc)
    ensures r == Keep(ctx, n, cs, i + 1)
  {
    var at := cs[i];
    var c0 :- ChildNode(n, 0);
    var v0 :- EvalNumeric(ctx, c0, at);
    var c1 :- ChildNode(n, 1);
    var v1 :- EvalNumeric(ctx, c1, at);
    if Compare(n.code, v0, v1) {
      return Ok(acc + [at]);
    }
    return Ok(acc);
  }

  /** An error at some candidate is the error of the whole comparison. */
  lemma {:induction false} KeepStops(ctx: Context, n: Node, cs: seq<int>, j: nat, m: nat)
    requires j <= m <= |cs| && Keep(ctx, n, cs, j).Err?
    ensures Keep(ctx, n, cs, m) == Keep(ctx, n, cs, j)
    decreases m - j
  {
    if j < m {
      KeepStops(ctx, n, cs, j, m - 1);
    }
  }

  /** A comparison: the loop over the candidates, all atoms or the subspace. */
  method CompareEval(ctx: Context, n: Node, sub: Option<seq<int>>) returns (r: Result<seq<int>>)
    ensures r == CompareNode(ctx, n, sub)
  {
    var cs: seq<int>;
    if sub.None? {
      cs := SelectAtoms(ctx, Everyone, |ctx.atoms|);
    } else {
      cs := sub.value;
    }
    var acc: seq<int> := [];
    var i := 0;
    while i < |cs|
      invariant 0 <= i <= |cs| && Keep(ctx, n, cs, i) == Ok(acc)
    {
      var step := KeepTurn(ctx, n, cs, i, acc);
      if step.Err? {
        KeepStops(ctx, n, cs, i + 1, |cs|);
        return step;
      }
      acc := step.value;
      i := i + 1;
    }
    return Ok(acc);
  }

  /**
   * eval_node: the atoms node n selects, with `sub` the subspace of an
   * enclosing AND (None: all atoms).  On a formed tree and subspace it
   * computes `Eval`.
   */
  method EvalNode(ctx: Context, n: Node, sub: Option<seq<int>>) returns (r: Result<seq<int>>)
    ensures Formed(n, |ctx.atoms|) && SubIn(sub, |ctx.atoms|) ==> r == Eval(ctx, n, sub)
    decreases n, 2
  {
    var c := n.code;
    if c.Precomputed? {
      r := Ok(if sub.None? then n.precomputed else Intersection(Sort(sub.value), Sort(n.precomputed)));
    } else if c.Not? {
      r := NotEval(ctx, n, sub);
    } else if c.Or? {
      r := OrEval(ctx, n, sub);
    } else if c.And? {
      r := AndEval(ctx, n, sub);
    } else if ListCode(c) {
      r := ListEval(ctx, n);
    } else if c.Within? {
      r := WithinEval(ctx, n, sub);
    } else if c.By? {
      r := ByEval(ctx, n);
    } else if c.All? {
      var all := SelectAtoms(ctx, Everyone, |ctx.atoms|);
      r := Ok(all);
    } else if IsComparison(c) {
      r := CompareEval(ctx, n, sub);
    } else {
      r := Ok([]);
    }
  }
}
