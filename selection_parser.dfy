/**
 * The parser object of the selection language and its recursive-descent
 * grammar, in the source's imperative form.  `Grammar` holds the token cursor
 * `cur` and advances it rule by rule; every rule returns whether it matched
 * and the new value of the node variable the source passes it by reference.
 * Each rule is proved to compute what the grammar functions of
 * SelectionGrammar compute, so the properties proved there (precedence,
 * associativity, ranges, failed alternatives that never rewind) hold of it.
 */
module SelectionParser {
  import opened Wrappers
  import opened SelectionAst
  import G = SelectionGrammar
  import ST = SelectionTokens
  import opened StdAlgorithms
  import opened SelectionEval
  import opened SelectionOptimize
  import opened SelectionEvalNode

  /** The state of the grammar: the token list of the parser and the cursor into it. */
  class Grammar {
    const toks: seq<Node>
    var cur: int

    constructor (tokens: seq<Node>)
      ensures toks == tokens && cur == 0
    {
      toks := tokens;
      cur := 0;
    }

    /** expect: on a token of code c, take it and advance by one; otherwise change nothing. */
    method Expect(c: Code, m: Node) returns (ok: bool, m': Node)
      requires 0 <= cur <= |toks|
      modifies this`cur
      ensures ok == G.Is(toks, old(cur), c)
      ensures cur == if ok then old(cur) + 1 else old(cur)
      ensures m' == if ok then toks[old(cur)] else m
    {
      if cur >= |toks| {
        return false, m;
      }
      if toks[cur].code == c {
        m' := toks[cur];
        cur := cur + 1;
        ok := true;
      } else {
        ok, m' := false, m;
      }
    }

    /** expect(a) || expect(b): the first of two codes that matches. */
    method ExpectEither(a: Code, b: Code, m: Node) returns (ok: bool, m': Node)
      requires 0 <= cur <= |toks|
      modifies this`cur
      ensures ok == (G.Is(toks, old(cur), a) || G.Is(toks, old(cur), b))
      ensures cur == if ok then old(cur) + 1 else old(cur)
      ensures m' == if ok then toks[old(cur)] else m
    {
      ok, m' := Expect(a, m);
      if !ok {
        ok, m' := Expect(b, m');
      }
    }

    /** unary_minus: MINUS and a factor; the MINUS token becomes UNARY_MINUS over the factor. */
    method UnaryMinus(res: Node) returns (ok: bool, res': Node)
      requires 0 <= cur <= |toks|
      modifies this`cur
      ensures G.P(ok, cur, res') == G.UnaryMinus(toks, old(cur), res)
      decreases |toks| - cur, 2
    {
      ok, res' := Expect(Minus, res);
      if !ok {
        return;
      }
      var val;
      ghost var x := G.NumFactor(toks, cur, G.Null);
      ok, val := NumFactor(G.Null);
      assert x == G.P(ok, cur, val);
      if ok {
        res' := Node(Code.UnaryMinus, res'.children + [NodeC(val)], res'.precomputed);
      }
    }

    /** num_factor: the alternatives tried in the source's order, each from where the last one stopped. */
    method NumFactor(res: Node) returns (ok: bool, res': Node)
      requires 0 <= cur <= |toks|
      modifies this`cur
      ensures G.P(ok, cur, res') == G.NumFactor(toks, old(cur), res)
      decreases |toks| - cur, 4
    {
      ghost var c0 := cur;
      ok, res' := ExpectEither(Float, Int, res);
      if ok {
        return;
      }
      var dum;
      ok, dum := Expect(LParen, G.Null);
      ghost var goal := if ok then G.ParenFactor(toks, cur, res) else G.FactorRest(toks, cur, res);
      assert goal == G.NumFactor(toks, c0, res);
      if ok {
        ok, res' := ParenFactor(res');
      } else {
        ok, res' := FactorRest(res');
      }
      assert goal == G.P(ok, cur, res');
    }

    /** The parenthesised alternative of num_factor after `(`; on failure the other alternatives follow. */
    method ParenFactor(res: Node) returns (ok: bool, res': Node)
      requires 0 <= cur <= |toks|
      modifies this`cur
      ensures G.P(ok, cur, res') == G.ParenFactor(toks, old(cur), res)
      decreases |toks| - cur, 9
    {
      ghost var e := G.NumExpr(toks, cur, res);
      ok, res' := NumExpr(res);
      assert e == G.P(ok, cur, res');
      var dum;
      if ok {
        ok, dum := Expect(RParen, G.Null);
      }
      if !ok {
        ghost var x := G.FactorRest(toks, cur, res');
        ok, res' := FactorRest(res');
        assert x == G.P(ok, cur, res');
      }
    }

    /** expect over X, Y, Z, BETA and OCC, in this order. */
    method AtomProperty(m: Node) returns (ok: bool, m': Node)
      requires 0 <= cur <= |toks|
      modifies this`cur
      ensures ok == (G.Is(toks, old(cur), X) || G.Is(toks, old(cur), Y) || G.Is(toks, old(cur), Z)
                     || G.Is(toks, old(cur), Beta) || G.Is(toks, old(cur), Occ))
      ensures cur == if ok then old(cur) + 1 else old(cur)
      ensures m' == if ok then toks[old(cur)] else m
    {
      ok, m' := Expect(X, m);
      if !ok {
        ok, m' := Expect(Y, m');
      }
      if !ok {
        ok, m' := Expect(Z, m');
      }
      if !ok {
        ok, m' := Expect(Beta, m');
      }
      if !ok {
        ok, m' := Expect(Occ, m');
      }
    }

    /** The alternatives of num_factor after the parenthesised one. */
    method FactorRest(res: Node) returns (ok: bool, res': Node)
      requires 0 <= cur <= |toks|
      modifies this`cur
      ensures G.P(ok, cur, res') == G.FactorRest(toks, old(cur), res)
      decreases |toks| - cur, 3
    {
      ok, res' := AtomProperty(res);
      if ok {
        return;
      }
      ghost var d := G.DistanceRule(toks, cur, res');
      ok, res' := DistanceRule(res');
      assert d == G.P(ok, cur, res');
      if !ok {
        ghost var u := G.UnaryMinus(toks, cur, res');
        ok, res' := UnaryMinus(res');
        assert u == G.P(ok, cur, res');
      }
    }

    /**
     * distance_rule: DIST, an optional PERIODIC, then POINT with three factors
     * or VECTOR/PLANE with six; the periodicity token goes last.  With none of
     * the three the rule succeeds with `res` as it was.
     */
    method DistanceRule(res: Node) returns (ok: bool, res': Node)
      requires 0 <= cur <= |toks|
      modifies this`cur
      ensures G.P(ok, cur, res') == G.DistanceRule(toks, old(cur), res)
      decreases |toks| - cur, 2
    {
      var dum;
      ok, dum := Expect(Dist, G.Null);
      if !ok {
        return false, res;
      }
      var hasPbc, pbc := Expect(Periodic, G.Null);
      var tail := if hasPbc then [NodeC(pbc)] else [];
      ok, res' := DistanceShape(res, tail);
    }

    /** The part of distance_rule after DIST and the optional periodicity token. */
    method DistanceShape(res: Node, pbc: seq<Child>) returns (ok: bool, res': Node)
      requires 0 <= cur <= |toks|
      modifies this`cur
      ensures G.P(ok, cur, res') == G.DistanceShape(toks, old(cur), res, pbc)
      decreases |toks| - cur, 2
    {
      var isPoint, isVec;
      isPoint, res' := Expect(Point, res);
      if isPoint {
        ok, res' := DistanceArgs(res', 3, pbc);
        return;
      }
      isVec, res' := ExpectEither(Vector, Plane, res');
      if isVec {
        ok, res' := DistanceArgs(res', 6, pbc);
      } else {
        ok := true;
      }
    }

    /** The k factors of a distance; the shape token w receives them and then the periodicity token. */
    method DistanceArgs(w: Node, k: nat, pbc: seq<Child>) returns (ok: bool, res': Node)
      requires 0 <= cur <= |toks|
      modifies this`cur
      ensures G.P(ok, cur, res') == G.DistanceArgs(toks, old(cur), w, k, pbc)
      decreases |toks| - cur, 6
    {
      var fs;
      ok, fs := Factors(k);
      res' := if ok then AddChildren(w, G.Kids(fs) + pbc) else w;
    }

    /** k factors in a row, each into a fresh variable, stopping at the first that fails. */
    method Factors(k: nat) returns (ok: bool, fs: seq<Node>)
      requires 0 <= cur <= |toks|
      modifies this`cur
      ensures (ok, cur, fs) == G.Factors(toks, old(cur), k)
      decreases |toks| - cur, 5, k
    {
      if k == 0 {
        return true, [];
      }
      var f;
      ok, f := NumFactor(G.Null);
      if !ok {
        return false, [];
      }
      ok, fs := Factors(k - 1);
      fs := [f] + fs;
    }

    /** num_term: factors joined by `*` and `/`, folded to the left. */
    method NumTerm(res: Node) returns (ok: bool, res': Node)
      requires 0 <= cur <= |toks|
      modifies this`cur
      ensures G.P(ok, cur, res') == G.NumTerm(toks, old(cur), res)
      decreases |toks| - cur, 6
    {
      var operand1, operand2 := G.Null, G.Null;
      ghost var f := G.NumFactor(toks, cur, operand1);
      ok, operand1 := NumFactor(operand1);
      assert f == G.P(ok, cur, operand1);
      if !ok {
        return false, res;
      }
      res' := operand1;
      ghost var goal := G.TermLoop(toks, cur, res', operand1, operand2);
      var more := true;
      while more
        invariant old(cur) <= cur <= |toks|
        invariant more ==> G.TermLoop(toks, cur, res', operand1, operand2) == goal
        invariant !more ==> goal == G.P(true, cur, res')
        decreases |toks| - cur, more
      {
        more, res', operand1, operand2 := TermTurn(res', operand1, operand2);
      }
    }

    /** One turn of the loop of num_term: `*` or `/` and a factor join the tree built so far. */
    method TermTurn(res: Node, operand1: Node, operand2: Node) returns (more: bool, res': Node, operand1': Node, operand2': Node)
      requires 0 <= cur <= |toks|
      modifies this`cur
      ensures old(cur) <= cur <= |toks| && (more ==> cur > old(cur))
      ensures G.TermLoop(toks, old(cur), res, operand1, operand2)
        == if more then G.TermLoop(toks, cur, res', operand1', operand2') else G.P(true, cur, res')
      decreases |toks| - cur, 5
    {
      res', operand1', operand2' := res, operand1, operand2;
      var isOp, op := ExpectEither(Mult, Div, G.Null);
      more := false;
      if isOp {
        ghost var x := G.NumFactor(toks, cur, operand2);
        more, operand2' := NumFactor(operand2);
        assert x == G.P(more, cur, operand2');
      }
      if more {
        if |res.children| == 2 {
          operand1' := res;
        }
        res' := AddChildren(op, [NodeC(operand1'), NodeC(operand2')]);
      }
    }

    /** num_expr: terms joined by `+` and `-`, folded to the left. */
    method NumExpr(res: Node) returns (ok: bool, res': Node)
      requires 0 <= cur <= |toks|
      modifies this`cur
      ensures G.P(ok, cur, res') == G.NumExpr(toks, old(cur), res)
      decreases |toks| - cur, 8
    {
      var operand1, operand2 := G.Null, G.Null;
      ghost var t := G.NumTerm(toks, cur, operand1);
      ok, operand1 := NumTerm(operand1);
      assert t == G.P(ok, cur, operand1);
      if !ok {
        return false, res;
      }
      res' := operand1;
      ghost var goal := G.ExprLoop(toks, cur, res', operand1, operand2);
      var more := true;
      while more
        invariant old(cur) <= cur <= |toks|
        invariant more ==> G.ExprLoop(toks, cur, res', operand1, operand2) == goal
        invariant !more ==> goal == G.P(true, cur, res')
        decreases |toks| - cur, more
      {
        more, res', operand1, operand2 := ExprTurn(res', operand1, operand2);
      }
    }

    /** One turn of the loop of num_expr: `+` or `-` and a term join the tree built so far. */
    method ExprTurn(res: Node, operand1: Node, operand2: Node) returns (more: bool, res': Node, operand1': Node, operand2': Node)
      requires 0 <= cur <= |toks|
      modifies this`cur
      ensures old(cur) <= cur <= |toks| && (more ==> cur > old(cur))
      ensures G.ExprLoop(toks, old(cur), res, operand1, operand2)
        == if more then G.ExprLoop(toks, cur, res', operand1', operand2') else G.P(true, cur, res')
      decreases |toks| - cur, 7
    {
      res', operand1', operand2' := res, operand1, operand2;
      var isOp, op := ExpectEither(Plus, Minus, G.Null);
      more := false;
      if isOp {
        ghost var x := G.NumTerm(toks, cur, operand2);
        more, operand2' := NumTerm(operand2);
        assert x == G.P(more, cur, operand2');
      }
      if more {
        if |res.children| == 2 {
          operand1' := res;
        }
        res' := AddChildren(op, [NodeC(operand1'), NodeC(operand2')]);
      }
    }

    /** num_comparison: an expression, a comparison operator and an expression. */
    method NumComparison(res: Node) returns (ok: bool, res': Node)
      requires 0 <= cur <= |toks|
      modifies this`cur
      ensures G.P(ok, cur, res') == G.NumComparison(toks, old(cur), res)
      decreases |toks| - cur, 9
    {
      var operand1, operand2, op := G.Null, G.Null, G.Null;
      ghost var e := G.NumExpr(toks, cur, operand1);
      ok, operand1 := NumExpr(operand1);
      assert e == G.P(ok, cur, operand1);
      if !ok {
        return false, res;
      }
      var isOp;
      isOp, op := ComparisonOperator(op);
      ok := false;
      if isOp {
        ghost var x := G.NumExpr(toks, cur, operand2);
        ok, operand2 := NumExpr(operand2);
        assert x == G.P(ok, cur, operand2);
      }
      if ok {
        res' := AddChildren(op, [NodeC(operand1), NodeC(operand2)]);
      } else {
        res' := res;
      }
    }

    /** The alternatives of the comparison operator of num_comparison, tried in the source's order. */
    method ComparisonOperator(m: Node) returns (ok: bool, m': Node)
      requires 0 <= cur <= |toks|
      modifies this`cur
      ensures ok == G.IsComparison(toks, old(cur))
      ensures cur == if ok then old(cur) + 1 else old(cur)
      ensures m' == if ok then toks[old(cur)] else m
    {
      ok, m' := ExpectEither(Eq, Neq, m);
      if !ok {
        ok, m' := ExpectEither(Lt, Gt, m');
      }
      if !ok {
        ok, m' := ExpectEither(Leq, Geq, m');
      }
    }

    /** logical_expr: operands joined by `and` and `or`, one level, folded to the left. */
    method LogicalExpr(res: Node) returns (ok: bool, res': Node)
      requires 0 <= cur <= |toks|
      modifies this`cur
      ensures G.P(ok, cur, res') == G.LogicalExpr(toks, old(cur), res)
      decreases |toks| - cur, 16
    {
      var operand1, operand2 := G.Null, G.Null;
      ghost var l := G.LogicalOperand(toks, cur, operand1);
      ok, operand1 := LogicalOperand(operand1);
      assert l == G.P(ok, cur, operand1);
      if !ok {
        return false, res;
      }
      res' := operand1;
      ghost var goal := G.LogicLoop(toks, cur, res', operand1, operand2);
      var more := true;
      while more
        invariant old(cur) <= cur <= |toks|
        invariant more ==> G.LogicLoop(toks, cur, res', operand1, operand2) == goal
        invariant !more ==> goal == G.P(true, cur, res')
        decreases |toks| - cur, more
      {
        more, res', operand1, operand2 := LogicTurn(res', operand1, operand2);
      }
    }

    /** One turn of the loop of logical_expr: `or` or `and` and an operand join the tree built so far. */
    method LogicTurn(res: Node, operand1: Node, operand2: Node) returns (more: bool, res': Node, operand1': Node, operand2': Node)
      requires 0 <= cur <= |toks|
      modifies this`cur
      ensures old(cur) <= cur <= |toks| && (more ==> cur > old(cur))
      ensures G.LogicLoop(toks, old(cur), res, operand1, operand2)
        == if more then G.LogicLoop(toks, cur, res', operand1', operand2') else G.P(true, cur, res')
      decreases |toks| - cur, 15
    {
      res', operand1', operand2' := res, operand1, operand2;
      var isOp, op := ExpectEither(Or, And, G.Null);
      more := false;
      if isOp {
        ghost var x := G.LogicalOperand(toks, cur, operand2);
        more, operand2' := LogicalOperand(operand2);
        assert x == G.P(more, cur, operand2');
      }
      if more {
        if |res.children| == 2 {
          operand1' := res;
        }
        res' := AddChildren(op, [NodeC(operand1'), NodeC(operand2')]);
      }
    }

    /** logical_not: NOT and an operand, which receives the caller's variable. */
    method LogicalNot(res: Node) returns (ok: bool, res': Node)
      requires 0 <= cur <= |toks|
      modifies this`cur
      ensures G.P(ok, cur, res') == G.LogicalNot(toks, old(cur), res)
      decreases |toks| - cur, 9
    {
      var tmp;
      ok, tmp := Expect(Not, G.Null);
      if !ok {
        return false, res;
      }
      ghost var x := G.LogicalOperand(toks, cur, res);
      ok, res' := LogicalOperand(res);
      assert x == G.P(ok, cur, res');
      if ok {
        res' := AddChildren(tmp, [NodeC(res')]);
      }
    }

    /** within_rule: WITHIN, a number, an optional PERIODIC, OF and an operand. */
    method WithinRule(res: Node) returns (ok: bool, res': Node)
      requires 0 <= cur <= |toks|
      modifies this`cur
      ensures G.P(ok, cur, res') == G.WithinRule(toks, old(cur), res)
      decreases |toks| - cur, 9
    {
      ghost var c0 := cur;
      ok, res' := Expect(Code.Within, res);
      if !ok {
        return;
      }
      var dist;
      ok, dist := ExpectEither(Float, Int, G.Null);
      if !ok {
        return;
      }
      var hasPeriodic, periodic := Expect(Periodic, G.Null);
      ghost var pbc := if hasPeriodic then [NodeC(periodic)] else [];
      ghost var goal := G.WithinTail(toks, cur, res', dist, pbc);
      assert goal == G.WithinRule(toks, c0, res);
      var dum;
      ok, dum := Expect(Of, G.Null);
      if !ok {
        return;
      }
      var expr;
      ghost var x := G.LogicalOperand(toks, cur, G.Null);
      ok, expr := LogicalOperand(G.Null);
      assert x == G.P(ok, cur, expr);
      if ok {
        res' := AddChildren(res', [NodeC(dist), NodeC(expr)] + if hasPeriodic then [NodeC(periodic)] else []);
      }
    }

    /** by_residue: BY RESIDUE and an operand. */
    method ByResidue(res: Node) returns (ok: bool, res': Node)
      requires 0 <= cur <= |toks|
      modifies this`cur
      ensures G.P(ok, cur, res') == G.ByResidue(toks, old(cur), res)
      decreases |toks| - cur, 9
    {
      ok, res' := Expect(By, res);
      if !ok {
        return;
      }
      var dum;
      ok, dum := Expect(Residue, G.Null);
      if !ok {
        return;
      }
      var expr;
      ghost var x := G.LogicalOperand(toks, cur, G.Null);
      ok, expr := LogicalOperand(G.Null);
      assert x == G.P(ok, cur, expr);
      if ok {
        res' := AddChildren(res', [NodeC(expr)]);
      }
    }

    /** keyword_text_list: NAME/RESNAME/TAG/CHAIN and the STR/REGEX tokens after it; none is a failure. */
    method KeywordTextList(res: Node) returns (ok: bool, res': Node)
      requires 0 <= cur <= |toks|
      modifies this`cur
      ensures G.P(ok, cur, res') == G.KeywordTextList(toks, old(cur), res)
    {
      ok, res' := TextKeyword(res);
      if ok {
        ok, res' := TextList(res');
      }
    }

    /** expect over NAME, RESNAME, TAG and CHAIN, in this order. */
    method TextKeyword(m: Node) returns (ok: bool, m': Node)
      requires 0 <= cur <= |toks|
      modifies this`cur
      ensures ok == G.IsTextKeyword(toks, old(cur))
      ensures cur == if ok then old(cur) + 1 else old(cur)
      ensures m' == if ok then toks[old(cur)] else m
    {
      ok, m' := ExpectEither(Name, Resname, m);
      if !ok {
        ok, m' := ExpectEither(Tag, Chain, m');
      }
    }

    /** The STR and REGEX tokens after the keyword w of keyword_text_list; none is a failure. */
    method TextList(w: Node) returns (ok: bool, res': Node)
      requires 0 <= cur <= |toks|
      modifies this`cur
      ensures G.P(ok, cur, res') == G.TextList(toks, old(cur), w)
    {
      res' := TextLoop(w);
      ok := |res'.children| > 0;
    }

    /** The loop of keyword_text_list: every STR or REGEX token becomes a child of `res`. */
    method TextLoop(res: Node) returns (res': Node)
      requires 0 <= cur <= |toks|
      modifies this`cur
      ensures G.P(true, cur, res') == G.TextLoop(toks, old(cur), res)
    {
      res' := res;
      var str := G.Null;
      ghost var goal := G.TextLoop(toks, cur, res');
      var more := true;
      while more
        invariant old(cur) <= cur <= |toks|
        invariant more ==> G.TextLoop(toks, cur, res') == goal
        invariant !more ==> goal == G.P(true, cur, res')
        decreases |toks| - cur, more
      {
        more, str := ExpectEither(Str, Regex, str);
        if more {
          res' := AddChildren(res', [NodeC(str)]);
        }
      }
    }

    /** int_or_range: INT, or INT (TO or MINUS) INT, which becomes a TO node over the two. */
    method IntOrRange(res: Node) returns (ok: bool, res': Node)
      requires 0 <= cur <= |toks|
      modifies this`cur
      ensures G.P(ok, cur, res') == G.IntOrRange(toks, old(cur), res)
    {
      var v1, v2 := G.Null, G.Null;
      ok, v1 := Expect(Int, v1);
      if !ok {
        return false, res;
      }
      var isOp, isInt := false, false;
      isOp, res' := ExpectEither(To, Minus, res);
      if isOp {
        isInt, v2 := Expect(Int, v2);
      }
      if isOp && isInt {
        res' := Node(To, res'.children + [NodeC(v1), NodeC(v2)], res'.precomputed);
      } else {
        res' := v1;
      }
    }

    /** keyword_int_list: RESID/RESINDEX/INDEX and the ints or ranges after it; none is a failure. */
    method KeywordIntList(res: Node) returns (ok: bool, res': Node)
      requires 0 <= cur <= |toks|
      modifies this`cur
      ensures G.P(ok, cur, res') == G.KeywordIntList(toks, old(cur), res)
    {
      ok, res' := IntKeyword(res);
      if ok {
        ok, res' := IntList(res');
      }
    }

    /** expect over RESID, RESINDEX and INDEX, in this order. */
    method IntKeyword(m: Node) returns (ok: bool, m': Node)
      requires 0 <= cur <= |toks|
      modifies this`cur
      ensures ok == G.IsIntKeyword(toks, old(cur))
      ensures cur == if ok then old(cur) + 1 else old(cur)
      ensures m' == if ok then toks[old(cur)] else m
    {
      ok, m' := ExpectEither(Resid, Resindex, m);
      if !ok {
        ok, m' := Expect(Index, m');
      }
    }

    /** The ints and ranges after the keyword w of keyword_int_list; none is a failure. */
    method IntList(w: Node) returns (ok: bool, res': Node)
      requires 0 <= cur <= |toks|
      modifies this`cur
      ensures G.P(ok, cur, res') == G.IntList(toks, old(cur), w)
    {
      res' := IntLoop(w);
      ok := |res'.children| > 0;
    }

    /** The loop of keyword_int_list: every int or range becomes a child of `res`. */
    method IntLoop(res: Node) returns (res': Node)
      requires 0 <= cur <= |toks|
      modifies this`cur
      ensures G.P(true, cur, res') == G.IntLoop(toks, old(cur), res, G.Null)
    {
      res' := res;
      var tok := G.Null;
      ghost var goal := G.IntLoop(toks, cur, res', tok);
      var more := true;
      while more
        invariant old(cur) <= cur <= |toks|
        invariant more ==> G.IntLoop(toks, cur, res', tok) == goal
        invariant !more ==> goal == G.P(true, cur, res')
        decreases |toks| - cur, more
      {
        more, tok := IntOrRange(tok);
        if more {
          res' := AddChildren(res', [NodeC(tok)]);
        }
      }
    }

    /**
     * logical_operand: a parenthesised expression, a comparison, ALL, NOT,
     * WITHIN, BY RESIDUE or a keyword list, tried in this order, each from
     * where the previous one left the cursor and the variable.
     */
    method LogicalOperand(res: Node) returns (ok: bool, res': Node)
      requires 0 <= cur <= |toks|
      modifies this`cur
      ensures G.P(ok, cur, res') == G.LogicalOperand(toks, old(cur), res)
      decreases |toks| - cur, 14
    {
      ghost var s1 := G.ParenOperand(toks, cur, res);
      ok, res' := ParenOperand(res);
      assert s1 == G.P(ok, cur, res');
      if !ok {
        ok, res' := ComparisonOrAll(res');
      }
    }

    /** `(` logical_expr `)` */
    method ParenOperand(res: Node) returns (ok: bool, res': Node)
      requires 0 <= cur <= |toks|
      modifies this`cur
      ensures G.P(ok, cur, res') == G.ParenOperand(toks, old(cur), res)
      decreases |toks| - cur, 0
    {
      var dum;
      res' := res;
      ok, dum := Expect(LParen, G.Null);
      if ok {
        ghost var e := G.LogicalExpr(toks, cur, res');
        ok, res' := LogicalExpr(res');
        assert e == G.P(ok, cur, res');
        if ok {
          ok, dum := Expect(RParen, G.Null);
        }
      }
    }

    /** The alternatives of logical_operand from the comparison on. */
    method ComparisonOrAll(res: Node) returns (ok: bool, res': Node)
      requires 0 <= cur <= |toks|
      modifies this`cur
      ensures G.P(ok, cur, res') == G.ComparisonOrAll(toks, old(cur), res)
      decreases |toks| - cur, 13
    {
      ghost var s2 := G.NumComparison(toks, cur, res);
      ok, res' := NumComparison(res);
      assert s2 == G.P(ok, cur, res');
      if !ok {
        ok, res' := Expect(All, res');
      }
      if !ok {
        ok, res' := NotOrWithin(res');
      }
    }

    /** The alternatives of logical_operand from NOT on. */
    method NotOrWithin(res: Node) returns (ok: bool, res': Node)
      requires 0 <= cur <= |toks|
      modifies this`cur
      ensures G.P(ok, cur, res') == G.NotOrWithin(toks, old(cur), res)
      decreases |toks| - cur, 12
    {
      ghost var s3 := G.LogicalNot(toks, cur, res);
      ok, res' := LogicalNot(res);
      assert s3 == G.P(ok, cur, res');
      if ok {
        return;
      }
      ghost var s4 := G.WithinRule(toks, cur, res');
      ok, res' := WithinRule(res');
      assert s4 == G.P(ok, cur, res');
      if !ok {
        ok, res' := ByOrKeyword(res');
      }
    }

    /** The alternatives of logical_operand from BY RESIDUE on. */
    method ByOrKeyword(res: Node) returns (ok: bool, res': Node)
      requires 0 <= cur <= |toks|
      modifies this`cur
      ensures G.P(ok, cur, res') == G.ByOrKeyword(toks, old(cur), res)
      decreases |toks| - cur, 11
    {
      ghost var s5 := G.ByResidue(toks, cur, res);
      ok, res' := ByResidue(res);
      assert s5 == G.P(ok, cur, res');
      if ok {
        return;
      }
      ghost var s6 := G.KeywordTextList(toks, cur, res');
      ok, res' := KeywordTextList(res');
      assert s6 == G.P(ok, cur, res');
      if !ok {
        ok, res' := KeywordIntList(res');
      }
    }

    /**
     * run: the top rule from the current cursor; the source returns only the
     * cursor, and whether the rule matched is returned beside it.
     */
    method Run(res: Node) returns (pos: int, ok: bool, res': Node)
      requires 0 <= cur <= |toks|
      modifies this`cur
      ensures pos == cur && G.P(ok, pos, res') == G.LogicalExpr(toks, old(cur), res)
    {
      ok, res' := LogicalExpr(res);
      pos := cur;
    }
  }

  /** The tokens of a text without an unterminated quote. */
  ghost function Lexed(s: string, parseInt: string -> Option<int>, parseFloat: string -> Option<real>): seq<Node>
    requires ST.Spans(s).Some?
  {
    ST.SpansOrdered(s);
    ST.TokensOf(s, ST.Spans(s).value, parseInt, parseFloat)
  }

  /** The syntax error test of create_ast: the top rule failed or stopped short of the last token. */
  predicate Rejects(toks: seq<Node>, p: G.P) {
    !p.ok || p.cur != |toks|
  }

  /** The test as written: only a parse that stops short of the last token is an error. */
  predicate RejectsAsWritten(toks: seq<Node>, p: G.P) {
    p.cur != |toks|
  }

  /**
   * A bare list keyword is no selection, yet the test as written lets it
   * through: the top rule fails with the cursor past the keyword, and the tree
   * stays the null pointer that create_ast then dereferences.
   */
  lemma BareKeywordAccepted()
    ensures var toks := [Leaf(Name)];
      !RejectsAsWritten(toks, G.Run(toks)) && Rejects(toks, G.Run(toks))
  {
    G.BareKeywordFails(Leaf(Name));
  }

  /** The caret line of a syntax error: one `~` per column before it, then `^`. */
  function CaretLine(col: int): (line: string)
    ensures |line| == (if col > 0 then col else 0) + 1 && line[|line| - 1] == '^'
    ensures forall i :: 0 <= i < |line| - 1 ==> line[i] == '~'
  {
    seq(if col > 0 then col else 0, _ => '~') + "^"
  }

  /** The loop of create_ast that draws the caret line. */
  method Caret(col: int) returns (line: string)
    ensures line == CaretLine(col)
  {
    line := [];
    var i := 0;
    while i < col
      invariant 0 <= i <= (if col > 0 then col else 0) && |line| == i
      invariant forall k :: 0 <= k < i ==> line[k] == '~'
    {
      line := line + ['~'];
      i := i + 1;
    }
    assert i == (if col > 0 then col else 0);
    line := line + ['^'];
    assert line == CaretLine(col);
  }

  /** The message create_ast throws: the text in quotes, then the caret line under it. */
  function SyntaxError(sel: string, line: string): string {
    "Syntax error in selection string here:\n\"" + sel + "\"\n" + line
  }

  /**
   * The parser object: the token list and the positions where the tokens end
   * (kept for error messages), the tree, whether the tree depends on the
   * coordinates and whether it has been optimized.  The conversions of
   * lexical_cast are the functions parseInt and parseFloat.  `spans` records
   * where in the text each token was cut.
   */
  class Parser {
    const parseInt: string -> Option<int>
    const parseFloat: string -> Option<real>
    var tokens: seq<Node>
    var tokenEnds: seq<int>
    ghost var spans: seq<ST.Span>
    var tree: Node
    var hasCoord: bool
    var isOptimized: bool

    constructor (parseInt: string -> Option<int>, parseFloat: string -> Option<real>)
      ensures this.parseInt == parseInt && this.parseFloat == parseFloat
      ensures tokens == [] && tokenEnds == [] && spans == [] && tree == G.Null
      ensures !hasCoord && !isOptimized
    {
      this.parseInt := parseInt;
      this.parseFloat := parseFloat;
      tokens := [];
      tokenEnds := [];
      spans := [];
      tree := G.Null;
      hasCoord := false;
      isOptimized := false;
    }

    /**
     * The token list is what the classifier makes of the spans, and the end
     * positions follow the ones left over from before (`base`).
     */
    ghost predicate Tracks(s: string, base: seq<int>)
      reads this
    {
      && (forall t :: 0 <= t < |spans| ==> 0 <= spans[t].lo <= spans[t].hi < |s|)
      && tokens == ST.TokensOf(s, spans, parseInt, parseFloat)
      && tokenEnds == base + ST.Ends(spans)
    }

    /** end_token: the pending token from b to i, if any, is classified and saved. */
    method EndToken(s: string, b: int, i: int, ghost base: seq<int>) returns (b': int)
      requires Tracks(s, base)
      modifies this`tokens, this`tokenEnds, this`spans
      ensures Tracks(s, base)
      ensures ST.Cut(spans, b') == ST.EndToken(s, ST.Cut(old(spans), b), i)
    {
      if b >= 0 && i >= b && i < |s| {
        var sp := ST.Span(b, i);
        assert tokens + [Recognize(s[b..i + 1], parseInt, parseFloat)] == ST.TokensOf(s, spans + [sp], parseInt, parseFloat);
        assert base + ST.Ends(spans) + [i] == base + ST.Ends(spans + [sp]);
        tokens := tokens + [Recognize(s[b..i + 1], parseInt, parseFloat)];
        tokenEnds := tokenEnds + [i];
        spans := spans + [sp];
        b' := i + 1;
      } else {
        b' := b;
      }
    }

    /**
     * A quote at cur: the pending token is closed and the text up to the
     * matching quote becomes a token.  ok is false when no matching quote
     * follows, where the source reads on past the end of the text.
     */
    method Quote(s: string, cur: int, b: int, ghost base: seq<int>) returns (ok: bool, next: int, b': int)
      requires Tracks(s, base) && 0 <= cur < |s| && 0 <= b <= cur
      modifies this`tokens, this`tokenEnds, this`spans
      ensures Tracks(s, base)
      ensures ok == ST.Quoted(s, cur, ST.Cut(old(spans), b)).Some?
      ensures ok ==> (next, ST.Cut(spans, b')) == ST.Quoted(s, cur, ST.Cut(old(spans), b)).value
    {
      ghost var c := ST.Cut(spans, b);
      var b1 := EndToken(s, b, cur - 1, base);
      var delim := s[cur];
      var j := cur + 1;
      b1 := b1 + 1;
      while j < |s| && s[j] != delim
        invariant cur + 1 <= j <= |s| && ST.FindDelim(s, j, delim) == ST.FindDelim(s, cur + 1, delim)
      {
        j := j + 1;
      }
      if j >= |s| {
        return false, j, b1;
      }
      b' := EndToken(s, b1, j - 1, base);
      next := j + 1;
      ok := true;
    }

    /**
     * The checks on a non-blank character: `e-` after a digit is stepped over,
     * an operator closes the pending token and is saved as a token of its own,
     * any other character just moves the loop on.
     */
    method Checks(s: string, cur: int, b: int, ghost base: seq<int>) returns (cur': int, b': int)
      requires Tracks(s, base) && 0 <= cur <= |s| && -1 <= b <= cur
      modifies this`tokens, this`tokenEnds, this`spans
      ensures Tracks(s, base)
      ensures (cur', ST.Cut(spans, b')) == ST.Advance(s, cur, ST.Cut(old(spans), b))
    {
      var ch := ST.At(s, cur);
      var nx := ST.At(s, cur + 1);
      if (ch == 'e' || ch == 'E') && nx == '-' && ST.IsDigit(ST.At(s, cur - 1)) {
        return cur + 2, b;
      }
      var len := 0;
      if ch == '+' || ch == '*' || ch == '/' || ch == '(' || ch == ')' || ch == '-' {
        len := 1;
      } else if ch == '>' {
        len := if nx == '=' then 2 else 1;
      } else if ch == '<' {
        len := if nx == '=' || nx == '>' then 2 else 1;
      } else if ch == '=' {
        len := if nx == '=' then 2 else 1;
      } else if ch == '!' && nx == '=' {
        len := 2;
      }
      assert len == ST.OpLen(s, cur);
      if len == 0 {
        return cur + 1, b;
      }
      b' := EndToken(s, b, cur - 1, base);
      b' := EndToken(s, b', cur + len - 1, base);
      cur' := cur + len;
    }

    /**
     * tokenize: the character loop.  The tokens are the spans the splitting
     * rules give, classified; the end positions are appended to those already
     * there, which tokenize does not clear.  asWritten selects what follows a
     * closing quote (see SelectionTokens).
     */
    method Tokenize(s: string, asWritten: bool) returns (ok: bool)
      modifies this`tokens, this`tokenEnds, this`spans
      ensures Tracks(s, old(tokenEnds))
      ensures ok == ST.Scan(s, 0, ST.Cut([], -1), asWritten).Some?
      ensures ok ==> spans == ST.Scan(s, 0, ST.Cut([], -1), asWritten).value
    {
      ghost var base := tokenEnds;
      ghost var goal := ST.Scan(s, 0, ST.Cut([], -1), asWritten);
      tokens := [];
      spans := [];
      assert tokenEnds == base + ST.Ends(spans);
      var b := -1;
      var cur := 0;
      while cur < |s|
        invariant ST.Valid(s, cur, ST.Cut(spans, b)) && Tracks(s, base)
        invariant ST.Scan(s, cur, ST.Cut(spans, b), asWritten) == goal
        decreases |s| + 2 - cur
      {
        if !ST.IsSpace(s[cur]) {
          if b < 0 {
            b := cur;
          }
          if ST.IsQuote(s[cur]) {
            ok, cur, b := Quote(s, cur, b, base);
            if !ok {
              return;
            }
            if !asWritten {
              b := -1;
              continue;
            }
          }
          cur, b := Checks(s, cur, b, base);
        } else {
          b := EndToken(s, b, cur - 1, base);
          b := -1;
          cur := cur + 1;
        }
      }
      b := EndToken(s, b, cur - 1, base);
      ok := true;
    }

    /**
     * create_ast: the text is split into tokens and parsed from the first one.
     * A parse that fails or stops short of the last token is a syntax error,
     * with a caret under the end of the token where it stopped (or past the
     * text); otherwise the token lists are freed and the tree is marked as
     * coordinate dependent if it is, and as not yet optimized.
     */
    method CreateAst(sel: string) returns (r: Outcome)
      requires ST.Spans(sel).Some?
      modifies this`tokens, this`tokenEnds, this`spans, this`tree, this`hasCoord, this`isOptimized
      ensures var toks := Lexed(sel, parseInt, parseFloat);
        var p := G.LogicalExpr(toks, 0, old(tree));
        && tree == p.res
        && (r.Pass? <==> !Rejects(toks, p))
        && (r.Fail? ==> r.msg == SyntaxError(sel, CaretLine(if p.cur < |toks| then (old(tokenEnds) + ST.Ends(ST.Spans(sel).value))[p.cur] else |sel|)))
        && (r.Pass? ==> tokens == [] && tokenEnds == [] && hasCoord == (old(hasCoord) || !Pure(tree)) && !isOptimized)
        && (r.Fail? ==> tokens == toks && tokenEnds == old(tokenEnds) + ST.Ends(ST.Spans(sel).value)
                        && hasCoord == old(hasCoord) && isOptimized == old(isOptimized))
    {
      ghost var toks := Lexed(sel, parseInt, parseFloat);
      ghost var ends := old(tokenEnds) + ST.Ends(ST.Spans(sel).value);
      var lexed := Tokenize(sel, false);
      assert tokens == toks && tokenEnds == ends;
      var gr := new Grammar(tokens);
      var pos, ok, res := gr.Run(tree);
      r := Settle(sel, pos, ok, res);
    }

    /**
     * The rest of create_ast, once the parse from the first token has stopped
     * at pos: the syntax error test, or the freeing of the token lists and the
     * purity test.
     */
    method Settle(sel: string, pos: int, ok: bool, res: Node) returns (r: Outcome)
      requires 0 <= pos <= |tokens| <= |tokenEnds|
      modifies this`tokens, this`tokenEnds, this`spans, this`tree, this`hasCoord, this`isOptimized
      ensures tree == res
      ensures r.Pass? <==> ok && pos == |old(tokens)|
      ensures r.Fail? ==> r.msg == SyntaxError(sel, CaretLine(if pos < |old(tokens)| then old(tokenEnds)[pos] else |sel|))
      ensures r.Pass? ==> tokens == [] && tokenEnds == [] && hasCoord == (old(hasCoord) || !Pure(tree)) && !isOptimized
      ensures r.Fail? ==> tokens == old(tokens) && tokenEnds == old(tokenEnds) && hasCoord == old(hasCoord) && isOptimized == old(isOptimized)
    {
      tree := res;
      if !ok || pos != |tokens| {
        var col := if pos < |tokens| then tokenEnds[pos] else |sel|;
        var line := Caret(col);
        return Fail(SyntaxError(sel, line));
      }
      tokens := [];
      tokenEnds := [];
      spans := [];
      if !Pure(tree) {
        hasCoord := true;
      }
      isOptimized := false;
      return Pass;
    }

    /** The tree apply evaluates: optimized first if it depends on the coordinates and is not yet. */
    ghost function Prepared(ctx: Context): Result<Node>
      reads this
    {
      if hasCoord && !isOptimized then Optimize(ctx, tree, false) else Ok(tree)
    }

    /**
     * apply: optimizes the tree once if needed, evaluates it over all atoms and
     * sorts the result.  Over a tree of the grammar's shape, the atoms selected
     * are those the tree selected before the optimization, in ascending order.
     */
    method Apply(ctx: Context) returns (r: Result<seq<int>>)
      modifies this`tree, this`isOptimized
      ensures old(Prepared(ctx)).Err? ==> r == Err(old(Prepared(ctx)).msg) && tree == old(tree)
      ensures old(Prepared(ctx)).Ok? ==> tree == old(Prepared(ctx)).value && isOptimized == (old(isOptimized) || old(hasCoord))
      ensures old(Prepared(ctx)).Ok? && Formed(tree, |ctx.atoms|) ==>
        r == (match Eval(ctx, tree, None) case Ok(v) => Ok(Sort(v)) case Err(e) => Err(e))
      ensures Formed(old(tree), |ctx.atoms|) && r.Ok? ==> Sorted(r.value)
      ensures Formed(old(tree), |ctx.atoms|) && r.Ok? && Eval(ctx, old(tree), None).Ok? ==>
        forall x :: x in r.value <==> x in Eval(ctx, old(tree), None).value
    {
      if hasCoord && !isOptimized {
        var t :- Optimize(ctx, tree, false);
        if Formed(tree, |ctx.atoms|) {
          OptimizeFormed(ctx, tree, false);
        }
        tree := t;
        isOptimized := true;
      }
      var res :- EvalNode(ctx, tree, None);
      r := Ok(Sort(res));
      if Formed(old(tree), |ctx.atoms|) {
        SortMembers(res);
        if Eval(ctx, old(tree), None).Ok? && tree != old(tree) {
          OptimizeKeepsSelection(ctx, old(tree));
        }
      }
    }
  }
}
