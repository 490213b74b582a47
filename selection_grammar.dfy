/**
 * The recursive-descent grammar of the selection language as functions of the
 * token list.  Each rule stands at cursor `cur` and receives the current value
 * of the variable the source passes it by reference (`res`); it returns
 * whether it matched, where the cursor is left, and the new value of that
 * variable.  A failed alternative never rewinds the cursor and may leave
 * `res` changed, exactly as the source's short-circuit chains do.  The null
 * pointer of the source is the node `Null` (code Void, no children).
 */
module SelectionGrammar {
  import opened Wrappers
  import opened SelectionAst

  datatype P = P(ok: bool, cur: int, res: Node)

  /** A fresh (null) node pointer. */
  const Null: Node := Leaf(Void)

  predicate Is(toks: seq<Node>, cur: int, c: Code) {
    0 <= cur < |toks| && toks[cur].code == c
  }

  predicate Moves(toks: seq<Node>, cur: int, r: P) {
    cur <= r.cur <= |toks|
  }

  function Kids(ns: seq<Node>): (cs: seq<Child>)
    ensures |cs| == |ns| && forall i :: 0 <= i < |ns| ==> cs[i] == NodeC(ns[i])
  {
    seq(|ns|, i requires 0 <= i < |ns| => NodeC(ns[i]))
  }

  /** expect: on a token of code c, advance by one and take that token; otherwise change nothing. */
  function Expect(toks: seq<Node>, cur: int, c: Code, m: Node): (r: P)
    requires 0 <= cur <= |toks|
    ensures r.ok <==> Is(toks, cur, c)
    ensures r.ok ==> r.cur == cur + 1 && r.res == toks[cur]
    ensures !r.ok ==> r.cur == cur && r.res == m
  {
    if cur < |toks| && toks[cur].code == c then P(true, cur + 1, toks[cur]) else P(false, cur, m)
  }

  // ---------------------------------------------------------------------------
  // Arithmetic.

  /** unary_minus: MINUS then a factor; the MINUS token becomes UNARY_MINUS over it. */
  function UnaryMinus(toks: seq<Node>, cur: int, res: Node): (r: P)
    requires 0 <= cur <= |toks|
    ensures Moves(toks, cur, r) && (r.ok ==> r.cur > cur)
    decreases |toks| - cur, 2
  {
    if !Is(toks, cur, Minus) then P(false, cur, res)
    else
      var f := NumFactor(toks, cur + 1, Null);
      if f.ok then P(true, f.cur, Node(Code.UnaryMinus, toks[cur].children + [NodeC(f.res)], toks[cur].precomputed))
      else P(false, f.cur, toks[cur])
  }

  /** num_factor: a number, a parenthesised expression, a coordinate or attribute, a distance, a negation. */
  function NumFactor(toks: seq<Node>, cur: int, res: Node): (r: P)
    requires 0 <= cur <= |toks|
    ensures Moves(toks, cur, r) && (r.ok ==> r.cur > cur)
    decreases |toks| - cur, 4
  {
    if Is(toks, cur, Float) || Is(toks, cur, Int) then P(true, cur + 1, toks[cur])
    else if Is(toks, cur, LParen) then ParenFactor(toks, cur + 1, res)
    else FactorRest(toks, cur, res)
  }

  /**
   * The parenthesised alternative of num_factor after `(`: an expression and
   * `)`; when either fails, the remaining alternatives go on from there.
   */
  function ParenFactor(toks: seq<Node>, cur: int, res: Node): (r: P)
    requires 0 <= cur <= |toks|
    ensures Moves(toks, cur, r) && (r.ok ==> r.cur > cur)
    decreases |toks| - cur, 9
  {
    var e := NumExpr(toks, cur, res);
    if e.ok && Is(toks, e.cur, RParen) then P(true, e.cur + 1, e.res)
    else FactorRest(toks, e.cur, e.res)
  }

  /** The alternatives of num_factor after the parenthesised one. */
  function FactorRest(toks: seq<Node>, cur: int, res: Node): (r: P)
    requires 0 <= cur <= |toks|
    ensures Moves(toks, cur, r) && (r.ok ==> r.cur > cur)
    decreases |toks| - cur, 3
  {
    if Is(toks, cur, X) || Is(toks, cur, Y) || Is(toks, cur, Z) || Is(toks, cur, Beta) || Is(toks, cur, Occ) then
      P(true, cur + 1, toks[cur])
    else
      var d := DistanceRule(toks, cur, res);
      if d.ok then d else UnaryMinus(toks, d.cur, d.res)
  }

  /** k factors in a row, each into a fresh variable, stopping at the first that fails. */
  function Factors(toks: seq<Node>, cur: int, k: nat): (r: (bool, int, seq<Node>))
    requires 0 <= cur <= |toks|
    ensures cur <= r.1 <= |toks| && (r.0 ==> |r.2| == k)
    decreases |toks| - cur, 5, k
  {
    if k == 0 then (true, cur, [])
    else
      var f := NumFactor(toks, cur, Null);
      if !f.ok then (false, f.cur, [])
      else
        var rest := Factors(toks, f.cur, k - 1);
        (rest.0, rest.1, [f.res] + rest.2)
  }

  /**
   * distance_rule: DIST, an optional PERIODIC, then POINT with three factors or
   * VECTOR/PLANE with six; the periodicity token goes last.  With neither of
   * the three, the rule succeeds and leaves `res` as it was.
   */
  function DistanceRule(toks: seq<Node>, cur: int, res: Node): (r: P)
    requires 0 <= cur <= |toks|
    ensures Moves(toks, cur, r) && (r.ok ==> r.cur > cur)
    decreases |toks| - cur, 2
  {
    if !Is(toks, cur, Dist) then P(false, cur, res)
    else if Is(toks, cur + 1, Periodic) then DistanceShape(toks, cur + 2, res, [NodeC(toks[cur + 1])])
    else DistanceShape(toks, cur + 1, res, [])
  }

  /** The part of distance_rule after DIST and the optional PERIODIC token `pbc`. */
  function DistanceShape(toks: seq<Node>, cur: int, res: Node, pbc: seq<Child>): (r: P)
    requires 0 <= cur <= |toks|
    ensures Moves(toks, cur, r) && (r.ok ==> r.cur >= cur)
    decreases |toks| - cur, 2
  {
    if Is(toks, cur, Point) then DistanceArgs(toks, cur + 1, toks[cur], 3, pbc)
    else if Is(toks, cur, Vector) || Is(toks, cur, Plane) then DistanceArgs(toks, cur + 1, toks[cur], 6, pbc)
    else P(true, cur, res)
  }

  /** The k factors of a distance after its shape token w, which receives them and then `pbc`. */
  function DistanceArgs(toks: seq<Node>, cur: int, w: Node, k: nat, pbc: seq<Child>): (r: P)
    requires 0 <= cur <= |toks|
    ensures Moves(toks, cur, r)
    decreases |toks| - cur, 6
  {
    var fs := Factors(toks, cur, k);
    if fs.0 then P(true, fs.1, AddChildren(w, Kids(fs.2) + pbc)) else P(false, fs.1, w)
  }

  /** num_term: factors joined by `*` and `/`. */
  function NumTerm(toks: seq<Node>, cur: int, res: Node): (r: P)
    requires 0 <= cur <= |toks|
    ensures Moves(toks, cur, r) && (r.ok ==> r.cur > cur) && (!r.ok ==> r.res == res)
    decreases |toks| - cur, 6
  {
    var f := NumFactor(toks, cur, Null);
    if !f.ok then P(false, f.cur, res) else TermLoop(toks, f.cur, f.res, f.res, Null)
  }

  /**
   * The loop of num_term with its variables res, operand1 and operand2.  The
   * operator node takes (operand1, operand2), where operand1 becomes the tree
   * built so far once that tree has two children.
   */
  function TermLoop(toks: seq<Node>, cur: int, res: Node, operand1: Node, operand2: Node): (r: P)
    requires 0 <= cur <= |toks|
    ensures Moves(toks, cur, r) && r.ok
    decreases |toks| - cur, 5
  {
    if Is(toks, cur, Mult) || Is(toks, cur, Div) then
      var g := NumFactor(toks, cur + 1, operand2);
      if g.ok then
        var o1 := if |res.children| == 2 then res else operand1;
        TermLoop(toks, g.cur, AddChildren(toks[cur], [NodeC(o1), NodeC(g.res)]), o1, g.res)
      else P(true, g.cur, res)
    else P(true, cur, res)
  }

  /** num_expr: terms joined by `+` and `-`. */
  function NumExpr(toks: seq<Node>, cur: int, res: Node): (r: P)
    requires 0 <= cur <= |toks|
    ensures Moves(toks, cur, r) && (r.ok ==> r.cur > cur) && (!r.ok ==> r.res == res)
    decreases |toks| - cur, 8
  {
    var t := NumTerm(toks, cur, Null);
    if !t.ok then P(false, t.cur, res) else ExprLoop(toks, t.cur, t.res, t.res, Null)
  }

  /** The loop of num_expr, built like the loop of num_term. */
  function ExprLoop(toks: seq<Node>, cur: int, res: Node, operand1: Node, operand2: Node): (r: P)
    requires 0 <= cur <= |toks|
    ensures Moves(toks, cur, r) && r.ok
    decreases |toks| - cur, 7
  {
    if Is(toks, cur, Plus) || Is(toks, cur, Minus) then
      var g := NumTerm(toks, cur + 1, operand2);
      if g.ok then
        var o1 := if |res.children| == 2 then res else operand1;
        ExprLoop(toks, g.cur, AddChildren(toks[cur], [NodeC(o1), NodeC(g.res)]), o1, g.res)
      else P(true, g.cur, res)
    else P(true, cur, res)
  }

  predicate IsComparison(toks: seq<Node>, cur: int) {
    Is(toks, cur, Eq) || Is(toks, cur, Neq) || Is(toks, cur, Lt) || Is(toks, cur, Gt) || Is(toks, cur, Leq) || Is(toks, cur, Geq)
  }

  /** num_comparison: expression, comparison operator, expression. */
  function NumComparison(toks: seq<Node>, cur: int, res: Node): (r: P)
    requires 0 <= cur <= |toks|
    ensures Moves(toks, cur, r) && (r.ok ==> r.cur > cur) && (!r.ok ==> r.res == res)
    decreases |toks| - cur, 9
  {
    var e := NumExpr(toks, cur, Null);
    if !e.ok then P(false, e.cur, res)
    else if IsComparison(toks, e.cur) then
      var e2 := NumExpr(toks, e.cur + 1, Null);
      if e2.ok then P(true, e2.cur, AddChildren(toks[e.cur], [NodeC(e.res), NodeC(e2.res)]))
      else P(false, e2.cur, res)
    else P(false, e.cur, res)
  }

  // ---------------------------------------------------------------------------
  // Logic.

  /** logical_expr: operands joined by `and` and `or`, both on one level. */
  function LogicalExpr(toks: seq<Node>, cur: int, res: Node): (r: P)
    requires 0 <= cur <= |toks|
    ensures Moves(toks, cur, r) && (r.ok ==> r.cur > cur) && (!r.ok ==> r.res == res)
    decreases |toks| - cur, 16
  {
    var l := LogicalOperand(toks, cur, Null);
    if !l.ok then P(false, l.cur, res) else LogicLoop(toks, l.cur, l.res, l.res, Null)
  }

  /** The loop of logical_expr, built like the arithmetic loops. */
  function LogicLoop(toks: seq<Node>, cur: int, res: Node, operand1: Node, operand2: Node): (r: P)
    requires 0 <= cur <= |toks|
    ensures Moves(toks, cur, r) && r.ok
    decreases |toks| - cur, 15
  {
    if Is(toks, cur, Or) || Is(toks, cur, And) then
      var g := LogicalOperand(toks, cur + 1, operand2);
      if g.ok then
        var o1 := if |res.children| == 2 then res else operand1;
        LogicLoop(toks, g.cur, AddChildren(toks[cur], [NodeC(o1), NodeC(g.res)]), o1, g.res)
      else P(true, g.cur, res)
    else P(true, cur, res)
  }

  /** logical_not: NOT and an operand, which is passed the caller's variable. */
  function LogicalNot(toks: seq<Node>, cur: int, res: Node): (r: P)
    requires 0 <= cur <= |toks|
    ensures Moves(toks, cur, r) && (r.ok ==> r.cur > cur)
    decreases |toks| - cur, 9
  {
    if !Is(toks, cur, Not) then P(false, cur, res)
    else
      var o := LogicalOperand(toks, cur + 1, res);
      if o.ok then P(true, o.cur, AddChildren(toks[cur], [NodeC(o.res)])) else P(false, o.cur, o.res)
  }

  /** within_rule: WITHIN, a number, an optional PERIODIC, OF and an operand. */
  function WithinRule(toks: seq<Node>, cur: int, res: Node): (r: P)
    requires 0 <= cur <= |toks|
    ensures Moves(toks, cur, r) && (r.ok ==> r.cur > cur)
    decreases |toks| - cur, 9
  {
    if !Is(toks, cur, Code.Within) then P(false, cur, res)
    else if !(Is(toks, cur + 1, Float) || Is(toks, cur + 1, Int)) then P(false, cur + 1, toks[cur])
    else if Is(toks, cur + 2, Periodic) then WithinTail(toks, cur + 3, toks[cur], toks[cur + 1], [NodeC(toks[cur + 2])])
    else WithinTail(toks, cur + 2, toks[cur], toks[cur + 1], [])
  }

  /**
   * within_rule from OF on, given the WITHIN token `w`, the distance and the
   * periodicity token as a child list of length at most one; the periodicity
   * child goes after the operand.
   */
  function WithinTail(toks: seq<Node>, cur: int, w: Node, dist: Node, pbc: seq<Child>): (r: P)
    requires 0 <= cur <= |toks|
    ensures Moves(toks, cur, r) && (r.ok ==> r.cur > cur)
    decreases |toks| - cur, 9
  {
    if !Is(toks, cur, Of) then P(false, cur, w)
    else
      var x := LogicalOperand(toks, cur + 1, Null);
      if x.ok then P(true, x.cur, AddChildren(w, [NodeC(dist), NodeC(x.res)] + pbc))
      else P(false, x.cur, w)
  }

  /** by_residue: BY RESIDUE and an operand. */
  function ByResidue(toks: seq<Node>, cur: int, res: Node): (r: P)
    requires 0 <= cur <= |toks|
    ensures Moves(toks, cur, r) && (r.ok ==> r.cur > cur)
    decreases |toks| - cur, 9
  {
    if !Is(toks, cur, By) then P(false, cur, res)
    else if !Is(toks, cur + 1, Residue) then P(false, cur + 1, toks[cur])
    else
      var x := LogicalOperand(toks, cur + 2, Null);
      if x.ok then P(true, x.cur, AddChildren(toks[cur], [NodeC(x.res)])) else P(false, x.cur, toks[cur])
  }

  predicate IsTextKeyword(toks: seq<Node>, cur: int) {
    Is(toks, cur, Name) || Is(toks, cur, Resname) || Is(toks, cur, Tag) || Is(toks, cur, Chain)
  }

  predicate IsIntKeyword(toks: seq<Node>, cur: int) {
    Is(toks, cur, Resid) || Is(toks, cur, Resindex) || Is(toks, cur, Index)
  }

  /** keyword_text_list: NAME/RESNAME/TAG/CHAIN and the STR/REGEX tokens after it; none is a failure. */
  function KeywordTextList(toks: seq<Node>, cur: int, res: Node): (r: P)
    requires 0 <= cur <= |toks|
    ensures Moves(toks, cur, r) && (r.ok ==> r.cur > cur)
    decreases |toks| - cur, 1
  {
    if !IsTextKeyword(toks, cur) then P(false, cur, res)
    else TextList(toks, cur + 1, toks[cur])
  }

  /** The STR and REGEX tokens after the keyword w of keyword_text_list; the rule fails when there are none. */
  function TextList(toks: seq<Node>, cur: int, w: Node): (r: P)
    requires 0 <= cur <= |toks|
    ensures Moves(toks, cur, r)
    decreases |toks| - cur, 1
  {
    var t := TextLoop(toks, cur, w);
    P(|t.res.children| > 0, t.cur, t.res)
  }

  function TextLoop(toks: seq<Node>, cur: int, res: Node): (r: P)
    requires 0 <= cur <= |toks|
    ensures Moves(toks, cur, r) && r.ok
    decreases |toks| - cur, 0
  {
    if Is(toks, cur, Str) || Is(toks, cur, Regex) then TextLoop(toks, cur + 1, AddChildren(res, [NodeC(toks[cur])]))
    else P(true, cur, res)
  }

  /** int_or_range: INT, or INT (TO or MINUS) INT, which becomes a TO node over the two. */
  function IntOrRange(toks: seq<Node>, cur: int, res: Node): (r: P)
    requires 0 <= cur <= |toks|
    ensures Moves(toks, cur, r) && (r.ok ==> r.cur > cur) && (!r.ok ==> r == P(false, cur, res))
  {
    if !Is(toks, cur, Int) then P(false, cur, res)
    else
      var v1 := toks[cur];
      if Is(toks, cur + 1, To) || Is(toks, cur + 1, Minus) then
        if Is(toks, cur + 2, Int) then
          P(true, cur + 3, Node(To, toks[cur + 1].children + [NodeC(v1), NodeC(toks[cur + 2])], toks[cur + 1].precomputed))
        else P(true, cur + 2, v1)
      else P(true, cur + 1, v1)
  }

  /** keyword_int_list: RESID/RESINDEX/INDEX and the ints or ranges after it; none is a failure. */
  function KeywordIntList(toks: seq<Node>, cur: int, res: Node): (r: P)
    requires 0 <= cur <= |toks|
    ensures Moves(toks, cur, r) && (r.ok ==> r.cur > cur)
    decreases |toks| - cur, 2
  {
    if !IsIntKeyword(toks, cur) then P(false, cur, res)
    else IntList(toks, cur + 1, toks[cur])
  }

  /** The ints and ranges after the keyword w of keyword_int_list; the rule fails when there are none. */
  function IntList(toks: seq<Node>, cur: int, w: Node): (r: P)
    requires 0 <= cur <= |toks|
    ensures Moves(toks, cur, r)
    decreases |toks| - cur, 2
  {
    var t := IntLoop(toks, cur, w, Null);
    P(|t.res.children| > 0, t.cur, t.res)
  }

  function IntLoop(toks: seq<Node>, cur: int, res: Node, tok: Node): (r: P)
    requires 0 <= cur <= |toks|
    ensures Moves(toks, cur, r) && r.ok
    decreases |toks| - cur, 1
  {
    var g := IntOrRange(toks, cur, tok);
    if g.ok then IntLoop(toks, g.cur, AddChildren(res, [NodeC(g.res)]), g.res) else P(true, g.cur, res)
  }

  /**
   * logical_operand: a parenthesised expression, a comparison, ALL, NOT, WITHIN,
   * BY RESIDUE or a keyword list, tried in this order, each from where the
   * previous one left the cursor and the variable.  The alternatives are
   * grouped into the functions below, one group after another.
   */
  function LogicalOperand(toks: seq<Node>, cur: int, res: Node): (r: P)
    requires 0 <= cur <= |toks|
    ensures Moves(toks, cur, r) && (r.ok ==> r.cur > cur)
    decreases |toks| - cur, 14
  {
    var s1 := ParenOperand(toks, cur, res);
    if s1.ok then s1 else ComparisonOrAll(toks, s1.cur, s1.res)
  }

  /** `(` logical_expr `)`. */
  function ParenOperand(toks: seq<Node>, cur: int, res: Node): (r: P)
    requires 0 <= cur <= |toks|
    ensures Moves(toks, cur, r) && (r.ok ==> r.cur > cur)
    decreases |toks| - cur, 0
  {
    if Is(toks, cur, LParen) then
      var e := LogicalExpr(toks, cur + 1, res);
      if e.ok && Is(toks, e.cur, RParen) then P(true, e.cur + 1, e.res) else P(false, e.cur, e.res)
    else P(false, cur, res)
  }

  /** The alternatives of logical_operand from the comparison on. */
  function ComparisonOrAll(toks: seq<Node>, cur: int, res: Node): (r: P)
    requires 0 <= cur <= |toks|
    ensures Moves(toks, cur, r) && (r.ok ==> r.cur > cur)
    decreases |toks| - cur, 13
  {
    var s2 := NumComparison(toks, cur, res);
    if s2.ok then s2
    else if Is(toks, s2.cur, All) then P(true, s2.cur + 1, toks[s2.cur])
    else NotOrWithin(toks, s2.cur, s2.res)
  }

  /** The alternatives of logical_operand from NOT on. */
  function NotOrWithin(toks: seq<Node>, cur: int, res: Node): (r: P)
    requires 0 <= cur <= |toks|
    ensures Moves(toks, cur, r) && (r.ok ==> r.cur > cur)
    decreases |toks| - cur, 12
  {
    var s3 := LogicalNot(toks, cur, res);
    if s3.ok then s3 else
    var s4 := WithinRule(toks, s3.cur, s3.res);
    if s4.ok then s4 else ByOrKeyword(toks, s4.cur, s4.res)
  }

  /** The alternatives of logical_operand from BY RESIDUE on. */
  function ByOrKeyword(toks: seq<Node>, cur: int, res: Node): (r: P)
    requires 0 <= cur <= |toks|
    ensures Moves(toks, cur, r) && (r.ok ==> r.cur > cur)
    decreases |toks| - cur, 11
  {
    var s5 := ByResidue(toks, cur, res);
    if s5.ok then s5 else
    var s6 := KeywordTextList(toks, s5.cur, s5.res);
    if s6.ok then s6 else KeywordIntList(toks, s6.cur, s6.res)
  }

  /** run: the top rule on a fresh tree; the cursor says how far it got. */
  function Run(toks: seq<Node>): (r: P)
    ensures 0 <= r.cur <= |toks|
  {
    LogicalExpr(toks, 0, Null)
  }

  // ---------------------------------------------------------------------------
  // Where rules cannot start.

  /** No arithmetic factor starts at cur (or cur is the end). */
  predicate NoFactorStart(toks: seq<Node>, cur: int) {
    !(Is(toks, cur, Float) || Is(toks, cur, Int) || Is(toks, cur, LParen) || Is(toks, cur, X) || Is(toks, cur, Y)
      || Is(toks, cur, Z) || Is(toks, cur, Beta) || Is(toks, cur, Occ) || Is(toks, cur, Dist) || Is(toks, cur, Minus))
  }

  /** No logical operand starts at cur (or cur is the end). */
  predicate NoOperandStart(toks: seq<Node>, cur: int) {
    NoFactorStart(toks, cur)
    && !(Is(toks, cur, All) || Is(toks, cur, Not) || Is(toks, cur, Code.Within) || Is(toks, cur, By)
         || Is(toks, cur, Name) || Is(toks, cur, Resname) || Is(toks, cur, Tag) || Is(toks, cur, Chain)
         || Is(toks, cur, Resid) || Is(toks, cur, Resindex) || Is(toks, cur, Index))
  }

  lemma ExprNoStart(toks: seq<Node>, cur: int, res: Node)
    requires 0 <= cur <= |toks| && NoFactorStart(toks, cur)
    ensures NumFactor(toks, cur, res) == P(false, cur, res)
    ensures NumExpr(toks, cur, res) == P(false, cur, res)
  {
    FactorNoStart(toks, cur, res);
    FactorNoStart(toks, cur, Null);
  }

  lemma FactorNoStart(toks: seq<Node>, cur: int, res: Node)
    requires 0 <= cur <= |toks| && NoFactorStart(toks, cur)
    ensures NumFactor(toks, cur, res) == P(false, cur, res)
  {
    assert DistanceRule(toks, cur, res) == P(false, cur, res);
    assert UnaryMinus(toks, cur, res) == P(false, cur, res);
    assert FactorRest(toks, cur, res) == P(false, cur, res);
  }

  /** At a token no operand begins with, such as AND, OR, OF or `)`, or at the end, an operand fails in place. */
  lemma OperandNoStart(toks: seq<Node>, cur: int, res: Node)
    requires 0 <= cur <= |toks| && NoOperandStart(toks, cur)
    ensures LogicalOperand(toks, cur, res) == P(false, cur, res)
  {
    ExprNoStart(toks, cur, Null);
    assert NumComparison(toks, cur, res) == P(false, cur, res);
    assert ByOrKeyword(toks, cur, res) == P(false, cur, res);
    assert NotOrWithin(toks, cur, res) == P(false, cur, res);
    assert ComparisonOrAll(toks, cur, res) == P(false, cur, res);
  }

  // ---------------------------------------------------------------------------
  // Associativity: a chain of operands and operators of one level folds to the left.

  /**
   * Tokens `a0 op1 a1 ... opn an`: the operands satisfy `operand`, the
   * operators are bare tokens (as the classifier makes them) whose code is in ops.
   */
  predicate LevelChain(toks: seq<Node>, i: int, ops: set<Code>, operand: Node -> bool) {
    0 <= i <= |toks| && (|toks| - i) % 2 == 0
    && (forall k :: i <= k < |toks| && (k - i) % 2 == 0 ==> toks[k].code in ops && toks[k].children == [])
    && (forall k :: i <= k < |toks| && (k - i) % 2 == 1 ==> operand(toks[k]))
  }

  lemma ChainStep(toks: seq<Node>, i: int, ops: set<Code>, operand: Node -> bool)
    requires LevelChain(toks, i, ops, operand) && i < |toks|
    ensures i + 1 < |toks| && toks[i].code in ops && toks[i].children == [] && operand(toks[i + 1])
    ensures LevelChain(toks, i + 2, ops, operand)
  {
    assert (i + 1 - i) % 2 == 1;
  }

  /** The left-nested tree of a chain: ((acc op a) op a) ... */
  function FoldFrom(toks: seq<Node>, i: int, acc: Node): Node
    requires 0 <= i <= |toks|
    decreases |toks| - i
  {
    if i + 1 < |toks| then FoldFrom(toks, i + 2, AddChildren(toks[i], [NodeC(acc), NodeC(toks[i + 1])]))
    else acc
  }

  predicate IsIntToken(n: Node) {
    n.code == Int
  }

  predicate IsAllToken(n: Node) {
    n.code == All
  }

  lemma {:induction false} ExprLoopFolds(toks: seq<Node>, i: int, res: Node, o1: Node, o2: Node)
    requires LevelChain(toks, i, {Plus, Minus}, IsIntToken)
    requires |res.children| == 2 || res == o1
    ensures ExprLoop(toks, i, res, o1, o2) == P(true, |toks|, FoldFrom(toks, i, res))
    decreases |toks| - i
  {
    if i < |toks| {
      ChainStep(toks, i, {Plus, Minus}, IsIntToken);
      var a := toks[i + 1];
      assert IsIntToken(a);
      assert NumTerm(toks, i + 1, o2) == P(true, i + 2, a) by {
        assert NumFactor(toks, i + 1, Null) == P(true, i + 2, a);
        assert i + 2 < |toks| ==> toks[i + 2].code in {Plus, Minus};
      }
      var next := AddChildren(toks[i], [NodeC(res), NodeC(a)]);
      assert next.children == [NodeC(res), NodeC(a)];
      ExprLoopFolds(toks, i + 2, next, res, a);
    }
  }

  /** `+` and `-` are one left-associative level: `a0 op1 a1 ... opn an` over ints. */
  lemma SumIsLeftAssociative(toks: seq<Node>, res: Node)
    requires 1 <= |toks| && IsIntToken(toks[0]) && LevelChain(toks, 1, {Plus, Minus}, IsIntToken)
    ensures NumExpr(toks, 0, res) == P(true, |toks|, FoldFrom(toks, 1, toks[0]))
  {
    assert NumTerm(toks, 0, Null) == P(true, 1, toks[0]) by {
      assert NumFactor(toks, 0, Null) == P(true, 1, toks[0]);
      assert 1 < |toks| ==> toks[1].code in {Plus, Minus};
    }
    ExprLoopFolds(toks, 1, toks[0], toks[0], Null);
  }

  lemma {:induction false} TermLoopFolds(toks: seq<Node>, i: int, res: Node, o1: Node, o2: Node)
    requires LevelChain(toks, i, {Mult, Div}, IsIntToken)
    requires |res.children| == 2 || res == o1
    ensures TermLoop(toks, i, res, o1, o2) == P(true, |toks|, FoldFrom(toks, i, res))
    decreases |toks| - i
  {
    if i < |toks| {
      ChainStep(toks, i, {Mult, Div}, IsIntToken);
      var a := toks[i + 1];
      assert IsIntToken(a);
      assert NumFactor(toks, i + 1, o2) == P(true, i + 2, a);
      var next := AddChildren(toks[i], [NodeC(res), NodeC(a)]);
      assert next.children == [NodeC(res), NodeC(a)];
      TermLoopFolds(toks, i + 2, next, res, a);
    }
  }

  /** `*` and `/` are one left-associative level. */
  lemma ProductIsLeftAssociative(toks: seq<Node>, res: Node)
    requires 1 <= |toks| && IsIntToken(toks[0]) && LevelChain(toks, 1, {Mult, Div}, IsIntToken)
    ensures NumTerm(toks, 0, res) == P(true, |toks|, FoldFrom(toks, 1, toks[0]))
  {
    assert NumFactor(toks, 0, Null) == P(true, 1, toks[0]);
    TermLoopFolds(toks, 1, toks[0], toks[0], Null);
  }

  /** `all` as an operand: the comparison alternative fails in place, then ALL matches. */
  lemma AllOperand(toks: seq<Node>, cur: int, res: Node)
    requires Is(toks, cur, All)
    ensures LogicalOperand(toks, cur, res) == P(true, cur + 1, toks[cur])
  {
    ExprNoStart(toks, cur, Null);
    assert ParenOperand(toks, cur, res) == P(false, cur, res);
    assert NumComparison(toks, cur, res) == P(false, cur, res);
    assert ComparisonOrAll(toks, cur, res) == P(true, cur + 1, toks[cur]);
  }

  lemma {:induction false} LogicLoopFolds(toks: seq<Node>, i: int, res: Node, o1: Node, o2: Node)
    requires LevelChain(toks, i, {And, Or}, IsAllToken)
    requires |res.children| == 2 || res == o1
    ensures LogicLoop(toks, i, res, o1, o2) == P(true, |toks|, FoldFrom(toks, i, res))
    decreases |toks| - i
  {
    if i < |toks| {
      ChainStep(toks, i, {And, Or}, IsAllToken);
      var a := toks[i + 1];
      assert IsAllToken(a);
      var next := AddChildren(toks[i], [NodeC(res), NodeC(a)]);
      assert next.children == [NodeC(res), NodeC(a)];
      LogicStep(toks, i, res, o1, o2);
      LogicLoopFolds(toks, i + 2, next, res, a);
    }
  }

  lemma LogicStep(toks: seq<Node>, i: int, res: Node, o1: Node, o2: Node)
    requires 0 <= i && i + 1 < |toks| && (Is(toks, i, And) || Is(toks, i, Or)) && Is(toks, i + 1, All)
    requires |res.children| == 2 || res == o1
    ensures LogicLoop(toks, i, res, o1, o2)
      == LogicLoop(toks, i + 2, AddChildren(toks[i], [NodeC(res), NodeC(toks[i + 1])]), res, toks[i + 1])
  {
    AllOperand(toks, i + 1, o2);
  }

  /** `and` and `or` share one left-associative level: `A or B and C` is `(A or B) and C`. */
  lemma LogicIsLeftAssociative(toks: seq<Node>, res: Node)
    requires 1 <= |toks| && IsAllToken(toks[0]) && LevelChain(toks, 1, {And, Or}, IsAllToken)
    ensures LogicalExpr(toks, 0, res) == P(true, |toks|, FoldFrom(toks, 1, toks[0]))
  {
    AllOperand(toks, 0, Null);
    LogicLoopFolds(toks, 1, toks[0], toks[0], Null);
  }

  /** An int token is a factor on its own. */
  lemma IntFactor(toks: seq<Node>, i: int, res: Node)
    requires Is(toks, i, Int)
    ensures NumFactor(toks, i, res) == P(true, i + 1, toks[i])
  {
  }

  /** An int token followed by neither `*` nor `/` is a whole term. */
  lemma IntTerm(toks: seq<Node>, i: int, res: Node)
    requires Is(toks, i, Int) && !Is(toks, i + 1, Mult) && !Is(toks, i + 1, Div)
    ensures NumTerm(toks, i, res) == P(true, i + 1, toks[i])
  {
    IntFactor(toks, i, Null);
  }

  /** `b * c` at the end of the tokens is one term. */
  lemma ProductTerm(toks: seq<Node>, i: int)
    requires i + 3 == |toks| && Is(toks, i, Int) && Is(toks, i + 1, Mult) && Is(toks, i + 2, Int)
    ensures NumTerm(toks, i, Null) == P(true, i + 3, AddChildren(toks[i + 1], [NodeC(toks[i]), NodeC(toks[i + 2])]))
  {
    IntFactor(toks, i, Null);
    IntFactor(toks, i + 2, Null);
    var bc := AddChildren(toks[i + 1], [NodeC(toks[i]), NodeC(toks[i + 2])]);
    assert TermLoop(toks, i + 3, bc, toks[i], toks[i + 2]) == P(true, i + 3, bc);
  }

  /** `*` binds tighter than `+`: `a + b * c` is `a + (b * c)`. */
  lemma ProductInsideSum(a: Node, plus: Node, b: Node, mult: Node, c: Node, res: Node)
    requires a.code == Int && b.code == Int && c.code == Int
    requires plus == Leaf(Plus) && mult == Leaf(Mult)
    ensures NumExpr([a, plus, b, mult, c], 0, res)
      == P(true, 5, AddChildren(plus, [NodeC(a), NodeC(AddChildren(mult, [NodeC(b), NodeC(c)]))]))
  {
    var toks := [a, plus, b, mult, c];
    var bc := AddChildren(mult, [NodeC(b), NodeC(c)]);
    IntTerm(toks, 0, Null);
    ProductTerm(toks, 2);
    var sum := AddChildren(plus, [NodeC(a), NodeC(bc)]);
    assert ExprLoop(toks, 5, sum, a, bc) == P(true, 5, sum);
  }

  /** ... and `a * b + c` is `(a * b) + c`. */
  lemma ProductBeforeSum(a: Node, mult: Node, b: Node, plus: Node, c: Node, res: Node)
    requires a.code == Int && b.code == Int && c.code == Int
    requires plus == Leaf(Plus) && mult == Leaf(Mult)
    ensures NumExpr([a, mult, b, plus, c], 0, res)
      == P(true, 5, AddChildren(plus, [NodeC(AddChildren(mult, [NodeC(a), NodeC(b)])), NodeC(c)]))
  {
    var toks := [a, mult, b, plus, c];
    var ab := AddChildren(mult, [NodeC(a), NodeC(b)]);
    assert NumTerm(toks, 0, Null) == P(true, 3, ab) by {
      IntFactor(toks, 0, Null);
      IntFactor(toks, 2, Null);
      assert TermLoop(toks, 3, ab, a, b) == P(true, 3, ab);
    }
    IntTerm(toks, 4, Null);
    var sum := AddChildren(plus, [NodeC(ab), NodeC(c)]);
    assert ExprLoop(toks, 5, sum, ab, c) == P(true, 5, sum);
  }

  // ---------------------------------------------------------------------------
  // Ranges, trailing operators, empty lists.

  /** `i1 - i2` and `i1 to i2` give the same TO node over the two ints. */
  lemma RangeForms(toks: seq<Node>, cur: int, res: Node)
    requires 0 <= cur && cur + 2 < |toks| && Is(toks, cur, Int) && Is(toks, cur + 2, Int)
    requires toks[cur + 1] == Leaf(To) || toks[cur + 1] == Leaf(Minus)
    ensures IntOrRange(toks, cur, res) == P(true, cur + 3, Node(To, [NodeC(toks[cur]), NodeC(toks[cur + 2])], []))
  {
  }

  /** An `and`/`or` with no operand after it is consumed and the tree so far is kept. */
  lemma TrailingOperator(toks: seq<Node>, res: Node, o1: Node, o2: Node)
    requires 1 <= |toks| && (Is(toks, |toks| - 1, And) || Is(toks, |toks| - 1, Or))
    ensures LogicLoop(toks, |toks| - 1, res, o1, o2) == P(true, |toks|, res)
  {
    OperandNoStart(toks, |toks|, o2);
  }

  /** `name CA and` parses, to the whole token list, as `name CA`. */
  lemma TrailingAndAccepted(name: Node, ca: Node, and: Node)
    requires name == Leaf(Name) && ca.code == Str && and == Leaf(And)
    ensures Run([name, ca, and]) == P(true, 3, AddChildren(name, [NodeC(ca)]))
  {
    var toks := [name, ca, and];
    var sel := AddChildren(name, [NodeC(ca)]);
    assert TextLoop(toks, 2, sel) == P(true, 2, sel);
    assert TextLoop(toks, 1, name) == P(true, 2, sel);
    assert KeywordTextList(toks, 0, Null) == P(true, 2, sel);
    ExprNoStart(toks, 0, Null);
    assert NumComparison(toks, 0, Null) == P(false, 0, Null);
    assert ByOrKeyword(toks, 0, Null) == P(true, 2, sel);
    assert NotOrWithin(toks, 0, Null) == P(true, 2, sel);
    assert ComparisonOrAll(toks, 0, Null) == P(true, 2, sel);
    assert LogicalOperand(toks, 0, Null) == P(true, 2, sel);
    TrailingOperator(toks, sel, sel, Null);
  }

  /** A list keyword with nothing after it fails, with the cursor past the keyword and no tree. */
  lemma BareKeywordFails(name: Node)
    requires name == Leaf(Name)
    ensures Run([name]) == P(false, 1, Null)
  {
    var toks := [name];
    ExprNoStart(toks, 0, Null);
    assert NumComparison(toks, 0, Null) == P(false, 0, Null);
    assert TextLoop(toks, 1, name) == P(true, 1, name);
    assert KeywordTextList(toks, 0, Null) == P(false, 1, name);
    ExprNoStart(toks, 1, name);
    assert KeywordIntList(toks, 1, name) == P(false, 1, name);
    assert ByOrKeyword(toks, 0, Null) == P(false, 1, name);
    assert NotOrWithin(toks, 0, Null) == P(false, 1, name);
    assert ComparisonOrAll(toks, 0, Null) == P(false, 1, name);
    assert LogicalOperand(toks, 0, Null) == P(false, 1, name);
  }

  // ---------------------------------------------------------------------------
  // The tree each rule builds.

  /** A token num_factor takes on its own: a number, a coordinate or an attribute. */
  predicate Simple(n: Node) {
    n.code in {Int, Float, X, Y, Z, Beta, Occ}
  }

  /** A simple token followed by no arithmetic operator is a whole expression. */
  lemma SimpleExpr(toks: seq<Node>, i: int, res: Node)
    requires 0 <= i < |toks| && Simple(toks[i])
    requires !(Is(toks, i + 1, Mult) || Is(toks, i + 1, Div) || Is(toks, i + 1, Plus) || Is(toks, i + 1, Minus))
    ensures NumFactor(toks, i, res) == P(true, i + 1, toks[i])
    ensures NumExpr(toks, i, res) == P(true, i + 1, toks[i])
  {
    assert NumFactor(toks, i, Null) == P(true, i + 1, toks[i]);
    assert NumTerm(toks, i, Null) == P(true, i + 1, toks[i]);
  }

  /** `-a`: the MINUS token becomes a UNARY_MINUS node over the factor. */
  lemma UnaryMinusShape(minus: Node, a: Node, res: Node)
    requires minus == Leaf(Minus) && a.code == Int
    ensures NumFactor([minus, a], 0, res) == P(true, 2, Node(Code.UnaryMinus, [NodeC(a)], []))
  {
    var toks := [minus, a];
    IntFactor(toks, 1, Null);
    assert DistanceRule(toks, 0, res) == P(false, 0, res);
    assert UnaryMinus(toks, 0, res) == P(true, 2, Node(Code.UnaryMinus, [NodeC(a)], []));
  }

  /** `(a)` as a factor is a. */
  lemma ParenFactorShape(lp: Node, a: Node, rp: Node, res: Node)
    requires lp.code == LParen && Simple(a) && rp.code == RParen
    ensures NumFactor([lp, a, rp], 0, res) == P(true, 3, a)
  {
    SimpleExpr([lp, a, rp], 1, res);
  }

  /** An int token followed by k - 1 more factors is k factors. */
  lemma FactorStep(toks: seq<Node>, i: int, k: nat)
    requires Is(toks, i, Int) && k > 0
    ensures Factors(toks, i, k) == (Factors(toks, i + 1, k - 1).0, Factors(toks, i + 1, k - 1).1, [toks[i]] + Factors(toks, i + 1, k - 1).2)
  {
    IntFactor(toks, i, Null);
  }

  /** Three int factors in a row. */
  lemma ThreeFactors(toks: seq<Node>, i: int)
    requires 0 <= i && i + 3 <= |toks| && Is(toks, i, Int) && Is(toks, i + 1, Int) && Is(toks, i + 2, Int)
    ensures Factors(toks, i, 3) == (true, i + 3, [toks[i], toks[i + 1], toks[i + 2]])
  {
    FactorStep(toks, i, 3);
    FactorStep(toks, i + 1, 2);
    FactorStep(toks, i + 2, 1);
    assert Factors(toks, i + 3, 0) == (true, i + 3, []);
    assert [toks[i + 2]] + [] == [toks[i + 2]];
    assert [toks[i + 1]] + [toks[i + 2]] == [toks[i + 1], toks[i + 2]];
    assert [toks[i]] + [toks[i + 1], toks[i + 2]] == [toks[i], toks[i + 1], toks[i + 2]];
  }

  /** `dist point a b c`: the POINT token over the three factors. */
  lemma DistancePointShape(dist: Node, point: Node, a: Node, b: Node, c: Node, res: Node)
    requires dist.code == Dist && point == Leaf(Point) && a.code == Int && b.code == Int && c.code == Int
    ensures DistanceRule([dist, point, a, b, c], 0, res) == P(true, 5, Node(Point, [NodeC(a), NodeC(b), NodeC(c)], []))
  {
    var toks := [dist, point, a, b, c];
    ThreeFactors(toks, 2);
    var kids := Kids([a, b, c]);
    assert kids == [NodeC(a), NodeC(b), NodeC(c)];
    assert AddChildren(point, kids + []) == Node(Point, kids, []);
    assert DistanceArgs(toks, 2, point, 3, []) == P(true, 5, Node(Point, kids, []));
  }

  /** `dist pbc point a b c`: the periodicity token goes after the three factors. */
  lemma DistancePeriodicShape(dist: Node, pbc: Node, point: Node, a: Node, b: Node, c: Node, res: Node)
    requires dist.code == Dist && pbc.code == Periodic && point == Leaf(Point)
    requires a.code == Int && b.code == Int && c.code == Int
    ensures DistanceRule([dist, pbc, point, a, b, c], 0, res)
      == P(true, 6, Node(Point, [NodeC(a), NodeC(b), NodeC(c), NodeC(pbc)], []))
  {
    var toks := [dist, pbc, point, a, b, c];
    ThreeFactors(toks, 3);
    var kids := Kids([a, b, c]) + [NodeC(pbc)];
    assert kids == [NodeC(a), NodeC(b), NodeC(c), NodeC(pbc)];
    assert AddChildren(point, kids) == Node(Point, kids, []);
    assert DistanceArgs(toks, 3, point, 3, [NodeC(pbc)]) == P(true, 6, Node(Point, kids, []));
  }

  /** A comparison is the operator token over the two expressions around it. */
  lemma ComparisonStep(toks: seq<Node>, cur: int, j: int, k: int, e1: Node, e2: Node, res: Node)
    requires 0 <= cur <= |toks| && 0 <= j < |toks|
    requires NumExpr(toks, cur, Null) == P(true, j, e1) && IsComparison(toks, j)
    requires NumExpr(toks, j + 1, Null) == P(true, k, e2)
    ensures NumComparison(toks, cur, res) == P(true, k, AddChildren(toks[j], [NodeC(e1), NodeC(e2)]))
  {
  }

  /** `a op b` with a comparison operator: the operator token over the two sides. */
  lemma ComparisonShape(toks: seq<Node>, res: Node)
    requires |toks| == 3 && Simple(toks[0]) && Simple(toks[2]) && IsComparison(toks, 1) && toks[1].children == []
    ensures NumComparison(toks, 0, res)
      == P(true, 3, Node(toks[1].code, [NodeC(toks[0]), NodeC(toks[2])], toks[1].precomputed))
  {
    SimpleExpr(toks, 0, Null);
    SimpleExpr(toks, 2, Null);
    ComparisonStep(toks, 0, 1, 3, toks[0], toks[2], res);
  }

  /** `x < 5` parses to LT(X, 5). */
  lemma XBelowFiveParses(x: Node, lt: Node, five: Node)
    requires x == Leaf(X) && lt == Leaf(Lt) && five.code == Int
    ensures Run([x, lt, five]) == P(true, 3, Node(Lt, [NodeC(x), NodeC(five)], []))
  {
    var toks := [x, lt, five];
    var t := Node(Lt, [NodeC(x), NodeC(five)], []);
    ComparisonShape(toks, Null);
    assert ParenOperand(toks, 0, Null) == P(false, 0, Null);
    assert ComparisonOrAll(toks, 0, Null) == P(true, 3, t);
    assert LogicalOperand(toks, 0, Null) == P(true, 3, t);
    assert LogicLoop(toks, 3, t, t, Null) == P(true, 3, t);
  }

  /** `name s` followed by a token that is not a string is the list NAME(s). */
  lemma NameList(toks: seq<Node>, i: int, res: Node)
    requires 0 <= i && i + 1 < |toks| && toks[i] == Leaf(Name) && toks[i + 1].code == Str
    requires !Is(toks, i + 2, Str) && !Is(toks, i + 2, Regex)
    ensures ByOrKeyword(toks, i, res) == P(true, i + 2, Node(Name, [NodeC(toks[i + 1])], []))
  {
    var sel := Node(Name, [NodeC(toks[i + 1])], []);
    assert TextLoop(toks, i + 2, sel) == P(true, i + 2, sel);
    assert TextLoop(toks, i + 1, toks[i]) == P(true, i + 2, sel);
    assert KeywordTextList(toks, i, res) == P(true, i + 2, sel);
  }

  /** ... and so is the operand. */
  lemma NameOperand(toks: seq<Node>, i: int, res: Node)
    requires 0 <= i && i + 1 < |toks| && toks[i] == Leaf(Name) && toks[i + 1].code == Str
    requires !Is(toks, i + 2, Str) && !Is(toks, i + 2, Regex)
    ensures LogicalOperand(toks, i, res) == P(true, i + 2, Node(Name, [NodeC(toks[i + 1])], []))
  {
    NameList(toks, i, res);
    ExprNoStart(toks, i, Null);
    assert NumComparison(toks, i, res) == P(false, i, res);
    assert NotOrWithin(toks, i, res) == ByOrKeyword(toks, i, res);
  }

  /** `not all`: the NOT token over the operand. */
  lemma NotShape(not: Node, all: Node, res: Node)
    requires not == Leaf(Not) && all.code == All
    ensures LogicalNot([not, all], 0, res) == P(true, 2, Node(Not, [NodeC(all)], []))
  {
    AllOperand([not, all], 1, res);
  }

  /** `within d of name s`: the WITHIN token over the distance and the operand. */
  lemma WithinShape(w: Node, d: Node, of: Node, name: Node, str: Node, res: Node)
    requires w == Leaf(Code.Within) && d.code == Int && of.code == Of && name == Leaf(Name) && str.code == Str
    ensures WithinRule([w, d, of, name, str], 0, res)
      == P(true, 5, Node(Code.Within, [NodeC(d), NodeC(Node(Name, [NodeC(str)], []))], []))
  {
    NameOperand([w, d, of, name, str], 3, Null);
  }

  /** `within d pbc of all`: the periodicity token goes after the operand. */
  lemma WithinPeriodicShape(w: Node, d: Node, pbc: Node, of: Node, all: Node, res: Node)
    requires w == Leaf(Code.Within) && d.code == Float && pbc.code == Periodic && of.code == Of && all.code == All
    ensures WithinRule([w, d, pbc, of, all], 0, res)
      == P(true, 5, Node(Code.Within, [NodeC(d), NodeC(all), NodeC(pbc)], []))
  {
    AllOperand([w, d, pbc, of, all], 4, Null);
  }

  /** `by residue name s`: the BY token over the operand. */
  lemma ByResidueShape(byTok: Node, residue: Node, name: Node, str: Node, res: Node)
    requires byTok == Leaf(By) && residue.code == Residue && name == Leaf(Name) && str.code == Str
    ensures ByResidue([byTok, residue, name, str], 0, res) == P(true, 4, Node(By, [NodeC(Node(Name, [NodeC(str)], []))], []))
  {
    NameOperand([byTok, residue, name, str], 2, Null);
  }

  /** `name s1 s2`: the keyword token over its strings, in order. */
  lemma TextListShape(name: Node, s1: Node, s2: Node, res: Node)
    requires name == Leaf(Name) && s1.code == Str && s2.code == Regex
    ensures KeywordTextList([name, s1, s2], 0, res) == P(true, 3, Node(Name, [NodeC(s1), NodeC(s2)], []))
  {
    var toks := [name, s1, s2];
    var one := Node(Name, [NodeC(s1)], []);
    var two := Node(Name, [NodeC(s1), NodeC(s2)], []);
    assert TextLoop(toks, 3, two) == P(true, 3, two);
    assert AddChildren(one, [NodeC(s2)]) == two;
    assert TextLoop(toks, 2, one) == P(true, 3, two);
    assert AddChildren(name, [NodeC(s1)]) == one;
    assert TextLoop(toks, 1, name) == P(true, 3, two);
  }

  /** `index i1 i2 - i3`: the keyword token over the int and the TO node of the range. */
  lemma IntListShape(index: Node, i1: Node, i2: Node, dash: Node, i3: Node, res: Node)
    requires index == Leaf(Index) && i1.code == Int && i2.code == Int && dash == Leaf(Minus) && i3.code == Int
    ensures KeywordIntList([index, i1, i2, dash, i3], 0, res)
      == P(true, 5, Node(Index, [NodeC(i1), NodeC(Node(To, [NodeC(i2), NodeC(i3)], []))], []))
  {
    var toks := [index, i1, i2, dash, i3];
    var range := Node(To, [NodeC(i2), NodeC(i3)], []);
    var one := Node(Index, [NodeC(i1)], []);
    var two := Node(Index, [NodeC(i1), NodeC(range)], []);
    RangeForms(toks, 2, i1);
    assert IntOrRange(toks, 5, range) == P(false, 5, range);
    assert IntLoop(toks, 5, two, range) == P(true, 5, two);
    assert AddChildren(one, [NodeC(range)]) == two;
    assert IntLoop(toks, 2, one, i1) == P(true, 5, two);
    assert IntOrRange(toks, 1, Null) == P(true, 2, i1);
    assert AddChildren(index, [NodeC(i1)]) == one;
    assert IntLoop(toks, 1, index, Null) == P(true, 5, two);
  }

  /** `(all)` as an operand is ALL. */
  lemma ParenOperandShape(lp: Node, all: Node, rp: Node, res: Node)
    requires lp.code == LParen && all.code == All && rp.code == RParen
    ensures LogicalOperand([lp, all, rp], 0, res) == P(true, 3, all)
  {
    var toks := [lp, all, rp];
    AllOperand(toks, 1, Null);
    assert LogicLoop(toks, 2, all, all, Null) == P(true, 2, all);
    assert LogicalExpr(toks, 1, res) == P(true, 2, all);
    assert ParenOperand(toks, 0, res) == P(true, 3, all);
  }

  // ---------------------------------------------------------------------------
  // The tree of each rule over whatever its sub-rules parse.

  /** unary_minus: UNARY_MINUS over whatever factor follows the MINUS token; so is num_factor there. */
  lemma UnaryMinusOver(toks: seq<Node>, cur: int, res: Node, k: int, f: Node)
    requires 0 <= cur && Is(toks, cur, Minus) && NumFactor(toks, cur + 1, Null) == P(true, k, f)
    ensures UnaryMinus(toks, cur, res)
      == P(true, k, Node(Code.UnaryMinus, toks[cur].children + [NodeC(f)], toks[cur].precomputed))
    ensures NumFactor(toks, cur, res) == UnaryMinus(toks, cur, res)
  {
    assert DistanceRule(toks, cur, res) == P(false, cur, res);
  }

  /** `(` expression `)` is a factor whose tree is the expression's. */
  lemma ParenFactorOver(toks: seq<Node>, cur: int, res: Node, k: int, e: Node)
    requires 0 <= cur && Is(toks, cur, LParen) && NumExpr(toks, cur + 1, res) == P(true, k, e) && Is(toks, k, RParen)
    ensures NumFactor(toks, cur, res) == P(true, k + 1, e)
  {
    assert ParenFactor(toks, cur + 1, res) == P(true, k + 1, e);
  }

  /** A distance that parses is a factor, with the tree distance_rule builds. */
  lemma DistanceFactor(toks: seq<Node>, cur: int, res: Node)
    requires 0 <= cur && Is(toks, cur, Dist) && DistanceRule(toks, cur, res).ok
    ensures NumFactor(toks, cur, res) == DistanceRule(toks, cur, res)
  {
  }

  /** The first of k > 0 factors. */
  lemma FactorsCons(toks: seq<Node>, cur: int, k: nat, m: int, f: Node)
    requires 0 <= cur <= |toks| && k > 0 && NumFactor(toks, cur, Null) == P(true, m, f)
    ensures var rest := Factors(toks, m, k - 1); Factors(toks, cur, k) == (rest.0, rest.1, [f] + rest.2)
  {
  }

  /** Factors in a row: factor j runs from ps[j] to ps[j + 1] with tree fs[j]. */
  lemma {:induction false} FactorsChain(toks: seq<Node>, ps: seq<int>, fs: seq<Node>, i: nat)
    requires |ps| == |fs| + 1 && i <= |fs|
    requires forall j :: 0 <= j < |ps| ==> 0 <= ps[j] <= |toks|
    requires forall j :: 0 <= j < |fs| ==> NumFactor(toks, ps[j], Null) == P(true, ps[j + 1], fs[j])
    ensures Factors(toks, ps[i], |fs| - i) == (true, ps[|fs|], fs[i..])
    decreases |fs| - i
  {
    if i < |fs| {
      FactorsCons(toks, ps[i], |fs| - i, ps[i + 1], fs[i]);
      FactorsChain(toks, ps, fs, i + 1);
      assert fs[i..] == [fs[i]] + fs[i + 1..];
    } else {
      assert Factors(toks, ps[i], 0) == (true, ps[i], []);
      assert fs[i..] == [];
    }
  }

  /** Where the shape token of a distance is: after DIST, and after the PERIODIC token when there is one. */
  function ShapeAt(toks: seq<Node>, cur: int): int {
    if Is(toks, cur + 1, Periodic) then cur + 2 else cur + 1
  }

  /** The periodicity child of a distance, when there is a PERIODIC token after DIST. */
  function PbcOf(toks: seq<Node>, cur: int): seq<Child>
    requires 0 <= cur
  {
    if Is(toks, cur + 1, Periodic) then [NodeC(toks[cur + 1])] else []
  }

  /**
   * distance_rule: the POINT token over the three factors after it, or the
   * VECTOR/PLANE token over six, then the periodicity token.
   */
  lemma DistanceOver(toks: seq<Node>, cur: int, res: Node, e: int, fs: seq<Node>)
    requires 0 <= cur && Is(toks, cur, Dist)
    requires var s := ShapeAt(toks, cur);
      || (Is(toks, s, Point) && Factors(toks, s + 1, 3) == (true, e, fs))
      || ((Is(toks, s, Vector) || Is(toks, s, Plane)) && Factors(toks, s + 1, 6) == (true, e, fs))
    ensures DistanceRule(toks, cur, res) == P(true, e, AddChildren(toks[ShapeAt(toks, cur)], Kids(fs) + PbcOf(toks, cur)))
  {
    var s := ShapeAt(toks, cur);
    assert DistanceRule(toks, cur, res) == DistanceShape(toks, s, res, PbcOf(toks, cur));
  }

  /** logical_not: NOT over whatever operand follows. */
  lemma NotOver(toks: seq<Node>, cur: int, res: Node, k: int, o: Node)
    requires 0 <= cur && Is(toks, cur, Not) && LogicalOperand(toks, cur + 1, res) == P(true, k, o)
    ensures LogicalNot(toks, cur, res) == P(true, k, AddChildren(toks[cur], [NodeC(o)]))
  {
  }

  /**
   * within_rule: WITHIN over the distance and whatever operand follows OF,
   * then the periodicity token when there is one.
   */
  lemma WithinOver(toks: seq<Node>, cur: int, res: Node, k: int, o: Node)
    requires 0 <= cur && Is(toks, cur, Code.Within) && (Is(toks, cur + 1, Float) || Is(toks, cur + 1, Int))
    requires var p := if Is(toks, cur + 2, Periodic) then 1 else 0;
      Is(toks, cur + 2 + p, Of) && LogicalOperand(toks, cur + 3 + p, Null) == P(true, k, o)
    ensures WithinRule(toks, cur, res) == P(true, k, AddChildren(toks[cur],
      [NodeC(toks[cur + 1]), NodeC(o)] + (if Is(toks, cur + 2, Periodic) then [NodeC(toks[cur + 2])] else [])))
  {
  }

  /** by_residue: BY over whatever operand follows BY RESIDUE. */
  lemma ByOver(toks: seq<Node>, cur: int, res: Node, k: int, o: Node)
    requires 0 <= cur && Is(toks, cur, By) && Is(toks, cur + 1, Residue) && LogicalOperand(toks, cur + 2, Null) == P(true, k, o)
    ensures ByResidue(toks, cur, res) == P(true, k, AddChildren(toks[cur], [NodeC(o)]))
  {
  }

  /** The STR and REGEX tokens from cur up to e, and none at e. */
  predicate TextRun(toks: seq<Node>, cur: int, e: int) {
    0 <= cur <= e <= |toks| && (forall i :: cur <= i < e ==> toks[i].code in {Str, Regex})
    && !Is(toks, e, Str) && !Is(toks, e, Regex)
  }

  lemma KidsStep(ns: seq<Node>, i: int, e: int)
    requires 0 <= i < e <= |ns|
    ensures Kids(ns[i..e]) == [NodeC(ns[i])] + Kids(ns[i + 1..e])
  {
    assert Kids(ns[i..e])[0] == NodeC(ns[i]);
    assert forall j :: 1 <= j < e - i ==> Kids(ns[i..e])[j] == Kids(ns[i + 1..e])[j - 1];
  }

  lemma KidsSuffix(ns: seq<Node>, i: int)
    requires 0 <= i < |ns|
    ensures Kids(ns[i..]) == [NodeC(ns[i])] + Kids(ns[i + 1..])
  {
    KidsStep(ns, i, |ns|);
    assert ns[i..] == ns[i..|ns|] && ns[i + 1..] == ns[i + 1..|ns|];
  }

  lemma AddChildrenTwice(n: Node, a: seq<Child>, b: seq<Child>)
    ensures AddChildren(AddChildren(n, a), b) == AddChildren(n, a + b)
  {
    assert n.children + a + b == n.children + (a + b);
  }

  /** One string or regex of the loop of keyword_text_list. */
  lemma TextLoopStep(toks: seq<Node>, cur: int, res: Node)
    requires 0 <= cur < |toks| && toks[cur].code in {Str, Regex}
    ensures TextLoop(toks, cur, res) == TextLoop(toks, cur + 1, AddChildren(res, [NodeC(toks[cur])]))
  {
  }

  /** The loop of keyword_text_list takes the whole run, in order. */
  lemma {:induction false} TextLoopRun(toks: seq<Node>, cur: int, e: int, res: Node)
    requires TextRun(toks, cur, e)
    ensures TextLoop(toks, cur, res) == P(true, e, AddChildren(res, Kids(toks[cur..e])))
    decreases e - cur
  {
    if cur < e {
      TextLoopStep(toks, cur, res);
      TextLoopRun(toks, cur + 1, e, AddChildren(res, [NodeC(toks[cur])]));
      KidsStep(toks, cur, e);
      AddChildrenTwice(res, [NodeC(toks[cur])], Kids(toks[cur + 1..e]));
    } else {
      assert TextLoop(toks, cur, res) == P(true, cur, res);
    }
  }

  /**
   * keyword_text_list: the keyword over every string and regex after it, in
   * order; it fails, at the end of the run, exactly when the keyword ends up
   * with no children.
   */
  lemma TextListRun(toks: seq<Node>, cur: int, e: int, res: Node)
    requires 0 <= cur && IsTextKeyword(toks, cur) && TextRun(toks, cur + 1, e)
    ensures KeywordTextList(toks, cur, res)
      == P(|toks[cur].children| + (e - cur - 1) > 0, e, AddChildren(toks[cur], Kids(toks[cur + 1..e])))
  {
    TextLoopRun(toks, cur + 1, e, toks[cur]);
  }

  /** Ints and ranges in a row: item j runs from ps[j] to ps[j + 1] with tree gs[j]; no int starts at the last position. */
  predicate IntRun(toks: seq<Node>, ps: seq<int>, gs: seq<Node>) {
    |ps| == |gs| + 1 && 0 <= ps[|gs|] <= |toks| && !Is(toks, ps[|gs|], Int)
    && (forall j :: 0 <= j < |gs| ==> 0 <= ps[j] <= |toks| && IntOrRange(toks, ps[j], Null) == P(true, ps[j + 1], gs[j]))
  }

  /** A successful int_or_range does not depend on the variable it is handed. */
  lemma IntOrRangeTree(toks: seq<Node>, cur: int, a: Node, b: Node)
    requires 0 <= cur <= |toks| && IntOrRange(toks, cur, a).ok
    ensures IntOrRange(toks, cur, b) == IntOrRange(toks, cur, a)
  {
  }

  lemma IntLoopStep(toks: seq<Node>, cur: int, res: Node, tok: Node, k: int, g: Node)
    requires 0 <= cur <= |toks| && IntOrRange(toks, cur, Null) == P(true, k, g)
    ensures IntLoop(toks, cur, res, tok) == IntLoop(toks, k, AddChildren(res, [NodeC(g)]), g)
  {
    IntOrRangeTree(toks, cur, Null, tok);
  }

  /** The loop of keyword_int_list stops where no int starts. */
  lemma IntLoopStop(toks: seq<Node>, cur: int, res: Node, tok: Node)
    requires 0 <= cur <= |toks| && !Is(toks, cur, Int)
    ensures IntLoop(toks, cur, res, tok) == P(true, cur, res)
  {
  }

  /** The loop of keyword_int_list takes every int and range of the run, in order. */
  lemma {:induction false} IntLoopRun(toks: seq<Node>, ps: seq<int>, gs: seq<Node>, i: nat, res: Node, tok: Node)
    requires IntRun(toks, ps, gs) && i <= |gs|
    ensures 0 <= ps[i] <= |toks|
    ensures IntLoop(toks, ps[i], res, tok) == P(true, ps[|gs|], AddChildren(res, Kids(gs[i..])))
    decreases |gs| - i
  {
    if i < |gs| {
      assert IntOrRange(toks, ps[i], Null) == P(true, ps[i + 1], gs[i]);
      IntLoopStep(toks, ps[i], res, tok, ps[i + 1], gs[i]);
      var next := AddChildren(res, [NodeC(gs[i])]);
      IntLoopRun(toks, ps, gs, i + 1, next, gs[i]);
      KidsSuffix(gs, i);
      AddChildrenTwice(res, [NodeC(gs[i])], Kids(gs[i + 1..]));
    } else {
      IntLoopStop(toks, ps[i], res, tok);
    }
  }

  /**
   * keyword_int_list: the keyword over every int and range after it, in
   * order; it fails exactly when the keyword ends up with no children.
   */
  lemma IntListRun(toks: seq<Node>, cur: int, ps: seq<int>, gs: seq<Node>, res: Node)
    requires 0 <= cur && IsIntKeyword(toks, cur) && IntRun(toks, ps, gs) && ps[0] == cur + 1
    ensures KeywordIntList(toks, cur, res)
      == P(|toks[cur].children| + |gs| > 0, ps[|gs|], AddChildren(toks[cur], Kids(gs)))
  {
    IntLoopRun(toks, ps, gs, 0, toks[cur], Null);
    assert gs[0..] == gs;
  }

  /** `(` logical expression `)` is an operand whose tree is the expression's. */
  lemma ParenOperandOver(toks: seq<Node>, cur: int, res: Node, k: int, e: Node)
    requires 0 <= cur && Is(toks, cur, LParen) && LogicalExpr(toks, cur + 1, res) == P(true, k, e) && Is(toks, k, RParen)
    ensures LogicalOperand(toks, cur, res) == P(true, k + 1, e)
  {
    assert ParenOperand(toks, cur, res) == P(true, k + 1, e);
  }

  /** A comparison that parses, not after `(`, is the operand. */
  lemma ComparisonOperand(toks: seq<Node>, cur: int, res: Node)
    requires 0 <= cur <= |toks| && !Is(toks, cur, LParen) && NumComparison(toks, cur, res).ok
    ensures LogicalOperand(toks, cur, res) == NumComparison(toks, cur, res)
  {
    assert ParenOperand(toks, cur, res) == P(false, cur, res);
  }

  /** At a token that starts no factor and is not ALL, the operand is decided from NOT on. */
  lemma KeywordOperand(toks: seq<Node>, cur: int, res: Node)
    requires 0 <= cur <= |toks| && NoFactorStart(toks, cur) && !Is(toks, cur, All)
    ensures LogicalOperand(toks, cur, res) == NotOrWithin(toks, cur, res)
  {
    ExprNoStart(toks, cur, Null);
    assert NumComparison(toks, cur, res) == P(false, cur, res);
    assert ParenOperand(toks, cur, res) == P(false, cur, res);
  }

  /** `not` and an operand, as an operand: NOT over it. */
  lemma NotOperand(toks: seq<Node>, cur: int, res: Node, k: int, o: Node)
    requires 0 <= cur && Is(toks, cur, Not) && LogicalOperand(toks, cur + 1, res) == P(true, k, o)
    ensures LogicalOperand(toks, cur, res) == P(true, k, AddChildren(toks[cur], [NodeC(o)]))
  {
    KeywordOperand(toks, cur, res);
    NotOver(toks, cur, res, k, o);
  }

  /** A WITHIN that parses is the operand. */
  lemma WithinOperand(toks: seq<Node>, cur: int, res: Node)
    requires 0 <= cur && Is(toks, cur, Code.Within) && WithinRule(toks, cur, res).ok
    ensures LogicalOperand(toks, cur, res) == WithinRule(toks, cur, res)
  {
    KeywordOperand(toks, cur, res);
    assert LogicalNot(toks, cur, res) == P(false, cur, res);
  }

  /** A BY RESIDUE that parses is the operand. */
  lemma ByOperand(toks: seq<Node>, cur: int, res: Node)
    requires 0 <= cur && Is(toks, cur, By) && ByResidue(toks, cur, res).ok
    ensures LogicalOperand(toks, cur, res) == ByResidue(toks, cur, res)
  {
    KeywordOperand(toks, cur, res);
    assert LogicalNot(toks, cur, res) == P(false, cur, res);
    assert WithinRule(toks, cur, res) == P(false, cur, res);
  }

  /** At a token other than NOT and WITHIN that starts no factor and is not ALL, the operand is decided from BY on. */
  lemma ByOrKeywordOperand(toks: seq<Node>, cur: int, res: Node)
    requires 0 <= cur <= |toks| && NoFactorStart(toks, cur) && !Is(toks, cur, All)
    requires !Is(toks, cur, Not) && !Is(toks, cur, Code.Within)
    ensures LogicalOperand(toks, cur, res) == ByOrKeyword(toks, cur, res)
  {
    KeywordOperand(toks, cur, res);
    assert LogicalNot(toks, cur, res) == P(false, cur, res);
    assert WithinRule(toks, cur, res) == P(false, cur, res);
  }

  /** BY and the keywords of the lists start no factor, and are neither ALL, NOT nor WITHIN. */
  lemma ListKeywordStart(toks: seq<Node>, cur: int)
    requires 0 <= cur < |toks| && toks[cur].code in {By, Name, Resname, Tag, Chain, Resid, Resindex, Index}
    ensures NoFactorStart(toks, cur) && !Is(toks, cur, All) && !Is(toks, cur, Not) && !Is(toks, cur, Code.Within)
  {
  }

  /** A text list that parses is the operand. */
  lemma TextListOperand(toks: seq<Node>, cur: int, res: Node)
    requires 0 <= cur && IsTextKeyword(toks, cur) && KeywordTextList(toks, cur, res).ok
    ensures LogicalOperand(toks, cur, res) == KeywordTextList(toks, cur, res)
  {
    ListKeywordStart(toks, cur);
    ByOrKeywordOperand(toks, cur, res);
    assert ByResidue(toks, cur, res) == P(false, cur, res);
  }

  /** At an int keyword, the last alternative is the only one left. */
  lemma IntKeywordByOrKeyword(toks: seq<Node>, cur: int, res: Node)
    requires 0 <= cur < |toks| && toks[cur].code in {Resid, Resindex, Index}
    ensures ByOrKeyword(toks, cur, res) == KeywordIntList(toks, cur, res)
  {
    assert ByResidue(toks, cur, res) == P(false, cur, res);
    assert KeywordTextList(toks, cur, res) == P(false, cur, res);
  }

  /** At an int keyword the operand is the int list, whether it parses or not. */
  lemma IntListOperand(toks: seq<Node>, cur: int, res: Node)
    requires 0 <= cur && IsIntKeyword(toks, cur)
    ensures LogicalOperand(toks, cur, res) == KeywordIntList(toks, cur, res)
  {
    assert toks[cur].code in {Resid, Resindex, Index};
    ListKeywordStart(toks, cur);
    ByOrKeywordOperand(toks, cur, res);
    IntKeywordByOrKeyword(toks, cur, res);
  }

  // ---------------------------------------------------------------------------
  // Associativity and precedence over whatever the operand rules parse.

  /** The three levels of binary operators, each over the operands of the rule below it. */
  datatype Level = TermLevel | ExprLevel | LogicLevel

  /** The operand rule of a level: num_factor, num_term and logical_operand. */
  function Operand(lv: Level, toks: seq<Node>, cur: int, res: Node): P
    requires 0 <= cur <= |toks|
  {
    match lv
    case TermLevel => NumFactor(toks, cur, res)
    case ExprLevel => NumTerm(toks, cur, res)
    case LogicLevel => LogicalOperand(toks, cur, res)
  }

  /** The rule of a level: num_term, num_expr and logical_expr. */
  function LevelRule(lv: Level, toks: seq<Node>, cur: int, res: Node): P
    requires 0 <= cur <= |toks|
  {
    match lv
    case TermLevel => NumTerm(toks, cur, res)
    case ExprLevel => NumExpr(toks, cur, res)
    case LogicLevel => LogicalExpr(toks, cur, res)
  }

  /** The operator tokens of a level. */
  function Operators(lv: Level): set<Code> {
    match lv
    case TermLevel => {Mult, Div}
    case ExprLevel => {Plus, Minus}
    case LogicLevel => {Or, And}
  }

  /** The variable the loop hands the operand after operator j: nothing for the first, then the operand before. */
  function Handed(ts: seq<Node>, j: int): Node {
    if 1 <= j < |ts| then ts[j] else Null
  }

  /** Where operand j of a chain ends: at operator j, or at e after the last operator. */
  function EndOf(ops: seq<int>, e: int, j: int): int {
    if 0 <= j < |ops| then ops[j] else e
  }

  /**
   * One level from cur to e: operands ts[0..n] between the operator tokens at
   * ops[0..n-1].  Operand 0 runs from cur to the first operator and operand
   * j + 1 from just past operator j to the next one (or to e), each parsed by
   * the level's operand rule from the variable the loop hands it: nothing
   * for the first two, then the operand before.  The operators are tokens of
   * the level with no children, as the tokenizer makes them, and no operator
   * of the level is at e.
   */
  predicate LevelRun(lv: Level, toks: seq<Node>, cur: int, ops: seq<int>, ts: seq<Node>, e: int) {
    && |ts| == |ops| + 1 && 0 <= cur <= |toks| && 0 <= e <= |toks|
    && Operand(lv, toks, cur, Null) == P(true, EndOf(ops, e, 0), ts[0])
    && (forall j :: 0 <= j < |ops| ==> 0 <= ops[j] < |toks|)
    && (forall j {:trigger OpAt(lv, toks, ops, ts, e, j)} :: 0 <= j < |ops| ==> OpAt(lv, toks, ops, ts, e, j))
    && !(e < |toks| && toks[e].code in Operators(lv))
  }

  /** Operator j of a run and the operand after it. */
  predicate OpAt(lv: Level, toks: seq<Node>, ops: seq<int>, ts: seq<Node>, e: int, j: int)
    requires |ts| == |ops| + 1 && 0 <= j < |ops|
  {
    && 0 <= ops[j] < |toks| && toks[ops[j]].code in Operators(lv) && toks[ops[j]].children == []
    && Operand(lv, toks, ops[j] + 1, Handed(ts, j)) == P(true, EndOf(ops, e, j + 1), ts[j + 1])
  }

  /** ts[i + 1..] folded onto acc from the left, each joined by the operator token before it. */
  function LeftFold(toks: seq<Node>, ops: seq<int>, ts: seq<Node>, i: nat, acc: Node): Node
    requires |ts| == |ops| + 1 && i <= |ops|
    requires forall j :: 0 <= j < |ops| ==> 0 <= ops[j] < |toks|
    decreases |ops| - i
  {
    if i == |ops| then acc
    else LeftFold(toks, ops, ts, i + 1, AddChildren(toks[ops[i]], [NodeC(acc), NodeC(ts[i + 1])]))
  }

  /** One operator of the loop of num_term, once the operand after it has parsed to g. */
  lemma TermLoopStep(toks: seq<Node>, ops: seq<int>, ts: seq<Node>, e: int, i: int, acc: Node, o1: Node)
    requires |ts| == |ops| + 1 && 0 <= i < |ops| && OpAt(TermLevel, toks, ops, ts, e, i) && (|acc.children| == 2 || acc == o1)
    ensures TermLoop(toks, EndOf(ops, e, i), acc, o1, Handed(ts, i))
      == TermLoop(toks, EndOf(ops, e, i + 1), AddChildren(toks[ops[i]], [NodeC(acc), NodeC(ts[i + 1])]), acc, ts[i + 1])
  {
  }

  /** The loop of num_term stops at a token that is not one of its operators. */
  lemma TermLoopStop(toks: seq<Node>, cur: int, acc: Node, o1: Node, o2: Node)
    requires 0 <= cur <= |toks| && !(cur < |toks| && toks[cur].code in Operators(TermLevel))
    ensures TermLoop(toks, cur, acc, o1, o2) == P(true, cur, acc)
  {
  }

  /** The loop of num_term, from operator i of a run on, folds the rest of it onto acc. */
  lemma {:induction false} TermLoopChain(toks: seq<Node>, cur: int, ops: seq<int>, ts: seq<Node>, e: int, i: nat, acc: Node, o1: Node)
    requires LevelRun(TermLevel, toks, cur, ops, ts, e) && i <= |ops|
    requires |acc.children| == 2 || acc == o1
    ensures 0 <= EndOf(ops, e, i) <= |toks|
    ensures TermLoop(toks, EndOf(ops, e, i), acc, o1, Handed(ts, i)) == P(true, e, LeftFold(toks, ops, ts, i, acc))
    decreases |ops| - i
  {
    if i < |ops| {
      var next := AddChildren(toks[ops[i]], [NodeC(acc), NodeC(ts[i + 1])]);
      TermLoopKeepsOperand(toks, cur, ops, ts, e, i, acc);
      TermLoopChain(toks, cur, ops, ts, e, i + 1, next, acc);
      TermLoopLink(toks, cur, ops, ts, e, i, acc, o1);
    } else {
      TermLoopStop(toks, e, acc, o1, Handed(ts, i));
    }
  }

  /** After an operator of a run the tree has two children. */
  lemma TermLoopKeepsOperand(toks: seq<Node>, cur: int, ops: seq<int>, ts: seq<Node>, e: int, i: nat, acc: Node)
    requires LevelRun(TermLevel, toks, cur, ops, ts, e) && i < |ops|
    ensures |AddChildren(toks[ops[i]], [NodeC(acc), NodeC(ts[i + 1])]).children| == 2
  {
    assert OpAt(TermLevel, toks, ops, ts, e, i);
  }

  /** One operator of a run, joined to the fold of the rest. */
  lemma TermLoopLink(toks: seq<Node>, cur: int, ops: seq<int>, ts: seq<Node>, e: int, i: nat, acc: Node, o1: Node)
    requires LevelRun(TermLevel, toks, cur, ops, ts, e) && i < |ops| && (|acc.children| == 2 || acc == o1)
    requires var next := AddChildren(toks[ops[i]], [NodeC(acc), NodeC(ts[i + 1])]);
      0 <= EndOf(ops, e, i + 1) <= |toks|
      && TermLoop(toks, EndOf(ops, e, i + 1), next, acc, Handed(ts, i + 1)) == P(true, e, LeftFold(toks, ops, ts, i + 1, next))
    ensures 0 <= EndOf(ops, e, i) <= |toks|
    ensures TermLoop(toks, EndOf(ops, e, i), acc, o1, Handed(ts, i)) == P(true, e, LeftFold(toks, ops, ts, i, acc))
  {
    assert OpAt(TermLevel, toks, ops, ts, e, i);
    TermLoopStep(toks, ops, ts, e, i, acc, o1);
  }

  /** One operator of the loop of num_expr, once the operand after it has parsed to g. */
  lemma ExprLoopStep(toks: seq<Node>, ops: seq<int>, ts: seq<Node>, e: int, i: int, acc: Node, o1: Node)
    requires |ts| == |ops| + 1 && 0 <= i < |ops| && OpAt(ExprLevel, toks, ops, ts, e, i) && (|acc.children| == 2 || acc == o1)
    ensures ExprLoop(toks, EndOf(ops, e, i), acc, o1, Handed(ts, i))
      == ExprLoop(toks, EndOf(ops, e, i + 1), AddChildren(toks[ops[i]], [NodeC(acc), NodeC(ts[i + 1])]), acc, ts[i + 1])
  {
  }

  /** The loop of num_expr stops at a token that is not one of its operators. */
  lemma ExprLoopStop(toks: seq<Node>, cur: int, acc: Node, o1: Node, o2: Node)
    requires 0 <= cur <= |toks| && !(cur < |toks| && toks[cur].code in Operators(ExprLevel))
    ensures ExprLoop(toks, cur, acc, o1, o2) == P(true, cur, acc)
  {
  }

  /** The loop of num_expr, from operator i of a run on, folds the rest of it onto acc. */
  lemma {:induction false} ExprLoopChain(toks: seq<Node>, cur: int, ops: seq<int>, ts: seq<Node>, e: int, i: nat, acc: Node, o1: Node)
    requires LevelRun(ExprLevel, toks, cur, ops, ts, e) && i <= |ops|
    requires |acc.children| == 2 || acc == o1
    ensures 0 <= EndOf(ops, e, i) <= |toks|
    ensures ExprLoop(toks, EndOf(ops, e, i), acc, o1, Handed(ts, i)) == P(true, e, LeftFold(toks, ops, ts, i, acc))
    decreases |ops| - i
  {
    if i < |ops| {
      var next := AddChildren(toks[ops[i]], [NodeC(acc), NodeC(ts[i + 1])]);
      ExprLoopKeepsOperand(toks, cur, ops, ts, e, i, acc);
      ExprLoopChain(toks, cur, ops, ts, e, i + 1, next, acc);
      ExprLoopLink(toks, cur, ops, ts, e, i, acc, o1);
    } else {
      ExprLoopStop(toks, e, acc, o1, Handed(ts, i));
    }
  }

  /** After an operator of a run the tree has two children. */
  lemma ExprLoopKeepsOperand(toks: seq<Node>, cur: int, ops: seq<int>, ts: seq<Node>, e: int, i: nat, acc: Node)
    requires LevelRun(ExprLevel, toks, cur, ops, ts, e) && i < |ops|
    ensures |AddChildren(toks[ops[i]], [NodeC(acc), NodeC(ts[i + 1])]).children| == 2
  {
    assert OpAt(ExprLevel, toks, ops, ts, e, i);
  }

  /** One operator of a run, joined to the fold of the rest. */
  lemma ExprLoopLink(toks: seq<Node>, cur: int, ops: seq<int>, ts: seq<Node>, e: int, i: nat, acc: Node, o1: Node)
    requires LevelRun(ExprLevel, toks, cur, ops, ts, e) && i < |ops| && (|acc.children| == 2 || acc == o1)
    requires var next := AddChildren(toks[ops[i]], [NodeC(acc), NodeC(ts[i + 1])]);
      0 <= EndOf(ops, e, i + 1) <= |toks|
      && ExprLoop(toks, EndOf(ops, e, i + 1), next, acc, Handed(ts, i + 1)) == P(true, e, LeftFold(toks, ops, ts, i + 1, next))
    ensures 0 <= EndOf(ops, e, i) <= |toks|
    ensures ExprLoop(toks, EndOf(ops, e, i), acc, o1, Handed(ts, i)) == P(true, e, LeftFold(toks, ops, ts, i, acc))
  {
    assert OpAt(ExprLevel, toks, ops, ts, e, i);
    ExprLoopStep(toks, ops, ts, e, i, acc, o1);
  }

  /** One operator of the loop of logical_expr, once the operand after it has parsed to g. */
  lemma LogicLoopStep(toks: seq<Node>, ops: seq<int>, ts: seq<Node>, e: int, i: int, acc: Node, o1: Node)
    requires |ts| == |ops| + 1 && 0 <= i < |ops| && OpAt(LogicLevel, toks, ops, ts, e, i) && (|acc.children| == 2 || acc == o1)
    ensures LogicLoop(toks, EndOf(ops, e, i), acc, o1, Handed(ts, i))
      == LogicLoop(toks, EndOf(ops, e, i + 1), AddChildren(toks[ops[i]], [NodeC(acc), NodeC(ts[i + 1])]), acc, ts[i + 1])
  {
  }

  /** The loop of logical_expr stops at a token that is not one of its operators. */
  lemma LogicLoopStop(toks: seq<Node>, cur: int, acc: Node, o1: Node, o2: Node)
    requires 0 <= cur <= |toks| && !(cur < |toks| && toks[cur].code in Operators(LogicLevel))
    ensures LogicLoop(toks, cur, acc, o1, o2) == P(true, cur, acc)
  {
  }

  /** The loop of logical_expr, from operator i of a run on, folds the rest of it onto acc. */
  lemma {:induction false} LogicLoopChain(toks: seq<Node>, cur: int, ops: seq<int>, ts: seq<Node>, e: int, i: nat, acc: Node, o1: Node)
    requires LevelRun(LogicLevel, toks, cur, ops, ts, e) && i <= |ops|
    requires |acc.children| == 2 || acc == o1
    ensures 0 <= EndOf(ops, e, i) <= |toks|
    ensures LogicLoop(toks, EndOf(ops, e, i), acc, o1, Handed(ts, i)) == P(true, e, LeftFold(toks, ops, ts, i, acc))
    decreases |ops| - i
  {
    if i < |ops| {
      var next := AddChildren(toks[ops[i]], [NodeC(acc), NodeC(ts[i + 1])]);
      LogicLoopKeepsOperand(toks, cur, ops, ts, e, i, acc);
      LogicLoopChain(toks, cur, ops, ts, e, i + 1, next, acc);
      LogicLoopLink(toks, cur, ops, ts, e, i, acc, o1);
    } else {
      LogicLoopStop(toks, e, acc, o1, Handed(ts, i));
    }
  }

  /** After an operator of a run the tree has two children. */
  lemma LogicLoopKeepsOperand(toks: seq<Node>, cur: int, ops: seq<int>, ts: seq<Node>, e: int, i: nat, acc: Node)
    requires LevelRun(LogicLevel, toks, cur, ops, ts, e) && i < |ops|
    ensures |AddChildren(toks[ops[i]], [NodeC(acc), NodeC(ts[i + 1])]).children| == 2
  {
    assert OpAt(LogicLevel, toks, ops, ts, e, i);
  }

  /** One operator of a run, joined to the fold of the rest. */
  lemma LogicLoopLink(toks: seq<Node>, cur: int, ops: seq<int>, ts: seq<Node>, e: int, i: nat, acc: Node, o1: Node)
    requires LevelRun(LogicLevel, toks, cur, ops, ts, e) && i < |ops| && (|acc.children| == 2 || acc == o1)
    requires var next := AddChildren(toks[ops[i]], [NodeC(acc), NodeC(ts[i + 1])]);
      0 <= EndOf(ops, e, i + 1) <= |toks|
      && LogicLoop(toks, EndOf(ops, e, i + 1), next, acc, Handed(ts, i + 1)) == P(true, e, LeftFold(toks, ops, ts, i + 1, next))
    ensures 0 <= EndOf(ops, e, i) <= |toks|
    ensures LogicLoop(toks, EndOf(ops, e, i), acc, o1, Handed(ts, i)) == P(true, e, LeftFold(toks, ops, ts, i, acc))
  {
    assert OpAt(LogicLevel, toks, ops, ts, e, i);
    LogicLoopStep(toks, ops, ts, e, i, acc, o1);
  }

  /**
   * num_term, num_expr and logical_expr are left-associative over any
   * operands: a chain of the level parses to its left fold,
   * ((t0 op1 t1) op2 t2) ..., and ends at e.
   */
  lemma LevelIsLeftFold(lv: Level, toks: seq<Node>, cur: int, ops: seq<int>, ts: seq<Node>, e: int, res: Node)
    requires LevelRun(lv, toks, cur, ops, ts, e)
    ensures LevelRule(lv, toks, cur, res) == P(true, e, LeftFold(toks, ops, ts, 0, ts[0]))
  {
    match lv
    case TermLevel => TermLoopChain(toks, cur, ops, ts, e, 0, ts[0], ts[0]);
    case ExprLevel => ExprLoopChain(toks, cur, ops, ts, e, 0, ts[0], ts[0]);
    case LogicLevel => LogicLoopChain(toks, cur, ops, ts, e, 0, ts[0], ts[0]);
  }

  /**
   * `*` and `/` bind tighter than `+` and `-`: when the pieces of a sum
   * between its `+`/`-` tokens are product chains, each operand of the sum is
   * the left fold of its factors and the sum is the left fold of those.
   */
  lemma SumOfProducts(toks: seq<Node>, cur: int, ops: seq<int>, ts: seq<Node>, e: int,
                      tops: seq<seq<int>>, tfs: seq<seq<Node>>, res: Node)
    requires |ts| == |ops| + 1 && |tops| == |ts| && |tfs| == |ts| && 0 <= cur <= |toks| && 0 <= e <= |toks|
    requires forall j :: 0 <= j < |ops| ==> 0 <= ops[j] < |toks| && toks[ops[j]].code in {Plus, Minus} && toks[ops[j]].children == []
    requires !(e < |toks| && toks[e].code in {Plus, Minus})
    requires forall k :: 0 <= k < |ts| ==>
      && LevelRun(TermLevel, toks, if k == 0 then cur else ops[k - 1] + 1, tops[k], tfs[k], EndOf(ops, e, k))
      && ts[k] == LeftFold(toks, tops[k], tfs[k], 0, tfs[k][0])
    ensures NumExpr(toks, cur, res) == P(true, e, LeftFold(toks, ops, ts, 0, ts[0]))
  {
    ProductOperand(toks, cur, tops[0], tfs[0], EndOf(ops, e, 0), Null);
    forall j | 0 <= j < |ops|
      ensures OpAt(ExprLevel, toks, ops, ts, e, j)
    {
      assert LevelRun(TermLevel, toks, ops[j] + 1, tops[j + 1], tfs[j + 1], EndOf(ops, e, j + 1));
      ProductOperand(toks, ops[j] + 1, tops[j + 1], tfs[j + 1], EndOf(ops, e, j + 1), Handed(ts, j));
    }
    assert LevelRun(ExprLevel, toks, cur, ops, ts, e);
    LevelIsLeftFold(ExprLevel, toks, cur, ops, ts, e, res);
  }

  /** A product chain is an operand of a sum, whatever variable it is handed. */
  lemma ProductOperand(toks: seq<Node>, cur: int, ops: seq<int>, fs: seq<Node>, e: int, r: Node)
    requires LevelRun(TermLevel, toks, cur, ops, fs, e)
    ensures Operand(ExprLevel, toks, cur, r) == P(true, e, LeftFold(toks, ops, fs, 0, fs[0]))
  {
    LevelIsLeftFold(TermLevel, toks, cur, ops, fs, e, r);
  }
}
