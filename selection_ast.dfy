/**
 * The syntax tree of the atom-selection language: token codes, tree nodes whose
 * children are literals or sub-nodes, the typed child accessors, the purity
 * analysis (no coordinate-dependent node anywhere below) and the classifier
 * that turns one token text into a node.
 */
module SelectionAst {
  import opened Wrappers

  datatype Code =
    | Void | Minus | UnaryMinus | Plus | Mult | Div
    | Eq | Neq | Lt | Gt | Leq | Geq
    | X | Y | Z | Occ | Beta
    | Or | And | Not | Within | Periodic | Of | By | Residue
    | Name | Resname | Tag | Chain | Resid | Index | Resindex | All | To
    | Dist | Point | Vector | Plane
    | Int | Float | Str | Regex | LParen | RParen | Precomputed

  /** A child of a node: a literal value or a sub-tree (the variant of the source). */
  datatype Child = IntC(i: int) | FloatC(f: real) | StrC(s: string) | BoolC(b: bool) | NodeC(n: Node)

  /** A tree node; `precomputed` holds the frozen index list of a PRECOMPUTED node. */
  datatype Node = Node(code: Code, children: seq<Child>, precomputed: seq<int>)

  /** A node with a code and nothing else (a bare token, or the null pointer as Void). */
  function Leaf(c: Code): (n: Node)
    ensures n.code == c && n.children == [] && n.precomputed == []
  {
    Node(c, [], [])
  }

  function AddChildren(n: Node, cs: seq<Child>): (r: Node)
    ensures r.code == n.code && r.children == n.children + cs && r.precomputed == n.precomputed
  {
    n.(children := n.children + cs)
  }

  // ---------------------------------------------------------------------------
  // Child accessors.  A child of the wrong kind makes boost::get throw
  // (bad_get); out-of-range positions are reported the same way here.

  /** child_node(i): the i-th child as a sub-tree. */
  function ChildNode(n: Node, i: int): (r: Result<Node>)
    ensures r.Ok? <==> 0 <= i < |n.children| && n.children[i].NodeC?
    ensures r.Ok? ==> r.value == n.children[i].n
  {
    if 0 <= i < |n.children| && n.children[i].NodeC? then Ok(n.children[i].n) else Err("bad_get")
  }

  /** The literal a sub-tree child carries as its own first child. */
  function ChildLiteral(n: Node, i: int): (r: Result<Child>)
    ensures r.Ok? <==> ChildNode(n, i).Ok? && |n.children[i].n.children| > 0
    ensures r.Ok? ==> r.value == n.children[i].n.children[0]
  {
    match ChildNode(n, i)
    case Ok(m) => if |m.children| > 0 then Ok(m.children[0]) else Err("bad_get")
    case Err(e) => Err(e)
  }

  function ChildAsInt(n: Node, i: int): (r: Result<int>)
    ensures r.Ok? <==> ChildLiteral(n, i).Ok? && ChildLiteral(n, i).value.IntC?
    ensures r.Ok? ==> r.value == ChildLiteral(n, i).value.i
  {
    match ChildLiteral(n, i)
    case Ok(IntC(v)) => Ok(v)
    case Ok(_) => Err("bad_get")
    case Err(e) => Err(e)
  }

  function ChildAsFloat(n: Node, i: int): (r: Result<real>)
    ensures r.Ok? <==> ChildLiteral(n, i).Ok? && ChildLiteral(n, i).value.FloatC?
  {
    match ChildLiteral(n, i)
    case Ok(FloatC(v)) => Ok(v)
    case Ok(_) => Err("bad_get")
    case Err(e) => Err(e)
  }

  function ChildAsStr(n: Node, i: int): (r: Result<string>)
    ensures r.Ok? <==> ChildLiteral(n, i).Ok? && ChildLiteral(n, i).value.StrC?
  {
    match ChildLiteral(n, i)
    case Ok(StrC(v)) => Ok(v)
    case Ok(_) => Err("bad_get")
    case Err(e) => Err(e)
  }

  function ChildAsBool(n: Node, i: int): (r: Result<bool>)
    ensures r.Ok? <==> ChildLiteral(n, i).Ok? && ChildLiteral(n, i).value.BoolC?
  {
    match ChildLiteral(n, i)
    case Ok(BoolC(v)) => Ok(v)
    case Ok(_) => Err("bad_get")
    case Err(e) => Err(e)
  }

  /** child_as_float_or_int: the float literal, or failing that the int literal. */
  function ChildAsFloatOrInt(n: Node, i: int): (r: Result<real>)
    ensures r.Ok? <==> ChildAsFloat(n, i).Ok? || ChildAsInt(n, i).Ok?
    ensures ChildAsFloat(n, i).Ok? ==> r == ChildAsFloat(n, i)
    ensures ChildAsFloat(n, i).Err? && ChildAsInt(n, i).Ok? ==> r == Ok(ChildAsInt(n, i).value as real)
  {
    match ChildAsFloat(n, i)
    case Ok(v) => Ok(v)
    case Err(_) =>
      match ChildAsInt(n, i)
      case Ok(k) => Ok(k as real)
      case Err(e) => Err(e)
  }

  // ---------------------------------------------------------------------------
  // Purity

  /** is_coordinate_dependent: the codes whose value depends on the coordinates. */
  predicate CoordinateDependent(c: Code) {
    c.X? || c.Y? || c.Z? || c.Within? || c.Point? || c.Plane? || c.Vector?
  }

  /** is_node_pure: the node and every sub-tree below it are coordinate independent. */
  predicate Pure(n: Node)
    decreases n, |n.children| + 1
  {
    !CoordinateDependent(n.code) && PureFrom(n, 0)
  }

  /** The sub-tree children from position i on are all pure. */
  predicate PureFrom(n: Node, i: nat)
    decreases n, |n.children| - i
  {
    i >= |n.children| || ((n.children[i].NodeC? ==> Pure(n.children[i].n)) && PureFrom(n, i + 1))
  }

  /** Every code occurring in the tree rooted at n. */
  function Codes(n: Node): set<Code>
    decreases n, |n.children| + 1
  {
    {n.code} + CodesFrom(n, 0)
  }

  function CodesFrom(n: Node, i: nat): set<Code>
    decreases n, |n.children| - i
  {
    if i >= |n.children| then {}
    else (if n.children[i].NodeC? then Codes(n.children[i].n) else {}) + CodesFrom(n, i + 1)
  }

  /** A node is pure exactly when no code of its sub-tree is coordinate dependent. */
  lemma {:induction false} PureIffNoCoordinateCode(n: Node)
    ensures Pure(n) <==> forall c :: c in Codes(n) ==> !CoordinateDependent(c)
    decreases n, |n.children| + 1
  {
    PureFromIff(n, 0);
  }

  lemma {:induction false} PureFromIff(n: Node, i: nat)
    ensures PureFrom(n, i) <==> forall c :: c in CodesFrom(n, i) ==> !CoordinateDependent(c)
    decreases n, |n.children| - i
  {
    if i < |n.children| {
      PureFromIff(n, i + 1);
      if n.children[i].NodeC? {
        PureIffNoCoordinateCode(n.children[i].n);
      }
    }
  }

  /** Purity passes to every sub-tree child. */
  lemma {:induction false} PureChild(n: Node, i: nat, j: int)
    requires PureFrom(n, i) && i <= j < |n.children| && n.children[j].NodeC?
    ensures Pure(n.children[j].n)
    decreases |n.children| - i
  {
    if i < j {
      PureChild(n, i + 1, j);
    }
  }

  // ---------------------------------------------------------------------------
  // The classifier

  /** The keywords and operators, spelled in lower case, with their codes. */
  const KeywordTable: map<string, Code> := map[
    "+" := Plus, "*" := Mult, "/" := Div, "-" := Minus, "(" := LParen, ")" := RParen,
    "=" := Eq, "==" := Eq, "<>" := Neq, "!=" := Neq, "<" := Lt, ">" := Gt,
    "<=" := Leq, ">=" := Geq, "x" := X, "y" := Y, "z" := Z,
    "occupancy" := Occ, "beta" := Beta, "or" := Or, "and" := And, "not" := Not,
    "within" := Within, "periodic" := Periodic, "nonperiodic" := Periodic,
    "pbc" := Periodic, "nopbc" := Periodic, "of" := Of, "by" := By,
    "res" := Residue, "residue" := Residue, "name" := Name, "resname" := Resname,
    "tag" := Tag, "chain" := Chain, "resid" := Resid, "index" := Index,
    "resindex" := Resindex, "all" := All, "to" := To, "dist" := Dist,
    "distance" := Dist, "point" := Point, "vector" := Vector, "plane" := Plane
  ]

  function LowerChar(c: char): char {
    if 'A' <= c <= 'Z' then (c as int + 32) as char else c
  }

  /** ASCII to_lower, character by character. */
  function ToLower(s: string): (r: string)
    ensures |r| == |s| && forall i :: 0 <= i < |s| ==> r[i] == LowerChar(s[i])
  {
    seq(|s|, i requires 0 <= i < |s| => LowerChar(s[i]))
  }

  predicate IsAlnum(c: char) {
    ('a' <= c <= 'z') || ('A' <= c <= 'Z') || ('0' <= c <= '9')
  }

  predicate AllAlnum(s: string) {
    forall i :: 0 <= i < |s| ==> IsAlnum(s[i])
  }

  /**
   * recognize: a keyword (compared in lower case) gives its code, the
   * periodicity words carrying their flag; anything else is an int if
   * `parseInt` accepts the text, else a float if `parseFloat` does, else a
   * plain string if it is all alphanumeric, else a regular expression.  The two
   * parsers stand for boost::lexical_cast and see the text as written.
   */
  function Recognize(s: string, parseInt: string -> Option<int>, parseFloat: string -> Option<real>): (n: Node)
    ensures n.precomputed == []
  {
    var w := ToLower(s);
    if w in KeywordTable then
      if w == "periodic" || w == "pbc" then Node(Periodic, [BoolC(true)], [])
      else if w == "nonperiodic" || w == "nopbc" then Node(Periodic, [BoolC(false)], [])
      else Leaf(KeywordTable[w])
    else match parseInt(s)
      case Some(k) => Node(Int, [IntC(k)], [])
      case None =>
        match parseFloat(s)
        case Some(f) => Node(Float, [FloatC(f)], [])
        case None => Node(if AllAlnum(s) then Str else Regex, [StrC(s)], [])
  }

  /** Keywords are matched case-insensitively: spellings that lower-case alike give the same node. */
  lemma KeywordsIgnoreCase(s: string, t: string, parseInt: string -> Option<int>, parseFloat: string -> Option<real>)
    requires ToLower(s) == ToLower(t) && ToLower(s) in KeywordTable
    ensures Recognize(s, parseInt, parseFloat) == Recognize(t, parseInt, parseFloat)
  {
  }

  /** A text that is no keyword: int before float before plain string before regex. */
  lemma LiteralClasses(s: string, parseInt: string -> Option<int>, parseFloat: string -> Option<real>)
    requires ToLower(s) !in KeywordTable
    ensures var n := Recognize(s, parseInt, parseFloat);
      && (parseInt(s).Some? ==> n == Node(Int, [IntC(parseInt(s).value)], []))
      && (parseInt(s).None? && parseFloat(s).Some? ==> n == Node(Float, [FloatC(parseFloat(s).value)], []))
      && (parseInt(s).None? && parseFloat(s).None? ==>
            n.children == [StrC(s)] && (n.code == Str <==> AllAlnum(s)) && (n.code == Regex <==> !AllAlnum(s)))
  {
  }

  /** The periodicity words all give TOK_PERIODIC, carrying true exactly for periodic/pbc. */
  lemma PeriodicFlag(s: string, parseInt: string -> Option<int>, parseFloat: string -> Option<real>)
    requires ToLower(s) in {"periodic", "pbc", "nonperiodic", "nopbc"}
    ensures Recognize(s, parseInt, parseFloat).code == Periodic
    ensures Recognize(s, parseInt, parseFloat).children == [BoolC(ToLower(s) in {"periodic", "pbc"})]
  {
  }

  /** Every other keyword gives a bare node of its code. */
  lemma KeywordNode(s: string, parseInt: string -> Option<int>, parseFloat: string -> Option<real>)
    requires ToLower(s) in KeywordTable && ToLower(s) !in {"periodic", "pbc", "nonperiodic", "nopbc"}
    ensures Recognize(s, parseInt, parseFloat) == Leaf(KeywordTable[ToLower(s)])
  {
  }
}
