/**
 * The splitting rules of the selection tokenizer, as a function of the text.
 * `Scan` takes one step of the tokenizer's character loop per call: it stands on
 * position `cur`, with a token pending from position `b` (or none when b < 0),
 * and the tokens found so far as inclusive spans of the text.  The tokenizer
 * method of the parser is proved to compute exactly these spans; the lemmas
 * below state what the spans are.
 */
module SelectionTokens {
  import opened Wrappers
  import opened SelectionAst

  /** at(): the character at i, or NUL outside the text. */
  function At(s: string, i: int): char {
    if 0 <= i < |s| then s[i] else '\0'
  }

  /** isspace() in the C locale. */
  predicate IsSpace(c: char) {
    c == ' ' || c == '\t' || c == '\n' || c == '\r' || c == '\U{0B}' || c == '\U{0C}'
  }

  predicate IsDigit(c: char) {
    '0' <= c <= '9'
  }

  predicate IsQuote(c: char) {
    c == '"' || c == '\''
  }

  predicate QuoteFree(s: string) {
    forall i :: 0 <= i < |s| ==> !IsQuote(s[i])
  }

  /** A token: the characters s[lo..hi], both ends included. */
  datatype Span = Span(lo: int, hi: int)

  /** The tokens found so far and the start of the pending one (negative: none). */
  datatype Cut = Cut(spans: seq<Span>, b: int)

  /** end_token: closes the pending token at i if it is non-empty and inside the text. */
  function EndToken(s: string, c: Cut, i: int): (r: Cut)
    ensures c.b >= 0 && c.b <= i < |s| ==> r == Cut(c.spans + [Span(c.b, i)], i + 1)
    ensures !(c.b >= 0 && c.b <= i < |s|) ==> r == c
  {
    if c.b >= 0 && i >= c.b && i < |s| then Cut(c.spans + [Span(c.b, i)], i + 1) else c
  }

  /** The first position from j on that holds d, or |s| when there is none. */
  function FindDelim(s: string, j: int, d: char): (r: int)
    requires 0 <= j
    ensures j <= r || (r == |s| && j > |s|)
    ensures r <= |s| || r == j
    ensures r < |s| ==> s[r] == d && forall k :: j <= k < r ==> s[k] != d
    ensures r >= |s| ==> forall k :: j <= k < |s| ==> s[k] != d
    decreases |s| - j
  {
    if j >= |s| then |s| else if s[j] == d then j else FindDelim(s, j + 1, d)
  }

  predicate Valid(s: string, cur: int, c: Cut) {
    0 <= cur <= |s| + 1 && -1 <= c.b <= cur
  }

  /**
   * One iteration of the character loop of tokenize, standing at cur.  None
   * when a quote is never closed (the source then reads past the text).
   */
  function Scan(s: string, cur: int, c: Cut, asWritten: bool): Option<seq<Span>>
    requires Valid(s, cur, c)
    decreases |s| + 2 - cur, 1
  {
    if cur >= |s| then Some(EndToken(s, c, cur - 1).spans)
    else if IsSpace(s[cur]) then Scan(s, cur + 1, EndToken(s, c, cur - 1).(b := -1), asWritten)
    else
      var c1 := if c.b < 0 then c.(b := cur) else c;
      if IsQuote(s[cur]) then
        match Quoted(s, cur, c1)
        case None => None
        case Some((next, c3)) =>
          if asWritten then After(s, next, c3, asWritten) else Scan(s, next, c3.(b := -1), asWritten)
      else After(s, cur, c1, asWritten)
  }

  /**
   * A quote at cur: the pending token is closed, the quoted text up to the
   * matching quote becomes one token without the quotes, and the loop goes on
   * just past the closing quote.  None when the quote is not closed.
   */
  function Quoted(s: string, cur: int, c: Cut): (r: Option<(int, Cut)>)
    requires 0 <= cur < |s| && 0 <= c.b <= cur
    ensures r.Some? ==> cur + 2 <= r.value.0 <= |s| && -1 <= r.value.1.b <= r.value.0
    ensures r.None? <==> FindDelim(s, cur + 1, s[cur]) >= |s|
    ensures r.Some? ==>
      var j := r.value.0 - 1;
      && s[j] == s[cur] && (forall k :: cur < k < j ==> s[k] != s[cur])
      && r.value.1.spans == c.spans + (if c.b < cur then [Span(c.b, cur - 1)] else [])
                                    + (if cur + 1 < j then [Span(cur + 1, j - 1)] else [])
      && r.value.1.b == (if cur + 1 < j then j else cur + 1)
  {
    var c2 := EndToken(s, c, cur - 1);
    var j := FindDelim(s, cur + 1, s[cur]);
    if j >= |s| then None
    else Some((j + 1, EndToken(s, c2.(b := c2.b + 1), j - 1)))
  }

  /** The checks the loop makes on a non-blank character (also the one after a closing quote). */
  function After(s: string, cur: int, c: Cut, asWritten: bool): Option<seq<Span>>
    requires 0 <= cur <= |s| && -1 <= c.b <= cur
    decreases |s| + 2 - cur, 0
  {
    var (next, c') := Advance(s, cur, c);
    Scan(s, next, c', asWritten)
  }

  /**
   * Where those checks leave the loop: `e-` after a digit is skipped over; an
   * operator closes the pending token and becomes a token of its own (two
   * characters for `>= <= <> == !=`); anything else just moves on.
   */
  function Advance(s: string, cur: int, c: Cut): (r: (int, Cut))
    requires 0 <= cur <= |s| && -1 <= c.b <= cur
    ensures cur + 1 <= r.0 <= |s| + 1 && -1 <= r.1.b <= r.0
    ensures r.0 == cur + 1 + (if PairStart(s, cur) then 1 else 0)
  {
    var ch := At(s, cur);
    if EPattern(s, cur) then (cur + 2, c)
    else if OpLen(s, cur) == 0 then (cur + 1, c)
    else
      var c2 := EndToken(s, c, cur - 1);
      (cur + OpLen(s, cur), EndToken(s, c2, cur + OpLen(s, cur) - 1))
  }

  /**
   * The token spans of a whole text, or None for an unterminated quote.  After
   * a closing quote the scan goes on afresh at the next character.
   */
  function Spans(s: string): Option<seq<Span>> {
    Scan(s, 0, Cut([], -1), false)
  }

  /**
   * The spans as tokenize computes them: after a closing quote the loop still
   * runs its checks on the next character and then steps over it, so that
   * character is never treated as a blank, and the pending token restarts at the
   * closing quote itself.
   */
  function SpansAsWritten(s: string): Option<seq<Span>> {
    Scan(s, 0, Cut([], -1), true)
  }

  /** An `e` or `E` right after a digit and right before a `-`: scientific notation. */
  predicate EPattern(s: string, k: int) {
    (At(s, k) == 'e' || At(s, k) == 'E') && At(s, k + 1) == '-' && IsDigit(At(s, k - 1))
  }

  /**
   * The length of the operator token that starts at k, or 0 when the
   * character there is not an operator: one of `+ * / ( ) -`, the two-character
   * `>= <= <> == !=`, or a lone `> < =`.
   */
  function OpLen(s: string, k: int): int {
    var ch := At(s, k);
    var nx := At(s, k + 1);
    if ch == '+' || ch == '*' || ch == '/' || ch == '(' || ch == ')' || ch == '-' then 1
    else if ch == '>' then (if nx == '=' then 2 else 1)
    else if ch == '<' then (if nx == '=' || nx == '>' then 2 else 1)
    else if ch == '=' then (if nx == '=' then 2 else 1)
    else if ch == '!' && nx == '=' then 2
    else 0
  }

  /** Position k starts a two-character unit: a two-character operator or `e-`. */
  predicate PairStart(s: string, k: int) {
    OpLen(s, k) == 2 || EPattern(s, k)
  }

  predicate Ordered(s: string, spans: seq<Span>) {
    (forall t :: 0 <= t < |spans| ==> 0 <= spans[t].lo <= spans[t].hi < |s|)
    && (forall t :: 0 < t < |spans| ==> spans[t - 1].hi < spans[t].lo)
  }

  /** The token nodes the classifier makes of the spans. */
  function TokensOf(s: string, spans: seq<Span>, parseInt: string -> Option<int>, parseFloat: string -> Option<real>): (r: seq<Node>)
    requires forall t :: 0 <= t < |spans| ==> 0 <= spans[t].lo <= spans[t].hi < |s|
    ensures |r| == |spans|
    ensures forall t :: 0 <= t < |spans| ==> r[t] == Recognize(s[spans[t].lo..spans[t].hi + 1], parseInt, parseFloat)
  {
    seq(|spans|, t requires 0 <= t < |spans| => Recognize(s[spans[t].lo..spans[t].hi + 1], parseInt, parseFloat))
  }

  /** The last positions of the spans: token_ends. */
  function Ends(spans: seq<Span>): (r: seq<int>)
    ensures |r| == |spans| && forall t :: 0 <= t < |spans| ==> r[t] == spans[t].hi
  {
    seq(|spans|, t requires 0 <= t < |spans| => spans[t].hi)
  }

  // ---------------------------------------------------------------------------
  // Every text: the tokens are non-empty, inside the text and in order.

  /** The spans so far are ordered and end before the pending token (or before cur). */
  predicate OrderInv(s: string, cur: int, c: Cut) {
    Valid(s, cur, c) && Ordered(s, c.spans)
    && (forall t :: 0 <= t < |c.spans| ==> c.spans[t].hi < (if c.b >= 0 then c.b else cur))
  }

  lemma EndTokenOrder(s: string, cur: int, c: Cut, i: int)
    requires Ordered(s, c.spans) && c.b <= cur
    requires forall t :: 0 <= t < |c.spans| ==> c.spans[t].hi < (if c.b >= 0 then c.b else cur)
    requires i >= cur - 1
    ensures Ordered(s, EndToken(s, c, i).spans)
    ensures var r := EndToken(s, c, i);
      (r.b <= i + 1 && r.b == c.b) || r.b == i + 1
    ensures var r := EndToken(s, c, i);
      forall t :: 0 <= t < |r.spans| ==> r.spans[t].hi < (if r.b >= 0 then r.b else cur)
  {
  }

  lemma {:induction false} ScanOrdered(s: string, cur: int, c: Cut, asWritten: bool)
    requires OrderInv(s, cur, c)
    ensures Scan(s, cur, c, asWritten).Some? ==> Ordered(s, Scan(s, cur, c, asWritten).value)
    decreases |s| + 2 - cur, 1
  {
    if cur >= |s| {
      EndTokenOrder(s, cur, c, cur - 1);
    } else if IsSpace(s[cur]) {
      EndTokenOrder(s, cur, c, cur - 1);
      ScanOrdered(s, cur + 1, EndToken(s, c, cur - 1).(b := -1), asWritten);
    } else {
      var c1 := if c.b < 0 then c.(b := cur) else c;
      if IsQuote(s[cur]) {
        QuotedOrder(s, cur, c1);
        match Quoted(s, cur, c1)
        case None =>
        case Some((next, c3)) =>
          if asWritten {
            AfterOrdered(s, next, c3, asWritten);
          } else {
            ScanOrdered(s, next, c3.(b := -1), asWritten);
          }
      } else {
        AfterOrdered(s, cur, c1, asWritten);
      }
    }
  }

  lemma QuotedOrder(s: string, cur: int, c: Cut)
    requires 0 <= cur < |s| && 0 <= c.b <= cur && OrderInv(s, cur, c)
    ensures Quoted(s, cur, c).Some? ==> OrderInv(s, Quoted(s, cur, c).value.0, Quoted(s, cur, c).value.1)
  {
    var c2 := EndToken(s, c, cur - 1);
    QuoteOpens(s, cur, c);
    var j := FindDelim(s, cur + 1, s[cur]);
    if j < |s| {
      var d := c2.(b := cur + 1);
      QuoteCloses(s, cur, d, j);
      assert Quoted(s, cur, c) == Some((j + 1, EndToken(s, d, j - 1)));
    }
  }

  /** The opening quote closes the pending token; the quoted one starts right after it. */
  lemma QuoteOpens(s: string, cur: int, c: Cut)
    requires 0 <= cur < |s| && 0 <= c.b <= cur && OrderInv(s, cur, c)
    ensures var c2 := EndToken(s, c, cur - 1);
      c2.b == cur && Ordered(s, c2.spans) && forall t :: 0 <= t < |c2.spans| ==> c2.spans[t].hi < cur
  {
    EndTokenOrder(s, cur, c, cur - 1);
  }

  /** The closing quote at j ends the quoted token, which lies before j. */
  lemma QuoteCloses(s: string, cur: int, d: Cut, j: int)
    requires 0 <= cur && d.b == cur + 1 && cur + 1 <= j < |s|
    requires Ordered(s, d.spans) && forall t :: 0 <= t < |d.spans| ==> d.spans[t].hi < cur
    ensures OrderInv(s, j + 1, EndToken(s, d, j - 1))
  {
    var r := EndToken(s, d, j - 1);
    if cur + 1 <= j - 1 {
      assert r.spans == d.spans + [Span(cur + 1, j - 1)] && r.b == j;
    } else {
      assert r == d;
    }
  }

  lemma {:induction false} AfterOrdered(s: string, cur: int, c: Cut, asWritten: bool)
    requires 0 <= cur <= |s| && OrderInv(s, cur, c)
    ensures After(s, cur, c, asWritten).Some? ==> Ordered(s, After(s, cur, c, asWritten).value)
    decreases |s| + 2 - cur, 0
  {
    var (next, c') := Advance(s, cur, c);
    AdvanceOrder(s, cur, c);
    ScanOrdered(s, next, c', asWritten);
  }

  /** The checks on one character keep the spans ordered. */
  lemma AdvanceOrder(s: string, cur: int, c: Cut)
    requires 0 <= cur <= |s| && OrderInv(s, cur, c)
    ensures OrderInv(s, Advance(s, cur, c).0, Advance(s, cur, c).1)
  {
    var r := Advance(s, cur, c);
    if EPattern(s, cur) || OpLen(s, cur) == 0 {
      assert r.1 == c;
      MoveOrder(s, cur, c, r.0);
    } else {
      var len := OpLen(s, cur);
      assert r == (cur + len, EndToken(s, EndToken(s, c, cur - 1), cur + len - 1));
      OperatorCutOrder(s, cur, c, len);
    }
  }

  lemma MoveOrder(s: string, cur: int, c: Cut, next: int)
    requires OrderInv(s, cur, c) && cur <= next <= |s| + 1
    ensures OrderInv(s, next, c)
  {
  }

  /** Closing the pending token and then a token of len characters at cur keeps the order. */
  lemma OperatorCutOrder(s: string, cur: int, c: Cut, len: int)
    requires 0 <= cur && OrderInv(s, cur, c) && 1 <= len && cur + len <= |s| + 1
    ensures OrderInv(s, cur + len, EndToken(s, EndToken(s, c, cur - 1), cur + len - 1))
  {
    var c2 := EndToken(s, c, cur - 1);
    EndTokenOrder(s, cur, c, cur - 1);
    EndTokenOrder(s, cur, c2, cur + len - 1);
  }

  /** Tokens are non-empty ranges of the text, left to right and not overlapping. */
  lemma SpansOrdered(s: string)
    ensures Spans(s).Some? ==> Ordered(s, Spans(s).value)
    ensures SpansAsWritten(s).Some? ==> Ordered(s, SpansAsWritten(s).value)
  {
    ScanOrdered(s, 0, Cut([], -1), false);
    ScanOrdered(s, 0, Cut([], -1), true);
  }

  /** Without quotes the text always tokenizes. */
  lemma {:induction false} ScanQuoteFree(s: string, cur: int, c: Cut, asWritten: bool)
    requires QuoteFree(s) && Valid(s, cur, c)
    ensures Scan(s, cur, c, asWritten).Some?
    decreases |s| + 2 - cur, 1
  {
    if cur < |s| {
      if IsSpace(s[cur]) {
        ScanQuoteFree(s, cur + 1, EndToken(s, c, cur - 1).(b := -1), asWritten);
      } else {
        AfterQuoteFree(s, cur, if c.b < 0 then c.(b := cur) else c, asWritten);
      }
    }
  }

  lemma {:induction false} AfterQuoteFree(s: string, cur: int, c: Cut, asWritten: bool)
    requires QuoteFree(s) && 0 <= cur <= |s| && -1 <= c.b <= cur
    ensures After(s, cur, c, asWritten).Some?
    decreases |s| + 2 - cur, 0
  {
    var (next, c') := Advance(s, cur, c);
    ScanQuoteFree(s, next, c', asWritten);
  }

  // ---------------------------------------------------------------------------
  // Texts without quotes: what the tokens are.

  predicate Covered(spans: seq<Span>, p: int) {
    exists sp :: sp in spans && sp.lo <= p <= sp.hi
  }

  /** No token holds a blank. */
  predicate NoBlank(s: string, spans: seq<Span>) {
    forall sp, p :: sp in spans && sp.lo <= p <= sp.hi && 0 <= p < |s| ==> !IsSpace(s[p])
  }

  /**
   * Every operator before cur is a token of its own, wherever the scan stands
   * on it, which is certain when the character before does not start a pair.
   */
  predicate OpsDone(s: string, cur: int, spans: seq<Span>) {
    forall k :: 0 <= k < cur && (k == 0 || !PairStart(s, k - 1)) && OpLen(s, k) > 0 ==>
      Span(k, k + OpLen(s, k) - 1) in spans
  }

  /** No token boundary falls inside an `e-` before cur. */
  predicate NoSplit(s: string, cur: int, c: Cut) {
    forall k :: 0 <= k && k + 2 <= cur && EPattern(s, k) ==>
      c.b != k + 1 && forall sp :: sp in c.spans ==> sp.hi != k && sp.lo != k + 1
  }

  function Lim(cur: int, c: Cut): int {
    if c.b >= 0 then c.b else cur
  }

  /** The pending token holds no blank. */
  predicate Pending(s: string, cur: int, c: Cut) {
    0 <= cur <= |s| && (c.b >= 0 ==> forall p :: c.b <= p < cur ==> !IsSpace(s[p]))
  }

  /** Every non-blank character before lim is in some token. */
  predicate CoveredUpTo(s: string, lim: int, spans: seq<Span>) {
    0 <= lim <= |s| && forall p :: 0 <= p < lim && !IsSpace(s[p]) ==> Covered(spans, p)
  }

  predicate CoverInv(s: string, cur: int, c: Cut) {
    OrderInv(s, cur, c) && cur <= |s| && (cur >= 1 ==> !EPattern(s, cur - 1))
    && NoBlank(s, c.spans) && Pending(s, cur, c) && CoveredUpTo(s, Lim(cur, c), c.spans)
    && OpsDone(s, cur, c.spans) && NoSplit(s, cur, c)
  }

  /**
   * The tokens of a text: no blank inside a token, every other character in
   * some token, every operator alone in its token, `e-` never split.
   */
  predicate TokenRules(s: string, spans: seq<Span>) {
    NoBlank(s, spans) && CoveredUpTo(s, |s|, spans) && OpsDone(s, |s|, spans)
    && (forall k :: 0 <= k < |s| && EPattern(s, k) ==> forall sp :: sp in spans ==> sp.hi != k && sp.lo != k + 1)
  }

  /** OpsDone carries over to a longer list that handles the operators in [cur, next). */
  lemma OpsKeep(s: string, cur: int, spans: seq<Span>, next: int, spans': seq<Span>)
    requires OpsDone(s, cur, spans) && cur <= next
    requires forall sp :: sp in spans ==> sp in spans'
    requires forall k :: cur <= k < next && (k == 0 || !PairStart(s, k - 1)) && OpLen(s, k) > 0 ==>
      Span(k, k + OpLen(s, k) - 1) in spans'
    ensures OpsDone(s, next, spans')
  {
  }

  /** NoSplit carries over when the new tokens and the new start lie at or past the pending one. */
  lemma NoSplitKeep(s: string, cur: int, c: Cut, next: int, c': Cut)
    requires NoSplit(s, cur, c) && cur <= next && c.b <= cur
    requires forall sp :: sp in c'.spans ==> sp in c.spans || (sp.hi >= cur - 1 && (sp.lo == c.b || sp.lo >= cur))
    requires c'.b == c.b || c'.b < 0 || c'.b >= cur
    requires forall k :: 0 <= k && cur < k + 2 <= next && EPattern(s, k) ==>
      c'.b != k + 1 && forall sp :: sp in c'.spans ==> sp.hi != k && sp.lo != k + 1
    ensures NoSplit(s, next, c')
  {
  }

  /** Closing the pending token before cur leaves everything before cur covered. */
  lemma CloseCovers(s: string, cur: int, c: Cut)
    requires 0 <= cur <= |s| && -1 <= c.b <= cur
    requires NoBlank(s, c.spans) && Pending(s, cur, c) && CoveredUpTo(s, Lim(cur, c), c.spans)
    ensures NoBlank(s, EndToken(s, c, cur - 1).spans)
    ensures CoveredUpTo(s, cur, EndToken(s, c, cur - 1).spans)
    ensures forall sp :: sp in c.spans ==> sp in EndToken(s, c, cur - 1).spans
  {
    var r := EndToken(s, c, cur - 1);
    if c.b >= 0 && c.b <= cur - 1 {
      var sp := Span(c.b, cur - 1);
      assert r.spans == c.spans + [sp];
      forall p | 0 <= p < cur && !IsSpace(s[p])
        ensures Covered(r.spans, p)
      {
        if p >= c.b {
          assert sp in r.spans && sp.lo <= p <= sp.hi;
        } else {
          assert Covered(c.spans, p);
          var w :| w in c.spans && w.lo <= p <= w.hi;
          assert w in r.spans;
        }
      }
    } else {
      assert r == c && Lim(cur, c) == cur;
    }
  }

  /** A blank at cur needs no token. */
  lemma BlankCovered(s: string, cur: int, spans: seq<Span>)
    requires CoveredUpTo(s, cur, spans) && cur < |s| && IsSpace(s[cur])
    ensures CoveredUpTo(s, cur + 1, spans)
  {
  }

  /** An operator token [cur, cur + len - 1] covers its own characters. */
  lemma OpCovers(s: string, cur: int, len: int, c: Cut)
    requires 1 <= len && 0 <= cur && cur + len <= |s| && c.b == cur
    requires forall p :: cur <= p < cur + len ==> !IsSpace(s[p])
    requires NoBlank(s, c.spans) && CoveredUpTo(s, cur, c.spans)
    ensures NoBlank(s, EndToken(s, c, cur + len - 1).spans)
    ensures CoveredUpTo(s, cur + len, EndToken(s, c, cur + len - 1).spans)
  {
    var op := Span(cur, cur + len - 1);
    var r := EndToken(s, c, cur + len - 1);
    assert r.spans == c.spans + [op];
    forall p | 0 <= p < cur + len && !IsSpace(s[p])
      ensures Covered(r.spans, p)
    {
      if p >= cur {
        assert op in r.spans && op.lo <= p <= op.hi;
      } else {
        assert Covered(c.spans, p);
        var w :| w in c.spans && w.lo <= p <= w.hi;
        assert w in r.spans;
      }
    }
  }

  lemma CoverFinal(s: string, c: Cut)
    requires CoverInv(s, |s|, c)
    ensures TokenRules(s, EndToken(s, c, |s| - 1).spans)
  {
    var r := EndToken(s, c, |s| - 1);
    CloseCovers(s, |s|, c);
    OpsKeep(s, |s|, c.spans, |s|, r.spans);
    NoSplitKeep(s, |s|, c, |s|, r.(b := -1));
  }

  // The step at a blank, one part of CoverInv at a time.

  lemma SpaceOrder(s: string, cur: int, c: Cut)
    requires CoverInv(s, cur, c) && cur < |s| && IsSpace(s[cur])
    ensures OrderInv(s, cur + 1, EndToken(s, c, cur - 1).(b := -1))
  {
    EndTokenOrder(s, cur, c, cur - 1);
  }

  lemma SpaceCovers(s: string, cur: int, c: Cut)
    requires CoverInv(s, cur, c) && cur < |s| && IsSpace(s[cur])
    ensures NoBlank(s, EndToken(s, c, cur - 1).spans)
    ensures CoveredUpTo(s, cur + 1, EndToken(s, c, cur - 1).spans)
  {
    CloseCovers(s, cur, c);
    BlankCovered(s, cur, EndToken(s, c, cur - 1).spans);
  }

  lemma SpaceOps(s: string, cur: int, c: Cut)
    requires CoverInv(s, cur, c) && cur < |s| && IsSpace(s[cur])
    ensures OpsDone(s, cur + 1, EndToken(s, c, cur - 1).spans)
  {
    EndTokenKeeps(s, c, cur - 1);
    assert OpLen(s, cur) == 0;
    OpsKeep(s, cur, c.spans, cur + 1, EndToken(s, c, cur - 1).spans);
  }

  /** end_token only ever adds a token. */
  lemma EndTokenKeeps(s: string, c: Cut, i: int)
    ensures forall sp :: sp in c.spans ==> sp in EndToken(s, c, i).spans
  {
  }

  lemma SpaceNoSplit(s: string, cur: int, c: Cut)
    requires CoverInv(s, cur, c) && cur < |s| && IsSpace(s[cur])
    ensures NoSplit(s, cur + 1, EndToken(s, c, cur - 1).(b := -1))
  {
    assert !EPattern(s, cur - 1);
    NoSplitKeep(s, cur, c, cur + 1, EndToken(s, c, cur - 1).(b := -1));
  }

  lemma CoverSpace(s: string, cur: int, c: Cut)
    requires CoverInv(s, cur, c) && cur < |s| && IsSpace(s[cur])
    ensures CoverInv(s, cur + 1, EndToken(s, c, cur - 1).(b := -1))
  {
    SpaceOrder(s, cur, c);
    SpaceCovers(s, cur, c);
    SpaceOps(s, cur, c);
    SpaceNoSplit(s, cur, c);
  }

  lemma CoverOpen(s: string, cur: int, c: Cut)
    requires CoverInv(s, cur, c) && cur < |s| && !IsSpace(s[cur])
    ensures CoverInv(s, cur, if c.b < 0 then c.(b := cur) else c)
  {
  }

  /** The scan skips an `e-`: the pending token simply grows by two characters. */
  lemma CoverSkip(s: string, cur: int, c: Cut)
    requires CoverInv(s, cur, c) && cur < |s| && !IsSpace(s[cur]) && c.b >= 0 && EPattern(s, cur)
    ensures CoverInv(s, cur + 2, c)
  {
    assert s[cur + 1] == '-' && OpLen(s, cur) == 0;
    OpsKeep(s, cur, c.spans, cur + 2, c.spans);
    NoSplitKeep(s, cur, c, cur + 2, c);
  }

  /** Any other non-operator character: the pending token grows by one. */
  lemma CoverPlain(s: string, cur: int, c: Cut)
    requires CoverInv(s, cur, c) && cur < |s| && !IsSpace(s[cur]) && c.b >= 0
    requires !EPattern(s, cur) && OpLen(s, cur) == 0
    ensures CoverInv(s, cur + 1, c)
  {
    OpsKeep(s, cur, c.spans, cur + 1, c.spans);
    assert !EPattern(s, cur - 1);
    NoSplitKeep(s, cur, c, cur + 1, c);
  }

  // The step at an operator, one part of CoverInv at a time.

  /** An operator closes the pending token; the next one starts at the operator. */
  predicate AtOperator(s: string, cur: int, c: Cut) {
    CoverInv(s, cur, c) && cur < |s| && !IsSpace(s[cur]) && c.b >= 0
    && !EPattern(s, cur) && OpLen(s, cur) > 0
  }

  lemma OperatorShape(s: string, cur: int, c: Cut)
    requires AtOperator(s, cur, c)
    ensures var c2 := EndToken(s, c, cur - 1);
      c2.b == cur
      && Advance(s, cur, c).0 == cur + OpLen(s, cur)
      && Advance(s, cur, c).1 == Cut(c2.spans + [Span(cur, cur + OpLen(s, cur) - 1)], cur + OpLen(s, cur))
      && cur + OpLen(s, cur) <= |s|
  {
  }

  lemma OperatorOrder(s: string, cur: int, c: Cut)
    requires AtOperator(s, cur, c)
    ensures OrderInv(s, Advance(s, cur, c).0, Advance(s, cur, c).1)
  {
    OperatorShape(s, cur, c);
    var c2 := EndToken(s, c, cur - 1);
    EndTokenOrder(s, cur, c, cur - 1);
    EndTokenOrder(s, cur, c2, cur + OpLen(s, cur) - 1);
  }

  lemma OperatorCovers(s: string, cur: int, c: Cut)
    requires AtOperator(s, cur, c)
    ensures NoBlank(s, Advance(s, cur, c).1.spans)
    ensures CoveredUpTo(s, Advance(s, cur, c).0, Advance(s, cur, c).1.spans)
  {
    OperatorShape(s, cur, c);
    var len := OpLen(s, cur);
    CloseCovers(s, cur, c);
    assert len == 2 ==> !IsSpace(s[cur + 1]);
    OpCovers(s, cur, len, EndToken(s, c, cur - 1));
  }

  /** Appending the operator at cur, with nothing to handle at cur + 1 when it is a pair. */
  lemma OpsAppend(s: string, cur: int, spans: seq<Span>, spans': seq<Span>)
    requires OpsDone(s, cur, spans) && OpLen(s, cur) > 0
    requires forall sp :: sp in spans ==> sp in spans'
    requires Span(cur, cur + OpLen(s, cur) - 1) in spans'
    ensures OpsDone(s, cur + OpLen(s, cur), spans')
  {
    var len := OpLen(s, cur);
    forall k | cur <= k < cur + len && (k == 0 || !PairStart(s, k - 1)) && OpLen(s, k) > 0
      ensures Span(k, k + OpLen(s, k) - 1) in spans'
    {
      if k > cur {
        assert k == cur + 1 && len == 2 && PairStart(s, cur);
      }
    }
    OpsKeep(s, cur, spans, cur + len, spans');
  }

  lemma OperatorOps(s: string, cur: int, c: Cut)
    requires AtOperator(s, cur, c)
    ensures OpsDone(s, Advance(s, cur, c).0, Advance(s, cur, c).1.spans)
  {
    OperatorShape(s, cur, c);
    var c2 := EndToken(s, c, cur - 1);
    var c' := Advance(s, cur, c).1;
    assert forall sp :: sp in c.spans ==> sp in c2.spans;
    assert c'.spans[|c2.spans|] == Span(cur, cur + OpLen(s, cur) - 1);
    OpsAppend(s, cur, c.spans, c'.spans);
  }

  lemma OperatorNoSplit(s: string, cur: int, c: Cut)
    requires AtOperator(s, cur, c)
    ensures NoSplit(s, Advance(s, cur, c).0, Advance(s, cur, c).1)
    ensures !EPattern(s, Advance(s, cur, c).0 - 1)
  {
    OperatorShape(s, cur, c);
    var len := OpLen(s, cur);
    assert !EPattern(s, cur - 1);
    assert len == 2 ==> !EPattern(s, cur + 1);
    NoSplitKeep(s, cur, c, cur + len, Advance(s, cur, c).1);
  }

  /** An operator: the pending token is closed and the operator is a token of its own. */
  lemma CoverOperator(s: string, cur: int, c: Cut)
    requires AtOperator(s, cur, c)
    ensures CoverInv(s, Advance(s, cur, c).0, Advance(s, cur, c).1)
  {
    OperatorShape(s, cur, c);
    OperatorOrder(s, cur, c);
    OperatorCovers(s, cur, c);
    OperatorOps(s, cur, c);
    OperatorNoSplit(s, cur, c);
    var r := Advance(s, cur, c);
    CoverIntro(s, r.0, r.1);
  }

  /** CoverInv from its parts, for a pending token that starts where the scan stands. */
  lemma CoverIntro(s: string, cur: int, c: Cut)
    requires OrderInv(s, cur, c) && cur <= |s| && c.b == cur && (cur >= 1 ==> !EPattern(s, cur - 1))
    requires NoBlank(s, c.spans) && CoveredUpTo(s, cur, c.spans)
    requires OpsDone(s, cur, c.spans) && NoSplit(s, cur, c)
    ensures CoverInv(s, cur, c)
  {
  }

  lemma CoverAdvance(s: string, cur: int, c: Cut)
    requires CoverInv(s, cur, c) && cur < |s| && !IsSpace(s[cur]) && c.b >= 0
    ensures CoverInv(s, Advance(s, cur, c).0, Advance(s, cur, c).1)
  {
    if EPattern(s, cur) {
      CoverSkip(s, cur, c);
    } else if OpLen(s, cur) == 0 {
      CoverPlain(s, cur, c);
    } else {
      CoverOperator(s, cur, c);
    }
  }

  lemma {:induction false} ScanCover(s: string, cur: int, c: Cut, asWritten: bool)
    requires QuoteFree(s) && CoverInv(s, cur, c)
    ensures Scan(s, cur, c, asWritten).Some? ==> TokenRules(s, Scan(s, cur, c, asWritten).value)
    decreases |s| + 2 - cur, 1
  {
    if cur >= |s| {
      CoverFinal(s, c);
    } else if IsSpace(s[cur]) {
      CoverSpace(s, cur, c);
      ScanCover(s, cur + 1, EndToken(s, c, cur - 1).(b := -1), asWritten);
    } else {
      var c1 := if c.b < 0 then c.(b := cur) else c;
      assert !IsQuote(s[cur]);
      CoverOpen(s, cur, c);
      AfterCover(s, cur, c1, asWritten);
    }
  }

  lemma {:induction false} AfterCover(s: string, cur: int, c: Cut, asWritten: bool)
    requires QuoteFree(s) && CoverInv(s, cur, c) && cur < |s| && !IsSpace(s[cur]) && c.b >= 0
    ensures After(s, cur, c, asWritten).Some? ==> TokenRules(s, After(s, cur, c, asWritten).value)
    decreases |s| + 2 - cur, 0
  {
    CoverAdvance(s, cur, c);
    var (next, c') := Advance(s, cur, c);
    ScanCover(s, next, c', asWritten);
  }

  /** Splitting a text without quotes: it always succeeds and obeys the token rules. */
  lemma QuoteFreeTokens(s: string)
    requires QuoteFree(s)
    ensures Spans(s).Some?
    ensures Ordered(s, Spans(s).value) && TokenRules(s, Spans(s).value)
  {
    ScanQuoteFree(s, 0, Cut([], -1), false);
    SpansOrdered(s);
    ScanCover(s, 0, Cut([], -1), false);
  }

  // ---------------------------------------------------------------------------
  // The character after a closing quote.

  /**
   * In `"A" B` the blank after the closing quote is stepped over, so the
   * closing quote, the blank and B make one token; with the scan going on
   * afresh after the quote, the tokens are A and B.
   */
  lemma QuoteSwallowsNextChar()
    ensures SpansAsWritten("\"A\" B") == Some([Span(1, 1), Span(2, 4)])
    ensures Spans("\"A\" B") == Some([Span(1, 1), Span(4, 4)])
  {
    var s := "\"A\" B";
    var c3 := QuoteAB(s);
    QuoteABAsWritten(s, c3);
    QuoteABCorrected(s, c3);
  }

  /** The quoted A of `"A" B` is the first token; the scan goes on at the blank. */
  lemma QuoteAB(s: string) returns (c3: Cut)
    requires s == "\"A\" B"
    ensures |s| == 5 && s[0] == '"' && s[3] == ' ' && s[4] == 'B'
    ensures c3 == Cut([Span(1, 1)], 2) && Quoted(s, 0, Cut([], 0)) == Some((3, c3))
  {
    c3 := Cut([Span(1, 1)], 2);
    assert |s| == 5 && s[0] == '"' && s[1] == 'A' && s[2] == '"' && s[3] == ' ' && s[4] == 'B';
    assert FindDelim(s, 2, '"') == 2;
    assert FindDelim(s, 1, '"') == 2;
    assert EndToken(s, Cut([], 0), -1) == Cut([], 0);
    assert EndToken(s, Cut([], 1), 1) == c3;
  }

  lemma QuoteABAsWritten(s: string, c3: Cut)
    requires |s| == 5 && s[0] == '"' && s[3] == ' ' && s[4] == 'B'
    requires c3 == Cut([Span(1, 1)], 2) && Quoted(s, 0, Cut([], 0)) == Some((3, c3))
    ensures Scan(s, 0, Cut([], -1), true) == Some([Span(1, 1), Span(2, 4)])
  {
    assert EndToken(s, c3, 4) == Cut([Span(1, 1), Span(2, 4)], 5);
    assert Scan(s, 5, c3, true) == Some([Span(1, 1), Span(2, 4)]);
    assert After(s, 4, c3, true) == Scan(s, 5, c3, true);
    assert Scan(s, 4, c3, true) == After(s, 4, c3, true);
    assert After(s, 3, c3, true) == Scan(s, 4, c3, true);
  }

  lemma QuoteABCorrected(s: string, c3: Cut)
    requires |s| == 5 && s[0] == '"' && s[3] == ' ' && s[4] == 'B'
    requires c3 == Cut([Span(1, 1)], 2) && Quoted(s, 0, Cut([], 0)) == Some((3, c3))
    ensures Scan(s, 0, Cut([], -1), false) == Some([Span(1, 1), Span(4, 4)])
  {
    var d := Cut([Span(1, 1)], -1);
    var d4 := Cut([Span(1, 1)], 4);
    assert EndToken(s, d4, 4) == Cut([Span(1, 1), Span(4, 4)], 5);
    assert Scan(s, 5, d4, false) == Some([Span(1, 1), Span(4, 4)]);
    assert After(s, 4, d4, false) == Scan(s, 5, d4, false);
    assert Scan(s, 4, d, false) == After(s, 4, d4, false);
    assert Scan(s, 3, d, false) == Scan(s, 4, d, false);
  }
}
