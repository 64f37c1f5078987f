// The filter grammar, that the parser accepts exactly it, and that printing and
// compiling are inverse.
module DisplayFilterTheorems {
  import opened Wrappers
  import opened DisplayFilter

  // ------------------------------------------------------------ the grammar

  /** comparison: a protocol word, or field operator value, where the value is any token. */
  ghost predicate ComparisonForm(ts: seq<Token>, e: Expr) {
    || (|ts| == 1 && ts[0] in PROTOCOL_WORDS && e == Comparison("protocol", "==", ts[0]))
    || (|ts| == 3 && ts[0] !in PROTOCOL_WORDS && ts[0] in FIELDS && ts[1] in OPERATORS
        && e == Comparison(ts[0], ts[1], Unquote(ts[2])))
  }

  /** primary: "(" or-expression ")" | comparison. */
  ghost predicate PrimaryForm(ts: seq<Token>, e: Expr)
    decreases |ts|, 0
  {
    || (|ts| >= 2 && ts[0] == "(" && ts[|ts| - 1] == ")" && OrForm(ts[1..|ts| - 1], e))
    || ComparisonForm(ts, e)
  }

  /** not-expression: "not" not-expression | primary. */
  ghost predicate NotForm(ts: seq<Token>, e: Expr)
    decreases |ts|, 1
  {
    || (ts != [] && ts[0] == "not" && e.Not? && NotForm(ts[1..], e.node))
    || PrimaryForm(ts, e)
  }

  /** and-expression: and-expression "and" not-expression | not-expression. */
  ghost predicate AndForm(ts: seq<Token>, e: Expr)
    decreases |ts|, 2
  {
    || NotForm(ts, e)
    || (e.And? && exists k :: 0 <= k < |ts| && AndSplit(ts, e, k))
  }

  ghost predicate AndSplit(ts: seq<Token>, e: Expr, k: nat)
    requires k < |ts| && e.And?
    decreases |ts|, 0
  {
    ts[k] == "and" && AndForm(ts[..k], e.left) && NotForm(ts[k + 1..], e.right)
  }

  /** or-expression: or-expression "or" and-expression | and-expression. */
  ghost predicate OrForm(ts: seq<Token>, e: Expr)
    decreases |ts|, 3
  {
    || AndForm(ts, e)
    || (e.Or? && exists k :: 0 <= k < |ts| && OrSplit(ts, e, k))
  }

  ghost predicate OrSplit(ts: seq<Token>, e: Expr, k: nat)
    requires k < |ts| && e.Or?
    decreases |ts|, 0
  {
    ts[k] == "or" && OrForm(ts[..k], e.left) && AndForm(ts[k + 1..], e.right)
  }

  // ------------------------------------------------------------ what the parser reads, the grammar derives

  lemma {:induction false} PrimarySound(ts: seq<Token>, pos: nat)
    requires Primary(ts, pos).Ok?
    ensures var (e, p) := Primary(ts, pos).value; PrimaryForm(ts[pos..p], e)
    decreases |ts| - pos, 1
  {
    var (e, p) := Primary(ts, pos).value;
    if ts[pos] == "(" {
      OrSound(ts, pos + 1);
      assert ts[pos..p][1..p - pos - 1] == ts[pos + 1..p - 1];
    }
  }

  lemma {:induction false} NotSound(ts: seq<Token>, pos: nat)
    requires NotExpr(ts, pos).Ok?
    ensures var (e, p) := NotExpr(ts, pos).value; NotForm(ts[pos..p], e)
    decreases |ts| - pos, 2
  {
    var (e, p) := NotExpr(ts, pos).value;
    if pos < |ts| && ts[pos] == "not" {
      NotSound(ts, pos + 1);
      assert ts[pos..p][1..] == ts[pos + 1..p];
    } else {
      PrimarySound(ts, pos);
    }
  }

  lemma {:induction false} AndLoopSound(node: Expr, ts: seq<Token>, start: nat, pos: nat)
    requires start <= pos <= |ts| && AndForm(ts[start..pos], node) && AndLoop(node, ts, pos).Ok?
    ensures var (e, p) := AndLoop(node, ts, pos).value; AndForm(ts[start..p], e)
    decreases |ts| - pos, 0
  {
    if pos < |ts| && ts[pos] == "and" {
      NotSound(ts, pos + 1);
      var (right, p) := NotExpr(ts, pos + 1).value;
      var span, k := ts[start..p], pos - start;
      assert span[..k] == ts[start..pos] && span[k + 1..] == ts[pos + 1..p] && span[k] == "and";
      assert AndSplit(span, And(node, right), k);
      AndLoopSound(And(node, right), ts, start, p);
    }
  }

  lemma {:induction false} AndSound(ts: seq<Token>, pos: nat)
    requires AndExpr(ts, pos).Ok?
    ensures var (e, p) := AndExpr(ts, pos).value; AndForm(ts[pos..p], e)
    decreases |ts| - pos, 3
  {
    NotSound(ts, pos);
    var (node, p) := NotExpr(ts, pos).value;
    AndLoopSound(node, ts, pos, p);
  }

  lemma {:induction false} OrLoopSound(node: Expr, ts: seq<Token>, start: nat, pos: nat)
    requires start <= pos <= |ts| && OrForm(ts[start..pos], node) && OrLoop(node, ts, pos).Ok?
    ensures var (e, p) := OrLoop(node, ts, pos).value; OrForm(ts[start..p], e)
    decreases |ts| - pos, 0
  {
    if pos < |ts| && ts[pos] == "or" {
      AndSound(ts, pos + 1);
      var (right, p) := AndExpr(ts, pos + 1).value;
      var span, k := ts[start..p], pos - start;
      assert span[..k] == ts[start..pos] && span[k + 1..] == ts[pos + 1..p] && span[k] == "or";
      assert OrSplit(span, Or(node, right), k);
      OrLoopSound(Or(node, right), ts, start, p);
    }
  }

  lemma {:induction false} OrSound(ts: seq<Token>, pos: nat)
    requires OrExpr(ts, pos).Ok?
    ensures var (e, p) := OrExpr(ts, pos).value; OrForm(ts[pos..p], e)
    decreases |ts| - pos, 4
  {
    AndSound(ts, pos);
    var (node, p) := AndExpr(ts, pos).value;
    OrLoopSound(node, ts, pos, p);
  }

  // ------------------------------------------------------------ what the grammar derives, the parser reads

  lemma {:induction false} PrimaryComplete(ts: seq<Token>, pos: nat, q: nat, e: Expr)
    requires pos <= q <= |ts| && PrimaryForm(ts[pos..q], e)
    ensures Primary(ts, pos) == Ok((e, q)) && pos < q && ts[pos] != "not"
    decreases q - pos, 0
  {
    var span := ts[pos..q];
    NotAField();
    if ComparisonForm(span, e) {
      assert span[0] == ts[pos];
      if |span| == 3 {
        assert span[1] == ts[pos + 1] && span[2] == ts[pos + 2];
      }
    } else {
      assert span[0] == ts[pos] && span[|span| - 1] == ts[q - 1];
      InnerSlice(ts, pos, q);
      OrComplete(ts, pos + 1, q - 1, e);
    }
  }

  lemma InnerSlice(ts: seq<Token>, pos: nat, q: nat)
    requires pos + 2 <= q <= |ts|
    ensures ts[pos..q][1..q - pos - 1] == ts[pos + 1..q - 1]
  {
    var a, b := ts[pos..q][1..q - pos - 1], ts[pos + 1..q - 1];
    forall k | 0 <= k < |a| ensures a[k] == b[k] {
      assert a[k] == ts[pos..q][k + 1] == ts[pos + 1 + k];
    }
  }

  lemma NotAField()
    ensures "(" !in PROTOCOL_WORDS && "(" !in FIELDS && "not" !in PROTOCOL_WORDS && "not" !in FIELDS && "(" != "not"
  {
    assert |"("| == 1 && "not"[1] == 'o' && "not"[0] == 'n';
  }

  lemma {:induction false} NotComplete(ts: seq<Token>, pos: nat, q: nat, e: Expr)
    requires pos <= q <= |ts| && NotForm(ts[pos..q], e)
    ensures NotExpr(ts, pos) == Ok((e, q)) && pos < q
    decreases q - pos, 1
  {
    var span := ts[pos..q];
    if PrimaryForm(span, e) {
      PrimaryComplete(ts, pos, q, e);
    } else {
      assert span[0] == ts[pos] && span[1..] == ts[pos + 1..q];
      NotComplete(ts, pos + 1, q, e.node);
    }
  }

  lemma SpanParts(ts: seq<Token>, pos: nat, q: nat, k: nat)
    requires pos <= q <= |ts| && k < q - pos
    ensures var span := ts[pos..q];
            span[..k] == ts[pos..pos + k] && span[k + 1..] == ts[pos + k + 1..q] && span[k] == ts[pos + k]
  {
  }

  /** Reading an and-expression reaches the loop with its value in hand, whatever follows. */
  lemma {:induction false} AndComplete(ts: seq<Token>, pos: nat, q: nat, e: Expr)
    requires pos <= q <= |ts| && AndForm(ts[pos..q], e)
    ensures AndExpr(ts, pos) == AndLoop(e, ts, q) && pos < q
    decreases q - pos, 2
  {
    var span := ts[pos..q];
    if NotForm(span, e) {
      NotComplete(ts, pos, q, e);
    } else {
      var k :| 0 <= k < |span| && AndSplit(span, e, k);
      SpanParts(ts, pos, q, k);
      AndComplete(ts, pos, pos + k, e.left);
      NotComplete(ts, pos + k + 1, q, e.right);
    }
  }

  /** Reading an or-expression reaches its loop with its value in hand, unless "and" follows. */
  lemma {:induction false} OrComplete(ts: seq<Token>, pos: nat, q: nat, e: Expr)
    requires pos <= q <= |ts| && OrForm(ts[pos..q], e) && (q < |ts| ==> ts[q] != "and")
    ensures OrExpr(ts, pos) == OrLoop(e, ts, q) && pos < q
    decreases q - pos, 3
  {
    var span := ts[pos..q];
    if AndForm(span, e) {
      AndComplete(ts, pos, q, e);
    } else {
      var k :| 0 <= k < |span| && OrSplit(span, e, k);
      assert span[..k] == ts[pos..pos + k] && span[k + 1..] == ts[pos + k + 1..q] && span[k] == ts[pos + k];
      OrComplete(ts, pos, pos + k, e.left);
      AndComplete(ts, pos + k + 1, q, e.right);
    }
  }

  /** The parser accepts exactly the token lists the grammar derives, and consumes all of them. */
  lemma ParserIsTheGrammar(ts: seq<Token>, e: Expr)
    ensures Parse(ts) == Ok(e) <==> OrForm(ts, e)
  {
    assert ts[0..|ts|] == ts;
    if OrForm(ts, e) {
      OrComplete(ts, 0, |ts|, e);
    }
    if Parse(ts) == Ok(e) {
      OrSound(ts, 0);
    }
  }

  // ------------------------------------------------------------ printing

  /** A value that one of the two quotes can enclose. */
  predicate Quotable(v: string) { '"' !in v || '\'' !in v }

  /** The expressions that filters denote. */
  predicate WellFormed(e: Expr) {
    match e
    case Comparison(f, op, v) => f in FIELDS && op in OPERATORS && Quotable(v)
    case And(l, r) => WellFormed(l) && WellFormed(r)
    case Or(l, r) => WellFormed(l) && WellFormed(r)
    case Not(n) => WellFormed(n)
  }

  function Quoted(v: string): Token {
    if '"' !in v then "\"" + v + "\"" else "'" + v + "'"
  }

  /** The tokens of e without parentheses around it. */
  function Bare(e: Expr): seq<Token>
    decreases e, 0
  {
    match e
    case Comparison(f, op, v) => [f, op, Quoted(v)]
    case Or(l, r) => InOr(l) + ["or"] + InAnd(r)
    case And(l, r) => InAnd(l) + ["and"] + InNot(r)
    case Not(n) => ["not"] + InNot(n)
  }

  /** The tokens of e where an or-expression may stand, and so on down; parentheses only where needed. */
  function InOr(e: Expr): seq<Token>
    decreases e, 4
  {
    if e.Or? then Bare(e) else InAnd(e)
  }

  function InAnd(e: Expr): seq<Token>
    decreases e, 3
  {
    if e.And? then Bare(e) else InNot(e)
  }

  function InNot(e: Expr): seq<Token>
    decreases e, 2
  {
    if e.Not? || e.Comparison? then Bare(e) else ["("] + Bare(e) + [")"]
  }

  lemma UnquoteQuoted(v: string)
    ensures Unquote(Quoted(v)) == v
  {
    var t := Quoted(v);
    assert t[0] == t[|t| - 1] && t[1..|t| - 1] == v;
  }

  lemma FieldsAreNotProtocols(f: Token)
    requires f in FIELDS
    ensures f !in PROTOCOL_WORDS
  {
    if f in PROTOCOL_WORDS {
      assert f != "";
      DistinctWords(f);
    }
  }

  lemma DistinctWords(f: Token)
    requires f in PROTOCOL_WORDS
    ensures f !in FIELDS
  {
  }

  lemma {:induction false} BareForm(e: Expr)
    requires WellFormed(e)
    ensures OrForm(Bare(e), e)
    ensures e.And? ==> AndForm(Bare(e), e)
    ensures e.Not? || e.Comparison? ==> NotForm(Bare(e), e)
    decreases e, 0
  {
    var ts := Bare(e);
    match e
    case Comparison(f, op, v) =>
      UnquoteQuoted(v);
      FieldsAreNotProtocols(f);
      assert ComparisonForm(ts, e);
      assert PrimaryForm(ts, e) && NotForm(ts, e) && AndForm(ts, e);
    case Not(n) =>
      NotFormOf(n);
      assert ts[1..] == InNot(n);
      assert NotForm(ts, e) && AndForm(ts, e);
    case And(l, r) =>
      AndFormOf(l);
      NotFormOf(r);
      var k := |InAnd(l)|;
      assert ts[..k] == InAnd(l) && ts[k] == "and" && ts[k + 1..] == InNot(r);
      assert AndSplit(ts, e, k);
    case Or(l, r) =>
      OrFormOf(l);
      AndFormOf(r);
      var k := |InOr(l)|;
      assert ts[..k] == InOr(l) && ts[k] == "or" && ts[k + 1..] == InAnd(r);
      assert OrSplit(ts, e, k);
  }

  lemma {:induction false} OrFormOf(e: Expr)
    requires WellFormed(e)
    ensures OrForm(InOr(e), e)
    decreases e, 3
  {
    if e.Or? {
      BareForm(e);
    } else {
      AndFormOf(e);
    }
  }

  lemma {:induction false} AndFormOf(e: Expr)
    requires WellFormed(e)
    ensures AndForm(InAnd(e), e)
    decreases e, 2
  {
    if e.And? {
      BareForm(e);
    } else {
      NotFormOf(e);
    }
  }

  lemma {:induction false} NotFormOf(e: Expr)
    requires WellFormed(e)
    ensures NotForm(InNot(e), e)
    decreases e, 1
  {
    BareForm(e);
    if !e.Not? && !e.Comparison? {
      var ts := InNot(e);
      assert ts[0] == "(" && ts[|ts| - 1] == ")" && ts[1..|ts| - 1] == Bare(e);
      assert PrimaryForm(ts, e);
    }
  }

  // ------------------------------------------------------------ tokens as text

  /** The tokens the tokenizer can produce. */
  ghost predicate Clean(t: Token) {
    t != "" &&
    (|| (|t| == 1 && IsParen(t[0]))
     || (t in OPERATORS && forall k :: 0 <= k < |t| ==> IsOpChar(t[k]))
     || (|t| >= 2 && IsQuote(t[0]) && t[|t| - 1] == t[0] && forall k :: 0 < k < |t| - 1 ==> t[k] != t[0])
     || (forall k :: 0 <= k < |t| ==> IsWordChar(t[k])))
  }

  ghost predicate AllClean(ts: seq<Token>) { forall i :: 0 <= i < |ts| ==> Clean(ts[i]) }

  /** Every token followed by one space. */
  function Render(ts: seq<Token>): string {
    if ts == [] then "" else ts[0] + " " + Render(ts[1..])
  }

  lemma {:induction false} SpanIs(text: string, i: nat, p: char -> bool, j: nat)
    requires i <= j <= |text| && (forall k :: i <= k < j ==> p(text[k])) && (j < |text| ==> !p(text[j]))
    ensures SpanEnd(text, i, p) == j
    decreases j - i
  {
    if i < j {
      SpanIs(text, i + 1, p, j);
    }
  }

  /** A clean token followed by a space is read back as itself. */
  lemma CleanReadsBack(text: string, i: nat, t: Token)
    requires Clean(t) && i + |t| < |text| && text[i..i + |t|] == t && text[i + |t|] == ' '
    ensures !IsSpace(text[i]) && TokenAt(text, i) == Ok((t, i + |t|))
  {
    var j := i + |t|;
    forall k | i <= k < j ensures text[k] == t[k - i] {
      assert text[k] == text[i..j][k - i];
    }
    if IsParen(t[0]) {
      assert t == [t[0]];
    } else if IsQuote(t[0]) {
      SpanIs(text, i + 1, NotChar(t[0]), j - 1);
    } else if IsOpChar(t[0]) {
      SpanIs(text, i, OpChars(), j);
    } else {
      SpanIs(text, i, WordChars(), j);
    }
  }

  lemma {:induction false} RenderedTokensComeBack(text: string, i: nat, ts: seq<Token>)
    requires i <= |text| && text[i..] == Render(ts) && AllClean(ts)
    ensures Tokens(text, i) == Ok(ts)
    decreases |ts|
  {
    hide TokenAt, Clean, Tokens, Render;
    if ts == [] {
      RenderNothing();
      assert |text[i..]| == 0;
      NoTokensLeft(text);
    } else {
      var t, j := ts[0], i + |ts[0]|;
      RenderHead(ts);
      RenderSplits(text, i, t, Render(ts[1..]));
      CleanReadsBack(text, i, t);
      RenderedTokensComeBack(text, j + 1, ts[1..]);
      TokenThenSpace(text, i, t, ts[1..]);
      assert [t] + ts[1..] == ts;
    }
  }

  lemma RenderNothing()
    ensures Render([]) == ""
  {
  }

  lemma NoTokensLeft(text: string)
    ensures Tokens(text, |text|) == Ok([])
  {
  }

  lemma RenderHead(ts: seq<Token>)
    requires ts != []
    ensures Render(ts) == ts[0] + (" " + Render(ts[1..]))
  {
  }

  lemma TokenThenSpace(text: string, i: nat, t: Token, rest: seq<Token>)
    requires i < |text| && !IsSpace(text[i]) && TokenAt(text, i) == Ok((t, i + |t|))
    requires i + |t| < |text| && text[i + |t|] == ' ' && Tokens(text, i + |t| + 1) == Ok(rest)
    ensures Tokens(text, i) == Ok([t] + rest)
  {
    hide TokenAt;
    assert Tokens(text, i + |t|) == Tokens(text, i + |t| + 1);
  }

  lemma RenderSplits(text: string, i: nat, t: string, rest: string)
    requires i <= |text| && text[i..] == t + (" " + rest)
    ensures i + |t| < |text| && text[i..i + |t|] == t && text[i + |t|] == ' ' && text[i + |t| + 1..] == rest
  {
    var u := text[i..];
    assert text[i..i + |t|] == u[..|t|] && text[i + |t|] == u[|t|] && text[i + |t| + 1..] == u[|t| + 1..];
  }

  /** Every token read is clean. */
  lemma TokenReadIsClean(text: string, i: nat)
    requires i < |text| && !IsSpace(text[i]) && TokenAt(text, i).Ok?
    ensures Clean(TokenAt(text, i).value.0)
  {
    var (t, j) := TokenAt(text, i).value;
    assert t[0] == text[i];
    assert forall k :: 0 <= k < |t| ==> t[k] == text[i + k];
  }

  lemma {:induction false} TokensReadAreClean(text: string, i: nat)
    requires i <= |text| && Tokens(text, i).Ok?
    ensures AllClean(Tokens(text, i).value)
    decreases |text| - i
  {
    hide Clean, TokenAt;
    if i < |text| {
      if IsSpace(text[i]) {
        TokensReadAreClean(text, i + 1);
      } else {
        TokenReadIsClean(text, i);
        var (t, j) := TokenAt(text, i).value;
        TokensReadAreClean(text, j);
        assert Tokens(text, i).value == [t] + Tokens(text, j).value;
      }
    }
  }

  // ------------------------------------------------------------ printing and compiling

  /** The text of an expression. */
  function Print(e: Expr): string { Render(InOr(e)) }

  predicate LowerCase(t: Token) { t != "" && forall k :: 0 <= k < |t| ==> 'a' <= t[k] <= 'z' }

  lemma LowerCaseIsClean(t: Token)
    requires LowerCase(t)
    ensures Clean(t)
  {
  }

  lemma FieldsAreClean(f: Token)
    requires f in FIELDS
    ensures Clean(f)
  {
    assert LowerCase(f);
    LowerCaseIsClean(f);
    hide Clean;
  }

  lemma OperatorsAreClean(op: Token)
    requires op in OPERATORS
    ensures Clean(op)
  {
    if op == "contains" {
      assert LowerCase(op);
      LowerCaseIsClean(op);
    }
  }

  lemma QuotedIsClean(v: string)
    requires Quotable(v)
    ensures Clean(Quoted(v))
  {
    var t := Quoted(v);
    var q := if '"' !in v then '"' else '\'';
    assert t[0] == q && t[|t| - 1] == q;
    forall k | 0 < k < |t| - 1 ensures t[k] != q {
      assert t[k] == v[k - 1];
    }
  }

  lemma SmallWordsAreClean()
    ensures Clean("or") && Clean("and") && Clean("not") && Clean("(") && Clean(")")
  {
    LowerCaseIsClean("or");
    LowerCaseIsClean("and");
    LowerCaseIsClean("not");
    assert IsParen("("[0]) && IsParen(")"[0]);
  }

  lemma CleanParts(a: seq<Token>, t: Token, b: seq<Token>)
    requires AllClean(a) && Clean(t) && AllClean(b)
    ensures AllClean(a + [t] + b) && AllClean([t] + a) && AllClean(["("] + a + [")"])
  {
    SmallWordsAreClean();
    hide Clean;
  }

  lemma {:induction false} PrintedTokensAreClean(e: Expr)
    requires WellFormed(e)
    ensures AllClean(Bare(e)) && AllClean(InOr(e)) && AllClean(InAnd(e)) && AllClean(InNot(e))
  {
    hide Clean;
    SmallWordsAreClean();
    match e {
      case Comparison(f, op, v) =>
        FieldsAreClean(f);
        OperatorsAreClean(op);
        QuotedIsClean(v);
      case Not(n) =>
        PrintedTokensAreClean(n);
        CleanParts(InNot(n), "not", []);
      case And(l, r) =>
        PrintedTokensAreClean(l);
        PrintedTokensAreClean(r);
        CleanParts(InAnd(l), "and", InNot(r));
      case Or(l, r) =>
        PrintedTokensAreClean(l);
        PrintedTokensAreClean(r);
        CleanParts(InOr(l), "or", InAnd(r));
    }
    CleanParts(Bare(e), "not", []);
    assert AllClean(InNot(e));
    assert AllClean(InAnd(e));
  }

  /** Compiling the printed form of any expression gives the expression back. */
  lemma PrintThenCompile(e: Expr)
    requires WellFormed(e)
    ensures Compile(Print(e)) == Ok(e)
  {
    var ts := InOr(e);
    PrintedTokensAreClean(e);
    assert Print(e)[0..] == Render(ts);
    RenderedTokensComeBack(Print(e), 0, ts);
    OrFormOf(e);
    ParserIsTheGrammar(ts, e);
    hide Tokens, OrExpr, OrForm, Bare, Clean, Render, WellFormed;
    PrintedIsNotEmpty(e);
  }

  lemma PrintedIsNotEmpty(e: Expr)
    ensures InOr(e) != []
  {
    assert Bare(e) != [];
    assert InNot(e) != [];
    assert InAnd(e) != [];
  }

  // ------------------------------------------------------------ every accepted filter prints and compiles back

  lemma CleanUnquotes(t: Token)
    requires Clean(t)
    ensures Quotable(Unquote(t))
  {
    var v := Unquote(t);
    if IsQuote(t[0]) {
      forall k | 0 <= k < |v| ensures v[k] != t[0] {
        assert v[k] == t[k + 1];
      }
    }
  }

  lemma ComparisonWellFormed(ts: seq<Token>, e: Expr)
    requires AllClean(ts) && ComparisonForm(ts, e)
    ensures WellFormed(e)
  {
    if |ts| == 3 {
      CleanUnquotes(ts[2]);
    } else {
      ProtocolWordsQuotable(ts[0]);
    }
    hide Clean, Unquote;
  }

  lemma ProtocolWordsQuotable(t: Token)
    requires t in PROTOCOL_WORDS
    ensures Quotable(t)
  {
    assert LowerCase(t);
  }

  /** Whatever the grammar derives from clean tokens is a well-formed expression. */
  lemma {:induction false} DerivedIsWellFormed(ts: seq<Token>, e: Expr)
    requires AllClean(ts) && OrForm(ts, e)
    ensures WellFormed(e)
    decreases |ts|, 3
  {
    if AndForm(ts, e) {
      AndIsWellFormed(ts, e);
    } else {
      var k :| 0 <= k < |ts| && OrSplit(ts, e, k);
      DerivedIsWellFormed(ts[..k], e.left);
      AndIsWellFormed(ts[k + 1..], e.right);
    }
  }

  lemma {:induction false} AndIsWellFormed(ts: seq<Token>, e: Expr)
    requires AllClean(ts) && AndForm(ts, e)
    ensures WellFormed(e)
    decreases |ts|, 2
  {
    if NotForm(ts, e) {
      NotIsWellFormed(ts, e);
    } else {
      var k :| 0 <= k < |ts| && AndSplit(ts, e, k);
      AndIsWellFormed(ts[..k], e.left);
      NotIsWellFormed(ts[k + 1..], e.right);
    }
  }

  lemma {:induction false} NotIsWellFormed(ts: seq<Token>, e: Expr)
    requires AllClean(ts) && NotForm(ts, e)
    ensures WellFormed(e)
    decreases |ts|, 1
  {
    if PrimaryForm(ts, e) {
      if ComparisonForm(ts, e) {
        ComparisonWellFormed(ts, e);
      } else {
        DerivedIsWellFormed(ts[1..|ts| - 1], e);
      }
    } else {
      NotIsWellFormed(ts[1..], e.node);
    }
  }

  lemma MatchAllIsWellFormed()
    ensures WellFormed(MATCH_ALL)
  {
    assert LowerCase("contains");
  }

  /** Every text the compiler accepts denotes an expression that prints to a text compiling to the same expression. */
  lemma CompileThenPrint(text: string)
    requires Compile(text).Ok?
    ensures var e := Compile(text).value; WellFormed(e) && Compile(Print(e)) == Ok(e)
  {
    var e := Compile(text).value;
    var ts := Tokens(text, 0).value;
    if ts == [] {
      MatchAllIsWellFormed();
    } else {
      TokensReadAreClean(text, 0);
      ParserIsTheGrammar(ts, e);
      DerivedIsWellFormed(ts, e);
    }
    PrintThenCompile(e);
    hide Tokens, OrExpr, OrForm, Bare, Clean, WellFormed;
  }
}
