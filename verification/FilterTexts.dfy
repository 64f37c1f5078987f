// What filters put together from other filters select, as texts.
module FilterTexts {
  import opened Wrappers
  import opened DisplayFilter
  import opened DisplayFilterTheorems
  import opened FilterMeaning

  /** The text compiles to a filter that selects the row. */
  ghost predicate Selects(rd: Reading, text: string, row: Row) {
    var e := Compile(text);
    e.Ok? && Evaluable(e.value) && Evaluate(rd, e.value, row)
  }

  /** The text is a filter, and not only blanks. */
  predicate IsFilter(text: string) {
    Compile(text).Ok? && Tokens(text, 0) != Ok([])
  }

  // ------------------------------------------------------------ texts inside a longer text

  /** Characters i to j of p, in a longer text. */
  lemma InsideIs(a: string, p: string, b: string, i: nat, j: nat)
    requires i <= j <= |p|
    ensures (a + p + b)[|a| + i..|a| + j] == p[i..j]
    ensures forall k :: |a| + i <= k < |a| + j ==> (a + p + b)[k] == p[k - |a|]
    ensures b != "" ==> (a + p + b)[|a| + |p|] == b[0]
  {
  }

  lemma SpanInside(a: string, p: string, b: string, i: nat, c: char -> bool)
    requires i <= |p| && b != "" && (SpanEnd(p, i, c) < |p| || !c(b[0]))
    ensures SpanEnd(a + p + b, |a| + i, c) == |a| + SpanEnd(p, i, c)
  {
    hide SpanEnd;
    var j, text := SpanEnd(p, i, c), a + p + b;
    InsideIs(a, p, b, i, if j < |p| then j + 1 else j);
    assert j < |p| ==> text[|a| + j] == p[j];
    SpanIs(text, |a| + i, c, |a| + j);
  }

  lemma ParenStopsWords(c: char)
    requires IsParen(c)
    ensures !OpChars()(c) && !WordChars()(c)
  {
  }

  /** What is read at i of p is read in a longer text that goes on with a parenthesis behind p. */
  lemma TokenInside(a: string, p: string, b: string, i: nat)
    requires i < |p| && b != "" && IsParen(b[0]) && !IsSpace(p[i]) && TokenAt(p, i).Ok?
    ensures var (t, j) := TokenAt(p, i).value;
            !IsSpace((a + p + b)[|a| + i]) && TokenAt(a + p + b, |a| + i) == Ok((t, |a| + j))
  {
    hide IsSpace, IsWordChar, IsOpChar, IsQuote, SpanEnd;
    var (t, j) := TokenAt(p, i).value;
    InsideIs(a, p, b, i, j);
    ParenStopsWords(b[0]);
    if IsParen(p[i]) {
    } else if IsOpChar(p[i]) {
      SpanInside(a, p, b, i, OpChars());
    } else if IsQuote(p[i]) {
      SpanInside(a, p, b, i + 1, NotChar(p[i]));
    } else {
      SpanInside(a, p, b, i, WordChars());
    }
  }

  /** A text is read the same inside a longer one that goes on with a parenthesis. */
  lemma {:induction false} TokensInside(a: string, p: string, b: string, i: nat)
    requires i <= |p| && b != "" && IsParen(b[0]) && Tokens(p, i).Ok?
    ensures Tokens(a + p + b, |a| + i) == Prepended(Tokens(p, i).value, Tokens(a + p + b, |a| + |p|))
    decreases |p| - i
  {
    hide TokenAt;
    var text, n := a + p + b, |a|;
    if i == |p| {
      NothingPrepended(Tokens(text, n + i));
    } else if IsSpace(p[i]) {
      TokensInside(a, p, b, i + 1);
      assert text[n + i] == p[i];
    } else {
      TokenInside(a, p, b, i);
      var (t, j) := TokenAt(p, i).value;
      TokensInside(a, p, b, j);
      var rest := Tokens(text, n + |p|);
      if rest.Ok? {
        assert ([t] + Tokens(p, j).value) + rest.value == [t] + (Tokens(p, j).value + rest.value);
      }
    }
  }

  function Group(p: string): string { "(" + p + ")" }

  lemma PrependedTwice(a: seq<Token>, b: seq<Token>, r: Result<seq<Token>, FilterError>)
    ensures Prepended(a, Prepended(b, r)) == Prepended(a + b, r)
  {
    if r.Ok? {
      assert a + (b + r.value) == (a + b) + r.value;
    }
  }

  lemma OneToken(text: string, i: nat, t: Token, j: nat)
    requires i < |text| && !IsSpace(text[i]) && TokenAt(text, i) == Ok((t, j))
    ensures Tokens(text, i) == Prepended([t], Tokens(text, j))
  {
    hide TokenAt;
  }

  lemma ParenReads(text: string, i: nat)
    requires i < |text| && IsParen(text[i])
    ensures Tokens(text, i) == Prepended([[text[i]]], Tokens(text, i + 1))
  {
    OneToken(text, i, [text[i]], i + 1);
  }

  /** A text in parentheses gives its tokens in parentheses, wherever it stands. */
  lemma GroupReads(a: string, p: string, b: string)
    requires Tokens(p, 0).Ok?
    ensures var text := a + Group(p) + b;
            Tokens(text, |a|) == Prepended(["("] + Tokens(p, 0).value + [")"], Tokens(text, |a| + |p| + 2))
  {
    hide Tokens, Prepended;
    var text, ts, n := a + Group(p) + b, Tokens(p, 0).value, |a| + 1 + |p|;
    var rest := Tokens(text, n + 1);
    assert text[|a|] == '(' && text[n] == ')';
    ParenReads(text, |a|);
    ParenReads(text, n);
    assert text == (a + "(") + p + (")" + b);
    TokensInside(a + "(", p, ")" + b, 0);
    PrependedTwice(ts, [")"], rest);
    PrependedTwice(["("], ts + [")"], rest);
    assert ["("] + (ts + [")"]) == ["("] + ts + [")"];
  }

  lemma WordAt(text: string, i: nat, w: string)
    requires LowerCase(w) && i + |w| < |text| && text[i..i + |w|] == w && text[i + |w|] == ' '
    ensures !IsSpace(text[i]) && TokenAt(text, i) == Ok((w, i + |w|))
  {
    LowerCaseIsClean(w);
    CleanReadsBack(text, i, w);
    hide *;
  }

  /** A word of letters with a blank behind it is one token. */
  lemma WordReads(a: string, w: string, b: string)
    requires LowerCase(w)
    ensures var text := a + (w + " ") + b;
            Tokens(text, |a|) == Prepended([w], Tokens(text, |a| + |w| + 1))
  {
    hide *;
    var text, n := a + (w + " ") + b, |a|;
    assert text == a + w + (" " + b);
    InsideIs(a, w, " " + b, 0, |w|);
    assert text[n..n + |w|] == w[0..|w|] == w;
    WordAt(text, n, w);
    OneToken(text, n, w, n + |w|);
    BlankReads(text, n + |w|);
  }

  function Joined(p: string, word: string, q: string): string { Group(p) + " " + word + " " + Group(q) }

  lemma JoinedReads(p: string, word: string, q: string)
    requires Tokens(p, 0).Ok? && Tokens(q, 0).Ok? && LowerCase(word)
    ensures Tokens(Joined(p, word, q), 0)
         == Ok((["("] + Tokens(p, 0).value + [")"]) + [word] + (["("] + Tokens(q, 0).value + [")"]))
  {
    hide Tokens, Prepended, IsSpace;
    var text, m := Joined(p, word, q), |p| + 2;
    var first, second := ["("] + Tokens(p, 0).value + [")"], ["("] + Tokens(q, 0).value + [")"];
    assert text == [] + Group(p) + (" " + word + " " + Group(q));
    GroupReads([], p, " " + word + " " + Group(q));
    assert text[m] == ' ';
    BlankReads(text, m);
    assert text == (Group(p) + " ") + (word + " ") + Group(q);
    WordReads(Group(p) + " ", word, Group(q));
    assert text == (Group(p) + " " + word + " ") + Group(q) + [];
    GroupReads(Group(p) + " " + word + " ", q, []);
    DisplayFilter.NoTokensLeft(second, text);
    var rest := Tokens(text, m + 2 + |word|);
    PrependedTwice(first, [word], rest);
    AllPrepended(first + [word], second);
  }

  lemma BlankReads(text: string, i: nat)
    requires i < |text| && text[i] == ' '
    ensures Tokens(text, i) == Tokens(text, i + 1)
  {
    SpaceIsSkipped(text, i);
  }

  lemma AllPrepended(a: seq<Token>, b: seq<Token>)
    ensures Prepended(a, Ok(b)) == Ok(a + b)
  {
  }

  lemma NegatedReads(p: string)
    requires Tokens(p, 0).Ok?
    ensures Tokens("not " + Group(p), 0) == Ok(["not"] + (["("] + Tokens(p, 0).value + [")"]))
  {
    hide Tokens, Prepended;
    var text, group := "not " + Group(p), ["("] + Tokens(p, 0).value + [")"];
    assert text == [] + ("not" + " ") + Group(p);
    WordReads([], "not", Group(p));
    assert text == "not " + Group(p) + [];
    GroupReads("not ", p, []);
    DisplayFilter.NoTokensLeft(group, text);
    AllPrepended(["not"], group);
  }

  // ------------------------------------------------------------ what they compile to

  lemma GroupForm(ts: seq<Token>, e: Expr)
    requires Parse(ts) == Ok(e)
    ensures NotForm(["("] + ts + [")"], e)
  {
    ParserIsTheGrammar(ts, e);
    var group := ["("] + ts + [")"];
    assert group[1..|group| - 1] == ts;
    assert PrimaryForm(group, e);
  }

  lemma AndParses(a: seq<Token>, b: seq<Token>, left: Expr, right: Expr)
    requires NotForm(a, left) && NotForm(b, right)
    ensures Parse(a + ["and"] + b) == Ok(And(left, right))
  {
    var ts := a + ["and"] + b;
    assert ts[..|a|] == a && ts[|a| + 1..] == b && ts[|a|] == "and";
    assert AndForm(a, left);
    assert AndSplit(ts, And(left, right), |a|);
    ParserIsTheGrammar(ts, And(left, right));
  }

  lemma OrParses(a: seq<Token>, b: seq<Token>, left: Expr, right: Expr)
    requires NotForm(a, left) && NotForm(b, right)
    ensures Parse(a + ["or"] + b) == Ok(Or(left, right))
  {
    var ts := a + ["or"] + b;
    assert ts[..|a|] == a && ts[|a| + 1..] == b && ts[|a|] == "or";
    assert AndForm(a, left) && AndForm(b, right) && OrForm(a, left);
    assert OrSplit(ts, Or(left, right), |a|);
    ParserIsTheGrammar(ts, Or(left, right));
  }

  lemma NotParses(a: seq<Token>, e: Expr)
    requires NotForm(a, e)
    ensures Parse(["not"] + a) == Ok(Not(e))
  {
    var ts := ["not"] + a;
    assert ts[1..] == a;
    assert NotForm(ts, Not(e)) && AndForm(ts, Not(e));
    ParserIsTheGrammar(ts, Not(e));
  }

  lemma CompiledFrom(text: string, ts: seq<Token>)
    requires Tokens(text, 0) == Ok(ts) && ts != []
    ensures Compile(text) == Parse(ts)
  {
  }

  lemma FilterParses(text: string)
    requires IsFilter(text)
    ensures Tokens(text, 0).Ok? && Compile(text) == Parse(Tokens(text, 0).value)
    ensures Compile(text).Ok? && Evaluable(Compile(text).value)
  {
    hide Tokens, Parse, WellFormed, Evaluable;
    CompileThenPrint(text);
    WellFormedIsEvaluable(Compile(text).value);
  }

  lemma CompiledParts(p: string, q: string)
    requires IsFilter(p) && IsFilter(q)
    ensures Compile(p).Ok? && Compile(q).Ok?
    ensures Compile(Joined(p, "and", q)) == Ok(And(Compile(p).value, Compile(q).value))
    ensures Compile(Joined(p, "or", q)) == Ok(Or(Compile(p).value, Compile(q).value))
    ensures Compile("not " + Group(p)) == Ok(Not(Compile(p).value))
  {
    hide *;
    FilterParses(p);
    FilterParses(q);
    WordsAreLowerCase();
    JoinedReads(p, "and", q);
    JoinedReads(p, "or", q);
    NegatedReads(p);
    var a, b := ["("] + Tokens(p, 0).value + [")"], ["("] + Tokens(q, 0).value + [")"];
    GroupForm(Tokens(p, 0).value, Compile(p).value);
    GroupForm(Tokens(q, 0).value, Compile(q).value);
    AndParses(a, b, Compile(p).value, Compile(q).value);
    OrParses(a, b, Compile(p).value, Compile(q).value);
    NotParses(a, Compile(p).value);
    CompiledFrom(Joined(p, "and", q), a + ["and"] + b);
    CompiledFrom(Joined(p, "or", q), a + ["or"] + b);
    CompiledFrom("not " + Group(p), ["not"] + a);
  }

  lemma WordsAreLowerCase()
    ensures LowerCase("and") && LowerCase("or")
  {
  }

  // ------------------------------------------------------------ what they select

  /**
    * Of any two filters, `(p) and (q)` selects the rows that both select, `(p) or (q)` those that either
    * does, and `not (p)` the rest.
    */
  lemma CombinedFiltersSelect(rd: Reading, p: string, q: string, row: Row)
    requires IsFilter(p) && IsFilter(q)
    ensures Compile(Joined(p, "and", q)).Ok? && Compile(Joined(p, "or", q)).Ok? && Compile("not " + Group(p)).Ok?
    ensures Selects(rd, Joined(p, "and", q), row) <==> Selects(rd, p, row) && Selects(rd, q, row)
    ensures Selects(rd, Joined(p, "or", q), row) <==> Selects(rd, p, row) || Selects(rd, q, row)
    ensures Selects(rd, "not " + Group(p), row) <==> !Selects(rd, p, row)
  {
    hide Compile, Joined, Group, IsFilter, Compare;
    CompiledParts(p, q);
    FilterParses(p);
    FilterParses(q);
  }
}
