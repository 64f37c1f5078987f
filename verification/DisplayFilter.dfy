// The display-filter language: tokenizer, recursive-descent parser and evaluation.
module DisplayFilter {
  import opened Wrappers

  datatype FilterError =
    | UnknownOperator(op: string)
    | UnterminatedString
    | UnexpectedEnd
    | UnexpectedToken(token: string)
    | MissingParenthesis
    | UnknownField(token: string)
    | ExpectedOperator(field: string, token: string)

  type Token = string

  const FIELDS: set<string> := {
    "ip", "src", "dst", "port", "sport", "dport", "protocol", "type", "length", "flow", "summary"}

  const OPERATORS: set<string> := {"==", "!=", "<", "<=", ">", ">=", "contains"}

  const PROTOCOL_WORDS: set<string> := {"tcp", "udp", "dns", "tls", "http", "icmp", "arp", "ssl"}

  // ------------------------------------------------------------ tokens

  /** `str.isspace` of one character. */
  predicate IsSpace(c: char) {
    || '\t' <= c <= '\r' || '\U{1C}' <= c <= ' ' || c == '\U{85}' || c == '\U{A0}' || c == '\U{1680}'
    || '\U{2000}' <= c <= '\U{200A}' || c == '\U{2028}' || c == '\U{2029}' || c == '\U{202F}' || c == '\U{205F}'
    || c == '\U{3000}'
  }

  predicate IsParen(c: char) { c == '(' || c == ')' }

  predicate IsOpChar(c: char) { c == '<' || c == '>' || c == '=' || c == '!' }

  predicate IsQuote(c: char) { c == '"' || c == '\'' }

  /** A character that continues a bare word. */
  predicate IsWordChar(c: char) { !IsSpace(c) && !IsParen(c) && !IsOpChar(c) && !IsQuote(c) }

  /** The first position from i on whose character fails p, or the end of the text. */
  function SpanEnd(text: string, i: nat, p: char -> bool): (j: nat)
    requires i <= |text|
    ensures i <= j <= |text|
    ensures forall k :: i <= k < j ==> p(text[k])
    ensures j < |text| ==> !p(text[j])
    decreases |text| - i
  {
    if i < |text| && p(text[i]) then SpanEnd(text, i + 1, p) else i
  }

  function OpChars(): char -> bool { (c: char) => IsOpChar(c) }

  function WordChars(): char -> bool { (c: char) => IsWordChar(c) }

  function NotChar(q: char): char -> bool { (c: char) => c != q }

  /** The token that starts at i, where no space stands, and the position after it. */
  function TokenAt(text: string, i: nat): (r: Result<(Token, nat), FilterError>)
    requires i < |text| && !IsSpace(text[i])
    ensures r.Ok? ==> i < r.value.1 <= |text|
  {
    var c := text[i];
    if IsParen(c) then Ok(([c], i + 1))
    else if IsOpChar(c) then
      var j := SpanEnd(text, i, OpChars());
      if text[i..j] in OPERATORS then Ok((text[i..j], j)) else Err(UnknownOperator(text[i..j]))
    else if IsQuote(c) then
      var j := SpanEnd(text, i + 1, NotChar(c));
      if j >= |text| then Err(UnterminatedString) else Ok((text[i..j + 1], j + 1))
    else
      var j := SpanEnd(text, i, WordChars());
      Ok((text[i..j], j))
  }

  /** All tokens from i on; the first bad one is the error. */
  function Tokens(text: string, i: nat): Result<seq<Token>, FilterError>
    requires i <= |text|
    decreases |text| - i
  {
    if i == |text| then Ok([])
    else if IsSpace(text[i]) then Tokens(text, i + 1)
    else
      match TokenAt(text, i)
      case Err(e) => Err(e)
      case Ok((t, j)) =>
        match Tokens(text, j)
        case Err(e) => Err(e)
        case Ok(ts) => Ok([t] + ts)
  }

  function Prepended(done: seq<Token>, r: Result<seq<Token>, FilterError>): Result<seq<Token>, FilterError> {
    if r.Err? then r else Ok(done + r.value)
  }

  method Tokenize(text: string) returns (r: Result<seq<Token>, FilterError>)
    ensures r == Tokens(text, 0)
  {
    hide Tokens, SpanEnd, Prepended;
    var tokens: seq<Token> := [];
    var i, n := 0, |text|;
    NothingPrepended(Tokens(text, 0));
    while i < n
      invariant 0 <= i <= n
      invariant Tokens(text, 0) == Prepended(tokens, Tokens(text, i))
    {
      var ch := text[i];
      if IsSpace(ch) {
        SpaceIsSkipped(text, i);
        i := i + 1;
        continue;
      }
      if IsParen(ch) {
        tokens := Append(tokens, text, i, [ch], i + 1);
        i := i + 1;
        continue;
      }
      if IsOpChar(ch) {
        var j := ScanWhile(text, i, OpChars());
        var op := text[i..j];
        if op !in OPERATORS {
          BadTokenIsTheError(tokens, text, i);
          return Err(UnknownOperator(op));
        }
        tokens := Append(tokens, text, i, op, j);
        i := j;
        continue;
      }
      if IsQuote(ch) {
        var j := ScanWhile(text, i + 1, NotChar(ch));
        if j >= n {
          BadTokenIsTheError(tokens, text, i);
          return Err(UnterminatedString);
        }
        tokens := Append(tokens, text, i, text[i..j + 1], j + 1);
        i := j + 1;
        continue;
      }
      var j := ScanWhile(text, i, WordChars());
      tokens := Append(tokens, text, i, text[i..j], j);
      i := j;
    }
    NoTokensLeft(tokens, text);
    return Ok(tokens);
  }

  lemma NothingPrepended(r: Result<seq<Token>, FilterError>)
    ensures Prepended([], r) == r
  {
    assert r.Ok? ==> [] + r.value == r.value;
  }

  lemma NoTokensLeft(tokens: seq<Token>, text: string)
    ensures Prepended(tokens, Tokens(text, |text|)) == Ok(tokens)
  {
    assert tokens + [] == tokens;
  }

  lemma SpaceIsSkipped(text: string, i: nat)
    requires i < |text| && IsSpace(text[i])
    ensures Tokens(text, i) == Tokens(text, i + 1)
  {
  }

  lemma BadTokenIsTheError(tokens: seq<Token>, text: string, i: nat)
    requires i < |text| && !IsSpace(text[i]) && TokenAt(text, i).Err?
    ensures Prepended(tokens, Tokens(text, i)) == Err(TokenAt(text, i).error)
  {
  }

  /** The inner loops of the tokenizer: j runs on while the characters satisfy p. */
  method ScanWhile(text: string, i: nat, p: char -> bool) returns (j: nat)
    requires i <= |text|
    ensures j == SpanEnd(text, i, p)
  {
    j := i;
    while j < |text| && p(text[j])
      invariant i <= j <= |text|
      invariant SpanEnd(text, i, p) == SpanEnd(text, j, p)
    {
      j := j + 1;
    }
  }

  method Append(tokens: seq<Token>, text: string, i: nat, t: Token, j: nat) returns (r: seq<Token>)
    requires i < |text| && !IsSpace(text[i]) && TokenAt(text, i) == Ok((t, j))
    ensures r == tokens + [t]
    ensures Prepended(tokens, Tokens(text, i)) == Prepended(r, Tokens(text, j))
  {
    r := tokens + [t];
    var rest := Tokens(text, j);
    if rest.Ok? {
      assert tokens + ([t] + rest.value) == r + rest.value;
    }
  }

  // ------------------------------------------------------------ expressions

  datatype Expr =
    | Comparison(field: string, operator: string, value: string)
    | And(left: Expr, right: Expr)
    | Or(left: Expr, right: Expr)
    | Not(node: Expr)

  function Unquote(value: Token): string {
    if |value| >= 2 && IsQuote(value[0]) && value[|value| - 1] == value[0] then value[1..|value| - 1] else value
  }

  // ------------------------------------------------------------ parser specification

  type Parsed = Result<(Expr, nat), FilterError>

  function Comparing(ts: seq<Token>, pos: nat): (r: Parsed)
    ensures r.Ok? ==> pos < r.value.1 <= |ts|
  {
    if pos >= |ts| then Err(UnexpectedEnd)
    else if ts[pos] in PROTOCOL_WORDS then Ok((Comparison("protocol", "==", ts[pos]), pos + 1))
    else if ts[pos] !in FIELDS then Err(UnknownField(ts[pos]))
    else if pos + 1 >= |ts| then Err(UnexpectedEnd)
    else if ts[pos + 1] !in OPERATORS then Err(ExpectedOperator(ts[pos], ts[pos + 1]))
    else if pos + 2 >= |ts| then Err(UnexpectedEnd)
    else Ok((Comparison(ts[pos], ts[pos + 1], Unquote(ts[pos + 2])), pos + 3))
  }

  function Primary(ts: seq<Token>, pos: nat): (r: Parsed)
    ensures r.Ok? ==> pos < r.value.1 <= |ts|
    decreases |ts| - pos, 1
  {
    if pos < |ts| && ts[pos] == "(" then
      match OrExpr(ts, pos + 1)
      case Err(e) => Err(e)
      case Ok((node, p)) =>
        if p >= |ts| then Err(UnexpectedEnd)
        else if ts[p] != ")" then Err(MissingParenthesis)
        else Ok((node, p + 1))
    else Comparing(ts, pos)
  }

  function NotExpr(ts: seq<Token>, pos: nat): (r: Parsed)
    ensures r.Ok? ==> pos < r.value.1 <= |ts|
    decreases |ts| - pos, 2
  {
    if pos < |ts| && ts[pos] == "not" then
      match NotExpr(ts, pos + 1)
      case Err(e) => Err(e)
      case Ok((node, p)) => Ok((Not(node), p))
    else Primary(ts, pos)
  }

  function AndExpr(ts: seq<Token>, pos: nat): (r: Parsed)
    ensures r.Ok? ==> pos < r.value.1 <= |ts|
    decreases |ts| - pos, 3
  {
    match NotExpr(ts, pos)
    case Err(e) => Err(e)
    case Ok((node, p)) => AndLoop(node, ts, p)
  }

  /** The loop of an and-expression: `node` is what has been read before pos. */
  function AndLoop(node: Expr, ts: seq<Token>, pos: nat): (r: Parsed)
    requires pos <= |ts|
    ensures r.Ok? ==> pos <= r.value.1 <= |ts|
    decreases |ts| - pos, 0
  {
    if pos < |ts| && ts[pos] == "and" then
      match NotExpr(ts, pos + 1)
      case Err(e) => Err(e)
      case Ok((right, p)) => AndLoop(And(node, right), ts, p)
    else Ok((node, pos))
  }

  function OrExpr(ts: seq<Token>, pos: nat): (r: Parsed)
    ensures r.Ok? ==> pos < r.value.1 <= |ts|
    decreases |ts| - pos, 4
  {
    match AndExpr(ts, pos)
    case Err(e) => Err(e)
    case Ok((node, p)) => OrLoop(node, ts, p)
  }

  function OrLoop(node: Expr, ts: seq<Token>, pos: nat): (r: Parsed)
    requires pos <= |ts|
    ensures r.Ok? ==> pos <= r.value.1 <= |ts|
    decreases |ts| - pos, 0
  {
    if pos < |ts| && ts[pos] == "or" then
      match AndExpr(ts, pos + 1)
      case Err(e) => Err(e)
      case Ok((right, p)) => OrLoop(Or(node, right), ts, p)
    else Ok((node, pos))
  }

  function Parse(ts: seq<Token>): Result<Expr, FilterError> {
    match OrExpr(ts, 0)
    case Err(e) => Err(e)
    case Ok((node, p)) => if p != |ts| then Err(UnexpectedToken(ts[p])) else Ok(node)
  }

  /** Empty text matches everything. */
  const MATCH_ALL := Comparison("protocol", "contains", "")

  function Compile(text: string): Result<Expr, FilterError> {
    match Tokens(text, 0)
    case Err(e) => Err(e)
    case Ok(ts) => if ts == [] then Ok(MATCH_ALL) else Parse(ts)
  }

  // ------------------------------------------------------------ the parser

  class Parser {
    const tokens: seq<Token>
    var pos: nat

    constructor (tokens: seq<Token>)
      ensures this.tokens == tokens && pos == 0
    {
      this.tokens := tokens;
      pos := 0;
    }

    /** The result, and the position when there is one, are what the specification says. */
    ghost predicate Reads(r: Result<Expr, FilterError>, spec: Parsed)
      reads this
    {
      if spec.Ok? then r == Ok(spec.value.0) && pos == spec.value.1 else r == Err(spec.error)
    }

    function Peek(): Option<Token>
      reads this
    {
      if pos < |tokens| then Some(tokens[pos]) else None
    }

    method Next() returns (r: Result<Token, FilterError>)
      modifies this`pos
      ensures if old(pos) < |tokens| then r == Ok(tokens[old(pos)]) && pos == old(pos) + 1
              else r == Err(UnexpectedEnd) && pos == old(pos)
    {
      var token := Peek();
      if token.None? {
        return Err(UnexpectedEnd);
      }
      pos := pos + 1;
      return Ok(token.value);
    }

    method ParseAll() returns (r: Result<Expr, FilterError>)
      requires pos == 0
      modifies this`pos
      ensures r == Parse(tokens)
    {
      r := ReadOr();
      if r.Ok? && pos != |tokens| {
        r := Err(UnexpectedToken(Peek().value));
      }
    }

    method ReadOr() returns (r: Result<Expr, FilterError>)
      modifies this`pos
      ensures Reads(r, OrExpr(tokens, old(pos)))
      decreases |tokens| - pos, 4
    {
      ghost var whole := OrExpr(tokens, pos);
      r := ReadAnd();
      if r.Err? {
        return;
      }
      var node := r.value;
      while Peek() == Some("or")
        invariant old(pos) < pos <= |tokens|
        invariant whole == OrLoop(node, tokens, pos)
        decreases |tokens| - pos
      {
        var _ := Next();
        var right := ReadAnd();
        if right.Err? {
          return right;
        }
        node := Or(node, right.value);
      }
      return Ok(node);
    }

    method ReadAnd() returns (r: Result<Expr, FilterError>)
      modifies this`pos
      ensures Reads(r, AndExpr(tokens, old(pos)))
      decreases |tokens| - pos, 3
    {
      ghost var whole := AndExpr(tokens, pos);
      r := ReadNot();
      if r.Err? {
        return;
      }
      var node := r.value;
      while Peek() == Some("and")
        invariant old(pos) < pos <= |tokens|
        invariant whole == AndLoop(node, tokens, pos)
        decreases |tokens| - pos
      {
        var _ := Next();
        var right := ReadNot();
        if right.Err? {
          return right;
        }
        node := And(node, right.value);
      }
      return Ok(node);
    }

    method ReadNot() returns (r: Result<Expr, FilterError>)
      modifies this`pos
      ensures Reads(r, NotExpr(tokens, old(pos)))
      decreases |tokens| - pos, 2
    {
      if Peek() == Some("not") {
        var _ := Next();
        r := ReadNot();
        if r.Ok? {
          r := Ok(Not(r.value));
        }
        return;
      }
      r := ReadPrimary();
    }

    method ReadPrimary() returns (r: Result<Expr, FilterError>)
      modifies this`pos
      ensures Reads(r, Primary(tokens, old(pos)))
      decreases |tokens| - pos, 1
    {
      if Peek() == Some("(") {
        var _ := Next();
        r := ReadOr();
        if r.Err? {
          return;
        }
        var close := Next();
        if close.Err? {
          return Err(close.error);
        }
        if close.value != ")" {
          return Err(MissingParenthesis);
        }
        return;
      }
      r := ReadComparison();
    }

    method ReadComparison() returns (r: Result<Expr, FilterError>)
      modifies this`pos
      ensures Reads(r, Comparing(tokens, old(pos)))
    {
      var token := Next();
      if token.Err? {
        return Err(token.error);
      }
      if token.value in PROTOCOL_WORDS {
        return Ok(Comparison("protocol", "==", token.value));
      }
      if token.value !in FIELDS {
        return Err(UnknownField(token.value));
      }
      var operator := Next();
      if operator.Err? {
        return Err(operator.error);
      }
      if operator.value !in OPERATORS {
        return Err(ExpectedOperator(token.value, operator.value));
      }
      var value := Next();
      if value.Err? {
        return Err(value.error);
      }
      return Ok(Comparison(token.value, operator.value, Unquote(value.value)));
    }
  }

  method CompileFilter(text: string) returns (r: Result<Expr, FilterError>)
    ensures r == Compile(text)
  {
    var tokens := Tokenize(text);
    if tokens.Err? {
      return Err(tokens.error);
    }
    if tokens.value == [] {
      return Ok(MATCH_ALL);
    }
    var parser := new Parser(tokens.value);
    r := parser.ParseAll();
  }
}
