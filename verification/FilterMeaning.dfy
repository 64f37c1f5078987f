// What a compiled display filter says about a row.
module FilterMeaning {
  import opened Wrappers
  import opened DisplayFilter
  import opened DisplayFilterTheorems

  /** The attributes of a row that are present and not None, as text. */
  type Row = map<string, string>

  /** What Python's `float` makes of a text that it accepts. */
  datatype Number = Finite(value: real) | PositiveInfinity | NegativeInfinity | NaN {
    /** `<`: false whenever one side is no number. */
    predicate Less(other: Number) {
      match (this, other)
      case (Finite(x), Finite(y)) => x < y
      case (Finite(_), PositiveInfinity) => true
      case (NegativeInfinity, Finite(_)) => true
      case (NegativeInfinity, PositiveInfinity) => true
      case _ => false
    }

    /** `==`: a text that reads as `nan` equals nothing, itself included. */
    predicate Equals(other: Number) { this == other && !NaN? }
  }

  /** Python's `str.lower` and `float` on text: what it reads as, or nothing. */
  datatype Reading = Reading(lower: string -> string, number: string -> Option<Number>)

  function Attribute(row: Row, name: string): Option<string> {
    if name in row then Some(row[name]) else None
  }

  /** Two values for a field that stands for both endpoints, otherwise one. */
  function FieldValues(field: string, row: Row): seq<Option<string>> {
    if field == "ip" then [Attribute(row, "source"), Attribute(row, "destination")]
    else if field == "port" then [Attribute(row, "src_port"), Attribute(row, "dst_port")]
    else if field == "src" then [Attribute(row, "source")]
    else if field == "dst" then [Attribute(row, "destination")]
    else if field == "sport" then [Attribute(row, "src_port")]
    else if field == "dport" then [Attribute(row, "dst_port")]
    else if field == "flow" then [Attribute(row, "flow_id")]
    else if field == "protocol" then
      [if "protocol" in row then Attribute(row, "protocol") else Attribute(row, "event_type")]
    else if field == "type" then [Attribute(row, "event_type")]
    else [Attribute(row, field)]
  }

  /** Python's `needle in text`. */
  ghost predicate Occurs(needle: string, text: string) {
    exists i: nat :: OccursAt(needle, text, i)
  }

  predicate OccursAt(needle: string, text: string, i: nat) {
    i + |needle| <= |text| && text[i..i + |needle|] == needle
  }

  /** Numbers compare as numbers, anything else as text without case. */
  function Same(rd: Reading, actual: string, expected: string): bool {
    var left, right := rd.number(actual), rd.number(expected);
    if left.Some? && right.Some? then left.value.Equals(right.value)
    else rd.lower(actual) == rd.lower(expected)
  }

  ghost predicate CompareOne(rd: Reading, actual: Option<string>, operator: string, expected: string)
    requires operator in OPERATORS
  {
    actual.Some? &&
    if operator == "contains" then Occurs(rd.lower(expected), rd.lower(actual.value))
    else if operator == "==" then Same(rd, actual.value, expected)
    else if operator == "!=" then !Same(rd, actual.value, expected)
    else
      var left, right := rd.number(actual.value), rd.number(expected);
      && left.Some? && right.Some?
      && if operator == "<" then left.value.Less(right.value)
         else if operator == "<=" then left.value.Less(right.value) || left.value.Equals(right.value)
         else if operator == ">" then right.value.Less(left.value)
         else right.value.Less(left.value) || left.value.Equals(right.value)
  }

  /** Any of the field's values will do. */
  ghost predicate Compare(rd: Reading, actual: seq<Option<string>>, operator: string, expected: string)
    requires operator in OPERATORS
  {
    exists i :: 0 <= i < |actual| && CompareOne(rd, actual[i], operator, expected)
  }

  predicate Evaluable(e: Expr) {
    match e
    case Comparison(_, operator, _) => operator in OPERATORS
    case And(left, right) => Evaluable(left) && Evaluable(right)
    case Or(left, right) => Evaluable(left) && Evaluable(right)
    case Not(node) => Evaluable(node)
  }

  ghost predicate Evaluate(rd: Reading, e: Expr, row: Row)
    requires Evaluable(e)
  {
    match e
    case Comparison(field, operator, value) => Compare(rd, FieldValues(field, row), operator, value)
    case And(left, right) => Evaluate(rd, left, row) && Evaluate(rd, right, row)
    case Or(left, right) => Evaluate(rd, left, row) || Evaluate(rd, right, row)
    case Not(node) => !Evaluate(rd, node, row)
  }

  // ------------------------------------------------------------ laws

  lemma {:induction false} WellFormedIsEvaluable(e: Expr)
    requires WellFormed(e)
    ensures Evaluable(e)
  {
    match e
    case Comparison(_, _, _) =>
    case And(left, right) => WellFormedIsEvaluable(left); WellFormedIsEvaluable(right);
    case Or(left, right) => WellFormedIsEvaluable(left); WellFormedIsEvaluable(right);
    case Not(node) => WellFormedIsEvaluable(node);
  }

  /** A filter that compiles never meets an unsupported operator, and its printed form means the same. */
  lemma CompiledFiltersEvaluate(rd: Reading, text: string, row: Row)
    requires Compile(text).Ok?
    ensures var e := Compile(text).value;
            && Evaluable(e) && Compile(Print(e)).Ok? && Evaluable(Compile(Print(e)).value)
            && Evaluate(rd, e, row) == Evaluate(rd, Compile(Print(e)).value, row)
  {
    hide *;
    CompileThenPrint(text);
    WellFormedIsEvaluable(Compile(text).value);
  }

  /** The empty filter does not match everything: a row needs a protocol or an event type. */
  lemma EmptyFilterMatchesIff(rd: Reading, row: Row)
    requires rd.lower("") == ""
    ensures Evaluable(MATCH_ALL)
    ensures Evaluate(rd, MATCH_ALL, row) <==> "protocol" in row || "event_type" in row
  {
    var values := FieldValues("protocol", row);
    if values[0].Some? {
      var text := rd.lower(values[0].value);
      assert OccursAt("", text, 0);
      assert CompareOne(rd, values[0], "contains", "");
    }
    assert Compare(rd, values, "contains", "") <==> values[0].Some?;
  }

  /** A row with neither attribute, such as a stream whose protocol is not known yet, is not selected. */
  lemma EmptyFilterSkipsARow(rd: Reading)
    ensures Compile("") == Ok(MATCH_ALL) && Evaluable(MATCH_ALL)
    ensures !Evaluate(rd, MATCH_ALL, map["state" := "ESTABLISHED"])
  {
    hide Compile, Evaluate;
    EmptyTextIsMatchAll();
    NoProtocol(rd, map["state" := "ESTABLISHED"]);
  }

  lemma EmptyTextIsMatchAll()
    ensures Compile("") == Ok(MATCH_ALL) && Evaluable(MATCH_ALL)
  {
  }

  lemma NoProtocol(rd: Reading, row: Row)
    requires "protocol" !in row && "event_type" !in row
    ensures Evaluable(MATCH_ALL) && !Evaluate(rd, MATCH_ALL, row)
  {
  }

  // ------------------------------------------------------------ equal and not equal

  /** One of two attributes is there, and if both are, both equal v or neither does. */
  predicate EndsAgree(rd: Reading, row: Row, a: string, b: string, v: string) {
    && (a in row || b in row)
    && (a in row && b in row ==> Same(rd, row[a], v) == Same(rd, row[b], v))
  }

  /** The attribute a single-valued field stands for. */
  function Named(field: string, row: Row): string {
    if field == "src" then "source"
    else if field == "dst" then "destination"
    else if field == "sport" then "src_port"
    else if field == "dport" then "dst_port"
    else if field == "flow" then "flow_id"
    else if field == "protocol" && "protocol" in row then "protocol"
    else if field == "protocol" || field == "type" then "event_type"
    else field
  }

  /** The row has an answer for the field, and only one. */
  predicate OneAnswer(rd: Reading, field: string, v: string, row: Row) {
    if field == "ip" then EndsAgree(rd, row, "source", "destination", v)
    else if field == "port" then EndsAgree(rd, row, "src_port", "dst_port", v)
    else Named(field, row) in row
  }

  /**
    * `f != v` is the negation of `f == v` exactly when the row has the attribute, or for the two-valued
    * fields `ip` and `port` one of the two, and two that are there are both equal to v or both not.
    */
  lemma NotEqualNegatesEqualIff(rd: Reading, field: string, v: string, row: Row)
    ensures (Evaluate(rd, Comparison(field, "!=", v), row) == !Evaluate(rd, Comparison(field, "==", v), row))
       <==> OneAnswer(rd, field, v, row)
  {
    hide Same;
    if field == "ip" {
      TwoValues(rd, row, "source", "destination", v);
    } else if field == "port" {
      TwoValues(rd, row, "src_port", "dst_port", v);
    } else {
      SingleField(field, row);
      hide FieldValues, Named;
      var values := FieldValues(field, row);
      OneValue(rd, values, "==", v);
      OneValue(rd, values, "!=", v);
    }
  }

  lemma SingleField(field: string, row: Row)
    requires field != "ip" && field != "port"
    ensures FieldValues(field, row) == [Attribute(row, Named(field, row))]
  {
  }

  lemma TwoValues(rd: Reading, row: Row, a: string, b: string, v: string)
    ensures var values := [Attribute(row, a), Attribute(row, b)];
            (Compare(rd, values, "!=", v) == !Compare(rd, values, "==", v)) <==> EndsAgree(rd, row, a, b, v)
  {
    var values := [Attribute(row, a), Attribute(row, b)];
    hide Same;
    Either(rd, values, "==", v);
    Either(rd, values, "!=", v);
    hide Compare;
  }

  lemma Either(rd: Reading, values: seq<Option<string>>, operator: string, v: string)
    requires |values| == 2 && operator in OPERATORS
    ensures Compare(rd, values, operator, v)
       <==> CompareOne(rd, values[0], operator, v) || CompareOne(rd, values[1], operator, v)
  {
    hide CompareOne;
  }

  /** `ip` is `src` or `dst`, and `port` is `sport` or `dport`, under every operator, `!=` included. */
  lemma EitherEndpoint(rd: Reading, op: string, v: string, row: Row)
    requires op in OPERATORS
    ensures Evaluate(rd, Comparison("ip", op, v), row)
       <==> Evaluate(rd, Comparison("src", op, v), row) || Evaluate(rd, Comparison("dst", op, v), row)
    ensures Evaluate(rd, Comparison("port", op, v), row)
       <==> Evaluate(rd, Comparison("sport", op, v), row) || Evaluate(rd, Comparison("dport", op, v), row)
  {
    Either(rd, FieldValues("ip", row), op, v);
    Either(rd, FieldValues("port", row), op, v);
    OneValue(rd, FieldValues("src", row), op, v);
    OneValue(rd, FieldValues("dst", row), op, v);
    OneValue(rd, FieldValues("sport", row), op, v);
    OneValue(rd, FieldValues("dport", row), op, v);
    hide Compare, CompareOne;
  }

  /** On a packet between two addresses, `ip == a` and `ip != a` both hold; without addresses neither does. */
  lemma BothOrNeither(rd: Reading, a: string, b: string)
    requires !Same(rd, b, a) && Same(rd, a, a)
    ensures var row := map["source" := a, "destination" := b];
            Evaluate(rd, Comparison("ip", "==", a), row) && Evaluate(rd, Comparison("ip", "!=", a), row)
    ensures !Evaluate(rd, Comparison("ip", "==", a), map[]) && !Evaluate(rd, Comparison("ip", "!=", a), map[])
    ensures !Evaluate(rd, Comparison("sport", "==", a), map[]) && !Evaluate(rd, Comparison("sport", "!=", a), map[])
  {
    hide Same;
    var row := map["source" := a, "destination" := b];
    var values := FieldValues("ip", row);
    assert CompareOne(rd, values[0], "==", a) && CompareOne(rd, values[1], "!=", a);
  }

  /** The same with two addresses and texts compared as they are. */
  lemma BothHoldOnARow()
    ensures var rd := Reading(text => text, text => None);
            var row := map["source" := "10.0.0.1", "destination" := "10.0.0.2"];
            && Evaluate(rd, Comparison("ip", "==", "10.0.0.1"), row)
            && Evaluate(rd, Comparison("ip", "!=", "10.0.0.1"), row)
            && !OneAnswer(rd, "ip", "10.0.0.1", row)
  {
    var rd := Reading(text => text, text => None);
    var a, b := "10.0.0.1", "10.0.0.2";
    assert a[7] != b[7];
    BothOrNeither(rd, a, b);
    hide Evaluate;
  }

  /** The text reads as a number, finite or not, that can be compared. */
  predicate Ordered(rd: Reading, text: string) { rd.number(text).Some? && !rd.number(text).value.NaN? }

  /**
    * On a single-valued field `<` is the negation of `>=`, and `<=` that of `>`, exactly when both sides are
    * numbers other than `nan`; then `<=` is `<` or `==`, and exactly one of `<`, `==` and `>` holds.
    */
  lemma OrderNegatesIff(rd: Reading, field: string, v: string, row: Row)
    requires field != "ip" && field != "port"
    ensures var actual := FieldValues(field, row)[0];
            var numbers := actual.Some? && Ordered(rd, actual.value) && Ordered(rd, v);
            var lt, le := Evaluate(rd, Comparison(field, "<", v), row), Evaluate(rd, Comparison(field, "<=", v), row);
            var gt, ge := Evaluate(rd, Comparison(field, ">", v), row), Evaluate(rd, Comparison(field, ">=", v), row);
            var eq := Evaluate(rd, Comparison(field, "==", v), row);
            && (lt == !ge <==> numbers) && (le == !gt <==> numbers)
            && (numbers ==> le == (lt || eq) && !(lt && eq) && !(gt && eq) && !(lt && gt) && (lt || eq || gt))
  {
    var values := FieldValues(field, row);
    assert |values| == 1;
    hide FieldValues;
    OneValue(rd, values, "<", v);
    OneValue(rd, values, "<=", v);
    OneValue(rd, values, ">", v);
    OneValue(rd, values, ">=", v);
    OneValue(rd, values, "==", v);
    if values[0].Some? && rd.number(values[0].value).Some? && rd.number(v).Some? {
      NumbersCompare(rd.number(values[0].value).value, rd.number(v).value);
    }
  }

  /** The reading of a text as a finite number. */
  predicate ReadsAs(rd: Reading, text: string, x: real) { rd.number(text) == Some(Finite(x)) }

  /** On a single-valued field whose text and operand read as finite numbers, operators compare those. */
  lemma FiniteNumbersCompare(rd: Reading, field: string, v: string, row: Row, x: real, y: real)
    requires field != "ip" && field != "port" && Named(field, row) in row
    requires ReadsAs(rd, row[Named(field, row)], x) && ReadsAs(rd, v, y)
    ensures Evaluate(rd, Comparison(field, "<", v), row) <==> x < y
    ensures Evaluate(rd, Comparison(field, "<=", v), row) <==> x <= y
    ensures Evaluate(rd, Comparison(field, ">", v), row) <==> x > y
    ensures Evaluate(rd, Comparison(field, ">=", v), row) <==> x >= y
    ensures Evaluate(rd, Comparison(field, "==", v), row) <==> x == y
    ensures Evaluate(rd, Comparison(field, "!=", v), row) <==> x != y
  {
    SingleField(field, row);
    SingleValue(rd, field, row, v);
    hide FieldValues, Named, Compare;
  }

  lemma SingleValue(rd: Reading, field: string, row: Row, v: string)
    requires field != "ip" && field != "port" && Named(field, row) in row
    ensures forall op <- OPERATORS ::
              Evaluate(rd, Comparison(field, op, v), row) == CompareOne(rd, Some(row[Named(field, row)]), op, v)
  {
    SingleField(field, row);
    hide FieldValues, Named, CompareOne;
    forall op <- OPERATORS {
      OneValue(rd, FieldValues(field, row), op, v);
    }
  }

  /** Infinity lies above and minus infinity below every other number. */
  lemma InfinitiesCompare(rd: Reading, field: string, v: string, row: Row)
    requires field != "ip" && field != "port" && Named(field, row) in row
    requires Ordered(rd, row[Named(field, row)])
    ensures rd.number(v) == Some(PositiveInfinity) ==>
              (Evaluate(rd, Comparison(field, "<", v), row)
               <==> rd.number(row[Named(field, row)]) != Some(PositiveInfinity))
    ensures rd.number(v) == Some(NegativeInfinity) ==>
              (Evaluate(rd, Comparison(field, ">", v), row)
               <==> rd.number(row[Named(field, row)]) != Some(NegativeInfinity))
  {
    SingleValue(rd, field, row, v);
    hide Named, Compare;
  }

  /**
    * Texts that are not both numbers are equal when they are without case; `contains` holds when the
    * operand stands somewhere in the text, without case.
    */
  lemma TextsCompare(rd: Reading, field: string, v: string, row: Row)
    requires field != "ip" && field != "port" && Named(field, row) in row
    ensures var text := row[Named(field, row)];
            && (rd.number(text).None? || rd.number(v).None? ==>
                  (Evaluate(rd, Comparison(field, "==", v), row) <==> rd.lower(text) == rd.lower(v))
                  && !Evaluate(rd, Comparison(field, "<", v), row) && !Evaluate(rd, Comparison(field, "<=", v), row)
                  && !Evaluate(rd, Comparison(field, ">", v), row) && !Evaluate(rd, Comparison(field, ">=", v), row))
            && (Evaluate(rd, Comparison(field, "contains", v), row)
                <==> exists a, b :: rd.lower(text) == Around(a, rd.lower(v), b))
  {
    SingleValue(rd, field, row, v);
    OccursIsAround(rd.lower(v), rd.lower(row[Named(field, row)]));
    hide Named, Compare, Occurs;
  }

  function Around(a: string, needle: string, b: string): string { a + needle + b }

  lemma OccursIsAround(needle: string, text: string)
    ensures Occurs(needle, text) <==> exists a, b :: text == Around(a, needle, b)
  {
    if Occurs(needle, text) {
      var i: nat :| OccursAt(needle, text, i);
      assert text == Around(text[..i], needle, text[i + |needle|..]);
    }
    if a, b :| text == Around(a, needle, b) {
      assert OccursAt(needle, text, |a|);
    }
  }

  /** Two numbers other than `nan` compare in exactly one way; `nan` compares in none. */
  lemma NumbersCompare(a: Number, b: Number)
    ensures if a.NaN? || b.NaN? then !a.Less(b) && !b.Less(a) && !a.Equals(b)
            else (a.Less(b) || b.Less(a) || a.Equals(b)) && !(a.Less(b) && b.Less(a))
                 && !(a.Equals(b) && (a.Less(b) || b.Less(a)))
  {
  }

  lemma OneValue(rd: Reading, values: seq<Option<string>>, operator: string, v: string)
    requires |values| == 1 && operator in OPERATORS
    ensures Compare(rd, values, operator, v) == CompareOne(rd, values[0], operator, v)
  {
    hide CompareOne;
  }
}
