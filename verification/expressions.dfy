/** Parsing of the `--where` condition (`price>100`) and the `--aggregate`
    call (`avg(price)`). */
module Expressions {
  import opened Wrappers
  import opened Tables
  import Strings

  /** The three comparison operators a condition may use. */
  datatype Op = Gt | Lt | Eq

  predicate IsOpChar(c: char) {
    c == '>' || c == '<' || c == '='
  }

  function OpChar(op: Op): (c: char)
    ensures IsOpChar(c)
  {
    match op
    case Gt => '>'
    case Lt => '<'
    case Eq => '='
  }

  function CharToOp(c: char): (op: Op)
    requires IsOpChar(c)
    ensures OpChar(op) == c
  {
    if c == '>' then Gt else if c == '<' then Lt else Eq
  }

  /** A filter condition: column, operator and operand text. */
  datatype Condition = Condition(column: string, op: Op, operand: string)

  /** The expression text a condition is written as. */
  function ConditionText(c: Condition): string {
    c.column + [OpChar(c.op)] + c.operand
  }

  predicate HasOpChar(s: string) {
    '>' in s || '<' in s || '=' in s
  }

  /** Splits at the first operator character; fails when there is none. */
  function ParseFilter(expr: string): (r: Result<Condition, Error>)
    ensures r.Success? <==> HasOpChar(expr)
    ensures r.Success? ==> ConditionText(r.value) == expr && !HasOpChar(r.value.column)
    ensures r.Failure? ==> r.error == InvalidExpression(expr)
  {
    match Strings.FindFirst(expr, IsOpChar)
    case None => Failure(InvalidExpression(expr))
    case Some(k) =>
      assert expr == expr[..k] + [expr[k]] + expr[k + 1..];
      Success(Condition(expr[..k], CharToOp(expr[k]), expr[k + 1..]))
  }

  /** A condition whose column holds no operator character is recovered from its
      text; operator characters in the operand are harmless. */
  lemma ParseFilterInverse(c: Condition)
    requires !HasOpChar(c.column)
    ensures ParseFilter(ConditionText(c)) == Success(c)
  {
    var text := ConditionText(c);
    var k := |c.column|;
    assert text[..k] == c.column && text[k] == OpChar(c.op) && text[k + 1..] == c.operand;
    var found := Strings.FindFirst(text, IsOpChar);
    assert found.Some? by {
      assert IsOpChar(text[k]);
    }
    assert forall j :: 0 <= j < k ==> text[j] == c.column[j];
    assert found.value == k;
    assert CharToOp(OpChar(c.op)) == c.op;
  }

  /** An aggregate call: function name and column. */
  datatype AggCall = AggCall(func: string, column: string)

  /** The text `func(column)`, also the label printed over an aggregate's value. */
  function CallText(a: AggCall): string {
    a.func + "(" + a.column + ")"
  }

  /** Requires a trailing `)`, then splits what precedes it at the first `(`. */
  function ParseAgg(expr: string): (r: Result<AggCall, Error>)
    ensures r.Success? <==> |expr| > 0 && expr[|expr| - 1] == ')' && '(' in expr
    ensures r.Success? ==> CallText(r.value) == expr && '(' !in r.value.func
    ensures r.Failure? ==> r.error == InvalidExpression(expr)
  {
    if |expr| == 0 || expr[|expr| - 1] != ')' then
      Failure(InvalidExpression(expr))
    else
      var inner := expr[..|expr| - 1];
      assert expr == inner + ")";
      match Strings.FindFirst(inner, c => c == '(')
      case None => Failure(InvalidExpression(expr))
      case Some(k) =>
        assert inner == inner[..k] + "(" + inner[k + 1..];
        Success(AggCall(inner[..k], inner[k + 1..]))
  }

  /** A call whose function name holds no `(` is recovered from its text; the
      column may contain brackets of either kind. */
  lemma ParseAggInverse(a: AggCall)
    requires '(' !in a.func
    ensures ParseAgg(CallText(a)) == Success(a)
  {
    var text := CallText(a);
    var inner := text[..|text| - 1];
    var k := |a.func|;
    assert text[|text| - 1] == ')';
    assert inner == a.func + "(" + a.column;
    assert inner[..k] == a.func && inner[k] == '(' && inner[k + 1..] == a.column;
    var found := Strings.FindFirst(inner, c => c == '(');
    assert found.Some? by {
      assert inner[k] == '(';
    }
    assert forall j :: 0 <= j < k ==> inner[j] == a.func[j];
    assert found.value == k;
  }
}
