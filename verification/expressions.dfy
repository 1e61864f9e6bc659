/** Operator translation (lib/mssql.js:395-421). `like` and `nlike` become SQL Server's
    `[NOT] LIKE ? ESCAPE '\'` with the operand as the one parameter; every other operator
    is the base class's expression. */
module Expressions {
  import opened Text
  import opened JsValues
  import opened Fragments

  /** The pattern escape character is a backslash. */
  const EscapeClause: string := " ESCAPE '\\'"

  /** ` LIKE ? ESCAPE '\'`, or ` NOT LIKE ? ESCAPE '\'`. */
  function LikeClause(negated: bool): string {
    (if negated then " NOT LIKE " else " LIKE ") + "?" + EscapeClause
  }

  /** The clause holds exactly one '?' and ends with the escape clause. */
  lemma LikeClauseShape(negated: bool)
    ensures CountChar(LikeClause(negated), '?') == 1
    ensures EndsWith(LikeClause(negated), EscapeClause)
  {
    var keyword := if negated then " NOT LIKE " else " LIKE ";
    CountCharNone(keyword, '?');
    CountCharNone(EscapeClause, '?');
    CountCharAppend(keyword, "?", '?');
    CountCharAppend(keyword + "?", EscapeClause, '?');
    ConcatBounds(keyword + "?", EscapeClause);
  }

  /** `buildExpression(columnName, operator, operatorValue)`; `fallback` is the base
      class's expression for the same arguments. */
  function BuildExpression(column: string, op: string, v: Value, fallback: Fragment): (r: Fragment)
    ensures op == "like" || op == "nlike" ==>
      && r.params == [v]
      && StartsWith(r.sql, column)
      && EndsWith(r.sql, EscapeClause)
      && CountChar(r.sql, '?') == CountChar(column, '?') + 1
      && |r.sql| == |column| + |LikeClause(op == "nlike")|
    ensures op == "like" ==> EndsWith(r.sql, LikeClause(false))
    ensures op == "nlike" ==> EndsWith(r.sql, LikeClause(true))
    ensures op != "like" && op != "nlike" ==> r == fallback
  {
    if op == "like" || op == "nlike" then
      var tail := LikeClause(op == "nlike");
      ConcatBounds(column, tail);
      CountCharAppend(column, tail, '?');
      LikeClauseShape(op == "nlike");
      EndsWithTrans(column + tail, tail, EscapeClause);
      Fragment(column + tail, [v])
    else
      fallback
  }

  /** For a column name without '?', a translated `like` or `nlike` has exactly one
      marker, which the base class's parameterization binds to the one parameter. */
  lemma LikeBindsOneMarker(column: string, op: string, v: Value, fallback: Fragment)
    requires op == "like" || op == "nlike"
    requires forall i :: 0 <= i < |column| ==> column[i] != '?'
    ensures CountChar(BuildExpression(column, op, v, fallback).sql, '?') == |BuildExpression(column, op, v, fallback).params| == 1
  {
    CountCharNone(column, '?');
  }
}
