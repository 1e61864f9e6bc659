/** Affected-row counting (lib/mssql.js:200-228). Update, delete and replace statements
    are followed, with no separator, by a query that selects `@@ROWCOUNT` under the
    column `count`; `getCountForAffectedRows` reads that column from the first row. */
module AffectedRows {
  import opened Options
  import opened Text
  import opened JsValues
  import opened Fragments

  const CountColumn: string := "count"
  const RowCountQuery: string := ";SELECT @@ROWCOUNT as " + CountColumn

  /** `stmt.merge(';SELECT @@ROWCOUNT as count', '')`, what `buildUpdate`, `buildDelete`
      and `buildReplace` each do to the base class's statement. The statement is kept
      whole, the query follows it directly, and no parameter is added. */
  function AppendRowCount(stmt: Fragment): (r: Fragment)
    ensures r.params == stmt.params
    ensures |r.sql| == |stmt.sql| + |RowCountQuery|
    ensures StartsWith(r.sql, stmt.sql)
    ensures EndsWith(r.sql, RowCountQuery)
  {
    var r := Merge(stmt, Literal(RowCountQuery), "");
    assert r.sql == stmt.sql + RowCountQuery;
    ConcatBounds(stmt.sql, RowCountQuery);
    r
  }

  /** `getCountForAffectedRows(model, info)`: the first row's `count` when it is a number
      (NaN included, since its type is number), `None` (undefined) when there is no first
      row or its `count` is missing or not a number. */
  function GetCountForAffectedRows(info: Option<seq<Row>>): (r: Option<JsNumber>)
    ensures r.Some? <==>
      info.Some? && |info.value| > 0 && CountColumn in info.value[0] && info.value[0][CountColumn].Num?
    ensures r.Some? ==> info.value[0][CountColumn] == Num(r.value)
  {
    match info
    case None => None
    case Some(rows) =>
      if |rows| > 0 && CountColumn in rows[0] && rows[0][CountColumn].Num? then Some(rows[0][CountColumn].n)
      else None
  }

  /** The column the appended query selects is the one read back: a first row holding the
      count `k` under it yields `k`, and a count of 0 is reported as 0, not as unavailable. */
  lemma RowCountReadBack(stmt: Fragment, k: int, rest: seq<Row>)
    ensures EndsWith(AppendRowCount(stmt).sql, " as " + CountColumn)
    ensures GetCountForAffectedRows(Some([map[CountColumn := Num(Int(k))]] + rest)) == Some(Int(k))
    ensures GetCountForAffectedRows(Some([map[CountColumn := Num(Int(0))]] + rest)).Some?
  {
    var r := AppendRowCount(stmt).sql;
    assert RowCountQuery == ";SELECT @@ROWCOUNT" + (" as " + CountColumn);
    ConcatBounds(";SELECT @@ROWCOUNT", " as " + CountColumn);
    EndsWithTrans(r, RowCountQuery, " as " + CountColumn);
  }

  /** Nothing is counted without a record set or a first row, or when the driver reports
      the count as text. */
  lemma CountUnavailable(row: Row, s: string)
    ensures GetCountForAffectedRows(None).None?
    ensures GetCountForAffectedRows(Some([])).None?
    ensures GetCountForAffectedRows(Some([row[CountColumn := Str(s)]])).None?
  {
  }
}
