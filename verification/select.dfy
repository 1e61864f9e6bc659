/** SELECT statements (lib/mssql.js:313-364). A paginated select numbers its rows with a
    `ROW_NUMBER()` column, which the pagination clause then selects on; an unordered
    select is ordered by the model's ids. */
module Select {
  import opened Options
  import opened Text
  import opened Fragments
  import opened Models
  import opened Escaping
  import opened Pagination

  /** What the base class contributes: its column list for the filter, and its
      `buildOrderBy` (the empty string when there is nothing to order by). */
  datatype SelectBase = SelectBase(columnNames: string, orderBy: Option<seq<string>> -> string)

  /** The order `buildSelect` uses: the filter's own when it has one (an empty list
      included), else the id names when the model has ids. */
  function DefaultOrder(m: Model, order: Option<seq<string>>): (r: Option<seq<string>>)
    ensures order.Some? ==> r == order
    ensures order.None? ==> (r.Some? <==> |IdNames(m)| > 0)
    ensures r.Some? && order.None? ==> r.value == IdNames(m)
  {
    if order.None? && |IdNames(m)| > 0 then Some(IdNames(m)) else order
  }

  /** The ordering inside `OVER (...)`: the base class's ORDER BY, or a constant one. */
  function WindowOrder(orderText: string): (r: string)
    ensures orderText != "" ==> r == orderText
    ensures r != ""
  {
    if orderText != "" then orderText else "ORDER BY (SELECT 1)"
  }

  /** `PARTITION BY <column>` when a partition column is given (`""` when none is). */
  function PartitionClause(m: Model, partitionBy: string): (r: string)
    ensures partitionBy == "" <==> r == ""
  {
    if partitionBy != "" then "PARTITION BY " + ColumnEscaped(m, partitionBy) else ""
  }

  const RowNumberPrefix: string := ",ROW_NUMBER() OVER ("
  const RowNumberSuffix: string := ") AS RowNum"

  /** `buildColumnNames(model, filter, options)`: the base columns, followed, when the
      filter is paginated, by the `RowNum` column numbering rows in the filter's order. */
  function BuildColumnNames(m: Model, f: Filter, partitionBy: string, base: SelectBase): (r: string)
    ensures !Paginated(f) ==> r == base.columnNames
    ensures Paginated(f) ==>
      && StartsWith(r, base.columnNames + RowNumberPrefix)
      && EndsWith(r, RowNumberSuffix)
  {
    if Paginated(f) then
      var over := PartitionClause(m, partitionBy) + " " + WindowOrder(base.orderBy(f.order));
      ConcatBounds(base.columnNames + RowNumberPrefix, over + RowNumberSuffix);
      ConcatBounds(base.columnNames + RowNumberPrefix + over, RowNumberSuffix);
      base.columnNames + RowNumberPrefix + over + RowNumberSuffix
    else
      base.columnNames
  }

  /** Reads the contents of the `OVER (...)` clause back out of a column list that begins
      with `columns`. */
  function ReadWindow(r: string, columns: string): Option<string> {
    var prefix := columns + RowNumberPrefix;
    if |r| >= |prefix| + |RowNumberSuffix| && StartsWith(r, prefix) && EndsWith(r, RowNumberSuffix) then
      Some(r[|prefix|..|r| - |RowNumberSuffix|])
    else None
  }

  /** The row numbering of a paginated select is over the partition column, when given,
      and the filter's order, or a constant order when the filter orders by nothing. */
  lemma RowNumberWindow(m: Model, f: Filter, partitionBy: string, base: SelectBase)
    requires Paginated(f)
    ensures ReadWindow(BuildColumnNames(m, f, partitionBy, base), base.columnNames)
      == Some(PartitionClause(m, partitionBy) + " " + WindowOrder(base.orderBy(f.order)))
  {
    var over := PartitionClause(m, partitionBy) + " " + WindowOrder(base.orderBy(f.order));
    var prefix := base.columnNames + RowNumberPrefix;
    var r := BuildColumnNames(m, f, partitionBy, base);
    assert r == prefix + over + RowNumberSuffix;
    assert r[|prefix|..|r| - |RowNumberSuffix|] == over;
  }

  /** The text every select starts from: its columns and its table. */
  function SelectHead(m: Model, f: Filter, partitionBy: string, base: SelectBase): string {
    "SELECT " + BuildColumnNames(m, f.(order := DefaultOrder(m, f.order)), partitionBy, base)
      + " FROM " + TableEscaped(m)
  }

  /** The head with the WHERE fragment merged in, when the filter has one. */
  function SelectWhere(m: Model, f: Filter, partitionBy: string, base: SelectBase): (r: Fragment)
    ensures StartsWith(r.sql, SelectHead(m, f, partitionBy, base))
    ensures f.where.Some? ==> r.sql == SelectHead(m, f, partitionBy, base) + " " + f.where.value.sql
    ensures f.where.None? ==> r.sql == SelectHead(m, f, partitionBy, base)
    ensures f.where.Some? ==> r.params == f.where.value.params
    ensures f.where.None? ==> r.params == []
  {
    var head := SelectHead(m, f, partitionBy, base);
    if f.where.Some? then
      ConcatBounds(head, DefaultSeparator + f.where.value.sql);
      assert head + DefaultSeparator + f.where.value.sql == head + (DefaultSeparator + f.where.value.sql);
      Merge(Literal(head), f.where.value, DefaultSeparator)
    else
      ConcatBounds(head, "");
      assert head + "" == head;
      Literal(head)
  }

  /** `buildSelect` up to its last step: the statement it hands to the base class's
      `parameterize`, which is not part of this model. `where` is the
      base class's WHERE fragment for the filter's `where`, when it has one. The bound
      values are exactly the WHERE fragment's: neither ordering nor pagination adds any. */
  function BuildSelect(m: Model, f: Filter, partitionBy: string, base: SelectBase,
                       supportsOffsetFetch: bool): (r: Fragment)
    ensures f.where.Some? ==> r.params == f.where.value.params
    ensures f.where.None? ==> r.params == []
    ensures !Paginated(f) && DefaultOrder(m, f.order).Some? ==>
      r.sql == SelectWhere(m, f, partitionBy, base).sql + " " + base.orderBy(DefaultOrder(m, f.order))
    ensures !Paginated(f) && DefaultOrder(m, f.order).None? ==> r == SelectWhere(m, f, partitionBy, base)
    ensures Paginated(f) ==> r == ApplyPagination(SelectWhere(m, f, partitionBy, base),
      f.(order := DefaultOrder(m, f.order)), supportsOffsetFetch)
  {
    var g := f.(order := DefaultOrder(m, f.order));
    var withWhere := SelectWhere(m, f, partitionBy, base);
    if Paginated(g) then ApplyPagination(withWhere, g, supportsOffsetFetch)
    else if g.order.Some? then Merge(withWhere, Literal(base.orderBy(g.order)), DefaultSeparator)
    else withWhere
  }

  /** An unpaginated select is its head, the WHERE text, then the ORDER BY for the
      (defaulted) order when there is one. */
  lemma UnpaginatedSelectShape(m: Model, f: Filter, partitionBy: string, base: SelectBase, supportsOffsetFetch: bool)
    requires !Paginated(f)
    ensures var r := BuildSelect(m, f, partitionBy, base, supportsOffsetFetch).sql;
      && StartsWith(r, SelectHead(m, f, partitionBy, base))
      && (DefaultOrder(m, f.order).Some? ==> EndsWith(r, " " + base.orderBy(DefaultOrder(m, f.order))))
  {
    var order := DefaultOrder(m, f.order);
    var w := SelectWhere(m, f, partitionBy, base).sql;
    var r := BuildSelect(m, f, partitionBy, base, supportsOffsetFetch).sql;
    if order.Some? {
      var orderText := base.orderBy(order);
      assert r == w + (" " + orderText);
      ConcatBounds(w, " " + orderText);
      StartsWithTrans(r, w, SelectHead(m, f, partitionBy, base));
    }
  }

  /** A natively paginated select starts with its head and ends with the OFFSET clause. */
  lemma NativeSelectShape(m: Model, f: Filter, partitionBy: string, base: SelectBase)
    requires Paginated(f)
    ensures var r := BuildSelect(m, f, partitionBy, base, true).sql;
      && StartsWith(r, SelectHead(m, f, partitionBy, base))
      && EndsWith(r, BuildLimit(f.limit, Or(f.offset, f.skip)))
  {
    var w := SelectWhere(m, f, partitionBy, base).sql;
    var g := f.(order := DefaultOrder(m, f.order));
    assert Paginated(g);
    var clause := BuildLimit(g.limit, Or(g.offset, g.skip));
    var r := ApplyPagination(SelectWhere(m, f, partitionBy, base), g, true).sql;
    assert BuildSelect(m, f, partitionBy, base, true).sql == r;
    assert r == w + DefaultSeparator + clause;
    ConcatBounds(w + DefaultSeparator, clause);
    StartsWithShorter(r, w, DefaultSeparator);
    StartsWithTrans(r, w, SelectHead(m, f, partitionBy, base));
  }

  /** A select paginated the legacy way is the outer `RowNum` query around its head. */
  lemma LegacySelectShape(m: Model, f: Filter, partitionBy: string, base: SelectBase)
    requires Paginated(f)
    ensures StartsWith(BuildSelect(m, f, partitionBy, base, false).sql,
      "SELECT * FROM (" + SelectHead(m, f, partitionBy, base))
  {
    var head := SelectHead(m, f, partitionBy, base);
    var w := SelectWhere(m, f, partitionBy, base).sql;
    var g := f.(order := DefaultOrder(m, f.order));
    assert Paginated(g);
    var r := ApplyPagination(SelectWhere(m, f, partitionBy, base), g, false).sql;
    assert BuildSelect(m, f, partitionBy, base, false).sql == r;
    var opening := "SELECT * FROM (" + w;
    var outer := opening + Newline + ") AS S" + Newline;
    assert StartsWith(r, outer);
    StartsWithShorter(r, opening + Newline + ") AS S", Newline);
    StartsWithShorter(r, opening + Newline, ") AS S");
    StartsWithShorter(r, opening, Newline);
    StartsWithPrepend("SELECT * FROM (", w, head);
    StartsWithTrans(r, opening, "SELECT * FROM (" + head);
  }

  /** A select whose filter gives no order and which is not paginated ends with the base
      class's ORDER BY for the model's ids, when the model has any; a paginated one numbers
      its rows in that order. */
  lemma SelectOrdersByIds(m: Model, f: Filter, partitionBy: string, base: SelectBase, supportsOffsetFetch: bool)
    requires f.order.None? && |IdNames(m)| > 0
    ensures !Paginated(f) ==>
      EndsWith(BuildSelect(m, f, partitionBy, base, supportsOffsetFetch).sql, " " + base.orderBy(Some(IdNames(m))))
    ensures Paginated(f) ==>
      ReadWindow(BuildColumnNames(m, f.(order := DefaultOrder(m, f.order)), partitionBy, base), base.columnNames)
      == Some(PartitionClause(m, partitionBy) + " " + WindowOrder(base.orderBy(Some(IdNames(m)))))
  {
    var g := f.(order := DefaultOrder(m, f.order));
    if Paginated(f) {
      RowNumberWindow(m, g, partitionBy, base);
    } else {
      UnpaginatedSelectShape(m, f, partitionBy, base, supportsOffsetFetch);
    }
  }
}
