/** Pagination (lib/mssql.js:366-393, 509-518). With `supportsOffsetFetch` the statement
    gets a native `ORDER BY RowNum OFFSET .. ROWS [FETCH NEXT .. ROWS ONLY]` clause;
    otherwise it is wrapped in an outer query that keeps the rows whose `RowNum` falls in
    the requested window. */
module Pagination {
  import opened Options
  import opened Text
  import opened Fragments

  /** A `limit`, `offset` or `skip` filter field as JavaScript sees it: absent, `null`,
      `NaN`, or an integral number. */
  datatype Bound = Unset | NullBound | NaNBound | Count(n: int) {

    /** `!!b`: a non-zero number. */
    predicate Truthy() {
      Count? && n != 0
    }

    /** `isNaN(b)`: true for `undefined` and NaN, false for `null` (which converts to 0). */
    predicate IsNaN() {
      Unset? || NaNBound?
    }

    /** `b >= 0`: false for `undefined` and NaN, true for `null`. */
    predicate AtLeastZero() {
      NullBound? || (Count? && n >= 0)
    }

    /** `'' + b`. */
    function Rendered(): string {
      match this
      case Unset => "undefined"
      case NullBound => "null"
      case NaNBound => "NaN"
      case Count(k) => IntToString(k)
    }
  }

  /** `a || b`. */
  function Or(a: Bound, b: Bound): Bound {
    if a.Truthy() then a else b
  }

  /** The parts of a filter the statement builder reads. `where` is the fragment the
      base class builds from `filter.where`, present when that is set. */
  datatype Filter = Filter(
    where: Option<Fragment>,
    order: Option<seq<string>>,
    limit: Bound,
    offset: Bound,
    skip: Bound)

  /** `filter.limit || filter.skip || filter.offset`: pagination is requested. A limit of
      0 requests none. */
  predicate Paginated(f: Filter) {
    f.limit.Truthy() || f.skip.Truthy() || f.offset.Truthy()
  }

  const OffsetPrefix: string := "ORDER BY RowNum OFFSET "
  const FetchPrefix: string := " ROWS FETCH NEXT "
  const RowsOnly: string := " ROWS ONLY"

  /** The offset as the native clause writes it: 0 for one that `isNaN`. */
  function OffsetText(offset: Bound): (r: string)
    ensures offset.IsNaN() ==> r == "0"
    ensures !offset.IsNaN() ==> r == offset.Rendered()
  {
    if offset.IsNaN() then "0" else offset.Rendered()
  }

  /** The FETCH part of the native clause, present when `limit >= 0`. */
  function FetchClause(limit: Bound): string {
    if limit.AtLeastZero() then " FETCH NEXT " + limit.Rendered() + RowsOnly else ""
  }

  /** `buildLimit(limit, offset)`. An offset that `isNaN` (absent or NaN) becomes 0; a
      FETCH clause follows exactly when `limit >= 0`, so an absent limit and -1 fetch
      everything. */
  function BuildLimit(limit: Bound, offset: Bound): (r: string)
    ensures StartsWith(r, OffsetPrefix)
    ensures StartsWith(r, OffsetPrefix + (OffsetText(offset) + " ROWS"))
    ensures EndsWith(r, RowsOnly) <==> limit.AtLeastZero()
    ensures limit.AtLeastZero() ==> EndsWith(r, " FETCH NEXT " + limit.Rendered() + RowsOnly)
    ensures |r| == |OffsetPrefix + (OffsetText(offset) + " ROWS")|
      + (if limit.AtLeastZero() then |" FETCH NEXT " + limit.Rendered() + RowsOnly| else 0)
  {
    ConcatBounds(" ROWS", FetchClause(limit));
    LimitClauseStart(OffsetText(offset), " ROWS" + FetchClause(limit));
    LimitClauseEnd(OffsetText(offset), limit);
    OffsetPrefix + (OffsetText(offset) + (" ROWS" + FetchClause(limit)))
  }

  /** The native clause for an offset written as `o` starts with the prefix and `o ROWS`. */
  lemma LimitClauseStart(o: string, rest: string)
    requires StartsWith(rest, " ROWS")
    ensures StartsWith(OffsetPrefix + (o + rest), OffsetPrefix)
    ensures StartsWith(OffsetPrefix + (o + rest), OffsetPrefix + (o + " ROWS"))
  {
    ConcatBounds(OffsetPrefix, o + rest);
    StartsWithPrepend(o, rest, " ROWS");
    StartsWithPrepend(OffsetPrefix, o + rest, o + " ROWS");
  }

  /** The native clause ends with ` ROWS ONLY` exactly when there is a FETCH, and then
      with the whole FETCH part. */
  lemma LimitClauseEnd(o: string, limit: Bound)
    ensures var r := OffsetPrefix + (o + (" ROWS" + FetchClause(limit)));
      && (EndsWith(r, RowsOnly) <==> limit.AtLeastZero())
      && (limit.AtLeastZero() ==> EndsWith(r, " FETCH NEXT " + limit.Rendered() + RowsOnly))
  {
    var rest := " ROWS" + FetchClause(limit);
    var r := OffsetPrefix + (o + rest);
    ConcatBounds(o, rest);
    ConcatBounds(OffsetPrefix, o + rest);
    EndsWithTrans(r, o + rest, rest);
    if limit.AtLeastZero() {
      var fetch := FetchClause(limit);
      ConcatBounds(" ROWS", fetch);
      EndsWithTrans(r, rest, fetch);
      ConcatBounds(" FETCH NEXT " + limit.Rendered(), RowsOnly);
      EndsWithTrans(r, fetch, RowsOnly);
    } else {
      // Without a FETCH the text ends in "S", where " ROWS ONLY" ends in "Y".
      assert rest == " ROWS";
      assert r[|r| - 1] == 'S' && RowsOnly[9] == 'Y';
      assert |r| >= 10 ==> r[|r| - 10..][9] == r[|r| - 1];
    }
  }

  /** Reads the text after the offset back into the row count a FETCH asks for, `None`
      when there is no FETCH. */
  function ReadFetch(tail: string): Option<Option<int>> {
    if tail == " ROWS" then Some(None)
    else if |tail| >= |FetchPrefix| + |RowsOnly| && StartsWith(tail, FetchPrefix) && EndsWith(tail, RowsOnly) then
      match ParseInt(tail[|FetchPrefix|..|tail| - |RowsOnly|])
      case None => None
      case Some(l) => Some(Some(l))
    else None
  }

  /** Reads a native clause back into its offset and, when there is a FETCH, its row
      count. */
  function ReadLimitClause(s: string): Option<(int, Option<int>)> {
    if !StartsWith(s, OffsetPrefix) then None
    else
      var rest := s[|OffsetPrefix|..];
      match FindChar(rest, ' ')
      case None => None
      case Some(k) =>
        match ParseInt(rest[..k])
        case None => None
        case Some(offset) =>
          match ReadFetch(rest[k..])
          case None => None
          case Some(fetch) => Some((offset, fetch))
  }

  /** The number an integral-or-absent offset stands for in the native clause. */
  function NativeOffset(offset: Bound): int
    requires !offset.NullBound?
  {
    if offset.Count? then offset.n else 0
  }

  /** The row count an integral-or-absent limit fetches, `None` for all rows. */
  function NativeFetch(limit: Bound): Option<int>
    requires !limit.NullBound?
  {
    if limit.Count? && limit.n >= 0 then Some(limit.n) else None
  }

  lemma FirstSpaceAfterNumber(i: int, tail: string)
    requires |tail| > 0 && tail[0] == ' '
    ensures FindChar(IntToString(i) + tail, ' ') == Some(|IntToString(i)|)
    ensures (IntToString(i) + tail)[..|IntToString(i)|] == IntToString(i)
    ensures (IntToString(i) + tail)[|IntToString(i)|..] == tail
  {
    IntToStringChars(i);
    var s := IntToString(i) + tail;
    assert !IsDigit(' ');
    FindCharFirst(s, ' ', |IntToString(i)|);
  }

  lemma ReadFetchRoundTrip(limit: Bound)
    requires !limit.NullBound?
    ensures ReadFetch(" ROWS" + FetchClause(limit)) == Some(NativeFetch(limit))
  {
    if limit.AtLeastZero() {
      var tail := " ROWS" + FetchClause(limit);
      assert tail == FetchPrefix + IntToString(limit.n) + RowsOnly;
      assert tail[|FetchPrefix|..|tail| - |RowsOnly|] == IntToString(limit.n);
      ConcatBounds(FetchPrefix, IntToString(limit.n) + RowsOnly);
      ConcatBounds(FetchPrefix + IntToString(limit.n), RowsOnly);
      assert tail != " ROWS";
      IntToStringRoundTrip(limit.n);
    } else {
      assert " ROWS" + FetchClause(limit) == " ROWS";
    }
  }

  /** A clause made of the prefix, an integer and a readable remainder reads back as that
      integer and what the remainder says. */
  lemma ReadLimitClauseOf(o: int, tail: string)
    requires |tail| > 0 && tail[0] == ' ' && ReadFetch(tail).Some?
    ensures ReadLimitClause(OffsetPrefix + (IntToString(o) + tail)) == Some((o, ReadFetch(tail).value))
  {
    var s := OffsetPrefix + (IntToString(o) + tail);
    ConcatBounds(OffsetPrefix, IntToString(o) + tail);
    assert s[|OffsetPrefix|..] == IntToString(o) + tail;
    FirstSpaceAfterNumber(o, tail);
    IntToStringRoundTrip(o);
  }

  /** The native clause reads back as the offset it was given (0 for an absent or NaN
      offset) and the limit it fetches (none for an absent, NaN or negative limit). */
  lemma LimitClauseRoundTrip(limit: Bound, offset: Bound)
    requires !limit.NullBound? && !offset.NullBound?
    ensures ReadLimitClause(BuildLimit(limit, offset)) == Some((NativeOffset(offset), NativeFetch(limit)))
  {
    var o := NativeOffset(offset);
    assert OffsetText(offset) == IntToString(o);
    ReadFetchRoundTrip(limit);
    ReadLimitClauseOf(o, " ROWS" + FetchClause(limit));
  }

  /** The rows whose 1-based `RowNum` p satisfies `lower < p` and, when there is an upper
      bound, `p <= upper`: what `WHERE S.RowNum > lower [AND S.RowNum <= upper]` keeps of
      rows numbered in order. */
  function RowNumWindow<T>(rows: seq<T>, lower: int, upper: Option<int>): seq<T> {
    if |rows| == 0 then []
    else
      var p := |rows|;
      RowNumWindow(rows[..p - 1], lower, upper)
      + (if lower < p && (upper.None? || p <= upper.value) then [rows[p - 1]] else [])
  }

  /** What `OFFSET offset ROWS [FETCH NEXT fetch ROWS ONLY]` keeps: skip `offset` rows,
      then take `fetch` rows, or all that are left. */
  function OffsetFetch<T>(rows: seq<T>, offset: nat, fetch: Option<nat>): seq<T> {
    var start := if offset < |rows| then offset else |rows|;
    var end := if fetch.None? || start + fetch.value > |rows| then |rows| else start + fetch.value;
    rows[start..end]
  }

  /** The two encodings keep the same rows: the window `(offset, offset + fetch]` of row
      numbers is the page OFFSET/FETCH describes. */
  lemma {:induction false} WindowIsOffsetFetch<T>(rows: seq<T>, offset: nat, fetch: Option<nat>)
    ensures RowNumWindow(rows, offset, if fetch.None? then None else Some(offset + fetch.value))
      == OffsetFetch(rows, offset, fetch)
  {
    var upper := if fetch.None? then None else Some(offset + fetch.value);
    if |rows| > 0 {
      var p := |rows|;
      var front := rows[..p - 1];
      WindowIsOffsetFetch(front, offset, fetch);
      if offset < p && (upper.None? || p <= upper.value) {
        assert RowNumWindow(rows, offset, upper) == RowNumWindow(front, offset, upper) + [rows[p - 1]];
        assert OffsetFetch(rows, offset, fetch) == rows[offset..p];
        assert OffsetFetch(front, offset, fetch) == front[offset..p - 1];
        assert front[offset..p - 1] == rows[offset..p - 1];
        assert rows[offset..p] == rows[offset..p - 1] + [rows[p - 1]];
      } else if offset >= p {
        assert RowNumWindow(rows, offset, upper) == RowNumWindow(front, offset, upper);
        assert OffsetFetch(rows, offset, fetch) == [];
        assert OffsetFetch(front, offset, fetch) == [];
      } else {
        var end := offset + fetch.value;
        assert end < p;
        assert RowNumWindow(rows, offset, upper) == RowNumWindow(front, offset, upper);
        assert OffsetFetch(rows, offset, fetch) == rows[offset..end];
        assert OffsetFetch(front, offset, fetch) == front[offset..end];
      }
    }
  }

  /** `filter.offset || filter.skip || 0`, the legacy lower bound. */
  function LegacyOffset(f: Filter): int {
    if f.offset.Truthy() then f.offset.n
    else if f.skip.Truthy() then f.skip.n
    else 0
  }

  /** The legacy upper bound: none for a limit of -1; `offset + limit` otherwise, which
      is `offset` for a null limit and NaN for an absent or NaN one. */
  datatype Upper = NoUpper | UpperAt(n: int) | UpperNaN

  function LegacyUpper(f: Filter): Upper {
    match f.limit
    case Count(l) => if l == -1 then NoUpper else UpperAt(LegacyOffset(f) + l)
    case NullBound => UpperAt(LegacyOffset(f))
    case Unset => UpperNaN
    case NaNBound => UpperNaN
  }

  /** The upper bound as a number, `None` when there is none. */
  function WindowUpper(u: Upper): Option<int> {
    if u.UpperAt? then Some(u.n) else None
  }

  function UpperText(u: Upper): string {
    match u
    case NoUpper => ""
    case UpperAt(n) => " AND S.RowNum <= " + IntToString(n)
    case UpperNaN => " AND S.RowNum <= NaN"
  }

  /** The text before the legacy window's lower bound. */
  const WherePrefix: string := " WHERE S.RowNum > "

  /** `applyPagination(model, stmt, filter)`. Neither encoding adds a parameter. */
  function ApplyPagination(stmt: Fragment, f: Filter, supportsOffsetFetch: bool): (r: Fragment)
    ensures r.params == stmt.params
    ensures supportsOffsetFetch ==>
      r.sql == stmt.sql + DefaultSeparator + BuildLimit(f.limit, Or(f.offset, f.skip))
    ensures !supportsOffsetFetch ==>
      && StartsWith(r.sql, "SELECT * FROM (" + stmt.sql + Newline + ") AS S" + Newline)
      && EndsWith(r.sql, WherePrefix + IntToString(LegacyOffset(f)) + UpperText(LegacyUpper(f)) + Newline)
      && |r.sql| == |"SELECT * FROM (" + stmt.sql + Newline + ") AS S" + Newline|
                    + |WherePrefix + IntToString(LegacyOffset(f)) + UpperText(LegacyUpper(f)) + Newline|
  {
    if supportsOffsetFetch then
      Merge(stmt, Literal(BuildLimit(f.limit, Or(f.offset, f.skip))), DefaultSeparator)
    else
      var head := "SELECT * FROM (" + stmt.sql + Newline + ") AS S" + Newline;
      var window := WherePrefix + IntToString(LegacyOffset(f)) + UpperText(LegacyUpper(f)) + Newline;
      ConcatBounds(head, window);
      Fragment(head + window, stmt.params)
  }

  /** `filter.offset || filter.skip || 0` when offset and skip are absent or whole
      non-negative counts, as `PaginationModesAgree` and `ModesSelectSameRows` take them. */
  predicate PlainBounds(f: Filter) {
    && (f.offset.Unset? || (f.offset.Count? && f.offset.n >= 0))
    && (f.skip.Unset? || (f.skip.Count? && f.skip.n >= 0))
    && f.limit.Count? && f.limit.n >= -1
  }

  /** `offset || skip || 0` is the offset the native clause is given, read as a number. */
  lemma LegacyOffsetIsNative(f: Filter)
    requires PlainBounds(f)
    ensures !Or(f.offset, f.skip).NullBound?
    ensures NativeOffset(Or(f.offset, f.skip)) == LegacyOffset(f) >= 0
  {
  }

  /** With offsets and skips absent or non-negative and a limit of -1 or more, the native
      clause reads back as the legacy lower bound and the row count it fetches. */
  lemma PaginationModesAgree(f: Filter)
    requires PlainBounds(f)
    ensures LegacyOffset(f) >= 0
    ensures ReadLimitClause(BuildLimit(f.limit, Or(f.offset, f.skip)))
      == Some((LegacyOffset(f), NativeFetch(f.limit)))
  {
    LegacyOffsetIsNative(f);
    LimitClauseRoundTrip(f.limit, Or(f.offset, f.skip));
  }

  /** Under the same bounds the legacy upper bound is the lower bound plus the row count
      the native clause fetches, and there is none exactly when the native clause
      fetches everything (a limit of -1). */
  lemma LegacyUpperIsFetch(f: Filter)
    requires PlainBounds(f)
    ensures NativeFetch(f.limit).None? <==> LegacyUpper(f) == NoUpper
    ensures NativeFetch(f.limit).Some? ==> LegacyUpper(f) == UpperAt(LegacyOffset(f) + NativeFetch(f.limit).value)
  {
  }

  /** Under the same bounds, both encodings select the same rows: the legacy `RowNum`
      window is the page OFFSET/FETCH describes. */
  lemma ModesSelectSameRows<T>(f: Filter, rows: seq<T>)
    requires PlainBounds(f)
    ensures LegacyOffset(f) >= 0
    ensures RowNumWindow(rows, LegacyOffset(f), WindowUpper(LegacyUpper(f)))
      == OffsetFetch(rows, LegacyOffset(f), NativeFetch(f.limit))
  {
    var lower: nat := LegacyOffset(f);
    if f.limit.n == -1 {
      assert WindowUpper(LegacyUpper(f)) == None && NativeFetch(f.limit) == None;
      WindowIsOffsetFetch(rows, lower, None);
    } else {
      var fetch: nat := f.limit.n;
      assert WindowUpper(LegacyUpper(f)) == Some(lower + fetch) && NativeFetch(f.limit) == Some(fetch);
      WindowIsOffsetFetch(rows, lower, Some(fetch));
    }
  }

  /** With no limit the two encodings part ways: the native clause fetches every row
      after the offset, the legacy window compares `RowNum` with the text `NaN`, since
      `offset + undefined` is NaN. */
  lemma AbsentLimitDiverges(stmt: Fragment, f: Filter)
    requires f.limit.Unset?
    ensures !EndsWith(ApplyPagination(stmt, f, true).sql, RowsOnly)
    ensures EndsWith(ApplyPagination(stmt, f, false).sql, " AND S.RowNum <= NaN" + Newline)
  {
    var clause := BuildLimit(f.limit, Or(f.offset, f.skip));
    EndsWithConcat(stmt.sql + DefaultSeparator, clause, RowsOnly);
    var nan := " AND S.RowNum <= NaN" + Newline;
    var before := WherePrefix + IntToString(LegacyOffset(f));
    var window := before + UpperText(LegacyUpper(f)) + Newline;
    assert window == before + nan;
    ConcatBounds(before, nan);
    EndsWithTrans(ApplyPagination(stmt, f, false).sql, window, nan);
  }

  lemma SmallNumbers()
    ensures IntToString(10) == "10" && IntToString(20) == "20" && IntToString(30) == "30"
  {
    assert NatToString(10) == NatToString(1) + [DigitChar(0)];
    assert NatToString(20) == NatToString(2) + [DigitChar(0)];
    assert NatToString(30) == NatToString(3) + [DigitChar(0)];
  }

  /** A limit of 10 with an offset of 20 gives `OFFSET 20 ROWS FETCH NEXT 10 ROWS ONLY`
      natively, merged after the statement with a space. */
  lemma NativePaginationExample(stmt: Fragment, f: Filter)
    requires f.limit == Count(10) && f.offset == Count(20)
    ensures ApplyPagination(stmt, f, true).sql
      == stmt.sql + " " + ("ORDER BY RowNum OFFSET " + "20" + " ROWS" + (" FETCH NEXT " + "10" + " ROWS ONLY"))
  {
    SmallNumbers();
    assert Or(f.offset, f.skip) == Count(20);
    assert OffsetText(Count(20)) == "20";
  }

  /** A null limit passes `limit >= 0`, so the clause fetches `null` rows. */
  lemma NullLimitExample()
    ensures BuildLimit(NullBound, Unset)
      == "ORDER BY RowNum OFFSET " + ("0" + (" ROWS" + (" FETCH NEXT " + "null" + " ROWS ONLY")))
  {
    assert OffsetText(Unset) == "0";
    assert FetchClause(NullBound) == " FETCH NEXT " + "null" + " ROWS ONLY";
  }

  /** A null offset is not `isNaN`, so it is written as `null`. */
  lemma NullOffsetExample()
    ensures BuildLimit(Unset, NullBound) == "ORDER BY RowNum OFFSET " + ("null" + (" ROWS" + ""))
  {
    assert OffsetText(NullBound) == "null";
    assert FetchClause(Unset) == "";
  }

  /** A limit of 10 with an offset of 20 gives the legacy window `RowNum > 20 AND
      RowNum <= 30`. */
  lemma LegacyPaginationExample(stmt: Fragment, f: Filter)
    requires f.limit == Count(10) && f.offset == Count(20)
    ensures EndsWith(ApplyPagination(stmt, f, false).sql,
      " WHERE S.RowNum > " + "20" + (" AND S.RowNum <= " + "30") + Newline)
  {
    SmallNumbers();
    assert LegacyOffset(f) == 20 && LegacyUpper(f) == UpperAt(30);
  }
}
