# loopback-connector-mssql: the SQL dialect layer, in Dafny

This project models the part of the Microsoft SQL Server connector for LoopBack that
turns the generic SQL connector's statements into SQL Server's dialect (`lib/mssql.js`).
Every piece is modelled as a pure function on strings, values and statement fragments.
The source is not pure everywhere: two of its functions also update objects the caller
passes in and still holds (see "Left out"). The model returns the updated value instead.
The parts modelled are:

- the `(?)` placeholder rewriter and the parameter-binding loop that must agree with it;
- the driver type chosen for each parameter (`Real`, `BigInt` or inferred);
- the value codec (`toColumnValue` / `fromColumnValue`) and the UTC date format
  `Y-MM-DDTHH:mm:ss.fff`;
- identifier quoting (`[name]`, `[schema].[table]`, default schema `dbo`);
- SELECT building: default ordering by the ids, the `ROW_NUMBER()` column, and the two
  pagination encodings (native `OFFSET … FETCH` and the legacy `RowNum` window);
- INSERT building: identity detection, dropping a null generated key, the
  `SET IDENTITY_INSERT … ON/OFF` bracket, the `@insertedIds` table variable and the
  `insertId` read-back;
- the `;SELECT @@ROWCOUNT as count` suffix of UPDATE, DELETE and REPLACE statements and
  the read-back of that count;
- the translation of `like` and `nlike` into `LIKE ? ESCAPE '\'`.

The generic base class (`loopback-connector`'s `SQLConnector` and `ParameterizedSQL`) is
not part of this model. Its results enter as inputs:

- A statement fragment is `Fragment(sql, params)`.
- `merge(other, separator)` is taken to append the separator (a space by default), then
  the other text, and to append the other fragment's parameters after this one's.
- The base class's INSERT, WHERE, column list and `buildOrderBy` are parameters of the
  functions that use them.

Modules, one per file, in dependency order:

- `Options`.
- `Text`: decimal rendering and parsing, prefix and suffix facts.
- `Dates`: UTC components and the `dateToMsSql` format.
- `JsValues`: JavaScript values, truthiness and `String()`.
- `Fragments`.
- `Placeholders`.
- `Binding`.
- `Models`: model, property and id definitions.
- `Escaping`.
- `Codec`.
- `Pagination`.
- `Select`.
- `Identity`: inserts.
- `AffectedRows`.
- `Expressions`.

JavaScript behaviour is modelled where the code depends on it:

- `isNaN(undefined)` is true and `isNaN(null)` is false.
- `null >= 0` is true.
- `offset + undefined` is NaN.
- `val % 1 !== 0` holds for NaN and the infinities.
- `typeof NaN` is `'number'`.
- `String(null)` is `'null'`.

## Model

| member | source | states |
|---|---|---|
| Placeholders.IndexFromFirst | lib/mssql.js:466-469 | searching from a position fails only when no marker starts there or later, and otherwise stops at the first one |
| Placeholders.IndexOfFirst | lib/mssql.js:466-469 | `sql.indexOf('(?)')`: -1 exactly when the text holds no marker, otherwise the position of the first marker |
| Placeholders.Rewrite | lib/mssql.js:462-477 | replacing the markers left to right leaves a text with no `(?)` in it |
| Placeholders.ParameterizedSql | lib/mssql.js:462-477 | the loop terminates, because each pass removes one marker and the inserted `@paramN` cannot form a new one; its result has no marker, and a text without markers comes back unchanged |
| Placeholders.SpliceCount | lib/mssql.js:471-474 | splicing a placeholder in place of the first marker leaves one marker fewer |
| Placeholders.SpliceRewrite | lib/mssql.js:471-474 | after one splice, the rest of the text is rewritten with the next number and the part already done is untouched |
| Placeholders.PlaceholderHasNoMarkerChars | lib/mssql.js:473 | `'@param' + key` holds none of the characters `(`, `?` and `)` |
| Placeholders.SplitRejoins | lib/mssql.js:462-477 | a text is its marker-free pieces joined by `(?)` |
| Placeholders.RewriteNumbersMarkers | lib/mssql.js:462-477 | the k-th marker (from 1) becomes `@paramk`: the rewrite is the same pieces joined by `@param1`, `@param2`, … |
| Placeholders.ParameterizedSqlNumbering | lib/mssql.js:462-477 | the rewriter's output numbers the markers from 1, and reading the placeholders back as markers gives the input |
| Binding.IsBigInt | lib/mssql.js:456-460 | true exactly for integers that fit a signed 64-bit integer but not a signed 32-bit one |
| Binding.ParamType | lib/mssql.js:90-97 | `Real` exactly for non-integral numbers, NaN and the infinities; `BigInt` exactly for integers in the 64-bit-but-not-32-bit ranges; otherwise untyped |
| Binding.BindParams | lib/mssql.js:85-98 | a non-array binds nothing; the i-th value is bound as itself, named `param(i+1)` (`ParamName`, line 87), with its `ParamType` |
| Binding.PlaceholdersNameBoundParams | lib/mssql.js:85-88 | with one marker per parameter, the k-th placeholder in the rewritten text is `@` plus the name the k-th value is bound under |
| Dates.DateToMsSql | lib/mssql.js:479-507 | a valid date's text is its year in plain decimal followed by `-MM-DDTHH:mm:ss.fff` (month + 1, 2-digit fields, 3-digit milliseconds), from which the UTC components read back exactly; an invalid date gives a text that is not a date |
| Dates.FillZerosDigits | lib/mssql.js:504-506 | a value under 100 is written as exactly two digits |
| Dates.PadMillisDigits | lib/mssql.js:494-501 | milliseconds are written as exactly three digits |
| Dates.FieldsAfterYearLayout | lib/mssql.js:480-502 | after the year come nineteen characters: `-`, `-`, `T`, `:`, `:` and `.` at fixed places and the digits of each field between them |
| Dates.DateTextRoundTrip | lib/mssql.js:480-502 | parsing the formatted text of any valid UTC components gives them back |
| Dates.DateTextUnique | lib/mssql.js:480-502 | the formatted text is the only text that reads back as given components: no other spelling of the year or the fields is accepted |
| Codec.ToColumnValue | lib/mssql.js:230-258 | null and undefined become null for every type; a String property gets `String(val)`, a Number property the value unchanged (NaN included), a Boolean property `!!val`, a Date or Timestamp property the `dateToMsSql` text of the value, taken as is when it is a Date and through `new Date(val)` otherwise; any other type is serialized |
| Codec.FromColumnValue | lib/mssql.js:260-274 | null and undefined pass through; Boolean becomes `!!val`; a Date column becomes a Date, kept as is when it already is one and otherwise `new Date(String(val))`; every other type passes through |
| Codec.NullRoundTrip | lib/mssql.js:231-233 | a nullish value is stored as NULL and NULL reads back as null |
| Codec.BooleanRoundTrip | lib/mssql.js:253-254 | a stored boolean reads back unchanged |
| Codec.NumberRoundTrip | lib/mssql.js:237-243 | a number is stored and read back unchanged, NaN included |
| Codec.StringRoundTrip | lib/mssql.js:234-235 | a string is stored and read back unchanged |
| Codec.DateRoundTrip | lib/mssql.js:245-250 | a valid Date stored under a Date or Timestamp property is stored as the text of its UTC components, from which they are recovered |
| Escaping.ReplaceDots | lib/mssql.js:277 | `replace(/\./g, '_')`: same length, every `.` made `_`, every other character kept |
| Escaping.EscapeName | lib/mssql.js:276-278 | the name in brackets, every `.` turned into `_`, no other character changed, no `.` left |
| Escaping.Schema | lib/mssql.js:280-282 | the declared schema, else `dbo` |
| Escaping.TableEscaped | lib/mssql.js:284-290 | the qualified name holds exactly one `.`, right after the quoted schema; `[` and `]` open and close the schema before it and the table after it |
| Escaping.EscapeNameRoundTrip | lib/mssql.js:276-278 | the quoted text is the name with dots as underscores, and a dot-free name comes back unchanged |
| Escaping.EscapeNameIdempotent | lib/mssql.js:276-278 | quoting what a quoted name holds gives the same quoted name |
| Escaping.TableEscapedSplits | lib/mssql.js:284-290 | the qualified name splits at its dot into the schema (default `dbo`) and the table |
| Escaping.TableEscapedPlain | lib/mssql.js:276-290 | without dots in the schema or the table, the qualified name is `[schema].[table]` |
| Escaping.EscapeNameExample | lib/mssql.js:276-278 | `a.b` quotes as `[a_b]` |
| Escaping.TableEscapedDottedExample | lib/mssql.js:276-290 | schema `a.b` and table `T` give `[a_b].[T]`: a dotted schema keeps its brackets |
| Escaping.TableEscapedExample | lib/mssql.js:280-290 | a table `Order` with no schema is `[dbo].[Order]` |
| Pagination.BuildLimit | lib/mssql.js:509-518 | always starts `ORDER BY RowNum OFFSET <offset> ROWS`, the offset written as 0 when it is absent or NaN; ends with ` ROWS ONLY` exactly when `limit >= 0`, and then with ` FETCH NEXT <limit> ROWS ONLY`; its length is that of those two parts, so nothing else is in between; null bounds included (`FETCH NEXT null ROWS ONLY`, `OFFSET null ROWS`) |
| Pagination.LimitClauseRoundTrip | lib/mssql.js:509-518 | the clause reads back as the offset (0 when absent) and the row count fetched (none when the limit is absent or negative) |
| Pagination.WindowIsOffsetFetch | lib/mssql.js:366-392 | keeping the rows numbered in `(offset, offset + n]` is skipping `offset` rows and taking `n` |
| Pagination.ApplyPagination | lib/mssql.js:366-393 | no parameter is added; natively the limit clause is merged after a space, otherwise the statement is wrapped as `SELECT * FROM (…) AS S` followed by exactly the window `WHERE S.RowNum > <offset || skip || 0>`, with an upper bound unless the limit is -1 |
| Pagination.LegacyOffsetIsNative | lib/mssql.js:366-373 | for absent or whole non-negative offset and skip, `offset \|\| skip \|\| 0` is the offset the native clause is given, read as a number (0 when both are absent); `LegacyOffset` (line 367) is that expression |
| Pagination.PaginationModesAgree | lib/mssql.js:366-392 | for absent or whole non-negative offsets and skips and a limit of at least -1, the native clause reads back as the legacy lower bound `offset \|\| skip \|\| 0` |
| Pagination.LegacyUpperIsFetch | lib/mssql.js:366-392 | under the same bounds the legacy upper bound is absent exactly for a limit of -1, and otherwise is the lower bound plus the count the native clause fetches |
| Pagination.ModesSelectSameRows | lib/mssql.js:366-392 | under the same bounds both encodings keep the same rows |
| Pagination.AbsentLimitDiverges | lib/mssql.js:386-388 | with no limit, the native clause has no FETCH but the legacy window compares with `NaN` |
| Pagination.NativePaginationExample | lib/mssql.js:366-374 | limit 10 and offset 20 give `ORDER BY RowNum OFFSET 20 ROWS FETCH NEXT 10 ROWS ONLY` after the statement |
| Pagination.NullLimitExample | lib/mssql.js:509-518 | a null limit passes `limit >= 0` and gives `ORDER BY RowNum OFFSET 0 ROWS FETCH NEXT null ROWS ONLY` |
| Pagination.NullOffsetExample | lib/mssql.js:509-518 | a null offset is not `isNaN` and is written as `null`: `ORDER BY RowNum OFFSET null ROWS` |
| Pagination.LegacyPaginationExample | lib/mssql.js:375-392 | limit 10 and offset 20 give the window `S.RowNum > 20 AND S.RowNum <= 30` |
| Select.DefaultOrder | lib/mssql.js:335-340 | a given order (an empty list included) is kept; without one, the id names are used when the model has ids |
| Select.BuildColumnNames | lib/mssql.js:313-332 | unchanged unless the filter is paginated (limit, offset or skip truthy: `Pagination.Paginated`, lines 315 and 355); then the base columns followed by `,ROW_NUMBER() OVER (…) AS RowNum` |
| Select.RowNumberWindow | lib/mssql.js:317-329 | the `OVER` clause holds the partition column when given and the order, or `ORDER BY (SELECT 1)` when there is none |
| Select.SelectWhere | lib/mssql.js:349-353 | the select is its columns and table, followed by a space and the WHERE text when there is one, and carries exactly the WHERE fragment's parameters |
| Select.BuildSelect | lib/mssql.js:334-362 | the statement handed to `parameterize`: the parameters are exactly the WHERE fragment's; unpaginated, the statement is the select with its WHERE, then a space and the ORDER BY of the defaulted order when there is one; paginated, it is that select with the pagination applied under the defaulted order |
| Select.UnpaginatedSelectShape | lib/mssql.js:355-361 | an unpaginated select starts with its head and ends with the ORDER BY of its defaulted order |
| Select.NativeSelectShape | lib/mssql.js:355-357 | a natively paginated select starts with its head and ends with the limit clause |
| Select.LegacySelectShape | lib/mssql.js:355-357 | a legacy paginated select is the outer `RowNum` query around its head |
| Select.SelectOrdersByIds | lib/mssql.js:335-340 | a select with no order is ordered by the ids: at the end when unpaginated, inside `OVER` when paginated |
| Identity.Lookup | lib/mssql.js:167 | a name no field has reads as undefined |
| Identity.LookupFirst | lib/mssql.js:167 | a name reads as the value of the first field so named |
| Identity.Without | lib/mssql.js:167-171 | no field with the name remains |
| Identity.WithoutAbsent | lib/mssql.js:167-171 | data in which no field has the name comes back unchanged |
| Identity.WithoutKeepsOthers | lib/mssql.js:167-171 | exactly the fields with another name remain |
| Identity.WithoutAppend | lib/mssql.js:167-171 | removal works field by field: on joined data it is the join of the two removals, keeping the order |
| Identity.InsertData | lib/mssql.js:163-171 | the id is removed exactly when the key is an identity (`IsIdentity`, line 166: a Number id not marked `generated: false`) and its value is null or undefined |
| Identity.BuildInsertInto | lib/mssql.js:140-161 | with an id, the base statement is kept whole between the `DECLARE @insertedIds` prefix and the `OUTPUT INSERTED.<id> into @insertedIds` clause; without one it is unchanged |
| Identity.BuildInsert | lib/mssql.js:163-194 | the base statement is kept whole, preceded by `IDENTITY_INSERT ON` and followed by `OFF` exactly when an identity value is supplied, and followed by the `insertId` read-back exactly when there is an id |
| Identity.GetInsertedId | lib/mssql.js:196-198 | undefined without a record set, `false` for an empty one, else the first row's `insertId` |
| Identity.IdentityHandledOnce | lib/mssql.js:163-187 | an identity key is either dropped (no value given) or inserted under `IDENTITY_INSERT` (value given), never both; other keys are never dropped or bracketed |
| Identity.SuppliedIdKept | lib/mssql.js:163-173 | a supplied identity value reaches the base insert unchanged |
| Identity.InsertIdReadBack | lib/mssql.js:188-198 | an insert with an id ends by selecting the captured keys as `insertId`, and a first row holding a key under that column makes `getInsertedId` return it |
| Identity.OutputGoesToDeclaredTable | lib/mssql.js:140-161 | the OUTPUT clause writes to the table variable the statement declares |
| AffectedRows.AppendRowCount | lib/mssql.js:200-228 | for deletes, replaces and updates alike, the statement is kept whole, followed directly by `;SELECT @@ROWCOUNT as count`, with no parameter added |
| AffectedRows.GetCountForAffectedRows | lib/mssql.js:212-222 | a count exactly when the first row's `count` is a number (NaN included), and then that number |
| AffectedRows.RowCountReadBack | lib/mssql.js:200-222 | the appended query's column is the one read back; a count of 0 is reported, not lost |
| AffectedRows.CountUnavailable | lib/mssql.js:212-222 | no record set, an empty one, or a textual count gives undefined |
| Expressions.BuildExpression | lib/mssql.js:395-421 | `like` and `nlike` give the column followed by `[NOT] LIKE ? ESCAPE '\'` and nothing else, one more `?` than the column has, and the operand as the only parameter; other operators give the base expression |
| Expressions.LikeBindsOneMarker | lib/mssql.js:397-406 | for a column without `?`, the translation has exactly one marker and one parameter |

## Left out

- Connection handling (`connect`, `disconnect`, `ping`, `initialize`), the driver request and promise plumbing in `executeSQL`, and `define`: these are I/O against the `mssql` driver.
- `applySqlChanges`, and the discovery and migration mixins, which build text only to run it. The column type in `DECLARE @insertedIds TABLE (id <type>)` comes from migration's `columnDataType` and is taken from the property definition (`Property.dataType`).
- `lib/transaction.js` is not part of this model. `beginTransaction` replaces only the first space of the isolation-level name with `_`, looks the result up in the driver's isolation-level table (an unknown name gives undefined, which is handed to the driver as is) and starts a driver transaction; `commit` and `rollback` forward to the driver. The driver's table and transactions are not visible.
- Select.DefaultOrder / Identity.InsertData: the source writes its results into the caller's objects. `buildSelect` stores the default id order in the caller's `filter.order` (lib/mssql.js:338), and `buildInsert` deletes the id from the caller's `data` (lib/mssql.js:170). The model returns the new order and the new data and does not model these caller-visible writes. So it does not show that a filter reused for a second statement (a count, say, after a data query) already carries the id order.
- `buildInsertDefaultValues` (lib/mssql.js:136-138) returns the constant `DEFAULT VALUES`; when it is used is decided by the base class, which is not part of this model.
- `mssql.map.register(Number, mssql.BigInt)` is a process-wide driver setting. The `g.warn` for `regexp` is a log message; the operator still falls through to the base expression, as modelled.
- Select.BuildSelect: the result is the statement `buildSelect` hands to the base class's `parameterize` (lib/mssql.js:363), not what `parameterize` returns. `parameterize` belongs to the base class and is not part of this model, and neither is `getPlaceholderForValue` (lib/mssql.js:132-134), which it consults. The rewriting of `(?)` markers that the connector applies before execution is modelled as `Placeholders.ParameterizedSql`.
- The base class's `buildWhere`, `buildOrderBy`, `buildColumnNames`, `buildInsert` and `serializeObject` are inputs. `idName`, `column` and `schema` are defined the simple way: ids in declaration order, columns as declared.
- `ParameterizedSQL.merge` is assumed to join texts with the separator and concatenate parameters.
- Binding.ParamType: numbers are integers or opaque non-integers, not IEEE doubles. In doubles `9223372036854775807` rounds to 2^63, so `isBigInt` also accepts 2^63; that artefact is not modelled.
- JsValues.NumberText: integers of magnitude 1e21 or more, which JavaScript writes in exponent form, are written in full.
- Pagination.Bound: limits and offsets are absent, null, NaN or integers. Fractional values and numeric strings are not modelled.
- Dates.DateToMsSql: years are any integers written in decimal. Date parsing (`new Date(v)`) and the local-time `String()` of a Date are parameters of the `Runtime` datatype.
- Identity.HasIdName: an id name is taken to be present and non-empty when the model declares an id property.
- Codec.FromColumnValue: a `Timestamp` column is passed through, not rebuilt into a Date; only `Date` is rebuilt, as the code does.
- Dates.DateToMsSql: an invalid Date is formatted as `NaN-NaN-NaNTNaN:NaN:NaN.NaN`, not rejected, as the code does.
