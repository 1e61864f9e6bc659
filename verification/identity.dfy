/** INSERT statements (lib/mssql.js:136-173). The generated keys are captured with an
    `OUTPUT INSERTED.<id>` clause into a table variable, then selected back under the
    column `insertId`, which `getInsertedId` reads. When the caller supplies a value for
    an identity key, the insert runs between `SET IDENTITY_INSERT <table> ON` and `OFF`. */
module Identity {
  import opened Options
  import opened Text
  import opened JsValues
  import opened Fragments
  import opened Models
  import opened Escaping

  /** The table variable the generated keys go to, and the column they are read back as. */
  const InsertedIds: string := "@insertedIds"
  const InsertIdColumn: string := "insertId"

  /** One field of the data to insert. */
  datatype Field = Field(name: string, value: Value)

  /** `idName(model)`, when the model has an id property. */
  function IdName(m: Model): Option<string> {
    match IdProperty(m)
    case None => None
    case Some(p) => Some(p.name)
  }

  /** `if (idName)`: an id name that is present and not empty. */
  predicate HasIdName(m: Model) {
    IdName(m).Some? && IdName(m).value != ""
  }

  /** `prop && prop.type === Number && prop.generated !== false`: a numeric id that the
      definition does not mark as not generated. */
  predicate IsIdentity(prop: Option<Property>) {
    prop.Some? && prop.value.propType == NumberType && prop.value.generated != Some(false)
  }

  /** `data[name]`: the value of the first field so named, `undefined` when there is none. */
  function Lookup(data: seq<Field>, name: string): (v: Value)
    ensures (forall i :: 0 <= i < |data| ==> data[i].name != name) ==> v == Undefined
  {
    if |data| == 0 then Undefined
    else if data[0].name == name then data[0].value
    else Lookup(data[1..], name)
  }

  /** When field `i` is the first one named `name`, the lookup gives its value: earlier
      fields with other names and later fields with the same name play no part. */
  lemma {:induction false} LookupFirst(data: seq<Field>, name: string, i: nat)
    requires i < |data| && data[i].name == name
    requires forall j :: 0 <= j < i ==> data[j].name != name
    ensures Lookup(data, name) == data[i].value
    decreases i
  {
    if i > 0 {
      LookupFirst(data[1..], name, i - 1);
    }
  }

  /** The fields not named `name`, in order (`delete data[name]`). */
  function Without(data: seq<Field>, name: string): (r: seq<Field>)
    ensures forall i :: 0 <= i < |r| ==> r[i].name != name
  {
    if |data| == 0 then []
    else (if data[0].name == name then [] else [data[0]]) + Without(data[1..], name)
  }

  /** Data in which no field has the name comes back unchanged. */
  lemma {:induction false} WithoutAbsent(data: seq<Field>, name: string)
    requires forall i :: 0 <= i < |data| ==> data[i].name != name
    ensures Without(data, name) == data
  {
    if |data| > 0 {
      WithoutAbsent(data[1..], name);
      assert data == [data[0]] + data[1..];
    }
  }

  /** Removing a name keeps exactly the fields with another name. */
  lemma {:induction false} WithoutKeepsOthers(data: seq<Field>, name: string)
    ensures forall x :: x in Without(data, name) <==> x in data && x.name != name
  {
    if |data| > 0 {
      WithoutKeepsOthers(data[1..], name);
      assert data == [data[0]] + data[1..];
    }
  }

  /** Removing a name from data with a first field decides that field, then the rest. */
  lemma WithoutCons(x: Field, rest: seq<Field>, name: string)
    ensures Without([x] + rest, name) == (if x.name == name then [] else [x]) + Without(rest, name)
  {
    assert ([x] + rest)[0] == x && ([x] + rest)[1..] == rest;
  }

  /** Removing a name works field by field: on a concatenation it is the concatenation
      of the two removals, so the order of the fields that stay is kept. */
  lemma {:induction false} WithoutAppend(a: seq<Field>, b: seq<Field>, name: string)
    ensures Without(a + b, name) == Without(a, name) + Without(b, name)
    decreases |a|
  {
    if |a| == 0 {
      assert a + b == b;
    } else {
      var keep := if a[0].name == name then [] else [a[0]];
      assert a + b == [a[0]] + (a[1..] + b);
      assert a == [a[0]] + a[1..];
      WithoutCons(a[0], a[1..] + b, name);
      WithoutCons(a[0], a[1..], name);
      WithoutAppend(a[1..], b, name);
      assert keep + (Without(a[1..], name) + Without(b, name))
        == (keep + Without(a[1..], name)) + Without(b, name);
    }
  }

  /** The caller supplied a value for an identity key: the insert must switch
      `IDENTITY_INSERT` on. */
  predicate SuppliesIdentity(m: Model, data: seq<Field>) {
    IsIdentity(IdProperty(m)) && !IsNullish(Lookup(data, IdProperty(m).value.name))
  }

  /** The data `buildInsert` hands to the base class: without the id when the key is an
      identity and no value was given for it, unchanged otherwise. */
  function InsertData(m: Model, data: seq<Field>): (r: seq<Field>)
    ensures IsIdentity(IdProperty(m)) && IsNullish(Lookup(data, IdProperty(m).value.name)) ==>
      r == Without(data, IdProperty(m).value.name)
    ensures !(IsIdentity(IdProperty(m)) && IsNullish(Lookup(data, IdProperty(m).value.name))) ==> r == data
  {
    var prop := IdProperty(m);
    if IsIdentity(prop) && IsNullish(Lookup(data, prop.value.name)) then Without(data, prop.value.name)
    else data
  }

  /** `SET IDENTITY_INSERT <table> ON|OFF;`. */
  function IdentityInsert(table: string, on: bool): string {
    "SET IDENTITY_INSERT " + table + (if on then " ON;" else " OFF;")
  }

  /** The statement that reads the captured keys back. */
  const ReadBack: string := "SELECT id AS " + InsertIdColumn + " from " + InsertedIds

  /** The start of the declaration of the table variable, and the end of the clause
      that outputs into it. */
  const DeclareHead: string := Newline + "DECLARE " + InsertedIds
  const IntoIds: string := " into " + InsertedIds

  /** The text before the base statement in `buildInsertInto`. */
  function DeclareIds(dataType: string): string {
    DeclareHead + (" TABLE (id " + dataType + ")" + Newline)
  }

  /** The clause merged after the base statement in `buildInsertInto`. */
  function OutputIds(m: Model, id: string): string {
    "OUTPUT INSERTED." + ColumnEscaped(m, id) + IntoIds
  }

  /** `buildInsertInto(model, fields)`, from the base class's `INSERT INTO` fragment: with
      an id, the table variable is declared first and the inserted key is output into it;
      the parameters are the base fragment's. */
  function BuildInsertInto(m: Model, base: Fragment): (r: Fragment)
    ensures r.params == base.params
    ensures !HasIdName(m) ==> r == base
    ensures HasIdName(m) ==>
      var prefix := DeclareIds(IdProperty(m).value.dataType);
      var suffix := " " + OutputIds(m, IdName(m).value);
      && |r.sql| == |prefix| + |base.sql| + |suffix|
      && StartsWith(r.sql, prefix)
      && r.sql[|prefix|..|prefix| + |base.sql|] == base.sql
      && EndsWith(r.sql, suffix)
  {
    if HasIdName(m) then
      var prefix := DeclareIds(IdProperty(m).value.dataType);
      var suffix := " " + OutputIds(m, IdName(m).value);
      var into := Merge(Fragment(prefix + base.sql, base.params), Literal(OutputIds(m, IdName(m).value)), DefaultSeparator);
      assert into.sql == prefix + base.sql + suffix;
      Sandwich(prefix, base.sql, suffix);
      into
    else
      base
  }

  /** The text `buildInsert` puts before the base statement: `IDENTITY_INSERT` switched
      on, when the caller supplies an identity value. */
  function OnPart(m: Model, data: seq<Field>): string {
    if SuppliesIdentity(m, data) then IdentityInsert(TableEscaped(m), true) + Newline else ""
  }

  /** The text after the base statement that switches `IDENTITY_INSERT` off again. */
  function OffPart(m: Model, data: seq<Field>): string {
    if SuppliesIdentity(m, data) then Newline + IdentityInsert(TableEscaped(m), false) + Newline else ""
  }

  /** The read-back of the captured keys, when the model has an id. */
  function BackPart(m: Model): string {
    if HasIdName(m) then Newline + ReadBack + Newline else ""
  }

  /** `buildInsert(model, data)`. `superInsert` is the base class's insert for the
      (possibly reduced) data, which the base class builds with `buildInsertInto`
      (`BuildInsertInto` here); that composition is the base class's behaviour, assumed here
      and not enforced by this function's signature. The base statement
      sits between the switch that turns `IDENTITY_INSERT` on and the one that turns it
      off, and the read-back comes last; the parameters are the base statement's. */
  function BuildInsert(m: Model, data: seq<Field>, superInsert: seq<Field> -> Fragment): (r: Fragment)
    ensures r.params == superInsert(InsertData(m, data)).params
    ensures var stmt := superInsert(InsertData(m, data)).sql;
      var on := OnPart(m, data);
      && |r.sql| == |on| + |stmt| + |OffPart(m, data)| + |BackPart(m)|
      && StartsWith(r.sql, on)
      && r.sql[|on|..|on| + |stmt|] == stmt
      && r.sql[|on| + |stmt|..|on| + |stmt| + |OffPart(m, data)|] == OffPart(m, data)
      && EndsWith(r.sql, BackPart(m))
  {
    var stmt := superInsert(InsertData(m, data));
    FourParts(OnPart(m, data), stmt.sql, OffPart(m, data), BackPart(m));
    Fragment(OnPart(m, data) + stmt.sql + OffPart(m, data) + BackPart(m), stmt.params)
  }

  /** `getInsertedId(model, info)` on the record set of the insert batch: `undefined`
      without one, `false` when it is empty, else the first row's `insertId`. */
  function GetInsertedId(info: Option<seq<Row>>): (r: Value)
    ensures info.None? ==> r == Undefined
    ensures info.Some? && |info.value| == 0 ==> r == Bool(false)
    ensures info.Some? && |info.value| > 0 && InsertIdColumn in info.value[0] ==> r == info.value[0][InsertIdColumn]
    ensures info.Some? && |info.value| > 0 && InsertIdColumn !in info.value[0] ==> r == Undefined
  {
    match info
    case None => Undefined
    case Some(rows) =>
      if |rows| == 0 then Bool(false)
      else if InsertIdColumn in rows[0] then rows[0][InsertIdColumn]
      else Undefined
  }

  /** For an identity key, the id is handled in exactly one way: either the caller gave
      none and it is dropped from the data so the server generates it, or the caller gave
      one and it is inserted as given with `IDENTITY_INSERT` on. A key that is not an
      identity is never dropped and never bracketed. */
  lemma IdentityHandledOnce(m: Model, data: seq<Field>)
    requires IdProperty(m).Some?
    ensures var id := IdProperty(m).value.name;
      var dropped := forall i :: 0 <= i < |InsertData(m, data)| ==> InsertData(m, data)[i].name != id;
      && (IsIdentity(IdProperty(m)) ==> (SuppliesIdentity(m, data) <==> !IsNullish(Lookup(data, id))))
      && (IsIdentity(IdProperty(m)) && !SuppliesIdentity(m, data) ==> dropped)
      && (!IsIdentity(IdProperty(m)) ==> InsertData(m, data) == data && !SuppliesIdentity(m, data))
  {
  }

  /** A supplied identity value is still in the data handed to the base class, under the
      id's name. */
  lemma SuppliedIdKept(m: Model, data: seq<Field>)
    requires SuppliesIdentity(m, data)
    ensures Lookup(InsertData(m, data), IdProperty(m).value.name) == Lookup(data, IdProperty(m).value.name)
  {
  }

  /** What an insert with an id reads back is what `getInsertedId` returns: the statement
      ends by selecting the captured keys under `insertId`, and a first row holding the
      key `v` under that column yields `v`. */
  lemma InsertIdReadBack(m: Model, data: seq<Field>, superInsert: seq<Field> -> Fragment, v: Value, rest: seq<Row>)
    requires HasIdName(m)
    ensures EndsWith(BuildInsert(m, data, superInsert).sql, ReadBack + Newline)
    ensures GetInsertedId(Some([map[InsertIdColumn := v]] + rest)) == v
  {
    EndsWithLastTwo(Newline, ReadBack, Newline);
    EndsWithTrans(BuildInsert(m, data, superInsert).sql, BackPart(m), ReadBack + Newline);
  }

  /** The keys the OUTPUT clause captures go to the table variable the insert declares:
      the statement starts by declaring it and ends by outputting into it. */
  lemma OutputGoesToDeclaredTable(m: Model, base: Fragment)
    requires HasIdName(m)
    ensures StartsWith(BuildInsertInto(m, base).sql, DeclareHead)
    ensures EndsWith(BuildInsertInto(m, base).sql, IntoIds)
  {
    DeclaredFirst(m, base);
    OutputLast(m, base);
  }

  lemma DeclaredFirst(m: Model, base: Fragment)
    requires HasIdName(m)
    ensures StartsWith(BuildInsertInto(m, base).sql, DeclareHead)
  {
    ConcatBounds(DeclareHead, " TABLE (id " + IdProperty(m).value.dataType + ")" + Newline);
    StartsWithTrans(BuildInsertInto(m, base).sql, DeclareIds(IdProperty(m).value.dataType), DeclareHead);
  }

  lemma OutputLast(m: Model, base: Fragment)
    requires HasIdName(m)
    ensures EndsWith(BuildInsertInto(m, base).sql, IntoIds)
  {
    var output := OutputIds(m, IdName(m).value);
    ConcatBounds(" ", output);
    ConcatBounds("OUTPUT INSERTED." + ColumnEscaped(m, IdName(m).value), IntoIds);
    EndsWithTrans(" " + output, output, IntoIds);
    EndsWithTrans(BuildInsertInto(m, base).sql, " " + output, IntoIds);
  }
}
