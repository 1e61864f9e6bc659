/** The value codec (lib/mssql.js:230-274): `toColumnValue` turns a property value into
    what is bound for its column, `fromColumnValue` turns a raw column value back into a
    property value. */
module Codec {
  import opened Options
  import opened JsValues
  import opened Dates
  import opened Models

  /** What is bound: a plain JavaScript value, or a value handed to the base class's
      `serializeObject`, whose encoding is not part of this model. */
  datatype ColumnValue = Plain(v: Value) | Serialized(v: Value)

  /** `prop.type === Date || prop.type.name === 'Timestamp'`. */
  predicate IsDateLike(t: PropType) {
    t == DateType || t == Named("Timestamp")
  }

  /** The Date a date-typed value stands for: a Date as is, anything else through
      `new Date(val)`. */
  function AsDate(rt: Runtime, v: Value): JsDate {
    if v.DateObj? then v.date else rt.newDate(v)
  }

  /** `toColumnValue(prop, val)` for a property of type `t`. */
  function ToColumnValue(t: PropType, v: Value, rt: Runtime): (r: ColumnValue)
    ensures IsNullish(v) ==> r == Plain(Null)
    ensures !IsNullish(v) && t == StringType ==> r == Plain(Str(JsString(rt, v)))
    ensures !IsNullish(v) && t == NumberType ==> r == Plain(v)
    ensures !IsNullish(v) && t == BooleanType ==> r == Plain(Bool(Truthy(v)))
    ensures !IsNullish(v) && IsDateLike(t) ==>
      && r == Plain(Str(DateToMsSql(AsDate(rt, v))))
      && (AsDate(rt, v).Valid? ==> ParseMsSql(r.v.s) == Some(AsDate(rt, v).utc))
      && (AsDate(rt, v).InvalidDate? ==> ParseMsSql(r.v.s).None?)
    ensures r.Serialized? <==> !IsNullish(v) && t.Named? && t.name != "Timestamp"
    ensures r.Serialized? ==> r.v == v
  {
    if IsNullish(v) then Plain(Null)
    else if t == StringType then Plain(Str(JsString(rt, v)))
    else if t == NumberType then Plain(v)
    else if IsDateLike(t) then Plain(Str(DateToMsSql(AsDate(rt, v))))
    else if t == BooleanType then Plain(Bool(Truthy(v)))
    else Serialized(v)
  }

  /** `fromColumnValue(prop, val)`; `t` is `None` when there is no property definition.
      Only `Date` is rebuilt into a Date: a `Timestamp` column is passed through. */
  function FromColumnValue(t: Option<PropType>, v: Value, rt: Runtime): (r: Value)
    ensures IsNullish(v) ==> r == v
    ensures !IsNullish(v) && t == Some(BooleanType) ==> r == Bool(Truthy(v))
    ensures !IsNullish(v) && t == Some(DateType) ==> r.DateObj? && (v.DateObj? ==> r == v)
    ensures !IsNullish(v) && t == Some(DateType) && !v.DateObj? ==>
      r == DateObj(rt.newDate(Str(JsString(rt, v))))
    ensures t != Some(BooleanType) && t != Some(DateType) ==> r == v
  {
    if IsNullish(v) then v
    else if t == Some(BooleanType) then Bool(Truthy(v))
    else if t == Some(DateType) then
      if v.DateObj? then v else DateObj(rt.newDate(Str(JsString(rt, v))))
    else v
  }

  /** Null and undefined are stored as NULL whatever the declared type, and NULL reads
      back as null. */
  lemma NullRoundTrip(t: PropType, rt: Runtime)
    ensures ToColumnValue(t, Undefined, rt) == Plain(Null)
    ensures FromColumnValue(Some(t), ToColumnValue(t, Null, rt).v, rt) == Null
  {
  }

  /** A boolean is stored as itself and reads back as itself; any other value is stored
      as its truthiness, which reading leaves alone. */
  lemma BooleanRoundTrip(v: Value, rt: Runtime)
    requires !IsNullish(v)
    ensures var stored := ToColumnValue(BooleanType, v, rt).v;
      && FromColumnValue(Some(BooleanType), stored, rt) == stored
      && (v.Bool? ==> FromColumnValue(Some(BooleanType), stored, rt) == v)
  {
  }

  /** A number property is stored unchanged, NaN included (it is not turned into NULL),
      and reads back unchanged. */
  lemma NumberRoundTrip(v: Value, rt: Runtime)
    ensures FromColumnValue(Some(NumberType), ToColumnValue(NumberType, v, rt).v, rt)
      == (if v.Undefined? then Null else v)
  {
  }

  /** A string property holding a string is stored and read back unchanged. */
  lemma StringRoundTrip(s: string, rt: Runtime)
    ensures FromColumnValue(Some(StringType), ToColumnValue(StringType, Str(s), rt).v, rt) == Str(s)
  {
  }

  /** A valid Date is stored as the `Y-MM-DDTHH:mm:ss.fff` text of its UTC components,
      from which those components are recovered exactly. */
  lemma DateRoundTrip(t: PropType, p: UtcParts, rt: Runtime)
    requires IsDateLike(t)
    ensures var stored := ToColumnValue(t, DateObj(Valid(p)), rt);
      && stored == Plain(Str(FormatUtc(p)))
      && ParseMsSql(stored.v.s) == Some(p)
  {
  }
}
