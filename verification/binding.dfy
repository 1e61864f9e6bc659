/** How `executeSQL` binds parameters (lib/mssql.js:85-98): the i-th value is bound under
    the name `'param' + (i + 1)`, typed by `isBigInt` and the fractional test. */
module Binding {
  import opened Options
  import opened Text
  import opened JsValues
  import opened Placeholders

  /** The driver type a value is bound with; `Inferred` is `request.input(name, value)`
      without a type, leaving the choice to the driver. */
  datatype SqlType = Real | BigInt | Inferred

  datatype Param = Param(name: string, sqlType: SqlType, value: Value)

  const Int32Min: int := -0x8000_0000
  const Int32Max: int := 0x7FFF_FFFF
  const Int64Min: int := -0x8000_0000_0000_0000
  const Int64Max: int := 0x7FFF_FFFF_FFFF_FFFF

  /** `isBigInt` (lib/mssql.js:456-460) on an integral number: it fits a signed 64-bit
      integer but not a signed 32-bit one. */
  function IsBigInt(num: int): (r: bool)
    ensures r <==> (-0x8000_0000_0000_0000 <= num < 0x8000_0000_0000_0000
                    && !(-0x8000_0000 <= num < 0x8000_0000))
  {
    (num > 2147483647 && num <= 9223372036854775807)
    || (num < -2147483648 && num >= -9223372036854775808)
  }

  /** The type choice for one value. `val % 1 !== 0` holds for every number that is
      not an integer, and also for NaN and the infinities, whose remainder is NaN. */
  function ParamType(v: Value): (t: SqlType)
    ensures t == Real <==> v.Num? && !v.n.Int?
    ensures t == BigInt <==>
      v.Num? && v.n.Int? && (Int32Max < v.n.i <= Int64Max || Int64Min <= v.n.i < Int32Min)
  {
    if v.Num? && !v.n.Int? then Real
    else if v.Num? && IsBigInt(v.n.i) then BigInt
    else Inferred
  }

  /** `'param' + (i + 1)`. */
  function ParamName(i: nat): string {
    "param" + NatToString(i + 1)
  }

  /** The parameter loop. `params` is `None` when the caller passed something other
      than an array; neither that nor an empty array binds anything. */
  function BindParams(params: Option<seq<Value>>): (r: seq<Param>)
    ensures params.None? ==> r == []
    ensures params.Some? ==> |r| == |params.value|
    ensures params.Some? ==> forall i :: 0 <= i < |r| ==>
      r[i].value == params.value[i] && r[i].name == ParamName(i) && r[i].sqlType == ParamType(r[i].value)
  {
    match params
    case None => []
    case Some(ps) => seq(|ps|, i requires 0 <= i < |ps| => Param(ParamName(i), ParamType(ps[i]), ps[i]))
  }

  /** The rewriter and the binding loop agree: when the statement has one marker per
      parameter, the k-th placeholder in the rewritten text names exactly the k-th
      bound parameter, so values are never bound under another value's name. */
  lemma PlaceholdersNameBoundParams(sql: string, params: seq<Value>)
    requires MarkerCount(sql) == |params|
    ensures var names := PlaceholdersFrom(1, MarkerCount(sql));
      var bound := BindParams(Some(params));
      && |names| == |bound|
      && forall k :: 0 <= k < |bound| ==> names[k] == "@" + bound[k].name && bound[k].value == params[k]
  {
    var names := PlaceholdersFrom(1, MarkerCount(sql));
    var bound := BindParams(Some(params));
    forall k | 0 <= k < |bound|
      ensures names[k] == "@" + bound[k].name
    {
      assert "@" + ("param" + NatToString(k + 1)) == "@param" + NatToString(k + 1);
    }
  }
}
