/** A SQL fragment: statement text with its ordered parameter values. This stands in
    for `ParameterizedSQL` of the generic SQL connector base class, whose code is not
    part of this model; its `merge(other, separator)` is taken to append the separator
    and then the other text, and to append the other parameters after this one's. */
module Fragments {
  import opened JsValues

  datatype Fragment = Fragment(sql: string, params: seq<Value>)

  /** `MsSQL.newline`. */
  const Newline: string := "\r\n"

  /** The separator `merge` uses when none is given. */
  const DefaultSeparator: string := " "

  /** A fragment with no parameters, what `merge` makes of a plain string. */
  function Literal(sql: string): Fragment {
    Fragment(sql, [])
  }

  /** `f.merge(g, separator)`. */
  function Merge(f: Fragment, g: Fragment, separator: string): (r: Fragment)
    ensures |r.params| == |f.params| + |g.params|
    ensures r.params[..|f.params|] == f.params && r.params[|f.params|..] == g.params
  {
    Fragment(f.sql + separator + g.sql, f.params + g.params)
  }
}
