/** Identifier quoting (lib/mssql.js:276-290): `[name]`, with every '.' turned into '_'
    because one bracket pair cannot hold a dotted multi-part name. Nothing else is
    escaped; in particular a ']' inside a name is kept as is. */
module Escaping {
  import opened Options
  import opened Text
  import opened Models

  /** `name.replace(/\./g, '_')`. */
  function ReplaceDots(s: string): (r: string)
    ensures |r| == |s|
    ensures forall i :: 0 <= i < |s| ==> r[i] == (if s[i] == '.' then '_' else s[i])
  {
    if |s| == 0 then ""
    else [if s[0] == '.' then '_' else s[0]] + ReplaceDots(s[1..])
  }

  /** `escapeName`: the name between brackets, its dots made underscores, so that no
      '.' is left inside the brackets. */
  function EscapeName(name: string): (r: string)
    ensures |r| == |name| + 2 && r[0] == '[' && r[|r| - 1] == ']'
    ensures forall i :: 0 <= i < |name| ==> r[i + 1] == (if name[i] == '.' then '_' else name[i])
    ensures forall i :: 0 <= i < |r| ==> r[i] != '.'
  {
    "[" + ReplaceDots(name) + "]"
  }

  /** The text between the outer brackets. */
  function Unbracket(quoted: string): string
    requires |quoted| >= 2
  {
    quoted[1..|quoted| - 1]
  }

  /** `getDefaultSchemaName`. */
  const DefaultSchemaName: string := "dbo"

  /** `schema(model)`: the declared schema, else the default one. */
  function Schema(m: Model): (r: string)
    ensures m.schema.None? ==> r == "dbo"
    ensures m.schema.Some? ==> r == m.schema.value
  {
    m.schema.Otherwise(DefaultSchemaName)
  }

  /** `tableEscaped`: the quoted schema and the quoted table joined by the one '.' the
      result holds. */
  function TableEscaped(m: Model): (r: string)
    ensures var k := |Schema(m)| + 2;
      && k + 2 < |r| && r[k] == '.'
      && forall i :: 0 <= i < |r| && i != k ==> r[i] != '.'
    ensures var k := |Schema(m)| + 2;
      k + 2 < |r| && r[0] == '[' && r[k - 1] == ']' && r[k + 1] == '[' && r[|r| - 1] == ']'
  {
    EscapeName(Schema(m)) + "." + EscapeName(m.table)
  }

  /** `columnEscaped(model, name)`. */
  function ColumnEscaped(m: Model, name: string): (r: string)
    ensures |r| >= 2 && r[0] == '[' && r[|r| - 1] == ']'
  {
    EscapeName(ColumnOf(m.properties, name))
  }

  /** `[x]`: a text between an opening and a closing bracket. */
  predicate Bracketed(s: string) {
    |s| >= 2 && s[0] == '[' && s[|s| - 1] == ']'
  }

  /** Reads a qualified table name `[schema].[table]` back into its two unquoted parts. */
  function SplitQualified(s: string): Option<(string, string)> {
    match FindChar(s, '.')
    case None => None
    case Some(k) =>
      if Bracketed(s[..k]) && Bracketed(s[k + 1..]) then Some((Unbracket(s[..k]), Unbracket(s[k + 1..])))
      else None
  }

  /** A name without dots comes back from its quoted form unchanged; any name comes back
      with its dots as underscores. */
  lemma EscapeNameRoundTrip(name: string)
    ensures Unbracket(EscapeName(name)) == ReplaceDots(name)
    ensures (forall i :: 0 <= i < |name| ==> name[i] != '.') ==> Unbracket(EscapeName(name)) == name
  {
    assert Unbracket(EscapeName(name)) == ReplaceDots(name);
  }

  /** Quoting is stable: quoting what a quoted name holds gives the same quoted name. */
  lemma EscapeNameIdempotent(name: string)
    ensures EscapeName(Unbracket(EscapeName(name))) == EscapeName(name)
  {
    EscapeNameRoundTrip(name);
    var inner := ReplaceDots(name);
    assert ReplaceDots(inner) == inner;
  }

  /** The qualified table name splits back, at its only dot, into the schema (the
      default one when none is declared) and the table, dots made underscores. */
  lemma TableEscapedSplits(m: Model)
    ensures SplitQualified(TableEscaped(m)) == Some((ReplaceDots(Schema(m)), ReplaceDots(m.table)))
  {
    var r := TableEscaped(m);
    var k := |Schema(m)| + 2;
    assert FindChar(r, '.') == Some(k);
    assert r[..k] == EscapeName(Schema(m));
    assert r[k + 1..] == EscapeName(m.table);
    EscapeNameRoundTrip(Schema(m));
    EscapeNameRoundTrip(m.table);
  }

  /** A name without dots is kept as it is. */
  lemma ReplaceDotsKeeps(s: string)
    requires forall i :: 0 <= i < |s| ==> s[i] != '.'
    ensures ReplaceDots(s) == s
  {
  }

  /** A dotted name: `a.b` quotes as `[a_b]`. */
  lemma EscapeNameExample()
    ensures EscapeName("a.b") == "[a_b]"
  {
    var r := ReplaceDots("a.b");
    assert r[0] == 'a' && r[1] == '_' && r[2] == 'b';
    assert r == "a_b";
  }

  /** Without dots in the schema or the table, the qualified name is the two names in
      brackets around a '.'. */
  lemma TableEscapedPlain(m: Model)
    requires forall i :: 0 <= i < |Schema(m)| ==> Schema(m)[i] != '.'
    requires forall i :: 0 <= i < |m.table| ==> m.table[i] != '.'
    ensures TableEscaped(m) == "[" + Schema(m) + "]" + "." + ("[" + m.table + "]")
  {
    ReplaceDotsKeeps(Schema(m));
    ReplaceDotsKeeps(m.table);
  }

  /** A table `Order` with no schema is `[dbo].[Order]`. */
  lemma TableEscapedExample(m: Model)
    requires m.table == "Order" && m.schema.None?
    ensures TableEscaped(m) == "[dbo].[Order]"
  {
    assert Schema(m) == "dbo";
    TableEscapedPlain(m);
  }

  /** A dotted schema keeps its brackets: schema `a.b` and table `T` give `[a_b].[T]`. */
  lemma TableEscapedDottedExample(m: Model)
    requires m.schema == Some("a.b") && m.table == "T"
    ensures TableEscaped(m) == "[a_b].[T]"
  {
    EscapeNameExample();
    assert EscapeName("T") == "[T]";
  }
}
