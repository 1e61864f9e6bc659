/** The model description the connector works from: a table, an optional schema, and
    the declared properties with their types, column names and id flags. The generic
    base class answers `idName`, `getPropertyDefinition`, `column` and `schema` from it;
    that code is not part of this model, so those answers are defined here the simple
    way: ids in declaration order, a property's column as declared. */
module Models {
  import opened Options

  /** A property's declared type. `Named(n)` is any other constructor, known by its
      `name`; the connector treats `Named("Timestamp")` like `Date`. */
  datatype PropType = StringType | NumberType | BooleanType | DateType | Named(name: string)

  /** `generated` is `None` when the definition does not mention it; `dataType` is the SQL
      column type the migration code reports for the property. */
  datatype Property = Property(
    name: string,
    column: string,
    propType: PropType,
    generated: Option<bool>,
    dataType: string,
    isId: bool)

  datatype Model = Model(table: string, schema: Option<string>, properties: seq<Property>)

  /** The id properties, in declaration order. */
  function IdProperties(props: seq<Property>): (ids: seq<Property>)
    ensures forall p :: p in ids <==> p in props && p.isId
    ensures |ids| <= |props|
  {
    if |props| == 0 then []
    else (if props[0].isId then [props[0]] else []) + IdProperties(props[1..])
  }

  /** `idNames(model)`. */
  function IdNames(m: Model): seq<string> {
    var ids := IdProperties(m.properties);
    seq(|ids|, i requires 0 <= i < |ids| => ids[i].name)
  }

  /** The definition of the property `idName(model)` names, if the model has an id. */
  function IdProperty(m: Model): Option<Property> {
    var ids := IdProperties(m.properties);
    if |ids| == 0 then None else Some(ids[0])
  }

  /** `column(model, name)`: the declared column of the first property so named, or the
      name itself. */
  function ColumnOf(props: seq<Property>, name: string): string {
    if |props| == 0 then name
    else if props[0].name == name then props[0].column
    else ColumnOf(props[1..], name)
  }
}
