/** The static per-collection schema: for every column its SQL type and,
    optionally, its nullability. A collection's schema keeps the order in
    which its columns are declared. */
module Schemas {
  import opened Results

  /** `nullable` is `None` when the schema entry omits the key. */
  datatype ColumnSpec = ColumnSpec(sqlType: string, nullable: Option<bool>)

  datatype SchemaColumn = SchemaColumn(name: string, spec: ColumnSpec)

  type Schema = seq<SchemaColumn>

  /** Collection name to its schema. */
  type SchemaDict = map<string, Schema>

  /** `schema[name]`, `None` where Python raises `KeyError`. */
  function Lookup(schema: Schema, name: string): (r: Option<ColumnSpec>)
    ensures r.None? <==> forall i :: 0 <= i < |schema| ==> schema[i].name != name
    ensures r.Some? ==> exists i :: 0 <= i < |schema| && schema[i] == SchemaColumn(name, r.value)
  {
    if |schema| == 0 then None
    else if schema[0].name == name then Some(schema[0].spec)
    else Lookup(schema[1..], name)
  }
}
