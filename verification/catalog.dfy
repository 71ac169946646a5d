/** The catalog: table metadata in a vector, plus a name index into it. */
module Catalogs {
  import opened Wrappers

  /** Table schemas carry no information yet. */
  datatype Schema = Schema

  datatype TableMetadata = TableMetadata(schema: Schema, name: string, id: nat)

  class Catalog {
    var tables: seq<TableMetadata>
    var tableNames: map<string, nat>

    /**
     * `create_table`: rejects a name already in the index and otherwise appends one
     * metadata record. The id is computed as `tables.len() - 1` before the push, so it is
     * the previous last index (the unsigned subtraction cannot start from an empty vector),
     * and the name index is never updated.
     */
    method CreateTable(name: string, schema: Schema) returns (r: Result<nat, string>)
      requires name !in tableNames ==> |tables| > 0
      modifies this
      ensures tableNames == old(tableNames)
      ensures name in old(tableNames) ==> r == Failure("") && tables == old(tables)
      ensures name !in old(tableNames) ==>
                r == Success(|old(tables)| - 1) &&
                tables == old(tables) + [TableMetadata(schema, name, |old(tables)| - 1)]
      ensures r.Success? ==> r.value + 2 == |tables| && tables[r.value] == old(tables)[|old(tables)| - 1]
    {
      if name in tableNames {
        r := Failure("");
      } else {
        var id := |tables| - 1;
        tables := tables + [TableMetadata(schema, name, id)];
        r := Success(id);
      }
    }

    /** `get_table`: absent names give `None`; a present name gives the record at its index. */
    function GetTable(name: string): (r: Option<TableMetadata>)
      reads this
      requires name in tableNames ==> tableNames[name] < |tables|
      ensures r.None? <==> name !in tableNames
      ensures r.Some? ==> r.value == tables[tableNames[name]]
    {
      if name in tableNames then Some(tables[tableNames[name]]) else None
    }
  }

  /** A table that `create_table` accepted is still not found by `get_table`. */
  method CreatedTableIsNotFound(c: Catalog, name: string, schema: Schema) returns (found: Option<TableMetadata>)
    requires name !in c.tableNames && |c.tables| > 0
    modifies c
    ensures found == None
  {
    var r := c.CreateTable(name, schema);
    found := c.GetTable(name);
  }
}
