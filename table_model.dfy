/**
 * The Table and Column records that the data-access layer fills in.
 * Their PHP classes are plain holders with setters; here they are values.
 */
module TableModel {
  import opened Wrappers

  /** A value as PDO hands it to PHP: NULL, a boolean, an integer or a string (floats are not modelled). */
  datatype Value = Null | Bool(b: bool) | Int(i: int) | Str(s: string)

  /** One column of a synchronised table (PHP field `type` is `dataType` here). */
  datatype Column = Column(
    name: string,
    dataType: string,
    order: int,
    pk: bool,
    notNull: bool,
    autoIncrement: bool,
    fk: bool,
    fkTable: string,
    fkColumn: string)

  /**
   * A synchronised table (PHP field `type` is `kind` here). `kind` is "table" for a physical table and "query" for a
   * stored query shown as a read-only table; `mode` is "lock" or "unlock".
   */
  datatype Table = Table(
    name: string,
    mode: string,
    kind: string,
    query: string,
    columns: seq<Column>)

  /** `new Column($name, $type)`: every flag off, no order and no FK target yet. */
  function NewColumn(name: string, dataType: string): Column
  {
    Column(name, dataType, 0, false, false, false, false, "", "")
  }

  /** `new Table($name)`: no columns and no query yet. */
  function NewTable(name: string): Table
  {
    Table(name, "", "", "", [])
  }

  /** `Table::getColumn($name)`: the first column with that name, if any. */
  function FindColumn(columns: seq<Column>, name: string): (r: Option<Column>)
    ensures r.Some? <==> exists i :: 0 <= i < |columns| && columns[i].name == name
    ensures r.Some? ==> r.value in columns && r.value.name == name
  {
    if |columns| == 0 then None
    else if columns[0].name == name then Some(columns[0])
    else FindColumn(columns[1..], name)
  }

  function GetColumn(t: Table, name: string): Option<Column>
  {
    FindColumn(t.columns, name)
  }

  /** `Table::getPk()`: the first primary-key column, if any. */
  function FindPk(columns: seq<Column>): (r: Option<Column>)
    ensures r.Some? <==> exists i :: 0 <= i < |columns| && columns[i].pk
    ensures r.Some? ==> r.value in columns && r.value.pk
  {
    if |columns| == 0 then None
    else if columns[0].pk then Some(columns[0])
    else FindPk(columns[1..])
  }

  function GetPk(t: Table): Option<Column>
  {
    FindPk(t.columns)
  }
}
