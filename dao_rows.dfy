/**
 * `DaoTable::getRows`: the page statement for a table or a stored query, and the
 * projection of every fetched row onto the table's columns.
 */
module DaoRows {
  import opened Wrappers
  import opened Strings
  import opened TableModel
  import opened DaoColumns

  /** A fetched row: field name to value. */
  type Row = map<string, Value>

  /** `$row[$name]`, NULL when the row has no such field. */
  function Field(row: Row, name: string): Value
  {
    if name in row then row[name] else Null
  }

  /**
   * The statement `getRows` prepares: a page of a physical table in the driver's own
   * paging syntax, or the stored query as it is. Any other kind prepares nothing.
   */
  function RowsSql(driver: Driver, table: Table, initialRow: int, maxRows: int): Option<string>
  {
    if table.kind == "table" then
      match driver
      case PgSql =>
        Some("SELECT * FROM " + table.name + " LIMIT " + IntToString(maxRows) + " OFFSET " + IntToString(initialRow))
      case MySql =>
        Some("SELECT * FROM " + table.name + " LIMIT " + IntToString(initialRow) + "," + IntToString(maxRows))
    else if table.kind == "query" then Some(table.query)
    else None
  }

  /** The PostgreSQL page ends in "LIMIT max OFFSET init", and both numbers read back. */
  lemma PgSqlPaging(table: Table, initialRow: int, maxRows: int)
    requires table.kind == "table"
    ensures var m, o := IntToString(maxRows), IntToString(initialRow);
      RowsSql(PgSql, table, initialRow, maxRows) == Some("SELECT * FROM " + table.name + " LIMIT " + m + " OFFSET " + o) &&
      ParseInt(m) == maxRows && ParseInt(o) == initialRow
  {
    IntToStringRoundTrip(maxRows);
    IntToStringRoundTrip(initialRow);
  }

  /** The MySQL page ends in "LIMIT init,max": the clause splits at its comma into offset, then count. */
  lemma MySqlPaging(table: Table, initialRow: int, maxRows: int)
    requires table.kind == "table"
    ensures var clause := IntToString(initialRow) + "," + IntToString(maxRows);
      RowsSql(MySql, table, initialRow, maxRows) == Some("SELECT * FROM " + table.name + " LIMIT " + clause) &&
      |Split(clause)| == 2 &&
      IsDecimalText(Split(clause)[0]) && ParseInt(Split(clause)[0]) == initialRow &&
      IsDecimalText(Split(clause)[1]) && ParseInt(Split(clause)[1]) == maxRows
  {
    var o, m := IntToString(initialRow), IntToString(maxRows);
    assert "SELECT * FROM " + table.name + " LIMIT " + o + "," + m == "SELECT * FROM " + table.name + " LIMIT " + (o + "," + m);
    LimitClauseReadsBack(initialRow, maxRows);
  }

  /** "init,max" splits back into the two numbers. */
  lemma LimitClauseReadsBack(initialRow: int, maxRows: int)
    ensures var parts := Split(IntToString(initialRow) + "," + IntToString(maxRows));
      |parts| == 2 &&
      IsDecimalText(parts[0]) && ParseInt(parts[0]) == initialRow &&
      IsDecimalText(parts[1]) && ParseInt(parts[1]) == maxRows
  {
    var o, m := IntToString(initialRow), IntToString(maxRows);
    IntToStringRoundTrip(maxRows);
    IntToStringRoundTrip(initialRow);
    DecimalTextHasNoComma(o);
    DecimalTextHasNoComma(m);
    SplitPair(o, m);
  }

  lemma DecimalTextHasNoComma(s: string)
    requires IsDecimalText(s)
    ensures ',' !in s
  {
    assert forall k :: 0 <= k < |s| ==> s[k] != ',';
  }

  /** A register: the row's values for the table's columns, in column order. */
  function Register(row: Row, columns: seq<Column>): (r: seq<Value>)
    ensures |r| == |columns|
  {
    seq(|columns|, k requires 0 <= k < |columns| => Field(row, columns[k].name))
  }

  /** What `getRows` returns: one register per fetched row; nothing on failure or without a statement. */
  function Registers(driver: Driver, table: Table, initialRow: int, maxRows: int, result: QueryResult<Row>): seq<seq<Value>>
  {
    if RowsSql(driver, table, initialRow, maxRows).None? || result.Failed? then []
    else
      var rows := result.rows;
      seq(|rows|, i requires 0 <= i < |rows| => Register(rows[i], table.columns))
  }

  method GetRows(driver: Driver, table: Table, initialRow: int, maxRows: int, result: QueryResult<Row>)
    returns (sql: Option<string>, list: seq<seq<Value>>)
    ensures sql == RowsSql(driver, table, initialRow, maxRows)
    ensures list == Registers(driver, table, initialRow, maxRows, result)
  {
    list := [];
    sql := RowsSql(driver, table, initialRow, maxRows);
    if sql.Some? && result.Fetched? {
      var rows := result.rows;
      var i := 0;
      while i < |rows|
        invariant 0 <= i <= |rows| && |list| == i
        invariant forall k :: 0 <= k < i ==> list[k] == Register(rows[k], table.columns)
      {
        var row := rows[i];
        var register: seq<Value> := [];
        var j := 0;
        while j < |table.columns|
          invariant 0 <= j <= |table.columns| && |register| == j
          invariant forall k :: 0 <= k < j ==> register[k] == Field(row, table.columns[k].name)
        {
          register := register + [Field(row, table.columns[j].name)];
          j := j + 1;
        }
        list := list + [register];
        i := i + 1;
      }
    }
  }

  /** Every register has exactly one value per column, and position k holds column k's field. */
  lemma RegistersShape(driver: Driver, table: Table, initialRow: int, maxRows: int, rows: seq<Row>, i: nat, k: nat)
    requires RowsSql(driver, table, initialRow, maxRows).Some?
    requires i < |rows| && k < |table.columns|
    ensures var list := Registers(driver, table, initialRow, maxRows, Fetched(rows));
      |list| == |rows| && |list[i]| == |table.columns| &&
      list[i][k] == (if table.columns[k].name in rows[i] then rows[i][table.columns[k].name] else Null)
  {
  }
}
