/**
 * Table metadata loading of `DaoTable`: turning catalog rows into columns,
 * inferring the columns of a stored query from its first result row, and
 * attaching foreign-key information. The database is replaced by the rows
 * its statements would fetch.
 */
module DaoColumns {
  import opened Wrappers
  import opened Strings
  import opened TableModel

  /** The two database drivers the layer knows (`$db->getDriver()`). */
  datatype Driver = PgSql | MySql

  /** What executing a prepared statement gives: failure, or the fetched rows in order. */
  datatype QueryResult<R> = Failed | Fetched(rows: seq<R>)

  /**
   * One row of the column catalog query. PostgreSQL fills `notNull` and `defaultExpr`;
   * MySQL fills `nullable` and `extra`. A NULL default reads as "".
   */
  datatype CatalogRow = CatalogRow(
    order: int,
    name: string,
    dataType: string,
    key: Value,
    notNull: Value,
    defaultExpr: string,
    nullable: string,
    extra: string)

  /** One row of the foreign-key catalog query. */
  datatype FkRow = FkRow(columnName: string, foreignTableName: string, foreignColumnName: string)

  /** One result row of a stored query, as an associative array in column order. */
  type QueryRow = seq<(string, Value)>

  // ---------------------------------------------------------------------------
  // Type normalisation
  // ---------------------------------------------------------------------------

  const TypeClasses: set<string> := {"int", "double", "varchar", "datetime"}

  predicate IntLike(raw: string) { Contains(raw, "int") || Contains(raw, "numeric") }
  predicate DoubleLike(raw: string) { Contains(raw, "double") || Contains(raw, "real") }
  predicate CharLike(raw: string) { Contains(raw, "char") }
  predicate DateLike(raw: string) { Contains(raw, "timestamp") || Contains(raw, "date") }

  /** The semantic type of a native type name, by substring, the first matching test winning. */
  function NormaliseType(raw: string): (r: string)
    ensures r in TypeClasses || r == raw
  {
    if IntLike(raw) then "int"
    else if DoubleLike(raw) then "double"
    else if CharLike(raw) then "varchar"
    else if DateLike(raw) then "datetime"
    else raw
  }

  /** Each class name is classified as itself, and by no earlier test. */
  lemma IntClassifiesAsInt()
    ensures IntLike("int")
  {
    ContainsAt("int", "int", 0);
  }

  lemma DoubleClassifiesAsDouble()
    ensures !IntLike("double") && DoubleLike("double")
  {
    NotContainsChar("double", "int", 0);
    NotContainsChar("double", "numeric", 0);
    ContainsAt("double", "double", 0);
  }

  lemma VarcharClassifiesAsVarchar()
    ensures !IntLike("varchar") && !DoubleLike("varchar") && CharLike("varchar")
  {
    NotContainsChar("varchar", "int", 0);
    NotContainsChar("varchar", "numeric", 0);
    NotContainsChar("varchar", "double", 0);
    NotContainsChar("varchar", "real", 1);
    assert "varchar"[3..] == "char";
    ContainsAt("varchar", "char", 3);
  }

  lemma DatetimeClassifiesAsDatetime()
    ensures !IntLike("datetime") && !DoubleLike("datetime") && !CharLike("datetime") && DateLike("datetime")
  {
    NotContainsChar("datetime", "int", 1);
    NotContainsChar("datetime", "numeric", 0);
    NotContainsChar("datetime", "double", 1);
    NotContainsChar("datetime", "real", 0);
    NotContainsChar("datetime", "char", 0);
    ContainsAt("datetime", "date", 0);
  }

  lemma ClassNamesClassifyThemselves()
    ensures NormaliseType("int") == "int" && NormaliseType("double") == "double"
    ensures NormaliseType("varchar") == "varchar" && NormaliseType("datetime") == "datetime"
  {
    IntClassifiesAsInt();
    DoubleClassifiesAsDouble();
    VarcharClassifiesAsVarchar();
    DatetimeClassifiesAsDatetime();
  }

  /** Which class a type name lands in, stated as if-and-only-if for every class. */
  lemma {:induction false} NormaliseTypeFirstMatch(raw: string)
    ensures NormaliseType(raw) == "int" <==> IntLike(raw)
    ensures NormaliseType(raw) == "double" <==> !IntLike(raw) && DoubleLike(raw)
    ensures NormaliseType(raw) == "varchar" <==> !IntLike(raw) && !DoubleLike(raw) && CharLike(raw)
    ensures NormaliseType(raw) == "datetime" <==>
      !IntLike(raw) && !DoubleLike(raw) && !CharLike(raw) && DateLike(raw)
    ensures NormaliseType(raw) !in TypeClasses <==>
      !IntLike(raw) && !DoubleLike(raw) && !CharLike(raw) && !DateLike(raw)
    ensures NormaliseType(raw) !in TypeClasses ==> NormaliseType(raw) == raw
  {
    IntClassifiesAsInt();
    DoubleClassifiesAsDouble();
    VarcharClassifiesAsVarchar();
    DatetimeClassifiesAsDatetime();
  }

  /** Normalising a normalised type changes nothing. */
  lemma {:induction false} NormaliseTypeIdempotent(raw: string)
    ensures NormaliseType(NormaliseType(raw)) == NormaliseType(raw)
  {
    ClassNamesClassifyThemselves();
  }

  /** Type names that "int" or "numeric" capture, two of them by accident. */
  lemma NormaliseTypeIntExamples()
    ensures NormaliseType("integer") == "int"
    ensures NormaliseType("numeric(5,2)") == "int"
    ensures NormaliseType("interval") == "int"
    ensures NormaliseType("point") == "int"
  {
    ContainsAt("integer", "int", 0);
    ContainsAt("numeric(5,2)", "numeric", 0);
    ContainsAt("interval", "int", 0);
    ContainsAt("point", "int", 2);
  }

  lemma NormaliseTypeRealExample()
    ensures NormaliseType("real") == "double"
  {
    NotContainsChar("real", "int", 0);
    NotContainsChar("real", "numeric", 0);
    ContainsAt("real", "real", 0);
  }

  lemma NormaliseTypeCharacterExample()
    ensures NormaliseType("character(10)") == "varchar"
  {
    NotContainsChar("character(10)", "int", 0);
    NotContainsChar("character(10)", "numeric", 0);
    NotContainsChar("character(10)", "double", 0);
    NotContainsChar("character(10)", "real", 3);
    ContainsAt("character(10)", "char", 0);
  }

  lemma NormaliseTypeTimestampExample()
    ensures NormaliseType("timestamp") == "datetime"
  {
    NotContainsChar("timestamp", "int", 1);
    NotContainsChar("timestamp", "numeric", 0);
    NotContainsChar("timestamp", "double", 0);
    NotContainsChar("timestamp", "real", 0);
    NotContainsChar("timestamp", "char", 0);
    ContainsAt("timestamp", "timestamp", 0);
  }

  /** A name no test matches is kept as it is. */
  lemma NormaliseTypeTextExample()
    ensures NormaliseType("text") == "text"
  {
    NotContainsChar("text", "int", 0);
    NotContainsChar("text", "numeric", 0);
    NotContainsChar("text", "double", 0);
    NotContainsChar("text", "real", 0);
    NotContainsChar("text", "char", 0);
    NotContainsChar("text", "timestamp", 1);
    NotContainsChar("text", "date", 0);
  }

  // ---------------------------------------------------------------------------
  // Catalog rows to columns (loadColumns)
  // ---------------------------------------------------------------------------

  /** The key marker of a primary-key column: "t" or "PRI" as text, or boolean true. */
  predicate IsPkMarker(key: Value)
  {
    key == Str("t") || key == Str("PRI") || key == Bool(true)
  }

  /** The column built from one catalog row, setter by setter as `loadColumns` does. */
  function ColumnFromRow(driver: Driver, row: CatalogRow): (c: Column)
    ensures c.name == row.name && c.order == row.order
    ensures c.dataType == NormaliseType(row.dataType)
    ensures c.pk <==> IsPkMarker(row.key)
    ensures driver == PgSql ==>
      (c.notNull <==> row.notNull == Bool(true)) &&
      (c.autoIncrement <==> Contains(row.defaultExpr, "nextval"))
    ensures driver == MySql ==>
      (c.notNull <==> row.nullable == "NO") &&
      (c.autoIncrement <==> Contains(row.extra, "auto_increment"))
    ensures !c.fk && c.fkTable == "" && c.fkColumn == ""
  {
    var c0 := NewColumn(row.name, row.dataType).(order := row.order);
    var c1 := if IsPkMarker(row.key) then c0.(pk := true) else c0;
    var c2 := c1.(dataType := NormaliseType(row.dataType));
    var c3 :=
      match driver
      case PgSql =>
        var n := if row.notNull == Bool(true) then c2.(notNull := true) else c2;
        if Contains(row.defaultExpr, "nextval") then n.(autoIncrement := true) else n
      case MySql =>
        var n := if row.nullable == "NO" then c2.(notNull := true) else c2;
        if Contains(row.extra, "auto_increment") then n.(autoIncrement := true) else n;
    if IsPkMarker(row.key) then c3.(pk := true) else c3
  }

  /** The columns `loadColumns` returns: one per catalog row, in row order; none on failure. */
  function CatalogColumns(driver: Driver, result: QueryResult<CatalogRow>): seq<Column>
  {
    match result
    case Failed => []
    case Fetched(rows) => seq(|rows|, k requires 0 <= k < |rows| => ColumnFromRow(driver, rows[k]))
  }

  method LoadColumns(driver: Driver, result: QueryResult<CatalogRow>) returns (list: seq<Column>)
    ensures list == CatalogColumns(driver, result)
  {
    list := [];
    if result.Fetched? {
      var rows := result.rows;
      var i := 0;
      while i < |rows|
        invariant 0 <= i <= |rows|
        invariant |list| == i
        invariant forall k :: 0 <= k < i ==> list[k] == ColumnFromRow(driver, rows[k])
      {
        var column := ColumnFromRow(driver, rows[i]);
        list := list + [column];
        i := i + 1;
      }
    }
  }

  /** MySQL spells every flag as text; a typical auto-increment primary key. */
  lemma MySqlPrimaryKeyExample()
    ensures var c := ColumnFromRow(MySql, CatalogRow(1, "actor_id", "smallint", Str("PRI"), Null, "", "NO", "auto_increment"));
      c.pk && c.notNull && c.autoIncrement && c.dataType == "int"
  {
    ContainsAt("smallint", "int", 5);
    ContainsAt("auto_increment", "auto_increment", 0);
  }

  // ---------------------------------------------------------------------------
  // Columns of a stored query (loadQueryColumns)
  // ---------------------------------------------------------------------------

  predicate IsDigit(c: char) { '0' <= c <= '9' }

  /**
   * A simplified `is_numeric` on text: an optional sign, then digits with at most one
   * decimal point and at least one digit.
   */
  predicate IsNumericText(s: string)
  {
    var body := if |s| > 0 && (s[0] == '-' || s[0] == '+') then s[1..] else s;
    (exists c :: c in body && IsDigit(c)) &&
    (forall c :: c in body ==> IsDigit(c) || c == '.') &&
    multiset(body)['.'] <= 1
  }

  /** `is_numeric($v)` on what PDO returns. */
  predicate IsNumeric(v: Value)
  {
    match v
    case Str(s) => IsNumericText(s)
    case Int(_) => true
    case _ => false
  }

  /** `strpos($v, '.') !== false`, the value converted to text first. */
  predicate HasDot(v: Value)
  {
    match v
    case Str(s) => '.' in s
    case Int(i) => '.' in IntToString(i)
    case _ => false
  }

  /** The type inferred from a literal value. */
  function ValueType(v: Value): string
  {
    if IsNumeric(v) then (if HasDot(v) then "double" else "int") else "varchar"
  }

  /** The inferred type is one of three: "double" exactly for numbers with a dot, "int" exactly for numbers without. */
  lemma ValueTypeSpec(v: Value)
    ensures ValueType(v) in {"double", "int", "varchar"}
    ensures ValueType(v) == "double" <==> IsNumeric(v) && HasDot(v)
    ensures ValueType(v) == "int" <==> IsNumeric(v) && !HasDot(v)
  {
  }

  /** Decimal text of an integer passes `is_numeric`. */
  lemma IntegerTextIsNumeric(i: int)
    ensures IsNumericText(IntToString(i))
  {
    var s := IntToString(i);
    var digits := NatToString(if i < 0 then -i else i);
    var body := if |s| > 0 && (s[0] == '-' || s[0] == '+') then s[1..] else s;
    if i < 0 {
      assert s == "-" + digits && s[1..] == digits;
    } else {
      assert digits[0] != '-' && digits[0] != '+';
    }
    assert body == digits;
    assert digits[0] in digits && IsDigit(digits[0]);
    assert forall c :: c in digits ==> IsDigit(c);
    assert '.' !in multiset(digits);
  }

  /** Integers, whether PDO returns them as numbers or as decimal text, are typed "int". */
  lemma IntegersAreTypedInt(i: int)
    ensures ValueType(Int(i)) == "int"
    ensures ValueType(Str(IntToString(i))) == "int"
  {
    IntToStringHasNoDot(i);
    IntegerTextIsNumeric(i);
  }

  /** Decimal text with one dot, such as "3.5", is typed "double". */
  lemma DecimalTextIsDouble(d1: char, d2: char)
    requires IsDigit(d1) && IsDigit(d2)
    ensures ValueType(Str([d1, '.', d2])) == "double"
  {
    var s := [d1, '.', d2];
    assert s[0] == d1 && d1 != '-' && d1 != '+';
    assert multiset(s) == multiset{d1, '.', d2};
    assert multiset(s)['.'] == 1 by {
      assert d1 != '.' && d2 != '.';
    }
    assert forall c :: c in s ==> c == d1 || c == '.' || c == d2;
    assert s[0] in s && IsDigit(s[0]);
    assert IsNumericText(s);
    assert s[1] in s;
  }

  /** Signed digit text, such as "-12", is typed "int". */
  lemma SignedTextIsInt(d1: char, d2: char)
    requires IsDigit(d1) && IsDigit(d2)
    ensures ValueType(Str(['-', d1, d2])) == "int"
  {
    var s := ['-', d1, d2];
    var body := s[1..];
    assert body == [d1, d2];
    forall c | c in body ensures IsDigit(c) {
    }
    assert d1 in body;
    assert '.' !in s;
    assert multiset(body)['.'] == 0;
  }

  /** The characters `is_numeric` skips before a number. */
  predicate IsLeadingSpace(c: char)
  {
    c == ' ' || c == '\t' || c == '\n' || c == '\r' || c == '\U{000B}' || c == '\U{000C}'
  }

  /**
   * Text starting with anything but a digit, a sign, a dot or white space, such as
   * "PENELOPE", is typed "varchar".
   */
  lemma WordsAreVarchar(s: string)
    requires |s| > 0 && !IsDigit(s[0]) && s[0] != '-' && s[0] != '+' && s[0] != '.' && !IsLeadingSpace(s[0])
    ensures ValueType(Str(s)) == "varchar"
  {
    assert s[0] in s;
  }

  /** NULL and booleans are "varchar". */
  lemma NonNumbersAreVarchar(b: bool)
    ensures ValueType(Null) == "varchar"
    ensures ValueType(Bool(b)) == "varchar"
  {
  }

  /** The probe statement: the stored query with every ';' removed, then " LIMIT 1 ". */
  function ProbeSql(query: string): (sql: string)
    ensures ';' !in sql
    ensures |sql| >= 9 && sql[|sql| - 9..] == " LIMIT 1 "
    ensures forall x :: x in sql[..|sql| - 9] <==> x in query && x != ';'
    ensures multiset(sql[..|sql| - 9]) == multiset(query)[';' := 0]
  {
    var r := RemoveChar(query, ';') + " LIMIT 1 ";
    assert r[..|r| - 9] == RemoveChar(query, ';');
    RemoveCharCounts(query, ';');
    r
  }

  /** A query without ';' is probed exactly as written, with the limit appended. */
  lemma ProbeSqlOfCleanQuery(query: string)
    requires ';' !in query
    ensures ProbeSql(query) == query + " LIMIT 1 "
  {
    RemoveCharAbsent(query, ';');
  }

  /** A ';' between two clean pieces is dropped, and the pieces are joined in order. */
  lemma ProbeSqlDropsSeparator(a: string, b: string)
    requires ';' !in a && ';' !in b
    ensures ProbeSql(a + ";" + b) == a + b + " LIMIT 1 "
  {
    RemoveCharDropsSeparator(a, b, ';');
  }

  /** A ';' in the middle of a query: "SELECT 1;x" is probed as "SELECT 1x LIMIT 1 ". */
  lemma ProbeSqlInnerSemicolonExample(query: string)
    requires query == "SELECT 1" + ";" + "x"
    ensures ProbeSql(query) == "SELECT 1" + "x" + " LIMIT 1 "
  {
    var a := "SELECT 1";
    assert forall k :: 0 <= k < |a| ==> a[k] != ';';
    ProbeSqlDropsSeparator(a, "x");
  }

  /** `fetchAll()[0]`: the first row, or nothing when the statement failed or fetched no row. */
  function FirstRow(result: QueryResult<QueryRow>): QueryRow
  {
    if result.Fetched? && |result.rows| > 0 then result.rows[0] else []
  }

  /** The column `loadQueryColumns` builds for the k-th field of the first row. */
  function QueryColumn(row: QueryRow, k: nat): Column
    requires k < |row|
  {
    NewColumn(row[k].0, ValueType(row[k].1)).(order := k + 1)
  }

  /** The columns of a stored query: one per field of its first row, typed by value, ordered 1..n. */
  function QueryColumns(result: QueryResult<QueryRow>): (cols: seq<Column>)
    ensures |cols| == |FirstRow(result)|
    ensures forall k :: 0 <= k < |cols| ==>
      cols[k].name == FirstRow(result)[k].0 && cols[k].order == k + 1 &&
      cols[k].dataType == ValueType(FirstRow(result)[k].1) &&
      !cols[k].pk && !cols[k].fk && !cols[k].notNull && !cols[k].autoIncrement
  {
    var row := FirstRow(result);
    seq(|row|, k requires 0 <= k < |row| => QueryColumn(row, k))
  }

  method LoadQueryColumns(query: string, result: QueryResult<QueryRow>) returns (sql: string, list: seq<Column>)
    ensures sql == ProbeSql(query)
    ensures list == QueryColumns(result)
  {
    list := [];
    sql := ProbeSql(query);
    var order := 1;
    var row := FirstRow(result);
    if result.Fetched? {
      var i := 0;
      while i < |row|
        invariant 0 <= i <= |row|
        invariant order == i + 1 && |list| == i
        invariant forall k :: 0 <= k < i ==> list[k] == QueryColumn(row, k)
      {
        var field := row[i];
        var t := ValueType(field.1);
        var column := NewColumn(field.0, t).(order := order);
        assert column == QueryColumn(row, i);
        list := list + [column];
        order := order + 1;
        i := i + 1;
      }
    }
    QueryColumnsIndexed(result, list);
  }

  lemma QueryColumnsIndexed(result: QueryResult<QueryRow>, list: seq<Column>)
    requires |list| == |FirstRow(result)|
    requires forall k :: 0 <= k < |list| ==> list[k] == QueryColumn(FirstRow(result), k)
    ensures list == QueryColumns(result)
  {
  }

  // ---------------------------------------------------------------------------
  // Foreign keys (loadFKs)
  // ---------------------------------------------------------------------------

  /** The last FK row naming a column, which is the one whose values survive the loop. */
  function LastFkRow(rows: seq<FkRow>, name: string): (r: Option<FkRow>)
    ensures r.Some? <==> exists i :: 0 <= i < |rows| && rows[i].columnName == name
    ensures r.Some? ==> r.value in rows && r.value.columnName == name
  {
    if |rows| == 0 then None
    else if rows[|rows| - 1].columnName == name then Some(rows[|rows| - 1])
    else
      var init := rows[..|rows| - 1];
      assert forall i :: 0 <= i < |init| ==> init[i] == rows[i];
      LastFkRow(init, name)
  }

  /** The last row naming a column wins: later rows that name other columns do not matter. */
  lemma {:induction false} LastFkRowIsLast(rows: seq<FkRow>, name: string, i: nat)
    requires i < |rows| && rows[i].columnName == name
    requires forall j :: i < j < |rows| ==> rows[j].columnName != name
    ensures LastFkRow(rows, name) == Some(rows[i])
  {
    if i < |rows| - 1 {
      var init := rows[..|rows| - 1];
      assert init[i] == rows[i];
      LastFkRowIsLast(init, name, i);
    }
  }

  /** A column with the FK target of `r` attached, or unchanged when there is none. */
  function WithFk(c: Column, r: Option<FkRow>): Column
  {
    match r
    case None => c
    case Some(row) => c.(fk := true, fkTable := row.foreignTableName, fkColumn := row.foreignColumnName)
  }

  /** The columns after `loadFKs`: each takes the last FK row naming it; failure changes nothing. */
  function AttachFks(columns: seq<Column>, result: QueryResult<FkRow>): seq<Column>
  {
    match result
    case Failed => columns
    case Fetched(rows) =>
      seq(|columns|, k requires 0 <= k < |columns| => WithFk(columns[k], LastFkRow(rows, columns[k].name)))
  }

  /** A column that no FK row names keeps every field. */
  lemma {:induction false} AttachFksLeavesOthers(columns: seq<Column>, rows: seq<FkRow>, k: nat)
    requires k < |columns|
    requires forall i :: 0 <= i < |rows| ==> rows[i].columnName != columns[k].name
    ensures |AttachFks(columns, Fetched(rows))| == |columns|
    ensures AttachFks(columns, Fetched(rows))[k] == columns[k]
  {
    var r := LastFkRow(rows, columns[k].name);
    assert r.None?;
  }

  /** Every column an FK row names becomes an FK, with table and column from some row naming it. */
  lemma {:induction false} AttachFksMarksMatches(columns: seq<Column>, rows: seq<FkRow>, k: nat, i: nat)
    requires k < |columns| && i < |rows| && rows[i].columnName == columns[k].name
    ensures var c := AttachFks(columns, Fetched(rows))[k];
      c.fk && c.name == columns[k].name && c.dataType == columns[k].dataType && c.pk == columns[k].pk &&
      exists j :: 0 <= j < |rows| && rows[j].columnName == c.name &&
        c.fkTable == rows[j].foreignTableName && c.fkColumn == rows[j].foreignColumnName
  {
    var r := LastFkRow(rows, columns[k].name);
    assert r.Some?;
  }

  method LoadFKs(columns: seq<Column>, result: QueryResult<FkRow>) returns (updated: seq<Column>)
    ensures updated == AttachFks(columns, result)
  {
    updated := columns;
    if result.Fetched? {
      var rows := result.rows;
      var i := 0;
      while i < |rows|
        invariant 0 <= i <= |rows|
        invariant |updated| == |columns|
        invariant forall k :: 0 <= k < |columns| ==> updated[k] == WithFk(columns[k], LastFkRow(rows[..i], columns[k].name))
      {
        var row := rows[i];
        assert rows[..i + 1][..i] == rows[..i];
        var j := 0;
        while j < |updated|
          invariant 0 <= j <= |updated| == |columns|
          invariant forall k :: 0 <= k < j ==> updated[k] == WithFk(columns[k], LastFkRow(rows[..i + 1], columns[k].name))
          invariant forall k :: j <= k < |columns| ==> updated[k] == WithFk(columns[k], LastFkRow(rows[..i], columns[k].name))
        {
          var column := updated[j];
          if row.columnName == column.name {
            updated := updated[j := column.(fk := true, fkTable := row.foreignTableName, fkColumn := row.foreignColumnName)];
          }
          j := j + 1;
        }
        i := i + 1;
      }
      assert rows[..|rows|] == rows;
    }
  }

  // ---------------------------------------------------------------------------
  // loadTable
  // ---------------------------------------------------------------------------

  /**
   * `loadTable`: a "table" takes its columns from the catalog and then its FK targets;
   * a "query" keeps its query and takes the columns of its first result row; any other
   * kind has no columns. The three results stand for the three statements' outcomes.
   */
  method LoadTable(driver: Driver, tableName: string, mode: string, kind: string, query: string,
                   catalog: QueryResult<CatalogRow>, fks: QueryResult<FkRow>, probe: QueryResult<QueryRow>)
    returns (table: Table)
    ensures table.name == tableName && table.mode == mode && table.kind == kind
    ensures kind == "table" ==> table.query == "" && table.columns == AttachFks(CatalogColumns(driver, catalog), fks)
    ensures kind == "query" ==> table.query == query && table.columns == QueryColumns(probe)
    ensures kind != "table" && kind != "query" ==> table.query == "" && table.columns == []
  {
    table := NewTable(tableName).(mode := mode).(kind := kind);
    if table.kind == "table" {
      var columns := LoadColumns(driver, catalog);
      table := table.(columns := columns);
      columns := LoadFKs(table.columns, fks);
      table := table.(columns := columns);
    } else if table.kind == "query" {
      table := table.(query := query);
      var _, columns := LoadQueryColumns(query, probe);
      table := table.(columns := columns);
    }
  }
}
