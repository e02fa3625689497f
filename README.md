# html5sync change-tracking core, modelled in Dafny

html5sync keeps browser-side copies of database tables in step with a
PostgreSQL or MySQL server. This project models two sequential parts of its
server side.

- **`DaoTable`**, the data layer. It:
  - turns catalog rows into `Column` records;
  - infers the columns of a stored query from its first result row;
  - attaches foreign keys;
  - projects fetched rows into registers;
  - builds the `INSERT`/`UPDATE`/`DELETE` text from an associative register;
  - names the change-log triggers;
  - reads the change log (`html5sync` table) back with `getLastTransactions`.
- **`Html5Sync`**, the session object. It decides which configured tables a user may
  see (match by user id OR by role) and appends the structure of each accessible
  table to its `tables` field, in configuration order.

The database never runs. Each statement is replaced by what it would fetch:
- `QueryResult<R>` is `Failed` or `Fetched(rows)`;
- each write takes the error text the driver would report (`dbError`).

`loadTable` is handed to the session as an abstract function `(schema, name, mode) -> Table`.

Modules, one per file:
- `Wrappers` (wrappers.dfy): `Option`.
- `Strings` (strings.dfy): `strpos`, `str_replace` of one character, `substr($s,0,-1)` after a comma-terminated list, and the decimal text of integers.
- `TableModel` (table_model.dfy): the `Table` and `Column` records, `getColumn` and `getPk`.
- `DaoColumns` (dao_columns.dfy): `loadTable`, `loadColumns`, `loadQueryColumns` and `loadFKs`.
- `DaoRows` (dao_rows.dfy): `getRows`.
- `DaoTransactions` (dao_transactions.dfy): the trigger names and `getLastTransactions`.
- `DaoWrites` (dao_writes.dfy): `addRegister`, `updateRegister` and `deleteRegister`.
- `Sync` (html5sync.dfy): the `Html5Sync` class, with its constructor, `loadTables` and `checkIfAccessibleTable`.

Modelling decisions:
- The `Table` and `Column` classes are not part of this model, so they become plain datatypes.
  - A new column has order 0, every flag false, and empty FK names.
  - A new table has an empty mode, type and query, and no columns.
  - `getColumn` returns the first column of that name.
  - `getPk` returns the first primary-key column.
- `loadFKs` changes `Column` objects in place. It is modelled as a method that builds the updated column sequence.
- The methods with loops (`LoadColumns`, `LoadQueryColumns`, `LoadFKs`, `GetRows`, `AddRegister`, `UpdateRegister`, `CheckIfAccessibleTable`, `LoadTables`) keep the source's loops.
  - Each is proved equal to a specification function.
  - The properties are proved as lemmas about that function.
- Dates in the change log are integers.
- `getLastTransactions` is a pure function that follows its SQL:
  - a grouped subquery picks the latest date per (table, key) after `lastUpdate`;
  - it is joined back on table and date;
  - the result is ordered by date.
- SQL leaves the order of equal dates open. The model keeps log order for ties (a stable insertion sort).
- A write's result (`false` or an error string in PHP) is the `Outcome` datatype:
  - `Rejected(message)`: the column check failed, and no statement is prepared;
  - `Prepared(sql, dbError)`: the statement text and the driver's error, if any;
  - `Crashed`: `deleteRegister` on a table without a primary key. There `$pk` is `false` or `null` (the body of `getPk` is not part of this model), and `$pk->getName()` is a fatal error.
- `Html5Sync` keeps the log of `setUpdatedColumnMode` calls as a field (`updatedColumnModeCalls`). That method is not defined in any of the files modelled. The model records the calls and assumes the method leaves the table it is handed unchanged (see "## Left out").
- The constructor reads the `"parameters"` section of the configuration (Html5Sync.php:140). The shipped configuration defines only `"main"` (config.php:45).
  - So in the shipped setup, `parameters` is absent and the "updatedColumn" branch is never taken.
  - `MainSectionIsNeverRead` states this.
- `loadTables` passes the driver name as `loadTable`'s schema argument (Html5Sync.php:169). The model keeps that.
- A table entry without `"users"` or `"roles"` (the `city` entry has no `"users"`) loops over nothing in PHP. The model reads an absent list as empty.

## Model

| member | source | states |
|---|---|---|
| `TableModel.FindColumn` | server/business/DaoTable.php:449 | lookup by name: found exactly when some column has that name, and the found column has it |
| `TableModel.FindPk` | server/business/DaoTable.php:530 | `getPk`: found exactly when some column is a primary key, and the found column is one |
| `Strings.RemoveChar` | server/business/DaoTable.php:159 | `str_replace(";","",…)`: never longer; a character occurs in the result iff it occurs in the input and is not the removed one |
| `Strings.RemoveCharAbsent` | server/business/DaoTable.php:159 | removing a character that does not occur changes nothing |
| `Strings.RemoveCharCounts` | server/business/DaoTable.php:159 | counted with multiplicity, the result is the input with every occurrence of the removed character gone and every other character kept as often |
| `Strings.RemoveCharConcat` | server/business/DaoTable.php:159 | removal works piece by piece: removing from `a + b` is removing from `a` followed by removing from `b`, so the order of what is kept is the input's |
| `Strings.RemoveCharDropsSeparator` | server/business/DaoTable.php:159 | a removed character between two pieces that lack it is dropped and the pieces are joined in order |
| `Strings.TrimmedIsJoin` | server/business/DaoTable.php:451-461 | a list written as "x," per item, less its last character, is the comma-joined list |
| `Strings.TerminatedEndsWithComma` | server/business/DaoTable.php:459-461 | a non-empty "x,"-list ends in the comma that `substr($s,0,-1)` removes |
| `Strings.SplitJoin` | server/business/DaoTable.php:460-461 | for comma-free items, splitting the joined list at commas gives the items back |
| `Strings.SplitAppend` | server/business/DaoTable.php:291 | splitting `a + "," + b` at commas, where `b` has no comma, gives the pieces of `a` followed by `b` |
| `Strings.NatToString` | server/business/DaoTable.php:289 | the decimal text of a natural number is non-empty and all digits |
| `Strings.ParseNatToString` | server/business/DaoTable.php:289 | reading the decimal text of a natural number gives the number back |
| `Strings.IntToStringRoundTrip` | server/business/DaoTable.php:289-291 | an integer's decimal text (what PHP's `.` concatenation writes) is well-formed and reads back as the integer |
| `Strings.IntToStringHasNoDot` | server/business/DaoTable.php:169 | an integer's text contains no '.' |
| `DaoColumns.NormaliseType` | server/business/DaoTable.php:112-122 | the normalised type is one of int/double/varchar/datetime or the raw name itself |
| `DaoColumns.NormaliseTypeFirstMatch` | server/business/DaoTable.php:112-122 | the five branches, each as an if-and-only-if, in their fixed order: "int"/"numeric" gives int; else "double"/"real" gives double; else "char" gives varchar; else "timestamp"/"date" gives datetime; else the raw name |
| `DaoColumns.NormaliseTypeIdempotent` | server/business/DaoTable.php:112-122 | normalising twice is normalising once |
| `DaoColumns.ClassNamesClassifyThemselves` | server/business/DaoTable.php:112-122 | each class name normalises to itself |
| `DaoColumns.IntClassifiesAsInt` | server/business/DaoTable.php:112 | "int" passes the first test |
| `DaoColumns.DoubleClassifiesAsDouble` | server/business/DaoTable.php:112-114 | "double" fails the first test and passes the second |
| `DaoColumns.VarcharClassifiesAsVarchar` | server/business/DaoTable.php:112-116 | "varchar" reaches and passes only the third test |
| `DaoColumns.DatetimeClassifiesAsDatetime` | server/business/DaoTable.php:112-118 | "datetime" reaches and passes only the fourth test |
| `DaoColumns.NormaliseTypeIntExamples` | server/business/DaoTable.php:112-113 | "integer", "numeric(5,2)", and, by the substring test, "interval" and "point" become int |
| `DaoColumns.NormaliseTypeRealExample` | server/business/DaoTable.php:114-115 | "real" becomes double |
| `DaoColumns.NormaliseTypeCharacterExample` | server/business/DaoTable.php:116-117 | "character(10)" becomes varchar |
| `DaoColumns.NormaliseTypeTimestampExample` | server/business/DaoTable.php:118-119 | "timestamp" becomes datetime |
| `DaoColumns.NormaliseTypeTextExample` | server/business/DaoTable.php:120-121 | "text" matches nothing and is kept as it is |
| `DaoColumns.CatalogColumns` | server/business/DaoTable.php:104-147 | the columns of a catalog read: one `ColumnFromRow` per row, none when the read fails; `LoadColumns` is proved to compute it |
| `DaoColumns.ColumnFromRow` | server/business/DaoTable.php:107-140 | name and order from the row; normalised type; pk iff the key is "t", "PRI" or true (the repeated check at 138-140 changes nothing); pgsql: notNull iff `notnull` is true, autoIncrement iff the default contains "nextval"; mysql: notNull iff nullable is "NO", autoIncrement iff extra contains "auto_increment"; no FK |
| `DaoColumns.MySqlPrimaryKeyExample` | server/business/DaoTable.php:109-140 | a MySQL `PRI`, `NO`, `auto_increment` smallint row gives an int primary key that is not null and auto-increments |
| `DaoColumns.LoadColumns` | server/business/DaoTable.php:104-147 | the fetch loop returns one column per catalog row, in row order, and nothing when the statement fails |
| `DaoColumns.ValueType` | server/business/DaoTable.php:167-174 | the type a probed value is given: "double" for numeric text with a '.', "int" for other numeric values, "varchar" otherwise; `ValueTypeSpec` and the typing lemmas below state its cases |
| `DaoColumns.ValueTypeSpec` | server/business/DaoTable.php:167-174 | the inferred type is one of three, "double" iff numeric with a '.', "int" iff numeric without one |
| `DaoColumns.IntegerTextIsNumeric` | server/business/DaoTable.php:168 | the text of any integer is numeric |
| `DaoColumns.IntegersAreTypedInt` | server/business/DaoTable.php:167-174 | an integer value, or its text, is typed int |
| `DaoColumns.DecimalTextIsDouble` | server/business/DaoTable.php:168-170 | digit, '.', digit is typed double |
| `DaoColumns.SignedTextIsInt` | server/business/DaoTable.php:168-172 | '-' and two digits is typed int |
| `DaoColumns.WordsAreVarchar` | server/business/DaoTable.php:167-168 | text that starts with neither a digit, a sign, a '.' nor white space is typed varchar |
| `DaoColumns.NonNumbersAreVarchar` | server/business/DaoTable.php:167-168 | NULL and booleans are typed varchar |
| `DaoColumns.ProbeSql` | server/business/DaoTable.php:159-160 | the probe has no ';' and ends in " LIMIT 1 "; before that it holds every character of the query other than ';', each as often as in the query, and no other |
| `DaoColumns.ProbeSqlOfCleanQuery` | server/business/DaoTable.php:159-160 | a query without ';' is probed as itself plus " LIMIT 1 " |
| `DaoColumns.ProbeSqlDropsSeparator` | server/business/DaoTable.php:159-160 | a ';' between two ';'-free pieces of a query is dropped, the pieces are joined in order and " LIMIT 1 " follows |
| `DaoColumns.ProbeSqlInnerSemicolonExample` | server/business/DaoTable.php:159-160 | "SELECT 1;x" is probed as "SELECT 1x LIMIT 1 " |
| `DaoColumns.QueryColumns` | server/business/DaoTable.php:163-180 | one column per field of the first row, with the field's name, order k+1 for field k, the inferred type, and no flags |
| `DaoColumns.LoadQueryColumns` | server/business/DaoTable.php:155-186 | the method prepares the probe statement and its loop with the `$order` counter returns exactly those columns |
| `DaoColumns.LastFkRow` | server/business/DaoTable.php:224-231 | some FK row matches a column exactly when one is found, and the found row names that column |
| `DaoColumns.LastFkRowIsLast` | server/business/DaoTable.php:224-231 | the found row is the last matching one |
| `DaoColumns.AttachFks` | server/business/DaoTable.php:224-231 | each column takes the foreign key of the last FK row naming it; a failed read changes nothing; `AttachFksLeavesOthers` and `AttachFksMarksMatches` state both cases |
| `DaoColumns.AttachFksLeavesOthers` | server/business/DaoTable.php:224-231 | a column that no FK row names is left unchanged, and the column count is kept |
| `DaoColumns.AttachFksMarksMatches` | server/business/DaoTable.php:224-231 | a column that an FK row names gets fk set and that row's foreign table and column, and keeps its name, type and pk |
| `DaoColumns.LoadFKs` | server/business/DaoTable.php:193-237 | the nested loop gives exactly the FK attachment, and nothing changes when the statement fails |
| `DaoColumns.LoadTable` | server/business/DaoTable.php:43-55 | name, mode and kind as given; "table": catalog columns with FKs attached; "query": the query and its inferred columns; any other kind: no columns |
| `DaoRows.RowsSql` | server/business/DaoTable.php:287-295 | the statement `getRows` prepares: the driver's paging `SELECT` for a table, the stored query for a query, none for any other kind; `PgSqlPaging` and `MySqlPaging` state the paging texts |
| `DaoRows.PgSqlPaging` | server/business/DaoTable.php:288-289 | pgsql pages `LIMIT max OFFSET init`, and both numbers read back from the text |
| `DaoRows.MySqlPaging` | server/business/DaoTable.php:290-291 | mysql pages `LIMIT init,max`: the clause splits at its one comma into the offset, then the count |
| `DaoRows.LimitClauseReadsBack` | server/business/DaoTable.php:291 | the text `init,max` splits into exactly two well-formed integers: the offset, then the count |
| `DaoRows.DecimalTextHasNoComma` | server/business/DaoTable.php:291 | decimal text has no comma, so the MySQL clause splits where it was joined |
| `DaoRows.Register` | server/business/DaoTable.php:299-302 | a register has one value per table column |
| `DaoRows.GetRows` | server/business/DaoTable.php:283-310 | the statement is the page or the stored query, and the nested loop returns exactly the registers of the fetched rows |
| `DaoRows.Registers` | server/business/DaoTable.php:296-309 | the list `getRows` returns: one register per fetched row, nothing without a statement or when the read fails; `RegistersShape` states its shape |
| `DaoRows.RegistersShape` | server/business/DaoTable.php:298-304 | one register per fetched row; position k of a register holds the row's field for column k (NULL if the row lacks it) |
| `DaoTransactions.EventWord` | server/business/DaoTable.php:365-374 | each event word has six letters, so trigger names can be told apart |
| `DaoTransactions.TriggerNameInjective` | server/business/DaoTable.php:365-374 | equal trigger names mean the same event and the same table |
| `DaoTransactions.TransactionTriggers` | server/business/DaoTable.php:362-377 | the triggers `createTransactionsTriggers` installs; `TriggersAreWellFormed` and `TriggersCoverage` state their names, tables and which drivers get them |
| `DaoTransactions.TriggersAreWellFormed` | server/business/DaoTable.php:362-377 | every trigger is on the table and named `html5sync_trig_<event>_<table>`; no two share an event or a name |
| `DaoTransactions.TriggersCoverage` | server/business/DaoTable.php:364-375 | pgsql always gets three triggers; mysql gets three iff the table has a primary key, and none otherwise |
| `DaoTransactions.LatestDate` | server/business/DaoTable.php:394-396 | the grouped `MAX(html5sync_date)` of one (table, key) over the rows after `lastUpdate`; `LatestDateSpec` states when it exists and that it is the maximum |
| `DaoTransactions.GroupKeys` | server/business/DaoTable.php:394-396 | the groups of the sub-select in order of first appearance; `GroupKeysSpec` states that each changed group is listed exactly once and no other |
| `DaoTransactions.LatestDateSpec` | server/business/DaoTable.php:394-396 | the grouped `MAX(html5sync_date)` exists iff the (table, key) changed after `lastUpdate`; it is after `lastUpdate`, is some row's date, and is no earlier than any of its rows after `lastUpdate` |
| `DaoTransactions.GroupKeysSpec` | server/business/DaoTable.php:394-396 | `GROUP BY html5sync_table, html5sync_key` lists each changed (table, key) exactly once, and nothing else |
| `DaoTransactions.InsertByDatePermutes` | server/business/DaoTable.php:398 | inserting by date adds the row and loses nothing |
| `DaoTransactions.InsertByDateSorted` | server/business/DaoTable.php:398 | inserting into a date-ordered list keeps it in order |
| `DaoTransactions.SortByDate` | server/business/DaoTable.php:398 | `ORDER BY html5sync_date` gives a permutation of its input in non-decreasing date order |
| `DaoTransactions.CountSort` | server/business/DaoTable.php:398 | ordering changes no (table, key)'s number of entries |
| `DaoTransactions.Joined` | server/business/DaoTable.php:390-398 | the inner join back to the log, on table and date, before ordering; `JoinRowsMembers`, `JoinsOnlyOwnGroup` and `JoinedIsFilterLatest` state what it keeps |
| `DaoTransactions.GetLastTransactions` | server/business/DaoTable.php:387-412 | `getLastTransactions`: the joined rows in date order, or none when the statement fails; `GetLastTransactionsBounds` and `LastTransactionsOnePerKey` state its properties |
| `DaoTransactions.JoinRowsMembers` | server/business/DaoTable.php:390-398 | each joined row is a log row that matches some group on table and date |
| `DaoTransactions.GetLastTransactionsBounds` | server/business/DaoTable.php:390-398 | the output is in date order; every entry is a log row dated after `lastUpdate` that matches a changed group |
| `DaoTransactions.JoinsOnlyOwnGroup` | server/business/DaoTable.php:397-398 | with distinct dates within a table, a row joins only its own (table, key) group |
| `DaoTransactions.JoinedIsFilterLatest` | server/business/DaoTable.php:390-398 | with distinct dates within a table, the join keeps exactly the rows that are the latest of their (table, key) |
| `DaoTransactions.CountFilterLatest` | server/business/DaoTable.php:382-383 | when at most one row is a group's latest, filtering keeps one entry of that group if such a row exists, else none |
| `DaoTransactions.LatestRowExists` | server/business/DaoTable.php:394-396 | a changed group has a row carrying its latest date |
| `DaoTransactions.LatestPerGroup` | server/business/DaoTable.php:382-383 | with a unique latest row, the ordered filtered log has one entry for a changed group and none for any other |
| `DaoTransactions.FilterLatestMembers` | server/business/DaoTable.php:382-383 | every kept row is an input row and is the latest of its group |
| `DaoTransactions.LastTransactionsOnePerKey` | server/business/DaoTable.php:382-398 | with distinct dates within each table, the output has exactly one entry per (table, key) changed after `lastUpdate`, none for the rest, and each entry is that group's latest log row |
| `DaoTransactions.LifecycleLogGroups` | server/business/DaoTable.php:394-396 | INSERT, UPDATE, DELETE of one key: its latest date is the DELETE's, and it is the only group |
| `DaoTransactions.InsertUpdateDeleteReducesToDelete` | server/business/DaoTable.php:382-383 | after an INSERT, an UPDATE and a DELETE of one key, only the DELETE is returned |
| `DaoTransactions.StaleLogDates` | server/business/DaoTable.php:394-396 | in the finding's log, key 1's latest date is 20 and key 2's is 10 |
| `DaoTransactions.StaleLogJoined` | server/business/DaoTable.php:397-398 | in the finding's log, the join on table and date keeps all three rows, including key 1's stale UPDATE |
| `DaoTransactions.StaleLogSorted` | server/business/DaoTable.php:398 | the finding's three rows, ordered by date |
| `DaoTransactions.StaleUpdateSurfaces` | server/business/DaoTable.php:397-398 | as written: a key whose superseded UPDATE shares its date with another key's latest row is returned twice, the stale UPDATE included |
| `DaoTransactions.LatestTransactions` | server/business/DaoTable.php:382-383 | the corrected query: the latest row of each changed (table, key), in date order; `LatestTransactionsOnePerKey` states it |
| `DaoTransactions.LatestTransactionsOnePerKey` | server/business/DaoTable.php:382-383 | corrected join: in date order, one entry per changed (table, key), each the latest row of its group and dated after `lastUpdate`. Needs distinct dates only within each (table, key) group |
| `DaoTransactions.AsWrittenAgreesUnderDistinctDates` | server/business/DaoTable.php:390-398 | with distinct dates within each table, the SQL as written and the corrected join return the same rows |
| `DaoTransactions.StaleLogFiltered` | server/business/DaoTable.php:382-383 | on the finding's log, only the DELETE of key 1 and the INSERT of key 2 are latest |
| `DaoTransactions.StaleUpdateCorrected` | server/business/DaoTable.php:382-383 | on the finding's log, the corrected join returns the INSERT of key 2, then the DELETE of key 1 |
| `DaoWrites.AddRegister` | server/business/DaoTable.php:444-475 | rejected with "Wrong column specification" iff some register key is not a table column; otherwise `INSERT INTO t (c1,…,cn) VALUES (:c1,…,:cn)` in register order, then the driver's error |
| `DaoWrites.InsertSql` | server/business/DaoTable.php:451-462 | `INSERT INTO t (cols) VALUES (:cols)` over the register's keys in order; `InsertListsReadBack` states that both lists read back |
| `DaoWrites.InsertListsReadBack` | server/business/DaoTable.php:451-462 | for comma-free names, the column list of the insert splits back into the register's keys, and the value list into their placeholders |
| `DaoWrites.SetItems` | server/business/DaoTable.php:494 | the SET list is never longer than the register |
| `DaoWrites.SetItemsMembers` | server/business/DaoTable.php:487-495 | an item is in the SET list iff it is `c=:c` for a known, non-primary-key register column c |
| `DaoWrites.LastPkKey` | server/business/DaoTable.php:490-492 | a WHERE column is found iff some register key is a primary-key column, and the found one is |
| `DaoWrites.LastPkKeyIsLast` | server/business/DaoTable.php:490-492 | the WHERE uses the last primary-key column of the register |
| `DaoWrites.UpdateSql` | server/business/DaoTable.php:487-504 | `UPDATE t SET items WHERE pk=:pk `; `SetItemsMembers`, `LastPkKey` and `UpdateByKeyExample` state its parts |
| `DaoWrites.UpdateRegister` | server/business/DaoTable.php:482-518 | rejected with "Wrong column specification" iff some key is not a table column; otherwise `UPDATE t SET … WHERE pk=:pk `, then the driver's error |
| `DaoWrites.UpdatePartitionsRegister` | server/business/DaoTable.php:487-495 | when every key is known, each register entry is either a SET item or a primary-key entry |
| `DaoWrites.UpdateByKeyExample` | server/business/DaoTable.php:487-504 | a register with one plain column and the key gives `UPDATE t SET c=:c WHERE pk=:pk ` |
| `DaoWrites.DeleteRegister` | server/business/DaoTable.php:525-541 | fails exactly when the table has no primary key; otherwise prepares `DELETE FROM t WHERE pk=:pk ` for a primary-key column and reports the driver's error |
| `DaoWrites.DeleteIgnoresRegister` | server/business/DaoTable.php:530-534 | the delete statement does not depend on the register: no column validation |
| `DaoWrites.DeleteAndUpdateTargetSameKey` | server/business/DaoTable.php:490-531 | when the register's only key column is the table's PK, update and delete name the same WHERE column |
| `DaoWrites.LastPkIndex` | server/business/DaoTable.php:490-492 | the position of the last primary-key entry of the register |
| `Sync.AccessibleTables` | html5sync/server/core/Html5Sync.php:167-177 | at most one structure per configured entry |
| `Sync.Html5Sync.constructor` | html5sync/server/core/Html5Sync.php:55-70 | `tables` starts empty and holds exactly the structures of the accessible entries; in "updatedColumn" mode each of them, and only those, was handed to `setUpdatedColumnMode` |
| `Sync.Html5Sync.CheckIfAccessibleTable` | html5sync/server/core/Html5Sync.php:185-201 | the two loops return true iff some listed user equals the user's id or some listed role equals the user's role |
| `Sync.Html5Sync.LoadTables` | html5sync/server/core/Html5Sync.php:162-178 | the loop appends to `tables` the structure of every accessible entry, in configuration order, skipping the others; in "updatedColumn" mode it hands each appended structure to `setUpdatedColumnMode`; user, driver and parameters are unchanged |
| `Sync.Authorized` | html5sync/server/core/Html5Sync.php:185-201 | a user may read an entry iff the id is among its users or the role among its roles; `CheckIfAccessibleTable` is proved to compute it and `AccessFailsClosed` and `AccessDependsOnSetsOnly` state its properties |
| `Sync.AccessFailsClosed` | html5sync/server/core/Html5Sync.php:186-199 | an entry with no users or roles, empty or absent, is closed to everybody |
| `Sync.AccessDependsOnSetsOnly` | html5sync/server/core/Html5Sync.php:190-199 | only the sets of users and roles matter, not their order or repetitions |
| `Sync.ActorAccessScenario` | server/config.php:166-177 | actor entry: (999, role1) and (101, guest) are let in, (999, guest) is not |
| `Sync.CityAccessByRoleOnly` | server/config.php:178-184 | city entry, without users: only role1 is let in, whatever the id |
| `Sync.AccessibleTablesMembers` | html5sync/server/core/Html5Sync.php:167-176 | a structure is registered iff it is the `loadTable` result of some accessible entry |
| `Sync.AccessibleTablesAppend` | html5sync/server/core/Html5Sync.php:167-177 | the registry of two lists of entries is the registry of the first followed by that of the second |
| `Sync.AccessibleTablesSingle` | html5sync/server/core/Html5Sync.php:168-176 | one entry registers its structure iff it is accessible |
| `Sync.NoAccessNoTables` | html5sync/server/core/Html5Sync.php:167-177 | with every entry closed, nothing is registered |
| `Sync.MainSectionIsNeverRead` | html5sync/server/core/Html5Sync.php:140 | a configuration without a "parameters" section, such as the shipped one with "main", has no parameters and so never selects "updatedColumn" |
| `Sync.GuestSeesNoActor` | server/config.php:166-177 | user (999, guest) gets no actor table |

## Left out

- `countRows`, `countQueryRows` (DaoTable.php:243-275) and `createTransactionsTable` (318-325): thin database calls with no logic of their own.
- `getRowOfTable` (DaoTable.php:418-434): a single keyed `SELECT`, outside the modelled core.
- `createTransactionsProcedures` and the trigger bodies (DaoTable.php:332-357, 372-374). They run inside the database. Only the trigger names, their timing and events, and the MySQL "only with a primary key" guard are modelled.
- The text of the catalog queries (DaoTable.php:66-102, 196-220). The model starts from the rows they return.
- PDO: `connect`, `prepare`, `execute`, `fetch`, `bindParam`, `errorInfo` and `error_log`.
  - A failed read is `Failed` and gives an empty list.
  - A failed write gives the driver's message as `dbError`.
  - The values bound to placeholders are not modelled. That includes binding `$register[pk]` when the register lacks the key (DaoTable.php:534).
- `Html5Sync::loadConfiguration` and `connect` (Html5Sync.php:137-157) are described only by their results.
  - The configuration is a parameter, and the driver name is given.
  - `config["database"]` is not modelled.
  - The timezone call (Html5Sync.php:60) and the `DateTime` formatting of `lastUpdate` (DaoTable.php:400) are left out; dates are integers.
- `Sync.Html5Sync.LoadTables` and `Sync.Html5Sync.constructor`: in "updatedColumn" mode, Html5Sync.php:171-175 hands `$table` to `setUpdatedColumnMode` and then stores the same object in `tables`. PHP passes objects by handle, so whatever that method changes (it is meant to add a timestamp column) is in the stored table. The model assumes the method leaves the table unchanged, so `tables` is exact only outside "updatedColumn" mode. Under the shipped configuration that mode is never selected (`MainSectionIsNeverRead`).
- `DaoColumns.LoadTable`: the doc comment at DaoTable.php:39 says a "query" table is put in mode "lock" automatically. The code calls `setMode($mode)` for every kind (DaoTable.php:45), and `Table::setType` is not part of this model. The model assumes `setType` does not change the mode, so a "query" table keeps the caller's mode.
- Html5Sync.php:139 loads `../config.php` relative to `html5sync/server/ajax`, that is `html5sync/server/config.php`. That file is not part of this model. The scenario lemmas (`ActorAccessScenario`, `CityAccessByRoleOnly`, `GuestSeesNoActor`, `MainSectionIsNeverRead`) take their entries and sections from `server/config.php`, so they assume the two configuration files agree.
- `setUpdatedColumnMode`, `checkIfStructureChanged` and `checkIfDataChanged` are not defined in any of the files modelled. The calls to the first are only recorded; the HTTP entry point `html5sync/server/ajax/sync.php`, including its JSON output, is not part of this model.
- Html5Sync.php:8 includes `../dao/DaoTable.php`, that is `html5sync/server/dao/DaoTable.php`. That file is not part of this model. The model takes `loadTable` and `getRows` from `server/business/DaoTable.php`, so it assumes the two DAO files agree.
- `DaoColumns.ValueTypeSpec`: PHP's `is_numeric` is simplified. Text is numeric when it is:
  - an optional sign;
  - then digits with at most one '.' and at least one digit.
  Exponents, surrounding white space (PHP reads " 12" as numeric, the model types it varchar) are not modelled. Hexadecimal text is rejected, as in PHP 7 and later.
- PDO float values are not modelled: `Value` has no float case. In PHP a fetched `3.5` would be typed "double", and `3.0`, which PHP prints as "3", would be typed "int".
- `Sync.Html5Sync.CheckIfAccessibleTable`: PHP's loose `==` between configured ids and the user's id is modelled as plain equality of integers (ids) and strings (roles).
- `DaoTransactions.SortByDate`: SQL does not fix the order of rows with equal dates. The model keeps log order for them, so the lemmas that name exact output sequences assume that choice.
- The `Transaction` objects built from each row (DaoTable.php:404) are the log rows themselves.
- Default arguments: `getRows($table,$initialRow=0,$maxRows=1000)` (DaoTable.php:283) and `loadTable(...,$type="table",$query="")` (DaoTable.php:43). In the model every argument is explicit; a caller that relies on the defaults passes 0, 1000, "table" and "".
- `getRows` on a table whose kind is neither "table" nor "query": PHP prepares the undefined `$sql` (null). The model prepares no statement and returns an empty list (`RowsSql` gives `None`); the driver's reaction to a null statement is not modelled.

## Findings

| source | as written | input that shows it | evidently intended | confidence | as-written member | corrected member |
|---|---|---|---|---|---|---|
| server/business/DaoTable.php:397-398 | the join back to the log matches on `html5sync_table` and date only, not on `html5sync_key` | one table; UPDATE of key 1 at 10, DELETE of key 1 at 20, INSERT of key 2 at 10, `lastUpdate` 0: key 2's latest date 10 also matches key 1's superseded UPDATE, so key 1 is returned twice | only the latest entry per (table, key), as the doc comment at 382-383 says; join on table, key and date | not executed | `DaoTransactions.StaleUpdateSurfaces` | `DaoTransactions.LatestTransactionsOnePerKey` |
