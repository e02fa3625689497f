/**
 * The write statements of `DaoTable`: `addRegister`, `updateRegister` and `deleteRegister`
 * turn a register (an associative array from column name to value, in its own order) into the
 * text of one prepared statement, or reject it. Binding and executing are done by the database;
 * its only effect here is the error string it may report.
 */
module DaoWrites {
  import opened Wrappers
  import opened Strings
  import opened TableModel

  /** An associative register: column names with their values, in insertion order. */
  type Register = seq<(string, Value)>

  /** What a write call does: reject the register, prepare and run a statement, or stop with a fatal error. */
  datatype Outcome =
    | Rejected(message: string)
    | Prepared(sql: string, dbError: Option<string>)
    | Crashed

  const WrongColumn := "Wrong column specification"

  function Keys(register: Register): seq<string>
  {
    seq(|register|, i requires 0 <= i < |register| => register[i].0)
  }

  predicate Known(table: Table, column: string)
  {
    GetColumn(table, column).Some?
  }

  /** Every key of the register names a column of the table. */
  predicate AllKnown(table: Table, register: Register)
  {
    forall i :: 0 <= i < |register| ==> Known(table, register[i].0)
  }

  // ---------------------------------------------------------------------------
  // addRegister
  // ---------------------------------------------------------------------------

  function Placeholders(columns: seq<string>): seq<string>
  {
    seq(|columns|, i requires 0 <= i < |columns| => ":" + columns[i])
  }

  /** `INSERT INTO t (c1,...,cn) VALUES (:c1,...,:cn)` over the register's keys, in order. */
  function InsertSql(table: Table, register: Register): string
  {
    "INSERT INTO " + table.name + " (" + Join(Keys(register)) + ") VALUES (" + Join(Placeholders(Keys(register))) + ")"
  }

  lemma KeysSnoc(register: Register, i: nat)
    requires i < |register|
    ensures Keys(register[..i + 1]) == Keys(register[..i]) + [register[i].0]
    ensures Placeholders(Keys(register[..i + 1])) == Placeholders(Keys(register[..i])) + [":" + register[i].0]
  {
  }

  lemma TerminatedSnoc(xs: seq<string>, x: string)
    ensures Terminated(xs + [x]) == Terminated(xs) + x + ","
  {
    assert (xs + [x])[..|xs|] == xs;
  }

  /**
   * `addRegister`: rejects the register with "Wrong column specification" exactly when one of
   * its keys is not a column of the table, and then prepares nothing; otherwise prepares the
   * insert of all its keys in order and reports the database's error, if any.
   */
  method AddRegister(table: Table, register: Register, dbError: Option<string>) returns (outcome: Outcome)
    ensures outcome.Rejected? <==> !AllKnown(table, register)
    ensures outcome.Rejected? ==> outcome.message == WrongColumn
    ensures !outcome.Rejected? ==> outcome == Prepared(InsertSql(table, register), dbError)
  {
    var error: Option<string> := None;
    var columns := "";
    var values := "";
    var i := 0;
    while i < |register|
      invariant 0 <= i <= |register|
      invariant error.None? ==> columns == Terminated(Keys(register[..i]))
      invariant error.None? ==> values == Terminated(Placeholders(Keys(register[..i])))
      invariant error.None? ==> AllKnown(table, register[..i])
      invariant error.Some? ==> error == Some(WrongColumn) && !AllKnown(table, register)
    {
      var column := register[i].0;
      if GetColumn(table, column).Some? {
        AllKnownSnoc(table, register, i);
        InsertStep(register, i);
        columns := columns + column + ",";
        values := values + ":" + column + ",";
        i := i + 1;
      } else {
        error := Some(WrongColumn);
        break;
      }
    }
    if error.None? {
      assert register[..i] == register;
      TrimmedIsJoin(Keys(register));
      TrimmedIsJoin(Placeholders(Keys(register)));
      columns := DropLast(columns);
      values := DropLast(values);
      var sql := "INSERT INTO " + table.name + " (" + columns + ") VALUES (" + values + ")";
      outcome := Prepared(sql, dbError);
    } else {
      outcome := Rejected(error.value);
    }
  }

  /** One more key appends `c,` to the column list and `:c,` to the placeholder list. */
  lemma InsertStep(register: Register, i: nat)
    requires i < |register|
    ensures Terminated(Keys(register[..i + 1])) == Terminated(Keys(register[..i])) + register[i].0 + ","
    ensures Terminated(Placeholders(Keys(register[..i + 1]))) == Terminated(Placeholders(Keys(register[..i]))) + ":" + register[i].0 + ","
  {
    KeysSnoc(register, i);
    TerminatedSnoc(Keys(register[..i]), register[i].0);
    TerminatedSnoc(Placeholders(Keys(register[..i])), ":" + register[i].0);
  }

  /**
   * The column list and the placeholder list of an insert read back, split at the commas, as the
   * register's keys and a placeholder for each key, pairwise.
   */
  lemma InsertListsReadBack(register: Register)
    requires |register| > 0
    requires forall i :: 0 <= i < |register| ==> ',' !in register[i].0
    ensures Split(Join(Keys(register))) == Keys(register)
    ensures var ps := Split(Join(Placeholders(Keys(register))));
      |ps| == |register| && forall i :: 0 <= i < |ps| ==> ps[i] == ":" + register[i].0
  {
    var ks := Keys(register);
    SplitJoin(ks);
    var ps := Placeholders(ks);
    forall i | 0 <= i < |ps| ensures ',' !in ps[i] {
      assert ps[i] == [':'] + ks[i];
    }
    SplitJoin(ps);
  }

  // ---------------------------------------------------------------------------
  // updateRegister
  // ---------------------------------------------------------------------------

  /** The key names a primary-key column of the table (the first column of that name decides). */
  predicate IsPkKey(table: Table, column: string)
  {
    GetColumn(table, column).Some? && GetColumn(table, column).value.pk
  }

  function Assignment(column: string): string
  {
    column + "=:" + column
  }

  /** The SET items: `c=:c` for every key of the register that is a non-key column, in order. */
  function SetItems(table: Table, register: Register): (items: seq<string>)
    ensures |items| <= |register|
  {
    if |register| == 0 then []
    else
      var column := register[|register| - 1].0;
      SetItems(table, register[..|register| - 1]) + (if Known(table, column) && !IsPkKey(table, column) then [Assignment(column)] else [])
  }

  /** The SET list assigns exactly the non-key columns the register names. */
  lemma {:induction false} SetItemsMembers(table: Table, register: Register)
    ensures forall x :: x in SetItems(table, register) <==>
      exists i :: 0 <= i < |register| && Known(table, register[i].0) && !IsPkKey(table, register[i].0) && x == Assignment(register[i].0)
  {
    if |register| > 0 {
      var init := register[..|register| - 1];
      SetItemsMembers(table, init);
      assert forall i :: 0 <= i < |init| ==> init[i] == register[i];
    }
  }

  /** The primary-key column the WHERE uses: the last key of the register that is one. */
  function LastPkKey(table: Table, register: Register): (pk: Option<string>)
    ensures pk.Some? <==> exists i :: 0 <= i < |register| && IsPkKey(table, register[i].0)
    ensures pk.Some? ==> IsPkKey(table, pk.value)
  {
    if |register| == 0 then None
    else
      var init := register[..|register| - 1];
      var column := register[|register| - 1].0;
      assert forall i :: 0 <= i < |init| ==> init[i] == register[i];
      if IsPkKey(table, column) then Some(column) else LastPkKey(table, init)
  }

  /** The WHERE column is the key at the last index of the register holding a key column. */
  lemma {:induction false} LastPkKeyIsLast(table: Table, register: Register, i: nat)
    requires i < |register| && IsPkKey(table, register[i].0)
    requires forall j :: i < j < |register| ==> !IsPkKey(table, register[j].0)
    ensures LastPkKey(table, register) == Some(register[i].0)
  {
    if i < |register| - 1 {
      var init := register[..|register| - 1];
      assert init[i] == register[i];
      LastPkKeyIsLast(table, init, i);
    }
  }

  /** PHP prints `false` as the empty string, so a register without a key column yields `WHERE =: `. */
  function PkText(pk: Option<string>): string
  {
    if pk.Some? then pk.value else ""
  }

  function UpdateSql(table: Table, register: Register): string
  {
    var pk := PkText(LastPkKey(table, register));
    "UPDATE " + table.name + " SET " + Join(SetItems(table, register)) + " WHERE " + pk + "=:" + pk + " "
  }

  lemma AllKnownSnoc(table: Table, register: Register, i: nat)
    requires i < |register| && AllKnown(table, register[..i]) && Known(table, register[i].0)
    ensures AllKnown(table, register[..i + 1])
  {
    assert forall j :: 0 <= j < i ==> register[..i + 1][j] == register[..i][j];
  }

  lemma SetItemsSnoc(table: Table, register: Register, i: nat)
    requires i < |register|
    ensures SetItems(table, register[..i + 1]) ==
      SetItems(table, register[..i]) + (if Known(table, register[i].0) && !IsPkKey(table, register[i].0) then [Assignment(register[i].0)] else [])
    ensures LastPkKey(table, register[..i + 1]) ==
      if IsPkKey(table, register[i].0) then Some(register[i].0) else LastPkKey(table, register[..i])
  {
    assert register[..i + 1][..i] == register[..i];
  }

  /**
   * `updateRegister`: the same rejection as `addRegister` on an unknown key; otherwise the SET
   * list assigns every non-key column of the register in order, and the WHERE compares the last
   * key column of the register (empty when it names none).
   */
  method UpdateRegister(table: Table, register: Register, dbError: Option<string>) returns (outcome: Outcome)
    ensures outcome.Rejected? <==> !AllKnown(table, register)
    ensures outcome.Rejected? ==> outcome.message == WrongColumn
    ensures !outcome.Rejected? ==> outcome == Prepared(UpdateSql(table, register), dbError)
  {
    var error: Option<string> := None;
    var columns := "";
    var pkColumn: Option<string> := None;
    var i := 0;
    while i < |register|
      invariant 0 <= i <= |register|
      invariant error.None? ==> columns == Terminated(SetItems(table, register[..i]))
      invariant error.None? ==> pkColumn == LastPkKey(table, register[..i])
      invariant error.None? ==> AllKnown(table, register[..i])
      invariant error.Some? ==> error == Some(WrongColumn) && !AllKnown(table, register)
    {
      var column := register[i].0;
      var tableColumn := GetColumn(table, column);
      if tableColumn.Some? {
        AllKnownSnoc(table, register, i);
        SetItemsSnoc(table, register, i);
        if tableColumn.value.pk {
          assert SetItems(table, register[..i]) + [] == SetItems(table, register[..i]);
          pkColumn := Some(column);
        } else {
          TerminatedSnoc(SetItems(table, register[..i]), Assignment(column));
          assert columns + Assignment(column) + "," == Terminated(SetItems(table, register[..i + 1]));
          columns := columns + Assignment(column) + ",";
        }
        i := i + 1;
      } else {
        error := Some(WrongColumn);
        break;
      }
    }
    if error.None? {
      assert register[..i] == register;
      TrimmedIsJoin(SetItems(table, register));
      columns := DropLast(columns);
      assert columns == Join(SetItems(table, register));
      var pk := PkText(pkColumn);
      var sql := "UPDATE " + table.name + " SET " + columns + " WHERE " + pk + "=:" + pk + " ";
      outcome := Prepared(sql, dbError);
    } else {
      outcome := Rejected(error.value);
    }
  }

  /**
   * Every key of an accepted register is accounted for exactly once: it is either assigned in
   * the SET list or is a key column, and the SET list names nothing else.
   */
  lemma {:induction false} UpdatePartitionsRegister(table: Table, register: Register)
    requires AllKnown(table, register)
    ensures |SetItems(table, register)| + CountPkKeys(table, register) == |register|
  {
    if |register| > 0 {
      var init := register[..|register| - 1];
      assert AllKnown(table, init) by {
        assert forall i :: 0 <= i < |init| ==> init[i] == register[i];
      }
      UpdatePartitionsRegister(table, init);
    }
  }

  function CountPkKeys(table: Table, register: Register): nat
  {
    if |register| == 0 then 0
    else CountPkKeys(table, register[..|register| - 1]) + (if IsPkKey(table, register[|register| - 1].0) then 1 else 0)
  }

  /** A register of plain columns followed by its key column updates those columns where the key matches. */
  lemma UpdateByKeyExample(t: Table, pk: string, plain: string)
    requires GetColumn(t, pk).Some? && GetColumn(t, pk).value.pk
    requires GetColumn(t, plain).Some? && !GetColumn(t, plain).value.pk
    ensures UpdateSql(t, [(plain, Str("x")), (pk, Int(1))]) ==
      "UPDATE " + t.name + " SET " + plain + "=:" + plain + " WHERE " + pk + "=:" + pk + " "
  {
    var r: Register := [(plain, Str("x")), (pk, Int(1))];
    assert r[..1] == [(plain, Str("x"))] && r[..1][..0] == [];
    assert SetItems(t, r[..1]) == [Assignment(plain)];
    assert SetItems(t, r) == [Assignment(plain)];
    assert LastPkKey(t, r) == Some(pk);
  }

  // ---------------------------------------------------------------------------
  // deleteRegister
  // ---------------------------------------------------------------------------

  /**
   * `deleteRegister`: targets the table's primary-key column, `DELETE FROM t WHERE pk=:pk `,
   * without looking at the register's keys. With no key column, `getName()` is called on
   * `false`, a fatal error.
   */
  function DeleteRegister(table: Table, register: Register, dbError: Option<string>): (o: Outcome)
    ensures o.Crashed? <==> forall i :: 0 <= i < |table.columns| ==> !table.columns[i].pk
    ensures !o.Crashed? ==> o.Prepared? && o.dbError == dbError
    ensures !o.Crashed? ==>
      exists c :: c in table.columns && c.pk && o.sql == "DELETE FROM " + table.name + " WHERE " + c.name + "=:" + c.name + " "
  {
    match GetPk(table)
    case None => Crashed
    case Some(pk) => Prepared("DELETE FROM " + table.name + " WHERE " + pk.name + "=:" + pk.name + " ", dbError)
  }

  /** No column validation: the statement is the same whatever the register holds. */
  lemma DeleteIgnoresRegister(table: Table, r1: Register, r2: Register, dbError: Option<string>)
    ensures DeleteRegister(table, r1, dbError) == DeleteRegister(table, r2, dbError)
  {
  }

  /** When the register names the table's key column (and no other key column), update and delete target the same column. */
  lemma DeleteAndUpdateTargetSameKey(table: Table, register: Register, dbError: Option<string>)
    requires GetPk(table).Some?
    requires forall i :: 0 <= i < |register| && IsPkKey(table, register[i].0) ==> register[i].0 == GetPk(table).value.name
    requires exists i :: 0 <= i < |register| && IsPkKey(table, register[i].0)
    ensures LastPkKey(table, register) == Some(GetPk(table).value.name)
    ensures DeleteRegister(table, register, dbError).sql ==
      "DELETE FROM " + table.name + " WHERE " + PkText(LastPkKey(table, register)) + "=:" + PkText(LastPkKey(table, register)) + " "
  {
    var i := LastPkIndex(table, register);
    LastPkKeyIsLast(table, register, i);
  }

  /** The last index of the register that holds a key column. */
  function LastPkIndex(table: Table, register: Register): (i: nat)
    requires exists i :: 0 <= i < |register| && IsPkKey(table, register[i].0)
    ensures i < |register| && IsPkKey(table, register[i].0)
    ensures forall j :: i < j < |register| ==> !IsPkKey(table, register[j].0)
  {
    var n := |register| - 1;
    if IsPkKey(table, register[n].0) then n
    else
      var init := register[..n];
      assert forall j :: 0 <= j < n ==> init[j] == register[j];
      assert exists i :: 0 <= i < |init| && IsPkKey(table, init[i].0) by {
        var k :| 0 <= k < |register| && IsPkKey(table, register[k].0);
        assert k < n;
      }
      LastPkIndex(table, init)
  }
}
