/**
 * The transaction log of `DaoTable`: the trigger names installed per table, and
 * `getLastTransactions`, the query that reduces the log to the entries a client
 * must replay since its last update.
 */
module DaoTransactions {
  import opened Wrappers
  import opened TableModel
  import opened DaoColumns

  // ---------------------------------------------------------------------------
  // Triggers (createTransactionsProcedures / createTransactionsTriggers)
  // ---------------------------------------------------------------------------

  datatype Event = Insert | Update | Delete
  datatype Timing = Before | After

  /**
   * One trigger the layer creates: its name, when it fires, on which table, and the
   * stored procedure it runs (PostgreSQL) or none (MySQL writes the body inline).
   */
  datatype Trigger = Trigger(name: string, timing: Timing, event: Event, table: string, procedure: Option<string>)

  function EventWord(e: Event): (w: string)
    ensures |w| == 6
  {
    match e
    case Insert => "insert"
    case Update => "update"
    case Delete => "delete"
  }

  function TriggerName(e: Event, table: string): string
  {
    "html5sync_trig_" + EventWord(e) + "_" + table
  }

  function ProcedureName(table: string): string
  {
    "html5sync_proc_" + table
  }

  /** Trigger names never collide: the name determines both the event and the table. */
  lemma TriggerNameInjective(e1: Event, t1: string, e2: Event, t2: string)
    requires TriggerName(e1, t1) == TriggerName(e2, t2)
    ensures e1 == e2 && t1 == t2
  {
    var n1, n2 := TriggerName(e1, t1), TriggerName(e2, t2);
    assert n1[15..21] == EventWord(e1) && n2[15..21] == EventWord(e2);
    assert n1[22..] == t1 && n2[22..] == t2;
  }

  /**
   * The triggers installed on a table: PostgreSQL always gets the three BEFORE triggers
   * calling the table's procedure; MySQL gets AFTER INSERT, BEFORE UPDATE and BEFORE DELETE,
   * only when the table has a primary key.
   */
  function TransactionTriggers(driver: Driver, table: Table): seq<Trigger>
  {
    var n := table.name;
    match driver
    case PgSql =>
      var p := Some(ProcedureName(n));
      [Trigger(TriggerName(Insert, n), Before, Insert, n, p),
       Trigger(TriggerName(Update, n), Before, Update, n, p),
       Trigger(TriggerName(Delete, n), Before, Delete, n, p)]
    case MySql =>
      if GetPk(table).Some? then
        [Trigger(TriggerName(Insert, n), After, Insert, n, None),
         Trigger(TriggerName(Update, n), Before, Update, n, None),
         Trigger(TriggerName(Delete, n), Before, Delete, n, None)]
      else []
  }

  /** Every installed trigger is on the table, is named for its event, and each event has at most one. */
  lemma TriggersAreWellFormed(driver: Driver, table: Table)
    ensures var ts := TransactionTriggers(driver, table);
      (forall i :: 0 <= i < |ts| ==> ts[i].table == table.name && ts[i].name == TriggerName(ts[i].event, table.name)) &&
      (forall i, j :: 0 <= i < j < |ts| ==> ts[i].event != ts[j].event && ts[i].name != ts[j].name)
  {
    var ts := TransactionTriggers(driver, table);
    forall i, j | 0 <= i < j < |ts| ensures ts[i].name != ts[j].name {
      if ts[i].name == ts[j].name {
        TriggerNameInjective(ts[i].event, table.name, ts[j].event, table.name);
      }
    }
  }

  /** MySQL logs a table exactly when it has a primary key; PostgreSQL always logs all three events. */
  lemma TriggersCoverage(driver: Driver, table: Table)
    ensures driver == PgSql ==> |TransactionTriggers(driver, table)| == 3
    ensures driver == MySql ==> (|TransactionTriggers(driver, table)| == 3 <==> exists i :: 0 <= i < |table.columns| && table.columns[i].pk)
    ensures driver == MySql ==> (TransactionTriggers(driver, table) == [] <==> forall i :: 0 <= i < |table.columns| ==> !table.columns[i].pk)
  {
  }

  // ---------------------------------------------------------------------------
  // getLastTransactions
  // ---------------------------------------------------------------------------

  /** One row of the `html5sync` log; a date is an integer, since only its order matters. */
  datatype LogRow = LogRow(id: int, table: string, key: string, date: int, transaction: string)

  /** The GROUP BY key: table name and primary-key value. */
  type GroupKey = (string, string)

  function KeyOf(r: LogRow): GroupKey
  {
    (r.table, r.key)
  }

  /** A row of group `g` newer than `lastUpdate` exists. */
  predicate ChangedSince(log: seq<LogRow>, lastUpdate: int, g: GroupKey)
  {
    exists i :: 0 <= i < |log| && KeyOf(log[i]) == g && log[i].date > lastUpdate
  }

  /** `MAX(html5sync_date)` over the rows of group `g` with a date after `lastUpdate`, if any. */
  function LatestDate(log: seq<LogRow>, lastUpdate: int, g: GroupKey): Option<int>
  {
    if |log| == 0 then None
    else
      var prev := LatestDate(log[..|log| - 1], lastUpdate, g);
      var r := log[|log| - 1];
      if KeyOf(r) == g && r.date > lastUpdate then
        (if prev.Some? && prev.value >= r.date then prev else Some(r.date))
      else prev
  }

  /**
   * The newest date of a group exists exactly when the group changed since `lastUpdate`; it is
   * then the date of one of the group's rows, after `lastUpdate`, and no changed row is newer.
   */
  lemma {:induction false} LatestDateSpec(log: seq<LogRow>, lastUpdate: int, g: GroupKey)
    ensures LatestDate(log, lastUpdate, g).Some? <==> ChangedSince(log, lastUpdate, g)
    ensures LatestDate(log, lastUpdate, g).Some? ==>
      var d := LatestDate(log, lastUpdate, g).value;
      d > lastUpdate &&
      (exists i :: 0 <= i < |log| && KeyOf(log[i]) == g && log[i].date == d) &&
      (forall i :: 0 <= i < |log| && KeyOf(log[i]) == g && log[i].date > lastUpdate ==> log[i].date <= d)
  {
    if |log| > 0 {
      var init := log[..|log| - 1];
      LatestDateSpec(init, lastUpdate, g);
      assert forall i :: 0 <= i < |init| ==> init[i] == log[i];
    }
  }

  /** The groups of the sub-select, each once, in order of first appearance. */
  function GroupKeys(log: seq<LogRow>, lastUpdate: int): seq<GroupKey>
  {
    if |log| == 0 then []
    else
      var prev := GroupKeys(log[..|log| - 1], lastUpdate);
      var r := log[|log| - 1];
      if r.date > lastUpdate && KeyOf(r) !in prev then prev + [KeyOf(r)] else prev
  }

  predicate NoRepeats(gs: seq<GroupKey>)
  {
    forall a, b :: 0 <= a < b < |gs| ==> gs[a] != gs[b]
  }

  lemma NoRepeatsSnoc(gs: seq<GroupKey>, g: GroupKey)
    requires NoRepeats(gs) && g !in gs
    ensures NoRepeats(gs + [g])
  {
    var hs := gs + [g];
    forall a, b | 0 <= a < b < |hs| ensures hs[a] != hs[b] {
      assert hs[a] == gs[a];
      if b < |gs| {
        assert hs[b] == gs[b];
      } else {
        assert gs[a] in gs;
      }
    }
  }

  /** The sub-select lists every group that changed since `lastUpdate`, each exactly once, and no other. */
  lemma {:induction false} GroupKeysSpec(log: seq<LogRow>, lastUpdate: int)
    ensures forall g :: g in GroupKeys(log, lastUpdate) <==> ChangedSince(log, lastUpdate, g)
    ensures NoRepeats(GroupKeys(log, lastUpdate))
  {
    if |log| > 0 {
      var init := log[..|log| - 1];
      GroupKeysSpec(init, lastUpdate);
      assert forall i :: 0 <= i < |init| ==> init[i] == log[i];
      var prev, r := GroupKeys(init, lastUpdate), log[|log| - 1];
      if r.date > lastUpdate && KeyOf(r) !in prev {
        NoRepeatsSnoc(prev, KeyOf(r));
      }
    }
  }

  /**
   * The join condition as written: a log row pairs with a group when the TABLES agree and its
   * date equals the group's newest date. The key is not compared.
   */
  predicate JoinsWith(log: seq<LogRow>, lastUpdate: int, r: LogRow, g: GroupKey)
  {
    g.0 == r.table && LatestDate(log, lastUpdate, g) == Some(r.date)
  }

  /** Row `r` repeated once per group it joins with. */
  function JoinOne(log: seq<LogRow>, lastUpdate: int, r: LogRow, gs: seq<GroupKey>): seq<LogRow>
  {
    if |gs| == 0 then []
    else (if JoinsWith(log, lastUpdate, r, gs[0]) then [r] else []) + JoinOne(log, lastUpdate, r, gs[1..])
  }

  /** The inner join of the rows `temp` with the groups `gs`, row by row. */
  function JoinRows(log: seq<LogRow>, lastUpdate: int, temp: seq<LogRow>, gs: seq<GroupKey>): seq<LogRow>
  {
    if |temp| == 0 then []
    else JoinRows(log, lastUpdate, temp[..|temp| - 1], gs) + JoinOne(log, lastUpdate, temp[|temp| - 1], gs)
  }

  /** `html5sync temp INNER JOIN (...) tempGroup ON ...`, before ordering. */
  function Joined(log: seq<LogRow>, lastUpdate: int): seq<LogRow>
  {
    JoinRows(log, lastUpdate, log, GroupKeys(log, lastUpdate))
  }

  predicate SortedByDate(s: seq<LogRow>)
  {
    forall i, j :: 0 <= i < j < |s| ==> s[i].date <= s[j].date
  }

  /** Inserts `x` before the first row dated at or after it. */
  function InsertByDate(x: LogRow, s: seq<LogRow>): seq<LogRow>
  {
    if |s| == 0 then [x]
    else if x.date <= s[0].date then [x] + s
    else [s[0]] + InsertByDate(x, s[1..])
  }

  lemma {:induction false} InsertByDatePermutes(x: LogRow, s: seq<LogRow>)
    ensures multiset(InsertByDate(x, s)) == multiset(s) + multiset{x}
  {
    if |s| > 0 && x.date > s[0].date {
      InsertByDatePermutes(x, s[1..]);
      assert s == [s[0]] + s[1..];
    }
  }

  /** Every row of `s` is dated `b` or later. */
  predicate DatedFrom(s: seq<LogRow>, b: int)
  {
    forall k :: 0 <= k < |s| ==> b <= s[k].date
  }

  lemma {:induction false} InsertByDateBound(x: LogRow, s: seq<LogRow>, b: int)
    requires b <= x.date && DatedFrom(s, b)
    ensures DatedFrom(InsertByDate(x, s), b)
  {
    if |s| > 0 && x.date > s[0].date {
      InsertByDateBound(x, s[1..], b);
    }
  }

  lemma {:induction false} InsertByDateSorted(x: LogRow, s: seq<LogRow>)
    requires SortedByDate(s)
    ensures SortedByDate(InsertByDate(x, s))
  {
    if |s| > 0 && x.date > s[0].date {
      var rest := InsertByDate(x, s[1..]);
      InsertByDateSorted(x, s[1..]);
      InsertByDateBound(x, s[1..], s[0].date);
      var r := [s[0]] + rest;
      assert InsertByDate(x, s) == r;
      forall i, j | 0 <= i < j < |r| ensures r[i].date <= r[j].date {
        if i > 0 {
          assert r[i].date == rest[i - 1].date && r[j].date == rest[j - 1].date;
        } else {
          assert r[j].date == rest[j - 1].date;
        }
      }
    }
  }

  /** `ORDER BY html5sync_date`; rows with equal dates keep their relative order. */
  function SortByDate(s: seq<LogRow>): (r: seq<LogRow>)
    ensures multiset(r) == multiset(s)
    ensures SortedByDate(r)
  {
    if |s| == 0 then []
    else
      assert s == [s[0]] + s[1..];
      InsertByDateSorted(s[0], SortByDate(s[1..]));
      InsertByDatePermutes(s[0], SortByDate(s[1..]));
      InsertByDate(s[0], SortByDate(s[1..]))
  }

  /**
   * `getLastTransactions`: the joined rows in date order, or nothing when the statement
   * fails. `log` is the content of the `html5sync` table.
   */
  function GetLastTransactions(log: seq<LogRow>, lastUpdate: int, executed: bool): seq<LogRow>
  {
    if executed then SortByDate(Joined(log, lastUpdate)) else []
  }

  // --- counting entries per group -------------------------------------------

  function Count(s: seq<LogRow>, g: GroupKey): nat
  {
    if |s| == 0 then 0 else Count(s[..|s| - 1], g) + (if KeyOf(s[|s| - 1]) == g then 1 else 0)
  }

  lemma {:induction false} CountConcat(a: seq<LogRow>, b: seq<LogRow>, g: GroupKey)
    ensures Count(a + b, g) == Count(a, g) + Count(b, g)
    decreases |b|
  {
    if |b| > 0 {
      assert (a + b)[..|a + b| - 1] == a + b[..|b| - 1];
      CountConcat(a, b[..|b| - 1], g);
    } else {
      assert a + b == a;
    }
  }

  lemma CountSingle(x: LogRow, g: GroupKey)
    ensures Count([x], g) == if KeyOf(x) == g then 1 else 0
  {
    assert [x][..0] == [];
  }

  lemma {:induction false} CountInsert(x: LogRow, s: seq<LogRow>, g: GroupKey)
    ensures Count(InsertByDate(x, s), g) == Count(s, g) + (if KeyOf(x) == g then 1 else 0)
  {
    CountSingle(x, g);
    if |s| == 0 {
    } else if x.date <= s[0].date {
      CountConcat([x], s, g);
    } else {
      CountInsert(x, s[1..], g);
      CountConcat([s[0]], InsertByDate(x, s[1..]), g);
      CountConcat([s[0]], s[1..], g);
      assert [s[0]] + s[1..] == s;
    }
  }

  /** Ordering by date neither adds nor drops entries of any group. */
  lemma {:induction false} CountSort(s: seq<LogRow>, g: GroupKey)
    ensures Count(SortByDate(s), g) == Count(s, g)
  {
    if |s| > 0 {
      var rest := s[1..];
      assert s == [s[0]] + rest;
      CountConcat([s[0]], rest, g);
      CountSingle(s[0], g);
      CountSort(rest, g);
      CountInsert(s[0], SortByDate(rest), g);
    }
  }

  lemma {:induction false} CountAllOfGroup(s: seq<LogRow>, g: GroupKey)
    requires forall x :: x in s ==> KeyOf(x) == g
    ensures Count(s, g) == |s|
  {
    if |s| > 0 {
      assert forall x :: x in s[..|s| - 1] ==> x in s;
      CountAllOfGroup(s[..|s| - 1], g);
    }
  }

  lemma {:induction false} CountPositive(s: seq<LogRow>, x: LogRow)
    requires x in s
    ensures Count(s, KeyOf(x)) >= 1
  {
    var i :| 0 <= i < |s| && s[i] == x;
    if i < |s| - 1 {
      assert x in s[..|s| - 1];
      CountPositive(s[..|s| - 1], x);
    }
  }

  // --- what every output entry satisfies -------------------------------------

  lemma {:induction false} JoinOneMembers(log: seq<LogRow>, lastUpdate: int, r: LogRow, gs: seq<GroupKey>)
    ensures forall x :: x in JoinOne(log, lastUpdate, r, gs) ==> x == r && exists g :: g in gs && JoinsWith(log, lastUpdate, r, g)
  {
    if |gs| > 0 {
      JoinOneMembers(log, lastUpdate, r, gs[1..]);
    }
  }

  lemma {:induction false} JoinRowsMembers(log: seq<LogRow>, lastUpdate: int, temp: seq<LogRow>, gs: seq<GroupKey>)
    ensures forall x :: x in JoinRows(log, lastUpdate, temp, gs) ==>
      x in temp && exists g :: g in gs && JoinsWith(log, lastUpdate, x, g)
  {
    if |temp| > 0 {
      var init, last := temp[..|temp| - 1], temp[|temp| - 1];
      JoinRowsMembers(log, lastUpdate, init, gs);
      JoinOneMembers(log, lastUpdate, last, gs);
      assert forall x :: x in init ==> x in temp;
    }
  }

  /**
   * Every returned entry is a row of the log, is newer than `lastUpdate`, and carries the
   * newest date of some group of its table; the entries come in non-decreasing date order.
   */
  lemma GetLastTransactionsBounds(log: seq<LogRow>, lastUpdate: int, executed: bool)
    ensures SortedByDate(GetLastTransactions(log, lastUpdate, executed))
    ensures forall x :: x in GetLastTransactions(log, lastUpdate, executed) ==>
      x in log && x.date > lastUpdate &&
      exists g :: g in GroupKeys(log, lastUpdate) && JoinsWith(log, lastUpdate, x, g)
  {
    if executed {
      var gs := GroupKeys(log, lastUpdate);
      var joined := JoinRows(log, lastUpdate, log, gs);
      JoinRowsMembers(log, lastUpdate, log, gs);
      forall x | x in SortByDate(joined)
        ensures x in log && x.date > lastUpdate && exists g :: g in gs && JoinsWith(log, lastUpdate, x, g)
      {
        assert x in multiset(SortByDate(joined));
        assert x in joined;
        var g :| g in gs && JoinsWith(log, lastUpdate, x, g);
        LatestDateSpec(log, lastUpdate, g);
      }
    }
  }

  // --- the promise, under distinct dates per table ---------------------------

  /** No two log rows of the same table newer than `lastUpdate` share a date. */
  predicate DistinctDatesWithinTables(log: seq<LogRow>, lastUpdate: int)
  {
    forall i, j ::
      0 <= i < |log| && 0 <= j < |log| && log[i].date > lastUpdate &&
      log[i].table == log[j].table && log[i].date == log[j].date
      ==> i == j
  }

  /** A row is the newest of its own group. */
  predicate IsLatest(log: seq<LogRow>, lastUpdate: int, r: LogRow)
  {
    LatestDate(log, lastUpdate, KeyOf(r)) == Some(r.date)
  }

  /** The rows of `temp` that are the newest of their own group, in order. */
  function FilterLatest(log: seq<LogRow>, lastUpdate: int, temp: seq<LogRow>): seq<LogRow>
  {
    if |temp| == 0 then []
    else
      var last := temp[|temp| - 1];
      FilterLatest(log, lastUpdate, temp[..|temp| - 1]) + (if IsLatest(log, lastUpdate, last) then [last] else [])
  }

  /** With distinct dates, the only group the i-th row can join is its own. */
  lemma JoinsOnlyOwnGroup(log: seq<LogRow>, lastUpdate: int, i: nat, g: GroupKey)
    requires DistinctDatesWithinTables(log, lastUpdate)
    requires i < |log| && JoinsWith(log, lastUpdate, log[i], g)
    ensures g == KeyOf(log[i])
  {
    LatestDateSpec(log, lastUpdate, g);
    var j :| 0 <= j < |log| && KeyOf(log[j]) == g && log[j].date == log[i].date;
    assert j == i;
  }

  lemma {:induction false} JoinOneUnderDistinctDates(log: seq<LogRow>, lastUpdate: int, i: nat, gs: seq<GroupKey>)
    requires DistinctDatesWithinTables(log, lastUpdate)
    requires i < |log|
    requires NoRepeats(gs)
    ensures JoinOne(log, lastUpdate, log[i], gs) ==
      if KeyOf(log[i]) in gs && IsLatest(log, lastUpdate, log[i]) then [log[i]] else []
  {
    var r := log[i];
    if |gs| > 0 {
      JoinOneUnderDistinctDates(log, lastUpdate, i, gs[1..]);
      if JoinsWith(log, lastUpdate, r, gs[0]) {
        JoinsOnlyOwnGroup(log, lastUpdate, i, gs[0]);
        assert KeyOf(r) !in gs[1..];
      } else {
        assert gs[0] == KeyOf(r) ==> !IsLatest(log, lastUpdate, r);
      }
    }
  }

  /** With distinct dates, the join as written keeps exactly the newest row of each group. */
  lemma {:induction false} JoinedIsFilterLatest(log: seq<LogRow>, lastUpdate: int, n: nat)
    requires DistinctDatesWithinTables(log, lastUpdate)
    requires n <= |log|
    ensures JoinRows(log, lastUpdate, log[..n], GroupKeys(log, lastUpdate)) == FilterLatest(log, lastUpdate, log[..n])
  {
    if n > 0 {
      var gs := GroupKeys(log, lastUpdate);
      GroupKeysSpec(log, lastUpdate);
      assert log[..n][..n - 1] == log[..n - 1];
      JoinedIsFilterLatest(log, lastUpdate, n - 1);
      JoinOneUnderDistinctDates(log, lastUpdate, n - 1, gs);
      var r := log[n - 1];
      LatestDateSpec(log, lastUpdate, KeyOf(r));
    }
  }

  /** A group matches at most one index as the newest of its group. */
  predicate MatchesLatest(log: seq<LogRow>, lastUpdate: int, g: GroupKey, i: int)
    requires 0 <= i < |log|
  {
    KeyOf(log[i]) == g && IsLatest(log, lastUpdate, log[i])
  }

  lemma {:induction false} CountFilterLatest(log: seq<LogRow>, lastUpdate: int, g: GroupKey, n: nat)
    requires n <= |log|
    requires forall i, j :: 0 <= i < |log| && 0 <= j < |log| && MatchesLatest(log, lastUpdate, g, i) && MatchesLatest(log, lastUpdate, g, j) ==> i == j
    ensures Count(FilterLatest(log, lastUpdate, log[..n]), g) == if exists i :: 0 <= i < n && MatchesLatest(log, lastUpdate, g, i) then 1 else 0
  {
    if n > 0 {
      assert log[..n][..n - 1] == log[..n - 1];
      CountFilterLatest(log, lastUpdate, g, n - 1);
      var tail: seq<LogRow> := if IsLatest(log, lastUpdate, log[n - 1]) then [log[n - 1]] else [];
      CountConcat(FilterLatest(log, lastUpdate, log[..n - 1]), tail, g);
      if tail != [] {
        CountSingle(log[n - 1], g);
      }
      if MatchesLatest(log, lastUpdate, g, n - 1) {
        assert !exists i :: 0 <= i < n - 1 && MatchesLatest(log, lastUpdate, g, i);
      }
    }
  }

  /** A group that changed has its newest row in the log, as a match. */
  lemma LatestRowExists(log: seq<LogRow>, lastUpdate: int, g: GroupKey)
    requires ChangedSince(log, lastUpdate, g)
    ensures exists i :: 0 <= i < |log| && MatchesLatest(log, lastUpdate, g, i)
  {
    LatestDateSpec(log, lastUpdate, g);
    var d := LatestDate(log, lastUpdate, g).value;
    var i :| 0 <= i < |log| && KeyOf(log[i]) == g && log[i].date == d;
    assert MatchesLatest(log, lastUpdate, g, i);
  }

  /** The newest-row filter, ordered by date, holds each changed group exactly once; other groups never. */
  lemma {:induction false} LatestPerGroup(log: seq<LogRow>, lastUpdate: int, g: GroupKey)
    requires forall i, j :: 0 <= i < |log| && 0 <= j < |log| && MatchesLatest(log, lastUpdate, g, i) && MatchesLatest(log, lastUpdate, g, j) ==> i == j
    ensures Count(SortByDate(FilterLatest(log, lastUpdate, log)), g) == if ChangedSince(log, lastUpdate, g) then 1 else 0
  {
    assert log[..|log|] == log;
    CountSort(FilterLatest(log, lastUpdate, log), g);
    CountFilterLatest(log, lastUpdate, g, |log|);
    if ChangedSince(log, lastUpdate, g) {
      LatestRowExists(log, lastUpdate, g);
    } else {
      LatestDateSpec(log, lastUpdate, g);
      assert !exists i :: 0 <= i < |log| && MatchesLatest(log, lastUpdate, g, i);
    }
  }

  lemma {:induction false} FilterLatestMembers(log: seq<LogRow>, lastUpdate: int, temp: seq<LogRow>)
    ensures forall x :: x in FilterLatest(log, lastUpdate, temp) ==> x in temp && IsLatest(log, lastUpdate, x)
  {
    if |temp| > 0 {
      FilterLatestMembers(log, lastUpdate, temp[..|temp| - 1]);
      assert forall x :: x in temp[..|temp| - 1] ==> x in temp;
    }
  }

  /**
   * The promise of `getLastTransactions`, when no two rows of one table newer than
   * `lastUpdate` share a date: every group that changed appears exactly once, no other
   * group appears, and each entry is the newest row of its group.
   */
  lemma LastTransactionsOnePerKey(log: seq<LogRow>, lastUpdate: int)
    requires DistinctDatesWithinTables(log, lastUpdate)
    ensures var out := GetLastTransactions(log, lastUpdate, true);
      (forall g :: Count(out, g) == if ChangedSince(log, lastUpdate, g) then 1 else 0) &&
      (forall x :: x in out ==> x in log && IsLatest(log, lastUpdate, x))
  {
    assert log[..|log|] == log;
    JoinedIsFilterLatest(log, lastUpdate, |log|);
    var filtered := FilterLatest(log, lastUpdate, log);
    assert Joined(log, lastUpdate) == filtered;
    forall g ensures Count(GetLastTransactions(log, lastUpdate, true), g) == if ChangedSince(log, lastUpdate, g) then 1 else 0 {
      forall i, j | 0 <= i < |log| && 0 <= j < |log| && MatchesLatest(log, lastUpdate, g, i) && MatchesLatest(log, lastUpdate, g, j)
        ensures i == j
      {
        LatestDateSpec(log, lastUpdate, g);
        assert log[i].date == log[j].date;
      }
      LatestPerGroup(log, lastUpdate, g);
    }
    FilterLatestMembers(log, lastUpdate, log);
    assert forall x :: x in SortByDate(filtered) ==> x in multiset(filtered);
  }

  /** Joining one row with two groups, unfolded. */
  lemma JoinOneTwo(log: seq<LogRow>, lastUpdate: int, r: LogRow, g1: GroupKey, g2: GroupKey)
    ensures JoinOne(log, lastUpdate, r, [g1, g2]) ==
      (if JoinsWith(log, lastUpdate, r, g1) then [r] else []) + (if JoinsWith(log, lastUpdate, r, g2) then [r] else [])
  {
    var b: seq<LogRow> := if JoinsWith(log, lastUpdate, r, g2) then [r] else [];
    assert [g1, g2][1..] == [g2] && [g2][1..] == [];
    assert JoinOne(log, lastUpdate, r, [g2]) == b + [];
    assert b + [] == b;
  }

  /** The log of the scenario: one key inserted at 10, updated at 20 and deleted at 30. */
  function LifecycleLog(table: string, key: string): seq<LogRow>
  {
    [LogRow(1, table, key, 10, "INSERT"), LogRow(2, table, key, 20, "UPDATE"), LogRow(3, table, key, 30, "DELETE")]
  }

  lemma LifecycleLogGroups(table: string, key: string)
    ensures var log := LifecycleLog(table, key);
      LatestDate(log, 5, (table, key)) == Some(30) && GroupKeys(log, 5) == [(table, key)]
  {
    var log := LifecycleLog(table, key);
    var g := (table, key);
    var p1, p2 := log[..1], log[..2];
    assert p2[..1] == p1 && p1[..0] == [] && log[..2] == p2;
    assert log[0].date == 10 && log[1].date == 20 && log[2].date == 30;
    assert LatestDate(p1, 5, g) == Some(10);
    assert LatestDate(p2, 5, g) == Some(20);
    assert GroupKeys(p1, 5) == [g];
    assert GroupKeys(p2, 5) == [g];
  }

  /** Three operations on one primary key since the last update reduce to the last of them. */
  lemma InsertUpdateDeleteReducesToDelete(table: string, key: string)
    ensures var log := LifecycleLog(table, key);
      GetLastTransactions(log, 5, true) == [log[2]]
  {
    var log := LifecycleLog(table, key);
    var g := (table, key);
    LifecycleLogGroups(table, key);
    assert log[0].date == 10 && log[1].date == 20 && log[2].date == 30;
    assert [g][1..] == [];
    assert JoinOne(log, 5, log[0], [g]) == [];
    assert JoinOne(log, 5, log[1], [g]) == [];
    assert JoinOne(log, 5, log[2], [g]) == [log[2]];
    var p1, p2 := log[..1], log[..2];
    assert p2[..1] == p1 && p1[..0] == [] && log[..2] == p2;
    assert JoinRows(log, 5, p1, [g]) == [];
    assert JoinRows(log, 5, p2, [g]) == [];
    assert Joined(log, 5) == [log[2]];
  }

  // --- the join as written lets a stale row through ---------------------------

  /** The log of the counterexample: key `k1` updated at 10 and deleted at 20, key `k2` inserted at 10. */
  function StaleLog(table: string, k1: string, k2: string): seq<LogRow>
  {
    [LogRow(1, table, k1, 10, "UPDATE"), LogRow(2, table, k1, 20, "DELETE"), LogRow(3, table, k2, 10, "INSERT")]
  }

  lemma StaleLogDates(table: string, k1: string, k2: string)
    requires k1 != k2
    ensures var log := StaleLog(table, k1, k2);
      LatestDate(log, 0, (table, k1)) == Some(20) && LatestDate(log, 0, (table, k2)) == Some(10) &&
      GroupKeys(log, 0) == [(table, k1), (table, k2)]
  {
    var log := StaleLog(table, k1, k2);
    var g1, g2 := (table, k1), (table, k2);
    var p1, p2 := log[..1], log[..2];
    assert p2[..1] == p1 && p1[..0] == [] && log[..2] == p2;
    assert log[0].date == 10 && log[1].date == 20 && log[2].date == 10;
    assert LatestDate(p1, 0, g1) == Some(10);
    assert LatestDate(p1, 0, g2) == None;
    assert LatestDate(p2, 0, g1) == Some(20);
    assert LatestDate(p2, 0, g2) == None;
    assert GroupKeys(p1, 0) == [g1];
    assert GroupKeys(p2, 0) == [g1];
  }

  lemma StaleLogJoined(table: string, k1: string, k2: string)
    requires k1 != k2
    ensures Joined(StaleLog(table, k1, k2), 0) == StaleLog(table, k1, k2)
  {
    var log := StaleLog(table, k1, k2);
    var gs := [(table, k1), (table, k2)];
    StaleLogDates(table, k1, k2);
    assert log[0].date == 10 && log[1].date == 20 && log[2].date == 10;
    JoinOneTwo(log, 0, log[0], gs[0], gs[1]);
    JoinOneTwo(log, 0, log[1], gs[0], gs[1]);
    JoinOneTwo(log, 0, log[2], gs[0], gs[1]);
    assert JoinOne(log, 0, log[0], gs) == [log[0]];
    assert JoinOne(log, 0, log[1], gs) == [log[1]];
    assert JoinOne(log, 0, log[2], gs) == [log[2]];
    var p1, p2 := log[..1], log[..2];
    assert p2[..1] == p1 && p1[..0] == [] && log[..2] == p2;
    assert JoinRows(log, 0, p1, gs) == [log[0]];
    assert JoinRows(log, 0, p2, gs) == [log[0], log[1]];
  }

  /** Sorting three rows whose middle one is the newest moves it last, keeping the other two in order. */
  lemma SortThree(a: LogRow, b: LogRow, c: LogRow)
    requires a.date <= c.date < b.date
    ensures SortByDate([a, b, c]) == [a, c, b]
  {
    SortTwo(b, c);
    assert [a, b, c][1..] == [b, c];
    assert SortByDate([a, b, c]) == InsertByDate(a, [c, b]);
  }

  /** Sorting two rows, the newer first, swaps them. */
  lemma SortTwo(a: LogRow, b: LogRow)
    requires b.date < a.date
    ensures SortByDate([a, b]) == [b, a]
  {
    assert [a, b][1..] == [b] && [b][1..] == [];
    assert SortByDate([b]) == [b];
    assert InsertByDate(a, [b]) == [b] + InsertByDate(a, []);
  }

  lemma StaleLogSorted(table: string, k1: string, k2: string)
    ensures var log := StaleLog(table, k1, k2);
      SortByDate(log) == [log[0], log[2], log[1]]
  {
    var log := StaleLog(table, k1, k2);
    assert log == [log[0], log[1], log[2]];
    SortThree(log[0], log[1], log[2]);
  }

  lemma CountThree(a: LogRow, b: LogRow, c: LogRow, g: GroupKey)
    ensures Count([a, b, c], g) == (if KeyOf(a) == g then 1 else 0) + (if KeyOf(b) == g then 1 else 0) + (if KeyOf(c) == g then 1 else 0)
  {
    var s := [a, b, c];
    assert s[..2][..1] == [a] && s[..2] == [a, b] && [a][..0] == [];
    assert Count([a], g) == if KeyOf(a) == g then 1 else 0;
    assert Count([a, b], g) == Count([a], g) + (if KeyOf(b) == g then 1 else 0);
  }

  /**
   * Two keys of one table, each with a row at date 10: the stale UPDATE of key `k1` joins the
   * group of `k2` (same table, same newest date) and is returned next to `k1`'s DELETE.
   */
  lemma StaleUpdateSurfaces(table: string, k1: string, k2: string)
    requires k1 != k2
    ensures var log := StaleLog(table, k1, k2);
      var out := GetLastTransactions(log, 0, true);
      out == [log[0], log[2], log[1]] && !IsLatest(log, 0, log[0]) && Count(out, (table, k1)) == 2
  {
    var log := StaleLog(table, k1, k2);
    StaleLogDates(table, k1, k2);
    StaleLogJoined(table, k1, k2);
    StaleLogSorted(table, k1, k2);
    CountThree(log[0], log[2], log[1], (table, k1));
  }

  // --- corrected: the join also compares the key ------------------------------

  /** No two log rows of the same group newer than `lastUpdate` share a date. */
  predicate DistinctDatesWithinGroups(log: seq<LogRow>, lastUpdate: int)
  {
    forall i, j ::
      0 <= i < |log| && 0 <= j < |log| && log[i].date > lastUpdate &&
      KeyOf(log[i]) == KeyOf(log[j]) && log[i].date == log[j].date
      ==> i == j
  }

  /** The reduction the query evidently intends: the newest row of each changed group, in date order. */
  function LatestTransactions(log: seq<LogRow>, lastUpdate: int, executed: bool): seq<LogRow>
  {
    if executed then SortByDate(FilterLatest(log, lastUpdate, log)) else []
  }

  /**
   * The corrected reduction returns every changed group exactly once and no other, each as its
   * newest row, in date order, needing distinct dates only within a group.
   */
  lemma LatestTransactionsOnePerKey(log: seq<LogRow>, lastUpdate: int)
    requires DistinctDatesWithinGroups(log, lastUpdate)
    ensures var out := LatestTransactions(log, lastUpdate, true);
      SortedByDate(out) &&
      (forall g :: Count(out, g) == if ChangedSince(log, lastUpdate, g) then 1 else 0) &&
      (forall x :: x in out ==> x in log && x.date > lastUpdate && IsLatest(log, lastUpdate, x))
  {
    var filtered := FilterLatest(log, lastUpdate, log);
    forall g ensures Count(LatestTransactions(log, lastUpdate, true), g) == if ChangedSince(log, lastUpdate, g) then 1 else 0 {
      forall i, j | 0 <= i < |log| && 0 <= j < |log| && MatchesLatest(log, lastUpdate, g, i) && MatchesLatest(log, lastUpdate, g, j)
        ensures i == j
      {
        LatestDateSpec(log, lastUpdate, g);
        assert log[i].date == log[j].date;
      }
      LatestPerGroup(log, lastUpdate, g);
    }
    FilterLatestMembers(log, lastUpdate, log);
    forall x | x in SortByDate(filtered) ensures x in log && x.date > lastUpdate && IsLatest(log, lastUpdate, x) {
      assert x in multiset(SortByDate(filtered));
      assert x in filtered;
      LatestDateSpec(log, lastUpdate, KeyOf(x));
    }
  }

  /** Where dates are distinct within each table, the query as written and the corrected one agree. */
  lemma AsWrittenAgreesUnderDistinctDates(log: seq<LogRow>, lastUpdate: int, executed: bool)
    requires DistinctDatesWithinTables(log, lastUpdate)
    ensures GetLastTransactions(log, lastUpdate, executed) == LatestTransactions(log, lastUpdate, executed)
  {
    assert log[..|log|] == log;
    JoinedIsFilterLatest(log, lastUpdate, |log|);
  }

  lemma StaleLogFiltered(table: string, k1: string, k2: string)
    requires k1 != k2
    ensures var log := StaleLog(table, k1, k2);
      FilterLatest(log, 0, log) == [log[1], log[2]]
  {
    var log := StaleLog(table, k1, k2);
    StaleLogDates(table, k1, k2);
    assert !IsLatest(log, 0, log[0]) && IsLatest(log, 0, log[1]) && IsLatest(log, 0, log[2]);
    var p1, p2 := log[..1], log[..2];
    assert p2[..1] == p1 && p1[..0] == [] && log[..2] == p2;
    assert FilterLatest(log, 0, p1) == [];
    assert FilterLatest(log, 0, p2) == [log[1]];
  }

  /** On the log of `StaleUpdateSurfaces` the corrected reduction drops the stale UPDATE. */
  lemma StaleUpdateCorrected(table: string, k1: string, k2: string)
    requires k1 != k2
    ensures var log := StaleLog(table, k1, k2);
      LatestTransactions(log, 0, true) == [log[2], log[1]]
  {
    var log := StaleLog(table, k1, k2);
    StaleLogFiltered(table, k1, k2);
    SortTwo(log[1], log[2]);
  }
}
