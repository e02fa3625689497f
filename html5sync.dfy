/**
 * The session object of html5sync: which configured tables a user may see, and the registry
 * of those tables the session builds on construction. Loading a table's structure from the
 * database is an oracle `loader(schema, name, mode)`.
 */
module Sync {
  import opened Wrappers
  import opened TableModel

  /** The user the session is built for. */
  datatype User = User(id: int, role: string)

  /** One entry of the configured `tables` list; an absent "users" or "roles" key is None. */
  datatype TableEntry = TableEntry(name: string, mode: string, users: Option<seq<int>>, roles: Option<seq<string>>)

  /** The html5sync parameters section. */
  datatype Parameters = Parameters(updateMode: string, rowsPerPage: int)

  /** The configuration: its named parameter sections and the list of tables. */
  datatype Config = Config(sections: map<string, Parameters>, tables: seq<TableEntry>)

  /** `foreach` over an absent key iterates nothing: an absent list reads as empty. */
  function Listed<T>(xs: Option<seq<T>>): seq<T>
  {
    if xs.Some? then xs.value else []
  }

  /** The access policy: the user's id is among the entry's users, or the user's role among its roles. */
  predicate Authorized(entry: TableEntry, user: User)
  {
    user.id in Listed(entry.users) || user.role in Listed(entry.roles)
  }

  /** The section the constructor reads: `config["parameters"]`, null when absent. */
  function ParametersOf(config: Config): Option<Parameters>
  {
    if "parameters" in config.sections then Some(config.sections["parameters"]) else None
  }

  /** `parameters["updateMode"] === "updatedColumn"`; false when the section is null. */
  predicate UpdatedColumnMode(p: Option<Parameters>)
  {
    p.Some? && p.value.updateMode == "updatedColumn"
  }

  /** The structures `loadTables` appends: one per accessible entry, in configuration order. */
  function AccessibleTables(entries: seq<TableEntry>, user: User, driver: string, loader: (string, string, string) -> Table): (ts: seq<Table>)
    ensures |ts| <= |entries|
  {
    if |entries| == 0 then []
    else
      var e := entries[|entries| - 1];
      AccessibleTables(entries[..|entries| - 1], user, driver, loader) +
        (if Authorized(e, user) then [loader(driver, e.name, e.mode)] else [])
  }

  class Html5Sync {
    var user: User
    /** The driver name of the connection, handed to `loadTable` as its schema argument. */
    var driver: string
    var tables: seq<Table>
    var parameters: Option<Parameters>
    /** The tables handed to `setUpdatedColumnMode`, in call order. */
    var updatedColumnModeCalls: seq<Table>

    /**
     * The session for `user`: parameters from the configuration, `tables` started empty and
     * then filled by `loadTables`.
     */
    constructor(user: User, config: Config, driver: string, loader: (string, string, string) -> Table)
      ensures this.user == user && this.driver == driver
      ensures parameters == ParametersOf(config)
      ensures tables == AccessibleTables(config.tables, user, driver, loader)
      ensures updatedColumnModeCalls == if UpdatedColumnMode(parameters) then tables else []
    {
      this.user := user;
      this.driver := driver;
      tables := [];
      updatedColumnModeCalls := [];
      parameters := ParametersOf(config);
      new;
      LoadTables(config, loader);
    }

    /**
     * `checkIfAccessibleTable`: raises its flag for every matching user id and every matching
     * role without stopping early; the result is the access policy.
     */
    method CheckIfAccessibleTable(entry: TableEntry) returns (accessible: bool)
      ensures accessible == Authorized(entry, user)
    {
      accessible := false;
      var users := Listed(entry.users);
      var roles := Listed(entry.roles);
      var i := 0;
      while i < |users|
        invariant 0 <= i <= |users|
        invariant accessible <==> user.id in users[..i]
      {
        assert users[..i + 1] == users[..i] + [users[i]];
        if users[i] == user.id {
          accessible := true;
        }
        i := i + 1;
      }
      assert users[..i] == users;
      var j := 0;
      while j < |roles|
        invariant 0 <= j <= |roles|
        invariant accessible <==> user.id in users || user.role in roles[..j]
      {
        assert roles[..j + 1] == roles[..j] + [roles[j]];
        if roles[j] == user.role {
          accessible := true;
        }
        j := j + 1;
      }
      assert roles[..j] == roles;
    }

    /**
     * `loadTables`: appends the structure of every accessible entry, in configuration order, and
     * passes each to `setUpdatedColumnMode` when the parameters select the "updatedColumn" mode.
     */
    method LoadTables(config: Config, loader: (string, string, string) -> Table)
      modifies this
      ensures user == old(user) && driver == old(driver) && parameters == old(parameters)
      ensures tables == old(tables) + AccessibleTables(config.tables, user, driver, loader)
      ensures updatedColumnModeCalls == old(updatedColumnModeCalls) +
        (if UpdatedColumnMode(parameters) then AccessibleTables(config.tables, user, driver, loader) else [])
    {
      var entries := config.tables;
      var u, d, mode := user, driver, UpdatedColumnMode(parameters);
      ghost var t0, c0 := tables, updatedColumnModeCalls;
      ghost var added: seq<Table> := [];
      var i := 0;
      while i < |entries|
        invariant 0 <= i <= |entries|
        invariant user == u && driver == d && parameters == old(parameters)
        invariant added == AccessibleTables(entries[..i], u, d, loader)
        invariant tables == t0 + added
        invariant mode ==> updatedColumnModeCalls == c0 + added
        invariant !mode ==> updatedColumnModeCalls == c0
      {
        var entry := entries[i];
        AccessibleTablesStep(entries, i, u, d, loader);
        var accessible := CheckIfAccessibleTable(entry);
        if accessible {
          var table := loader(d, entry.name, entry.mode);
          assert t0 + (added + [table]) == t0 + added + [table];
          assert c0 + (added + [table]) == c0 + added + [table];
          if parameters.Some? && parameters.value.updateMode == "updatedColumn" {
            updatedColumnModeCalls := updatedColumnModeCalls + [table];
          }
          tables := tables + [table];
          added := added + [table];
        }
        i := i + 1;
      }
      assert entries[..i] == entries;
    }
  }

  // ---------------------------------------------------------------------------
  // Properties of the access policy
  // ---------------------------------------------------------------------------

  /** An entry that lists neither users nor roles (absent or empty) is closed to everybody. */
  lemma AccessFailsClosed(entry: TableEntry, user: User)
    requires Listed(entry.users) == [] && Listed(entry.roles) == []
    ensures !Authorized(entry, user)
  {
  }

  /** Only the sets of users and roles matter: reordering or repeating entries changes nothing. */
  lemma AccessDependsOnSetsOnly(e1: TableEntry, e2: TableEntry, user: User)
    requires (set u | u in Listed(e1.users)) == (set u | u in Listed(e2.users))
    requires (set r | r in Listed(e1.roles)) == (set r | r in Listed(e2.roles))
    ensures Authorized(e1, user) <==> Authorized(e2, user)
  {
    var u1, u2 := set u | u in Listed(e1.users), set u | u in Listed(e2.users);
    var r1, r2 := set r | r in Listed(e1.roles), set r | r in Listed(e2.roles);
    assert user.id in Listed(e1.users) <==> user.id in u1;
    assert user.id in Listed(e2.users) <==> user.id in u2;
    assert user.role in Listed(e1.roles) <==> user.role in r1;
    assert user.role in Listed(e2.roles) <==> user.role in r2;
  }

  /** The "actor" entry of the shipped configuration, and its "city" entry, which has no "users" key. */
  function ActorEntry(): TableEntry
  {
    TableEntry("actor", "lock", Some([101, 102]), Some(["role1", "role2"]))
  }

  function CityEntry(): TableEntry
  {
    TableEntry("city", "unlock", None, Some(["role1"]))
  }

  /** A role match alone, or an id match alone, opens "actor"; neither closes it. */
  lemma ActorAccessScenario()
    ensures Authorized(ActorEntry(), User(999, "role1"))
    ensures Authorized(ActorEntry(), User(101, "guest"))
    ensures !Authorized(ActorEntry(), User(999, "guest"))
  {
    var guest := "guest";
    assert guest != "role1" by { assert guest[0] != "role1"[0]; }
    assert guest != "role2" by { assert guest[0] != "role2"[0]; }
    assert Listed(ActorEntry().roles) == ["role1", "role2"];
  }

  /** Without a "users" key, "city" is open by role only: user 101 as a guest is shut out. */
  lemma CityAccessByRoleOnly()
    ensures !Authorized(CityEntry(), User(101, "guest"))
    ensures Authorized(CityEntry(), User(101, "role1"))
  {
    var guest := "guest";
    assert guest != "role1" by { assert guest[0] != "role1"[0]; }
  }

  // ---------------------------------------------------------------------------
  // Properties of the registry
  // ---------------------------------------------------------------------------

  /** The registry holds a table exactly when an accessible entry loads to it. */
  lemma {:induction false} AccessibleTablesMembers(entries: seq<TableEntry>, user: User, driver: string, loader: (string, string, string) -> Table)
    ensures forall t :: t in AccessibleTables(entries, user, driver, loader) <==>
      exists i :: 0 <= i < |entries| && Authorized(entries[i], user) && t == loader(driver, entries[i].name, entries[i].mode)
  {
    if |entries| > 0 {
      var init := entries[..|entries| - 1];
      AccessibleTablesMembers(init, user, driver, loader);
      assert forall i :: 0 <= i < |init| ==> init[i] == entries[i];
    }
  }

  /**
   * Loading a configuration in two parts registers the first part's tables, then the
   * second's: entries are handled in order and independently of each other.
   */
  lemma {:induction false} AccessibleTablesAppend(a: seq<TableEntry>, b: seq<TableEntry>, user: User, driver: string, loader: (string, string, string) -> Table)
    ensures AccessibleTables(a + b, user, driver, loader) == AccessibleTables(a, user, driver, loader) + AccessibleTables(b, user, driver, loader)
    decreases |b|
  {
    if |b| == 0 {
      assert a + b == a;
    } else {
      assert (a + b)[..|a + b| - 1] == a + b[..|b| - 1];
      AccessibleTablesAppend(a, b[..|b| - 1], user, driver, loader);
    }
  }

  /** One entry registers one structure when accessible and none otherwise. */
  lemma AccessibleTablesSingle(e: TableEntry, user: User, driver: string, loader: (string, string, string) -> Table)
    ensures AccessibleTables([e], user, driver, loader) == if Authorized(e, user) then [loader(driver, e.name, e.mode)] else []
  {
    assert [e][..0] == [];
  }

  /** One more entry adds its structure exactly when it is accessible. */
  lemma AccessibleTablesStep(entries: seq<TableEntry>, i: nat, user: User, driver: string, loader: (string, string, string) -> Table)
    requires i < |entries|
    ensures AccessibleTables(entries[..i + 1], user, driver, loader) ==
      AccessibleTables(entries[..i], user, driver, loader) +
        (if Authorized(entries[i], user) then [loader(driver, entries[i].name, entries[i].mode)] else [])
  {
    assert entries[..i + 1][..i] == entries[..i];
  }

  /** With every entry closed, the session registers nothing. */
  lemma {:induction false} NoAccessNoTables(entries: seq<TableEntry>, user: User, driver: string, loader: (string, string, string) -> Table)
    requires forall i :: 0 <= i < |entries| ==> !Authorized(entries[i], user)
    ensures AccessibleTables(entries, user, driver, loader) == []
  {
    if |entries| > 0 {
      NoAccessNoTables(entries[..|entries| - 1], user, driver, loader);
    }
  }

  /**
   * The shipped configuration names its parameters section "main", which the constructor never
   * reads, so `setUpdatedColumnMode` is called for no table.
   */
  lemma MainSectionIsNeverRead(config: Config)
    requires "parameters" !in config.sections
    ensures ParametersOf(config) == None && !UpdatedColumnMode(ParametersOf(config))
  {
  }

  /** The shipped actor entry alone, user 999 as a guest: the actor table is not registered. */
  lemma GuestSeesNoActor(driver: string, loader: (string, string, string) -> Table)
    ensures AccessibleTables([ActorEntry()], User(999, "guest"), driver, loader) == []
  {
    ActorAccessScenario();
    AccessibleTablesSingle(ActorEntry(), User(999, "guest"), driver, loader);
  }
}
