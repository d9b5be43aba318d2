/** The role service and its store. The store's multi-row changes run in a transaction on a pending copy of the
    tables; any statement, and the commit, may fail. */
module RoleService {
  import opened Listings
  import opened Prelude
  import opened RoleQueries
  import opened RoleTables
  import opened SqlPlaceholders

  // `reliable` says that the database takes every statement its constraints allow, and commits.

  /** INSERT one row per permission; the unique and foreign key constraints refuse a duplicate and an orphan. */
  method AddPermissionsToRole(pending: Tables, key: RoleKey, permissions: seq<string>, reliable: bool)
    returns (r: Option<Tables>)
    requires key in pending.roles
    ensures r.Some? ==>
              && NoDuplicates(permissions) && PermissionRows(key, permissions) !! pending.grants.permissions
              && r.value == pending.(grants := pending.grants.(permissions :=
                              pending.grants.permissions + PermissionRows(key, permissions)))
    ensures reliable && NoDuplicates(permissions) && PermissionRows(key, permissions) !! pending.grants.permissions
            ==> r.Some?
  {
    var rows := pending.grants.permissions;
    for i := 0 to |permissions|
      invariant NoDuplicates(permissions[..i])
      invariant PermissionRows(key, permissions[..i]) !! pending.grants.permissions
      invariant rows == pending.grants.permissions + PermissionRows(key, permissions[..i])
    {
      var row := PermissionRow(key.deployment, key.id, permissions[i]);
      if * {
        if !reliable {
          return None;
        }
      }
      if row in rows || RoleOf(row) !in pending.roles {
        return None;
      }
      assert permissions[..i + 1] == permissions[..i] + [permissions[i]];
      assert permissions[i] !in permissions[..i];
      assert PermissionRows(key, permissions[..i + 1]) == PermissionRows(key, permissions[..i]) + {row};
      rows := rows + {row};
    }
    assert permissions[..|permissions|] == permissions;
    r := Some(pending.(grants := pending.grants.(permissions := rows)));
  }

  /** INSERT one row per assignment under the same constraints. */
  method AddAssignmentsToRole(pending: Tables, key: RoleKey, assignees: seq<Assignee>, reliable: bool)
    returns (r: Option<Tables>)
    requires key in pending.roles
    ensures r.Some? ==>
              && NoDuplicates(assignees) && AssignmentRows(key, assignees) !! pending.grants.assignments
              && r.value == pending.(grants := pending.grants.(assignments :=
                              pending.grants.assignments + AssignmentRows(key, assignees)))
    ensures reliable && NoDuplicates(assignees) && AssignmentRows(key, assignees) !! pending.grants.assignments
            ==> r.Some?
  {
    var rows := pending.grants.assignments;
    for i := 0 to |assignees|
      invariant NoDuplicates(assignees[..i])
      invariant AssignmentRows(key, assignees[..i]) !! pending.grants.assignments
      invariant rows == pending.grants.assignments + AssignmentRows(key, assignees[..i])
    {
      var row := AssignmentRowOf(key, assignees[i]);
      if * {
        if !reliable {
          return None;
        }
      }
      if row in rows || RoleOfAssignment(row) !in pending.roles {
        return None;
      }
      assert assignees[..i + 1] == assignees[..i] + [assignees[i]];
      assert assignees[i] !in assignees[..i];
      assert AssignmentRows(key, assignees[..i + 1]) == AssignmentRows(key, assignees[..i]) + {row};
      rows := rows + {row};
    }
    assert assignees[..|assignees|] == assignees;
    r := Some(pending.(grants := pending.grants.(assignments := rows)));
  }

  /** DELETE one row per assignment; a row that is not there is no error. */
  method RemoveAssignmentsFromRole(pending: Tables, key: RoleKey, assignees: seq<Assignee>, reliable: bool)
    returns (r: Option<Tables>)
    ensures r.Some? ==>
              r.value == pending.(grants := pending.grants.(assignments :=
                           pending.grants.assignments - AssignmentRows(key, assignees)))
    ensures reliable ==> r.Some?
  {
    var rows := pending.grants.assignments;
    for i := 0 to |assignees|
      invariant rows == pending.grants.assignments - AssignmentRows(key, assignees[..i])
    {
      if * {
        if !reliable {
          return None;
        }
      }
      assert assignees[..i + 1] == assignees[..i] + [assignees[i]];
      var row := AssignmentRowOf(key, assignees[i]);
      assert AssignmentRows(key, assignees[..i + 1]) == AssignmentRows(key, assignees[..i]) + {row};
      rows := rows - {row};
    }
    assert assignees[..|assignees|] == assignees;
    r := Some(pending.(grants := pending.grants.(assignments := rows)));
  }

  method ValidateAssignmentsRequest(assignees: seq<Assignee>) returns (error: Option<Error>)
    ensures error == AssigneesError(assignees)
  {
    if |assignees| == 0 {
      return Some(EmptyAssignments);
    }
    for i := 0 to |assignees|
      invariant forall j | 0 <= j < i :: WellFormed(assignees[j])
    {
      assert assignees[i] in assignees;
      if assignees[i].kind != USER && assignees[i].kind != GROUP {
        return Some(InvalidRequestFormat);
      }
      if assignees[i].id == "" {
        return Some(InvalidRequestFormat);
      }
    }
    error := None;
  }

  /** The first occurrence of each element, in order. */
  method UniqueStrings(input: seq<string>) returns (result: seq<string>)
    ensures NoDuplicates(result) && forall x :: x in result <==> x in input
  {
    var seen: set<string> := {};
    result := [];
    for i := 0 to |input|
      invariant NoDuplicates(result)
      invariant forall x :: x in seen <==> x in input[..i]
      invariant forall x :: x in result <==> x in seen
    {
      if input[i] !in seen {
        seen := seen + {input[i]};
        result := result + [input[i]];
      }
    }
  }

  /** Asks the user service about the users and the group service about the groups among the assignees. */
  method ValidateAssignmentIDs(assignees: seq<Assignee>, directory: Directory, reliable: bool)
    returns (error: Option<Error>)
    ensures reliable || error != Some(InternalServerError) ==>
              error == When(exists a | a in assignees :: !Known(a, directory), InvalidAssignmentID)
  {
    var userIDs, groupIDs: seq<string> := [], [];
    for i := 0 to |assignees|
      invariant forall x :: x in userIDs <==> Assignee(USER, x) in assignees[..i]
      invariant forall x :: x in groupIDs <==> Assignee(GROUP, x) in assignees[..i]
    {
      if assignees[i].kind == USER {
        userIDs := userIDs + [assignees[i].id];
      } else if assignees[i].kind == GROUP {
        groupIDs := groupIDs + [assignees[i].id];
      }
    }
    assert assignees[..|assignees|] == assignees;
    userIDs := UniqueStrings(userIDs);
    groupIDs := UniqueStrings(groupIDs);
    if |userIDs| > 0 {
      if * {
        if !reliable {
          return Some(InternalServerError);
        }
      }
      if exists x | x in userIDs :: x !in directory.users {
        ghost var x :| x in userIDs && x !in directory.users;
        assert !Known(Assignee(USER, x), directory);
        return Some(InvalidAssignmentID);
      }
    }
    if |groupIDs| > 0 {
      if * {
        if !reliable {
          return Some(InternalServerError);
        }
      }
      if exists x | x in groupIDs :: x !in directory.groups {
        ghost var x :| x in groupIDs && x !in directory.groups;
        assert !Known(Assignee(GROUP, x), directory);
        return Some(InvalidAssignmentID);
      }
    }
    forall a | a in assignees ensures Known(a, directory) {
      assert a == Assignee(a.kind, a.id);
    }
    error := None;
  }

  /** `bound` is the statement with the i-th placeholder of its text replaced by the argument it reads. */
  predicate BindsByIndex(statement: Query<Placeholder>, indexes: seq<nat>, args: seq<string>, bound: Query<string>) {
    && SameStructure(statement, bound) && |Placeholders(statement)| == |Placeholders(bound)| == |indexes|
    && forall i | 0 <= i < |indexes| :: 1 <= indexes[i] <= |args| && args[indexes[i] - 1] == Placeholders(bound)[i]
  }

  /** Reading arguments by index is each dialect's binding rule. */
  lemma IndexesBind(q: Query<Placeholder>, args: seq<string>, bound: Query<string>)
    ensures BindsByIndex(q, PostgresIndexes(q), args, bound) <==> PostgresBinds(q, args, bound)
    ensures BindsByIndex(q, SqliteIndexes(q), args, bound) <==> SqliteBinds(q, args, bound)
  {
    hide SameStructure, Placeholders, ScanAll;
    forall i | 0 <= i < |Placeholders(q)| == |Placeholders(bound)|
      ensures BindPostgres(Placeholders(q)[i], args) == Some(Placeholders(bound)[i]) <==>
              (1 <= PostgresIndexes(q)[i] <= |args| && args[PostgresIndexes(q)[i] - 1] == Placeholders(bound)[i])
    {
    }
  }

  /** What either dialect's statement answers is the authorized set. */
  lemma AnswerIsAuthorized(user: string, groups: seq<string>, requested: seq<string>, deployment: string, db: Grants,
                           bound: Query<string>)
    ensures var q := PostgresForm(user, |groups|, |requested|);
            (user != "" || groups != []) && requested != [] &&
            BindsByIndex(q, PostgresIndexes(q), Arguments(user, groups, requested, deployment), bound) ==>
              Evaluate(bound, db) == Some(Authorized(db, deployment, user, groups, requested))
    ensures var q := SqliteForm(user, |groups|, |requested|);
            (user != "" || groups != []) && requested != [] &&
            BindsByIndex(q, SqliteIndexes(q), Arguments(user, groups, requested, deployment), bound) ==>
              Evaluate(bound, db) == Some(Authorized(db, deployment, user, groups, requested))
  {
    hide *;
    if (user != "" || groups != []) && requested != [] {
      var args := Arguments(user, groups, requested, deployment);
      var intended := Intended(user, groups, requested, deployment);
      PostgresMeansIntended(user, groups, requested, deployment);
      SqliteMeansIntended(user, groups, requested, deployment);
      IndexesBind(PostgresForm(user, |groups|, |requested|), args, bound);
      IndexesBind(SqliteForm(user, |groups|, |requested|), args, bound);
      if PostgresBinds(PostgresForm(user, |groups|, |requested|), args, bound) {
        BothDialectsAreAuthorized(user, groups, requested, deployment, db, bound, intended);
      }
      if SqliteBinds(SqliteForm(user, |groups|, |requested|), args, bound) {
        BothDialectsAreAuthorized(user, groups, requested, deployment, db, intended, bound);
      }
    }
  }

  predicate CanEvaluate(q: Query<string>) {
    q.where != [] && q.permissions != []
  }

  /** Runs the statement of the connected database: binds the arguments by that dialect's rule, joins, and sorts. */
  method Execute(statement: Query<Placeholder>, indexes: seq<nat>, args: seq<string>, db: Grants, reliable: bool)
    returns (rows: Result<seq<string>, Error>)
    requires |indexes| == |Placeholders(statement)|
    ensures rows.Err? ==> rows.error == InternalServerError
    ensures reliable && (exists bound :: BindsByIndex(statement, indexes, args, bound) && CanEvaluate(bound))
            ==> rows.Ok?
    ensures rows.Ok? ==>
              exists bound :: BindsByIndex(statement, indexes, args, bound) &&
                Evaluate(bound, db).Some? && IsListing(rows.value, Evaluate(bound, db).value)
  {
    if * {
      if !reliable {
        return Err(InternalServerError);
      }
    }
    if exists i | 0 <= i < |indexes| :: !(1 <= indexes[i] <= |args|) {
      return Err(InternalServerError);
    }
    var values := seq(|indexes|, i requires 0 <= i < |indexes| => args[indexes[i] - 1]);
    var bound := Fill(statement, values);
    FillReadsBack(statement, values);
    if bound.where == [] || bound.permissions == [] {
      return Err(InternalServerError);
    }
    var answer := set p, a | p in db.permissions && a in db.assignments && Joins(p, a, bound) :: p.permission;
    assert Evaluate(bound, db) == Some(answer);
    var listing := OrderBy(answer);
    rows := Ok(listing);
  }

  class RoleService {
    const deploymentID: string
    const reliable: bool
    var tables: Tables

    constructor (deploymentID: string, tables: Tables, reliable: bool)
      requires Valid(tables)
      ensures this.deploymentID == deploymentID && this.tables == tables && this.reliable == reliable
    {
      this.deploymentID := deploymentID;
      this.reliable := reliable;
      this.tables := tables;
    }

    /** All of the operation or none of it: without an error the tables are the ones the operation describes, with
        one they are as before, and an error other than an internal one is the operation's own. */
    ghost predicate Performed(before: Tables, directory: Directory, op: Op, error: Option<Error>)
      reads this
    {
      && Valid(tables)
      && (error.None? ==> OpError(before, directory, op).None? && tables == Apply(before, op))
      && (error.Some? ==> tables == before)
      && (reliable || error != Some(InternalServerError) ==> error == OpError(before, directory, op))
    }

    /** COMMIT, which may fail and then leaves the committed tables in place. */
    method Commit(pending: Option<Tables>) returns (ok: bool)
      modifies this
      ensures ok ==> pending.Some? && tables == pending.value
      ensures !ok ==> tables == old(tables)
      ensures reliable && pending.Some? ==> ok
    {
      if * {
        if !reliable {
          return false;
        }
      }
      if pending.Some? {
        tables := pending.value;
      }
      ok := pending.Some?;
    }

    method CreateRole(id: string, row: RoleRow, permissions: seq<string>, assignees: seq<Assignee>,
                      directory: Directory)
      returns (error: Option<Error>)
      requires Valid(tables)
      modifies this
      ensures Performed(old(tables), directory,
                        Op.CreateRole(RoleKey(deploymentID, id), row, permissions, assignees), error)
    {
      var key := RoleKey(deploymentID, id);
      ghost var op := Op.CreateRole(key, row, permissions, assignees);
      StepKeepsValid(tables, Event(op, directory, true));
      if row.name == "" || row.ouID == "" {
        return Some(InvalidRequestFormat);
      }
      if |assignees| > 0 {
        error := ValidateAssignmentsRequest(assignees);
        if error.Some? {
          return;
        }
        error := ValidateAssignmentIDs(assignees, directory, reliable);
        if error.Some? {
          return;
        }
      }
      if row.ouID !in directory.units {
        return Some(OrganizationUnitNotFound);
      }
      if exists k | k in tables.roles :: k.deployment == deploymentID && tables.roles[k] == row {
        return Some(RoleNameConflict);
      }
      if key in tables.roles {
        return Some(InternalServerError);
      }
      var pending := Some(tables.(roles := tables.roles[key := row]));
      pending := AddPermissionsToRole(pending.value, key, permissions, reliable);
      if pending.Some? {
        pending := AddAssignmentsToRole(pending.value, key, assignees, reliable);
      }
      var ok := Commit(pending);
      error := if ok then None else Some(InternalServerError);
    }

    method UpdateRoleWithPermissions(id: string, row: RoleRow, permissions: seq<string>, directory: Directory)
      returns (error: Option<Error>)
      requires Valid(tables)
      modifies this
      ensures Performed(old(tables), directory, UpdateRole(RoleKey(deploymentID, id), row, permissions), error)
    {
      var key := RoleKey(deploymentID, id);
      StepKeepsValid(tables, Event(UpdateRole(key, row, permissions), directory, true));
      if id == "" {
        return Some(MissingRoleID);
      }
      if row.name == "" || row.ouID == "" {
        return Some(InvalidRequestFormat);
      }
      if key !in tables.roles {
        return Some(RoleNotFound);
      }
      if row.ouID !in directory.units {
        return Some(OrganizationUnitNotFound);
      }
      if NameTaken(tables, key, row) {
        return Some(RoleNameConflict);
      }
      var g := tables.grants;
      var emptied := Tables(tables.roles[key := row], g.(permissions := g.permissions - PermissionsOf(g, key)));
      var pending := AddPermissionsToRole(emptied, key, permissions, reliable);
      var ok := Commit(pending);
      error := if ok then None else Some(InternalServerError);
    }

    /** The delete statement takes the role's rows with it by the foreign keys' cascade. */
    method DeleteRole(id: string, directory: Directory) returns (error: Option<Error>)
      requires Valid(tables)
      modifies this
      ensures Performed(old(tables), directory, Op.DeleteRole(RoleKey(deploymentID, id)), error)
    {
      var key := RoleKey(deploymentID, id);
      StepKeepsValid(tables, Event(Op.DeleteRole(key), directory, true));
      if id == "" {
        return Some(MissingRoleID);
      }
      if key !in tables.roles {
        DeleteChangesNobody(tables, directory, Op.DeleteRole(key), "", "", [], []);
        return None;
      }
      if |AssignmentsOf(tables.grants, key)| > 0 {
        return Some(CannotDeleteRole);
      }
      if * {
        if !reliable {
          return Some(InternalServerError);
        }
      }
      var g := tables.grants;
      tables := Tables(tables.roles - {key},
                       Grants(g.permissions - PermissionsOf(g, key), g.assignments - AssignmentsOf(g, key)));
      error := None;
    }

    method AddAssignments(id: string, assignees: seq<Assignee>, directory: Directory) returns (error: Option<Error>)
      requires Valid(tables)
      modifies this
      ensures Performed(old(tables), directory, Op.AddAssignments(RoleKey(deploymentID, id), assignees), error)
    {
      var key := RoleKey(deploymentID, id);
      StepKeepsValid(tables, Event(Op.AddAssignments(key, assignees), directory, true));
      if id == "" {
        return Some(MissingRoleID);
      }
      error := ValidateAssignmentsRequest(assignees);
      if error.Some? {
        return;
      }
      if key !in tables.roles {
        return Some(RoleNotFound);
      }
      error := ValidateAssignmentIDs(assignees, directory, reliable);
      if error.Some? {
        return;
      }
      var pending := AddAssignmentsToRole(tables, key, assignees, reliable);
      var ok := Commit(pending);
      error := if ok then None else Some(InternalServerError);
    }

    method RemoveAssignments(id: string, assignees: seq<Assignee>, directory: Directory) returns (error: Option<Error>)
      requires Valid(tables)
      modifies this
      ensures Performed(old(tables), directory, Op.RemoveAssignments(RoleKey(deploymentID, id), assignees), error)
    {
      var key := RoleKey(deploymentID, id);
      StepKeepsValid(tables, Event(Op.RemoveAssignments(key, assignees), directory, true));
      if id == "" {
        return Some(MissingRoleID);
      }
      error := ValidateAssignmentsRequest(assignees);
      if error.Some? {
        return;
      }
      if key !in tables.roles {
        return Some(RoleNotFound);
      }
      var pending := RemoveAssignmentsFromRole(tables, key, assignees, reliable);
      var ok := Commit(pending);
      error := if ok then None else Some(InternalServerError);
    }

    /** Whichever database is connected, the answer lists exactly the authorized permissions. */
    method GetAuthorizedPermissions(user: string, groups: seq<string>, requested: seq<string>, onPostgres: bool)
      returns (r: Result<seq<string>, Error>)
      ensures r == Err(MissingUserOrGroups) <==> user == "" && groups == []
      ensures r.Err? ==> r.error in {MissingUserOrGroups, InternalServerError}
      ensures reliable ==> r != Err(InternalServerError)
      ensures requested == [] && r.Ok? ==> r.value == []
      ensures r.Ok? ==> IsListing(r.value, Authorized(tables.grants, deploymentID, user, groups, requested))
      ensures r.Ok? ==> forall i, j | 0 <= i < j < |r.value| :: Less(r.value[i], r.value[j])
    {
      if user == "" && |groups| == 0 {
        return Err(MissingUserOrGroups);
      }
      if |requested| == 0 {
        assert Authorized(tables.grants, deploymentID, user, groups, requested) == {};
        return Ok([]);
      }
      assert CanEvaluate(Intended(user, groups, requested, deploymentID));
      hide *;
      var postgres, sqlite, args := BuildAuthorizedPermissionsQuery(user, groups, requested, deploymentID);
      var statement := if onPostgres then postgres else sqlite;
      var indexes := if onPostgres then PostgresIndexes(postgres) else SqliteIndexes(sqlite);
      IndexesBind(statement, args, Intended(user, groups, requested, deploymentID));
      r := Execute(statement, indexes, args, tables.grants, reliable);
      if r.Ok? {
        ghost var bound :| BindsByIndex(statement, indexes, args, bound) &&
                           Evaluate(bound, tables.grants).Some? &&
                           IsListing(r.value, Evaluate(bound, tables.grants).value);
        AnswerIsAuthorized(user, groups, requested, deploymentID, tables.grants, bound);
      }
    }
  }
}
