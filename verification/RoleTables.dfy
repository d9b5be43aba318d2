/** The role tables of all deployments, the role operations as steps over them, and what every run keeps. */
module RoleTables {
  import opened Prelude
  import opened RoleQueries

  // ---------------------------------------------------------------- tables

  datatype RoleKey = RoleKey(deployment: string, id: string)

  datatype RoleRow = RoleRow(ouID: string, name: string)

  datatype Assignee = Assignee(kind: string, id: string)

  datatype Tables = Tables(roles: map<RoleKey, RoleRow>, grants: Grants)

  /** The IDs the organization unit, user and group services answer for. */
  datatype Directory = Directory(units: set<string>, users: set<string>, groups: set<string>)

  datatype Error =
    | InvalidRequestFormat | MissingRoleID | RoleNotFound | RoleNameConflict | OrganizationUnitNotFound
    | CannotDeleteRole | InvalidAssignmentID | EmptyAssignments | MissingUserOrGroups | InternalServerError

  function RoleOf(p: PermissionRow): RoleKey { RoleKey(p.deployment, p.role) }

  function RoleOfAssignment(a: AssignmentRow): RoleKey { RoleKey(a.deployment, a.role) }

  function PermissionRows(key: RoleKey, permissions: seq<string>): set<PermissionRow> {
    set p | p in permissions :: PermissionRow(key.deployment, key.id, p)
  }

  function AssignmentRowOf(key: RoleKey, a: Assignee): AssignmentRow {
    AssignmentRow(key.deployment, key.id, a.kind, a.id)
  }

  function AssignmentRows(key: RoleKey, assignees: seq<Assignee>): set<AssignmentRow> {
    set a | a in assignees :: AssignmentRowOf(key, a)
  }

  function PermissionsOf(g: Grants, key: RoleKey): set<PermissionRow> {
    set p | p in g.permissions && RoleOf(p) == key
  }

  function AssignmentsOf(g: Grants, key: RoleKey): set<AssignmentRow> {
    set a | a in g.assignments && RoleOfAssignment(a) == key
  }

  predicate NoDuplicates<T(==)>(s: seq<T>) {
    forall i, j | 0 <= i < j < |s| :: s[i] != s[j]
  }

  /** No row of a permission or an assignment without its role; within a deployment no two roles of one
      organization unit with one name. */
  ghost predicate Valid(t: Tables) {
    && (forall p | p in t.grants.permissions :: RoleOf(p) in t.roles)
    && (forall a | a in t.grants.assignments :: RoleOfAssignment(a) in t.roles && a.assigneeType in {USER, GROUP})
    && (forall k, m | k in t.roles && m in t.roles ::
          k.deployment == m.deployment && t.roles[k] == t.roles[m] ==> k == m)
  }

  // ---------------------------------------------------------------- operations

  datatype Op =
    | CreateRole(key: RoleKey, row: RoleRow, permissions: seq<string>, assignees: seq<Assignee>)
    | UpdateRole(key: RoleKey, row: RoleRow, permissions: seq<string>)
    | DeleteRole(key: RoleKey)
    | AddAssignments(key: RoleKey, assignees: seq<Assignee>)
    | RemoveAssignments(key: RoleKey, assignees: seq<Assignee>)

  predicate WellFormed(a: Assignee) {
    a.kind in {USER, GROUP} && a.id != ""
  }

  predicate Known(a: Assignee, directory: Directory) {
    (a.kind == USER ==> a.id in directory.users) && (a.kind == GROUP ==> a.id in directory.groups)
  }

  predicate NameTaken(t: Tables, key: RoleKey, row: RoleRow) {
    exists k | k in t.roles :: k != key && k.deployment == key.deployment && t.roles[k] == row
  }

  function DetailsError(row: RoleRow): Option<Error> {
    if row.name == "" || row.ouID == "" then Some(InvalidRequestFormat) else None
  }

  function AssigneesError(assignees: seq<Assignee>): Option<Error> {
    if assignees == [] then Some(EmptyAssignments)
    else if exists a | a in assignees :: !WellFormed(a) then Some(InvalidRequestFormat)
    else None
  }

  function PlacementError(t: Tables, directory: Directory, key: RoleKey, row: RoleRow): Option<Error> {
    if row.ouID !in directory.units then Some(OrganizationUnitNotFound)
    else if NameTaken(t, key, row) then Some(RoleNameConflict)
    else None
  }

  function OrElse(first: Option<Error>, second: Option<Error>): Option<Error> {
    if first.Some? then first else second
  }

  function When(condition: bool, error: Error): Option<Error> {
    if condition then Some(error) else None
  }

  /** What an operation answers when every statement it sends gets through. An internal error stands for a
      statement the table's constraints refuse. */
  function OpError(t: Tables, directory: Directory, op: Op): Option<Error> {
    match op
    case CreateRole(key, row, permissions, assignees) =>
      OrElse(DetailsError(row),
      OrElse(if assignees == [] then None else AssigneesError(assignees),
      OrElse(When(exists a | a in assignees :: !Known(a, directory), InvalidAssignmentID),
      OrElse(When(row.ouID !in directory.units, OrganizationUnitNotFound),
      OrElse(When(exists k | k in t.roles :: k.deployment == key.deployment && t.roles[k] == row, RoleNameConflict),
             When(key in t.roles || !NoDuplicates(permissions) || !NoDuplicates(assignees), InternalServerError))))))
    case UpdateRole(key, row, permissions) =>
      OrElse(When(key.id == "", MissingRoleID),
      OrElse(DetailsError(row),
      OrElse(When(key !in t.roles, RoleNotFound),
      OrElse(PlacementError(t, directory, key, row),
             When(!NoDuplicates(permissions), InternalServerError)))))
    case DeleteRole(key) =>
      OrElse(When(key.id == "", MissingRoleID),
             When(key in t.roles && AssignmentsOf(t.grants, key) != {}, CannotDeleteRole))
    case AddAssignments(key, assignees) =>
      OrElse(When(key.id == "", MissingRoleID),
      OrElse(AssigneesError(assignees),
      OrElse(When(key !in t.roles, RoleNotFound),
      OrElse(When(exists a | a in assignees :: !Known(a, directory), InvalidAssignmentID),
             When(!NoDuplicates(assignees) || !(AssignmentRows(key, assignees) !! t.grants.assignments),
                  InternalServerError)))))
    case RemoveAssignments(key, assignees) =>
      OrElse(When(key.id == "", MissingRoleID),
      OrElse(AssigneesError(assignees),
             When(key !in t.roles, RoleNotFound)))
  }

  /** The tables after an operation that reported no error; rows of a deleted role go with it. */
  function Apply(t: Tables, op: Op): Tables {
    var g := t.grants;
    match op
    case CreateRole(key, row, permissions, assignees) =>
      Tables(t.roles[key := row],
             Grants(g.permissions + PermissionRows(key, permissions), g.assignments + AssignmentRows(key, assignees)))
    case UpdateRole(key, row, permissions) =>
      Tables(t.roles[key := row],
             g.(permissions := g.permissions - PermissionsOf(g, key) + PermissionRows(key, permissions)))
    case DeleteRole(key) =>
      Tables(t.roles - {key}, Grants(g.permissions - PermissionsOf(g, key), g.assignments - AssignmentsOf(g, key)))
    case AddAssignments(key, assignees) =>
      t.(grants := g.(assignments := g.assignments + AssignmentRows(key, assignees)))
    case RemoveAssignments(key, assignees) =>
      t.(grants := g.(assignments := g.assignments - AssignmentRows(key, assignees)))
  }

  /** One call: what was asked, what the other services knew, and whether the database took the statements. */
  datatype Event = Event(op: Op, directory: Directory, statementsSucceed: bool)

  function Step(t: Tables, e: Event): Tables {
    if e.statementsSucceed && OpError(t, e.directory, e.op).None? then Apply(t, e.op) else t
  }

  function Run(t: Tables, events: seq<Event>): Tables
    decreases |events|
  {
    if events == [] then t else Run(Step(t, events[0]), events[1..])
  }

  const EMPTY := Tables(map[], Grants({}, {}))

  // ---------------------------------------------------------------- the invariant

  lemma StepKeepsValid(t: Tables, e: Event)
    requires Valid(t)
    ensures Valid(Step(t, e))
  {
    if Step(t, e) != t {
      var key, after := e.op.key, Step(t, e);
      forall p | p in after.grants.permissions ensures RoleOf(p) in after.roles {
      }
      forall a | a in after.grants.assignments
        ensures RoleOfAssignment(a) in after.roles && a.assigneeType in {USER, GROUP}
      {
        if a !in t.grants.assignments {
          var s :| s in e.op.assignees && a == AssignmentRowOf(key, s);
          assert WellFormed(s);
        }
      }
    }
  }

  /** In every reachable state each assignment and each permission row belongs to a live role. */
  lemma {:induction false} RunKeepsValid(t: Tables, events: seq<Event>)
    requires Valid(t)
    ensures Valid(Run(t, events))
    decreases |events|
  {
    if events != [] {
      StepKeepsValid(t, events[0]);
      RunKeepsValid(Step(t, events[0]), events[1..]);
    }
  }

  /** Every authorized permission comes from a role that exists. */
  lemma AuthorizedTracesToLiveRole(events: seq<Event>, deployment: string, user: string, groups: seq<string>,
                                   requested: seq<string>, permission: string)
    returns (key: RoleKey)
    requires permission in Authorized(Run(EMPTY, events).grants, deployment, user, groups, requested)
    ensures key in Run(EMPTY, events).roles && key.deployment == deployment
    ensures PermissionRow(deployment, key.id, permission) in Run(EMPTY, events).grants.permissions
    ensures Assigned(Run(EMPTY, events).grants, deployment, key.id, user, groups)
  {
    var t := Run(EMPTY, events);
    RunKeepsValid(EMPTY, events);
    var row :| row in t.grants.permissions && row.deployment == deployment && row.permission == permission &&
               Assigned(t.grants, deployment, row.role, user, groups);
    key := RoleOf(row);
  }

  // ---------------------------------------------------------------- what is accepted, and what it does

  /** Which calls are accepted. */
  lemma AcceptedIff(t: Tables, directory: Directory, op: Op)
    requires Valid(t)
    ensures op.CreateRole? ==>
              (OpError(t, directory, op).None? <==>
                 && op.row.name != "" && op.row.ouID != "" && op.row.ouID in directory.units && op.key !in t.roles
                 && (forall k | k in t.roles && k.deployment == op.key.deployment :: t.roles[k] != op.row)
                 && AllKnown(op.assignees, directory)
                 && NoDuplicates(op.permissions) && NoDuplicates(op.assignees))
    ensures op.UpdateRole? ==>
              (OpError(t, directory, op).None? <==>
                 && op.key.id != "" && op.row.name != "" && op.row.ouID != "" && op.row.ouID in directory.units
                 && op.key in t.roles && NoDuplicates(op.permissions)
                 && (forall k | k in t.roles && k != op.key && k.deployment == op.key.deployment ::
                       t.roles[k] != op.row))
    ensures op.DeleteRole? ==>
              (OpError(t, directory, op).None? <==>
                 && op.key.id != ""
                 && (forall a | a in t.grants.assignments :: RoleKey(a.deployment, a.role) != op.key))
    ensures op.AddAssignments? ==>
              (OpError(t, directory, op).None? <==>
                 && op.key.id != "" && op.assignees != [] && op.key in t.roles
                 && AllKnown(op.assignees, directory) && NoDuplicates(op.assignees)
                 && (forall a | a in t.grants.assignments && RoleKey(a.deployment, a.role) == op.key
                       :: Assignee(a.assigneeType, a.assigneeID) !in op.assignees))
    ensures op.RemoveAssignments? ==>
              (OpError(t, directory, op).None? <==>
                 && op.key.id != "" && op.assignees != [] && op.key in t.roles
                 && (forall a | a in op.assignees :: ProperAssignee(a)))
  {
    hide NoDuplicates;
    match op
    case CreateRole(_, _, _, assignees) => KnownIff(assignees, directory);
    case AddAssignments(key, assignees) =>
      KnownIff(assignees, directory);
      RowsApart(t.grants.assignments, key, assignees);
    case DeleteRole(key) =>
      assert AssignmentsOf(t.grants, key) == {} <==>
             forall a | a in t.grants.assignments :: RoleKey(a.deployment, a.role) != key by {
        forall a | a in t.grants.assignments && RoleKey(a.deployment, a.role) == key
          ensures a in AssignmentsOf(t.grants, key)
        {
        }
      }
    case _ =>
  }

  /** Every assignee is a user or a group that its service knows. */
  predicate AllKnown(assignees: seq<Assignee>, directory: Directory) {
    forall a | a in assignees ::
      a.id != "" && ((a.kind == "user" && a.id in directory.users) || (a.kind == "group" && a.id in directory.groups))
  }

  lemma KnownIff(assignees: seq<Assignee>, directory: Directory)
    ensures AllKnown(assignees, directory) <==> forall a | a in assignees :: WellFormed(a) && Known(a, directory)
  {
  }

  lemma RowsApart(rows: set<AssignmentRow>, key: RoleKey, assignees: seq<Assignee>)
    ensures AssignmentRows(key, assignees) !! rows <==>
            forall a | a in rows && RoleKey(a.deployment, a.role) == key
              :: Assignee(a.assigneeType, a.assigneeID) !in assignees
  {
    forall a: AssignmentRow ensures a in AssignmentRows(key, assignees) <==>
        RoleKey(a.deployment, a.role) == key && Assignee(a.assigneeType, a.assigneeID) in assignees
    {
      RowOfAssignee(key, assignees, a);
    }
  }

  lemma RowOfAssignee(key: RoleKey, assignees: seq<Assignee>, a: AssignmentRow)
    ensures a in AssignmentRows(key, assignees) <==>
            RoleKey(a.deployment, a.role) == key && Assignee(a.assigneeType, a.assigneeID) in assignees
  {
    assert AssignmentRowOf(key, Assignee(a.assigneeType, a.assigneeID)) == a <==> RoleKey(a.deployment, a.role) == key;
  }

  /** A refusal names the first reason that holds. */
  lemma RefusalsAreTrue(t: Tables, directory: Directory, op: Op)
    ensures match OpError(t, directory, op)
            case Some(MissingRoleID) => !op.CreateRole? && op.key.id == ""
            case Some(EmptyAssignments) =>
              (op.AddAssignments? || op.RemoveAssignments?) && op.key.id != "" && op.assignees == []
            case Some(InvalidRequestFormat) =>
              && (op.CreateRole? || op.key.id != "")
              && (((op.CreateRole? || op.UpdateRole?) && (op.row.name == "" || op.row.ouID == "")) ||
                  (HasAssignees(op) && exists a | a in op.assignees :: !ProperAssignee(a)))
            case Some(RoleNotFound) =>
              !op.CreateRole? && !op.DeleteRole? && op.key !in t.roles && RequestProper(op)
            case Some(InvalidAssignmentID) =>
              && (op.CreateRole? || (op.AddAssignments? && op.key in t.roles)) && RequestProper(op)
              && exists a | a in op.assignees ::
                   a.id !in (if a.kind == "user" then directory.users else directory.groups)
            case Some(OrganizationUnitNotFound) =>
              && (op.CreateRole? || op.UpdateRole?) && op.row.ouID !in directory.units && RequestProper(op)
              && (if op.CreateRole? then AllKnown(op.assignees, directory) else op.key in t.roles)
            case Some(RoleNameConflict) =>
              && (op.CreateRole? || op.UpdateRole?) && op.row.ouID in directory.units && RequestProper(op)
              && (if op.CreateRole? then AllKnown(op.assignees, directory) else op.key in t.roles)
              && exists k | k in t.roles :: k.deployment == op.key.deployment && t.roles[k] == op.row &&
                                            (op.UpdateRole? ==> k != op.key)
            case Some(CannotDeleteRole) =>
              && op.DeleteRole? && op.key.id != ""
              && exists a | a in t.grants.assignments :: RoleKey(a.deployment, a.role) == op.key
            case Some(MissingUserOrGroups) => false
            case _ => true
  {
    hide NoDuplicates, AssignmentRows, Valid;
    if HasAssignees(op) {
      KnownIff(op.assignees, directory);
    }
    if OpError(t, directory, op) == Some(CannotDeleteRole) {
      var a :| a in AssignmentsOf(t.grants, op.key);
    }
  }

  predicate ProperAssignee(a: Assignee) {
    (a.kind == "user" || a.kind == "group") && a.id != ""
  }

  /** What is checked of a request before other services and rows are asked. */
  predicate RequestProper(op: Op) {
    && (op.CreateRole? || op.key.id != "")
    && (op.CreateRole? || op.UpdateRole? ==> op.row.name != "" && op.row.ouID != "")
    && (op.AddAssignments? || op.RemoveAssignments? ==> op.assignees != [])
    && (HasAssignees(op) ==> forall a | a in op.assignees :: ProperAssignee(a))
  }

  predicate HasAssignees(op: Op) {
    op.CreateRole? || op.AddAssignments? || op.RemoveAssignments?
  }

  /** What an accepted call writes. The rows of the role are the ones asked for; no other role's rows change. */
  lemma AcceptedCallWrites(t: Tables, directory: Directory, op: Op, p: PermissionRow, a: AssignmentRow)
    requires Valid(t) && OpError(t, directory, op).None?
    ensures var after := Apply(t, op);
            && after.roles == (if op.CreateRole? || op.UpdateRole? then t.roles[op.key := op.row]
                               else if op.DeleteRole? then t.roles - {op.key} else t.roles)
            && (p in after.grants.permissions <==>
                  if RoleKey(p.deployment, p.role) != op.key then p in t.grants.permissions
                  else match op
                       case CreateRole(_, _, permissions, _) => p.permission in permissions
                       case UpdateRole(_, _, permissions) => p.permission in permissions
                       case DeleteRole(_) => false
                       case _ => p in t.grants.permissions)
            && (a in after.grants.assignments <==>
                  if RoleKey(a.deployment, a.role) != op.key then a in t.grants.assignments
                  else match op
                       case CreateRole(_, _, _, assignees) => Assignee(a.assigneeType, a.assigneeID) in assignees
                       case UpdateRole(_, _, _) => a in t.grants.assignments
                       case DeleteRole(_) => false
                       case AddAssignments(_, assignees) =>
                         a in t.grants.assignments || Assignee(a.assigneeType, a.assigneeID) in assignees
                       case RemoveAssignments(_, assignees) =>
                         a in t.grants.assignments && Assignee(a.assigneeType, a.assigneeID) !in assignees)
  {
    if HasAssignees(op) {
      RowOfAssignee(op.key, op.assignees, a);
    }
    if op.CreateRole? || op.UpdateRole? {
      RowOfPermission(op.key, op.permissions, p);
    }
  }

  lemma RowOfPermission(key: RoleKey, permissions: seq<string>, p: PermissionRow)
    ensures p in PermissionRows(key, permissions) <==>
            RoleKey(p.deployment, p.role) == key && p.permission in permissions
  {
    assert PermissionRow(key.deployment, key.id, p.permission) == p <==> RoleKey(p.deployment, p.role) == key;
  }

  // ---------------------------------------------------------------- whose permissions change

  /** What an unassigned caller of a role may do never depends on that role's permissions: a change of the
      permission rows of `key` alone leaves the answer as it was. */
  lemma OnlyHoldersNotice(before: Grants, after: Grants, key: RoleKey, deployment: string, user: string,
                          groups: seq<string>, requested: seq<string>)
    requires before.assignments == after.assignments
    requires before.permissions - PermissionsOf(before, key) == after.permissions - PermissionsOf(after, key)
    requires deployment != key.deployment || !Assigned(before, deployment, key.id, user, groups)
    ensures Authorized(before, deployment, user, groups, requested)
            == Authorized(after, deployment, user, groups, requested)
  {
    AuthorizedWithin(before, after, key, deployment, user, groups, requested);
    AuthorizedWithin(after, before, key, deployment, user, groups, requested);
  }

  lemma AuthorizedWithin(before: Grants, after: Grants, key: RoleKey, deployment: string, user: string,
                         groups: seq<string>, requested: seq<string>)
    requires before.assignments == after.assignments
    requires before.permissions - PermissionsOf(before, key) == after.permissions - PermissionsOf(after, key)
    requires deployment != key.deployment || !Assigned(before, deployment, key.id, user, groups)
    ensures Authorized(before, deployment, user, groups, requested)
            <= Authorized(after, deployment, user, groups, requested)
  {
    forall x | x in Authorized(before, deployment, user, groups, requested)
      ensures x in Authorized(after, deployment, user, groups, requested)
    {
      var row :| row in before.permissions && row.deployment == deployment && row.permission in requested &&
                 Assigned(before, deployment, row.role, user, groups) && row.permission == x;
      assert RoleOf(row) != key;
      assert row in before.permissions - PermissionsOf(before, key);
      assert Assigned(after, deployment, row.role, user, groups);
    }
  }

  /** What a caller holds through roles other than `key`. */
  ghost function HeldElsewhere(g: Grants, key: RoleKey, deployment: string, user: string, groups: seq<string>,
                               requested: seq<string>): set<string>
  {
    set row | row in g.permissions && RoleOf(row) != key && row.deployment == deployment &&
              row.permission in requested && Assigned(g, deployment, row.role, user, groups) :: row.permission
  }

  /** A role update reaches only those who hold the role. They hold after it the requested ones of the new permissions
      and what they hold through other roles, and nothing else. */
  lemma UpdateReachesHoldersOnly(t: Tables, directory: Directory, op: Op, deployment: string, user: string,
                                 groups: seq<string>, requested: seq<string>)
    requires Valid(t) && op.UpdateRole? && OpError(t, directory, op).None?
    ensures deployment != op.key.deployment || !Assigned(t.grants, deployment, op.key.id, user, groups)
            ==> Authorized(Apply(t, op).grants, deployment, user, groups, requested)
                == Authorized(t.grants, deployment, user, groups, requested)
    ensures deployment == op.key.deployment && Assigned(t.grants, deployment, op.key.id, user, groups)
            ==> Authorized(Apply(t, op).grants, deployment, user, groups, requested)
                == HeldElsewhere(t.grants, op.key, deployment, user, groups, requested) +
                   (set p | p in op.permissions && p in requested)
  {
    var before, after := t.grants, Apply(t, op).grants;
    if deployment != op.key.deployment || !Assigned(before, deployment, op.key.id, user, groups) {
      assert before.permissions - PermissionsOf(before, op.key) == after.permissions - PermissionsOf(after, op.key);
      OnlyHoldersNotice(before, after, op.key, deployment, user, groups, requested);
    } else {
      assert forall role :: Assigned(after, deployment, role, user, groups) <==>
                            Assigned(before, deployment, role, user, groups);
      forall p | p in op.permissions && p in requested
        ensures p in Authorized(after, deployment, user, groups, requested)
      {
        assert PermissionRow(deployment, op.key.id, p) in after.permissions;
      }
      forall x | x in HeldElsewhere(before, op.key, deployment, user, groups, requested)
        ensures x in Authorized(after, deployment, user, groups, requested)
      {
        var row :| row in before.permissions && RoleOf(row) != op.key && row.deployment == deployment &&
                   row.permission in requested && Assigned(before, deployment, row.role, user, groups) &&
                   row.permission == x;
        assert row in after.permissions;
      }
    }
  }

  /** What a caller may do is what the caller holds through other roles and, if the role is assigned to the caller, the
      requested ones of its permissions. */
  lemma AuthorizedByRole(g: Grants, key: RoleKey, user: string, groups: seq<string>, requested: seq<string>)
    ensures Authorized(g, key.deployment, user, groups, requested)
            == HeldElsewhere(g, key, key.deployment, user, groups, requested) +
               (if Assigned(g, key.deployment, key.id, user, groups)
                then set p | p in requested && PermissionRow(key.deployment, key.id, p) in g.permissions else {})
  {
    var all := Authorized(g, key.deployment, user, groups, requested);
    var elsewhere := HeldElsewhere(g, key, key.deployment, user, groups, requested);
    forall p | p in all && p !in elsewhere
      ensures Assigned(g, key.deployment, key.id, user, groups)
      ensures PermissionRow(key.deployment, key.id, p) in g.permissions
    {
      var row :| row in g.permissions && row.deployment == key.deployment && row.permission == p && p in requested &&
                 Assigned(g, key.deployment, row.role, user, groups);
      assert RoleOf(row) == key;
      assert row == PermissionRow(key.deployment, key.id, p);
    }
  }

  /** No accepted call touches what callers hold through other roles, or in other deployments. */
  lemma OtherRolesStay(t: Tables, directory: Directory, op: Op, user: string, groups: seq<string>,
                       requested: seq<string>)
    requires Valid(t) && OpError(t, directory, op).None?
    ensures HeldElsewhere(Apply(t, op).grants, op.key, op.key.deployment, user, groups, requested)
            == HeldElsewhere(t.grants, op.key, op.key.deployment, user, groups, requested)
    ensures forall deployment | deployment != op.key.deployment ::
              Authorized(Apply(t, op).grants, deployment, user, groups, requested)
              == Authorized(t.grants, deployment, user, groups, requested)
  {
    var after := Apply(t, op).grants;
    forall p: PermissionRow, a: AssignmentRow
      ensures RoleKey(p.deployment, p.role) != op.key ==> (p in after.permissions <==> p in t.grants.permissions)
      ensures RoleKey(a.deployment, a.role) != op.key ==> (a in after.assignments <==> a in t.grants.assignments)
    {
      AcceptedCallWrites(t, directory, op, p, a);
    }
    hide Apply, OpError;
    forall deployment, role | RoleKey(deployment, role) != op.key
      ensures Assigned(after, deployment, role, user, groups) <==> Assigned(t.grants, deployment, role, user, groups)
    {
    }
  }

  /** The caller, or one of the caller's groups, is among the assignees. */
  predicate Among(user: string, groups: seq<string>, assignees: seq<Assignee>) {
    || (user != "" && Assignee("user", user) in assignees)
    || (exists i | 0 <= i < |groups| :: Assignee("group", groups[i]) in assignees)
  }

  /** Creating a role gives its assignees the requested ones of its permissions, on top of what they had, and gives
      nobody else anything. */
  lemma CreateReachesAssigneesOnly(t: Tables, directory: Directory, op: Op, deployment: string, user: string,
                                   groups: seq<string>, requested: seq<string>)
    requires Valid(t) && op.CreateRole? && OpError(t, directory, op).None?
    ensures Authorized(Apply(t, op).grants, deployment, user, groups, requested)
            == Authorized(t.grants, deployment, user, groups, requested) +
               (if deployment == op.key.deployment && Among(user, groups, op.assignees)
                then set p | p in op.permissions && p in requested else {})
  {
    OtherRolesStay(t, directory, op, user, groups, requested);
    if deployment == op.key.deployment {
      var after := Apply(t, op).grants;
      AuthorizedByRole(t.grants, op.key, user, groups, requested);
      AuthorizedByRole(after, op.key, user, groups, requested);
      AssignedAfter(t, directory, op, user, groups);
      forall p: string
        ensures PermissionRow(deployment, op.key.id, p) in after.permissions <==> p in op.permissions
        ensures PermissionRow(deployment, op.key.id, p) !in t.grants.permissions
      {
        AcceptedCallWrites(t, directory, op, PermissionRow(deployment, op.key.id, p), AssignmentRow("", "", "", ""));
        assert RoleOf(PermissionRow(deployment, op.key.id, p)) == op.key;
      }
    }
  }

  /** Who holds the role after an accepted call. */
  lemma AssignedAfter(t: Tables, directory: Directory, op: Op, user: string, groups: seq<string>)
    requires Valid(t) && OpError(t, directory, op).None?
    ensures var before, after := Assigned(t.grants, op.key.deployment, op.key.id, user, groups),
                                 Assigned(Apply(t, op).grants, op.key.deployment, op.key.id, user, groups);
            match op
            case CreateRole(_, _, _, assignees) => after <==> Among(user, groups, assignees)
            case UpdateRole(_, _, _) => after <==> before
            case DeleteRole(_) => !after && !before
            case AddAssignments(_, assignees) => after <==> before || Among(user, groups, assignees)
            case RemoveAssignments(_, assignees) =>
              after <==>
                || (user != "" && Assignee("user", user) !in assignees &&
                    AssignmentRow(op.key.deployment, op.key.id, "user", user) in t.grants.assignments)
                || (exists i | 0 <= i < |groups| ::
                      Assignee("group", groups[i]) !in assignees &&
                      AssignmentRow(op.key.deployment, op.key.id, "group", groups[i]) in t.grants.assignments)
  {
    forall kind: string, id: string
      ensures var a := AssignmentRow(op.key.deployment, op.key.id, kind, id);
              var before, after := a in t.grants.assignments, a in Apply(t, op).grants.assignments;
              match op
              case CreateRole(_, _, _, assignees) => after <==> Assignee(kind, id) in assignees
              case UpdateRole(_, _, _) => after <==> before
              case DeleteRole(_) => !after && !before
              case AddAssignments(_, assignees) => after <==> before || Assignee(kind, id) in assignees
              case RemoveAssignments(_, assignees) => after <==> before && Assignee(kind, id) !in assignees
    {
      var a := AssignmentRow(op.key.deployment, op.key.id, kind, id);
      AcceptedCallWrites(t, directory, op, PermissionRow("", "", ""), a);
      AcceptedIff(t, directory, op);
    }
    hide Apply, OpError, Valid;
  }

  /** Adding assignments gives the assignees the requested ones of the role's permissions, on top of what they had, and
      changes nothing for anybody else. */
  lemma AddReachesAssigneesOnly(t: Tables, directory: Directory, op: Op, deployment: string, user: string,
                                groups: seq<string>, requested: seq<string>)
    requires Valid(t) && op.AddAssignments? && OpError(t, directory, op).None?
    ensures Authorized(Apply(t, op).grants, deployment, user, groups, requested)
            == Authorized(t.grants, deployment, user, groups, requested) +
               (if deployment == op.key.deployment && Among(user, groups, op.assignees)
                then set p | p in requested && PermissionRow(deployment, op.key.id, p) in t.grants.permissions else {})
  {
    OtherRolesStay(t, directory, op, user, groups, requested);
    if deployment == op.key.deployment {
      AuthorizedByRole(t.grants, op.key, user, groups, requested);
      AuthorizedByRole(Apply(t, op).grants, op.key, user, groups, requested);
      AssignedAfter(t, directory, op, user, groups);
    }
  }

  /** Removing assignments takes the role's permissions, unless held through other roles, from those whom no assignment
      of the role is left for, and changes nothing for anybody else. */
  lemma RemoveReachesAssigneesOnly(t: Tables, directory: Directory, op: Op, user: string, groups: seq<string>,
                                   requested: seq<string>)
    requires Valid(t) && op.RemoveAssignments? && OpError(t, directory, op).None?
    ensures var before, after := t.grants, Apply(t, op).grants;
            Authorized(after, op.key.deployment, user, groups, requested)
            == if Assigned(before, op.key.deployment, op.key.id, user, groups) &&
                  !Assigned(after, op.key.deployment, op.key.id, user, groups)
               then HeldElsewhere(before, op.key, op.key.deployment, user, groups, requested)
               else Authorized(before, op.key.deployment, user, groups, requested)
  {
    OtherRolesStay(t, directory, op, user, groups, requested);
    AuthorizedByRole(t.grants, op.key, user, groups, requested);
    AuthorizedByRole(Apply(t, op).grants, op.key, user, groups, requested);
    AssignedAfter(t, directory, op, user, groups);
  }

  /** A delete that succeeds changes nobody's permissions, because it is refused while anybody holds the role. */
  lemma DeleteChangesNobody(t: Tables, directory: Directory, op: Op, deployment: string, user: string,
                            groups: seq<string>, requested: seq<string>)
    requires Valid(t) && op.DeleteRole? && OpError(t, directory, op).None?
    ensures Authorized(Apply(t, op).grants, deployment, user, groups, requested)
            == Authorized(t.grants, deployment, user, groups, requested)
    ensures op.key !in t.roles ==> Apply(t, op) == t
  {
    var before, after := t.grants, Apply(t, op).grants;
    if op.key in t.roles {
      assert AssignmentsOf(before, op.key) == {};
    } else {
      assert t.roles - {op.key} == t.roles;
    }
    assert before.assignments == after.assignments;
    assert before.permissions - PermissionsOf(before, op.key) == after.permissions - PermissionsOf(after, op.key);
    if deployment == op.key.deployment {
      forall a | a in before.assignments ensures RoleOfAssignment(a) != op.key {
        assert RoleOfAssignment(a) == op.key <==> a in AssignmentsOf(before, op.key);
      }
      forall kind, id ensures AssignmentRow(deployment, op.key.id, kind, id) !in before.assignments {
        assert RoleOfAssignment(AssignmentRow(deployment, op.key.id, kind, id)) == op.key;
      }
      assert !Assigned(before, deployment, op.key.id, user, groups);
    }
    OnlyHoldersNotice(before, after, op.key, deployment, user, groups, requested);
  }

  /** A bulk remove brings back what was there before a bulk add of the same assignments exactly when none of them was
      there. An accepted add guarantees that, and the remove is then accepted, too. */
  lemma RemoveUndoesAddIff(t: Tables, directory: Directory, key: RoleKey, assignees: seq<Assignee>)
    ensures Apply(Apply(t, AddAssignments(key, assignees)), RemoveAssignments(key, assignees)) == t
            <==> AssignmentRows(key, assignees) !! t.grants.assignments
    ensures OpError(t, directory, AddAssignments(key, assignees)).None? ==>
              var added := Apply(t, AddAssignments(key, assignees));
              && OpError(added, directory, RemoveAssignments(key, assignees)).None?
              && Apply(added, RemoveAssignments(key, assignees)) == t
  {
    var rows, before := AssignmentRows(key, assignees), t.grants.assignments;
    assert before + rows - rows == before <==> rows !! before by {
      forall a | a in rows && before + rows - rows == before ensures a !in before {
        assert a !in before + rows - rows;
      }
    }
  }

  /** A bulk add brings back what was there before a bulk remove of the same assignments exactly when all of them were
      there; removing one that is not there is no error. After an accepted remove the add is accepted exactly when the
      users and groups are still known and none is listed twice. */
  lemma AddUndoesRemoveIff(t: Tables, directory: Directory, key: RoleKey, assignees: seq<Assignee>)
    ensures Apply(Apply(t, RemoveAssignments(key, assignees)), AddAssignments(key, assignees)) == t
            <==> AssignmentRows(key, assignees) <= t.grants.assignments
    ensures OpError(t, directory, RemoveAssignments(key, assignees)).None? ==>
              var removed := Apply(t, RemoveAssignments(key, assignees));
              (OpError(removed, directory, AddAssignments(key, assignees)).None? <==>
               (forall a | a in assignees :: Known(a, directory)) && NoDuplicates(assignees))
  {
    var rows, before := AssignmentRows(key, assignees), t.grants.assignments;
    assert before - rows + rows == before <==> rows <= before by {
      forall a | a in rows && before - rows + rows == before ensures a in before {
        assert a in before - rows + rows;
      }
    }
  }

  /** Updating back with the earlier permissions restores the tables, and nothing but a vanished organization unit,
      an empty stored name or a duplicate in the list can refuse it. */
  lemma UpdateBackRestores(t: Tables, directory: Directory, key: RoleKey, row: RoleRow, permissions: seq<string>,
                           earlier: seq<string>)
    requires Valid(t) && OpError(t, directory, UpdateRole(key, row, permissions)).None?
    requires PermissionRows(key, earlier) == PermissionsOf(t.grants, key)
    ensures var updated := Apply(t, UpdateRole(key, row, permissions));
            && Apply(updated, UpdateRole(key, t.roles[key], earlier)) == t
            && (OpError(updated, directory, UpdateRole(key, t.roles[key], earlier)).None?
                <==> DetailsError(t.roles[key]).None? && t.roles[key].ouID in directory.units && NoDuplicates(earlier))
  {
    var updated := Apply(t, UpdateRole(key, row, permissions));
    var back := Apply(updated, UpdateRole(key, t.roles[key], earlier));
    assert back.roles == t.roles;
    assert updated.grants.permissions - PermissionsOf(updated.grants, key)
           == t.grants.permissions - PermissionsOf(t.grants, key);
    assert back.grants.permissions == t.grants.permissions;
  }

  // ---------------------------------------------------------------- deployments do not see each other

  /** The rows of one deployment. */
  function Slice(t: Tables, deployment: string): Tables {
    Tables(map k | k in t.roles && k.deployment == deployment :: t.roles[k],
           Grants(set p | p in t.grants.permissions && p.deployment == deployment,
                  set a | a in t.grants.assignments && a.deployment == deployment))
  }

  function EventsOf(events: seq<Event>, deployment: string): seq<Event> {
    if events == [] then []
    else (if events[0].op.key.deployment == deployment then [events[0]] else []) + EventsOf(events[1..], deployment)
  }

  /** Guards look at rows of the caller's deployment only. */
  lemma SliceDecides(t: Tables, directory: Directory, op: Op)
    ensures OpError(Slice(t, op.key.deployment), directory, op) == OpError(t, directory, op)
  {
    var s := Slice(t, op.key.deployment);
    assert op.key in s.roles <==> op.key in t.roles;
    match op
    case CreateRole(key, row, _, _) =>
      if k :| k in t.roles && k.deployment == key.deployment && t.roles[k] == row {
        assert k in s.roles && s.roles[k] == row;
      }
    case UpdateRole(key, row, _) =>
      if k :| k in t.roles && k != key && k.deployment == key.deployment && t.roles[k] == row {
        assert k in s.roles && s.roles[k] == row;
      }
      assert NameTaken(s, key, row) <==> NameTaken(t, key, row);
    case DeleteRole(key) =>
      assert AssignmentsOf(s.grants, key) == AssignmentsOf(t.grants, key);
    case AddAssignments(key, assignees) =>
      assert AssignmentRows(key, assignees) !! s.grants.assignments <==>
             AssignmentRows(key, assignees) !! t.grants.assignments;
    case RemoveAssignments(_, _) =>
  }

  /** An operation writes rows of the caller's deployment only. */
  lemma SliceOfApply(t: Tables, op: Op, deployment: string)
    ensures Slice(Apply(t, op), deployment)
            == if op.key.deployment == deployment then Apply(Slice(t, deployment), op) else Slice(t, deployment)
  {
    var s := Slice(t, deployment);
    var left := Slice(Apply(t, op), deployment);
    var right := if op.key.deployment == deployment then Apply(s, op) else s;
    assert left.roles == right.roles;
    assert left.grants.permissions == right.grants.permissions;
    assert left.grants.assignments == right.grants.assignments;
  }

  lemma {:induction false} SliceOfRun(t: Tables, events: seq<Event>, deployment: string)
    ensures Slice(Run(t, events), deployment) == Run(Slice(t, deployment), EventsOf(events, deployment))
    decreases |events|
  {
    if events != [] {
      var e, rest := events[0], EventsOf(events[1..], deployment);
      SliceOfApply(t, e.op, deployment);
      SliceOfRun(Step(t, e), events[1..], deployment);
      if e.op.key.deployment == deployment {
        SliceDecides(t, e.directory, e.op);
        assert ([e] + rest)[1..] == rest;
        assert Slice(Step(t, e), deployment) == Step(Slice(t, deployment), e);
      } else {
        assert [] + rest == rest;
        assert Slice(Step(t, e), deployment) == Slice(t, deployment);
      }
    }
  }

  /** Two histories that agree on one deployment authorize alike there, whatever the others do. */
  lemma DeploymentsAreIsolated(first: seq<Event>, second: seq<Event>, deployment: string, user: string,
                               groups: seq<string>, requested: seq<string>)
    requires EventsOf(first, deployment) == EventsOf(second, deployment)
    ensures Authorized(Run(EMPTY, first).grants, deployment, user, groups, requested)
            == Authorized(Run(EMPTY, second).grants, deployment, user, groups, requested)
  {
    SliceOfRun(EMPTY, first, deployment);
    SliceOfRun(EMPTY, second, deployment);
    SliceAuthorizes(Run(EMPTY, first), deployment, user, groups, requested);
    SliceAuthorizes(Run(EMPTY, second), deployment, user, groups, requested);
  }

  lemma SliceAuthorizes(t: Tables, deployment: string, user: string, groups: seq<string>, requested: seq<string>)
    ensures Authorized(Slice(t, deployment).grants, deployment, user, groups, requested)
            == Authorized(t.grants, deployment, user, groups, requested)
  {
    var s := Slice(t, deployment);
    forall row: PermissionRow ensures Assigned(s.grants, deployment, row.role, user, groups)
                                      <==> Assigned(t.grants, deployment, row.role, user, groups) {
    }
  }
}
