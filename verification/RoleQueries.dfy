/** The authorization query: one builder emits a PostgreSQL form with numbered placeholders, a SQLite form
    with positional ones, and a single argument list. Queries are terms over placeholders here; what a
    placeholder stands for is the dialect's own binding rule. */
module RoleQueries {
  import opened Prelude
  import opened SqlPlaceholders

  // ---------------------------------------------------------------- tables and the answer wanted

  const USER := "user"
  const GROUP := "group"

  datatype PermissionRow = PermissionRow(deployment: string, role: string, permission: string)

  datatype AssignmentRow = AssignmentRow(deployment: string, role: string, assigneeType: string, assigneeID: string)

  datatype Grants = Grants(permissions: set<PermissionRow>, assignments: set<AssignmentRow>)

  /** In this deployment the role is assigned to the user or to one of the groups; an empty user ID names
      no user. */
  predicate Assigned(db: Grants, deployment: string, role: string, user: string, groups: seq<string>) {
    || (user != "" && AssignmentRow(deployment, role, USER, user) in db.assignments)
    || (exists i | 0 <= i < |groups| :: AssignmentRow(deployment, role, GROUP, groups[i]) in db.assignments)
  }

  /** The requested permissions that are held through an assigned role. */
  ghost function Authorized(db: Grants, deployment: string, user: string, groups: seq<string>, requested: seq<string>)
    : set<string>
  {
    set row | row in db.permissions && row.deployment == deployment && row.permission in requested &&
              Assigned(db, deployment, row.role, user, groups) :: row.permission
  }

  /** A permission is authorized exactly when it is requested and some role of the deployment has it that is assigned to
      the user or to one of the groups. */
  lemma AuthorizedIff(db: Grants, deployment: string, user: string, groups: seq<string>, requested: seq<string>,
                      permission: string)
    ensures permission in Authorized(db, deployment, user, groups, requested) <==>
            permission in requested &&
            exists role :: PermissionRow(deployment, role, permission) in db.permissions &&
              ((user != "" && AssignmentRow(deployment, role, "user", user) in db.assignments) ||
               exists group | group in groups :: AssignmentRow(deployment, role, "group", group) in db.assignments)
  {
    forall role {:trigger Assigned(db, deployment, role, user, groups)}
      ensures Assigned(db, deployment, role, user, groups) <==>
              (user != "" && AssignmentRow(deployment, role, "user", user) in db.assignments) ||
              exists group | group in groups :: AssignmentRow(deployment, role, "group", group) in db.assignments
    {
    }
    if role :| PermissionRow(deployment, role, permission) in db.permissions && permission in requested &&
               Assigned(db, deployment, role, user, groups)
    {
      var row := PermissionRow(deployment, role, permission);
      assert row.deployment == deployment && row.permission in requested;
      assert Assigned(db, deployment, row.role, user, groups);
    }
  }

  // ---------------------------------------------------------------- queries

  datatype Condition<T> = UserIs(id: T) | GroupIn(ids: seq<T>)

  /** SELECT DISTINCT permission FROM permissions rp JOIN assignments ra ON same role AND rp.deployment = join0
      AND ra.deployment = join1 WHERE rp.deployment = filter AND (where OR ...) AND permission IN (permissions)
      ORDER BY permission. */
  datatype Query<T> = Query(join0: T, join1: T, filter: T, where: seq<Condition<T>>, permissions: seq<T>)

  predicate Satisfies(row: AssignmentRow, condition: Condition<string>) {
    match condition
    case UserIs(id) => row.assigneeType == USER && row.assigneeID == id
    case GroupIn(ids) => row.assigneeType == GROUP && row.assigneeID in ids
  }

  predicate SatisfiesAny(row: AssignmentRow, where: seq<Condition<string>>) {
    exists i | 0 <= i < |where| :: Satisfies(row, where[i])
  }

  predicate Joins(p: PermissionRow, a: AssignmentRow, q: Query<string>) {
    && p.role == a.role && p.deployment == q.join0 && a.deployment == q.join1
    && p.deployment == q.filter && SatisfiesAny(a, q.where) && p.permission in q.permissions
  }

  /** The rows a bound query selects; empty parentheses are a syntax error. */
  ghost function Evaluate(q: Query<string>, db: Grants): Option<set<string>> {
    if q.where == [] || q.permissions == [] then None
    else Some(set p, a | p in db.permissions && a in db.assignments && Joins(p, a, q) :: p.permission)
  }

  // ---------------------------------------------------------------- placeholders and their binding

  function Flatten<T>(where: seq<Condition<T>>): seq<T> {
    if where == [] then []
    else (match where[0] case UserIs(id) => [id] case GroupIn(ids) => ids) + Flatten(where[1..])
  }

  /** The placeholders of a query in the order of its text. */
  function Placeholders<T>(q: Query<T>): seq<T> {
    [q.join0, q.join1, q.filter] + Flatten(q.where) + q.permissions
  }

  function SqliteIndexes(q: Query<Placeholder>): (r: seq<nat>)
    ensures |r| == |Placeholders(q)|
  {
    ScanAll(Placeholders(q), Scan(map[], 0)).0
  }

  function SameShape(a: Condition<Placeholder>, b: Condition<string>): bool {
    match (a, b)
    case (UserIs(_), UserIs(_)) => true
    case (GroupIn(ps), GroupIn(ids)) => |ps| == |ids|
    case _ => false
  }

  function Width(condition: Condition<Placeholder>): nat {
    match condition case UserIs(_) => 1 case GroupIn(ps) => |ps|
  }

  /** `b` is `q` with every placeholder replaced. */
  predicate SameStructure(q: Query<Placeholder>, b: Query<string>) {
    && |q.where| == |b.where| && |q.permissions| == |b.permissions|
    && forall i | 0 <= i < |q.where| :: SameShape(q.where[i], b.where[i])
  }

  predicate PostgresBinds(q: Query<Placeholder>, args: seq<string>, b: Query<string>) {
    && SameStructure(q, b) && |Placeholders(q)| == |Placeholders(b)|
    && forall i | 0 <= i < |Placeholders(q)| :: BindPostgres(Placeholders(q)[i], args) == Some(Placeholders(b)[i])
  }

  predicate SqliteBinds(q: Query<Placeholder>, args: seq<string>, b: Query<string>) {
    && SameStructure(q, b) && |Placeholders(q)| == |Placeholders(b)|
    && forall i | 0 <= i < |Placeholders(q)| ::
         1 <= SqliteIndexes(q)[i] <= |args| && args[SqliteIndexes(q)[i] - 1] == Placeholders(b)[i]
  }

  // ---------------------------------------------------------------- what both forms should mean

  /** The query with the values in place. */
  function Intended(user: string, groups: seq<string>, requested: seq<string>, deployment: string): Query<string> {
    Query(deployment, deployment, deployment,
          (if user != "" then [UserIs(user)] else []) + (if groups != [] then [GroupIn(groups)] else []), requested)
  }

  /** The arguments in placeholder order, the deployment first and once. */
  function Arguments(user: string, groups: seq<string>, requested: seq<string>, deployment: string): seq<string> {
    [deployment] + (if user != "" then [user] else []) + groups + requested
  }

  function NumberedFrom(first: nat, count: nat): seq<Placeholder> {
    seq(count, i requires 0 <= i < count => Numbered(first + i))
  }

  function QuestionMarks(count: nat): seq<Placeholder> {
    seq(count, i requires 0 <= i < count => Positional)
  }

  function PostgresForm(user: string, groups: nat, requested: nat): Query<Placeholder> {
    var users := if user != "" then 1 else 0;
    Query(Numbered(1), Numbered(1), Numbered(1),
          (if user != "" then [UserIs(Numbered(2))] else []) +
          (if groups > 0 then [GroupIn(NumberedFrom(2 + users, groups))] else []),
          NumberedFrom(2 + users + groups, requested))
  }

  function SqliteForm(user: string, groups: nat, requested: nat): Query<Placeholder> {
    Query(Numbered(1), Numbered(1), Numbered(1),
          (if user != "" then [UserIs(Positional)] else []) +
          (if groups > 0 then [GroupIn(QuestionMarks(groups))] else []),
          QuestionMarks(requested))
  }

  lemma FlattenWhere<T>(hasUser: bool, user: T, hasGroups: bool, groups: seq<T>)
    ensures Flatten((if hasUser then [UserIs(user)] else []) + (if hasGroups then [GroupIn(groups)] else []))
            == (if hasUser then [user] else []) + (if hasGroups then groups else [])
  {
    var w: seq<Condition<T>> := if hasGroups then [GroupIn(groups)] else [];
    assert Flatten(w) == (if hasGroups then groups else []) by {
      if hasGroups {
        assert w[1..] == [];
        assert groups + [] == groups;
      }
    }
    if hasUser {
      assert ([UserIs(user)] + w)[1..] == w;
    } else {
      assert [] + w == w;
    }
  }

  /** The PostgreSQL form with its arguments is the intended query. */
  lemma PostgresMeansIntended(user: string, groups: seq<string>, requested: seq<string>, deployment: string)
    ensures PostgresBinds(PostgresForm(user, |groups|, |requested|), Arguments(user, groups, requested, deployment),
                          Intended(user, groups, requested, deployment))
  {
    var q, b := PostgresForm(user, |groups|, |requested|), Intended(user, groups, requested, deployment);
    var args := Arguments(user, groups, requested, deployment);
    PostgresPlaceholders(user, |groups|, |requested|);
    IntendedPlaceholders(user, groups, requested, deployment);
    var ps, values := Placeholders(q), Placeholders(b);
    assert |ps| == |values| == 2 + |args|;
    forall i | 0 <= i < |ps| ensures BindPostgres(ps[i], args) == Some(values[i]) {
      if i >= 2 {
        assert ps[i] == Numbered(1 + (i - 2)) && values[i] == args[i - 2];
      }
    }
  }

  lemma PostgresPlaceholders(user: string, groups: nat, requested: nat)
    ensures Placeholders(PostgresForm(user, groups, requested)) ==
            [Numbered(1), Numbered(1)] + NumberedFrom(1, 1 + (if user != "" then 1 else 0) + groups + requested)
  {
    var users := if user != "" then 1 else 0;
    FlattenWhere(user != "", Numbered(2), groups > 0, NumberedFrom(2 + users, groups));
  }

  lemma IntendedPlaceholders(user: string, groups: seq<string>, requested: seq<string>, deployment: string)
    ensures Placeholders(Intended(user, groups, requested, deployment)) ==
            [deployment, deployment] + Arguments(user, groups, requested, deployment)
  {
    FlattenWhere(user != "", user, |groups| > 0, groups);
  }

  /** A run of question marks takes consecutive numbers. */
  lemma {:induction false} QuestionMarksCount(count: nat, scan: Scan)
    ensures ScanAll(QuestionMarks(count), scan).0 == seq(count, i requires 0 <= i < count => scan.largest + 1 + i)
    decreases count
  {
    if count > 0 {
      assert QuestionMarks(count)[1..] == QuestionMarks(count - 1);
      QuestionMarksCount(count - 1, scan.(largest := scan.largest + 1));
    }
  }

  /** The SQLite form reads as: argument one three times, then the other arguments in order. */
  lemma SqliteFormIndexes(user: string, groups: nat, requested: nat)
    ensures var count := (if user != "" then 1 else 0) + groups + requested;
            && Placeholders(SqliteForm(user, groups, requested))
               == [Numbered(1), Numbered(1), Numbered(1)] + QuestionMarks(count)
            && SqliteIndexes(SqliteForm(user, groups, requested))
               == [1, 1, 1] + seq(count, i requires 0 <= i < count => 2 + i)
  {
    var count := (if user != "" then 1 else 0) + groups + requested;
    FlattenWhere(user != "", Positional, groups > 0, QuestionMarks(groups));
    var named := [Numbered(1), Numbered(1), Numbered(1)];
    assert Placeholders(SqliteForm(user, groups, requested)) == named + QuestionMarks(count);
    SharedNameIndexes(QuestionMarks(count));
    QuestionMarksCount(count, Scan(map[1 := 1], 1));
  }

  /** The name $1 is argument one each of the three times it leads the text. */
  lemma SharedNameIndexes(rest: seq<Placeholder>)
    ensures ScanAll([Numbered(1), Numbered(1), Numbered(1)] + rest, Scan(map[], 0)).0
            == [1, 1, 1] + ScanAll(rest, Scan(map[1 := 1], 1)).0
  {
    var named := Scan(map[1 := 1], 1);
    var three := [Numbered(1), Numbered(1), Numbered(1)] + rest;
    var two, one := [Numbered(1), Numbered(1)] + rest, [Numbered(1)] + rest;
    assert three[1..] == two && two[1..] == one && one[1..] == rest;
    assert ScanAll(one, named).0 == [1] + ScanAll(rest, named).0;
    assert ScanAll(two, named).0 == [1] + ScanAll(one, named).0;
    assert ScanAll(three, Scan(map[], 0)).0 == [1] + ScanAll(two, named).0;
  }

  /** The SQLite form with the same arguments is the intended query, too. */
  lemma SqliteMeansIntended(user: string, groups: seq<string>, requested: seq<string>, deployment: string)
    ensures SqliteBinds(SqliteForm(user, |groups|, |requested|), Arguments(user, groups, requested, deployment),
                        Intended(user, groups, requested, deployment))
  {
    var q, b := SqliteForm(user, |groups|, |requested|), Intended(user, groups, requested, deployment);
    var args := Arguments(user, groups, requested, deployment);
    SqliteFormIndexes(user, |groups|, |requested|);
    IntendedPlaceholders(user, groups, requested, deployment);
    var indexes, values := SqliteIndexes(q), Placeholders(b);
    assert |indexes| == |values| == 2 + |args|;
    forall i | 0 <= i < |indexes| ensures 1 <= indexes[i] <= |args| && args[indexes[i] - 1] == values[i] {
      if i >= 2 {
        assert indexes[i] == i - 1 && values[i] == args[i - 2];
      }
    }
  }

  /** The intended query selects exactly the authorized permissions. */
  lemma IntendedIsAuthorized(user: string, groups: seq<string>, requested: seq<string>, deployment: string, db: Grants)
    requires user != "" || groups != []
    requires requested != []
    ensures Evaluate(Intended(user, groups, requested, deployment), db)
            == Some(Authorized(db, deployment, user, groups, requested))
  {
    var q := Intended(user, groups, requested, deployment);
    assert q.where != [];
    var answer := Evaluate(q, db).value;
    var wanted := Authorized(db, deployment, user, groups, requested);
    forall x | x in answer ensures x in wanted {
      var p, a :| p in db.permissions && a in db.assignments && Joins(p, a, q) && p.permission == x;
      JoinMeansAssigned(user, groups, requested, deployment, db, p, a);
    }
    forall x | x in wanted ensures x in answer {
      var p :| p in db.permissions && p.deployment == deployment && p.permission in requested &&
               Assigned(db, deployment, p.role, user, groups) && p.permission == x;
      var a := AssignedGivesJoin(user, groups, requested, deployment, db, p);
      assert Joins(p, a, q);
    }
    assert answer == wanted;
  }

  lemma JoinMeansAssigned(user: string, groups: seq<string>, requested: seq<string>, deployment: string, db: Grants,
                          p: PermissionRow, a: AssignmentRow)
    requires p in db.permissions && a in db.assignments && Joins(p, a, Intended(user, groups, requested, deployment))
    ensures p.deployment == deployment && p.permission in requested && Assigned(db, deployment, p.role, user, groups)
  {
    var where := Intended(user, groups, requested, deployment).where;
    var i :| 0 <= i < |where| && Satisfies(a, where[i]);
    if where[i].UserIs? {
      assert a == AssignmentRow(deployment, p.role, USER, user);
    } else {
      var g :| 0 <= g < |groups| && groups[g] == a.assigneeID;
      assert a == AssignmentRow(deployment, p.role, GROUP, groups[g]);
    }
  }

  lemma AssignedGivesJoin(user: string, groups: seq<string>, requested: seq<string>, deployment: string, db: Grants,
                          p: PermissionRow) returns (a: AssignmentRow)
    requires p.deployment == deployment && p.permission in requested && Assigned(db, deployment, p.role, user, groups)
    ensures a in db.assignments && Joins(p, a, Intended(user, groups, requested, deployment))
  {
    var where := Intended(user, groups, requested, deployment).where;
    if user != "" && AssignmentRow(deployment, p.role, USER, user) in db.assignments {
      a := AssignmentRow(deployment, p.role, USER, user);
      assert Satisfies(a, where[0]);
    } else {
      var i :| 0 <= i < |groups| && AssignmentRow(deployment, p.role, GROUP, groups[i]) in db.assignments;
      a := AssignmentRow(deployment, p.role, GROUP, groups[i]);
      assert Satisfies(a, where[|where| - 1]);
    }
  }

  /** Both dialects agree with the reference answer, for every user, group list, request and database. */
  lemma BothDialectsAreAuthorized(user: string, groups: seq<string>, requested: seq<string>, deployment: string,
                                  db: Grants, pg: Query<string>, lite: Query<string>)
    requires user != "" || groups != []
    requires requested != []
    requires PostgresBinds(PostgresForm(user, |groups|, |requested|),
                           Arguments(user, groups, requested, deployment), pg)
    requires SqliteBinds(SqliteForm(user, |groups|, |requested|), Arguments(user, groups, requested, deployment), lite)
    ensures Evaluate(pg, db) == Evaluate(lite, db) == Some(Authorized(db, deployment, user, groups, requested))
  {
    var b := Intended(user, groups, requested, deployment);
    PostgresMeansIntended(user, groups, requested, deployment);
    SqliteMeansIntended(user, groups, requested, deployment);
    IntendedIsAuthorized(user, groups, requested, deployment, db);
    PlaceholdersDetermine(PostgresForm(user, |groups|, |requested|), pg, b);
    PlaceholdersDetermine(SqliteForm(user, |groups|, |requested|), lite, b);
  }

  /** Two bound queries of one structure with the same values are the same query. */
  lemma PlaceholdersDetermine(q: Query<Placeholder>, a: Query<string>, b: Query<string>)
    requires SameStructure(q, a) && SameStructure(q, b) && Placeholders(a) == Placeholders(b)
    ensures a == b
  {
    FlattenLength(q.where, a.where);
    FlattenLength(q.where, b.where);
    assert Placeholders(a)[0] == a.join0 && Placeholders(b)[0] == b.join0;
    assert Placeholders(a)[1] == a.join1 && Placeholders(b)[1] == b.join1;
    assert Placeholders(a)[2] == a.filter && Placeholders(b)[2] == b.filter;
    var n := |Flatten(q.where)|;
    assert Placeholders(a)[3..3 + n] == Flatten(a.where) && Placeholders(b)[3..3 + n] == Flatten(b.where);
    assert Placeholders(a)[3 + n..] == a.permissions && Placeholders(b)[3 + n..] == b.permissions;
    FlattenDetermines(q.where, a.where, b.where);
  }

  lemma {:induction false} FlattenLength(where: seq<Condition<Placeholder>>, a: seq<Condition<string>>)
    requires |where| == |a| && forall i | 0 <= i < |where| :: SameShape(where[i], a[i])
    ensures |Flatten(where)| == |Flatten(a)|
  {
    if where != [] {
      assert SameShape(where[0], a[0]);
      FlattenLength(where[1..], a[1..]);
    }
  }

  lemma {:induction false} FlattenDetermines(where: seq<Condition<Placeholder>>, a: seq<Condition<string>>,
                                             b: seq<Condition<string>>)
    requires |where| == |a| == |b|
    requires forall i | 0 <= i < |where| :: SameShape(where[i], a[i]) && SameShape(where[i], b[i])
    requires Flatten(a) == Flatten(b)
    ensures a == b
  {
    if where != [] {
      assert SameShape(where[0], a[0]) && SameShape(where[0], b[0]);
      var n := Width(where[0]);
      assert Flatten(a)[..n] == Flatten(b)[..n] && Flatten(a)[n..] == Flatten(b)[n..];
      assert Flatten(a)[n..] == Flatten(a[1..]) && Flatten(b)[n..] == Flatten(b[1..]);
      FlattenDetermines(where[1..], a[1..], b[1..]);
      match a[0] {
        case UserIs(id) => assert Flatten(a)[..n] == [id] && Flatten(b)[..n] == [b[0].id];
        case GroupIn(ids) => assert Flatten(a)[..n] == ids && Flatten(b)[..n] == b[0].ids;
      }
      assert a == [a[0]] + a[1..] && b == [b[0]] + b[1..];
    }
  }

  // ---------------------------------------------------------------- binding a statement to its arguments

  /** The argument each placeholder of the text reads, counted from one; zero for none. */
  function PostgresIndexes(q: Query<Placeholder>): (r: seq<nat>)
    ensures |r| == |Placeholders(q)|
  {
    var ps := Placeholders(q);
    seq(|ps|, i requires 0 <= i < |ps| => if ps[i].Numbered? then ps[i].n else 0)
  }

  function FillOne(condition: Condition<Placeholder>, values: seq<string>): Condition<string>
    requires |values| == Width(condition)
  {
    match condition case UserIs(_) => UserIs(values[0]) case GroupIn(_) => GroupIn(values)
  }

  function FillWhere(where: seq<Condition<Placeholder>>, values: seq<string>): (r: seq<Condition<string>>)
    requires |Flatten(where)| == |values|
    ensures |r| == |where| && forall i | 0 <= i < |where| :: SameShape(where[i], r[i])
  {
    if where == [] then []
    else
      var n := Width(where[0]);
      [FillOne(where[0], values[..n])] + FillWhere(where[1..], values[n..])
  }

  /** The statement with its placeholders replaced from the left. */
  function Fill(q: Query<Placeholder>, values: seq<string>): Query<string>
    requires |values| == |Placeholders(q)|
  {
    var n := |Flatten(q.where)|;
    Query(values[0], values[1], values[2], FillWhere(q.where, values[3..3 + n]), values[3 + n..])
  }

  lemma {:induction false} FillWhereReadsBack(where: seq<Condition<Placeholder>>, values: seq<string>)
    requires |Flatten(where)| == |values|
    ensures Flatten(FillWhere(where, values)) == values
  {
    if where != [] {
      var n := Width(where[0]);
      FillWhereReadsBack(where[1..], values[n..]);
      var filled := FillWhere(where, values);
      assert filled[1..] == FillWhere(where[1..], values[n..]);
      assert Flatten(filled) == values[..n] + values[n..];
    }
  }

  /** A filled statement has the structure it had and the values it was given, in order. */
  lemma FillReadsBack(q: Query<Placeholder>, values: seq<string>)
    requires |values| == |Placeholders(q)|
    ensures SameStructure(q, Fill(q, values)) && Placeholders(Fill(q, values)) == values
  {
    var n := |Flatten(q.where)|;
    FillWhereReadsBack(q.where, values[3..3 + n]);
  }

  // ---------------------------------------------------------------- the builder

  method BuildAuthorizedPermissionsQuery(user: string, groups: seq<string>, requested: seq<string>, deployment: string)
    returns (postgres: Query<Placeholder>, sqlite: Query<Placeholder>, args: seq<string>)
    ensures postgres == PostgresForm(user, |groups|, |requested|)
    ensures sqlite == SqliteForm(user, |groups|, |requested|)
    ensures args == Arguments(user, groups, requested, deployment)
    ensures PostgresBinds(postgres, args, Intended(user, groups, requested, deployment))
    ensures SqliteBinds(sqlite, args, Intended(user, groups, requested, deployment))
  {
    hide PostgresBinds, SqliteBinds, Placeholders, Intended;
    var postgresWhere: seq<Condition<Placeholder>> := [];
    var sqliteWhere: seq<Condition<Placeholder>> := [];
    args := [deployment];
    var paramIndex := 2;
    if user != "" {
      postgresWhere := postgresWhere + [UserIs(Numbered(paramIndex))];
      sqliteWhere := sqliteWhere + [UserIs(Positional)];
      args := args + [user];
      paramIndex := paramIndex + 1;
    }
    if |groups| > 0 {
      ghost var head := args;
      var groupsPostgres, groupsSqlite := [], [];
      for i := 0 to |groups|
        invariant groupsPostgres == NumberedFrom(paramIndex, i) && groupsSqlite == QuestionMarks(i)
        invariant args == head + groups[..i]
      {
        groupsPostgres := groupsPostgres + [Numbered(paramIndex + i)];
        groupsSqlite := groupsSqlite + [Positional];
        args := args + [groups[i]];
      }
      postgresWhere := postgresWhere + [GroupIn(groupsPostgres)];
      sqliteWhere := sqliteWhere + [GroupIn(groupsSqlite)];
      paramIndex := paramIndex + |groups|;
      assert groups[..|groups|] == groups;
    }
    ghost var front := args;
    assert front == [deployment] + (if user != "" then [user] else []) + groups;
    var permsPostgres, permsSqlite := [], [];
    for i := 0 to |requested|
      invariant permsPostgres == NumberedFrom(paramIndex, i) && permsSqlite == QuestionMarks(i)
      invariant args == front + requested[..i]
    {
      permsPostgres := permsPostgres + [Numbered(paramIndex + i)];
      permsSqlite := permsSqlite + [Positional];
      args := args + [requested[i]];
    }
    assert requested[..|requested|] == requested;
    postgres := Query(Numbered(1), Numbered(1), Numbered(1), postgresWhere, permsPostgres);
    sqlite := Query(Numbered(1), Numbered(1), Numbered(1), sqliteWhere, permsSqlite);
    PostgresMeansIntended(user, groups, requested, deployment);
    SqliteMeansIntended(user, groups, requested, deployment);
  }
}
