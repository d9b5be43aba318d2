/** Resource servers, the resource tree below each of them, the actions hung on either, and the
    permission strings derived from the tree. */
module ResourcePermissions {
  import opened Prelude
  import opened Text

  type Id = string

  datatype Server = Server(name: string, ouID: string, identifier: string, delimiter: string)

  datatype Resource = Resource(server: Id, parent: Option<Id>, name: string, handle: string, permission: string)

  /** An action sits on a server (no resource) or on one of the server's resources. */
  datatype Action = Action(server: Id, resource: Option<Id>, name: string, handle: string, permission: string)

  datatype Tables = Tables(servers: map<Id, Server>, resources: map<Id, Resource>, actions: map<Id, Action>)

  const MAX_HANDLE := 100

  // ---------------------------------------------------------------- validation and derivation

  predicate IsDelimiterCharacter(c: char) {
    c == '.' || c == '_' || c == ':' || c == '-' || c == '/'
  }

  predicate IsPermissionCharacter(c: char) {
    'a' <= c <= 'z' || 'A' <= c <= 'Z' || '0' <= c <= '9' || IsDelimiterCharacter(c)
  }

  predicate ValidDelimiter(delimiter: string) {
    |delimiter| == 1 && IsDelimiterCharacter(delimiter[0])
  }

  predicate ValidHandle(handle: string, delimiter: string) {
    && 0 < |handle| <= MAX_HANDLE
    && (forall i | 0 <= i < |handle| :: IsPermissionCharacter(handle[i]) && [handle[i]] != delimiter)
  }

  function DerivePermission(delimiter: string, parentPermission: Option<string>, handle: string): string {
    if parentPermission.Some? then parentPermission.value + delimiter + handle else handle
  }

  // ---------------------------------------------------------------- the invariant

  /** The row's server exists and its parent resource, if any, is a stored resource of the same server. */
  predicate Hangs(t: Tables, server: Id, parent: Option<Id>) {
    && server in t.servers
    && (parent.Some? ==> parent.value in t.resources && t.resources[parent.value].server == server)
  }

  function ParentPermission(t: Tables, parent: Option<Id>): Option<string>
    requires parent.Some? ==> parent.value in t.resources
  {
    if parent.Some? then Some(t.resources[parent.value].permission) else None
  }

  /** A row's permission is what its place in the tree derives. */
  predicate Derived(t: Tables, server: Id, parent: Option<Id>, handle: string, permission: string)
    requires Hangs(t, server, parent)
  {
    var delimiter := t.servers[server].delimiter;
    ValidHandle(handle, delimiter) && permission == DerivePermission(delimiter, ParentPermission(t, parent), handle)
  }

  ghost predicate ServersValid(t: Tables) {
    && (forall s :: s in t.servers ==> ValidDelimiter(t.servers[s].delimiter))
    && (forall s, u :: s in t.servers && u in t.servers && s != u ==>
                         t.servers[s].name != t.servers[u].name &&
                         (t.servers[s].identifier != "" ==> t.servers[s].identifier != t.servers[u].identifier))
  }

  /** The row's server and parent exist and its handle and permission fit them. */
  predicate RowFits(t: Tables, server: Id, parent: Option<Id>, handle: string, permission: string) {
    Hangs(t, server, parent) && Derived(t, server, parent, handle, permission)
  }

  predicate ResourceFits(t: Tables, row: Resource) {
    RowFits(t, row.server, row.parent, row.handle, row.permission)
  }

  predicate ActionFits(t: Tables, row: Action) {
    RowFits(t, row.server, row.resource, row.handle, row.permission)
  }

  ghost predicate ResourcesHang(t: Tables) {
    forall r :: r in t.resources ==> ResourceFits(t, t.resources[r])
  }

  ghost predicate ActionsHang(t: Tables) {
    forall a :: a in t.actions ==> ActionFits(t, t.actions[a])
  }

  ghost predicate ResourceHandlesDiffer(t: Tables) {
    forall r, q :: r in t.resources && q in t.resources && r != q &&
                   t.resources[r].server == t.resources[q].server && t.resources[r].parent == t.resources[q].parent
                   ==> t.resources[r].handle != t.resources[q].handle
  }

  ghost predicate ActionHandlesDiffer(t: Tables) {
    forall a, b :: a in t.actions && b in t.actions && a != b &&
                   t.actions[a].server == t.actions[b].server && t.actions[a].resource == t.actions[b].resource
                   ==> t.actions[a].handle != t.actions[b].handle
  }

  ghost predicate Inv(t: Tables) {
    && ServersValid(t)
    && ResourcesHang(t)
    && ActionsHang(t)
    && ResourceHandlesDiffer(t)
    && ActionHandlesDiffer(t)
  }

  // ---------------------------------------------------------------- permissions print handle paths

  /** The handles from the root of the tree down to resource `r`. */
  ghost function HandlesOf(t: Tables, r: Id): (handles: seq<string>)
    requires ResourcesHang(t) && r in t.resources
    ensures handles != []
    decreases |t.resources[r].permission|
  {
    var row := t.resources[r];
    assert ResourceFits(t, row);
    HandlesAbove(t, row.parent, |row.permission|) + [row.handle]
  }

  ghost function HandlesAbove(t: Tables, parent: Option<Id>, bound: nat): seq<string>
    requires ResourcesHang(t)
    requires parent.Some? ==> parent.value in t.resources && |t.resources[parent.value].permission| < bound
    decreases bound, 0
  {
    if parent.None? then [] else HandlesOf(t, parent.value)
  }

  ghost function Path(t: Tables, parent: Option<Id>, handle: string): seq<string>
    requires ResourcesHang(t)
    requires parent.Some? ==> parent.value in t.resources
  {
    (if parent.None? then [] else HandlesOf(t, parent.value)) + [handle]
  }

  ghost function Delimiter(t: Tables, server: Id): (d: char)
    requires ServersValid(t) && server in t.servers
    ensures t.servers[server].delimiter == [d]
  {
    assert ValidDelimiter(t.servers[server].delimiter);
    t.servers[server].delimiter[0]
  }

  lemma {:induction false} HandlesAreClean(t: Tables, r: Id)
    requires ServersValid(t) && ResourcesHang(t) && r in t.resources
    ensures ResourceFits(t, t.resources[r])
    ensures SepFree(HandlesOf(t, r), Delimiter(t, t.resources[r].server))
    ensures forall i | 0 <= i < |HandlesOf(t, r)| :: 0 < |HandlesOf(t, r)[i]| <= MAX_HANDLE
    decreases |t.resources[r].permission|
  {
    var row := t.resources[r];
    assert ResourceFits(t, row);
    if row.parent.Some? {
      HandlesAreClean(t, row.parent.value);
    }
  }

  /** A stored permission is the delimiter-join of the handles from the root down. */
  lemma {:induction false} PermissionIsJoin(t: Tables, r: Id)
    requires ServersValid(t) && ResourcesHang(t) && r in t.resources
    ensures ResourceFits(t, t.resources[r])
    ensures t.resources[r].permission == Join(HandlesOf(t, r), Delimiter(t, t.resources[r].server))
    decreases |t.resources[r].permission|
  {
    var row := t.resources[r];
    assert ResourceFits(t, row);
    if row.parent.Some? {
      PermissionIsJoin(t, row.parent.value);
      JoinSnoc(HandlesOf(t, row.parent.value), row.handle, Delimiter(t, row.server));
    }
  }

  /** ... and splitting it recovers that path. */
  lemma PermissionSplits(t: Tables, r: Id)
    requires ServersValid(t) && ResourcesHang(t) && r in t.resources
    ensures ResourceFits(t, t.resources[r])
    ensures Split(t.resources[r].permission, Delimiter(t, t.resources[r].server)) == HandlesOf(t, r)
  {
    PermissionIsJoin(t, r);
    HandlesAreClean(t, r);
    SplitJoin(HandlesOf(t, r), Delimiter(t, t.resources[r].server));
  }

  /** The same for any row that hangs below `parent`: resources and actions alike. */
  lemma DerivedSplits(t: Tables, server: Id, parent: Option<Id>, handle: string, permission: string)
    requires ServersValid(t) && ResourcesHang(t) && Hangs(t, server, parent)
    requires Derived(t, server, parent, handle, permission)
    ensures Split(permission, Delimiter(t, server)) == Path(t, parent, handle)
  {
    var d := Delimiter(t, server);
    assert d !in handle by {
      assert forall i | 0 <= i < |handle| :: [handle[i]] != [d];
    }
    SplitSepFree(handle, d);
    if parent.Some? {
      PermissionSplits(t, parent.value);
      SplitAtSep(t.resources[parent.value].permission, handle, d);
      assert permission == t.resources[parent.value].permission + [d] + handle;
    }
  }

  /** Resources of one server with the same handle path are the same resource. */
  lemma {:induction false} HandlesAreInjective(t: Tables, r: Id, q: Id)
    requires ResourcesHang(t) && ResourceHandlesDiffer(t) && r in t.resources && q in t.resources
    requires t.resources[r].server == t.resources[q].server && HandlesOf(t, r) == HandlesOf(t, q)
    ensures r == q
    decreases |t.resources[r].permission|
  {
    var x, y := t.resources[r], t.resources[q];
    assert ResourceFits(t, x);
    assert ResourceFits(t, y);
    var above, beside := Path(t, x.parent, x.handle), Path(t, y.parent, y.handle);
    assert above == HandlesOf(t, r) && beside == HandlesOf(t, q);
    assert above[|above| - 1] == x.handle && beside[|beside| - 1] == y.handle;
    assert above[..|above| - 1] == beside[..|beside| - 1];
    if x.parent.Some? && y.parent.Some? {
      HandlesAreInjective(t, x.parent.value, y.parent.value);
    }
  }

  /** Two rows of one server with the same permission hang at the same place with the same handle.
      For two resources, and for two actions, that makes them one row. */
  lemma SamePermissionSamePlace(t: Tables, server: Id, parent: Option<Id>, handle: string,
                                parent': Option<Id>, handle': string, permission: string)
    requires Inv(t) && Hangs(t, server, parent) && Hangs(t, server, parent')
    requires Derived(t, server, parent, handle, permission) && Derived(t, server, parent', handle', permission)
    ensures parent == parent' && handle == handle'
  {
    DerivedSplits(t, server, parent, handle, permission);
    DerivedSplits(t, server, parent', handle', permission);
    var a, b := Path(t, parent, handle), Path(t, parent', handle');
    assert a[|a| - 1] == handle && b[|b| - 1] == handle';
    assert a[..|a| - 1] == b[..|b| - 1];
    if parent.Some? && parent'.Some? {
      HandlesAreInjective(t, parent.value, parent'.value);
    }
  }

  lemma ResourcePermissionsAreInjective(t: Tables, r: Id, q: Id)
    requires Inv(t) && r in t.resources && q in t.resources
    requires t.resources[r].server == t.resources[q].server
    requires t.resources[r].permission == t.resources[q].permission
    ensures r == q
  {
    var x, y := t.resources[r], t.resources[q];
    assert ResourceFits(t, x) && ResourceFits(t, y);
    SamePermissionSamePlace(t, x.server, x.parent, x.handle, y.parent, y.handle, x.permission);
  }

  lemma ActionPermissionsAreInjective(t: Tables, a: Id, b: Id)
    requires Inv(t) && a in t.actions && b in t.actions
    requires t.actions[a].server == t.actions[b].server
    requires t.actions[a].permission == t.actions[b].permission
    ensures a == b
  {
    var x, y := t.actions[a], t.actions[b];
    assert ActionFits(t, x) && ActionFits(t, y);
    SamePermissionSamePlace(t, x.server, x.resource, x.handle, y.resource, y.handle, x.permission);
  }

  /** Resources and actions share one permission space without a common uniqueness check: a resource and
      an action of one server carry the same permission exactly when they hang at the same place under
      the same handle. */
  lemma ResourceActionCollisionIff(t: Tables, r: Id, a: Id)
    requires Inv(t) && r in t.resources && a in t.actions
    requires t.resources[r].server == t.actions[a].server
    ensures t.resources[r].permission == t.actions[a].permission <==>
            t.resources[r].parent == t.actions[a].resource && t.resources[r].handle == t.actions[a].handle
  {
    var x, y := t.resources[r], t.actions[a];
    assert ResourceFits(t, x) && ActionFits(t, y);
    if x.permission == y.permission {
      SamePermissionSamePlace(t, x.server, x.parent, x.handle, y.resource, y.handle, x.permission);
    }
  }

  // ---------------------------------------------------------------- prefix order is tree order

  /** `a` is a strict ancestor of `b`. */
  ghost predicate StrictAncestor(t: Tables, a: Id, b: Id)
    requires ResourcesHang(t) && b in t.resources
    decreases |t.resources[b].permission|
  {
    var row := t.resources[b];
    assert ResourceFits(t, row);
    row.parent.Some? && (row.parent.value == a || StrictAncestor(t, a, row.parent.value))
  }

  /** Every proper non-empty prefix of a handle path is the path of a strict ancestor. */
  lemma {:induction false} PrefixIsAncestor(t: Tables, b: Id, n: nat) returns (c: Id)
    requires ResourcesHang(t) && b in t.resources && 0 < n < |HandlesOf(t, b)|
    ensures c in t.resources && t.resources[c].server == t.resources[b].server
    ensures StrictAncestor(t, c, b) && HandlesOf(t, c) == HandlesOf(t, b)[..n]
    decreases |t.resources[b].permission|
  {
    var row := t.resources[b];
    assert ResourceFits(t, row);
    var p := row.parent.value;
    if n == |HandlesOf(t, p)| {
      c := p;
      assert HandlesOf(t, b)[..n] == HandlesOf(t, p);
    } else {
      c := PrefixIsAncestor(t, p, n);
      assert HandlesOf(t, b)[..n] == HandlesOf(t, p)[..n];
    }
  }

  lemma {:induction false} AncestorPermissionIsPrefix(t: Tables, a: Id, b: Id)
    requires ServersValid(t) && ResourcesHang(t) && a in t.resources && b in t.resources && StrictAncestor(t, a, b)
    ensures ResourceFits(t, t.resources[b])
    ensures t.resources[a].server == t.resources[b].server
    ensures t.resources[a].permission + [Delimiter(t, t.resources[b].server)] <= t.resources[b].permission
    decreases |t.resources[b].permission|
  {
    var row := t.resources[b];
    assert ResourceFits(t, row);
    if row.parent.value != a {
      AncestorPermissionIsPrefix(t, a, row.parent.value);
    }
  }

  /** Within a server, one resource's permission followed by the delimiter is a prefix of another's
      permission exactly when the first is a strict ancestor of the second. */
  lemma PrefixOrderIsTreeOrder(t: Tables, a: Id, b: Id)
    requires Inv(t) && a in t.resources && b in t.resources && t.resources[a].server == t.resources[b].server
    ensures ResourceFits(t, t.resources[b])
    ensures t.resources[a].permission + [Delimiter(t, t.resources[b].server)] <= t.resources[b].permission
            <==> StrictAncestor(t, a, b)
  {
    PermissionSplits(t, a);
    PermissionSplits(t, b);
    var d := Delimiter(t, t.resources[b].server);
    var front, whole := t.resources[a].permission, t.resources[b].permission;
    if StrictAncestor(t, a, b) {
      AncestorPermissionIsPrefix(t, a, b);
    } else if front + [d] <= whole {
      var rest := whole[|front| + 1..];
      assert whole == front + [d] + rest;
      SplitAtSep(front, rest, d);
      var n := |HandlesOf(t, a)|;
      assert HandlesOf(t, b)[..n] == HandlesOf(t, a);
      var c := PrefixIsAncestor(t, b, n);
      HandlesAreInjective(t, a, c);
      assert false;
    }
  }

  /** A resource at depth n has a permission of at most 101 * n - 1 characters. */
  lemma {:induction false} PermissionLength(t: Tables, r: Id)
    requires ServersValid(t) && ResourcesHang(t) && r in t.resources
    ensures |t.resources[r].permission| <= (MAX_HANDLE + 1) * |HandlesOf(t, r)| - 1
    decreases |t.resources[r].permission|
  {
    var row := t.resources[r];
    assert ResourceFits(t, row);
    if row.parent.Some? {
      PermissionLength(t, row.parent.value);
    }
  }
}
