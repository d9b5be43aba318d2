/** The organization-unit table and its parent pointers: ancestors, the forest invariant, and what
    re-parenting one row does to it. */
module OrganizationUnits {
  import opened Prelude
  import opened Text

  type OuId = string

  /** A row of ORGANIZATION_UNIT without its key; a create or update request has the same fields. */
  datatype OrganizationUnit = OrganizationUnit(handle: string, name: string, description: string, parent: Option<OuId>)

  type OuTable = map<OuId, OrganizationUnit>

  // ---------------------------------------------------------------- ancestors

  /** The k-th ancestor of `id` (its parent for k == 1); None once the chain has left the table. */
  ghost function Up(t: OuTable, id: OuId, k: nat): Option<OuId>
    decreases k
  {
    if k == 0 then Some(id)
    else if id !in t || t[id].parent.None? then None
    else Up(t, t[id].parent.value, k - 1)
  }

  ghost predicate AncestorOrSelf(t: OuTable, a: OuId, b: OuId) {
    exists k: nat :: Up(t, b, k) == Some(a)
  }

  /** No unit is its own proper ancestor. */
  ghost predicate Acyclic(t: OuTable) {
    forall id: OuId, k: nat :: k > 0 ==> Up(t, id, k) != Some(id)
  }

  ghost predicate ParentsExist(t: OuTable) {
    forall id :: id in t && t[id].parent.Some? ==> t[id].parent.value in t
  }

  lemma {:induction false} UpAdd(t: OuTable, id: OuId, j: nat, k: nat)
    ensures Up(t, id, j).None? ==> Up(t, id, j + k).None?
    ensures Up(t, id, j).Some? ==> Up(t, id, j + k) == Up(t, Up(t, id, j).value, k)
    decreases j
  {
    if j > 0 && id in t && t[id].parent.Some? {
      UpAdd(t, t[id].parent.value, j - 1, k);
    }
  }

  lemma {:induction false} UpStaysInside(t: OuTable, id: OuId, k: nat)
    requires ParentsExist(t) && id in t
    ensures Up(t, id, k).Some? ==> Up(t, id, k).value in t
    decreases k
  {
    if k > 0 && t[id].parent.Some? {
      UpStaysInside(t, t[id].parent.value, k - 1);
    }
  }

  // ---------------------------------------------------------------- the walks terminate

  /** The units a walk has passed after k steps. */
  ghost function Passed(t: OuTable, id: OuId, k: nat): set<OuId>
    requires forall j: nat | j < k :: Up(t, id, j).Some?
  {
    if k == 0 then {} else Passed(t, id, k - 1) + {Up(t, id, k - 1).value}
  }

  ghost predicate PassedWithin(t: OuTable, id: OuId, k: nat, x: OuId) {
    exists j: nat :: j < k && Up(t, id, j) == Some(x)
  }

  lemma {:induction false} PassedAreDistinct(t: OuTable, id: OuId, k: nat)
    requires Acyclic(t)
    requires forall j: nat | j < k :: Up(t, id, j).Some? && Up(t, id, j).value in t
    ensures forall x | x in Passed(t, id, k) :: PassedWithin(t, id, k, x)
    ensures Passed(t, id, k) <= t.Keys
    ensures |Passed(t, id, k)| == k
  {
    if k > 0 {
      PassedAreDistinct(t, id, k - 1);
      var last := Up(t, id, k - 1).value;
      if last in Passed(t, id, k - 1) {
        var j: nat :| j < k - 1 && Up(t, id, j) == Some(last);
        UpAdd(t, id, j, k - 1 - j);
        assert false;
      }
      forall x | x in Passed(t, id, k) ensures PassedWithin(t, id, k, x) {
        if x != last {
          assert PassedWithin(t, id, k - 1, x);
        }
      }
    }
  }

  /** The walk measure: a walk over an acyclic table passes at most |t| units. */
  lemma WalkBound(t: OuTable, id: OuId, k: nat)
    requires Acyclic(t)
    requires forall j: nat | j < k :: Up(t, id, j).Some? && Up(t, id, j).value in t
    ensures k <= |t|
  {
    PassedAreDistinct(t, id, k);
    SubsetSize(Passed(t, id, k), t.Keys);
  }

  /** Every chain of an acyclic, closed table ends within |t| steps. */
  lemma WalkEnds(t: OuTable, id: OuId)
    requires Acyclic(t) && ParentsExist(t) && id in t
    ensures Up(t, id, |t| + 1).None?
  {
    if Up(t, id, |t| + 1).Some? {
      forall j: nat | j < |t| + 1 ensures Up(t, id, j).Some? && Up(t, id, j).value in t {
        UpAdd(t, id, j, |t| + 1 - j);
        UpStaysInside(t, id, j);
      }
      WalkBound(t, id, |t| + 1);
      assert false;
    }
  }

  /** The first k units of the walk from `start` are stored, and none of them is `target`. */
  ghost predicate WalkedPast(t: OuTable, start: OuId, k: nat, target: OuId) {
    forall j: nat | j < k :: Up(t, start, j).Some? && Up(t, start, j).value in t && Up(t, start, j).value != target
  }

  lemma WalkStep(t: OuTable, start: OuId, k: nat, target: OuId, current: OuId)
    requires Acyclic(t) && WalkedPast(t, start, k, target)
    requires Up(t, start, k) == Some(current) && current in t && current != target
    ensures WalkedPast(t, start, k + 1, target)
    ensures Up(t, start, k + 1) == t[current].parent
    ensures k + 1 <= |t|
  {
    UpAdd(t, start, k, 1);
    assert Up(t, current, 1) == t[current].parent;
    WalkBound(t, start, k + 1);
  }

  /** A walk that left the table without meeting `target` has shown that `target` is no ancestor. */
  lemma WalkExhausted(t: OuTable, start: OuId, k: nat, target: OuId)
    requires WalkedPast(t, start, k, target)
    requires Up(t, start, k).None? || (Up(t, start, k).value !in t && Up(t, start, k).value != target)
    ensures !AncestorOrSelf(t, target, start)
  {
    if AncestorOrSelf(t, target, start) {
      var j: nat :| Up(t, start, j) == Some(target);
      if j > k {
        WalkStaysOutside(t, start, k, j - k);
      }
      assert false;
    }
  }

  /** In a closed table a walk over stored rows can only miss the row it starts from. */
  lemma OnlyTheStartIsMissing(t: OuTable, start: OuId, k: nat, target: OuId)
    requires ParentsExist(t) && WalkedPast(t, start, k, target)
    requires Up(t, start, k).Some? && Up(t, start, k).value !in t
    ensures k == 0 && start !in t
  {
    if k > 0 {
      UpAdd(t, start, k - 1, 1);
    }
  }

  lemma WalkStaysOutside(t: OuTable, start: OuId, k: nat, more: nat)
    requires Up(t, start, k).None? || Up(t, start, k).value !in t
    requires more > 0
    ensures Up(t, start, k + more).None?
  {
    UpAdd(t, start, k, more);
  }

  // ---------------------------------------------------------------- the ancestor order

  lemma AncestorTransitive(t: OuTable, a: OuId, b: OuId, c: OuId)
    requires AncestorOrSelf(t, a, b) && AncestorOrSelf(t, b, c)
    ensures AncestorOrSelf(t, a, c)
  {
    var j: nat :| Up(t, c, j) == Some(b);
    var k: nat :| Up(t, b, k) == Some(a);
    UpAdd(t, c, j, k);
    assert Up(t, c, j + k) == Some(a);
  }

  /** The ancestor-or-self relation of an acyclic table is a partial order ... */
  lemma AncestorOrder(t: OuTable, a: OuId, b: OuId, c: OuId)
    requires Acyclic(t)
    ensures AncestorOrSelf(t, a, a)
    ensures AncestorOrSelf(t, a, b) && AncestorOrSelf(t, b, a) ==> a == b
    ensures AncestorOrSelf(t, a, b) && AncestorOrSelf(t, b, c) ==> AncestorOrSelf(t, a, c)
  {
    assert Up(t, a, 0) == Some(a);
    if AncestorOrSelf(t, a, b) && AncestorOrSelf(t, b, a) {
      var j: nat :| Up(t, b, j) == Some(a);
      var k: nat :| Up(t, a, k) == Some(b);
      UpAdd(t, b, j, k);
      assert Up(t, b, j + k) == Some(b);
    }
    if AncestorOrSelf(t, a, b) && AncestorOrSelf(t, b, c) {
      AncestorTransitive(t, a, b, c);
    }
  }

  /** ... in which the ancestors of one unit form a chain. */
  lemma AncestorsFormAChain(t: OuTable, a: OuId, b: OuId, c: OuId)
    requires AncestorOrSelf(t, a, c) && AncestorOrSelf(t, b, c)
    ensures AncestorOrSelf(t, a, b) || AncestorOrSelf(t, b, a)
  {
    var j: nat :| Up(t, c, j) == Some(a);
    var k: nat :| Up(t, c, k) == Some(b);
    if j <= k {
      UpAdd(t, c, j, k - j);
      assert Up(t, a, k - j) == Some(b);
    } else {
      UpAdd(t, c, k, j - k);
      assert Up(t, b, j - k) == Some(a);
    }
  }

  // ---------------------------------------------------------------- re-parenting one row

  /** A chain that has not reached `id` does not notice a change of the row `id`. */
  lemma {:induction false} ChainAvoids(t: OuTable, u: OuTable, id: OuId, x: OuId, k: nat)
    requires t - {id} == u - {id}
    requires forall j: nat | j < k :: Up(t, x, j) != Some(id)
    ensures Up(u, x, k) == Up(t, x, k)
    decreases k
  {
    if k > 0 {
      assert Up(t, x, 0) == Some(x);
      assert x in t <==> x in t - {id};
      assert x in u <==> x in u - {id};
      if x in t && t[x].parent.Some? {
        assert (t - {id})[x] == (u - {id})[x];
        var p := t[x].parent.value;
        forall j: nat | j < k - 1 ensures Up(t, p, j) != Some(id) {
          assert Up(t, x, j + 1) == Up(t, p, j);
        }
        ChainAvoids(t, u, id, p, k - 1);
      } else if x in t {
        assert (t - {id})[x] == (u - {id})[x];
      }
    }
  }

  /** Whether a chain reaches `id` does not depend on the row `id` itself. */
  lemma {:induction false} ReachingIgnoresTarget(t: OuTable, u: OuTable, id: OuId, x: OuId, k: nat)
    requires t - {id} == u - {id}
    requires Up(t, x, k) == Some(id)
    ensures AncestorOrSelf(u, id, x)
  {
    if j: nat :| j < k && Up(t, x, j) == Some(id) {
      ReachingIgnoresTarget(t, u, id, x, j);
    } else {
      ChainAvoids(t, u, id, x, k);
    }
  }

  /** Re-parenting `id` under `p` keeps the table acyclic exactly when `id` is not already an
      ancestor of `p` (or `p` itself): the ancestor walk is both sound and necessary. */
  lemma ReparentAcyclicIff(t: OuTable, id: OuId, row: OrganizationUnit)
    requires Acyclic(t)
    ensures Acyclic(t[id := row]) <==> (row.parent.None? || !AncestorOrSelf(t, id, row.parent.value))
  {
    var u := t[id := row];
    assert t - {id} == u - {id};
    if row.parent.Some? && AncestorOrSelf(t, id, row.parent.value) {
      var p := row.parent.value;
      var k: nat :| Up(t, p, k) == Some(id);
      ReachingIgnoresTarget(t, u, id, p, k);
      var m: nat :| Up(u, p, m) == Some(id);
      assert Up(u, id, m + 1) == Some(id);
    } else {
      forall x: OuId, k: nat | k > 0 ensures Up(u, x, k) != Some(x) {
        if Up(u, x, k) == Some(x) {
          CycleReachesChangedRow(t, u, id, x, k);
          assert false;
        }
      }
    }
  }

  /** A cycle that appears after changing the row `id` passes through `id`, so `id`'s new parent
      already had `id` above it. */
  lemma CycleReachesChangedRow(t: OuTable, u: OuTable, id: OuId, x: OuId, k: nat)
    requires Acyclic(t) && t - {id} == u - {id} && k > 0 && Up(u, x, k) == Some(x)
    ensures id in u && u[id].parent.Some? && AncestorOrSelf(t, id, u[id].parent.value)
  {
    if j: nat :| j < k && Up(u, x, j) == Some(id) {
      UpAdd(u, x, k, j);
      UpAdd(u, x, j, k);
      assert Up(u, id, k) == Some(id);
      var p := u[id].parent.value;
      assert Up(u, p, k - 1) == Some(id);
      ReachingIgnoresTarget(u, t, id, p, k - 1);
    } else {
      ChainAvoids(u, t, id, x, k);
      assert false;
    }
  }

  lemma {:induction false} UpInSubtable(t: OuTable, u: OuTable, x: OuId, k: nat)
    requires forall y :: y in u ==> y in t && u[y] == t[y]
    ensures Up(u, x, k).Some? ==> Up(t, x, k) == Up(u, x, k)
    decreases k
  {
    if k > 0 && x in u && u[x].parent.Some? {
      UpInSubtable(t, u, u[x].parent.value, k - 1);
    }
  }

  // ---------------------------------------------------------------- the invariant

  predicate ValidName(name: string) { TrimSpace(name) != "" }

  predicate ValidHandle(handle: string) {
    TrimSpace(handle) != "" && '/' !in TrimSpace(handle)
  }

  predicate NameTaken(t: OuTable, name: string, parent: Option<OuId>) {
    exists x :: x in t && t[x].parent == parent && t[x].name == name
  }

  predicate HandleTaken(t: OuTable, handle: string, parent: Option<OuId>) {
    exists x :: x in t && t[x].parent == parent && t[x].handle == handle
  }

  /** No two siblings (roots are siblings of each other) share a name or a handle. */
  ghost predicate SiblingsDiffer(t: OuTable) {
    forall x, y :: x in t && y in t && x != y && t[x].parent == t[y].parent
                   ==> t[x].name != t[y].name && t[x].handle != t[y].handle
  }

  ghost predicate WellNamed(t: OuTable) {
    forall id :: id in t ==> ValidName(t[id].name) && ValidHandle(t[id].handle)
  }

  ghost predicate Forest(t: OuTable) {
    && Acyclic(t)
    && ParentsExist(t)
    && SiblingsDiffer(t)
    && WellNamed(t)
  }

  // ---------------------------------------------------------------- the service steps

  datatype OuError =
    | InvalidRequestFormat | InvalidHandlePath | NotFound | ParentNotFound | CircularDependency
    | NameConflict | HandleConflict | CannotDelete | InternalServerError

  /** The checks that create and update share: name, handle, and that a named parent exists. */
  function RequestError(t: OuTable, request: OrganizationUnit): Option<OuError> {
    if !ValidName(request.name) || !ValidHandle(request.handle) then Some(InvalidRequestFormat)
    else if request.parent.Some? && request.parent.value !in t then Some(ParentNotFound)
    else None
  }

  /** How creating `id` from `request` ends. A key that is already stored breaks the table's unique
      constraint, so the insert fails. */
  function CreateError(t: OuTable, id: OuId, request: OrganizationUnit): Option<OuError> {
    if RequestError(t, request).Some? then RequestError(t, request)
    else if NameTaken(t, request.name, request.parent) then Some(NameConflict)
    else if HandleTaken(t, request.handle, request.parent) then Some(HandleConflict)
    else if id in t then Some(InternalServerError)
    else None
  }

  /** The name query runs unless both parents are nil and the name is unchanged: the two parents are
      compared as pointers, which are never equal when set. The query counts the unit's own row. */
  predicate UpdateClash(existing: OrganizationUnit, request: OrganizationUnit, sameValue: bool, taken: bool) {
    !(existing.parent.None? && request.parent.None? && sameValue) && taken
  }

  ghost function UpdateError(t: OuTable, id: OuId, request: OrganizationUnit): Option<OuError> {
    if id !in t then Some(NotFound)
    else if RequestError(t, request).Some? then RequestError(t, request)
    else if request.parent.Some? && AncestorOrSelf(t, id, request.parent.value) then Some(CircularDependency)
    else if UpdateClash(t[id], request, t[id].name == request.name, NameTaken(t, request.name, request.parent))
    then Some(NameConflict)
    else if UpdateClash(t[id], request, t[id].handle == request.handle, HandleTaken(t, request.handle, request.parent))
    then Some(HandleConflict)
    else None
  }

  predicate HasChildren(t: OuTable, id: OuId) {
    exists x :: x in t && t[x].parent == Some(id)
  }

  /** `members` says whether the user and group tables hold rows of this unit. */
  function DeleteError(t: OuTable, id: OuId, members: bool): Option<OuError> {
    if id !in t then Some(NotFound)
    else if HasChildren(t, id) || members then Some(CannotDelete)
    else None
  }

  /** DELETE removes the row and, by the foreign key's ON DELETE CASCADE, everything below it. */
  ghost function DeleteCascade(t: OuTable, id: OuId): OuTable {
    map x | x in t && !AncestorOrSelf(t, id, x) :: t[x]
  }

  /** Under the delete guard the cascade reaches nothing but the row itself. */
  lemma GuardedDeleteRemovesOneRow(t: OuTable, id: OuId)
    requires !HasChildren(t, id)
    ensures DeleteCascade(t, id) == t - {id}
  {
    assert Up(t, id, 0) == Some(id);
    forall x | x in t && x != id ensures !AncestorOrSelf(t, id, x) {
      if k: nat :| Up(t, x, k) == Some(id) {
        NobodyReachesALeaf(t, id, x, k);
      }
    }
  }

  lemma {:induction false} NobodyReachesALeaf(t: OuTable, id: OuId, x: OuId, k: nat)
    requires !HasChildren(t, id) && x != id
    ensures Up(t, x, k) != Some(id)
    decreases k
  {
    if k > 0 && x in t && t[x].parent.Some? {
      NobodyReachesALeaf(t, id, t[x].parent.value, k - 1);
    }
  }

  // ---------------------------------------------------------------- every run keeps the forest

  datatype Op =
    | Create(id: OuId, request: OrganizationUnit)
    | Update(id: OuId, request: OrganizationUnit)
    | Delete(id: OuId, members: bool)

  ghost function OpError(t: OuTable, op: Op): Option<OuError> {
    match op
    case Create(id, request) => CreateError(t, id, request)
    case Update(id, request) => UpdateError(t, id, request)
    case Delete(id, members) => DeleteError(t, id, members)
  }

  /** One service call: a failing call leaves the table alone. */
  ghost function Apply(t: OuTable, op: Op): OuTable {
    if OpError(t, op).Some? then t
    else match op
      case Create(id, request) => t[id := request]
      case Update(id, request) => t[id := request]
      case Delete(id, _) => DeleteCascade(t, id)
  }

  ghost function Run(t: OuTable, ops: seq<Op>): OuTable
    decreases ops
  {
    if ops == [] then t else Run(Apply(t, ops[0]), ops[1..])
  }

  ghost predicate NoOtherSibling(t: OuTable, id: OuId, request: OrganizationUnit) {
    forall x | x in t && x != id && t[x].parent == request.parent
      :: t[x].name != request.name && t[x].handle != request.handle
  }

  lemma WriteKeepsSiblingsApart(t: OuTable, id: OuId, request: OrganizationUnit)
    requires SiblingsDiffer(t) && NoOtherSibling(t, id, request)
    ensures SiblingsDiffer(t[id := request])
  {
  }

  /** Writing one checked row keeps the forest. */
  lemma WriteKeepsForest(t: OuTable, id: OuId, request: OrganizationUnit)
    requires Forest(t) && RequestError(t, request).None? && NoOtherSibling(t, id, request)
    requires request.parent.None? || !AncestorOrSelf(t, id, request.parent.value)
    ensures Forest(t[id := request])
  {
    var u := t[id := request];
    assert Acyclic(u) by {
      ReparentAcyclicIff(t, id, request);
    }
    assert SiblingsDiffer(u) by {
      WriteKeepsSiblingsApart(t, id, request);
    }
    assert ParentsExist(u);
    assert WellNamed(u);
  }

  lemma CreateKeepsForest(t: OuTable, id: OuId, request: OrganizationUnit)
    requires Forest(t) && CreateError(t, id, request).None?
    ensures Forest(t[id := request])
  {
    if request.parent.Some? {
      forall k: nat ensures Up(t, request.parent.value, k) != Some(id) {
        UpStaysInside(t, request.parent.value, k);
      }
    }
    WriteKeepsForest(t, id, request);
  }

  lemma UpdateFindsClashes(t: OuTable, id: OuId, request: OrganizationUnit)
    requires SiblingsDiffer(t) && id in t
    requires !UpdateClash(t[id], request, t[id].name == request.name, NameTaken(t, request.name, request.parent))
    requires !UpdateClash(t[id], request, t[id].handle == request.handle,
                          HandleTaken(t, request.handle, request.parent))
    ensures NoOtherSibling(t, id, request)
  {
  }

  lemma UpdateKeepsForest(t: OuTable, id: OuId, request: OrganizationUnit)
    requires Forest(t) && UpdateError(t, id, request).None?
    ensures Forest(t[id := request])
  {
    UpdateFindsClashes(t, id, request);
    WriteKeepsForest(t, id, request);
  }

  lemma DeleteKeepsForest(t: OuTable, id: OuId, members: bool)
    requires Forest(t) && DeleteError(t, id, members).None?
    ensures Forest(DeleteCascade(t, id))
  {
    GuardedDeleteRemovesOneRow(t, id);
    var u := DeleteCascade(t, id);
    forall x: OuId, k: nat | k > 0 ensures Up(u, x, k) != Some(x) {
      UpInSubtable(t, u, x, k);
    }
  }

  /** Every table reachable by any sequence of creates, re-parenting updates and deletes is a forest. */
  lemma {:induction false} RunKeepsForest(t: OuTable, ops: seq<Op>)
    requires Forest(t)
    ensures Forest(Run(t, ops))
    decreases ops
  {
    if ops != [] {
      var op := ops[0];
      if OpError(t, op).None? {
        match op {
          case Create(id, request) => CreateKeepsForest(t, id, request);
          case Update(id, request) => UpdateKeepsForest(t, id, request);
          case Delete(id, members) => DeleteKeepsForest(t, id, members);
        }
      }
      RunKeepsForest(Apply(t, op), ops[1..]);
    }
  }

  lemma ReachableTablesAreForests(ops: seq<Op>)
    ensures Forest(Run(map[], ops))
  {
    assert forall id: OuId, k: nat | k > 0 :: Up(map[], id, k).None?;
    RunKeepsForest(map[], ops);
  }

  // ---------------------------------------------------------------- what is accepted, and what it does

  /** A create is accepted exactly when its name and handle are proper, its parent exists, nobody beside it has its
      name or its handle, and its ID is new. */
  lemma CreateAcceptedIff(t: OuTable, id: OuId, request: OrganizationUnit)
    ensures CreateError(t, id, request).None? <==>
            && TrimSpace(request.name) != "" && TrimSpace(request.handle) != "" && '/' !in request.handle
            && (request.parent.Some? ==> request.parent.value in t) && id !in t
            && (forall x | x in t && t[x].parent == request.parent
                  :: t[x].name != request.name && t[x].handle != request.handle)
  {
    TrimKeeps(request.handle, '/');
  }

  /** An update is accepted exactly when, besides, the unit exists, is no ancestor of its new parent, and nobody at the
      new place has the name or the handle. The unit itself counts there, unless it is a root and stays one. */
  lemma UpdateAcceptedIff(t: OuTable, id: OuId, request: OrganizationUnit)
    requires SiblingsDiffer(t)
    ensures UpdateError(t, id, request).None? <==>
            && id in t && TrimSpace(request.name) != "" && TrimSpace(request.handle) != "" && '/' !in request.handle
            && (request.parent.Some? ==> request.parent.value in t && !AncestorOrSelf(t, id, request.parent.value))
            && (forall x | x in t && t[x].parent == request.parent && (x != id || request.parent.Some?)
                  :: t[x].name != request.name && t[x].handle != request.handle)
  {
    hide TrimSpace;
    TrimKeeps(request.handle, '/');
  }

  /** A delete is accepted exactly when the unit exists and nothing hangs on it. */
  lemma DeleteAcceptedIff(t: OuTable, id: OuId, members: bool)
    ensures DeleteError(t, id, members).None? <==>
            id in t && !members && forall x | x in t :: t[x].parent != Some(id)
  {
  }

  /** A refusal names the first reason that holds. */
  lemma RefusalsAreTrue(t: OuTable, op: Op)
    requires SiblingsDiffer(t)
    ensures match OpError(t, op)
            case None => true
            case Some(NotFound) => !op.Create? && op.id !in t
            case Some(CannotDelete) =>
              op.Delete? && op.id in t && (op.members || exists x :: x in t && t[x].parent == Some(op.id))
            case Some(InvalidRequestFormat) => MayAsk(t, op) && !ProperRequest(op.request)
            case Some(ParentNotFound) =>
              && MayAsk(t, op) && ProperRequest(op.request)
              && op.request.parent.Some? && op.request.parent.value !in t
            case Some(CircularDependency) => op.Update? && Placeable(t, op) && MakesCycle(t, op)
            case Some(NameConflict) =>
              && Placeable(t, op) && !MakesCycle(t, op)
              && exists x :: x in t && t[x].parent == op.request.parent && t[x].name == op.request.name
            case Some(HandleConflict) =>
              && Placeable(t, op) && !MakesCycle(t, op) && !NameTakenByAnother(t, op.id, op.request)
              && exists x :: x in t && t[x].parent == op.request.parent && t[x].handle == op.request.handle
            case Some(InternalServerError) =>
              && op.Create? && op.id in t && Placeable(t, op)
              && forall x | x in t && t[x].parent == op.request.parent
                   :: t[x].name != op.request.name && t[x].handle != op.request.handle
            case _ => false
  {
    if !op.Delete? {
      TrimKeeps(op.request.handle, '/');
    }
    hide TrimSpace;
  }

  /** There is a unit to update, or a create does without. */
  predicate MayAsk(t: OuTable, op: Op) {
    op.Create? || (op.Update? && op.id in t)
  }

  predicate ProperRequest(request: OrganizationUnit) {
    TrimSpace(request.name) != "" && TrimSpace(request.handle) != "" && '/' !in request.handle
  }

  /** The request is proper and its parent exists. */
  predicate Placeable(t: OuTable, op: Op) {
    && MayAsk(t, op) && ProperRequest(op.request)
    && (op.request.parent.Some? ==> op.request.parent.value in t)
  }

  /** The unit would come below itself. */
  ghost predicate MakesCycle(t: OuTable, op: Op)
    requires !op.Delete?
  {
    op.Update? && op.request.parent.Some? && AncestorOrSelf(t, op.id, op.request.parent.value)
  }

  predicate NameTakenByAnother(t: OuTable, id: OuId, request: OrganizationUnit) {
    exists x :: x in t && x != id && t[x].parent == request.parent && t[x].name == request.name
  }

  /** After an accepted call the unit's row is the request, or gone; no other row is touched. */
  lemma AcceptedCallWrites(t: OuTable, op: Op)
    requires OpError(t, op).None?
    ensures op.Delete? ==> op.id in t && Apply(t, op) == t - {op.id}
    ensures !op.Delete? ==> Apply(t, op) == t[op.id := op.request]
    ensures op.Create? ==> op.id !in t
    ensures op.Update? ==> op.id in t
  {
    if op.Delete? {
      GuardedDeleteRemovesOneRow(t, op.id);
    }
  }

  /** Calls that do not name a unit leave its row alone. */
  lemma {:induction false} UnnamedRowStays(t: OuTable, ops: seq<Op>, id: OuId)
    requires forall i | 0 <= i < |ops| :: ops[i].id != id
    ensures id in Run(t, ops) <==> id in t
    ensures id in t ==> Run(t, ops)[id] == t[id]
    decreases ops
  {
    if ops != [] {
      if OpError(t, ops[0]).None? {
        AcceptedCallWrites(t, ops[0]);
      }
      assert ops[0].id != id;
      UnnamedRowStays(Apply(t, ops[0]), ops[1..], id);
    }
  }

  /** What an accepted create or update wrote is what the unit is until a later call names it. */
  lemma WrittenRowStays(t: OuTable, op: Op, later: seq<Op>)
    requires OpError(t, op).None?
    requires forall i | 0 <= i < |later| :: later[i].id != op.id
    ensures !op.Delete? ==> op.id in Run(t, [op] + later) && Run(t, [op] + later)[op.id] == op.request
    ensures op.Delete? ==> op.id !in Run(t, [op] + later)
  {
    AcceptedCallWrites(t, op);
    assert ([op] + later)[1..] == later;
    UnnamedRowStays(Apply(t, op), later, op.id);
  }

  // ---------------------------------------------------------------- what an update can do

  /** Writing a stored unit back unchanged succeeds exactly when the unit is a root: below a parent the
      conflict queries find the unit's own row. */
  lemma NoOpUpdateSucceedsIffRoot(t: OuTable, id: OuId)
    requires Forest(t) && id in t
    ensures UpdateError(t, id, t[id]).None? <==> t[id].parent.None?
  {
    var row := t[id];
    if row.parent.Some? {
      assert NameTaken(t, row.name, row.parent);
    }
  }

  /** Two creates reach a table whose child unit cannot be written back unchanged. */
  lemma NoOpUpdateIsRefused()
    ensures var root := OrganizationUnit("r", "r", "", None);
            var child := OrganizationUnit("c", "c", "", Some("1"));
            var t := Run(map[], [Create("1", root), Create("2", child)]);
            "2" in t && t["2"] == child && UpdateError(t, "2", t["2"]).Some?
  {
    var root := OrganizationUnit("r", "r", "", None);
    var child := OrganizationUnit("c", "c", "", Some("1"));
    var ops := [Create("1", root), Create("2", child)];
    LettersAreValid();
    hide ValidName, ValidHandle, Forest;
    assert CreateError(map[], "1", root).None?;
    assert CreateError(map["1" := root], "2", child).None?;
    assert ops[1..] == [Create("2", child)] && ops[1..][1..] == [];
    var t := map["1" := root, "2" := child];
    assert Run(map[], ops) == Run(map["1" := root], ops[1..]) == Run(t, []) == t;
    ReachableTablesAreForests(ops);
    NoOpUpdateSucceedsIffRoot(t, "2");
  }

  lemma LettersAreValid()
    ensures ValidName("r") && ValidHandle("r") && ValidName("c") && ValidHandle("c")
  {
    CleanIffUnchanged("r", IsSpace);
    CleanIffUnchanged("c", IsSpace);
  }

  /** An update that keeps a unit under its parent has to change the name and the handle together,
      each to a value that none of the parent's children has. */
  lemma UpdateUnderSameParentIff(t: OuTable, id: OuId, request: OrganizationUnit)
    requires Forest(t) && id in t && t[id].parent.Some? && request.parent == t[id].parent
    requires ValidName(request.name) && ValidHandle(request.handle)
    ensures UpdateError(t, id, request).None? <==>
            !NameTaken(t, request.name, request.parent) && !HandleTaken(t, request.handle, request.parent)
    ensures UpdateError(t, id, request).None? ==> request.name != t[id].name && request.handle != t[id].handle
  {
    var p := request.parent.value;
    forall k: nat ensures Up(t, p, k) != Some(id) {
      assert Up(t, id, k + 1) == Up(t, p, k);
    }
  }
}
