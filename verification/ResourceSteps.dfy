/** What each resource-service call does to the tables, and what every run of calls keeps. */
module ResourceSteps {
  import opened Prelude
  import opened ResourcePermissions

  datatype ResourceError =
    | MissingID | InvalidRequestFormat | InvalidDelimiter | InvalidHandle | DelimiterInHandle
    | OrganizationUnitNotFound | NameConflict | IdentifierConflict | HandleConflict
    | ServerNotFound | ParentNotFound | ResourceNotFound | ActionNotFound | CannotDelete | InternalServerError

  /** `ouExists` is the answer of the organization-unit service; `id` on a create is the generated UUID. */
  datatype Op =
    | CreateServer(id: Id, name: string, ouID: string, ouExists: bool, identifier: string, delimiter: string)
    | UpdateServer(id: Id, name: string, ouID: string, ouExists: bool, identifier: string)
    | DeleteServer(id: Id)
    | CreateResource(server: Id, id: Id, parent: Option<Id>, name: string, handle: string)
    | UpdateResource(server: Id, id: Id, name: string)
    | DeleteResource(server: Id, id: Id)
    | CreateAction(server: Id, resource: Option<Id>, id: Id, name: string, handle: string)
    | UpdateAction(server: Id, resource: Option<Id>, id: Id, name: string)
    | DeleteAction(server: Id, resource: Option<Id>, id: Id)

  // ---------------------------------------------------------------- the queries

  predicate ServerNameTaken(t: Tables, name: string) {
    exists s :: s in t.servers && t.servers[s].name == name
  }

  predicate IdentifierTaken(t: Tables, identifier: string) {
    exists s :: s in t.servers && t.servers[s].identifier == identifier
  }

  predicate FindsResource(t: Tables, server: Id, id: Id) {
    id in t.resources && t.resources[id].server == server
  }

  predicate FindsAction(t: Tables, server: Id, resource: Option<Id>, id: Id) {
    id in t.actions && t.actions[id].server == server && t.actions[id].resource == resource
  }

  predicate ResourceHandleTaken(t: Tables, server: Id, parent: Option<Id>, handle: string) {
    exists r :: && r in t.resources && FindsResource(t, server, r)
                && t.resources[r].parent == parent && t.resources[r].handle == handle
  }

  predicate ActionHandleTaken(t: Tables, server: Id, resource: Option<Id>, handle: string) {
    exists a :: a in t.actions && FindsAction(t, server, resource, a) && t.actions[a].handle == handle
  }

  /** Counts the server's resources and its server-level actions, but not the actions of its resources. */
  predicate ServerHasDependencies(t: Tables, server: Id) {
    || (exists r :: r in t.resources && t.resources[r].server == server)
    || (exists a :: a in t.actions && t.actions[a].server == server && t.actions[a].resource.None?)
  }

  predicate ResourceHasDependencies(t: Tables, id: Id) {
    || (exists r :: r in t.resources && t.resources[r].parent == Some(id))
    || (exists a :: a in t.actions && t.actions[a].resource == Some(id))
  }

  /** The first thing wrong with a handle, reading from the left. */
  function HandleError(handle: string, delimiter: string): Option<ResourceError> {
    if |handle| > MAX_HANDLE then Some(InvalidHandle) else CharactersError(handle, delimiter)
  }

  function CharactersError(handle: string, delimiter: string): Option<ResourceError> {
    if handle == "" then None
    else if !IsPermissionCharacter(handle[0]) then Some(InvalidHandle)
    else if [handle[0]] == delimiter then Some(DelimiterInHandle)
    else CharactersError(handle[1..], delimiter)
  }

  lemma {:induction false} CharactersErrorIff(handle: string, delimiter: string)
    ensures CharactersError(handle, delimiter).None? <==>
            (forall i | 0 <= i < |handle| :: IsPermissionCharacter(handle[i]) && [handle[i]] != delimiter)
  {
    if handle != "" {
      CharactersErrorIff(handle[1..], delimiter);
      assert forall i | 1 <= i < |handle| :: handle[i] == handle[1..][i - 1];
    }
  }

  /** A non-empty handle is refused exactly when it is not a valid handle for the delimiter. */
  lemma HandleErrorIff(handle: string, delimiter: string)
    requires handle != ""
    ensures HandleError(handle, delimiter).None? <==> ValidHandle(handle, delimiter)
  {
    CharactersErrorIff(handle, delimiter);
  }

  /** Name and handle checks of a new resource or action. */
  function NewRowError(name: string, handle: string, delimiter: string): Option<ResourceError> {
    if name == "" || handle == "" then Some(InvalidRequestFormat) else HandleError(handle, delimiter)
  }

  // ---------------------------------------------------------------- errors

  function OpError(t: Tables, op: Op): Option<ResourceError> {
    match op
    case CreateServer(id, name, ouID, ouExists, identifier, delimiter) =>
      if name == "" || ouID == "" then Some(InvalidRequestFormat)
      else if delimiter != "" && !ValidDelimiter(delimiter) then Some(InvalidDelimiter)
      else if !ouExists then Some(OrganizationUnitNotFound)
      else if ServerNameTaken(t, name) then Some(NameConflict)
      else if identifier != "" && IdentifierTaken(t, identifier) then Some(IdentifierConflict)
      else if id in t.servers then Some(InternalServerError)
      else None
    case UpdateServer(id, name, ouID, ouExists, identifier) =>
      if id == "" then Some(MissingID)
      else if name == "" || ouID == "" then Some(InvalidRequestFormat)
      else if id !in t.servers then Some(ServerNotFound)
      else if !ouExists then Some(OrganizationUnitNotFound)
      else if t.servers[id].name != name && ServerNameTaken(t, name) then Some(NameConflict)
      else if identifier != "" && t.servers[id].identifier != identifier && IdentifierTaken(t, identifier)
      then Some(IdentifierConflict)
      else None
    case DeleteServer(id) =>
      if id == "" then Some(MissingID)
      else if id in t.servers && ServerHasDependencies(t, id) then Some(CannotDelete)
      else None
    case CreateResource(server, id, parent, name, handle) =>
      if server !in t.servers then Some(ServerNotFound)
      else if NewRowError(name, handle, t.servers[server].delimiter).Some?
      then NewRowError(name, handle, t.servers[server].delimiter)
      else if parent.Some? && !FindsResource(t, server, parent.value) then Some(ParentNotFound)
      else if ResourceHandleTaken(t, server, parent, handle) then Some(HandleConflict)
      else if id in t.resources then Some(InternalServerError)
      else None
    case UpdateResource(server, id, name) =>
      if id == "" || server == "" then Some(MissingID)
      else if server !in t.servers then Some(ServerNotFound)
      else if !FindsResource(t, server, id) then Some(ResourceNotFound)
      else None
    case DeleteResource(server, id) =>
      if id == "" || server == "" then Some(MissingID)
      else if server in t.servers && FindsResource(t, server, id) && ResourceHasDependencies(t, id)
      then Some(CannotDelete)
      else None
    case CreateAction(server, resource, id, name, handle) =>
      if server !in t.servers then Some(ServerNotFound)
      else if resource.Some? && !FindsResource(t, server, resource.value) then Some(ResourceNotFound)
      else if NewRowError(name, handle, t.servers[server].delimiter).Some?
      then NewRowError(name, handle, t.servers[server].delimiter)
      else if ActionHandleTaken(t, server, resource, handle) then Some(HandleConflict)
      else if id in t.actions then Some(InternalServerError)
      else None
    case UpdateAction(server, resource, id, name) =>
      if id == "" || server == "" || resource == Some("") then Some(MissingID)
      else if server !in t.servers then Some(ServerNotFound)
      else if resource.Some? && !FindsResource(t, server, resource.value) then Some(ResourceNotFound)
      else if !FindsAction(t, server, resource, id) then Some(ActionNotFound)
      else None
    case DeleteAction(server, resource, id) =>
      if id == "" || server == "" || resource == Some("") then Some(MissingID)
      else None
  }

  // ---------------------------------------------------------------- effects

  /** One service call; deleting something that is not there succeeds and changes nothing. */
  function Apply(t: Tables, op: Op, defaultDelimiter: string): Tables {
    if OpError(t, op).Some? then t
    else match op
      case CreateServer(id, name, ouID, _, identifier, delimiter) =>
        t.(servers := t.servers[id := Server(name, ouID, identifier,
                                             if delimiter == "" then defaultDelimiter else delimiter)])
      case UpdateServer(id, name, ouID, _, identifier) =>
        t.(servers := t.servers[id := Server(name, ouID, identifier, t.servers[id].delimiter)])
      case DeleteServer(id) =>
        t.(servers := t.servers - {id})
      case CreateResource(server, id, parent, name, handle) =>
        t.(resources := t.resources[id := Resource(server, parent, name, handle,
             DerivePermission(t.servers[server].delimiter, ParentPermission(t, parent), handle))])
      case UpdateResource(server, id, name) =>
        t.(resources := t.resources[id := t.resources[id].(name := name)])
      case DeleteResource(server, id) =>
        if server in t.servers && FindsResource(t, server, id) then t.(resources := t.resources - {id}) else t
      case CreateAction(server, resource, id, name, handle) =>
        t.(actions := t.actions[id := Action(server, resource, name, handle,
             DerivePermission(t.servers[server].delimiter, ParentPermission(t, resource), handle))])
      case UpdateAction(server, resource, id, name) =>
        t.(actions := t.actions[id := t.actions[id].(name := name)])
      case DeleteAction(server, resource, id) =>
        if server in t.servers && (resource.Some? ==> FindsResource(t, server, resource.value)) &&
           FindsAction(t, server, resource, id)
        then t.(actions := t.actions - {id}) else t
  }

  ghost function Run(t: Tables, ops: seq<Op>, defaultDelimiter: string): Tables
    decreases |ops|
  {
    if ops == [] then t else Run(Apply(t, ops[0], defaultDelimiter), ops[1..], defaultDelimiter)
  }

  const EMPTY := Tables(map[], map[], map[])

  // ---------------------------------------------------------------- what is accepted, and what it does

  /** A valid handle has 1 to 100 characters of the permission alphabet, none of them the delimiter. */
  lemma ValidHandleIff(handle: string, delimiter: char)
    ensures ValidHandle(handle, [delimiter]) <==>
            && 1 <= |handle| <= 100 && delimiter !in handle
            && (forall c | c in handle ::
                  'a' <= c <= 'z' || 'A' <= c <= 'Z' || '0' <= c <= '9' || c in {'.', '_', ':', '-', '/'})
    ensures ValidDelimiter([delimiter]) <==> delimiter in {'.', '_', ':', '-', '/'}
  {
    assert forall i | 0 <= i < |handle| :: handle[i] in handle;
    assert forall c :: [c] == [delimiter] <==> c == delimiter by {
      forall c | [c] == [delimiter] ensures c == delimiter {
        assert [c][0] == c;
      }
    }
  }

  /** Which server calls are accepted. A server may keep its own name and identifier; one with resources or actions
      may not go. */
  lemma ServerAcceptedIff(t: Tables, op: Op)
    requires Inv(t)
    ensures op.CreateServer? ==>
              (OpError(t, op).None? <==>
                 && op.name != "" && op.ouID != "" && op.ouExists && op.id !in t.servers
                 && (op.delimiter == "" || ValidDelimiter(op.delimiter))
                 && (forall s | s in t.servers ::
                       && t.servers[s].name != op.name
                       && (op.identifier != "" ==> t.servers[s].identifier != op.identifier)))
    ensures op.UpdateServer? ==>
              (OpError(t, op).None? <==>
                 && op.id != "" && op.name != "" && op.ouID != "" && op.ouExists && op.id in t.servers
                 && (forall s | s in t.servers && s != op.id ::
                       && t.servers[s].name != op.name
                       && (op.identifier != "" ==> t.servers[s].identifier != op.identifier)))
    ensures op.DeleteServer? ==>
              (OpError(t, op).None? <==>
                 && op.id != "" && (forall r | r in t.resources :: t.resources[r].server != op.id)
                 && (forall a | a in t.actions :: t.actions[a].server != op.id))
  {
    if op.DeleteServer? {
      forall r | r in t.resources ensures ResourceFits(t, t.resources[r]) {
      }
      forall a | a in t.actions ensures ActionFits(t, t.actions[a]) {
      }
      hide ResourceHandlesDiffer, ActionHandlesDiffer, Derived;
      if OpError(t, op).None? && op.id in t.servers {
        NoRowOnUndependedServer(t, op.id);
      }
    }
  }

  /** Which resource calls are accepted. A handle has to be new below its own parent only. */
  lemma ResourceAcceptedIff(t: Tables, op: Op)
    requires Inv(t)
    ensures op.CreateResource? ==>
              (OpError(t, op).None? <==>
                 && op.server in t.servers && op.name != "" && op.id !in t.resources
                 && ValidHandle(op.handle, t.servers[op.server].delimiter)
                 && (op.parent.Some? ==>
                       op.parent.value in t.resources && t.resources[op.parent.value].server == op.server)
                 && (forall r | r in t.resources && t.resources[r].server == op.server &&
                                t.resources[r].parent == op.parent :: t.resources[r].handle != op.handle))
    ensures op.UpdateResource? ==>
              (OpError(t, op).None? <==>
                 && op.id != "" && op.server != "" && op.id in t.resources && t.resources[op.id].server == op.server)
    ensures op.DeleteResource? ==>
              (OpError(t, op).None? <==>
                 && op.id != "" && op.server != ""
                 && (op.id in t.resources && t.resources[op.id].server == op.server ==>
                       && (forall r | r in t.resources :: t.resources[r].parent != Some(op.id))
                       && (forall a | a in t.actions :: t.actions[a].resource != Some(op.id))))
  {
    hide ServersValid, ResourceHandlesDiffer, ActionHandlesDiffer, ActionsHang, Derived, ValidHandle;
    if !op.CreateResource? && !op.CreateServer? && op.id in t.resources {
      assert ResourceFits(t, t.resources[op.id]);
    }
    if op.CreateResource? {
      NewRowAcceptedIff(t, op.server, op.name, op.handle);
      assert ResourceHandleTaken(t, op.server, op.parent, op.handle) <==>
             exists r :: && r in t.resources && t.resources[r].server == op.server
                         && t.resources[r].parent == op.parent && t.resources[r].handle == op.handle;
    }
  }

  lemma NewRowAcceptedIff(t: Tables, server: Id, name: string, handle: string)
    requires ServersValid(t)
    ensures server in t.servers ==>
              (NewRowError(name, handle, t.servers[server].delimiter).None? <==>
               name != "" && ValidHandle(handle, t.servers[server].delimiter))
  {
    if server in t.servers && handle != "" {
      HandleErrorIff(handle, t.servers[server].delimiter);
    }
  }

  /** Which action calls are accepted. A handle has to be new on its own server or resource only; deleting an action
      that is not there is no error. */
  lemma ActionAcceptedIff(t: Tables, op: Op)
    requires Inv(t)
    ensures op.CreateAction? ==>
              (OpError(t, op).None? <==>
                 && op.server in t.servers && op.name != "" && op.id !in t.actions
                 && ValidHandle(op.handle, t.servers[op.server].delimiter)
                 && (op.resource.Some? ==>
                       op.resource.value in t.resources && t.resources[op.resource.value].server == op.server)
                 && (forall a | a in t.actions && t.actions[a].server == op.server &&
                                t.actions[a].resource == op.resource :: t.actions[a].handle != op.handle))
    ensures op.UpdateAction? ==>
              (OpError(t, op).None? <==>
                 && op.id != "" && op.server != "" && op.resource != Some("") && op.id in t.actions
                 && t.actions[op.id].server == op.server && t.actions[op.id].resource == op.resource)
    ensures op.DeleteAction? ==> (OpError(t, op).None? <==> op.id != "" && op.server != "" && op.resource != Some(""))
  {
    hide ServersValid, ResourceHandlesDiffer, ActionHandlesDiffer, ResourcesHang, Derived, ValidHandle;
    if op.UpdateAction? && op.id in t.actions {
      assert ActionFits(t, t.actions[op.id]);
    }
    if op.CreateAction? {
      NewRowAcceptedIff(t, op.server, op.name, op.handle);
      assert ActionHandleTaken(t, op.server, op.resource, op.handle) <==>
             exists a :: && a in t.actions && t.actions[a].server == op.server
                         && t.actions[a].resource == op.resource && t.actions[a].handle == op.handle;
    }
  }

  predicate Fine(text: string, delimiter: string) {
    forall c | c in text :: IsPermissionCharacter(c) && [c] != delimiter
  }

  /** The scan blames the first character that is wrong. */
  lemma {:induction false} BlamedCharacterIsThere(handle: string, delimiter: string)
    ensures CharactersError(handle, delimiter) == Some(InvalidHandle) ==>
              exists i | 0 <= i < |handle| :: !IsPermissionCharacter(handle[i]) && Fine(handle[..i], delimiter)
    ensures CharactersError(handle, delimiter) == Some(DelimiterInHandle) ==>
              exists i | 0 <= i < |handle| ::
                IsPermissionCharacter(handle[i]) && [handle[i]] == delimiter && Fine(handle[..i], delimiter)
    ensures CharactersError(handle, delimiter) in {None, Some(InvalidHandle), Some(DelimiterInHandle)}
  {
    if handle != "" {
      BlamedCharacterIsThere(handle[1..], delimiter);
      if i :| 0 <= i < |handle| - 1 && CharactersError(handle[1..], delimiter).Some? &&
              Fine(handle[1..][..i], delimiter) && handle[1..][i] == handle[i + 1] &&
              (!IsPermissionCharacter(handle[i + 1]) || [handle[i + 1]] == delimiter)
      {
        assert handle[..i + 1] == [handle[0]] + handle[1..][..i];
      }
      assert handle[..0] == "";
    }
  }

  predicate IsServerOp(op: Op) {
    op.CreateServer? || op.UpdateServer? || op.DeleteServer?
  }

  predicate IsCreate(op: Op) {
    op.CreateServer? || op.CreateResource? || op.CreateAction?
  }

  /** What is checked of a server before other services and rows are asked. */
  predicate ServerRequestProper(t: Tables, op: Op)
    requires op.CreateServer? || op.UpdateServer?
  {
    && op.name != "" && op.ouID != ""
    && (op.CreateServer? ==> op.delimiter == "" || ValidDelimiter(op.delimiter))
    && (op.UpdateServer? ==> op.id != "" && op.id in t.servers)
  }

  /** A refused server call names the first reason that holds. */
  lemma ServerRefusalsAreTrue(t: Tables, op: Op)
    requires IsServerOp(op)
    ensures match OpError(t, op)
            case None => true
            case Some(MissingID) => !op.CreateServer? && op.id == ""
            case Some(InvalidRequestFormat) =>
              !op.DeleteServer? && (op.name == "" || op.ouID == "") && (op.UpdateServer? ==> op.id != "")
            case Some(InvalidDelimiter) =>
              op.CreateServer? && op.delimiter != "" && !ValidDelimiter(op.delimiter) && op.name != "" && op.ouID != ""
            case Some(OrganizationUnitNotFound) => !op.DeleteServer? && !op.ouExists && ServerRequestProper(t, op)
            case Some(NameConflict) =>
              && !op.DeleteServer? && ServerRequestProper(t, op) && op.ouExists
              && exists s | s in t.servers && (op.UpdateServer? ==> s != op.id) :: t.servers[s].name == op.name
            case Some(IdentifierConflict) =>
              && !op.DeleteServer? && ServerRequestProper(t, op) && op.ouExists && op.identifier != ""
              && (op.CreateServer? || t.servers[op.id].name != op.name ==>
                    forall s | s in t.servers :: t.servers[s].name != op.name)
              && exists s | s in t.servers && (op.UpdateServer? ==> s != op.id) ::
                   t.servers[s].identifier == op.identifier
            case Some(ServerNotFound) =>
              op.UpdateServer? && op.id !in t.servers && op.id != "" && op.name != "" && op.ouID != ""
            case Some(CannotDelete) =>
              op.DeleteServer? && op.id != "" && ((exists r | r in t.resources :: t.resources[r].server == op.id) ||
                                   (exists a | a in t.actions :: t.actions[a].server == op.id))
            case Some(InternalServerError) =>
              && op.CreateServer? && op.id in t.servers && ServerRequestProper(t, op) && op.ouExists
              && (forall s | s in t.servers :: t.servers[s].name != op.name)
              && (op.identifier != "" ==> forall s | s in t.servers :: t.servers[s].identifier != op.identifier)
            case _ => false
  {
  }

  /** The resource a row is to hang on, if any, is there. */
  predicate ParentThere(t: Tables, server: Id, parent: Option<Id>) {
    parent.Some? ==> parent.value in t.resources && t.resources[parent.value].server == server
  }

  /** A refused resource or action call does, too. */
  lemma RowRefusalsAreTrue(t: Tables, op: Op)
    requires !IsServerOp(op)
    ensures match OpError(t, op)
            case None => true
            case Some(MissingID) =>
              !IsCreate(op) && (op.id == "" || op.server == "" || (!op.UpdateResource? && !op.DeleteResource? &&
                                                                   op.resource == Some("")))
            case Some(InvalidRequestFormat) =>
              && IsCreate(op) && (op.name == "" || op.handle == "") && op.server in t.servers
              && (op.CreateAction? ==> ParentThere(t, op.server, op.resource))
            case Some(InvalidHandle) =>
              && IsCreate(op) && op.name != "" && op.server in t.servers
              && (op.CreateAction? ==> ParentThere(t, op.server, op.resource))
              && (|op.handle| > 100 || exists i | 0 <= i < |op.handle| ::
                    !IsPermissionCharacter(op.handle[i]) && Fine(op.handle[..i], t.servers[op.server].delimiter))
            case Some(DelimiterInHandle) =>
              && IsCreate(op) && op.name != "" && op.server in t.servers && |op.handle| <= 100
              && (op.CreateAction? ==> ParentThere(t, op.server, op.resource))
              && (exists i | 0 <= i < |op.handle| ::
                    [op.handle[i]] == t.servers[op.server].delimiter &&
                    Fine(op.handle[..i], t.servers[op.server].delimiter))
            case Some(ServerNotFound) =>
              op.server !in t.servers && (IsCreate(op) || (op.id != "" && op.server != ""))
            case Some(ParentNotFound) =>
              && op.CreateResource? && !ParentThere(t, op.server, op.parent)
              && op.server in t.servers && op.name != "" && op.handle != ""
              && HandleError(op.handle, t.servers[op.server].delimiter).None?
            case Some(ResourceNotFound) =>
              op.server in t.servers &&
              var id := if op.UpdateResource? then Some(op.id)
                        else if op.CreateAction? || op.UpdateAction? then op.resource else None;
              id.Some? && !(id.value in t.resources && t.resources[id.value].server == op.server)
            case Some(ActionNotFound) =>
              && op.UpdateAction? && ParentThere(t, op.server, op.resource)
              && !(op.id in t.actions && t.actions[op.id].server == op.server &&
                   t.actions[op.id].resource == op.resource)
            case Some(HandleConflict) =>
              && IsCreate(op)
              && if op.CreateResource?
                 then ParentThere(t, op.server, op.parent) &&
                      exists r | r in t.resources && t.resources[r].server == op.server &&
                                 t.resources[r].parent == op.parent :: t.resources[r].handle == op.handle
                 else ParentThere(t, op.server, op.resource) && op.name != "" && op.handle != "" &&
                      exists a | a in t.actions && t.actions[a].server == op.server &&
                                 t.actions[a].resource == op.resource :: t.actions[a].handle == op.handle
            case Some(CannotDelete) =>
              && op.DeleteResource?
              && ((exists r | r in t.resources :: t.resources[r].parent == Some(op.id)) ||
                  (exists a | a in t.actions :: t.actions[a].resource == Some(op.id)))
            case Some(InternalServerError) =>
              && IsCreate(op)
              && if op.CreateResource?
                 then op.id in t.resources && !ResourceHandleTaken(t, op.server, op.parent, op.handle)
                 else op.id in t.actions && !ActionHandleTaken(t, op.server, op.resource, op.handle)
            case _ => false
  {
    hide IsPermissionCharacter;
    if IsCreate(op) && op.server in t.servers {
      BlamedCharacterIsThere(op.handle, t.servers[op.server].delimiter);
    }
  }

  // ---------------------------------------------------------------- every run keeps the invariant

  /** Servers keep existing with their delimiter, and resources with their server and permission. */
  ghost predicate Anchored(t: Tables, u: Tables, server: Id, parent: Option<Id>) {
    && (server in t.servers ==> server in u.servers && u.servers[server].delimiter == t.servers[server].delimiter)
    && (parent.Some? && parent.value in t.resources ==>
          && parent.value in u.resources
          && u.resources[parent.value].server == t.resources[parent.value].server
          && u.resources[parent.value].permission == t.resources[parent.value].permission)
  }

  /** A row goes on fitting as long as what it hangs on stays in place. */
  lemma AnchoredRowFits(t: Tables, u: Tables, server: Id, parent: Option<Id>, handle: string, permission: string)
    requires RowFits(t, server, parent, handle, permission) && Anchored(t, u, server, parent)
    ensures RowFits(u, server, parent, handle, permission)
  {
  }

  /** A written server row has a valid delimiter and a name and identifier of its own. */
  lemma ServerWriteKeepsServersValid(t: Tables, u: Tables, id: Id)
    requires ServersValid(t) && id in u.servers && u.servers == t.servers[id := u.servers[id]]
    requires ValidDelimiter(u.servers[id].delimiter)
    requires forall s | s in t.servers && s != id
               :: t.servers[s].name != u.servers[id].name &&
                  (u.servers[id].identifier != "" ==> t.servers[s].identifier != u.servers[id].identifier)
    ensures ServersValid(u)
  {
  }

  lemma ServerOpKeepsServersValid(t: Tables, op: Op, defaultDelimiter: string)
    requires ServersValid(t) && ValidDelimiter(defaultDelimiter) && OpError(t, op).None?
    requires op.CreateServer? || op.UpdateServer?
    ensures ServersValid(Apply(t, op, defaultDelimiter))
  {
    ServerWriteKeepsServersValid(t, Apply(t, op, defaultDelimiter), op.id);
  }

  /** Rows of `u` come from `t`, at most renamed, and what they hang on stays in place. */
  ghost predicate KeepsRows(t: Tables, u: Tables) {
    && (forall r :: r in u.resources ==> && r in t.resources
                                         && u.resources[r] == t.resources[r].(name := u.resources[r].name)
                                         && Anchored(t, u, t.resources[r].server, t.resources[r].parent))
    && (forall a :: a in u.actions ==> && a in t.actions
                                       && u.actions[a] == t.actions[a].(name := u.actions[a].name)
                                       && Anchored(t, u, t.actions[a].server, t.actions[a].resource))
  }

  /** Changing servers keeps the rows when no server that a row names loses its delimiter. */
  lemma ServerChangeKeepsRows(t: Tables, u: Tables)
    requires u.resources == t.resources && u.actions == t.actions
    requires forall r | r in t.resources :: ServerKept(t, u, t.resources[r].server)
    requires forall a | a in t.actions :: ServerKept(t, u, t.actions[a].server)
    ensures KeepsRows(t, u)
  {
  }

  predicate ServerKept(t: Tables, u: Tables, server: Id) {
    server in t.servers ==> server in u.servers && u.servers[server].delimiter == t.servers[server].delimiter
  }

  lemma KeptRowsFit(t: Tables, u: Tables)
    requires ResourcesHang(t) && ActionsHang(t) && KeepsRows(t, u)
    ensures ResourcesHang(u) && ActionsHang(u)
  {
    forall r | r in u.resources ensures ResourceFits(u, u.resources[r]) {
      var row := t.resources[r];
      assert ResourceFits(t, row);
      AnchoredRowFits(t, u, row.server, row.parent, row.handle, row.permission);
    }
    forall a | a in u.actions ensures ActionFits(u, u.actions[a]) {
      var row := t.actions[a];
      assert ActionFits(t, row);
      AnchoredRowFits(t, u, row.server, row.resource, row.handle, row.permission);
    }
  }

  lemma KeptRowsDiffer(t: Tables, u: Tables)
    requires ResourceHandlesDiffer(t) && ActionHandlesDiffer(t) && KeepsRows(t, u)
    ensures ResourceHandlesDiffer(u) && ActionHandlesDiffer(u)
  {
  }

  lemma ServerOpKeepsInv(t: Tables, op: Op, defaultDelimiter: string)
    requires Inv(t) && ValidDelimiter(defaultDelimiter) && OpError(t, op).None?
    requires op.CreateServer? || op.UpdateServer?
    ensures Inv(Apply(t, op, defaultDelimiter))
  {
    hide ServersValid, ResourcesHang, ActionsHang, ResourceHandlesDiffer, ActionHandlesDiffer, KeepsRows;
    var u := Apply(t, op, defaultDelimiter);
    ServerOpKeepsServersValid(t, op, defaultDelimiter);
    ServerChangeKeepsRows(t, u);
    KeptRowsFit(t, u);
    KeptRowsDiffer(t, u);
  }

  lemma NoRowOnUndependedServer(t: Tables, id: Id)
    requires ActionsHang(t) && !ServerHasDependencies(t, id)
    ensures forall r | r in t.resources :: t.resources[r].server != id
    ensures forall a | a in t.actions :: t.actions[a].server != id
  {
    forall a | a in t.actions ensures t.actions[a].server != id {
      assert ActionFits(t, t.actions[a]);
    }
  }

  /** The server guard ignores the actions of resources, yet no action is orphaned: such an action has a
      resource on the same server, and that resource blocks the delete. */
  lemma DeleteServerKeepsInv(t: Tables, id: Id, defaultDelimiter: string)
    requires Inv(t) && OpError(t, DeleteServer(id)).None?
    ensures Inv(Apply(t, DeleteServer(id), defaultDelimiter))
  {
    hide ResourcesHang, ActionsHang, ResourceHandlesDiffer, ActionHandlesDiffer, KeepsRows;
    var u := Apply(t, DeleteServer(id), defaultDelimiter);
    if id in t.servers {
      NoRowOnUndependedServer(t, id);
    }
    ServerChangeKeepsRows(t, u);
    KeptRowsFit(t, u);
    KeptRowsDiffer(t, u);
    assert ServersValid(u);
  }

  lemma CreateResourceKeepsInv(t: Tables, op: Op, defaultDelimiter: string)
    requires Inv(t) && OpError(t, op).None? && op.CreateResource?
    ensures Inv(Apply(t, op, defaultDelimiter))
  {
    var u := Apply(t, op, defaultDelimiter);
    HandleErrorIff(op.handle, t.servers[op.server].delimiter);
    forall r | r in u.resources ensures ResourceFits(u, u.resources[r]) {
      var row := u.resources[r];
      assert RowFits(t, row.server, row.parent, row.handle, row.permission);
      AnchoredRowFits(t, u, row.server, row.parent, row.handle, row.permission);
    }
    forall a | a in u.actions ensures ActionFits(u, u.actions[a]) {
      var row := u.actions[a];
      AnchoredRowFits(t, u, row.server, row.resource, row.handle, row.permission);
    }
    NewResourceHandleDiffers(t, u, op);
  }

  lemma NewResourceHandleDiffers(t: Tables, u: Tables, op: Op)
    requires ResourceHandlesDiffer(t) && op.CreateResource?
    requires !ResourceHandleTaken(t, op.server, op.parent, op.handle)
    requires op.id in u.resources && u.resources == t.resources[op.id := u.resources[op.id]]
    requires u.resources[op.id].server == op.server && u.resources[op.id].parent == op.parent
    requires u.resources[op.id].handle == op.handle
    ensures ResourceHandlesDiffer(u)
  {
    forall r | r in t.resources && t.resources[r].server == op.server && t.resources[r].parent == op.parent
      ensures t.resources[r].handle != op.handle
    {
      assert FindsResource(t, op.server, r);
    }
  }

  lemma CreateActionKeepsInv(t: Tables, op: Op, defaultDelimiter: string)
    requires Inv(t) && OpError(t, op).None? && op.CreateAction?
    ensures Inv(Apply(t, op, defaultDelimiter))
  {
    var u := Apply(t, op, defaultDelimiter);
    HandleErrorIff(op.handle, t.servers[op.server].delimiter);
    forall r | r in u.resources ensures ResourceFits(u, u.resources[r]) {
      var row := u.resources[r];
      AnchoredRowFits(t, u, row.server, row.parent, row.handle, row.permission);
    }
    forall a | a in u.actions ensures ActionFits(u, u.actions[a]) {
      var row := u.actions[a];
      assert RowFits(t, row.server, row.resource, row.handle, row.permission);
      AnchoredRowFits(t, u, row.server, row.resource, row.handle, row.permission);
    }
    NewActionHandleDiffers(t, u, op);
  }

  lemma NewActionHandleDiffers(t: Tables, u: Tables, op: Op)
    requires ActionHandlesDiffer(t) && op.CreateAction?
    requires !ActionHandleTaken(t, op.server, op.resource, op.handle)
    requires op.id in u.actions && u.actions == t.actions[op.id := u.actions[op.id]]
    requires u.actions[op.id].server == op.server && u.actions[op.id].resource == op.resource
    requires u.actions[op.id].handle == op.handle
    ensures ActionHandlesDiffer(u)
  {
    forall a | a in t.actions && t.actions[a].server == op.server && t.actions[a].resource == op.resource
      ensures t.actions[a].handle != op.handle
    {
      assert FindsAction(t, op.server, op.resource, a);
    }
  }

  lemma RenameOrDeleteKeepsRows(t: Tables, op: Op, defaultDelimiter: string)
    requires OpError(t, op).None?
    requires op.UpdateResource? || op.DeleteResource? || op.UpdateAction? || op.DeleteAction?
    ensures KeepsRows(t, Apply(t, op, defaultDelimiter))
    ensures Apply(t, op, defaultDelimiter).servers == t.servers
  {
  }

  lemma RenameOrDeleteKeepsInv(t: Tables, op: Op, defaultDelimiter: string)
    requires Inv(t) && OpError(t, op).None?
    requires op.UpdateResource? || op.DeleteResource? || op.UpdateAction? || op.DeleteAction?
    ensures Inv(Apply(t, op, defaultDelimiter))
  {
    var u := Apply(t, op, defaultDelimiter);
    RenameOrDeleteKeepsRows(t, op, defaultDelimiter);
    KeptRowsFit(t, u);
    KeptRowsDiffer(t, u);
    assert ServersValid(u);
  }

  lemma StepKeepsInv(t: Tables, op: Op, defaultDelimiter: string)
    requires Inv(t) && ValidDelimiter(defaultDelimiter)
    ensures Inv(Apply(t, op, defaultDelimiter))
  {
    if OpError(t, op).None? {
      match op
      case CreateServer(_, _, _, _, _, _) => ServerOpKeepsInv(t, op, defaultDelimiter);
      case UpdateServer(_, _, _, _, _) => ServerOpKeepsInv(t, op, defaultDelimiter);
      case DeleteServer(id) => DeleteServerKeepsInv(t, id, defaultDelimiter);
      case CreateResource(_, _, _, _, _) => CreateResourceKeepsInv(t, op, defaultDelimiter);
      case CreateAction(_, _, _, _, _) => CreateActionKeepsInv(t, op, defaultDelimiter);
      case _ => RenameOrDeleteKeepsInv(t, op, defaultDelimiter);
    }
  }

  /** In every reachable state no resource or action outlives its parent or its server, sibling handles
      differ, and every stored permission is the one its place derives. */
  lemma {:induction false} RunKeepsInv(t: Tables, ops: seq<Op>, defaultDelimiter: string)
    requires Inv(t) && ValidDelimiter(defaultDelimiter)
    ensures Inv(Run(t, ops, defaultDelimiter))
    decreases |ops|
  {
    if ops != [] {
      StepKeepsInv(t, ops[0], defaultDelimiter);
      RunKeepsInv(Apply(t, ops[0], defaultDelimiter), ops[1..], defaultDelimiter);
    }
  }

  // ---------------------------------------------------------------- immutability over runs

  predicate Creates(op: Op, id: Id) {
    (op.CreateServer? || op.CreateResource? || op.CreateAction?) && op.id == id
  }

  /** Whatever `id` names in `u` it already named in `t`, with the same immutable fields. */
  predicate SameIdentity(t: Tables, u: Tables, id: Id) {
    && (id in u.servers ==> id in t.servers && u.servers[id].delimiter == t.servers[id].delimiter)
    && (id in u.resources ==> id in t.resources && u.resources[id] == t.resources[id].(name := u.resources[id].name))
    && (id in u.actions ==> id in t.actions && u.actions[id] == t.actions[id].(name := u.actions[id].name))
  }

  lemma StepKeepsIdentity(t: Tables, op: Op, defaultDelimiter: string, id: Id)
    requires !Creates(op, id)
    ensures SameIdentity(t, Apply(t, op, defaultDelimiter), id)
  {
    hide NewRowError, ParentPermission, DerivePermission;
  }

  /** Delimiter, server, parent, handle and permission never change after creation: over any run that
      does not mint `id` again, `id` keeps every field but its name (and a server its delimiter). */
  lemma {:induction false} RunKeepsIdentity(t: Tables, ops: seq<Op>, defaultDelimiter: string, id: Id)
    requires forall i | 0 <= i < |ops| :: !Creates(ops[i], id)
    ensures SameIdentity(t, Run(t, ops, defaultDelimiter), id)
    decreases |ops|
  {
    if ops != [] {
      var u := Apply(t, ops[0], defaultDelimiter);
      assert !Creates(ops[0], id);
      StepKeepsIdentity(t, ops[0], defaultDelimiter, id);
      RunKeepsIdentity(u, ops[1..], defaultDelimiter, id);
    }
  }

  /** The permission a resource is created with is the one it has as long as it lives, and as long as it
      lives no other resource of its server has that permission. */
  lemma CreatedPermissionIsFixedAndUnique(before: Tables, op: Op, later: seq<Op>, defaultDelimiter: string, other: Id)
    requires Inv(before) && ValidDelimiter(defaultDelimiter)
    requires op.CreateResource? && OpError(before, op).None?
    requires forall i | 0 <= i < |later| :: !Creates(later[i], op.id)
    ensures var created := Apply(before, op, defaultDelimiter);
            var after := Run(created, later, defaultDelimiter);
            op.id in after.resources ==>
              && after.resources[op.id].permission == created.resources[op.id].permission
              && (other in after.resources && after.resources[other].server == op.server && other != op.id ==>
                    after.resources[other].permission != created.resources[op.id].permission)
  {
    var created := Apply(before, op, defaultDelimiter);
    StepKeepsInv(before, op, defaultDelimiter);
    RunKeepsInv(created, later, defaultDelimiter);
    RunKeepsIdentity(created, later, defaultDelimiter, op.id);
    var after := Run(created, later, defaultDelimiter);
    if op.id in after.resources && other in after.resources &&
       after.resources[other].server == op.server && other != op.id &&
       after.resources[other].permission == created.resources[op.id].permission
    {
      ResourcePermissionsAreInjective(after, other, op.id);
      assert false;
    }
  }

  /** Three creates reach tables in which a resource and an action of one server share a permission. */
  lemma ResourceAndActionCollide()
    ensures var ops := [CreateServer("s", "s", "ou", true, "", ":"), CreateResource("s", "r", None, "n", "a"),
                        CreateAction("s", None, "x", "n", "a")];
            var t := Run(EMPTY, ops, ":");
            && "r" in t.resources && "x" in t.actions && t.resources["r"].server == t.actions["x"].server
            && t.resources["r"].permission == t.actions["x"].permission
  {
    var first := Apply(EMPTY, CreateServer("s", "s", "ou", true, "", ":"), ":");
    var second := Apply(first, CreateResource("s", "r", None, "n", "a"), ":");
    var third := Apply(second, CreateAction("s", None, "x", "n", "a"), ":");
    HandleErrorIff("a", ":");
    assert "s" in first.servers && first.servers["s"].delimiter == ":";
    assert "r" in second.resources;
    assert Run(third, [], ":") == third;
  }
}
