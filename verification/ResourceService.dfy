/** The resource service: each call checks, in the source's order, what the step specification of
    ResourceSteps says, and then writes one table. */
module ResourceService {
  import opened Prelude
  import opened ResourcePermissions
  import opened ResourceSteps

  /** Scans a handle from the left for the first character that may not occur in it. */
  method ValidateHandle(handle: string, delimiter: string) returns (error: Option<ResourceError>)
    ensures error == HandleError(handle, delimiter)
    ensures handle != "" ==> (error.None? <==> ValidHandle(handle, delimiter))
  {
    if handle != "" {
      HandleErrorIff(handle, delimiter);
    }
    if |handle| > MAX_HANDLE {
      return Some(InvalidHandle);
    }
    for i := 0 to |handle|
      invariant CharactersError(handle, delimiter) == CharactersError(handle[i..], delimiter)
    {
      assert handle[i..] != "" && handle[i..][1..] == handle[i + 1..];
      if !IsPermissionCharacter(handle[i]) {
        return Some(InvalidHandle);
      }
      if [handle[i]] == delimiter {
        return Some(DelimiterInHandle);
      }
    }
    assert handle[|handle|..] == "";
    error := None;
  }

  /** The permission is the handle, after the parent's permission and the server's delimiter if there is a parent. */
  predicate PrintedBelow(t: Tables, server: Id, parent: Option<Id>, handle: string, permission: string) {
    && server in t.servers
    && if parent.Some? then
         parent.value in t.resources &&
         permission == t.resources[parent.value].permission + t.servers[server].delimiter + handle
       else permission == handle
  }

  class ResourceService {
    const defaultDelimiter: string
    var tables: Tables

    ghost predicate Valid()
      reads this
    {
      ValidDelimiter(defaultDelimiter) && Inv(tables)
    }

    constructor (defaultDelimiter: string)
      requires ValidDelimiter(defaultDelimiter)
      ensures Valid() && tables == EMPTY && this.defaultDelimiter == defaultDelimiter
    {
      this.defaultDelimiter := defaultDelimiter;
      tables := EMPTY;
    }

    /** One call's whole effect on the tables `before`: its error and the tables it leaves behind. */
    ghost predicate Performed(before: Tables, op: Op, error: Option<ResourceError>)
      reads this
    {
      && error == OpError(before, op)
      && tables == Apply(before, op, defaultDelimiter)
    }

    method CreateResourceServer(id: Id, name: string, ouID: string, ouExists: bool, identifier: string,
                                delimiter: string)
      returns (error: Option<ResourceError>)
      requires Valid()
      modifies this
      ensures Valid() && Performed(old(tables), CreateServer(id, name, ouID, ouExists, identifier, delimiter), error)
      ensures error.None? ==>
                && id !in old(tables).servers
                && tables == old(tables).(servers := old(tables).servers[id :=
                     Server(name, ouID, identifier, if delimiter == "" then defaultDelimiter else delimiter)])
    {
      StepKeepsInv(tables, CreateServer(id, name, ouID, ouExists, identifier, delimiter), defaultDelimiter);
      if name == "" || ouID == "" {
        return Some(InvalidRequestFormat);
      }
      if delimiter != "" && !ValidDelimiter(delimiter) {
        return Some(InvalidDelimiter);
      }
      if !ouExists {
        return Some(OrganizationUnitNotFound);
      }
      if ServerNameTaken(tables, name) {
        return Some(NameConflict);
      }
      if identifier != "" && IdentifierTaken(tables, identifier) {
        return Some(IdentifierConflict);
      }
      var chosen := delimiter;
      if chosen == "" {
        chosen := defaultDelimiter;
      }
      if id in tables.servers {
        return Some(InternalServerError);
      }
      tables := tables.(servers := tables.servers[id := Server(name, ouID, identifier, chosen)]);
      error := None;
    }

    method UpdateResourceServer(id: Id, name: string, ouID: string, ouExists: bool, identifier: string)
      returns (error: Option<ResourceError>)
      requires Valid()
      modifies this
      ensures Valid() && Performed(old(tables), UpdateServer(id, name, ouID, ouExists, identifier), error)
      ensures error.None? ==>
                && id in old(tables).servers
                && tables == old(tables).(servers := old(tables).servers[id :=
                     Server(name, ouID, identifier, old(tables).servers[id].delimiter)])
    {
      StepKeepsInv(tables, UpdateServer(id, name, ouID, ouExists, identifier), defaultDelimiter);
      if id == "" {
        return Some(MissingID);
      }
      if name == "" || ouID == "" {
        return Some(InvalidRequestFormat);
      }
      if id !in tables.servers {
        return Some(ServerNotFound);
      }
      var existing := tables.servers[id];
      if !ouExists {
        return Some(OrganizationUnitNotFound);
      }
      if existing.name != name {
        if ServerNameTaken(tables, name) {
          return Some(NameConflict);
        }
      }
      if identifier != "" && existing.identifier != identifier {
        if IdentifierTaken(tables, identifier) {
          return Some(IdentifierConflict);
        }
      }
      tables := tables.(servers := tables.servers[id := Server(name, ouID, identifier, existing.delimiter)]);
      error := None;
    }

    method DeleteResourceServer(id: Id) returns (error: Option<ResourceError>)
      requires Valid()
      modifies this
      ensures Valid() && Performed(old(tables), DeleteServer(id), error)
      ensures error.None? ==>
                && tables == old(tables).(servers := old(tables).servers - {id})
                && (forall r | r in tables.resources :: tables.resources[r].server != id)
                && (forall a | a in tables.actions :: tables.actions[a].server != id)
    {
      StepKeepsInv(tables, DeleteServer(id), defaultDelimiter);
      if id == "" {
        return Some(MissingID);
      }
      if id !in tables.servers {
        assert tables.servers - {id} == tables.servers;
        return None;
      }
      if ServerHasDependencies(tables, id) {
        return Some(CannotDelete);
      }
      tables := tables.(servers := tables.servers - {id});
      error := None;
    }

    method ValidateNewRow(name: string, handle: string, delimiter: string) returns (error: Option<ResourceError>)
      ensures error == NewRowError(name, handle, delimiter)
    {
      if name == "" {
        return Some(InvalidRequestFormat);
      }
      if handle == "" {
        return Some(InvalidRequestFormat);
      }
      error := ValidateHandle(handle, delimiter);
    }

    method CreateResource(server: Id, id: Id, parent: Option<Id>, name: string, handle: string)
      returns (error: Option<ResourceError>)
      requires Valid()
      modifies this
      ensures Valid() && Performed(old(tables), Op.CreateResource(server, id, parent, name, handle), error)
      ensures error.None? ==>
                && id !in old(tables).resources && id in tables.resources
                && tables == old(tables).(resources := old(tables).resources[id := tables.resources[id]])
                && tables.resources[id] == Resource(server, parent, name, handle, tables.resources[id].permission)
                && PrintedBelow(old(tables), server, parent, handle, tables.resources[id].permission)
    {
      StepKeepsInv(tables, Op.CreateResource(server, id, parent, name, handle), defaultDelimiter);
      if server !in tables.servers {
        return Some(ServerNotFound);
      }
      var delimiter := tables.servers[server].delimiter;
      error := ValidateNewRow(name, handle, delimiter);
      if error.Some? {
        return;
      }
      var parentPermission := None;
      if parent.Some? {
        if !FindsResource(tables, server, parent.value) {
          return Some(ParentNotFound);
        }
        parentPermission := Some(tables.resources[parent.value].permission);
      }
      if ResourceHandleTaken(tables, server, parent, handle) {
        return Some(HandleConflict);
      }
      var permission := DerivePermission(delimiter, parentPermission, handle);
      if id in tables.resources {
        return Some(InternalServerError);
      }
      tables := tables.(resources := tables.resources[id := Resource(server, parent, name, handle, permission)]);
    }

    method UpdateResource(server: Id, id: Id, name: string) returns (error: Option<ResourceError>)
      requires Valid()
      modifies this
      ensures Valid() && Performed(old(tables), Op.UpdateResource(server, id, name), error)
      ensures error.None? ==>
                && id in old(tables).resources && old(tables).resources[id].server == server
                && tables == old(tables).(resources :=
                     old(tables).resources[id := old(tables).resources[id].(name := name)])
    {
      StepKeepsInv(tables, Op.UpdateResource(server, id, name), defaultDelimiter);
      if id == "" || server == "" {
        return Some(MissingID);
      }
      if server !in tables.servers {
        return Some(ServerNotFound);
      }
      if !FindsResource(tables, server, id) {
        return Some(ResourceNotFound);
      }
      tables := tables.(resources := tables.resources[id := tables.resources[id].(name := name)]);
      error := None;
    }

    method DeleteResource(server: Id, id: Id) returns (error: Option<ResourceError>)
      requires Valid()
      modifies this
      ensures Valid() && Performed(old(tables), Op.DeleteResource(server, id), error)
      ensures tables == if error.None? && id in old(tables).resources && old(tables).resources[id].server == server
                        then old(tables).(resources := old(tables).resources - {id}) else old(tables)
    {
      StepKeepsInv(tables, Op.DeleteResource(server, id), defaultDelimiter);
      if id == "" || server == "" {
        return Some(MissingID);
      }
      if server !in tables.servers {
        return None;
      }
      if !FindsResource(tables, server, id) {
        return None;
      }
      if ResourceHasDependencies(tables, id) {
        return Some(CannotDelete);
      }
      tables := tables.(resources := tables.resources - {id});
      error := None;
    }

    method CreateAction(server: Id, resource: Option<Id>, id: Id, name: string, handle: string)
      returns (error: Option<ResourceError>)
      requires Valid()
      modifies this
      ensures Valid() && Performed(old(tables), Op.CreateAction(server, resource, id, name, handle), error)
      ensures error.None? ==>
                && id !in old(tables).actions && id in tables.actions
                && tables == old(tables).(actions := old(tables).actions[id := tables.actions[id]])
                && tables.actions[id] == Action(server, resource, name, handle, tables.actions[id].permission)
                && PrintedBelow(old(tables), server, resource, handle, tables.actions[id].permission)
    {
      StepKeepsInv(tables, Op.CreateAction(server, resource, id, name, handle), defaultDelimiter);
      if server !in tables.servers {
        return Some(ServerNotFound);
      }
      var delimiter := tables.servers[server].delimiter;
      var resourcePermission := None;
      if resource.Some? {
        if !FindsResource(tables, server, resource.value) {
          return Some(ResourceNotFound);
        }
        resourcePermission := Some(tables.resources[resource.value].permission);
      }
      error := ValidateNewRow(name, handle, delimiter);
      if error.Some? {
        return;
      }
      if ActionHandleTaken(tables, server, resource, handle) {
        return Some(HandleConflict);
      }
      var permission := DerivePermission(delimiter, resourcePermission, handle);
      if id in tables.actions {
        return Some(InternalServerError);
      }
      tables := tables.(actions := tables.actions[id := Action(server, resource, name, handle, permission)]);
    }

    method UpdateAction(server: Id, resource: Option<Id>, id: Id, name: string) returns (error: Option<ResourceError>)
      requires Valid()
      modifies this
      ensures Valid() && Performed(old(tables), Op.UpdateAction(server, resource, id, name), error)
      ensures error.None? ==>
                && FindsAction(old(tables), server, resource, id)
                && tables == old(tables).(actions := old(tables).actions[id := old(tables).actions[id].(name := name)])
    {
      StepKeepsInv(tables, Op.UpdateAction(server, resource, id, name), defaultDelimiter);
      if id == "" || server == "" {
        return Some(MissingID);
      }
      if resource == Some("") {
        return Some(MissingID);
      }
      if server !in tables.servers {
        return Some(ServerNotFound);
      }
      if resource.Some? && !FindsResource(tables, server, resource.value) {
        return Some(ResourceNotFound);
      }
      if !FindsAction(tables, server, resource, id) {
        return Some(ActionNotFound);
      }
      tables := tables.(actions := tables.actions[id := tables.actions[id].(name := name)]);
      error := None;
    }

    method DeleteAction(server: Id, resource: Option<Id>, id: Id) returns (error: Option<ResourceError>)
      requires Valid()
      modifies this
      ensures Valid() && Performed(old(tables), Op.DeleteAction(server, resource, id), error)
      ensures tables == if error.None? && id in old(tables).actions && old(tables).actions[id].server == server &&
                           old(tables).actions[id].resource == resource
                        then old(tables).(actions := old(tables).actions - {id}) else old(tables)
    {
      StepKeepsInv(tables, Op.DeleteAction(server, resource, id), defaultDelimiter);
      if id == "" || server == "" {
        return Some(MissingID);
      }
      if resource == Some("") {
        return Some(MissingID);
      }
      if server !in tables.servers {
        return None;
      }
      if resource.Some? && !FindsResource(tables, server, resource.value) {
        return None;
      }
      if !FindsAction(tables, server, resource, id) {
        return None;
      }
      tables := tables.(actions := tables.actions - {id});
      error := None;
    }
  }
}
