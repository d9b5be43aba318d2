/** The organization-unit service and store: the imperative operations, each tied to the table steps of
    OrganizationUnits and to the path relation of OrganizationUnitPaths. */
module OrganizationUnitService {
  import opened Prelude
  import opened Text
  import opened OrganizationUnits
  import opened OrganizationUnitPaths

  /** Splits, trims and filters a handle path. */
  method ValidateAndProcessHandlePath(handlePath: string) returns (handles: Result<seq<string>, OuError>)
    ensures handles == ReadPath(handlePath)
  {
    if TrimSpace(handlePath) == "" {
      return Err(InvalidHandlePath);
    }
    var trimmed := Trim(handlePath, IsSlash);
    if trimmed == "" {
      return Err(InvalidHandlePath);
    }
    var pieces := Split(trimmed, '/');
    var validHandles := [];
    for i := 0 to |pieces|
      invariant validHandles == Segments(pieces[..i])
    {
      if TrimSpace(pieces[i]) != "" {
        validHandles := validHandles + [TrimSpace(pieces[i])];
      }
      assert pieces[..i + 1] == pieces[..i] + [pieces[i]];
      SegmentsAppend(pieces[..i], [pieces[i]]);
    }
    assert pieces[..|pieces|] == pieces;
    OuterSlashesIgnored(handlePath);
    handles := Ok(validHandles);
  }

  /** Walks up from the proposed parent; errs exactly when the walk meets the unit itself. */
  method CheckCircularDependency(units: OuTable, ouID: OuId, parentID: Option<OuId>) returns (error: Option<OuError>)
    requires Acyclic(units)
    ensures error == if parentID.Some? && AncestorOrSelf(units, ouID, parentID.value)
                     then Some(CircularDependency) else None
  {
    if parentID.None? {
      return None;
    }
    var start := parentID.value;
    assert Up(units, start, 0) == Some(start);
    if ouID == start {
      return Some(CircularDependency);
    }
    var currentParentID := parentID;
    ghost var k: nat := 0;
    while currentParentID.Some?
      invariant Up(units, start, k) == currentParentID
      invariant WalkedPast(units, start, k, ouID)
      decreases |units| - k
    {
      if currentParentID.value == ouID {
        return Some(CircularDependency);
      }
      if currentParentID.value !in units {
        break;
      }
      WalkStep(units, start, k, ouID, currentParentID.value);
      currentParentID := units[currentParentID.value].parent;
      k := k + 1;
    }
    WalkExhausted(units, start, k, ouID);
    error := None;
  }

  /** Walks up from the child until the parent is met, a row is missing, or a root is passed. */
  method ClimbTo(units: OuTable, parentID: OuId, childID: OuId) returns (result: Result<bool, OuError>)
    requires Acyclic(units) && ParentsExist(units)
    ensures if childID != parentID && childID !in units then result == Err(NotFound)
            else result.Ok? && (result.value <==> AncestorOrSelf(units, parentID, childID))
  {
    var currentParent := Some(childID);
    ghost var k: nat := 0;
    assert Up(units, childID, 0) == Some(childID);
    while currentParent.Some?
      invariant Up(units, childID, k) == currentParent
      invariant WalkedPast(units, childID, k, parentID)
      decreases |units| - k
    {
      if currentParent.value == parentID {
        return Ok(true);
      }
      if currentParent.value !in units {
        OnlyTheStartIsMissing(units, childID, k, parentID);
        return Err(NotFound);
      }
      WalkStep(units, childID, k, parentID, currentParent.value);
      currentParent := units[currentParent.value].parent;
      k := k + 1;
    }
    assert Up(units, childID, 0) == Some(childID);
    WalkExhausted(units, childID, k, parentID);
    result := Ok(false);
  }

  /** Follows the handles from the roots down. */
  method FindByHandles(units: OuTable, handlePath: seq<string>) returns (found: Option<OuId>)
    requires SiblingsDiffer(units)
    ensures forall x :: HasPath(units, x, handlePath) <==> found == Some(x)
  {
    found := None;
    if |handlePath| == 0 {
      return;
    }
    for i := 0 to |handlePath|
      invariant i == 0 ==> found.None?
      invariant i > 0 ==> found.Some? && HasPath(units, found.value, handlePath[..i])
    {
      var handle := handlePath[i];
      var rows := RowsByHandle(units, handle, found);
      if rows == {} {
        forall x ensures !HasPath(units, x, handlePath) {
          if HasPath(units, x, handlePath) {
            NextRowExists(units, x, handlePath, i, found);
            assert false;
          }
        }
        return None;
      }
      var next :| next in rows;
      assert handlePath[..i + 1][..i] == handlePath[..i];
      found := Some(next);
    }
    assert handlePath[..|handlePath|] == handlePath;
    forall x | HasPath(units, x, handlePath) ensures found == Some(x) {
      PathsAreInjective(units, x, found.value, handlePath);
    }
  }

  /** How the lookup of a path that stands for no unit ends. A path of white space only, or of slashes only, is no
      path at all. */
  function PathError(handlePath: string): OuError {
    if (forall i | 0 <= i < |handlePath| :: IsSpace(handlePath[i])) ||
       (forall i | 0 <= i < |handlePath| :: handlePath[i] == '/')
    then InvalidHandlePath else NotFound
  }

  lemma NoPathIff(handlePath: string)
    ensures PathError(handlePath) == InvalidHandlePath <==> ReadPath(handlePath).Err?
    ensures ReadPath(handlePath).Err? ==> ReadPath(handlePath).error == InvalidHandlePath
  {
    BlankIff(handlePath);
    TrimIsClean(handlePath, IsSlash);
  }

  class OrganizationUnitService {
    var units: OuTable

    ghost predicate Valid()
      reads this
    {
      Forest(units)
    }

    constructor ()
      ensures Valid() && units == map[]
    {
      units := map[];
      new;
      ReachableTablesAreForests([]);
    }

    method CreateOrganizationUnit(ouID: OuId, request: OrganizationUnit) returns (error: Option<OuError>)
      requires Valid()
      modifies this
      ensures Valid()
      ensures error == OpError(old(units), Create(ouID, request))
      ensures units == Apply(old(units), Create(ouID, request))
      ensures error.None? ==> ouID !in old(units) && units == old(units)[ouID := request]
      ensures error.Some? ==> units == old(units)
    {
      if !ValidName(request.name) || !ValidHandle(request.handle) {
        return Some(InvalidRequestFormat);
      }
      if request.parent.Some? && request.parent.value !in units {
        return Some(ParentNotFound);
      }
      if NameTaken(units, request.name, request.parent) {
        return Some(NameConflict);
      }
      if HandleTaken(units, request.handle, request.parent) {
        return Some(HandleConflict);
      }
      if ouID in units {
        return Some(InternalServerError);
      }
      CreateKeepsForest(units, ouID, request);
      units := units[ouID := request];
      error := None;
    }

    /** Whether `parentID` is `childID` or one of its ancestors. */
    method IsParent(parentID: OuId, childID: OuId) returns (result: Result<bool, OuError>)
      requires Valid()
      ensures TrimSpace(parentID) == "" || TrimSpace(childID) == "" ==> result == Err(InvalidRequestFormat)
      ensures TrimSpace(parentID) != "" && TrimSpace(childID) != "" ==>
                if childID != parentID && childID !in units then result == Err(NotFound)
                else result.Ok? && (result.value <==> AncestorOrSelf(units, parentID, childID))
    {
      if TrimSpace(parentID) == "" || TrimSpace(childID) == "" {
        return Err(InvalidRequestFormat);
      }
      result := ClimbTo(units, parentID, childID);
    }

    method UpdateOrganizationUnit(id: OuId, request: OrganizationUnit) returns (error: Option<OuError>)
      requires Valid()
      modifies this
      ensures Valid()
      ensures error == OpError(old(units), Update(id, request))
      ensures units == Apply(old(units), Update(id, request))
      ensures error.None? ==> id in old(units) && units == old(units)[id := request]
      ensures error.Some? ==> units == old(units)
    {
      if id !in units {
        return Some(NotFound);
      }
      error := UpdateOUInternal(id, request);
    }

    method UpdateOUInternal(id: OuId, request: OrganizationUnit) returns (error: Option<OuError>)
      requires Valid() && id in units
      modifies this
      ensures Valid()
      ensures error == OpError(old(units), Update(id, request))
      ensures units == Apply(old(units), Update(id, request))
      ensures error.None? ==> id in old(units) && units == old(units)[id := request]
      ensures error.Some? ==> units == old(units)
    {
      var existing := units[id];
      if !ValidName(request.name) || !ValidHandle(request.handle) {
        return Some(InvalidRequestFormat);
      }
      if request.parent.Some? && request.parent.value !in units {
        return Some(ParentNotFound);
      }
      error := CheckCircularDependency(units, id, request.parent);
      if error.Some? {
        return;
      }
      // The parents are compared as pointers: two set parents always differ.
      var parentChanged := existing.parent.Some? || request.parent.Some?;
      if parentChanged || existing.name != request.name {
        if NameTaken(units, request.name, request.parent) {
          return Some(NameConflict);
        }
      }
      if parentChanged || existing.handle != request.handle {
        if HandleTaken(units, request.handle, request.parent) {
          return Some(HandleConflict);
        }
      }
      UpdateKeepsForest(units, id, request);
      units := units[id := request];
    }

    method DeleteOrganizationUnit(id: OuId, members: bool) returns (error: Option<OuError>)
      requires Valid()
      modifies this
      ensures Valid()
      ensures error == OpError(old(units), Delete(id, members))
      ensures units == Apply(old(units), Delete(id, members))
      ensures error.None? ==> id in old(units) && units == old(units) - {id}
      ensures error.Some? ==> units == old(units)
    {
      if id !in units {
        return Some(NotFound);
      }
      error := DeleteOUInternal(id, members);
    }

    method DeleteOUInternal(id: OuId, members: bool) returns (error: Option<OuError>)
      requires Valid() && id in units
      modifies this
      ensures Valid()
      ensures error == OpError(old(units), Delete(id, members))
      ensures units == Apply(old(units), Delete(id, members))
      ensures error.None? ==> id in old(units) && units == old(units) - {id}
      ensures error.Some? ==> units == old(units)
    {
      if HasChildren(units, id) || members {
        return Some(CannotDelete);
      }
      DeleteKeepsForest(units, id, members);
      GuardedDeleteRemovesOneRow(units, id);
      units := units - {id};
      error := None;
    }

    /** A path string finds the unit it stands for, and nothing else. */
    method GetOrganizationUnitByPath(handlePath: string) returns (found: Result<OuId, OuError>)
      requires Valid()
      ensures forall x :: Finds(units, handlePath, x) <==> found == Ok(x)
      ensures found.Err? ==> found.error == PathError(handlePath)
    {
      NoPathIff(handlePath);
      var handles := ValidateAndProcessHandlePath(handlePath);
      if handles.Err? {
        return Err(handles.error);
      }
      var row := FindByHandles(units, handles.value);
      found := if row.Some? then Ok(row.value) else Err(NotFound);
    }

    method UpdateOrganizationUnitByPath(handlePath: string, request: OrganizationUnit)
      returns (error: Option<OuError>, ghost id: OuId)
      requires Valid()
      modifies this
      ensures Valid()
      ensures if exists x :: Finds(old(units), handlePath, x)
              then Finds(old(units), handlePath, id) && error == OpError(old(units), Update(id, request)) &&
                   units == if error.None? then old(units)[id := request] else old(units)
              else error == Some(PathError(handlePath)) && units == old(units)
    {
      id := "";
      var existing := GetOrganizationUnitByPath(handlePath);
      if existing.Err? {
        return Some(existing.error), id;
      }
      id := existing.value;
      assert Finds(units, handlePath, id);
      error := UpdateOUInternal(existing.value, request);
    }

    method DeleteOrganizationUnitByPath(handlePath: string, members: bool)
      returns (error: Option<OuError>, ghost id: OuId)
      requires Valid()
      modifies this
      ensures Valid()
      ensures if exists x :: Finds(old(units), handlePath, x)
              then Finds(old(units), handlePath, id) && error == OpError(old(units), Delete(id, members)) &&
                   units == if error.None? then old(units) - {id} else old(units)
              else error == Some(PathError(handlePath)) && units == old(units)
    {
      id := "";
      var existing := GetOrganizationUnitByPath(handlePath);
      if existing.Err? {
        return Some(existing.error), id;
      }
      id := existing.value;
      assert Finds(units, handlePath, id);
      error := DeleteOUInternal(existing.value, members);
    }
  }
}
