/** Handle paths: the root-to-unit list of handles, its printed form with slashes, and the reading of
    a path string back into handles. */
module OrganizationUnitPaths {
  import opened Prelude
  import opened Text
  import opened OrganizationUnits

  // ---------------------------------------------------------------- paths as handle lists

  /** `handles` leads from a root down to `id`. */
  ghost predicate HasPath(t: OuTable, id: OuId, handles: seq<string>)
    decreases |handles|
  {
    handles != [] && id in t && t[id].handle == handles[|handles| - 1] &&
    if |handles| == 1 then t[id].parent.None?
    else t[id].parent.Some? && HasPath(t, t[id].parent.value, handles[..|handles| - 1])
  }

  lemma {:induction false} PathIsUnique(t: OuTable, id: OuId, a: seq<string>, b: seq<string>)
    requires HasPath(t, id, a) && HasPath(t, id, b)
    ensures a == b
    decreases |a|
  {
    if |a| > 1 {
      var p := t[id].parent.value;
      PathIsUnique(t, p, a[..|a| - 1], b[..|b| - 1]);
    }
    assert a == a[..|a| - 1] + [t[id].handle];
    assert b == b[..|b| - 1] + [t[id].handle];
  }

  /** Distinct units have distinct paths. */
  lemma {:induction false} PathsAreInjective(t: OuTable, x: OuId, y: OuId, handles: seq<string>)
    requires SiblingsDiffer(t)
    requires HasPath(t, x, handles) && HasPath(t, y, handles)
    ensures x == y
    decreases |handles|
  {
    if |handles| > 1 {
      PathsAreInjective(t, t[x].parent.value, t[y].parent.value, handles[..|handles| - 1]);
    }
  }

  lemma {:induction false} PathWithin(t: OuTable, id: OuId, k: nat) returns (handles: seq<string>)
    requires ParentsExist(t) && id in t && Up(t, id, k).None?
    ensures HasPath(t, id, handles)
    decreases k
  {
    if t[id].parent.None? {
      handles := [t[id].handle];
    } else {
      var above := PathWithin(t, t[id].parent.value, k - 1);
      handles := above + [t[id].handle];
      assert handles[..|handles| - 1] == above;
    }
  }

  /** In a forest every unit has a path. */
  lemma PathExists(t: OuTable, id: OuId) returns (handles: seq<string>)
    requires Forest(t) && id in t
    ensures HasPath(t, id, handles)
  {
    WalkEnds(t, id);
    handles := PathWithin(t, id, |t| + 1);
  }

  /** Every prefix of a path is the path of an ancestor. */
  lemma {:induction false} PathPrefix(t: OuTable, id: OuId, handles: seq<string>, n: nat) returns (above: OuId)
    requires HasPath(t, id, handles) && 1 <= n <= |handles|
    ensures HasPath(t, above, handles[..n])
    decreases |handles|
  {
    if n == |handles| {
      assert handles[..n] == handles;
      above := id;
    } else {
      above := PathPrefix(t, t[id].parent.value, handles[..|handles| - 1], n);
      assert handles[..|handles| - 1][..n] == handles[..n];
    }
  }

  lemma {:induction false} PathHandlesAreStored(t: OuTable, id: OuId, handles: seq<string>)
    requires HasPath(t, id, handles)
    ensures forall i | 0 <= i < |handles| :: exists x :: x in t && t[x].handle == handles[i]
    decreases |handles|
  {
    forall i | 0 <= i < |handles| ensures exists x :: x in t && t[x].handle == handles[i] {
      var x := PathPrefix(t, id, handles, i + 1);
      assert handles[..i + 1][i] == handles[i];
    }
  }

  /** The rows a handle query selects below `parent`. */
  function RowsByHandle(t: OuTable, handle: string, parent: Option<OuId>): set<OuId> {
    set x | x in t && t[x].handle == handle && t[x].parent == parent
  }

  /** A unit whose path goes through the current one has a matching row at the next step. */
  lemma NextRowExists(t: OuTable, x: OuId, handles: seq<string>, i: nat, current: Option<OuId>)
    requires SiblingsDiffer(t) && HasPath(t, x, handles) && i < |handles|
    requires if i == 0 then current.None? else current.Some? && HasPath(t, current.value, handles[..i])
    ensures RowsByHandle(t, handles[i], current) != {}
  {
    var y := PathPrefix(t, x, handles, i + 1);
    assert handles[..i + 1][..i] == handles[..i];
    if i > 0 {
      PathsAreInjective(t, t[y].parent.value, current.value, handles[..i]);
    }
    assert y in RowsByHandle(t, handles[i], current);
  }

  // ---------------------------------------------------------------- reading a path string

  function PathSegments(path: string): seq<string> {
    Segments(Split(path, '/'))
  }

  /** The handles a path string stands for; a path of nothing but white space or nothing but slashes
      is an error. */
  function ReadPath(path: string): Result<seq<string>, OuError> {
    if TrimSpace(path) == "" || Trim(path, IsSlash) == "" then Err(InvalidHandlePath)
    else Ok(PathSegments(path))
  }

  /** A slash only separates: reading distributes over it, wherever it is put and however often. */
  lemma PathSegmentsAtSlash(a: string, b: string)
    ensures PathSegments(a + "/" + b) == PathSegments(a) + PathSegments(b)
    ensures PathSegments("/" + b) == PathSegments(b)
    ensures PathSegments(a + "/") == PathSegments(a)
  {
    SplitAtSep(a, b, '/');
    SegmentsAppend(Split(a, '/'), Split(b, '/'));
    SplitAtSep("", b, '/');
    SegmentsAppend(Split("", '/'), Split(b, '/'));
    SplitAtSep(a, "", '/');
    SegmentsAppend(Split(a, '/'), Split("", '/'));
    assert "" + "/" + b == "/" + b;
    assert a + "/" + "" == a + "/";
  }

  /** Slashes around a path do not matter. */
  lemma {:induction false} OuterSlashesIgnoredLeft(path: string)
    ensures PathSegments(TrimLeft(path, IsSlash)) == PathSegments(path)
  {
    if path != "" && path[0] == '/' {
      OuterSlashesIgnoredLeft(path[1..]);
      PathSegmentsAtSlash("", path[1..]);
      assert path == "/" + path[1..];
    }
  }

  lemma {:induction false} OuterSlashesIgnoredRight(path: string)
    ensures PathSegments(TrimRight(path, IsSlash)) == PathSegments(path)
  {
    if path != "" && path[|path| - 1] == '/' {
      var front := path[..|path| - 1];
      OuterSlashesIgnoredRight(front);
      PathSegmentsAtSlash(front, "");
      assert path == front + "/";
    }
  }

  lemma OuterSlashesIgnored(path: string)
    ensures PathSegments(Trim(path, IsSlash)) == PathSegments(path)
  {
    OuterSlashesIgnoredLeft(path);
    OuterSlashesIgnoredRight(TrimLeft(path, IsSlash));
  }

  /** Reading undoes printing for trimmed, non-blank, slash-free handles. */
  lemma ReadPathOfJoin(handles: seq<string>)
    requires handles != [] && SepFree(handles, '/')
    requires forall i | 0 <= i < |handles| :: Trimmed(handles[i]) && handles[i] != ""
    ensures ReadPath(Join(handles, '/')) == Ok(handles)
  {
    var path := Join(handles, '/');
    SegmentsOfJoin(handles, '/');
    assert PathSegments("") == [];
    if Trim(path, IsSlash) == "" {
      OuterSlashesIgnored(path);
      assert false;
    }
  }

  // ---------------------------------------------------------------- lookup by path string

  /** Looking up `path` finds `id`. */
  ghost predicate Finds(t: OuTable, path: string, id: OuId) {
    ReadPath(path).Ok? && HasPath(t, id, ReadPath(path).value)
  }

  /** A path string finds at most one unit. */
  lemma FindsAtMostOne(t: OuTable, path: string, x: OuId, y: OuId)
    requires Forest(t) && Finds(t, path, x) && Finds(t, path, y)
    ensures x == y
  {
    PathsAreInjective(t, x, y, ReadPath(path).value);
  }

  lemma StoredHandlesAreReadable(t: OuTable, id: OuId, handles: seq<string>)
    requires Forest(t) && HasPath(t, id, handles)
    ensures forall i | 0 <= i < |handles| :: Trimmed(handles[i]) ==> handles[i] != "" && '/' !in handles[i]
  {
    PathHandlesAreStored(t, id, handles);
  }

  /** Path lookup inverts path printing exactly where it can: a unit is found by some path string if and
      only if every handle from its root down to it is trimmed, and then the plain slash-join finds it. */
  lemma FoundByPathIff(t: OuTable, id: OuId, handles: seq<string>)
    requires Forest(t) && HasPath(t, id, handles)
    ensures (exists path :: Finds(t, path, id)) <==> (forall i | 0 <= i < |handles| :: Trimmed(handles[i]))
    ensures (forall i | 0 <= i < |handles| :: Trimmed(handles[i])) ==> Finds(t, Join(handles, '/'), id)
  {
    if forall i | 0 <= i < |handles| :: Trimmed(handles[i]) {
      StoredHandlesAreReadable(t, id, handles);
      ReadPathOfJoin(handles);
      assert Finds(t, Join(handles, '/'), id);
    }
    if path :| Finds(t, path, id) {
      SegmentsAreTrimmed(Split(path, '/'));
      PathIsUnique(t, id, handles, ReadPath(path).value);
    }
  }

  /** A stored handle with a trailing blank is accepted by the service and then found by no path. */
  lemma UntrimmedHandleIsUnreachable()
    ensures var t := Run(map[], [Create("1", OrganizationUnit("a ", "n", "", None))]);
            "1" in t && forall path :: !Finds(t, path, "1")
  {
    var row := OrganizationUnit("a ", "n", "", None);
    var ops := [Create("1", row)];
    assert TrimRight("n", IsSpace) == "n" && TrimLeft("n", IsSpace) == "n";
    assert TrimLeft("a ", IsSpace) == "a ";
    assert "a "[..1] == "a";
    assert TrimRight("a", IsSpace) == "a";
    assert TrimRight("a ", IsSpace) == "a";
    assert ops[1..] == [];
    var t := Apply(map[], ops[0]);
    assert Run(map[], ops) == Run(t, ops[1..]) == t == map["1" := row];
    ReachableTablesAreForests(ops);
    assert HasPath(t, "1", ["a "]);
    FoundByPathIff(t, "1", ["a "]);
    assert !Trimmed(["a "][0]);
  }
}
