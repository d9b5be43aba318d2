/** The application tables, the plain store over them, and the three-cache store in front of it. The
    abstract contents of the tables are a map from application IDs to applications. */
module ApplicationStore {
  import opened Prelude
  import opened ApplicationRows

  type Contents = map<string, App>

  /** SP_APP by its unique APP_ID; IDN_OAUTH_CONSUMER_APPS by its row key, with no other constraint. */
  datatype Tables = Tables(apps: map<string, AppRow>, oauth: map<nat, OAuthRow>, nextKey: nat)

  datatype StoreError = RowNotFound | StatementFailed

  // ---------------------------------------------------------------- tables and contents

  predicate HasOAuth(contents: Contents, id: string) {
    id in contents && contents[id].inbound.Some?
  }

  ghost predicate AppsMatch(t: Tables, contents: Contents) {
    t.apps.Keys == contents.Keys && forall id :: id in contents ==> t.apps[id] == EncodeApp(contents[id])
  }

  /** An OAuth row belongs to the application it names and encodes its configuration. */
  ghost predicate RowMatches(row: OAuthRow, contents: Contents) {
    HasOAuth(contents, row.appID) && row == EncodeOAuth(row.appID, contents[row.appID].inbound.value)
  }

  ghost predicate RowsMatch(t: Tables, contents: Contents) {
    forall k :: k in t.oauth ==> k < t.nextKey && RowMatches(t.oauth[k], contents)
  }

  ghost predicate OneRowEach(t: Tables) {
    forall k, l :: k in t.oauth && l in t.oauth && k != l ==> t.oauth[k].appID != t.oauth[l].appID
  }

  ghost predicate HasRow(t: Tables, id: string) {
    exists k :: k in t.oauth && t.oauth[k].appID == id
  }

  ghost predicate RowsComplete(t: Tables, contents: Contents) {
    forall id :: HasOAuth(contents, id) ==> HasRow(t, id)
  }

  /** The tables hold exactly the rows of the contents. */
  ghost predicate Represents(t: Tables, contents: Contents) {
    AppsMatch(t, contents) && RowsMatch(t, contents) && OneRowEach(t) && RowsComplete(t, contents)
  }

  function OAuthKeys(t: Tables, id: string): set<nat> {
    set k | k in t.oauth && t.oauth[k].appID == id
  }

  predicate UsesName(contents: Contents, id: string, name: string) {
    id in contents && contents[id].name == name
  }

  predicate UsesClientID(contents: Contents, id: string, clientID: string) {
    HasOAuth(contents, id) && contents[id].inbound.value.clientID == clientID
  }

  predicate NameTaken(contents: Contents, name: string) {
    exists id :: id in contents && UsesName(contents, id, name)
  }

  predicate ClientIDTaken(contents: Contents, clientID: string) {
    exists id :: id in contents && UsesClientID(contents, id, clientID)
  }

  /** Every application is well formed and sits under its ID; names and client IDs are unique. */
  ghost predicate ContentsValid(contents: Contents) {
    && (forall id :: id in contents ==> contents[id].id == id && WellFormed(contents[id]))
    && (forall a, b, name :: UsesName(contents, a, name) && UsesName(contents, b, name) ==> a == b)
    && (forall a, b, clientID :: UsesClientID(contents, a, clientID) && UsesClientID(contents, b, clientID) ==> a == b)
  }

  /** `app` may be written under its ID: nobody else has its name or client ID. */
  ghost predicate MayWrite(contents: Contents, app: App) {
    && WellFormed(app)
    && (forall id :: UsesName(contents, id, app.name) ==> id == app.id)
    && (app.inbound.Some? ==> forall id :: UsesClientID(contents, id, app.inbound.value.clientID) ==> id == app.id)
  }

  lemma WriteKeepsContentsValid(contents: Contents, app: App)
    requires ContentsValid(contents) && MayWrite(contents, app)
    ensures ContentsValid(contents[app.id := app])
  {
    var after := contents[app.id := app];
    forall a, name | UsesName(after, a, name) ensures a == app.id || UsesName(contents, a, name) {
    }
    forall a, c | UsesClientID(after, a, c) ensures a == app.id || UsesClientID(contents, a, c) {
    }
  }

  lemma DeleteKeepsContentsValid(contents: Contents, id: string)
    requires ContentsValid(contents)
    ensures ContentsValid(contents - {id})
  {
    var after := contents - {id};
    forall a, name | UsesName(after, a, name) ensures UsesName(contents, a, name) {
    }
    forall a, c | UsesClientID(after, a, c) ensures UsesClientID(contents, a, c) {
    }
  }

  // ---------------------------------------------------------------- statements on the tables

  function WriteApp(t: Tables, app: App): Tables {
    t.(apps := t.apps[app.id := EncodeApp(app)])
  }

  function InsertOAuth(t: Tables, appID: string, oauth: OAuthApp): Tables {
    t.(oauth := t.oauth[t.nextKey := EncodeOAuth(appID, oauth)], nextKey := t.nextKey + 1)
  }

  function UpdateOAuthByApp(t: Tables, appID: string, oauth: OAuthApp): Tables {
    t.(oauth := map k | k in t.oauth :: if t.oauth[k].appID == appID then EncodeOAuth(appID, oauth) else t.oauth[k])
  }

  function DeleteOAuthByClient(t: Tables, clientID: string): Tables {
    t.(oauth := map k | k in t.oauth && t.oauth[k].clientID != clientID :: t.oauth[k])
  }

  /** Deleting an application cascades to its OAuth rows. */
  function DeleteApp(t: Tables, id: string): Tables {
    t.(apps := t.apps - {id}, oauth := map k | k in t.oauth && t.oauth[k].appID != id :: t.oauth[k])
  }

  /** Rows stay complete when the rows of every application that still has OAuth stay where they are. */
  lemma KeptRowsComplete(t: Tables, contents: Contents, u: Tables, after: Contents, added: string)
    requires RowsComplete(t, contents)
    requires forall id | HasOAuth(after, id) && id != added :: HasOAuth(contents, id)
    requires forall k | k in t.oauth && t.oauth[k].appID != added && HasOAuth(after, t.oauth[k].appID)
               :: k in u.oauth && u.oauth[k].appID == t.oauth[k].appID
    requires HasOAuth(after, added) ==> HasRow(u, added)
    ensures RowsComplete(u, after)
  {
    hide RowMatches;
    forall id | HasOAuth(after, id) ensures HasRow(u, id) {
      if id != added {
        assert HasOAuth(contents, id) && HasRow(t, id);
        var k :| k in t.oauth && t.oauth[k].appID == id;
        assert k in u.oauth && u.oauth[k].appID == id;
      }
    }
  }

  lemma WrittenAppsMatch(t: Tables, contents: Contents, app: App)
    requires AppsMatch(t, contents)
    ensures AppsMatch(WriteApp(t, app), contents[app.id := app])
  {
    hide EncodeApp;
  }

  /** Rows of other applications do not notice a write. */
  lemma OtherRowMatches(contents: Contents, app: App, row: OAuthRow)
    requires RowMatches(row, contents) && row.appID != app.id
    ensures RowMatches(row, contents[app.id := app])
  {
    hide EncodeOAuth;
  }

  /** Writing an application that has no OAuth row and needs none. */
  lemma RepresentsPlain(t: Tables, contents: Contents, app: App)
    requires Represents(t, contents) && !HasOAuth(contents, app.id) && app.inbound.None?
    ensures Represents(WriteApp(t, app), contents[app.id := app])
  {
    var after, u := contents[app.id := app], WriteApp(t, app);
    WrittenAppsMatch(t, contents, app);
    hide EncodeApp, EncodeOAuth, AppsMatch;
    forall k | k in u.oauth ensures RowMatches(u.oauth[k], after) {
      assert RowMatches(t.oauth[k], contents);
      OtherRowMatches(contents, app, t.oauth[k]);
    }
    KeptRowsComplete(t, contents, u, after, app.id);
  }

  lemma AddedRowsMatch(t: Tables, contents: Contents, app: App)
    requires RowsMatch(t, contents) && OneRowEach(t) && !HasOAuth(contents, app.id) && app.inbound.Some?
    ensures var u := InsertOAuth(t, app.id, app.inbound.value);
            RowsMatch(u, contents[app.id := app]) && OneRowEach(u) && HasRow(u, app.id)
  {
    hide EncodeOAuth;
    var after, u := contents[app.id := app], InsertOAuth(t, app.id, app.inbound.value);
    forall k | k in t.oauth ensures k < t.nextKey && RowMatches(t.oauth[k], after) && t.oauth[k].appID != app.id {
      assert RowMatches(t.oauth[k], contents);
      OtherRowMatches(contents, app, t.oauth[k]);
    }
    assert t.nextKey in u.oauth && u.oauth[t.nextKey].appID == app.id;
  }

  /** Writing an application that gains an OAuth row. */
  lemma RepresentsAdded(t: Tables, contents: Contents, app: App)
    requires Represents(t, contents) && !HasOAuth(contents, app.id) && app.inbound.Some?
    ensures Represents(InsertOAuth(WriteApp(t, app), app.id, app.inbound.value), contents[app.id := app])
  {
    hide EncodeApp, EncodeOAuth, RowMatches;
    var after, u := contents[app.id := app], InsertOAuth(WriteApp(t, app), app.id, app.inbound.value);
    WrittenAppsMatch(t, contents, app);
    AddedRowsMatch(t, contents, app);
    KeptRowsComplete(t, contents, u, after, app.id);
  }

  lemma ChangedRowsMatch(t: Tables, contents: Contents, app: App)
    requires RowsMatch(t, contents) && OneRowEach(t) && HasRow(t, app.id) && app.inbound.Some?
    ensures var u := UpdateOAuthByApp(t, app.id, app.inbound.value);
            RowsMatch(u, contents[app.id := app]) && OneRowEach(u) && HasRow(u, app.id)
  {
    hide EncodeOAuth;
    var after, u := contents[app.id := app], UpdateOAuthByApp(t, app.id, app.inbound.value);
    forall k | k in t.oauth && t.oauth[k].appID != app.id ensures RowMatches(t.oauth[k], after) {
      assert RowMatches(t.oauth[k], contents);
      OtherRowMatches(contents, app, t.oauth[k]);
    }
    var own :| own in t.oauth && t.oauth[own].appID == app.id;
    assert own in u.oauth && u.oauth[own].appID == app.id;
  }

  /** Writing an application whose OAuth row changes. */
  lemma RepresentsChanged(t: Tables, contents: Contents, app: App)
    requires Represents(t, contents) && HasOAuth(contents, app.id) && app.inbound.Some?
    ensures Represents(UpdateOAuthByApp(WriteApp(t, app), app.id, app.inbound.value), contents[app.id := app])
  {
    hide EncodeApp, EncodeOAuth, RowMatches;
    var after, u := contents[app.id := app], UpdateOAuthByApp(WriteApp(t, app), app.id, app.inbound.value);
    WrittenAppsMatch(t, contents, app);
    ChangedRowsMatch(t, contents, app);
    KeptRowsComplete(t, contents, u, after, app.id);
  }

  /** Client IDs being unique, the row found by an application's client ID is its own and no other. */
  lemma ClientIDFindsOwnRow(t: Tables, contents: Contents, id: string, clientID: string)
    requires RowsMatch(t, contents) && ContentsValid(contents) && UsesClientID(contents, id, clientID)
    ensures forall k | k in t.oauth :: t.oauth[k].clientID == clientID <==> t.oauth[k].appID == id
  {
    hide EncodeOAuth, WellFormed;
    forall k | k in t.oauth ensures t.oauth[k].clientID == clientID <==> t.oauth[k].appID == id {
      assert RowMatches(t.oauth[k], contents);
      assert UsesClientID(contents, t.oauth[k].appID, t.oauth[k].clientID);
    }
  }

  lemma DroppedRowsMatch(t: Tables, contents: Contents, app: App, clientID: string)
    requires RowsMatch(t, contents) && OneRowEach(t)
    requires forall k | k in t.oauth :: t.oauth[k].clientID == clientID <==> t.oauth[k].appID == app.id
    ensures RowsMatch(DeleteOAuthByClient(t, clientID), contents[app.id := app])
    ensures OneRowEach(DeleteOAuthByClient(t, clientID))
  {
    hide EncodeOAuth;
    var u := DeleteOAuthByClient(t, clientID);
    forall k | k in u.oauth ensures RowMatches(u.oauth[k], contents[app.id := app]) {
      assert RowMatches(t.oauth[k], contents);
      OtherRowMatches(contents, app, t.oauth[k]);
    }
  }

  /** Writing an application that drops its OAuth row. */
  lemma RepresentsDropped(t: Tables, contents: Contents, app: App, clientID: string)
    requires Represents(t, contents) && ContentsValid(contents) && app.inbound.None?
    requires UsesClientID(contents, app.id, clientID)
    ensures Represents(DeleteOAuthByClient(WriteApp(t, app), clientID), contents[app.id := app])
  {
    hide EncodeApp, EncodeOAuth, RowMatches;
    var after, u := contents[app.id := app], DeleteOAuthByClient(WriteApp(t, app), clientID);
    ClientIDFindsOwnRow(t, contents, app.id, clientID);
    hide ContentsValid;
    WrittenAppsMatch(t, contents, app);
    DroppedRowsMatch(t, contents, app, clientID);
    KeptRowsComplete(t, contents, u, after, app.id);
  }

  /** The three ways an update touches the OAuth table: change the row, drop it, or add one. */
  function UpdateTables(t: Tables, existing: App, updated: App): Tables {
    var written := WriteApp(t, updated);
    if updated.inbound.Some? && existing.inbound.Some? then UpdateOAuthByApp(written, updated.id, updated.inbound.value)
    else if existing.inbound.Some? then DeleteOAuthByClient(written, existing.inbound.value.clientID)
    else if updated.inbound.Some? then InsertOAuth(written, updated.id, updated.inbound.value)
    else written
  }

  lemma RepresentsUpdated(t: Tables, contents: Contents, existing: App, updated: App)
    requires Represents(t, contents) && ContentsValid(contents)
    requires updated.id in contents && Normal(existing) == Normal(contents[updated.id])
    ensures Represents(UpdateTables(t, existing, updated), contents[updated.id := updated])
  {
    hide EncodeApp, EncodeOAuth, Normal, NormalOAuth, WellFormed, Represents, ContentsValid;
    NormalKeepsKeys(existing);
    NormalKeepsKeys(contents[updated.id]);
    if existing.inbound.Some? {
      if updated.inbound.Some? {
        RepresentsChanged(t, contents, updated);
      } else {
        RepresentsDropped(t, contents, updated, existing.inbound.value.clientID);
      }
    } else if updated.inbound.Some? {
      RepresentsAdded(t, contents, updated);
    } else {
      RepresentsPlain(t, contents, updated);
    }
  }

  lemma RepresentsDeleted(t: Tables, contents: Contents, id: string)
    requires Represents(t, contents)
    ensures Represents(DeleteApp(t, id), contents - {id})
  {
    hide EncodeApp, EncodeOAuth, RowMatches;
    var after, u := contents - {id}, DeleteApp(t, id);
    forall k | k in u.oauth ensures RowMatches(u.oauth[k], after) {
      assert RowMatches(t.oauth[k], contents);
      RowMatchesWithout(contents, id, t.oauth[k]);
    }
    KeptRowsComplete(t, contents, u, after, id);
  }

  lemma RowMatchesWithout(contents: Contents, id: string, row: OAuthRow)
    requires RowMatches(row, contents) && row.appID != id
    ensures RowMatches(row, contents - {id})
  {
  }

  // ---------------------------------------------------------------- reading a row back

  /** The LEFT JOIN of an application row with its OAuth rows; None when it is not a single row or does
      not parse. */
  function ReadApp(t: Tables, id: string): Option<App>
    requires id in t.apps
  {
    var keys := OAuthKeys(t, id);
    if keys == {} then DecodeApp(t.apps[id], None)
    else if |keys| == 1 then DecodeApp(t.apps[id], Some(t.oauth[TheKey(keys)]))
    else None
  }

  function TheKey(keys: set<nat>): (k: nat)
    requires |keys| == 1
    ensures keys == {k}
  {
    SingletonElement(keys);
    var k :| keys == {k};
    k
  }

  lemma SingletonElement(keys: set<nat>)
    requires |keys| == 1
    ensures exists k :: keys == {k}
    ensures forall k, l :: keys == {k} && keys == {l} ==> k == l
  {
    var k :| k in keys;
    assert |keys - {k}| == 0;
    assert keys == {k};
    forall a, b | keys == {a} && keys == {b} ensures a == b {
      assert a in keys;
    }
  }

  /** Reading an application back from tables that represent it gives its normal form. */
  lemma ReadAppIsNormal(t: Tables, contents: Contents, id: string)
    requires Represents(t, contents) && ContentsValid(contents) && id in contents
    ensures ReadApp(t, id) == Some(Normal(contents[id]))
  {
    hide EncodeApp, EncodeOAuth, DecodeApp, Normal, WellFormed;
    AppRoundTrips(contents[id]);
    var keys := OAuthKeys(t, id);
    if HasOAuth(contents, id) {
      assert HasRow(t, id);
      var k :| k in t.oauth && t.oauth[k].appID == id;
      assert keys == {k};
      assert RowMatches(t.oauth[k], contents);
    } else {
      assert forall k | k in t.oauth :: RowMatches(t.oauth[k], contents);
      assert keys == {};
    }
  }

  /** If no OAuth row has a client ID then no application has it. */
  lemma NoRowMeansFree(t: Tables, contents: Contents, clientID: string)
    requires Represents(t, contents)
    requires forall k | k in t.oauth :: t.oauth[k].clientID != clientID
    ensures !ClientIDTaken(contents, clientID)
  {
    hide EncodeApp, EncodeOAuth;
    forall id ensures !UsesClientID(contents, id, clientID) {
      if HasOAuth(contents, id) {
        assert HasRow(t, id);
        var k :| k in t.oauth && t.oauth[k].appID == id;
        assert RowMatches(t.oauth[k], contents);
      }
    }
  }

  // ---------------------------------------------------------------- the plain store

  class ApplicationStore {
    /** Whether the database takes every statement that its constraints allow. */
    const reliable: bool
    var tables: Tables
    ghost var contents: Contents

    ghost predicate Valid()
      reads this
    {
      Represents(tables, contents) && ContentsValid(contents)
    }

    constructor (reliable: bool)
      ensures Valid() && contents == map[] && this.reliable == reliable
    {
      this.reliable := reliable;
      tables := Tables(map[], map[], 0);
      contents := map[];
    }

    /** One transaction: the application row, then its OAuth row; a failing statement undoes both. */
    method CreateApplication(app: App) returns (ok: bool)
      requires Valid() && MayWrite(contents, app)
      modifies this
      ensures Valid()
      ensures contents == if ok then old(contents)[app.id := app] else old(contents)
      ensures !ok ==> tables == old(tables)
      ensures ok ==> app.id !in old(contents)
      ensures reliable && app.id !in old(contents) ==> ok
    {
      var before := tables;
      if * {
        if !reliable {
          return false;
        }
      }
      if app.id in tables.apps {
        return false;
      }
      tables := WriteApp(tables, app);
      if app.inbound.Some? {
        if * {
          if !reliable {
            tables := before;
            return false;
          }
        }
        tables := InsertOAuth(tables, app.id, app.inbound.value);
      }
      if * {
        if !reliable {
          tables := before;
          return false;
        }
      }
      if app.inbound.Some? {
        RepresentsAdded(before, contents, app);
      } else {
        RepresentsPlain(before, contents, app);
      }
      WriteKeepsContentsValid(contents, app);
      contents := contents[app.id := app];
      ok := true;
    }

    /** The query by ID, once the database has taken it. */
    method ReadApplication(id: string) returns (found: Result<App, StoreError>)
      requires Valid()
      ensures found == if id in contents then Ok(Normal(contents[id])) else Err(RowNotFound)
      ensures found.Ok? ==> AppsAgree(found.value, contents[id])
    {
      if id !in tables.apps {
        return Err(RowNotFound);
      }
      ReadAppIsNormal(tables, contents, id);
      NormalAgrees(contents[id]);
      hide AppsAgree, Normal;
      var app := ReadApp(tables, id);
      found := if app.Some? then Ok(app.value) else Err(StatementFailed);
    }

    method GetApplicationByID(id: string) returns (found: Result<App, StoreError>)
      requires Valid()
      ensures reliable ==> found != Err(StatementFailed)
      ensures found == Err(StatementFailed) ||
              found == if id in contents then Ok(Normal(contents[id])) else Err(RowNotFound)
      ensures found.Ok? ==> AppsAgree(found.value, contents[id])
    {
      if * {
        if !reliable {
          return Err(StatementFailed);
        }
      }
      found := ReadApplication(id);
    }

    method GetApplicationByName(name: string) returns (found: Result<App, StoreError>)
      requires Valid()
      ensures found.Ok? ==> UsesName(contents, found.value.id, name) && found.value == Normal(contents[found.value.id])
      ensures found.Ok? ==> AppsAgree(found.value, contents[found.value.id])
      ensures found == Err(RowNotFound) ==> !NameTaken(contents, name)
      ensures reliable ==> found != Err(StatementFailed)
    {
      if * {
        if !reliable {
          return Err(StatementFailed);
        }
      }
      var ids := set id | id in tables.apps && tables.apps[id].name == name;
      if ids == {} {
        assert forall id | UsesName(contents, id, name) :: id in ids;
        return Err(RowNotFound);
      }
      var id :| id in ids;
      ReadAppIsNormal(tables, contents, id);
      assert ids == {id} by {
        forall x | x in ids ensures x == id {
          assert UsesName(contents, x, name) && UsesName(contents, id, name);
        }
      }
      NormalAgrees(contents[id]);
      hide AppsAgree;
      var app := ReadApp(tables, id);
      found := if |ids| == 1 && app.Some? then Ok(app.value) else Err(StatementFailed);
    }

    method GetOAuthApplication(clientID: string) returns (found: Result<OAuthApp, StoreError>)
      requires Valid()
      ensures found.Ok? ==> UsesClientID(contents, found.value.appID, clientID) &&
                            found.value == NormalOAuth(contents[found.value.appID].inbound.value)
      ensures found.Ok? ==> OAuthAgree(found.value, contents[found.value.appID].inbound.value)
      ensures found == Err(RowNotFound) ==> !ClientIDTaken(contents, clientID)
      ensures reliable ==> found != Err(StatementFailed)
    {
      if * {
        if !reliable {
          return Err(StatementFailed);
        }
      }
      var keys := set k | k in tables.oauth && tables.oauth[k].clientID == clientID;
      if keys == {} {
        assert forall k | k in tables.oauth :: k in keys <==> tables.oauth[k].clientID == clientID;
        NoRowMeansFree(tables, contents, clientID);
        return Err(RowNotFound);
      }
      var k :| k in keys;
      var id := tables.oauth[k].appID;
      assert RowMatches(tables.oauth[k], contents);
      OAuthRoundTrips(id, contents[id].inbound.value);
      NormalOAuthAgrees(contents[id].inbound.value);
      hide OAuthAgree;
      var oauth := DecodeOAuth(tables.oauth[k]);
      found := if oauth.Some? then Ok(oauth.value) else Err(StatementFailed);
    }

    method UpdateApplication(existing: App, updated: App) returns (ok: bool)
      requires Valid() && updated.id in contents && MayWrite(contents, updated)
      requires Normal(existing) == Normal(contents[updated.id])
      modifies this
      ensures Valid()
      ensures contents == if ok then old(contents)[updated.id := updated] else old(contents)
      ensures reliable ==> ok
      ensures !ok ==> tables == old(tables)
    {
      var before := tables;
      if * {
        if !reliable {
          return false;
        }
      }
      tables := WriteApp(tables, updated);
      if * {
        if !reliable {
          tables := before;
          return false;
        }
      }
      if updated.inbound.Some? && existing.inbound.Some? {
        tables := UpdateOAuthByApp(tables, updated.id, updated.inbound.value);
      } else if existing.inbound.Some? {
        tables := DeleteOAuthByClient(tables, existing.inbound.value.clientID);
      } else if updated.inbound.Some? {
        tables := InsertOAuth(tables, updated.id, updated.inbound.value);
      }
      if * {
        if !reliable {
          tables := before;
          return false;
        }
      }
      RepresentsUpdated(before, contents, existing, updated);
      WriteKeepsContentsValid(contents, updated);
      contents := contents[updated.id := updated];
      ok := true;
    }

    method DeleteApplication(id: string, refused: bool) returns (ok: bool)
      requires Valid()
      modifies this
      ensures Valid()
      ensures ok == !refused
      ensures contents == if ok then old(contents) - {id} else old(contents)
      ensures !ok ==> tables == old(tables)
    {
      if refused {
        return false;
      }
      RepresentsDeleted(tables, contents, id);
      DeleteKeepsContentsValid(contents, id);
      tables := DeleteApp(tables, id);
      contents := contents - {id};
      ok := true;
    }
  }
}
