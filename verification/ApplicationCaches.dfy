/** The three caches in front of the application store: by ID, by name, and OAuth configurations by client
    ID. A cached value may differ from the stored one only up to the row codec's normal form. */
module ApplicationCaches {
  import opened Prelude
  import opened ApplicationRows
  import opened ApplicationStore

  datatype Caches = Caches(byID: map<string, App>, byName: map<string, App>, oauth: map<string, OAuthApp>)

  predicate SameApp(a: App, b: App) { Normal(a) == Normal(b) }

  predicate SameOAuth(a: OAuthApp, b: OAuthApp) { NormalOAuth(a) == NormalOAuth(b) }

  predicate IDEntry(contents: Contents, id: string, app: App) {
    id in contents && SameApp(app, contents[id])
  }

  predicate NameEntry(contents: Contents, name: string, app: App) {
    UsesName(contents, app.id, name) && SameApp(app, contents[app.id])
  }

  predicate OAuthEntry(contents: Contents, clientID: string, oauth: OAuthApp) {
    UsesClientID(contents, oauth.appID, clientID) && SameOAuth(oauth, contents[oauth.appID].inbound.value)
  }

  /** Every entry is, up to normal form, what the store would answer for its key. */
  ghost predicate Coherent(contents: Contents, c: Caches) {
    && (forall k :: k in c.byID ==> IDEntry(contents, k, c.byID[k]))
    && (forall k :: k in c.byName ==> NameEntry(contents, k, c.byName[k]))
    && (forall k :: k in c.oauth ==> OAuthEntry(contents, k, c.oauth[k]))
  }

  /** What caching an application stores, when no Set is refused. */
  function WithOAuth(c: Caches, oauth: OAuthApp): Caches {
    if oauth.clientID == "" then c else c.(oauth := c.oauth[oauth.clientID := oauth])
  }

  function WithApp(c: Caches, app: App): Caches {
    var ids := if app.id != "" then c.byID[app.id := app] else c.byID;
    var names := if app.name != "" then c.byName[app.name := app] else c.byName;
    var apps := c.(byID := ids, byName := names);
    if app.inbound.Some? then WithOAuth(apps, app.inbound.value) else apps
  }

  /** Drops the entries of one ID, name and client ID; empty keys are skipped. */
  function Invalidated(c: Caches, id: string, name: string, clientID: string): Caches {
    Caches(if id != "" then c.byID - {id} else c.byID,
           if name != "" then c.byName - {name} else c.byName,
           if clientID != "" then c.oauth - {clientID} else c.oauth)
  }

  function ClientIDOf(app: App): string {
    if app.inbound.Some? then app.inbound.value.clientID else ""
  }

  lemma SameAppSameKeys(a: App, b: App)
    requires SameApp(a, b)
    ensures a.id == b.id && a.name == b.name && (a.inbound.Some? <==> b.inbound.Some?)
    ensures ClientIDOf(a) == ClientIDOf(b)
    ensures a.inbound.Some? ==> a.inbound.value.appID == b.inbound.value.appID &&
                                SameOAuth(a.inbound.value, b.inbound.value)
  {
    NormalKeepsKeys(a);
    NormalKeepsKeys(b);
  }

  /** A stored application, or one equal to it up to normal form, makes three good entries. */
  lemma StoredAppEntries(contents: Contents, app: App)
    requires ContentsValid(contents) && app.id in contents && SameApp(app, contents[app.id])
    ensures IDEntry(contents, app.id, app) && NameEntry(contents, app.name, app)
    ensures app.inbound.Some? ==> OAuthEntry(contents, app.inbound.value.clientID, app.inbound.value)
  {
    SameAppSameKeys(app, contents[app.id]);
    assert WellFormed(contents[app.id]);
    hide SameApp, SameOAuth;
  }

  lemma CachingIsCoherent(contents: Contents, c: Caches, app: App)
    requires ContentsValid(contents) && Coherent(contents, c)
    requires app.id in contents && SameApp(app, contents[app.id])
    ensures Coherent(contents, WithApp(c, app))
  {
    StoredAppEntries(contents, app);
    hide IDEntry, NameEntry, OAuthEntry, ContentsValid, SameApp;
  }

  /** Some entries may have gone: evicted to make room, or expired. */
  predicate Subcaches(small: Caches, big: Caches) {
    && (forall k :: k in small.byID ==> k in big.byID && small.byID[k] == big.byID[k])
    && (forall k :: k in small.byName ==> k in big.byName && small.byName[k] == big.byName[k])
    && (forall k :: k in small.oauth ==> k in big.oauth && small.oauth[k] == big.oauth[k])
  }

  /** Each entry is one of the first caches' or one of the second's. */
  predicate EntriesFrom(c: Caches, a: Caches, b: Caches) {
    && (forall k :: k in c.byID ==> (k in a.byID && c.byID[k] == a.byID[k]) || (k in b.byID && c.byID[k] == b.byID[k]))
    && (forall k :: k in c.byName ==> (k in a.byName && c.byName[k] == a.byName[k]) ||
                                      (k in b.byName && c.byName[k] == b.byName[k]))
    && (forall k :: k in c.oauth ==> (k in a.oauth && c.oauth[k] == a.oauth[k]) ||
                                     (k in b.oauth && c.oauth[k] == b.oauth[k]))
  }

  lemma SubcachesCoherent(contents: Contents, small: Caches, big: Caches)
    requires Coherent(contents, big) && Subcaches(small, big)
    ensures Coherent(contents, small)
  {
    hide IDEntry, NameEntry, OAuthEntry;
  }

  lemma SubcachesOfMix(small: Caches, mixed: Caches, a: Caches, b: Caches)
    requires Subcaches(small, mixed)
    requires mixed.byID == a.byID || mixed.byID == b.byID
    requires mixed.byName == a.byName || mixed.byName == b.byName
    requires mixed.oauth == a.oauth || mixed.oauth == b.oauth
    ensures EntriesFrom(small, a, b)
  {
  }

  lemma EntriesFromCoherent(contents: Contents, c: Caches, a: Caches, b: Caches)
    requires Coherent(contents, a) && Coherent(contents, b) && EntriesFrom(c, a, b)
    ensures Coherent(contents, c)
  {
    hide IDEntry, NameEntry, OAuthEntry;
  }

  lemma CachedIsStored(contents: Contents, c: Caches, id: string)
    requires ContentsValid(contents) && Coherent(contents, c)
    ensures id in c.byID ==> id in contents && SameApp(c.byID[id], contents[id])
    ensures id in contents ==> contents[id].id == id && SameApp(Normal(contents[id]), contents[id])
  {
    if id in contents {
      NormalIsIdempotent(contents[id]);
    }
  }

  /** Entries of other applications do not notice a change of one. */
  lemma OtherEntriesKept(contents: Contents, after: Contents, id: string)
    requires forall x | x in contents && x != id :: x in after && after[x] == contents[x]
    ensures forall k, a | IDEntry(contents, k, a) && k != id :: IDEntry(after, k, a)
    ensures forall k, a | NameEntry(contents, k, a) && a.id != id :: NameEntry(after, k, a)
    ensures forall k, o | OAuthEntry(contents, k, o) && o.appID != id :: OAuthEntry(after, k, o)
  {
    hide SameApp, SameOAuth;
  }

  /** Once the entries of an application are gone, its row may change or disappear. */
  lemma InvalidatedAppMayChange(contents: Contents, after: Contents, c: Caches, existing: App)
    requires ContentsValid(contents) && Coherent(contents, c)
    requires existing.id in contents && SameApp(existing, contents[existing.id])
    requires forall id | id in contents && id != existing.id :: id in after && after[id] == contents[id]
    ensures Coherent(after, Invalidated(c, existing.id, existing.name, ClientIDOf(existing)))
  {
    SameAppSameKeys(existing, contents[existing.id]);
    assert WellFormed(contents[existing.id]);
    OtherEntriesKept(contents, after, existing.id);
    NoEntryLeft(contents, c, existing.id);
    hide IDEntry, NameEntry, OAuthEntry, ContentsValid, SameApp;
  }

  /** The entries of an application sit under its ID, its name and its client ID only. */
  lemma NoEntryLeft(contents: Contents, c: Caches, id: string)
    requires Coherent(contents, c) && id in contents
    ensures forall k | k in c.byName && c.byName[k].id == id :: k == contents[id].name
    ensures forall k | k in c.oauth && c.oauth[k].appID == id :: k == ClientIDOf(contents[id])
  {
    hide SameApp, SameOAuth;
  }

  lemma NewIDHasNoEntry(contents: Contents, c: Caches, id: string)
    requires Coherent(contents, c) && id !in contents
    ensures id !in c.byID
    ensures forall k | k in c.byName :: c.byName[k].id != id
    ensures forall k | k in c.oauth :: c.oauth[k].appID != id
  {
    hide SameApp, SameOAuth;
  }

  lemma NewAppKeepsCoherence(contents: Contents, c: Caches, app: App)
    requires Coherent(contents, c) && app.id !in contents
    ensures Coherent(contents[app.id := app], c)
  {
    var after := contents[app.id := app];
    OtherEntriesKept(contents, after, app.id);
    NewIDHasNoEntry(contents, c, app.id);
    hide IDEntry, NameEntry, OAuthEntry;
  }

  // ---------------------------------------------------------------- the cached store

  class CachedApplicationStore {
    const store: ApplicationStore
    var caches: Caches

    ghost predicate Valid()
      reads this, store
    {
      store.Valid() && Coherent(store.contents, caches)
    }

    constructor (reliable: bool)
      ensures Valid() && fresh(store) && store.contents == map[] && store.reliable == reliable
    {
      store := new ApplicationStore(reliable);
      caches := Caches(map[], map[], map[]);
    }

    /** Entries go by expiry or to make room, whichever they are. */
    method Evict()
      modifies `caches
      ensures Subcaches(caches, old(caches))
      ensures old(Coherent(store.contents, caches)) ==> Coherent(store.contents, caches)
    {
      var ids: set<string>, names: set<string>, clientIDs: set<string> := *, *, *;
      var before := caches;
      caches := Caches(caches.byID - ids, caches.byName - names, caches.oauth - clientIDs);
      if Coherent(store.contents, before) {
        SubcachesCoherent(store.contents, caches, before);
      }
    }

    /** Each of the three Sets may be refused, and each may evict other entries. */
    method CacheApplication(app: App)
      requires Valid() && app.id in store.contents && SameApp(app, store.contents[app.id])
      modifies `caches
      ensures Valid()
      ensures EntriesFrom(caches, old(caches), WithApp(old(caches), app))
    {
      CachingIsCoherent(store.contents, caches, app);
      hide *;
      var before, full := caches, WithApp(caches, app);
      if * {
        caches := caches.(byID := full.byID);
      }
      if * {
        caches := caches.(byName := full.byName);
      }
      if * {
        caches := caches.(oauth := full.oauth);
      }
      ghost var mixed := caches;
      Evict();
      SubcachesOfMix(caches, mixed, before, full);
      EntriesFromCoherent(store.contents, caches, before, full);
    }

    method CacheOAuthApplication(oauth: OAuthApp)
      requires Valid() && OAuthEntry(store.contents, oauth.clientID, oauth)
      modifies `caches
      ensures Valid()
      ensures EntriesFrom(caches, old(caches), WithOAuth(old(caches), oauth))
    {
      hide IDEntry, NameEntry, OAuthEntry, ContentsValid, Represents;
      if * {
        caches := WithOAuth(caches, oauth);
      }
      Evict();
    }

    method CreateApplication(app: App) returns (ok: bool)
      requires Valid() && MayWrite(store.contents, app)
      modifies `caches, store
      ensures Valid()
      ensures store.contents == if ok then old(store.contents)[app.id := app] else old(store.contents)
      ensures ok ==> app.id !in old(store.contents)
      ensures store.reliable && app.id !in old(store.contents) ==> ok
    {
      ok := store.CreateApplication(app);
      if !ok {
        return;
      }
      NewAppKeepsCoherence(old(store.contents), caches, app);
      CacheApplication(app);
    }

    /** Answers like the plain store, up to the normal form. */
    method GetApplicationByID(id: string) returns (found: Result<App, StoreError>)
      requires Valid()
      modifies `caches
      ensures Valid()
      ensures found.Ok? ==> id in store.contents && found.value.id == id && SameApp(found.value, store.contents[id])
      ensures found.Ok? ==> AppsAgree(found.value, store.contents[id])
      ensures found == Err(RowNotFound) ==> id !in store.contents
      ensures store.reliable ==> found != Err(StatementFailed)
    {
      Evict();
      if id in caches.byID {
        SameAppSameKeys(caches.byID[id], store.contents[id]);
        SameNormalIff(caches.byID[id], store.contents[id]);
        return Ok(caches.byID[id]);
      }
      found := store.GetApplicationByID(id);
      if found.Ok? {
        NormalIsIdempotent(store.contents[id]);
        SameAppSameKeys(found.value, store.contents[id]);
        CacheApplication(found.value);
      }
    }

    method GetApplicationByName(name: string) returns (found: Result<App, StoreError>)
      requires Valid()
      modifies `caches
      ensures Valid()
      ensures found.Ok? ==> UsesName(store.contents, found.value.id, name) &&
                            SameApp(found.value, store.contents[found.value.id])
      ensures found.Ok? ==> AppsAgree(found.value, store.contents[found.value.id])
      ensures found == Err(RowNotFound) ==> !NameTaken(store.contents, name)
      ensures store.reliable ==> found != Err(StatementFailed)
    {
      Evict();
      if name in caches.byName {
        SameNormalIff(caches.byName[name], store.contents[caches.byName[name].id]);
        return Ok(caches.byName[name]);
      }
      found := store.GetApplicationByName(name);
      if found.Ok? {
        NormalIsIdempotent(store.contents[found.value.id]);
        CacheApplication(found.value);
      }
    }

    method GetOAuthApplication(clientID: string) returns (found: Result<OAuthApp, StoreError>)
      requires Valid()
      modifies `caches
      ensures Valid()
      ensures found.Ok? ==> UsesClientID(store.contents, found.value.appID, clientID) &&
                            SameOAuth(found.value, store.contents[found.value.appID].inbound.value)
      ensures found.Ok? ==> OAuthAgree(found.value, store.contents[found.value.appID].inbound.value)
      ensures found == Err(RowNotFound) ==> !ClientIDTaken(store.contents, clientID)
      ensures store.reliable ==> found != Err(StatementFailed)
    {
      Evict();
      if clientID in caches.oauth {
        var hit := caches.oauth[clientID];
        SameNormalOAuthIff(hit, store.contents[hit.appID].inbound.value);
        return Ok(caches.oauth[clientID]);
      }
      found := store.GetOAuthApplication(clientID);
      if found.Ok? {
        NormalOAuthIsIdempotent(store.contents[found.value.appID].inbound.value);
        NormalKeepsKeys(store.contents[found.value.appID]);
        CacheOAuthApplication(found.value);
      }
    }

    method UpdateApplication(existing: App, updated: App) returns (ok: bool)
      requires Valid() && updated.id in store.contents && MayWrite(store.contents, updated)
      requires SameApp(existing, store.contents[updated.id])
      modifies `caches, store
      ensures Valid()
      ensures store.contents == if ok then old(store.contents)[updated.id := updated] else old(store.contents)
      ensures store.reliable ==> ok
    {
      ok := store.UpdateApplication(existing, updated);
      if !ok {
        return;
      }
      SameAppSameKeys(existing, old(store.contents)[updated.id]);
      InvalidatedAppMayChange(old(store.contents), store.contents, caches, existing);
      caches := Invalidated(caches, existing.id, existing.name, ClientIDOf(existing));
      StoredAppEntries(store.contents, updated);
      CacheApplication(updated);
      if updated.inbound.Some? {
        CacheOAuthApplication(updated.inbound.value);
      }
    }

    /** `refused` says that the database refuses a statement of this call; which one makes no difference. */
    method DeleteApplication(id: string, refused: bool) returns (ok: bool)
      requires Valid()
      modifies `caches, store
      ensures Valid()
      ensures ok == !refused
      ensures store.contents == if ok then old(store.contents) - {id} else old(store.contents)
    {
      hide Represents, ContentsValid, Coherent, SameApp, IDEntry, NameEntry, OAuthEntry, Normal, Invalidated;
      Evict();
      if refused {
        return false;
      }
      CachedIsStored(store.contents, caches, id);
      var existing: App;
      if id in caches.byID {
        existing := caches.byID[id];
      } else {
        var found := store.ReadApplication(id);
        match found
        case Ok(app) => existing := app;
        case Err(_) =>
          assert store.contents - {id} == store.contents;
          return true;
      }
      SameAppSameKeys(existing, store.contents[id]);
      ok := store.DeleteApplication(id, false);
      InvalidatedAppMayChange(old(store.contents), store.contents, caches, existing);
      caches := Invalidated(caches, id, existing.name, ClientIDOf(existing));
    }
  }
}
