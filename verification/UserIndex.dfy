/** The user table and its attribute index: what the index holds in every reachable state, and why looking a user up
    through it finds exactly the users whose attributes match. */
module UserIndex {
  import opened Listings
  import opened Prelude
  import opened SqlPlaceholders

  // ---------------------------------------------------------------- data

  /** A JSON value. A number is kept as the text that printing its float64 gives. */
  datatype Json =
    | Null | Bool(b: bool) | Number(shown: string) | String(s: string) | Array(items: seq<Json>)
    | Object(fields: map<string, Json>)

  /** Raw attribute bytes of a request: absent, empty, not JSON, or JSON. */
  datatype Raw = NilRaw | EmptyRaw | Malformed | Text(value: Json)

  datatype UserKey = UserKey(deployment: string, id: string)

  datatype UserRow = UserRow(ouID: string, userType: string, attributes: Json)

  datatype IndexRow = IndexRow(key: UserKey, name: string, value: string)

  datatype Tables = Tables(users: map<UserKey, UserRow>, index: set<IndexRow>)

  /** The attributes each deployment indexes. */
  type Config = map<string, set<string>>

  function IndexedIn(config: Config, deployment: string): set<string> {
    if deployment in config then config[deployment] else {}
  }

  /** The text a primitive value is indexed under; null, arrays and objects are not indexed. */
  function Rendered(value: Json): Option<string> {
    match value
    case String(s) => Some(s)
    case Number(shown) => Some(shown)
    case Bool(b) => Some(if b then "true" else "false")
    case _ => None
  }

  /** The rows a user should have. */
  function ExpectedRows(key: UserKey, attributes: Json, indexed: set<string>): set<IndexRow> {
    if attributes.Object? then
      set name | name in attributes.fields && name in indexed && Rendered(attributes.fields[name]).Some?
        :: IndexRow(key, name, Rendered(attributes.fields[name]).value)
    else {}
  }

  function RowsOf(index: set<IndexRow>, key: UserKey): set<IndexRow> {
    set r | r in index && r.key == key
  }

  /** No index row without its user, and every user has exactly the rows it should have. */
  ghost predicate Indexed(config: Config, t: Tables) {
    && (forall r | r in t.index :: r.key in t.users)
    && (forall k | k in t.users ::
          RowsOf(t.index, k) == ExpectedRows(k, t.users[k].attributes, IndexedIn(config, k.deployment)))
  }

  // ---------------------------------------------------------------- steps and runs

  datatype Op = Create(key: UserKey, row: UserRow) | Update(key: UserKey, row: UserRow) | Delete(key: UserKey)

  /** Attributes that reach the index: an object, or null for none. */
  predicate Storable(attributes: Json) {
    attributes.Object? || attributes.Null?
  }

  predicate Accepted(t: Tables, op: Op) {
    match op
    case Create(key, row) => key !in t.users && Storable(row.attributes)
    case Update(key, row) => key in t.users && Storable(row.attributes)
    case Delete(_) => true
  }

  function Apply(config: Config, t: Tables, op: Op): Tables {
    var others := t.index - RowsOf(t.index, op.key);
    match op
    case Delete(key) => Tables(t.users - {key}, others)
    case _ =>
      Tables(t.users[op.key := op.row],
             others + ExpectedRows(op.key, op.row.attributes, IndexedIn(config, op.key.deployment)))
  }

  /** A call whose transaction fails anywhere leaves the tables as they were. */
  datatype Event = Event(op: Op, committed: bool)

  function Step(config: Config, t: Tables, e: Event): Tables {
    if e.committed && Accepted(t, e.op) then Apply(config, t, e.op) else t
  }

  function Run(config: Config, t: Tables, events: seq<Event>): Tables
    decreases |events|
  {
    if events == [] then t else Run(config, Step(config, t, events[0]), events[1..])
  }

  const EMPTY := Tables(map[], {})

  lemma ApplyRows(config: Config, t: Tables, op: Op, k: UserKey)
    ensures RowsOf(Apply(config, t, op).index, k)
            == if k != op.key then RowsOf(t.index, k)
               else if op.Delete? then {} else ExpectedRows(k, op.row.attributes, IndexedIn(config, k.deployment))
  {
  }

  lemma ApplyKeepsIndexed(config: Config, t: Tables, op: Op)
    requires Indexed(config, t)
    ensures Indexed(config, Apply(config, t, op))
  {
    var after := Apply(config, t, op);
    forall k | k in after.users
      ensures RowsOf(after.index, k) == ExpectedRows(k, after.users[k].attributes, IndexedIn(config, k.deployment))
    {
      ApplyRows(config, t, op, k);
    }
    forall r | r in after.index ensures r.key in after.users {
      if r.key == op.key {
        ApplyRows(config, t, op, op.key);
        assert r in RowsOf(after.index, op.key);
      }
    }
  }

  /** In every reachable state the index holds exactly the configured primitive attributes of the existing users. */
  lemma {:induction false} RunKeepsIndexed(config: Config, t: Tables, events: seq<Event>)
    requires Indexed(config, t)
    ensures Indexed(config, Run(config, t, events))
    decreases |events|
  {
    if events != [] {
      if Accepted(t, events[0].op) {
        ApplyKeepsIndexed(config, t, events[0].op);
      }
      RunKeepsIndexed(config, Step(config, t, events[0]), events[1..]);
    }
  }

  /** An attribute has one index row at most. */
  lemma OneRowPerAttribute(config: Config, t: Tables, a: IndexRow, b: IndexRow)
    requires Indexed(config, t) && a in t.index && b in t.index && a.key == b.key && a.name == b.name
    ensures a == b
  {
    assert a in RowsOf(t.index, a.key) && b in RowsOf(t.index, a.key);
  }

  /** What a call leaves behind. The user is the one written, or gone; an index row of that user stands for a configured
      attribute that is a string, a number or a boolean, under its text; all other rows stay. */
  lemma CallWrites(config: Config, t: Tables, op: Op, row: IndexRow)
    ensures Apply(config, t, op).users == if op.Delete? then t.users - {op.key} else t.users[op.key := op.row]
    ensures row in Apply(config, t, op).index <==>
            if row.key != op.key then row in t.index
            else
              && !op.Delete? && op.key.deployment in config && row.name in config[op.key.deployment]
              && op.row.attributes.Object? && row.name in op.row.attributes.fields
              && match op.row.attributes.fields[row.name]
                 case String(s) => row.value == s
                 case Number(shown) => row.value == shown
                 case Bool(true) => row.value == "true"
                 case Bool(false) => row.value == "false"
                 case _ => false
  {
    assert row == IndexRow(row.key, row.name, row.value);
  }

  // ---------------------------------------------------------------- identifying a user through the index

  /** The user has every filtered attribute as a primitive value with the text asked for. */
  predicate Matches(attributes: Json, filters: map<string, string>) {
    attributes.Object? &&
    forall name | name in filters ::
      name in attributes.fields && Rendered(attributes.fields[name]) == Some(filters[name])
  }

  /** One joined copy of the index table with the numbers of its two placeholders. */
  datatype Join = Join(name: nat, value: nat)

  /** SELECT DISTINCT user FROM index ia1 JOIN index ia2 ... ON the same user and deployment WHERE every copy matches
      its name and value AND ia1.deployment = deployment. */
  datatype Statement = Statement(joins: seq<Join>, deployment: nat)

  /** The placeholders of the statement in the order of its text. */
  function TextOf(q: Statement): seq<Placeholder> {
    JoinsText(q.joins) + [Numbered(q.deployment)]
  }

  function JoinsText(joins: seq<Join>): seq<Placeholder> {
    seq(2 * |joins|, i requires 0 <= i < 2 * |joins| =>
          Numbered(if i % 2 == 0 then joins[i / 2].name else joins[i / 2].value))
  }

  predicate InRange(n: nat, args: seq<string>) {
    1 <= n <= |args|
  }

  predicate Bound(q: Statement, args: seq<string>) {
    && InRange(q.deployment, args)
    && forall i | 0 <= i < |q.joins| :: InRange(q.joins[i].name, args) && InRange(q.joins[i].value, args)
  }

  /** A choice of one row per joined copy that satisfies the statement. */
  ghost predicate Joined(q: Statement, args: seq<string>, index: set<IndexRow>, rows: seq<IndexRow>)
    requires Bound(q, args)
  {
    && |rows| == |q.joins| > 0
    && rows[0].key.deployment == args[q.deployment - 1]
    && forall i | 0 <= i < |rows| ::
         && rows[i] in index && rows[i].key == rows[0].key
         && rows[i].name == args[q.joins[i].name - 1] && rows[i].value == args[q.joins[i].value - 1]
  }

  ghost predicate Selects(q: Statement, args: seq<string>, index: set<IndexRow>, id: string)
    requires Bound(q, args)
  {
    exists rows: seq<IndexRow> :: Joined(q, args, index, rows) && rows[0].key.id == id
  }

  /** The i-th joined copy asks for the i-th key and the text its filter wants. */
  predicate AsksFor(q: Statement, args: seq<string>, keys: seq<string>, filters: map<string, string>,
                    deployment: string)
  {
    && Bound(q, args) && |q.joins| == |keys| > 0 && args[q.deployment - 1] == deployment
    && forall i | 0 <= i < |keys| ::
         keys[i] in filters && args[q.joins[i].name - 1] == keys[i] && args[q.joins[i].value - 1] == filters[keys[i]]
  }

  /** When every filtered attribute is indexed, the index finds exactly the users whose attributes match. */
  lemma IndexFindsExactlyTheMatches(config: Config, t: Tables, q: Statement, args: seq<string>, keys: seq<string>,
                                    filters: map<string, string>, deployment: string, id: string)
    requires Indexed(config, t) && AsksFor(q, args, keys, filters, deployment)
    requires forall name :: name in keys <==> name in filters
    requires filters.Keys <= IndexedIn(config, deployment)
    ensures var key := UserKey(deployment, id);
            Selects(q, args, t.index, id) <==> key in t.users && Matches(t.users[key].attributes, filters)
  {
    var key := UserKey(deployment, id);
    assert keys[0] in filters;
    RowsMeanMatch(config, t, key, filters);
    hide Indexed, Matches, Joined;
    if Selects(q, args, t.index, id) {
      SelectedHasRows(q, args, keys, t.index, filters, deployment, id);
    }
    if forall name | name in filters :: IndexRow(key, name, filters[name]) in t.index {
      RowsAreSelected(q, args, keys, t.index, filters, deployment, id);
    }
  }

  lemma SelectedHasRows(q: Statement, args: seq<string>, keys: seq<string>, index: set<IndexRow>,
                        filters: map<string, string>, deployment: string, id: string)
    requires AsksFor(q, args, keys, filters, deployment) && Selects(q, args, index, id)
    requires forall name :: name in keys <==> name in filters
    ensures forall name | name in filters :: IndexRow(UserKey(deployment, id), name, filters[name]) in index
  {
    var rows: seq<IndexRow> :| Joined(q, args, index, rows) && rows[0].key.id == id;
    forall name | name in filters ensures IndexRow(UserKey(deployment, id), name, filters[name]) in index {
      var i :| 0 <= i < |keys| && keys[i] == name;
      assert rows[i] == IndexRow(UserKey(deployment, id), name, filters[name]);
    }
  }

  lemma RowsAreSelected(q: Statement, args: seq<string>, keys: seq<string>, index: set<IndexRow>,
                        filters: map<string, string>, deployment: string, id: string)
    requires AsksFor(q, args, keys, filters, deployment)
    requires forall name | name in filters :: IndexRow(UserKey(deployment, id), name, filters[name]) in index
    ensures Selects(q, args, index, id)
  {
    var key := UserKey(deployment, id);
    var rows := seq(|keys|, i requires 0 <= i < |keys| => IndexRow(key, keys[i], filters[keys[i]]));
    assert Joined(q, args, index, rows);
  }

  lemma RowsMeanMatch(config: Config, t: Tables, key: UserKey, filters: map<string, string>)
    requires Indexed(config, t) && filters != map[] && filters.Keys <= IndexedIn(config, key.deployment)
    ensures (forall name | name in filters :: IndexRow(key, name, filters[name]) in t.index)
            <==> key in t.users && Matches(t.users[key].attributes, filters)
  {
    var some :| some in filters;
    assert IndexRow(key, some, filters[some]).key == key;
    if key in t.users {
      var expected := ExpectedRows(key, t.users[key].attributes, IndexedIn(config, key.deployment));
      forall name | name in filters
        ensures IndexRow(key, name, filters[name]) in t.index <==> IndexRow(key, name, filters[name]) in expected
      {
        var row := IndexRow(key, name, filters[name]);
        assert row in RowsOf(t.index, key) <==> row in t.index;
      }
    }
  }

  /** The builder: sorted keys, one joined copy a key, two arguments a copy, the deployment last. */
  method BuildIdentifyQueryFromIndexedAttributes(filters: map<string, string>, deployment: string)
    returns (r: Option<(Statement, seq<string>)>, ghost keys: seq<string>)
    ensures r.None? <==> filters == map[]
    ensures r.Some? ==> AsksFor(r.value.0, r.value.1, keys, filters, deployment) && IsListing(keys, filters.Keys)
    ensures r.Some? ==> RulesAgree(TextOf(r.value.0))
  {
    hide AsksFor, RulesAgree, TextOf;
    keys := [];
    if |filters| == 0 {
      return None, keys;
    }
    var sorted := OrderBy(filters.Keys);
    keys := sorted;
    assert |sorted| > 0 by {
      var k :| k in filters;
      assert k in sorted;
    }
    assert sorted[0] in filters;
    var joins := [Join(1, 2)];
    var args := [sorted[0], filters[sorted[0]]];
    var paramIndex := 3;
    for i := 1 to |sorted|
      invariant |joins| == i && |args| == 2 * i && paramIndex == 2 * i + 1
      invariant forall j | 0 <= j < i :: joins[j] == Join(2 * j + 1, 2 * j + 2)
      invariant forall j | 0 <= j < i ::
                  sorted[j] in filters && args[2 * j] == sorted[j] && args[2 * j + 1] == filters[sorted[j]]
    {
      assert sorted[i] in filters;
      joins := joins + [Join(paramIndex, paramIndex + 1)];
      args := args + [sorted[i], filters[sorted[i]]];
      paramIndex := paramIndex + 2;
    }
    r := Some((Statement(joins, paramIndex), args + [deployment]));
    KeyPlaceholdersLineUp(sorted, joins, args, filters, deployment);
  }

  /** Copy i takes arguments 2i+1 and 2i+2; the deployment follows the last pair. Both databases read them alike. */
  lemma KeyPlaceholdersLineUp(keys: seq<string>, joins: seq<Join>, args: seq<string>, filters: map<string, string>,
                              deployment: string)
    requires |joins| == |keys| > 0 && |args| == 2 * |keys|
    requires forall j | 0 <= j < |keys| :: joins[j] == Join(2 * j + 1, 2 * j + 2)
    requires forall j | 0 <= j < |keys| ::
               keys[j] in filters && args[2 * j] == keys[j] && args[2 * j + 1] == filters[keys[j]]
    ensures AsksFor(Statement(joins, 2 * |keys| + 1), args + [deployment], keys, filters, deployment)
    ensures RulesAgree(TextOf(Statement(joins, 2 * |keys| + 1)))
  {
    RulesAgreeIff(TextOf(Statement(joins, 2 * |keys| + 1)));
    ConsecutiveIsInOrder(TextOf(Statement(joins, 2 * |keys| + 1)), 0);
    var more := args + [deployment];
    forall j | 0 <= j < |keys|
      ensures more[joins[j].name - 1] == keys[j] && more[joins[j].value - 1] == filters[keys[j]]
    {
      assert more[2 * j] == args[2 * j] && more[2 * j + 1] == args[2 * j + 1];
    }
  }

  // ---------------------------------------------------------------- the store

  datatype Error = BadAttributesInRequest | UserNotFound | StoreFailure

  /** The attributes column for raw bytes: what marshalling them gives, or no JSON at all. */
  function Stored(raw: Raw): Option<Json> {
    match raw
    case NilRaw => Some(Null)
    case Text(value) => Some(value)
    case _ => None
  }

  function Column(raw: Raw): Json {
    if Stored(raw).Some? then Stored(raw).value else Null
  }

  /** One row of a batch insert with the numbers of its four placeholders. */
  datatype ValuesRow = ValuesRow(user: nat, name: nat, value: nat, deployment: nat)

  /** The placeholders of the batch in the order of its text. */
  function BatchText(values: seq<ValuesRow>): seq<Placeholder> {
    seq(4 * |values|, i requires 0 <= i < 4 * |values| =>
          var row := values[i / 4];
          Numbered(if i % 4 == 0 then row.user else if i % 4 == 1 then row.name
                   else if i % 4 == 2 then row.value else row.deployment))
  }

  /** The rows the arguments spell, or nothing if a placeholder has no argument. */
  function BatchRows(values: seq<ValuesRow>, args: seq<string>): Option<seq<IndexRow>> {
    if exists k | 0 <= k < |values| :: !(InRange(values[k].user, args) && InRange(values[k].name, args) &&
                                         InRange(values[k].value, args) && InRange(values[k].deployment, args))
    then None
    else Some(seq(|values|, k requires 0 <= k < |values| =>
                    IndexRow(UserKey(args[values[k].deployment - 1], args[values[k].user - 1]),
                             args[values[k].name - 1], args[values[k].value - 1])))
  }

  /** Row k takes arguments 4k+1 to 4k+4, so placeholders numbered that way spell the rows in order, on either
      database. */
  lemma PlaceholdersLineUp(rows: seq<IndexRow>, values: seq<ValuesRow>, args: seq<string>)
    requires |values| == |rows| && |args| == 4 * |rows|
    requires forall k | 0 <= k < |rows| :: values[k] == ValuesRow(4 * k + 1, 4 * k + 2, 4 * k + 3, 4 * k + 4)
    requires forall k | 0 <= k < |rows| ::
               && args[4 * k] == rows[k].key.id && args[4 * k + 1] == rows[k].name
               && args[4 * k + 2] == rows[k].value && args[4 * k + 3] == rows[k].key.deployment
    ensures BatchRows(values, args) == Some(rows)
    ensures RulesAgree(BatchText(values))
  {
    RulesAgreeIff(BatchText(values));
    ConsecutiveIsInOrder(BatchText(values), 0);
    var spelled := BatchRows(values, args);
    assert spelled.Some? && |spelled.value| == |rows|;
    forall k | 0 <= k < |rows| ensures spelled.value[k] == rows[k] {
    }
    assert spelled.value == rows;
  }

  lemma OneMoreField(key: UserKey, fields: map<string, Json>, rest: set<string>, name: string, indexed: set<string>)
    requires rest <= fields.Keys && name in rest
    ensures ExpectedRows(key, Object(fields - (rest - {name})), indexed)
            == ExpectedRows(key, Object(fields - rest), indexed) +
               (if name in indexed && Rendered(fields[name]).Some?
                then {IndexRow(key, name, Rendered(fields[name]).value)} else {})
    ensures forall text :: IndexRow(key, name, text) !in ExpectedRows(key, Object(fields - rest), indexed)
  {
  }

  class UserStore {
    const deploymentID: string
    const config: Config
    /** Whether the database takes every statement its constraints allow, and commits. */
    const reliable: bool
    var tables: Tables

    constructor (deploymentID: string, config: Config, tables: Tables, reliable: bool)
      requires Indexed(config, tables)
      ensures this.deploymentID == deploymentID && this.config == config && this.tables == tables
      ensures this.reliable == reliable
    {
      this.reliable := reliable;
      this.deploymentID := deploymentID;
      this.config := config;
      this.tables := tables;
    }

    /** All of it or nothing. */
    ghost predicate Performed(before: Tables, op: Op, error: Option<Error>)
      reads this
    {
      && Indexed(config, tables)
      && (error.Some? ==> tables == before)
      && (error.None? ==> Accepted(before, op) && tables == Apply(config, before, op))
    }

    /** The rows to insert: the indexed attributes with primitive values, visited in whatever order. */
    method CollectIndexedAttributes(key: UserKey, attributes: Json) returns (toInsert: seq<IndexRow>)
      requires Storable(attributes) && key.deployment == deploymentID
      ensures forall r :: r in toInsert <==> r in ExpectedRows(key, attributes, IndexedIn(config, deploymentID))
      ensures forall i, j | 0 <= i < j < |toInsert| :: toInsert[i] != toInsert[j]
    {
      toInsert := [];
      if attributes.Null? {
        return;
      }
      var fields := attributes.fields;
      var indexed := IndexedIn(config, deploymentID);
      var rest := fields.Keys;
      while rest != {}
        invariant rest <= fields.Keys
        invariant forall r :: r in toInsert <==> r in ExpectedRows(key, Object(fields - rest), indexed)
        invariant forall i, j | 0 <= i < j < |toInsert| :: toInsert[i] != toInsert[j]
        decreases |rest|
      {
        var name :| name in rest;
        var smaller := rest - {name};
        OneMoreField(key, fields, rest, name, indexed);
        if name in indexed {
          match Rendered(fields[name]) {
            case Some(text) =>
              assert IndexRow(key, name, text) !in toInsert;
              toInsert := toInsert + [IndexRow(key, name, text)];
            case None =>
          }
        }
        rest := smaller;
      }
      assert fields - {} == fields;
    }

    /** Inserts the index rows of a user in one batch statement; the unique and foreign key constraints hold. */
    method SyncIndexedAttributes(pending: Tables, key: UserKey, attributes: Json) returns (r: Option<Tables>)
      requires key.deployment == deploymentID
      requires key in pending.users && RowsOf(pending.index, key) == {}
      ensures r.Some? ==> Storable(attributes)
      ensures reliable && Storable(attributes) ==> r.Some?
      ensures r.Some? ==>
                var rows := ExpectedRows(key, attributes, IndexedIn(config, deploymentID));
                r.value == pending.(index := pending.index + rows)
    {
      if !Storable(attributes) {
        return None;
      }
      var toInsert := CollectIndexedAttributes(key, attributes);
      ghost var expected := ExpectedRows(key, attributes, IndexedIn(config, deploymentID));
      if |toInsert| == 0 {
        assert expected == {};
        return Some(pending);
      }
      var valuePlaceholders: seq<ValuesRow> := [];
      var args: seq<string> := [];
      var paramIndex := 1;
      for i := 0 to |toInsert|
        invariant paramIndex == 4 * i + 1 && |valuePlaceholders| == i && |args| == 4 * i
        invariant forall k | 0 <= k < i :: valuePlaceholders[k] == ValuesRow(4 * k + 1, 4 * k + 2, 4 * k + 3, 4 * k + 4)
        invariant forall k | 0 <= k < i ::
                    && args[4 * k] == toInsert[k].key.id && args[4 * k + 1] == toInsert[k].name
                    && args[4 * k + 2] == toInsert[k].value && args[4 * k + 3] == toInsert[k].key.deployment
      {
        assert toInsert[i] in toInsert;
        valuePlaceholders := valuePlaceholders +
                             [ValuesRow(paramIndex, paramIndex + 1, paramIndex + 2, paramIndex + 3)];
        args := args + [key.id, toInsert[i].name, toInsert[i].value, deploymentID];
        paramIndex := paramIndex + 4;
      }
      PlaceholdersLineUp(toInsert, valuePlaceholders, args);
      forall k | 0 <= k < |toInsert| ensures toInsert[k].key == key {
        assert toInsert[k] in toInsert;
      }
      forall x | x in pending.index ensures x.key != key {
        assert x in RowsOf(pending.index, key) <==> x.key == key;
      }
      var rows := BatchRows(valuePlaceholders, args);
      if * {
        if !reliable {
          return None;
        }
      }
      if exists k | 0 <= k < |rows.value| :: rows.value[k].key !in pending.users {
        return None;
      }
      if exists x | x in pending.index :: exists k | 0 <= k < |rows.value| ::
           x.key == rows.value[k].key && x.name == rows.value[k].name {
        return None;
      }
      var inserted := set x | x in rows.value;
      assert inserted == expected;
      r := Some(pending.(index := pending.index + inserted));
    }

    method Commit(pending: Option<Tables>) returns (ok: bool)
      modifies this
      ensures ok ==> pending.Some? && tables == pending.value
      ensures !ok ==> tables == old(tables)
      ensures reliable && pending.Some? ==> ok
    {
      if * {
        if !reliable {
          return false;
        }
      }
      if pending.Some? {
        tables := pending.value;
      }
      ok := pending.Some?;
    }

    /** Raw attributes without bytes are not parsed; an absent value is stored as null. */
    method CreateUser(id: string, ouID: string, userType: string, attributes: Raw) returns (error: Option<Error>)
      requires Indexed(config, tables)
      modifies this
      ensures error == Some(BadAttributesInRequest) <==> Stored(attributes).None?
      ensures error.None? ==> Stored(attributes).Some?
      ensures reliable && Stored(attributes).Some? ==>
                (error.None? <==> UserKey(deploymentID, id) !in old(tables).users && Storable(Stored(attributes).value))
      ensures reliable ==>
                (error.None? <==>
                   && UserKey(deploymentID, id) !in old(tables).users
                   && (attributes.NilRaw? ||
                       (attributes.Text? && (attributes.value.Null? || attributes.value.Object?))))
      ensures error.None? ==>
                && UserKey(deploymentID, id) !in old(tables).users
                && tables.users == old(tables).users[UserKey(deploymentID, id) :=
                     UserRow(ouID, userType, if attributes.Text? then attributes.value else Null)]
      ensures Performed(old(tables), Create(UserKey(deploymentID, id),
                                            UserRow(ouID, userType, Column(attributes))), error)
    {
      var stored := Stored(attributes);
      if stored.None? {
        return Some(BadAttributesInRequest);
      }
      var key := UserKey(deploymentID, id);
      var row := UserRow(ouID, userType, stored.value);
      ApplyKeepsIndexed(config, tables, Create(key, row));
      if * {
        if !reliable {
          return Some(StoreFailure);
        }
      }
      if key in tables.users {
        return Some(StoreFailure);
      }
      var inserted := tables.(users := tables.users[key := row]);
      var pending := Some(inserted);
      if !attributes.NilRaw? {
        pending := SyncIndexedAttributes(inserted, key, stored.value);
      }
      var ok := Commit(pending);
      error := if ok then None else Some(StoreFailure);
    }

    /** Rewrites the row, deletes its index rows and inserts the new ones. */
    method UpdateUser(id: string, ouID: string, userType: string, attributes: Raw) returns (error: Option<Error>)
      requires Indexed(config, tables)
      modifies this
      ensures error == Some(BadAttributesInRequest) <==> Stored(attributes).None?
      ensures error == Some(UserNotFound) ==> UserKey(deploymentID, id) !in old(tables).users
      ensures reliable && Stored(attributes).Some? ==>
                if UserKey(deploymentID, id) !in old(tables).users then error == Some(UserNotFound)
                else error.None? <==> Storable(Stored(attributes).value)
      ensures reliable ==>
                (error.None? <==>
                   && UserKey(deploymentID, id) in old(tables).users
                   && (attributes.NilRaw? ||
                       (attributes.Text? && (attributes.value.Null? || attributes.value.Object?))))
      ensures error.None? ==>
                && UserKey(deploymentID, id) in old(tables).users
                && tables.users == old(tables).users[UserKey(deploymentID, id) :=
                     UserRow(ouID, userType, if attributes.Text? then attributes.value else Null)]
      ensures Performed(old(tables), Update(UserKey(deploymentID, id),
                                            UserRow(ouID, userType, Column(attributes))), error)
    {
      var stored := Stored(attributes);
      if stored.None? {
        return Some(BadAttributesInRequest);
      }
      var key := UserKey(deploymentID, id);
      var row := UserRow(ouID, userType, stored.value);
      ApplyKeepsIndexed(config, tables, Update(key, row));
      if * {
        if !reliable {
          return Some(StoreFailure);
        }
      }
      if key !in tables.users {
        return Some(UserNotFound);
      }
      var emptied := Tables(tables.users[key := row], tables.index - RowsOf(tables.index, key));
      var pending := SyncIndexedAttributes(emptied, key, stored.value);
      var ok := Commit(pending);
      error := if ok then None else Some(StoreFailure);
    }

    /** One statement; the foreign key takes the index rows along. A missing user is no error. */
    method DeleteUser(id: string) returns (error: Option<Error>)
      requires Indexed(config, tables)
      modifies this
      ensures Performed(old(tables), Delete(UserKey(deploymentID, id)), error)
      ensures error.None? ==>
                && tables.users == old(tables).users - {UserKey(deploymentID, id)}
                && forall row :: row in tables.index <==>
                                 row in old(tables).index && row.key != UserKey(deploymentID, id)
      ensures reliable ==> error.None?
    {
      var key := UserKey(deploymentID, id);
      ApplyKeepsIndexed(config, tables, Delete(key));
      if * {
        if !reliable {
          return Some(StoreFailure);
        }
      }
      tables := Tables(tables.users - {key}, tables.index - RowsOf(tables.index, key));
      error := None;
    }
  }
}
