/** The `memories` tool as a pure state machine: one request against the
    table gives the new table and the response. */
module MemoryActions {
  import opened MemoryRecords
  import opened MemoryTable

  /** The username used when the caller does not name one. */
  const DefaultUsername: string := "default_user"

  /** The tool's arguments. `value == Null` is an omitted (or null) value. */
  datatype Request = Request(
    action: string,
    username: Option<string>,
    key: Option<string>,
    value: Value,
    tags: Option<seq<string>>,
    searchQuery: Option<string>)

  datatype Outcome = Outcome(table: Table, response: Response)

  /** The `username` argument, or "default_user" when it is omitted. */
  function UserOf(req: Request): (u: string)
    ensures req.username.None? ==> u == DefaultUsername
    ensures req.username.Some? ==> u == req.username.value
  {
    match req.username
    case None => DefaultUsername
    case Some(u) => u
  }

  /** Python truthiness of an optional string: neither None nor "". */
  predicate Given(s: Option<string>): (b: bool)
    ensures b <==> s != None && s != Some("")
  {
    s.Some? && s.value != ""
  }

  /** `tags or []`. */
  function TagsOrEmpty(tags: Option<seq<string>>): (r: seq<string>)
    ensures tags.Some? ==> r == tags.value
    ensures r == [] <==> tags.None? || tags.value == []
  {
    match tags
    case None => []
    case Some(t) => t
  }

  function StoreOutcome(t: Table, u: string, key: Option<string>, value: Value, tags: Option<seq<string>>, now: Timestamp): (out: Outcome)
    requires WellFormed(t)
    ensures WellFormed(out.table)
    ensures out.response.Error? <==> !Given(key) || value.Null?
    ensures !Given(key) ==> out.response == Error(KeyRequired(Storing))
    ensures out.response.Error? ==> out.table == t
    ensures Given(key) && value.Null? ==> out.response == Error(ValueRequired)
    ensures !out.response.Error? ==> out.response == Stored(key.value, u)
  {
    if !Given(key) then Outcome(t, Error(KeyRequired(Storing)))
    else if value.Null? then Outcome(t, Error(ValueRequired))
    else Outcome(Put(t, u, key.value, value, TagsOrEmpty(tags), now), Stored(key.value, u))
  }

  function RetrieveResponse(rows: seq<Row>, u: string, key: Option<string>): (r: Response)
    ensures !Given(key) <==> r == Error(KeyRequired(Retrieving))
    ensures Given(key) ==> r.NotFound? || r.Found?
    ensures Given(key) ==>
      (r == NotFound(key.value, u) <==> forall x :: x in rows ==> !Names(x, u, key.value))
  {
    if !Given(key) then Error(KeyRequired(Retrieving))
    else
      match Lookup(rows, u, key.value)
      case None => NotFound(key.value, u)
      case Some(row) => Found(Shape(row))
  }

  /** The answer of list and search: the selected rows with their count, or
      the empty-result response when there are none. */
  function Listing(rows: seq<Row>, sel: Selector, none: Response): (r: Response)
    requires !none.Listed?
    ensures r == none <==> forall x :: x in rows ==> !Selects(sel, x)
    ensures r != none ==> r.Listed? && 0 < r.count == |r.memories|
  {
    var found := Filter(rows, sel);
    if |found| == 0 then none
    else
      assert found[0] in found;
      Listed(|found|, Shapes(found))
  }

  function ListResponse(rows: seq<Row>, u: string): (r: Response)
    ensures r == NoMemories(u) <==> forall x :: x in rows ==> x.username != u
    ensures r != NoMemories(u) ==> r.Listed? && 0 < r.count == |r.memories|
  {
    Listing(rows, Owner(u), NoMemories(u))
  }

  function SearchResponse(rows: seq<Row>, u: string, query: Option<string>): (r: Response)
    ensures !Given(query) <==> r == Error(QueryRequired)
    ensures Given(query) ==>
      (r == NoMatches(query.value) <==>
         forall x :: x in rows && x.username == u ==> !IsSubstring(query.value, x.key))
    ensures Given(query) && r != NoMatches(query.value) ==> r.Listed? && 0 < r.count == |r.memories|
  {
    if !Given(query) then Error(QueryRequired)
    else Listing(rows, KeyContains(u, query.value), NoMatches(query.value))
  }

  function DeleteOutcome(t: Table, u: string, key: Option<string>): (out: Outcome)
    requires WellFormed(t)
    ensures WellFormed(out.table)
    ensures out.response.Deleted? || out.table == t
    ensures out.response.Error? <==> !Given(key)
  {
    if !Given(key) then Outcome(t, Error(KeyRequired(Deleting)))
    else if Lookup(t.rows, u, key.value).None? then Outcome(t, NotFound(key.value, u))
    else Outcome(Remove(t, u, key.value), Deleted(key.value, u))
  }

  /** The dispatcher: one request, in the order the tool tests the action
      names. */
  function Execute(t: Table, req: Request, now: Timestamp): (out: Outcome)
    requires WellFormed(t)
    ensures WellFormed(out.table)
    ensures out.table.nextId >= t.nextId
    ensures out.response.Error? ==> out.table == t
    ensures req.action != "store" && req.action != "delete" ==> out.table == t
    ensures req.action !in {"store", "retrieve", "list", "delete", "search"} ==>
      out.response == Error(UnknownAction(req.action))
  {
    var u := UserOf(req);
    if req.action == "store" then StoreOutcome(t, u, req.key, req.value, req.tags, now)
    else if req.action == "retrieve" then Outcome(t, RetrieveResponse(t.rows, u, req.key))
    else if req.action == "list" then Outcome(t, ListResponse(t.rows, u))
    else if req.action == "delete" then DeleteOutcome(t, u, req.key)
    else if req.action == "search" then Outcome(t, SearchResponse(t.rows, u, req.searchQuery))
    else Outcome(t, Error(UnknownAction(req.action)))
  }

  /** (u, k) has a record in the table. */
  ghost predicate Holds(rows: seq<Row>, u: string, k: string) {
    Lookup(rows, u, k).Some?
  }

  /** The keys a selector asks for: any key for list, and for search a key
      in which the query occurs somewhere. */
  ghost predicate Wanted(sel: Selector, k: string) {
    sel.KeyContains? ==> exists i :: OccursAt(sel.query, k, i)
  }

  /** `ms` reports exactly the records the selector asks for, each once. */
  ghost predicate ReportsExactly(ms: seq<Memory>, rows: seq<Row>, sel: Selector) {
    && (forall m :: m in ms ==>
          Holds(rows, sel.username, m.key) && Wanted(sel, m.key)
          && m == Shape(Lookup(rows, sel.username, m.key).value))
    && (forall k :: Holds(rows, sel.username, k) && Wanted(sel, k) ==>
          Shape(Lookup(rows, sel.username, k).value) in ms)
    && (forall i, j :: 0 <= i < j < |ms| ==> ms[i].key != ms[j].key)
  }

  lemma FilterReportsExactly(t: Table, sel: Selector)
    requires WellFormed(t)
    ensures ReportsExactly(Shapes(Filter(t.rows, sel)), t.rows, sel)
  {
    var found := Filter(t.rows, sel);
    var ms := Shapes(found);
    forall m | m in ms
      ensures Holds(t.rows, sel.username, m.key) && Wanted(sel, m.key)
      ensures m == Shape(Lookup(t.rows, sel.username, m.key).value)
    {
      var i :| 0 <= i < |ms| && ms[i] == m;
      assert found[i] in found;
      LookupIsMembership(t.rows, sel.username, m.key, found[i]);
      if sel.KeyContains? {
        SubstringSpec(sel.query, m.key);
      }
    }
    forall k | Holds(t.rows, sel.username, k) && Wanted(sel, k)
      ensures Shape(Lookup(t.rows, sel.username, k).value) in ms
    {
      if sel.KeyContains? {
        SubstringSpec(sel.query, k);
      }
      var row := Lookup(t.rows, sel.username, k).value;
      LookupIsMembership(t.rows, sel.username, k, row);
      var i :| 0 <= i < |found| && found[i] == row;
      assert ms[i] == Shape(row);
    }
    FilterDistinct(t.rows, sel);
    forall i, j | 0 <= i < j < |ms|
      ensures ms[i].key != ms[j].key
    {
      assert !SameKey(found[i], found[j]);
      assert found[i] in found && found[j] in found;
    }
  }

  /** retrieve without a key is an error; otherwise it returns the record of
      (u, key) shaped for the reply, or not-found exactly when there is none. */
  lemma RetrieveIsExact(t: Table, u: string, key: Option<string>)
    requires WellFormed(t)
    ensures var r := RetrieveResponse(t.rows, u, key);
      && (!Given(key) ==> r == Error(KeyRequired(Retrieving)))
      && (Given(key) && !Holds(t.rows, u, key.value) ==> r == NotFound(key.value, u))
      && (Given(key) ==> forall row :: row in t.rows && Names(row, u, key.value) ==> r == Found(Shape(row)))
  {
    if Given(key) {
      forall row | row in t.rows && Names(row, u, key.value)
        ensures RetrieveResponse(t.rows, u, key) == Found(Shape(row))
      {
        LookupIsMembership(t.rows, u, key.value, row);
      }
    }
  }

  /** list returns exactly the records of the user, with their count, and
      the "No memories stored" response exactly when the user has none. */
  lemma ListIsExact(t: Table, u: string)
    requires WellFormed(t)
    ensures var r := ListResponse(t.rows, u);
      && (r.NoMemories? || r.Listed?)
      && (r.NoMemories? <==> forall k :: !Holds(t.rows, u, k))
      && (r.NoMemories? ==> r.username == u)
      && (r.Listed? ==> r.count == |r.memories| && ReportsExactly(r.memories, t.rows, Owner(u)))
  {
    FilterReportsExactly(t, Owner(u));
    var found := Filter(t.rows, Owner(u));
    if |found| > 0 {
      assert found[0] in found;
      LookupIsMembership(t.rows, u, found[0].key, found[0]);
    }
  }

  /** search with a query returns exactly the user's records whose key
      contains the query, with their count, and the "No memories found"
      response exactly when there is none; a missing query is an error.
      Values and tags play no part. */
  lemma SearchIsExact(t: Table, u: string, query: Option<string>)
    requires WellFormed(t)
    ensures var r := SearchResponse(t.rows, u, query);
      && (!Given(query) <==> r == Error(QueryRequired))
      && (Given(query) ==> r.NoMatches? || r.Listed?)
      && (r.NoMatches? <==>
            Given(query) && forall k :: Holds(t.rows, u, k) ==> !Wanted(KeyContains(u, query.value), k))
      && (r.NoMatches? ==> r.query == query.value)
      && (r.Listed? ==> r.count == |r.memories| && ReportsExactly(r.memories, t.rows, KeyContains(u, query.value)))
  {
    if Given(query) {
      var q := query.value;
      var sel := KeyContains(u, q);
      FilterReportsExactly(t, sel);
      var found := Filter(t.rows, sel);
      if |found| > 0 {
        assert found[0] in found;
        LookupIsMembership(t.rows, u, found[0].key, found[0]);
        SubstringSpec(q, found[0].key);
      }
    }
  }

  /** Round trip: a retrieve right after a successful store returns the key,
      the value and the tags (or []) just stored, stamped `now`; created_at
      is `now` for a new key and the first store's time otherwise. */
  lemma RetrieveAfterStore(t: Table, u: string, k: string, v: Value, tags: Option<seq<string>>, now: Timestamp)
    requires WellFormed(t) && k != "" && !v.Null?
    ensures var out := StoreOutcome(t, u, Some(k), v, tags, now);
      && out.response == Stored(k, u)
      && RetrieveResponse(out.table.rows, u, Some(k)) ==
         Found(Memory(k, v, TagsOrEmpty(tags),
                      if Holds(t.rows, u, k) then Lookup(t.rows, u, k).value.createdAt else now,
                      now))
  {
    PutRecord(t, u, k, v, TagsOrEmpty(tags), now);
  }

  /** Storing an existing key overwrites its record in place: the number of
      rows does not change and every other record stays as it was. */
  lemma StoreOverwritesInPlace(t: Table, u: string, k: string, v: Value, tags: Option<seq<string>>, now: Timestamp)
    requires WellFormed(t) && k != "" && !v.Null? && Holds(t.rows, u, k)
    ensures var after := StoreOutcome(t, u, Some(k), v, tags, now).table;
      && |after.rows| == |t.rows|
      && after.nextId == t.nextId
      && Holds(after.rows, u, k)
      && Lookup(after.rows, u, k).value.createdAt == Lookup(t.rows, u, k).value.createdAt
      && forall u', k' :: (u' != u || k' != k) ==> Lookup(after.rows, u', k') == Lookup(t.rows, u', k')
  {
    PutSize(t, u, k, v, TagsOrEmpty(tags), now);
    PutRecord(t, u, k, v, TagsOrEmpty(tags), now);
    forall u', k' | u' != u || k' != k
      ensures Lookup(StoreOutcome(t, u, Some(k), v, tags, now).table.rows, u', k') == Lookup(t.rows, u', k')
    {
      PutFrame(t, u, k, v, TagsOrEmpty(tags), now, u', k');
    }
  }

  /** Two stores of one key leave one record, holding the second store's
      value and tags and the first store's creation time. */
  lemma LastStoreWins(t: Table, u: string, k: string, v1: Value, v2: Value,
                      tags1: Option<seq<string>>, tags2: Option<seq<string>>, now1: Timestamp, now2: Timestamp)
    requires WellFormed(t) && k != "" && !v1.Null? && !v2.Null?
    ensures var t1 := StoreOutcome(t, u, Some(k), v1, tags1, now1).table;
      var t2 := StoreOutcome(t1, u, Some(k), v2, tags2, now2).table;
      && |t2.rows| == |t1.rows|
      && RetrieveResponse(t2.rows, u, Some(k)) ==
         Found(Memory(k, v2, TagsOrEmpty(tags2), Lookup(t1.rows, u, k).value.createdAt, now2))
  {
    var t1 := StoreOutcome(t, u, Some(k), v1, tags1, now1).table;
    PutRecord(t, u, k, v1, TagsOrEmpty(tags1), now1);
    PutSize(t1, u, k, v2, TagsOrEmpty(tags2), now2);
    PutRecord(t1, u, k, v2, TagsOrEmpty(tags2), now2);
  }

  /** delete of a present key removes exactly that row; of an absent key it
      reports not-found and changes nothing; without a key it is an error. */
  lemma DeleteIsExact(t: Table, u: string, key: Option<string>)
    requires WellFormed(t)
    ensures var out := DeleteOutcome(t, u, key);
      && (!Given(key) ==> out == Outcome(t, Error(KeyRequired(Deleting))))
      && (Given(key) && !Holds(t.rows, u, key.value) ==> out == Outcome(t, NotFound(key.value, u)))
      && (Given(key) && Holds(t.rows, u, key.value) ==>
            && out.response == Deleted(key.value, u)
            && |out.table.rows| == |t.rows| - 1
            && !Holds(out.table.rows, u, key.value)
            && forall u', k' :: (u' != u || k' != key.value) ==> Lookup(out.table.rows, u', k') == Lookup(t.rows, u', k'))
  {
    if Given(key) && Holds(t.rows, u, key.value) {
      var k := key.value;
      RemoveRecord(t, u, k);
      forall u', k' | u' != u || k' != k
        ensures Lookup(Remove(t, u, k).rows, u', k') == Lookup(t.rows, u', k')
      {
        RemoveFrame(t, u, k, u', k');
      }
    }
  }

  /** A retrieve after a delete of the same key reports not-found. */
  lemma RetrieveAfterDelete(t: Table, u: string, k: string)
    requires WellFormed(t) && k != ""
    ensures RetrieveResponse(DeleteOutcome(t, u, Some(k)).table.rows, u, Some(k)) == NotFound(k, u)
  {
    RemoveRecord(t, u, k);
  }

  /** Namespace isolation: no request under one username changes what is
      stored under another. */
  lemma NamespaceIsolation(t: Table, req: Request, now: Timestamp, other: string, k: string)
    requires WellFormed(t) && UserOf(req) != other
    ensures Lookup(Execute(t, req, now).table.rows, other, k) == Lookup(t.rows, other, k)
  {
    var u := UserOf(req);
    if req.action == "store" && Given(req.key) && !req.value.Null? {
      PutFrame(t, u, req.key.value, req.value, TagsOrEmpty(req.tags), now, other, k);
    } else if req.action == "delete" && Given(req.key) && Holds(t.rows, u, req.key.value) {
      RemoveFrame(t, u, req.key.value, other, k);
    }
  }

  /** Every record was updated no earlier than it was created. */
  ghost predicate TimesOrdered(t: Table) {
    forall x :: x in t.rows ==> x.createdAt <= x.updatedAt
  }

  /** The clock reading is not older than any record's last update. */
  ghost predicate ClockAfter(t: Table, now: Timestamp) {
    forall x :: x in t.rows ==> x.updatedAt <= now
  }

  /** With a clock that never runs backwards, created_at <= updated_at holds
      of every record after every request. */
  lemma TimesStayOrdered(t: Table, req: Request, now: Timestamp)
    requires WellFormed(t) && TimesOrdered(t) && ClockAfter(t, now)
    ensures TimesOrdered(Execute(t, req, now).table)
    ensures ClockAfter(Execute(t, req, now).table, now)
  {
    var u := UserOf(req);
    if req.action == "store" && Given(req.key) && !req.value.Null? {
      var k := req.key.value;
      var tags := TagsOrEmpty(req.tags);
      var r := Put(t, u, k, req.value, tags, now);
      PutRows(t, u, k, req.value, tags, now);
      PutRecord(t, u, k, req.value, tags, now);
      forall x | x in r.rows
        ensures x.createdAt <= x.updatedAt <= now
      {
        if Names(x, u, k) {
          LookupIsMembership(r.rows, u, k, x);
          if Holds(t.rows, u, k) {
            var before := Lookup(t.rows, u, k).value;
            LookupIsMembership(t.rows, u, k, before);
          }
        }
      }
    } else if req.action == "delete" && Given(req.key) && Holds(t.rows, u, req.key.value) {
      RemoveRows(t, u, req.key.value);
    }
  }

  /** Ids are never reused: a row whose id is below the old counter is a row
      that was there before under the same natural key. */
  lemma IdsNeverReused(t: Table, req: Request, now: Timestamp)
    requires WellFormed(t)
    ensures forall x :: x in Execute(t, req, now).table.rows ==>
      x.id >= t.nextId || exists y :: y in t.rows && y.id == x.id && SameKey(x, y)
  {
    var u := UserOf(req);
    if req.action == "store" && Given(req.key) && !req.value.Null? {
      var k := req.key.value;
      var tags := TagsOrEmpty(req.tags);
      var r := Put(t, u, k, req.value, tags, now);
      PutRows(t, u, k, req.value, tags, now);
      PutRecord(t, u, k, req.value, tags, now);
      forall x | x in r.rows && x.id < t.nextId
        ensures exists y :: y in t.rows && y.id == x.id && SameKey(x, y)
      {
        if x in t.rows {
          assert SameKey(x, x);
        } else {
          LookupIsMembership(r.rows, u, k, x);
          var before := Lookup(t.rows, u, k).value;
          LookupIsMembership(t.rows, u, k, before);
          assert SameKey(x, before);
        }
      }
    } else if req.action == "delete" && Given(req.key) && Holds(t.rows, u, req.key.value) {
      RemoveRows(t, u, req.key.value);
      forall x | x in Remove(t, u, req.key.value).rows
        ensures SameKey(x, x)
      {
      }
    }
  }
}
