/** The memories store as the tool runs it: a table held in place and
    changed by the store and delete branches of `memories`. */
module MemoryServer {
  import opened MemoryRecords
  import opened MemoryTable
  import opened MemoryActions

  class MemoryStore {
    var rows: seq<Row>
    var nextId: nat

    function State(): Table
      reads this
    {
      Table(rows, nextId)
    }

    ghost predicate Valid()
      reads this
    {
      WellFormed(State())
    }

    /** `init_db` on a fresh database file: an empty table. */
    constructor ()
      ensures Valid() && State() == Empty()
    {
      rows := [];
      nextId := 1;
    }

    /** The store branch: validate, look the key up, then update that row in
        place or insert a new one. */
    method Store(u: string, key: Option<string>, value: Value, tags: Option<seq<string>>, now: Timestamp)
      returns (resp: Response)
      requires Valid()
      modifies this
      ensures Valid()
      ensures State() == StoreOutcome(old(State()), u, key, value, tags, now).table
      ensures resp == StoreOutcome(old(State()), u, key, value, tags, now).response
    {
      if !Given(key) {
        return Error(KeyRequired(Storing));
      }
      if value.Null? {
        return Error(ValueRequired);
      }
      var k := key.value;
      var tagList := TagsOrEmpty(tags);
      var existing := Find(rows, u, k);
      if existing.Some? {
        var i := existing.value;
        rows := rows[i := rows[i].(value := value, tags := tagList, updatedAt := now)];
      } else {
        rows := rows + [Row(nextId, u, k, value, tagList, now, now)];
        nextId := nextId + 1;
      }
      resp := Stored(k, u);
    }

    /** The retrieve branch: an exact lookup of (u, key). */
    method Retrieve(u: string, key: Option<string>) returns (resp: Response)
      ensures resp == RetrieveResponse(rows, u, key)
    {
      if !Given(key) {
        return Error(KeyRequired(Retrieving));
      }
      var found := Find(rows, u, key.value);
      if found.None? {
        resp := NotFound(key.value, u);
      } else {
        resp := Found(Shape(rows[found.value]));
      }
    }

    /** The result loop of list and search: every selected row, shaped for
        the reply, in table order. */
    method Collect(sel: Selector) returns (memories: seq<Memory>)
      ensures memories == Shapes(Filter(rows, sel))
    {
      memories := [];
      var i := 0;
      while i < |rows|
        invariant 0 <= i <= |rows|
        invariant memories == Shapes(Filter(rows[..i], sel))
      {
        assert rows[..i + 1][..i] == rows[..i];
        if Selects(sel, rows[i]) {
          memories := memories + [Shape(rows[i])];
        }
        i := i + 1;
      }
      assert rows[..i] == rows;
    }

    /** The list branch. */
    method List(u: string) returns (resp: Response)
      ensures resp == ListResponse(rows, u)
    {
      var memories := Collect(Owner(u));
      if |memories| == 0 {
        resp := NoMemories(u);
      } else {
        resp := Listed(|memories|, memories);
      }
    }

    /** The search branch. */
    method Search(u: string, query: Option<string>) returns (resp: Response)
      ensures resp == SearchResponse(rows, u, query)
    {
      if !Given(query) {
        return Error(QueryRequired);
      }
      var memories := Collect(KeyContains(u, query.value));
      if |memories| == 0 {
        resp := NoMatches(query.value);
      } else {
        resp := Listed(|memories|, memories);
      }
    }

    /** The delete branch: check that the key exists, then remove its row. */
    method Delete(u: string, key: Option<string>) returns (resp: Response)
      requires Valid()
      modifies this
      ensures Valid()
      ensures State() == DeleteOutcome(old(State()), u, key).table
      ensures resp == DeleteOutcome(old(State()), u, key).response
    {
      if !Given(key) {
        return Error(KeyRequired(Deleting));
      }
      var k := key.value;
      var found := Find(rows, u, k);
      if found.None? {
        return NotFound(k, u);
      }
      WithoutKeepsWellFormed(State(), found.value);
      rows := rows[..found.value] + rows[found.value + 1..];
      resp := Deleted(k, u);
    }

    /** `memories(action, username, key, value, tags, search_query)`. */
    method Memories(req: Request, now: Timestamp) returns (resp: Response)
      requires Valid()
      modifies this
      ensures Valid()
      ensures State() == Execute(old(State()), req, now).table
      ensures resp == Execute(old(State()), req, now).response
    {
      var u := UserOf(req);
      if req.action == "store" {
        resp := Store(u, req.key, req.value, req.tags, now);
      } else if req.action == "retrieve" {
        resp := Retrieve(u, req.key);
      } else if req.action == "list" {
        resp := List(u);
      } else if req.action == "delete" {
        resp := Delete(u, req.key);
      } else if req.action == "search" {
        resp := Search(u, req.searchQuery);
      } else {
        resp := Error(UnknownAction(req.action));
      }
    }
  }
}
