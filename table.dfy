/** The `memories` table as a value: its rows in id order and the next
    surrogate id, the UNIQUE(username, key) constraint, and the row-level
    operations the actions are built from (lookup, upsert, removal,
    filtering). */
module MemoryTable {
  import opened MemoryRecords

  datatype Table = Table(rows: seq<Row>, nextId: nat)

  /** `row` is the row of the natural key (u, k). */
  predicate Names(row: Row, u: string, k: string) {
    row.username == u && row.key == k
  }

  predicate SameKey(a: Row, b: Row) {
    a.username == b.username && a.key == b.key
  }

  /** UNIQUE(username, key): no two rows share a natural key. */
  ghost predicate Unique(rows: seq<Row>) {
    forall i, j :: 0 <= i < |rows| && 0 <= j < |rows| && SameKey(rows[i], rows[j]) ==> i == j
  }

  /** AUTOINCREMENT: ids grow along the table and stay below the counter. */
  ghost predicate IdsBelow(rows: seq<Row>, nextId: nat) {
    && (forall i, j :: 0 <= i < j < |rows| ==> rows[i].id < rows[j].id)
    && (forall i :: 0 <= i < |rows| ==> rows[i].id < nextId)
  }

  ghost predicate WellFormed(t: Table) {
    Unique(t.rows) && IdsBelow(t.rows, t.nextId)
  }

  /** The empty table a fresh database starts with. */
  function Empty(): (t: Table)
    ensures WellFormed(t) && t.rows == []
  {
    Table([], 1)
  }

  /** `SELECT id FROM memories WHERE username = ? AND key = ?`: the position
      of the row of (u, k), if there is one. */
  function Find(rows: seq<Row>, u: string, k: string): (r: Option<nat>)
    ensures r.Some? ==> r.value < |rows| && Names(rows[r.value], u, k)
    ensures r.None? <==> forall i :: 0 <= i < |rows| ==> !Names(rows[i], u, k)
  {
    if |rows| == 0 then None
    else if Names(rows[|rows| - 1], u, k) then Some(|rows| - 1)
    else Find(rows[..|rows| - 1], u, k)
  }

  /** The row of (u, k) as a SELECT with `fetchone` gives it, if any. */
  function Lookup(rows: seq<Row>, u: string, k: string): (r: Option<Row>)
    ensures r.Some? ==> r.value in rows && Names(r.value, u, k)
    ensures r.None? <==> forall x :: x in rows ==> !Names(x, u, k)
  {
    match Find(rows, u, k)
    case None => None
    case Some(i) => Some(rows[i])
  }

  /** Under the uniqueness constraint a lookup returns a row exactly when that
      row is in the table under the key asked for. */
  lemma LookupIsMembership(rows: seq<Row>, u: string, k: string, row: Row)
    requires Unique(rows)
    ensures Lookup(rows, u, k) == Some(row) <==> row in rows && Names(row, u, k)
  {
    if row in rows && Names(row, u, k) {
      var j :| 0 <= j < |rows| && rows[j] == row;
      var i := Find(rows, u, k).value;
      assert SameKey(rows[i], rows[j]);
    }
  }

  /** Two uniquely keyed tables that hold the same rows under (u, k) answer a
      lookup of (u, k) alike. */
  lemma SameLookup(a: seq<Row>, b: seq<Row>, u: string, k: string)
    requires Unique(a) && Unique(b)
    requires forall x :: x in a && Names(x, u, k) <==> x in b && Names(x, u, k)
    ensures Lookup(a, u, k) == Lookup(b, u, k)
  {
    match Lookup(a, u, k)
    case Some(x) =>
      LookupIsMembership(a, u, k, x);
      LookupIsMembership(b, u, k, x);
    case None =>
      match Lookup(b, u, k)
      case Some(y) =>
        LookupIsMembership(b, u, k, y);
        LookupIsMembership(a, u, k, y);
      case None =>
  }

  /** Store's write: overwrite value, tags and updated_at of the row of
      (u, k), or insert a new row stamped `now` twice. */
  function Put(t: Table, u: string, k: string, v: Value, tags: seq<string>, now: Timestamp): (r: Table)
    requires WellFormed(t)
    ensures WellFormed(r)
    ensures r.nextId == if Lookup(t.rows, u, k).Some? then t.nextId else t.nextId + 1
  {
    match Find(t.rows, u, k)
    case Some(i) =>
      Table(t.rows[i := t.rows[i].(value := v, tags := tags, updatedAt := now)], t.nextId)
    case None =>
      Table(t.rows + [Row(t.nextId, u, k, v, tags, now, now)], t.nextId + 1)
  }

  /** After a store, the record of (u, k) holds the stored value, tags and
      time; an overwrite keeps its id and created_at, an insert takes a fresh
      id and created_at == updated_at == now. */
  lemma PutRecord(t: Table, u: string, k: string, v: Value, tags: seq<string>, now: Timestamp)
    requires WellFormed(t)
    ensures var r := Put(t, u, k, v, tags, now);
      match Lookup(t.rows, u, k)
      case Some(before) =>
        Lookup(r.rows, u, k) == Some(Row(before.id, u, k, v, tags, before.createdAt, now))
      case None =>
        Lookup(r.rows, u, k) == Some(Row(t.nextId, u, k, v, tags, now, now))
  {
    var r := Put(t, u, k, v, tags, now);
    match Find(t.rows, u, k)
    case Some(i) =>
      LookupIsMembership(r.rows, u, k, r.rows[i]);
    case None =>
      LookupIsMembership(r.rows, u, k, r.rows[|t.rows|]);
  }

  /** A store adds a row only when the key was absent, and never a second
      row for an existing key. */
  lemma PutSize(t: Table, u: string, k: string, v: Value, tags: seq<string>, now: Timestamp)
    requires WellFormed(t)
    ensures |Put(t, u, k, v, tags, now).rows| == |t.rows| + (if Lookup(t.rows, u, k).Some? then 0 else 1)
  {
  }

  /** Every row after a store was there before, or is the row of (u, k). */
  lemma PutRows(t: Table, u: string, k: string, v: Value, tags: seq<string>, now: Timestamp)
    requires WellFormed(t)
    ensures forall x :: x in Put(t, u, k, v, tags, now).rows ==> x in t.rows || Names(x, u, k)
  {
  }

  /** A store leaves the record of every other natural key as it was. */
  lemma PutFrame(t: Table, u: string, k: string, v: Value, tags: seq<string>, now: Timestamp, u': string, k': string)
    requires WellFormed(t)
    requires u' != u || k' != k
    ensures Lookup(Put(t, u, k, v, tags, now).rows, u', k') == Lookup(t.rows, u', k')
  {
    var r := Put(t, u, k, v, tags, now);
    forall x
      ensures x in r.rows && Names(x, u', k') <==> x in t.rows && Names(x, u', k')
    {
      match Find(t.rows, u, k)
      case Some(i) =>
        if x in t.rows && Names(x, u', k') {
          var j :| 0 <= j < |t.rows| && t.rows[j] == x;
          assert j != i;
          assert r.rows[j] == x;
        }
      case None =>
    }
    SameLookup(r.rows, t.rows, u', k');
  }

  /** The table without its i-th row. */
  function Without(rows: seq<Row>, i: nat): (r: seq<Row>)
    requires i < |rows|
    ensures |r| == |rows| - 1
    ensures forall p :: 0 <= p < |r| ==> r[p] == rows[if p < i then p else p + 1]
  {
    rows[..i] + rows[i + 1..]
  }

  lemma WithoutKeepsWellFormed(t: Table, i: nat)
    requires WellFormed(t) && i < |t.rows|
    ensures WellFormed(Table(Without(t.rows, i), t.nextId))
  {
    var r := Without(t.rows, i);
    forall p, q | 0 <= p < |r| && 0 <= q < |r| && SameKey(r[p], r[q])
      ensures p == q
    {
      var p' := if p < i then p else p + 1;
      var q' := if q < i then q else q + 1;
      assert SameKey(t.rows[p'], t.rows[q']);
    }
    forall p, q | 0 <= p < q < |r|
      ensures r[p].id < r[q].id
    {
      var p' := if p < i then p else p + 1;
      var q' := if q < i then q else q + 1;
      assert t.rows[p'].id < t.rows[q'].id;
    }
  }

  /** Delete's write: drop the row of (u, k) if there is one. */
  function Remove(t: Table, u: string, k: string): (r: Table)
    requires WellFormed(t)
    ensures WellFormed(r)
    ensures r.nextId == t.nextId
  {
    match Find(t.rows, u, k)
    case None => t
    case Some(i) =>
      WithoutKeepsWellFormed(t, i);
      Table(Without(t.rows, i), t.nextId)
  }

  /** The rows after a delete are exactly the rows before, less the row of
      (u, k). */
  lemma RemoveRows(t: Table, u: string, k: string)
    requires WellFormed(t)
    ensures forall x :: x in Remove(t, u, k).rows <==> x in t.rows && !Names(x, u, k)
  {
    var r := Remove(t, u, k);
    match Find(t.rows, u, k)
    case None =>
    case Some(i) =>
      forall x
        ensures x in r.rows <==> x in t.rows && !Names(x, u, k)
      {
        if x in r.rows {
          var p :| 0 <= p < |r.rows| && r.rows[p] == x;
          var p' := if p < i then p else p + 1;
          assert t.rows[p'] == x;
        }
        if x in t.rows && !Names(x, u, k) {
          var j :| 0 <= j < |t.rows| && t.rows[j] == x;
          assert j != i;
          assert r.rows[if j < i then j else j - 1] == x;
        }
      }
  }

  /** A delete of a present key removes exactly one row and the key is gone;
      a delete of an absent key changes nothing. */
  lemma RemoveRecord(t: Table, u: string, k: string)
    requires WellFormed(t)
    ensures Lookup(Remove(t, u, k).rows, u, k) == None
    ensures Lookup(t.rows, u, k).Some? ==> |Remove(t, u, k).rows| == |t.rows| - 1
    ensures Lookup(t.rows, u, k).None? ==> Remove(t, u, k) == t
  {
    RemoveRows(t, u, k);
  }

  /** A delete leaves the record of every other natural key as it was. */
  lemma RemoveFrame(t: Table, u: string, k: string, u': string, k': string)
    requires WellFormed(t)
    requires u' != u || k' != k
    ensures Lookup(Remove(t, u, k).rows, u', k') == Lookup(t.rows, u', k')
  {
    RemoveRows(t, u, k);
    SameLookup(Remove(t, u, k).rows, t.rows, u', k');
  }

  /** Case-sensitive substring test, the model's reading of
      `key LIKE '%query%'`. */
  function IsSubstring(q: string, s: string): (b: bool)
    ensures q <= s ==> b
    ensures b ==> |q| <= |s|
  {
    q <= s || (|s| > 0 && IsSubstring(q, s[1..]))
  }

  ghost predicate OccursAt(q: string, s: string, i: int) {
    0 <= i && i + |q| <= |s| && s[i..i + |q|] == q
  }

  /** IsSubstring finds q exactly when q occurs somewhere in s. */
  lemma {:induction false} SubstringSpec(q: string, s: string)
    ensures IsSubstring(q, s) <==> exists i :: OccursAt(q, s, i)
  {
    if q <= s {
      assert OccursAt(q, s, 0);
    } else if |s| == 0 {
    } else {
      SubstringSpec(q, s[1..]);
      if IsSubstring(q, s[1..]) {
        var i :| OccursAt(q, s[1..], i);
        assert s[1..][i..i + |q|] == s[i + 1..i + 1 + |q|];
        assert OccursAt(q, s, i + 1);
      }
      if exists i :: OccursAt(q, s, i) {
        var i :| OccursAt(q, s, i);
        assert i > 0;
        assert s[1..][i - 1..i - 1 + |q|] == s[i..i + |q|];
        assert OccursAt(q, s[1..], i - 1);
      }
    }
  }

  /** The WHERE clause of list (`username = ?`) and of search
      (`username = ? AND key LIKE ?`). */
  datatype Selector = Owner(username: string) | KeyContains(username: string, query: string)

  predicate KeyMatches(sel: Selector, k: string) {
    sel.KeyContains? ==> IsSubstring(sel.query, k)
  }

  predicate Selects(sel: Selector, row: Row) {
    row.username == sel.username && KeyMatches(sel, row.key)
  }

  /** The rows a SELECT with that WHERE clause returns, in table order. */
  function Filter(rows: seq<Row>, sel: Selector): (r: seq<Row>)
    ensures forall x :: x in r <==> x in rows && Selects(sel, x)
    ensures |r| <= |rows|
  {
    if |rows| == 0 then []
    else
      var last := rows[|rows| - 1];
      Filter(rows[..|rows| - 1], sel) + (if Selects(sel, last) then [last] else [])
  }

  /** A selection never reports two rows of the same natural key. */
  lemma {:induction false} FilterDistinct(rows: seq<Row>, sel: Selector)
    requires Unique(rows)
    ensures forall i, j :: 0 <= i < j < |Filter(rows, sel)| ==> !SameKey(Filter(rows, sel)[i], Filter(rows, sel)[j])
  {
    if |rows| > 0 {
      var init := rows[..|rows| - 1];
      var last := rows[|rows| - 1];
      assert Unique(init) by {
        forall i, j | 0 <= i < |init| && 0 <= j < |init| && SameKey(init[i], init[j])
          ensures i == j
        {
          assert SameKey(rows[i], rows[j]);
        }
      }
      FilterDistinct(init, sel);
      var f := Filter(init, sel);
      forall x | x in f
        ensures !SameKey(x, last)
      {
        var p :| 0 <= p < |init| && init[p] == x;
        assert rows[p] == x;
      }
      var r := Filter(rows, sel);
      assert r == f + (if Selects(sel, last) then [last] else []);
      forall i, j | 0 <= i < j < |r|
        ensures !SameKey(r[i], r[j])
      {
        assert r[i] == f[i];
        if j < |f| {
          assert r[j] == f[j];
        } else {
          assert f[i] in f && r[j] == last;
        }
      }
    }
  }
}
