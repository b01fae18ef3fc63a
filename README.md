# Memories store, modelled in Dafny

This project models the storage engine of an MCP "memories" server. The
engine is one tool, `memories(action, username, key, value, tags,
search_query)`, backed by one SQLite table. The table holds rows
`{id, username, key, value, tags, created_at, updated_at}` under
`UNIQUE(username, key)`. The tool has five actions:

- **store** is an upsert on the natural key `(username, key)`.
- **retrieve** is an exact lookup.
- **list** returns every record of a user, with a count.
- **search** returns the user's records whose key contains a query.
- **delete** removes one record after checking that it exists.

Any other action name is an error. Every outcome is a value that the caller
reads: a confirmation, a record, a list with a count, a not-found message, or
a text starting with `Error: `.

The project has four layers:

- `records.dfy` (module `MemoryRecords`) holds the entities. It has the row,
  the reported `Memory` object, `Value` (JSON-shaped data, where `Null` is
  Python's `None`) and the `Response` datatype. It also has the exact text of
  every non-JSON reply.
- `table.dfy` (module `MemoryTable`) holds the table as a value: its rows in
  id order plus the AUTOINCREMENT counter. It states the uniqueness constraint
  and defines the row operations the SQL statements perform. These are lookup
  (`Find`/`Lookup`), upsert (`Put`), removal (`Remove`), and selection by
  user or by key substring (`Filter`). Lemmas state what each operation does
  to the record of every natural key.
- `actions.dfy` (module `MemoryActions`) holds the tool as a pure state
  machine. `Execute` maps a table and a request to a new table and a
  response, testing the action names in the same order as the tool. The
  properties of the tool are lemmas about it:
  - uniqueness and in-place overwrite;
  - round trip from store to retrieve;
  - exactness of list and search;
  - delete removes exactly one record;
  - namespace isolation;
  - timestamp order;
  - ids are never reused.
- `server.dfy` (module `MemoryServer`) holds the class `MemoryStore`. The
  class keeps the table in fields that the store and delete branches update
  in place. Each branch is a method proved equal to its pure counterpart.
  `Collect` is the result-building loop that list and search share.
  `Memories` is the dispatcher.
- `scenario.dfy` (module `MemoryScenario`) proves the replies of one store,
  retrieve, overwrite, search and delete sequence on concrete values.

Three behaviours of the code are modelled as written:

- The code never checks that `username` is non-empty.
- Retrieve and delete answer a missing record with a plain not-found
  message, not an `Error: ` text.
- Values get no check beyond pickling.

Time is a parameter: the caller passes `now` as a natural number in place of
the wall clock.

## Model

| member | source | states |
|---|---|---|
| `MemoryRecords.ErrorText` | memories_server.py:94-273 | The exact failure texts of the tool. The text for an unknown action ends with the action's name. |
| `MemoryRecords.Message` | memories_server.py:94-273 | The exact plain-text replies. Stored, deleted, not-found and no-memories replies end with the username. The no-matches reply ends with the query in single quotes. |
| `MemoryRecords.ErrorsAreMarked` | memories_server.py:92-273 | Among the plain-text replies, a reply starts with `Error: ` exactly when it is a failure (missing key, missing value, missing query, unknown action). So the prefix tells failure from success. |
| `MemoryTable.Empty` | memories_server.py:29-40 | The freshly created table is empty, satisfies UNIQUE(username, key), and starts its id counter past every id. |
| `MemoryTable.Find` | memories_server.py:108-112 | The existence check finds a position holding the row of (username, key), or reports none exactly when no row has that natural key. |
| `MemoryTable.Lookup` | memories_server.py:141-150 | The SELECT … `fetchone` of (username, key) returns a row of the table under that natural key. It returns none exactly when no row has that key. |
| `MemoryTable.LookupIsMembership` | memories_server.py:38 | Under UNIQUE(username, key), a lookup returns a row exactly when that row is in the table under the requested key. |
| `MemoryTable.SameLookup` | memories_server.py:38 | Two uniquely keyed tables that hold the same rows for (u, k) give the same lookup result for (u, k). |
| `MemoryTable.Put` | memories_server.py:107-132 | The UPDATE-or-INSERT keeps the table uniquely keyed with ascending ids. The id counter advances only when a row is inserted. |
| `MemoryTable.PutRecord` | memories_server.py:114-132 | After a store, the record of (u, k) holds the new value, tags and `updated_at = now`. An overwrite keeps its id and `created_at`. An insert gets the next id and `created_at = updated_at = now`. |
| `MemoryTable.PutSize` | memories_server.py:108-132 | A store adds one row when the key was absent and no row when it was present. It never adds a second row for a key. |
| `MemoryTable.PutRows` | memories_server.py:114-132 | Every row after a store was already in the table, or is the row of the stored key. |
| `MemoryTable.PutFrame` | memories_server.py:116-123 | A store leaves the record of every other (username, key) unchanged. |
| `MemoryTable.Without` | memories_server.py:222-225 | Removing position i shifts the later rows down by one and keeps the earlier rows in place. |
| `MemoryTable.WithoutKeepsWellFormed` | memories_server.py:222-225 | Removing a row keeps the table uniquely keyed with ascending ids. |
| `MemoryTable.Remove` | memories_server.py:222-225 | The DELETE keeps the table well formed and does not touch the id counter. |
| `MemoryTable.RemoveRows` | memories_server.py:222-225 | The rows after a delete are exactly the rows before it, minus the row of (u, k). |
| `MemoryTable.RemoveRecord` | memories_server.py:214-225 | After a delete, (u, k) is absent. A present key costs exactly one row. An absent key leaves the table unchanged. |
| `MemoryTable.RemoveFrame` | memories_server.py:222-225 | A delete leaves the record of every other (username, key) unchanged. |
| `MemoryTable.IsSubstring` | memories_server.py:239-241 | The key test of search. It accepts a key that starts with the query. It never accepts a query longer than the key. |
| `MemoryTable.SubstringSpec` | memories_server.py:239-241 | The key test in search holds exactly when the query occurs at some position of the key. |
| `MemoryTable.Filter` | memories_server.py:174-183 | The SELECT returns exactly the rows of the table that satisfy the WHERE clause (user, or user and key substring), and no more rows than the table has. |
| `MemoryTable.FilterDistinct` | memories_server.py:235-244 | On a uniquely keyed table, a selection never returns two rows of the same natural key. |
| `MemoryActions.UserOf` | memories_server.py:50 | The request's username, or `default_user` when none is given. |
| `MemoryActions.Given` | memories_server.py:93 | Python's `not s` is false exactly when the argument is neither None nor the empty string. The same test guards the key at lines 138 and 211 and the query at line 231. |
| `MemoryActions.TagsOrEmpty` | memories_server.py:99 | `tags or []`: the given tag list, and the empty list exactly when tags are omitted or empty. |
| `MemoryActions.StoreOutcome` | memories_server.py:92-135 | A store fails exactly when the key is missing or empty or the value is None. A missing key gives the key-required error, checked first. A given key with a None value gives the value-required error. A failed store leaves the table unchanged. Every other store replies `Stored(key, username)`. |
| `MemoryActions.RetrieveResponse` | memories_server.py:137-170 | A missing or empty key is the key-required error. Otherwise retrieve answers found or not-found, and not-found exactly when no row of the user has the key. |
| `MemoryActions.RetrieveIsExact` | memories_server.py:137-170 | On a well-formed table, a retrieve without a key is an error. For a given key it returns the user's row of that key, shaped for the reply, and not-found when there is none. |
| `MemoryActions.Listing` | memories_server.py:185-208 | The reply of list and search: the empty-result reply exactly when no row is selected, otherwise a list whose count is its positive length. |
| `MemoryActions.ListResponse` | memories_server.py:172-208 | list answers "No memories stored" exactly when the user owns no row. Otherwise it answers a list whose count is its positive length. |
| `MemoryActions.SearchResponse` | memories_server.py:230-269 | A missing or empty query is the query-required error. Otherwise search answers "No memories found" exactly when none of the user's keys contains the query, and a counted list otherwise. |
| `MemoryActions.DeleteOutcome` | memories_server.py:210-228 | A delete fails exactly when the key is missing or empty. Only a `Deleted` reply changes the table. The table stays well formed. |
| `MemoryActions.Execute` | memories_server.py:92-273 | Every request keeps the table uniquely keyed. Id counters never go back. An error never writes. Only store and delete write. An unknown action returns `Unknown action` and changes nothing. |
| `MemoryActions.FilterReportsExactly` | memories_server.py:189-203 | The reported objects are exactly the records that the selector asks for, each reported once and shaped from its row. |
| `MemoryActions.ListIsExact` | memories_server.py:172-208 | list reports exactly the user's records, with `count` equal to their number. It answers "No memories stored" exactly when the user has none. |
| `MemoryActions.SearchIsExact` | memories_server.py:230-269 | A missing or empty query is an error. Otherwise search reports exactly the user's records whose key contains the query, with their count. It answers "No memories found" exactly when none match. Values and tags are not consulted. |
| `MemoryActions.RetrieveAfterStore` | memories_server.py:92-170 | A retrieve after a successful store returns the key, the value and the tags (or `[]`) that were stored, with `updated_at = now`. `created_at` is `now` for a new key and the earlier creation time otherwise. |
| `MemoryActions.StoreOverwritesInPlace` | memories_server.py:114-123 | Storing an existing key keeps the row count, the id counter and `created_at`, and changes no other record. |
| `MemoryActions.LastStoreWins` | memories_server.py:108-123 | Two stores of one key leave one record. It holds the second store's value and tags and the first store's creation time. |
| `MemoryActions.DeleteIsExact` | memories_server.py:210-228 | A delete with no key is an error. An absent key gets not-found with the table unchanged. A present key loses exactly its row, and every other record stays unchanged. |
| `MemoryActions.RetrieveAfterDelete` | memories_server.py:137-153 | A retrieve after a delete of the same key answers not-found. |
| `MemoryActions.NamespaceIsolation` | memories_server.py:108-131 | No request made as one user changes any record of another user. |
| `MemoryActions.TimesStayOrdered` | memories_server.py:104-132 | If the clock is not older than any update, `created_at <= updated_at` holds for every record after every request. |
| `MemoryActions.IdsNeverReused` | memories_server.py:31 | After any request, a row whose id is below the old counter was already present under the same natural key. So AUTOINCREMENT never hands out an id twice. |
| `MemoryServer.MemoryStore.constructor` | memories_server.py:23-43 | The store starts as the empty, well-formed table. |
| `MemoryServer.MemoryStore.Store` | memories_server.py:92-135 | Validates, then updates the existing row in place or appends a new one. The new state and the reply are those of `StoreOutcome`, and the table stays well formed. |
| `MemoryServer.MemoryStore.Retrieve` | memories_server.py:137-170 | Returns the key-required error, not-found, or the shaped record of (username, key), as `RetrieveResponse` defines. |
| `MemoryServer.MemoryStore.Collect` | memories_server.py:250-264 | The result loop returns, in table order, the shaped rows that the selection picks. |
| `MemoryServer.MemoryStore.List` | memories_server.py:172-208 | Returns the list reply for the user, which `ListIsExact` characterises. |
| `MemoryServer.MemoryStore.Search` | memories_server.py:230-269 | Returns the search reply for the user and query, which `SearchIsExact` characterises. |
| `MemoryServer.MemoryStore.Delete` | memories_server.py:210-228 | Checks existence, then removes the row in place. The new state and the reply are those of `DeleteOutcome`. |
| `MemoryServer.MemoryStore.Memories` | memories_server.py:50-273 | The tool entry point. Its new state and reply are exactly those of `Execute`, and it keeps the table well formed. |
| `MemoryScenario.AliceScenario` | memories_server.py:92-269 | On concrete values: store "fav_lang" = "Go" for alice, then retrieve, overwrite with "Rust", search "fav", delete, and retrieve. Each step gives the expected reply with the expected timestamps. |

## Left out

- SQLite connections, `commit`, `close` and the `finally` cleanup are not modelled. The table is in-memory state and every action is atomic.
- The FastMCP server object, tool registration and the stdio transport are framework code and are not part of this model.
- `pickle.dumps`/`pickle.loads` are not modelled. A value is stored and returned as is, and pickling is assumed to round-trip.
- JSON rendering is not modelled: of the tag list, of the retrieved object, and of the `{count, memories}` document. Found and Listed replies stay datatype values, and `Message` renders only the plain-text replies.
- `datetime.now().isoformat()` is replaced by the `now` parameter, a natural number. ISO-8601 strings are not modelled.
- The `print` log line is not modelled.
- The catch-all `except Exception` is not modelled. It turns SQLite or pickling failures into `Error: <exception text>`, and nothing in the model can fail that way.
- `IsSubstring`: `key LIKE '%q%'` is modelled as case-sensitive substring containment. SQLite's LIKE ignores ASCII case and treats `%` and `_` inside the query as wildcards. So the tool can report more search matches than the model.
- `Value` covers JSON null, booleans, integers, strings, arrays and objects. Floating-point numbers and non-JSON Python objects are not modelled.
- `UserOf`: an explicit `username=None` is treated like an omitted username, which means `default_user`. In the tool, an explicit None matches no row, and a store with it fails the NOT NULL constraint.
- The tool gives no order for rows in list and search results. The model reports them in table (id) order.
- Concurrent, overlapping calls are not modelled. Each call runs to completion before the next one starts.
