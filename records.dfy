/** Entities of the memories store: the stored row, the shape handed back to
    the caller, and the responses of the `memories` tool. */
module MemoryRecords {

  datatype Option<+T> = None | Some(value: T)

  /** A value handed to the tool. It arrives as decoded JSON; `Null` is
      Python's `None`, which is what an omitted value and an explicit JSON
      null both become. */
  datatype Value =
    | Null
    | Bool(b: bool)
    | Number(n: int)
    | Text(s: string)
    | Array(items: seq<Value>)
    | Object(fields: map<string, Value>)

  /** A point in time; the caller supplies the clock reading. */
  type Timestamp = nat

  /** One row of the `memories` table. `id` is the storage's own surrogate
      identity and is never shown to the caller. */
  datatype Row = Row(
    id: nat,
    username: string,
    key: string,
    value: Value,
    tags: seq<string>,
    createdAt: Timestamp,
    updatedAt: Timestamp)

  /** The object a retrieve, list or search reports for one row. */
  datatype Memory = Memory(
    key: string,
    value: Value,
    tags: seq<string>,
    createdAt: Timestamp,
    updatedAt: Timestamp)

  function Shape(row: Row): Memory {
    Memory(row.key, row.value, row.tags, row.createdAt, row.updatedAt)
  }

  function Shapes(rows: seq<Row>): seq<Memory> {
    seq(|rows|, i requires 0 <= i < |rows| => Shape(rows[i]))
  }

  /** The actions whose missing key is reported with its own message. */
  datatype KeyedAction = Storing | Retrieving | Deleting

  datatype ErrorKind =
    | KeyRequired(action: KeyedAction)
    | ValueRequired
    | QueryRequired
    | UnknownAction(name: string)

  datatype Response =
    | Stored(key: string, username: string)
    | Found(memory: Memory)
    | Listed(count: nat, memories: seq<Memory>)
    | Deleted(key: string, username: string)
    | NotFound(key: string, username: string)
    | NoMemories(username: string)
    | NoMatches(query: string)
    | Error(kind: ErrorKind)

  const ErrorPrefix: string := "Error: "

  /** The text after "Error: " for each failure the tool reports; the text
      of an unknown action ends with the action's name. */
  function ErrorText(e: ErrorKind): (s: string)
    ensures e.UnknownAction? ==> |e.name| < |s| && s[|s| - |e.name|..] == e.name
  {
    match e
    case KeyRequired(Storing) => "Key is required for storing memories"
    case KeyRequired(Retrieving) => "Key is required for retrieving memories"
    case KeyRequired(Deleting) => "Key is required for deleting memories"
    case ValueRequired => "Value is required for storing memories"
    case QueryRequired => "search_query is required for search action"
    case UnknownAction(a) => "Unknown action: " + a
  }

  /** The text the tool returns for every response that is not a JSON
      document (Found and Listed are rendered as JSON objects). */
  function Message(r: Response): (s: string)
    requires !r.Found? && !r.Listed?
    ensures r.Stored? || r.Deleted? || r.NotFound? || r.NoMemories? ==>
      |r.username| < |s| && s[|s| - |r.username|..] == r.username
    ensures r.NoMatches? ==> |r.query| + 2 < |s| && s[|s| - |r.query| - 2..] == "'" + r.query + "'"
  {
    match r
    case Stored(k, u) => "Memory stored with key: " + k + " for user: " + u
    case Deleted(k, u) => "Memory deleted with key: " + k + " for user: " + u
    case NotFound(k, u) => "Memory not found with key: " + k + " for user: " + u
    case NoMemories(u) => "No memories stored for user: " + u
    case NoMatches(q) => "No memories found matching: '" + q + "'"
    case Error(e) => ErrorPrefix + ErrorText(e)
    case Found(_) => assert false; ""
    case Listed(_, _) => assert false; ""
  }

  predicate IsErrorText(s: string) {
    ErrorPrefix <= s
  }

  /** The channel has no separate failure signal: a caller tells a failure
      from a success by the "Error: " prefix, and only failures carry it. */
  lemma ErrorsAreMarked(r: Response)
    requires !r.Found? && !r.Listed?
    ensures IsErrorText(Message(r)) <==> r.Error?
  {
    var s := Message(r);
    if !r.Error? {
      assert s[0] != 'E' by {
        match r
        case Stored(k, u) => assert s[0] == "Memory stored with key: "[0];
        case Deleted(k, u) => assert s[0] == "Memory deleted with key: "[0];
        case NotFound(k, u) => assert s[0] == "Memory not found with key: "[0];
        case NoMemories(u) => assert s[0] == "No memories stored for user: "[0];
        case NoMatches(q) => assert s[0] == "No memories found matching: '"[0];
      }
    }
  }
}
