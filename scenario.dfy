/** One user's walk through the tool on concrete values: store a key,
    retrieve it, overwrite it, search for it, delete it and retrieve it
    again, starting from an empty table. */
module MemoryScenario {
  import opened MemoryRecords
  import opened MemoryTable
  import opened MemoryActions

  const Alice: string := "alice"
  const FavLang: string := "fav_lang"

  function Ask(action: string, key: Option<string>, value: Value, query: Option<string>): Request {
    Request(action, Some(Alice), key, value, Some(["#code"]), query)
  }

  const GoRow: Row := Row(1, Alice, FavLang, Text("Go"), ["#code"], 10, 10)
  const RustRow: Row := Row(1, Alice, FavLang, Text("Rust"), ["#code"], 10, 20)

  lemma FirstStore()
    ensures Execute(Empty(), Ask("store", Some(FavLang), Text("Go"), None), 10)
      == Outcome(Table([GoRow], 2), Stored(FavLang, Alice))
  {
  }

  lemma RetrieveFirst()
    ensures Execute(Table([GoRow], 2), Ask("retrieve", Some(FavLang), Null, None), 11).response
      == Found(Memory(FavLang, Text("Go"), ["#code"], 10, 10))
  {
  }

  lemma SecondStore()
    ensures Execute(Table([GoRow], 2), Ask("store", Some(FavLang), Text("Rust"), None), 20)
      == Outcome(Table([RustRow], 2), Stored(FavLang, Alice))
  {
  }

  lemma RetrieveSecond()
    ensures Execute(Table([RustRow], 2), Ask("retrieve", Some(FavLang), Null, None), 21).response
      == Found(Memory(FavLang, Text("Rust"), ["#code"], 10, 20))
  {
  }

  lemma SearchPrefix()
    ensures Execute(Table([RustRow], 2), Ask("search", None, Null, Some("fav")), 22).response
      == Listed(1, [Memory(FavLang, Text("Rust"), ["#code"], 10, 20)])
  {
  }

  lemma DeleteIt()
    ensures Execute(Table([RustRow], 2), Ask("delete", Some(FavLang), Null, None), 23)
      == Outcome(Table([], 2), Deleted(FavLang, Alice))
  {
  }

  lemma RetrieveDeleted()
    ensures Execute(Table([], 2), Ask("retrieve", Some(FavLang), Null, None), 24).response
      == NotFound(FavLang, Alice)
  {
  }

  /** The whole walk: each reply in turn, with created_at fixed by the first
      store and updated_at moved by the second. */
  lemma AliceScenario()
    ensures var s1 := Execute(Empty(), Ask("store", Some(FavLang), Text("Go"), None), 10);
      var s2 := Execute(s1.table, Ask("store", Some(FavLang), Text("Rust"), None), 20);
      var d := Execute(s2.table, Ask("delete", Some(FavLang), Null, None), 23);
      && s1.response == Stored(FavLang, Alice)
      && Execute(s1.table, Ask("retrieve", Some(FavLang), Null, None), 11).response
           == Found(Memory(FavLang, Text("Go"), ["#code"], 10, 10))
      && s2.response == Stored(FavLang, Alice)
      && Execute(s2.table, Ask("retrieve", Some(FavLang), Null, None), 21).response
           == Found(Memory(FavLang, Text("Rust"), ["#code"], 10, 20))
      && Execute(s2.table, Ask("search", None, Null, Some("fav")), 22).response
           == Listed(1, [Memory(FavLang, Text("Rust"), ["#code"], 10, 20)])
      && d.response == Deleted(FavLang, Alice)
      && Execute(d.table, Ask("retrieve", Some(FavLang), Null, None), 24).response
           == NotFound(FavLang, Alice)
  {
    FirstStore();
    RetrieveFirst();
    SecondStore();
    RetrieveSecond();
    SearchPrefix();
    DeleteIt();
    RetrieveDeleted();
  }
}
