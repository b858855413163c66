/** The store's tests as scenarios: a fixture of nine records, then removal,
    insertion, lookups by name and by path, and searches, each with what it
    must give stated as a postcondition. */
module AppDbScenarios {
  import opened Options
  import opened Text
  import opened SearchNames
  import opened Ranking
  import opened Apps

  /** One fixture value: the four columns and the icon stored for it. */
  datatype Value = Value(name: string, description: string, searchName: string,
                         desktopFile: string, icon: string)

  function Values(): (vs: seq<Value>)
    ensures |vs| == 9
  {
    [ Value("john", "test", "john", "john.desktop", "icon"),
      Value("james", "test", "james", "james.desktop", "icon"),
      Value("o.jody", "test", "o.jody", "o.jdy.desktop", "icon"),
      Value("sandy", "test", "sandy", "sandy.desktop", "icon"),
      Value("jane", "test", "jane", "jane.desktop", "icon"),
      Value("LibreOffice Calc", "test", "LibreOffice Calc", "libre.calc", "icon"),
      Value("Calc", "test", "Calc", "calc", "icon"),
      Value("Guake Terminal", "test", "Guake Terminal", "Guake Terminal", "icon"),
      Value("Keyboard", "test", "Keyboard", "Keyboard", "icon") ]
  }

  function KeysOf(vs: seq<Value>): (keys: seq<string>)
    ensures |keys| == |vs|
    ensures forall i :: 0 <= i < |vs| ==> keys[i] == vs[i].desktopFile
  {
    seq(|vs|, i requires 0 <= i < |vs| => vs[i].desktopFile)
  }

  /** The record a fixture value reads back as. */
  function Expected(v: Value): (r: Record) {
    Record(v.name, v.description, v.desktopFile, v.searchName, Some(Icon(v.icon)))
  }

  /** The fixture's keys are distinct, as the unique column demands. */
  lemma ValuesHaveDistinctKeys()
    ensures Distinct(KeysOf(Values()))
  {
    var keys := KeysOf(Values());
    assert keys == ["john.desktop", "james.desktop", "o.jdy.desktop", "sandy.desktop", "jane.desktop",
                    "libre.calc", "calc", "Guake Terminal", "Keyboard"];
  }

  /** The row a fixture value is stored as. */
  function RowOf(v: Value): (r: Row) {
    Row(v.name, v.description, v.searchName)
  }

  /** The fixture's `executemany`: one `INSERT` per value, in order, into an
      empty store. */
  method InsertValues(db: AppDb, values: seq<Value>)
    requires db.Valid() && db.table == map[] && db.order == [] && db.icons == map[]
    requires Distinct(KeysOf(values))
    modifies db
    ensures db.Valid() && db.icons == map[]
    ensures db.order == KeysOf(values)
    ensures forall j :: 0 <= j < |values| ==> db.table[values[j].desktopFile] == RowOf(values[j])
  {
    var keys := KeysOf(values);
    for i := 0 to |values|
      invariant db.Valid()
      invariant db.order == keys[..i]
      invariant forall j :: 0 <= j < i ==> db.table[keys[j]] == RowOf(values[j])
      invariant db.icons == map[]
    {
      assert keys[i] !in keys[..i];
      var ok := db.InsertRow(keys[i], RowOf(values[i]));
      assert keys[..i + 1] == keys[..i] + [keys[i]];
    }
    assert keys[..|values|] == keys;
  }

  /** The fixture's icon loop: `get_icons()[key] = icon` for each value. */
  method StoreIcons(db: AppDb, values: seq<Value>)
    requires Distinct(KeysOf(values))
    modifies db
    ensures db.table == old(db.table) && db.order == old(db.order)
    ensures forall j :: 0 <= j < |values| ==> values[j].desktopFile in db.icons
    ensures forall j :: 0 <= j < |values| ==> db.icons[values[j].desktopFile] == Icon(values[j].icon)
  {
    for i := 0 to |values|
      invariant db.table == old(db.table) && db.order == old(db.order)
      invariant forall j :: 0 <= j < i ==> values[j].desktopFile in db.icons
      invariant forall j :: 0 <= j < i ==> db.icons[values[j].desktopFile] == Icon(values[j].icon)
    {
      assert forall j :: 0 <= j < i ==> KeysOf(values)[j] != KeysOf(values)[i];
      db.SetIcon(values[i].desktopFile, Icon(values[i].icon));
    }
  }

  /** The fixture's loading into an empty store: the rows inserted in order,
      then an icon stored for each. Every value reads back as its record. */
  method Load(db: AppDb, values: seq<Value>)
    requires db.Valid() && db.table == map[] && db.order == [] && db.icons == map[]
    requires Distinct(KeysOf(values))
    modifies db
    ensures db.Valid()
    ensures db.order == KeysOf(values)
    ensures forall i :: 0 <= i < |values| ==> db.GetByPath(values[i].desktopFile) == Some(Expected(values[i]))
  {
    InsertValues(db, values);
    StoreIcons(db, values);
  }

  /** The `db_with_data` fixture: a new store loaded with the nine values. */
  method DbWithData() returns (db: AppDb)
    ensures fresh(db) && db.Valid()
    ensures db.order == KeysOf(Values())
    ensures forall i :: 0 <= i < |Values()| ==> db.GetByPath(Values()[i].desktopFile) == Some(Expected(Values()[i]))
  {
    ValuesHaveDistinctKeys();
    db := new AppDb();
    Load(db, Values());
  }

  /** `test_remove_by_path`: "jane.desktop" is there before the removal and
      gone after it. */
  method RemoveByPathScenario() returns (before: Option<Record>, after: Option<Record>)
    ensures before.Some? && after.None?
  {
    var db := DbWithData();
    before := db.GetByPath("jane.desktop");
    assert Values()[4].desktopFile == "jane.desktop";
    db.RemoveByPath("jane.desktop");
    after := db.GetByPath("jane.desktop");
  }

  /** `test_put_app`: an app with no launch command is stored under its file
      name with its name as search alias, and the icon loaded for it. */
  method PutAppScenario(pixbuf: Icon) returns (r: Option<Record>)
    ensures r == Some(Record("name_test1", "description_test1", "file_name_test1", "name_test1", Some(pixbuf)))
  {
    var db := new AppDb();
    db.PutApp(DesktopApp("file_name_test1", "name_test1", "description_test1", None), pixbuf);
    r := db.GetByPath("file_name_test1");
  }

  /** `test_get_by_name`: "JohN" finds the record stored as "john". */
  method GetByNameScenario() returns (r: Option<Record>)
    ensures r == Some(Record("john", "test", "john.desktop", "john", Some(Icon("icon"))))
  {
    var db := DbWithData();
    r := db.GetByName("JohN");
    assert Lower("JohN") == "john" == Lower("john");
    assert db.Records()[0] == Expected(Values()[0]);
  }

  /** `test_get_by_path`: "libre.calc" gives the LibreOffice Calc record. */
  method GetByPathScenario() returns (r: Option<Record>)
    ensures r == Some(Record("LibreOffice Calc", "test", "libre.calc", "LibreOffice Calc", Some(Icon("icon"))))
  {
    var db := DbWithData();
    assert Values()[5].desktopFile == "libre.calc";
    r := db.GetByPath("libre.calc");
  }

  /** `test_find_returns_sorted_results`: "bro" gives a list made with that
      query and a limit of 9, fed one item per record of the store. */
  method FindScenario(minScore: int, score: (string, AppResultItem) -> int)
    returns (db: AppDb, result: SortedList<AppResultItem>)
    ensures db.Valid() && |db.Records()| == 9
    ensures result.query == "bro" && result.limit == 9 && result.minScore == minScore
    ensures result.items == Feed([], ScoreAll("bro", score, ResultItems(db.Records())), minScore, 9)
    ensures forall i :: 0 <= i < |db.Records()| ==> db.Records()[i] == Expected(Values()[i])
  {
    db := DbWithData();
    result := db.Find("bro", minScore, score);
  }

  /** `test_find_empty_query`: an empty query gives an empty list. */
  method FindEmptyScenario(minScore: int, score: (string, AppResultItem) -> int)
    returns (result: SortedList<AppResultItem>)
    ensures result.items == []
  {
    var db := DbWithData();
    result := db.Find("", minScore, score);
  }
}
