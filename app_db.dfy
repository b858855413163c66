/** The application record store: a table of application records keyed by
    desktop file, a separate icon map keyed the same way, point lookups by
    path and by name, enumeration, and the ranked search over all records. */
module Apps {
  import opened Text
  import opened Options
  import opened SearchNames
  import opened Ranking

  /** An icon handle; loading icons is outside this model. */
  datatype Icon = Icon(handle: string)

  /** One table row; its key, the desktop file, is held by the table. */
  datatype Row = Row(name: string, description: string, searchName: string)

  /** What a lookup returns: the row's fields, its key and its icon, if the
      icon map holds one for that key. */
  datatype Record = Record(name: string, description: string, desktopFile: string,
                           searchName: string, icon: Option<Icon>)

  /** The four things the store asks of an application descriptor: its file
      name, display name, description and (possibly missing) launch command. */
  datatype DesktopApp = DesktopApp(filename: string, name: string, description: string,
                                   exec: Option<string>)

  /** The result item built for one record during a search. */
  datatype AppResultItem = AppResultItem(record: Record)

  /** The result list a search returns holds at most this many items. */
  const FindLimit: nat := 9

  predicate Distinct(keys: seq<string>) {
    forall i, j :: 0 <= i < j < |keys| ==> keys[i] != keys[j]
  }

  /** `keys` with `key` removed, the others kept in order. */
  function Without(keys: seq<string>, key: string): (r: seq<string>)
    ensures forall k :: k in r <==> k in keys && k != key
  {
    if keys == [] then []
    else if keys[0] == key then Without(keys[1..], key)
    else [keys[0]] + Without(keys[1..], key)
  }

  /** Removing a key keeps the others distinct. */
  lemma {:induction false} WithoutKeepsDistinct(keys: seq<string>, key: string)
    requires Distinct(keys)
    ensures Distinct(Without(keys, key))
  {
    if keys != [] {
      WithoutKeepsDistinct(keys[1..], key);
      if keys[0] != key {
        var rest := Without(keys[1..], key);
        assert keys[0] !in keys[1..];
        assert keys[0] !in rest;
        var r := [keys[0]] + rest;
        forall i, j | 0 <= i < j < |r| ensures r[i] != r[j] {
          if i == 0 {
            assert r[j] == rest[j - 1];
          }
        }
      }
    }
  }

  /** Removing a key that is not there changes nothing. */
  lemma {:induction false} WithoutAbsent(keys: seq<string>, key: string)
    requires key !in keys
    ensures Without(keys, key) == keys
  {
    if keys != [] {
      WithoutAbsent(keys[1..], key);
      assert keys == [keys[0]] + keys[1..];
    }
  }

  /** The record a row stands for, with the icon the icon map holds for its key. */
  function MakeRecord(key: string, row: Row, icons: map<string, Icon>): (r: Record) {
    Record(row.name, row.description, key, row.searchName,
           if key in icons then Some(icons[key]) else None)
  }

  /** The records of `keys`, in that order. */
  function RecordsOf(keys: seq<string>, table: map<string, Row>, icons: map<string, Icon>): (rs: seq<Record>)
    requires forall k :: k in keys ==> k in table
    ensures |rs| == |keys|
    ensures forall i :: 0 <= i < |keys| ==> rs[i] == MakeRecord(keys[i], table[keys[i]], icons)
  {
    seq(|keys|, i requires 0 <= i < |keys| => MakeRecord(keys[i], table[keys[i]], icons))
  }

  /** ASCII case-insensitive equality, the comparison SQLite's NOCASE
      collation makes. */
  predicate SameNameNoCase(a: string, b: string) {
    Lower(a) == Lower(b)
  }

  /** One result item per record, in order. */
  function ResultItems(records: seq<Record>): (items: seq<AppResultItem>)
    ensures |items| == |records|
    ensures forall i :: 0 <= i < |records| ==> items[i] == AppResultItem(records[i])
  {
    seq(|records|, i requires 0 <= i < |records| => AppResultItem(records[i]))
  }

  class AppDb {
    /** The rows, keyed by desktop file (the table's unique column). */
    var table: map<string, Row>
    /** The keys in row order (the order a full scan of the table visits them). */
    var order: seq<string>
    /** The icon map, keyed by desktop file. */
    var icons: map<string, Icon>

    /** Every key of the table appears exactly once in the row order. */
    ghost predicate Valid()
      reads this
    {
      Distinct(order) && forall k :: k in order <==> k in table
    }

    /** An opened, empty store. */
    constructor ()
      ensures Valid()
      ensures table == map[] && order == [] && icons == map[]
    {
      table, order, icons := map[], [], map[];
    }

    /** `get_records()`: every record, in row order. */
    function Records(): (rs: seq<Record>)
      reads this
      requires Valid()
      ensures |rs| == |order|
      ensures forall i :: 0 <= i < |rs| ==> rs[i].desktopFile == order[i] && GetByPath(order[i]) == Some(rs[i])
    {
      RecordsOf(order, table, icons)
    }

    /** `get_by_path(path)`: the record stored under `path`, if any. */
    function GetByPath(path: string): (r: Option<Record>)
      reads this
      ensures r.Some? <==> path in table
      ensures r.Some? ==> r.value.desktopFile == path && r.value.name == table[path].name &&
                          r.value.description == table[path].description &&
                          r.value.searchName == table[path].searchName
      ensures r.Some? ==> (r.value.icon.Some? <==> path in icons) &&
                          (path in icons ==> r.value.icon == Some(icons[path]))
    {
      if path in table then Some(MakeRecord(path, table[path], icons)) else None
    }

    /** `put_app(app)`: derive the search alias from the launch command, store
        the icon loaded for the app, and insert or replace the row keyed by
        the app's file name (a replaced row moves to the end of the order). */
    method PutApp(app: DesktopApp, icon: Icon)
      requires Valid()
      modifies this
      ensures Valid()
      ensures table == old(table)[app.filename := Row(app.name, app.description, SearchName(app.name, app.exec))]
      ensures icons == old(icons)[app.filename := icon]
      ensures order == Without(old(order), app.filename) + [app.filename]
      ensures app.filename !in old(table) ==> order == old(order) + [app.filename]
      ensures GetByPath(app.filename)
        == Some(Record(app.name, app.description, app.filename, SearchName(app.name, app.exec), Some(icon)))
    {
      var alias := SearchName(app.name, app.exec);
      icons := icons[app.filename := icon];
      if app.filename !in table {
        WithoutAbsent(order, app.filename);
      }
      WithoutKeepsDistinct(order, app.filename);
      order := Without(order, app.filename) + [app.filename];
      table := table[app.filename := Row(app.name, app.description, alias)];
    }

    /** `INSERT INTO app_db ...` of one row with the given key: refused, with
        nothing changed, when the key is already taken (the column is unique). */
    method InsertRow(key: string, row: Row) returns (ok: bool)
      requires Valid()
      modifies this
      ensures Valid()
      ensures ok <==> key !in old(table)
      ensures ok ==> table == old(table)[key := row] && order == old(order) + [key]
      ensures !ok ==> table == old(table) && order == old(order)
      ensures icons == old(icons)
    {
      ok := key !in table;
      if ok {
        table := table[key := row];
        order := order + [key];
      }
    }

    /** `get_icons()[key] = icon`: the icon map is open to writes. */
    method SetIcon(key: string, icon: Icon)
      modifies this
      ensures icons == old(icons)[key := icon]
      ensures table == old(table) && order == old(order)
    {
      icons := icons[key := icon];
    }

    /** `remove_by_path(path)`: delete the row stored under `path`; a missing
        key is not an error. The icon map is left as it is. */
    method RemoveByPath(path: string)
      requires Valid()
      modifies this
      ensures Valid()
      ensures table == old(table) - {path}
      ensures order == Without(old(order), path)
      ensures icons == old(icons)
      ensures GetByPath(path) == None
      ensures forall k :: k != path ==> GetByPath(k) == old(GetByPath(k))
    {
      WithoutKeepsDistinct(order, path);
      table := table - {path};
      order := Without(order, path);
    }

    /** `get_by_name(name)`: the first record, in row order, whose name equals
        `name` up to ASCII case; nothing when no record's name does. */
    method GetByName(name: string) returns (r: Option<Record>)
      requires Valid()
      ensures r.None? <==> forall i :: 0 <= i < |Records()| ==> !SameNameNoCase(Records()[i].name, name)
      ensures r.Some? ==>
                exists i :: 0 <= i < |Records()| && r.value == Records()[i] &&
                            SameNameNoCase(Records()[i].name, name) &&
                            (forall j :: 0 <= j < i ==> !SameNameNoCase(Records()[j].name, name))
    {
      var rs := Records();
      var i := 0;
      while i < |rs| && !SameNameNoCase(rs[i].name, name)
        invariant 0 <= i <= |rs|
        invariant forall j :: 0 <= j < i ==> !SameNameNoCase(rs[j].name, name)
      {
        i := i + 1;
      }
      r := if i < |rs| then Some(rs[i]) else None;
    }

    /** `find(query)`: an empty query gives an empty list at once; any other
        query builds one result item per record, in row order, and appends
        each to a sorted list created with that query and a limit of 9. The
        minimum score and the scorer are those of the sorted list. */
    method Find(query: string, minScore: int, score: (string, AppResultItem) -> int)
      returns (result: SortedList<AppResultItem>)
      requires Valid()
      ensures fresh(result) && result.Valid()
      ensures result.query == query && result.minScore == minScore
      ensures result.limit == FindLimit && result.score == score
      ensures query == "" ==> result.items == []
      ensures query != "" ==>
        result.items == Feed([], ScoreAll(query, score, ResultItems(Records())), minScore, FindLimit)
    {
      result := new SortedList(query, minScore, FindLimit, score);
      if query == "" {
        return;
      }
      var items := ResultItems(Records());
      var i := 0;
      while i < |items|
        invariant 0 <= i <= |items|
        invariant result.Valid()
        invariant result.query == query && result.minScore == minScore
        invariant result.limit == FindLimit && result.score == score
        invariant result.items == Feed([], ScoreAll(query, score, items[..i]), minScore, FindLimit)
      {
        var scored := ScoreAll(query, score, items[..i]);
        assert ScoreAll(query, score, items[..i + 1]) == scored + [Scored(items[i], score(query, items[i]))];
        FeedSnoc([], scored, Scored(items[i], score(query, items[i])), minScore, FindLimit);
        result.Append(items[i]);
        i := i + 1;
      }
      assert items[..i] == items;
    }
  }

  // ---------------------------------------------------------------------
  // Properties of the store

  /** Enumeration visits every stored record exactly once: one record per
      key, and a key is stored exactly when some record carries it. */
  lemma RecordsEnumerateTable(db: AppDb)
    requires db.Valid()
    ensures |db.Records()| == |db.table|
    ensures forall k :: k in db.table <==> exists i :: 0 <= i < |db.Records()| && db.Records()[i].desktopFile == k
    ensures forall i, j :: 0 <= i < j < |db.Records()| ==> db.Records()[i].desktopFile != db.Records()[j].desktopFile
  {
    var rs := db.Records();
    forall k | k in db.table
      ensures exists i :: 0 <= i < |rs| && rs[i].desktopFile == k
    {
      var i :| 0 <= i < |db.order| && db.order[i] == k;
      assert rs[i].desktopFile == k;
    }
    DistinctCount(db.order, db.table.Keys);
  }

  /** A list of distinct keys holding exactly the keys of a set is as long as
      the set is large. */
  lemma {:induction false} DistinctCount(keys: seq<string>, ks: set<string>)
    requires Distinct(keys)
    requires forall k :: k in keys <==> k in ks
    ensures |keys| == |ks|
    decreases |keys|
  {
    if keys != [] {
      var rest := keys[1..];
      assert forall k :: k in rest <==> k in ks - {keys[0]} by {
        forall k ensures k in rest <==> k in ks - {keys[0]} {
          if k in rest {
            var j :| 0 <= j < |rest| && rest[j] == k;
            assert keys[j + 1] == k;
          }
          if k in ks - {keys[0]} {
            var j :| 0 <= j < |keys| && keys[j] == k;
            assert j != 0;
            assert rest[j - 1] == k;
          }
        }
      }
      DistinctCount(rest, ks - {keys[0]});
    }
  }

  /** Looking up by path agrees with enumeration: it finds a record exactly
      when the enumeration holds one with that key, and then it is that one. */
  lemma GetByPathAgreesWithRecords(db: AppDb, path: string)
    requires db.Valid()
    ensures db.GetByPath(path).Some? <==> exists i :: 0 <= i < |db.Records()| && db.Records()[i].desktopFile == path
    ensures forall i :: 0 <= i < |db.Records()| && db.Records()[i].desktopFile == path ==> db.GetByPath(path) == Some(db.Records()[i])
  {
    var rs := db.Records();
    if path in db.table {
      var i :| 0 <= i < |db.order| && db.order[i] == path;
      assert rs[i].desktopFile == path;
    }
  }

  /** A search returns at most nine items, each scoring at least the minimum,
      best first; and every record whose item reaches the minimum is among
      them unless nine items that score at least as well fill the list. */
  lemma FindKeepsBest(query: string, minScore: int, score: (string, AppResultItem) -> int,
                      records: seq<Record>, k: nat)
    requires k < |records|
    requires score(query, AppResultItem(records[k])) >= minScore
    ensures var r := Feed([], ScoreAll(query, score, ResultItems(records)), minScore, FindLimit);
      WellFormed(r, minScore, FindLimit) &&
      (Scored(AppResultItem(records[k]), score(query, AppResultItem(records[k]))) in r
       || (|r| == FindLimit && forall e :: e in r ==> e.score >= score(query, AppResultItem(records[k]))))
  {
    var xs := ScoreAll(query, score, ResultItems(records));
    var y := Scored(AppResultItem(records[k]), score(query, AppResultItem(records[k])));
    assert xs[k] == y;
    FeedWellFormed([], xs, minScore, FindLimit);
    FeedKeepsBest([], xs, minScore, FindLimit, y);
  }
}
