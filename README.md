# Ulauncher application index, modelled in Dafny

This project models the application index of the Ulauncher launcher. It has two parts.

- **`search_name(display_name, exec)`** derives a search alias from an application's launch command. It drops the `%X` field codes of the Freedesktop Desktop Entry Specification ("The Exec key") and drops dash-prefixed flags. It keeps only the first remaining token, and only that token's base name. It appends that name to the display name unless the name is redundant.
- **The `AppDb` record store** holds:
  - a table of application records (name, description, desktop file, search alias), keyed by desktop file;
  - a separate icon map, keyed the same way.

  Its operations:
  - `put_app` inserts or replaces a row;
  - `remove_by_path` deletes a row;
  - `get_by_path` and `get_by_name` look up one record; `get_by_name` ignores case;
  - `get_records` enumerates the records;
  - `find(query)` feeds one result item per record into a bounded sorted list with a limit of 9.

The name derivation and the store follow the behaviour that `tests/search/apps/test_AppDb.py` pins down. The store's implementation module, `ulauncher/search/apps/AppDb.py`, is not part of this model. The sorted list is not part of it either, and the tests replace it with a stand-in. They fix only the arguments it is created with and that every record's item is appended to it. Its behaviour is therefore a stated assumption, as set out below:

- refusing items under the minimum score;
- inserting in descending score order, ties in arrival order;
- cutting the list back to its limit.

Files:

- `text.dfy` (module `Text`): the string operations the deriver uses.
  - Whitespace splitting in the manner of Python's `str.split()`.
  - ASCII lower-casing.
  - Replacing spaces with dashes.
  - Substring containment.
  - `os.path.basename`.
- `search_name.dfy`:
  - module `Options`: the `Option` type, standing for Python's `None`-or-value;
  - module `SearchNames`: the alias derivation;
  - module `SearchNameVectors`: the seven vectors of the test table, each proved as a lemma.
- `ranking.dfy` (module `Ranking`): the bounded sorted result list, as the class `SortedList`.
  - Each appended item is scored against the query by a scorer that is a parameter.
  - Items under the minimum score are refused.
  - The others are inserted after every entry that scores at least as much, so ties keep their arrival order.
  - The list is cut back to its limit.
  - The pure specification is a fold (`Feed`) of one-step appends (`Offer`). Lemmas prove that the result stays well formed (bounded, descending, above the minimum) and that it keeps the best items.
- `app_db.dfy` (module `Apps`): the store, as the class `AppDb`.
  - Fields: a `table` map, the row `order`, and the `icons` map.
  - Lemmas relate enumeration, lookup and search.
- `app_db_scenarios.dfy` (module `AppDbScenarios`): the store's test functions as methods. The fixture of nine rows is `DbWithData`. Each test's assertions are the corresponding method's postconditions.

The rule for "redundant" comes from the test table. The display name is lower-cased and its spaces become dashes. The program name adds nothing when that string occurs inside the lower-cased program name. So "Calendar" occurs in `gnome-calendar` (test line 114), and "content-hub-clipboard" in `content-hub-clipboard` (line 110). The rule "the program name occurs inside the display name" would append `gnome-calendar` to "Calendar", which contradicts line 114.

## Model

| member | source | states |
|---|---|---|
| SearchNames.SearchName | tests/search/apps/test_AppDb.py:108-116 | The alias always starts with the display name. It equals the display name exactly when there is no command, the command names no program, or the program name is redundant. Otherwise it is the display name, one space, and the program's base name. |
| SearchNames.FirstProgramIsFirst | tests/search/apps/test_AppDb.py:112-116 | The program is the base name of the first token that is neither a field code nor a flag, and "" when no such token exists. |
| SearchNames.CommandNameSkips | tests/search/apps/test_AppDb.py:113-116 | A leading field code or flag word does not change the program a command names. |
| SearchNames.CommandNameTakes | tests/search/apps/test_AppDb.py:112-113 | Once a program word comes first, whatever follows it is ignored and its base name is the program. |
| SearchNames.ProgramFirst | tests/search/apps/test_AppDb.py:109 | A plain program word in first position is the program name. |
| SearchNames.AbsolutePathCommand | tests/search/apps/test_AppDb.py:111 | A program given by path contributes only the part after its last '/'. |
| SearchNames.CommandNameIsOneWord | tests/search/apps/test_AppDb.py:108-116 | The derived program name never holds whitespace, so the alias appends exactly one word. |
| SearchNameVectors.GimpVector | tests/search/apps/test_AppDb.py:109 | "GNU Image Manipulation Program" with `gimp-2.8 %U` gives "GNU Image Manipulation Program gimp-2.8". |
| SearchNameVectors.ContentHubVector | tests/search/apps/test_AppDb.py:110 | "Content Hub Clipboard" with `content-hub-clipboard %U` stays "Content Hub Clipboard". |
| SearchNameVectors.ScopesVector | tests/search/apps/test_AppDb.py:111 | "Scopes" with `/usr/bin/unity8-dash` gives "Scopes unity8-dash". |
| SearchNameVectors.MouseVector | tests/search/apps/test_AppDb.py:112 | "Mouse & Touchpad" with `unity-control-center mouse` gives "Mouse & Touchpad unity-control-center". |
| SearchNameVectors.BackUpVector | tests/search/apps/test_AppDb.py:113 | "Back Up" with `deja-dup --backup` gives "Back Up deja-dup". |
| SearchNameVectors.CalendarVector | tests/search/apps/test_AppDb.py:114 | "Calendar" with `gnome-calendar` stays "Calendar". |
| SearchNameVectors.AmazonVector | tests/search/apps/test_AppDb.py:115-116 | "Amazon" with `unity-webapps-runner --amazon --app-id=ubuntu-amazon-default` gives "Amazon unity-webapps-runner". The command is written as its program word concatenated with its flags, which is the same string. |
| Text.SplitWord | tests/search/apps/test_AppDb.py:108-116 | Splitting a command yields a word followed by a separator (or by nothing) as the first piece, and the rest is split on its own. |
| Text.SplitGivesWords | tests/search/apps/test_AppDb.py:108-116 | Every piece the split returns is a non-empty run of non-whitespace characters. |
| Text.BasenameIsLastComponent | tests/search/apps/test_AppDb.py:111 | The base name is the suffix of the path after its last '/', or the whole path when it holds no '/'. |
| Text.BasenameAfterSlash | tests/search/apps/test_AppDb.py:111 | A directory prefix of any depth is dropped from a path. |
| Ranking.SortedList.Append | tests/search/apps/test_AppDb.py:78 | Appending keeps the list well formed. The new contents are exactly one `Offer` of the scored item to the old contents. |
| Ranking.SortedList.constructor | tests/search/apps/test_AppDb.py:79 | A new list keeps its query, minimum score and limit, and starts empty. |
| Ranking.InsertionPoint | tests/search/apps/test_AppDb.py:78 | Binary search on a descending list gives the index that splits scores at least `score` from scores below it. |
| Ranking.InsertDescending | tests/search/apps/test_AppDb.py:77-79 | Inserting into a descending list keeps it descending. |
| Ranking.InsertPermutes | tests/search/apps/test_AppDb.py:77-79 | Insertion adds exactly the new item: the result is a permutation of the old list plus the item. |
| Ranking.InsertAt | tests/search/apps/test_AppDb.py:77-79 | Insertion is stable: the item lands right after the entries scoring at least as much. |
| Ranking.OfferWellFormed | tests/search/apps/test_AppDb.py:78-79 | One append keeps the list bounded by its limit, descending, and free of entries under the minimum. |
| Ranking.OfferKeepsOrDominates | tests/search/apps/test_AppDb.py:78-79 | After one append, an entry that was kept (or the new entry, if it reached the minimum) is still there, unless the list is full of entries scoring at least as much. |
| Ranking.FeedWellFormed | tests/search/apps/test_AppDb.py:81-82 | Appending every record in turn keeps the list well formed. |
| Ranking.FeedSubset | tests/search/apps/test_AppDb.py:81-82 | The result holds nothing except items that were appended. |
| Ranking.FeedKeepsBest | tests/search/apps/test_AppDb.py:81-82 | Every appended item that reaches the minimum is in the result, or the result is full and every entry in it scores at least as much. |
| Ranking.FeedSnoc | tests/search/apps/test_AppDb.py:81-82 | Appending one more item after a run is one more `Offer`. |
| Apps.AppDb.Records | tests/search/apps/test_AppDb.py:81-82 | `get_records()` yields one record per key of the row order, in that order. Each record carries its key and is exactly what a path lookup of that key returns. |
| Apps.AppDb.GetByPath | tests/search/apps/test_AppDb.py:97-105 | `get_by_path(path)` finds a record exactly when a row is stored under `path`. The record holds that row's name, description and search alias, the key itself, and the icon stored for the key when there is one. |
| Apps.AppDb.constructor | tests/search/apps/test_AppDb.py:10-11 | A newly opened store is empty and valid. |
| Apps.AppDb.PutApp | tests/search/apps/test_AppDb.py:55-70 | The row for the app's file name becomes the app's name, description and derived alias, and the app's icon is stored. A new key goes to the end of the order; an existing key moves there. A path lookup then returns exactly those five fields. |
| Apps.AppDb.RemoveByPath | tests/search/apps/test_AppDb.py:50-53 | The row under the path is gone and a path lookup returns nothing. Every other key's lookup is unchanged, and a missing key is a no-op. |
| Apps.AppDb.GetByName | tests/search/apps/test_AppDb.py:87-95 | The result is the first record, in row order, whose name equals the query up to ASCII case. It is nothing exactly when no record's name does. |
| Apps.AppDb.Find | tests/search/apps/test_AppDb.py:72-85 | The result is a fresh list with the query, limit 9 and the given minimum score. For an empty query it is empty. Otherwise it is one append per record's result item, in enumeration order. |
| Apps.AppDb.InsertRow | tests/search/apps/test_AppDb.py:35-36 | A plain insert adds the row at the end of the order. It is refused, with nothing changed, when the key is taken. |
| Apps.AppDb.SetIcon | tests/search/apps/test_AppDb.py:37-38 | Writing into the icon map sets that key's icon and changes nothing else. |
| Apps.RecordsEnumerateTable | tests/search/apps/test_AppDb.py:81-82 | Enumeration yields one record per stored key, every stored key appears, and no key appears twice. |
| Apps.GetByPathAgreesWithRecords | tests/search/apps/test_AppDb.py:97-105 | A path lookup finds a record exactly when enumeration holds one with that key, and then it is that record. |
| Apps.FindKeepsBest | tests/search/apps/test_AppDb.py:72-82 | A search result is well formed. Every record whose item reaches the minimum score is in it, unless nine items scoring at least as well fill it. |
| Apps.WithoutKeepsDistinct | tests/search/apps/test_AppDb.py:50-53 | Removing a key from the row order keeps the remaining keys distinct. |
| AppDbScenarios.InsertValues | tests/search/apps/test_AppDb.py:35-36 | Inserting distinct values into an empty store, one insert each, leaves them in order, each stored as its row, with the icon map still empty. |
| AppDbScenarios.StoreIcons | tests/search/apps/test_AppDb.py:37-38 | Writing each value's icon under its key stores exactly that icon for every value and leaves the table and order unchanged. |
| AppDbScenarios.Load | tests/search/apps/test_AppDb.py:35-38 | Loading distinct values into an empty store puts them in order, and each reads back by path as its record with its icon. |
| AppDbScenarios.DbWithData | tests/search/apps/test_AppDb.py:13-39 | The fixture store holds the nine values in order, and each reads back as its record with icon "icon". |
| AppDbScenarios.RemoveByPathScenario | tests/search/apps/test_AppDb.py:50-53 | "jane.desktop" is found before the removal and not after it. |
| AppDbScenarios.PutAppScenario | tests/search/apps/test_AppDb.py:55-70 | An app without a launch command reads back with its name as alias and the loaded icon. |
| AppDbScenarios.GetByNameScenario | tests/search/apps/test_AppDb.py:87-95 | "JohN" finds the "john" record with icon "icon". |
| AppDbScenarios.GetByPathScenario | tests/search/apps/test_AppDb.py:97-105 | "libre.calc" finds the LibreOffice Calc record. |
| AppDbScenarios.FindScenario | tests/search/apps/test_AppDb.py:72-82 | "bro" gives a list with limit 9, fed one item for each of the nine fixture records, in order. |
| AppDbScenarios.FindEmptyScenario | tests/search/apps/test_AppDb.py:84-85 | An empty query gives an empty list. |

## Left out

- SQLite, the SQL text and the connection's lifetime (`AppDb(':memory:').open()`) are left out. The table is a map keyed by desktop file, plus the order in which a full scan visits the rows.
- Replacing an existing row moves it to the end of that order. This is how SQLite's `INSERT OR REPLACE` behaves on an implicit rowid.
- Icon loading (`get_app_icon_pixbuf`) is left out. The icon loaded for an app is a parameter of `PutApp`, and icons are opaque handles.
- Apps.AppDb.PutApp: stores the icon when the app is put. Filling the icon map lazily, when a result is built, is not modelled. The tests at lines 55-70 hold either way.
- `force_unicode` is left out; it is the identity here.
- The fuzzy scoring formula is left out. So are the sorted list's own handling of the query and its default minimum score. The scorer and the minimum score are parameters of `Find`.
- Apps.AppDb.GetByPath: matches the key exactly, as the table's key column compares by default. A case-insensitive path lookup is not modelled, and no test relies on one.
- Apps.AppDb.GetByName: folds ASCII letters only. This is SQLite's NOCASE collation; other Unicode case folding is not modelled.
- Apps.AppDb.Find: for an empty query it returns an empty list without scoring. The test at lines 84-85 only requires something iterable, so a search that scores every record for the empty query is not modelled.
- SearchNames.SearchName: the redundancy test folds only the ASCII letters A to Z. Python's `str.lower()` also folds other cased letters, so a display name with non-ASCII capitals can get a suffix that the Python code would not add. For example, "Écran" with `écran` gives "Écran écran" here.
- Ranking.SortedList.Append: the sorted list's behaviour is assumed, because its implementation is not part of this model and the tests replace it with a stand-in. That behaviour is refusing items under the minimum, keeping descending order with ties in arrival order, and truncating to the limit.
- Text.Split: splits only on ASCII whitespace (space, tab, newline, carriage return, vertical tab, form feed). Other Unicode separators are not modelled.
- SearchNames.CommandName: the Desktop Entry Specification's quoting of arguments and its `%%` escape are not modelled. The command is split on whitespace.
- AppDbScenarios.Load, AppDbScenarios.InsertValues, AppDbScenarios.StoreIcons: require distinct keys. A duplicate key in the fixture's `executemany` would raise an error and abort the batch, and that path is not modelled.
- Desktop-entry parsing beyond the four accessors the store uses is left out: file name, name, description and launch command.
- The test framework's mocks and fixtures are left out. Their effect is written into the scenario methods.
