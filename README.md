# DictionaryApp: hierarchical dictionaries over SQLite, modelled in Dafny

DictionaryApp is a WPF desktop program that keeps reference dictionaries in a local SQLite
file. There are two tables. `DICT` holds dictionaries, each with an optional parent
dictionary. `DICT_ITEM` holds the code/name entries of each dictionary. The main window
reads every dictionary into a snapshot. Before any write it validates the form: the
required fields must be filled, the parent id must be numeric and must exist, and the new
parent must not create a cycle in the parent hierarchy.

The model has six modules:

- `Models` (`models.dfy`): the `Dict` and `DictItem` rows.
- `Text` (`text.dfy`): `string.Trim`, `int.TryParse` and `int.ToString` as the form uses them, with the round trip between the last two.
- `Tables` (`tables.dfy`): the table operations as functions on row sequences. This covers lookup (`FirstOrDefault`) and `Any`, and `WHERE` filters, `UPDATE` overwrites and `DELETE` removals.
- `Hierarchy` (`hierarchy.dfy`): the parent walk in the snapshot. It defines "acyclic" and "forest" (acyclic and no dangling parent). It proves that a guarded update, create or delete preserves the forest.
- `Store` (`database.dfy`): the static `Database` gateway as a class over the two tables. Two AUTOINCREMENT counters issue new ids. The class covers seeding and the `ON DELETE CASCADE` / plain foreign-key behaviour of deletes.
- `Window` (`mainwindow.dfy`): the `MainWindow` class. It holds the snapshot, `IsCyclic` as a loop proved against the parent walk, and the six button handlers. The add and update handlers are proved to return exactly the verdict of a validation function and to write exactly the row the form describes. The delete handlers are proved to remove exactly the selected row, after confirmation; a dictionary also loses its items, unless another dictionary names it as parent. On a rejection the store is left untouched.

The headline result is `Window.MainWindow.Valid`, which every handler preserves: the
snapshot equals the store, the store's hierarchy is a forest, and every item belongs to an
existing dictionary. For the update handler,
this is what the cycle check buys. `AcceptedUpdateKeepsForest` states it for the
validation alone.

Deleting a dictionary that has child dictionaries is settled by the code. `DeleteDict` turns foreign keys on,
and `PARENT_ID` references `DICT(DICT_ID)` with no `ON DELETE` action. So SQLite refuses
the delete, and nothing changes. The model returns `StillReferenced` in that case. The
program itself does not catch the resulting exception in the handler; see "Left out".

## Model

| member | source | states |
|---|---|---|
| Text.TrimStart | MainWindow.xaml.cs:98-101 | the result is a suffix of the input, everything cut off is white space, and it does not start with white space |
| Text.TrimEnd | MainWindow.xaml.cs:98-101 | the result is a prefix of the input, everything cut off is white space, and it does not end with white space |
| Text.Trim | MainWindow.xaml.cs:98-101 | the result is a contiguous slice of the input with only white space cut off on either side; it has no white space at either end, and it is empty exactly when the input is all white space |
| Text.TrimIdempotent | MainWindow.xaml.cs:98-101 | trimming trimmed text changes nothing |
| Text.SignedDigits | MainWindow.xaml.cs:113 | the texts `int.TryParse` can accept: an optional sign followed by at least one decimal digit (a definition) |
| Text.ParseInt | MainWindow.xaml.cs:113 | parsing succeeds only on an optional sign followed by digits, with a value that fits in 32 bits; each such text parses to its decimal value, negated after a minus sign, and fails exactly when that value overflows; empty text does not parse |
| Text.FormatNat | MainWindow.xaml.cs:232 | a natural number prints as a nonempty string of decimal digits, starting with '0' only for zero itself |
| Text.DigitsOfFormat | MainWindow.xaml.cs:232 | reading back the printed digits gives the number |
| Text.FormatInt | MainWindow.xaml.cs:232 | an integer prints as decimal digits, after a minus sign exactly when it is negative |
| Text.FormatIsTrimmed | MainWindow.xaml.cs:232 | a printed integer has no surrounding white space to trim |
| Text.ParseFormatRoundTrip | MainWindow.xaml.cs:174 | every 32-bit integer, printed and then parsed, gives itself back |
| Tables.HasDict | MainWindow.xaml.cs:115 | `dicts.Any(d => d.DictId == pid)`: some row has the id (a definition) |
| Tables.Referenced | Data/Database.cs:42 | another row names the id as its PARENT_ID, the reference the foreign key protects (a definition) |
| Tables.FindDict | MainWindow.xaml.cs:89 | the lookup finds a row exactly when some row has the id (`Any`); and the row it finds has that id |
| Tables.FindDictFirst | MainWindow.xaml.cs:89 | `FirstOrDefault` returns the row at the first position that holds the id |
| Tables.FindDictUnique | MainWindow.xaml.cs:89 | in a table whose ids increase, the lookup of a row's id returns that row |
| Tables.FindDictSnoc | Data/Database.cs:173-185 | after a row is appended, ids already present are found as before, and an id found nowhere else is found in the appended row |
| Tables.Filter | Data/Database.cs:230 | a `WHERE` keeps exactly the rows satisfying its condition |
| Tables.FilterIncreasing | Data/Database.cs:230 | filtering keeps the `ORDER BY` id order |
| Tables.FilterKeepsKeys | Data/Database.cs:37 | a delete keeps a table in id order and within the ids its AUTOINCREMENT counter has issued |
| Tables.RemoveDict | Data/Database.cs:216 | `DELETE FROM DICT WHERE DICT_ID = id` keeps exactly the other rows and leaves no row with that id |
| Tables.ItemsOf | Data/Database.cs:230 | the items of a dictionary are exactly the rows with that `DICT_ID` |
| Tables.ItemsOfSnoc | Data/Database.cs:248-258 | a new item shows up at the end of its own dictionary's list and in no other list |
| Tables.ItemsNotOf | Data/Database.cs:56 | the cascade keeps exactly the items of other dictionaries |
| Tables.RemoveItem | Data/Database.cs:281 | `DELETE FROM DICT_ITEM WHERE ITEM_ID = id` keeps exactly the other items |
| Tables.OverwriteDict | Data/Database.cs:193 | `UPDATE ... WHERE DICT_ID = id` replaces the matching rows, leaves the others and the order alone, and changes nothing when no row matches |
| Tables.OverwriteItem | Data/Database.cs:267 | `UPDATE ... WHERE ITEM_ID = id` replaces the matching rows and leaves the others and the order alone |
| Tables.OverwriteItemKeepsOwner | MainWindow.xaml.cs:276-278 | writing back an edited item, with its id and dictionary kept, moves no row to another dictionary |
| Tables.FindDictOverwrite | Data/Database.cs:193 | after an update the updated id is found with its new content, and other ids are found as before |
| Tables.ItemsOwned | Data/Database.cs:51-57 | every item's DICT_ID names an existing dictionary (a definition) |
| Tables.OwnedAfterCreateDict | Data/Database.cs:173-185 | appending a dictionary keeps every item's owner |
| Tables.OwnedAfterUpdateDict | Data/Database.cs:188-200 | an update of DICT keeps every item's owner, because no row changes id |
| Tables.OwnedAfterDeleteDict | Data/Database.cs:203-219 | a delete with its cascade keeps every remaining item's owner, whether or not the id had a row |
| Tables.OwnedAfterCreateItem | Data/Database.cs:248-259 | appending an item under an existing dictionary keeps every item's owner |
| Tables.OwnedAfterUpdateItem | Data/Database.cs:262-273 | overwriting items with a row owned by an existing dictionary keeps every item's owner |
| Tables.OwnedAfterDeleteItem | Data/Database.cs:276-284 | deleting an item keeps every other item's owner |
| Tables.FindDictRemove | Data/Database.cs:216 | after a delete, ids other than the deleted one are found as before |
| Hierarchy.WalkSomeBefore | MainWindow.xaml.cs:84-91 | if the walk is still going after j steps, it was going after every earlier step |
| Hierarchy.WalkNoneStays | MainWindow.xaml.cs:84-91 | once the walk reaches "no parent", it stays there |
| Hierarchy.WalkCompose | MainWindow.xaml.cs:84-91 | a+b steps equal a steps followed by b steps |
| Hierarchy.LoopNeverEnds | MainWindow.xaml.cs:84-91 | a walk that returns to its start never ends |
| Hierarchy.NoSelfAncestor | MainWindow.xaml.cs:84-91 | in an acyclic snapshot no dictionary is its own proper ancestor |
| Hierarchy.SelfOnChain | MainWindow.xaml.cs:86-87 | a dictionary is on its own chain (the walk checks its start first), so a self-parent is a cycle |
| Hierarchy.StopsAtMissing | MainWindow.xaml.cs:89-90 | a walk that starts at an id with no row meets nothing but that id |
| Hierarchy.FirstHit | MainWindow.xaml.cs:84-91 | within any bound, the walk has a first visit to a given id, or none |
| Hierarchy.WalkAgree | MainWindow.xaml.cs:84-91 | two snapshots that agree on every parent except x walk alike until they reach x |
| Hierarchy.AcyclicAfterChange | MainWindow.xaml.cs:191-202 | changing only x's parent keeps an acyclic snapshot acyclic when the new walk from x ends |
| Hierarchy.WalkInside | MainWindow.xaml.cs:89-90 | without dangling parents, every node the walk reaches after the first step is a row |
| Hierarchy.EndsWhenOutside | MainWindow.xaml.cs:131-138 | a new row does not disturb the finite walks from existing rows |
| Hierarchy.OverwriteKeepsOthers | Data/Database.cs:193 | updating an existing row keeps the set of ids, changes no other row's parent, and gives the row its new parent |
| Hierarchy.ReparentEnds | MainWindow.xaml.cs:191-195 | after moving x under a parent whose chain does not reach x, the chain from x is finite |
| Hierarchy.UpdateKeepsForest | MainWindow.xaml.cs:170-202 | setting a dictionary's parent to an existing id whose chain does not reach it keeps the hierarchy a forest |
| Hierarchy.CreateKeepsForest | MainWindow.xaml.cs:109-138 | adding a row with a fresh id and an existing (or no) parent keeps the hierarchy a forest |
| Hierarchy.DeleteKeepsForest | Data/Database.cs:216 | deleting a dictionary that no other dictionary names as parent keeps the hierarchy a forest |
| Hierarchy.ReferencedExists | Data/Database.cs:42 | without dangling parents, a referenced id has a row |
| Hierarchy.SentinelNeverOnChain | MainWindow.xaml.cs:131 | with positive ids and no dangling parents, `IsCyclic(0, p)` on an existing p never finds 0 |
| Store.SeedDicts | Data/Database.cs:89-103 | the two dictionaries the first initialization inserts (a definition) |
| Store.SeedItems | Data/Database.cs:113-138 | the five items the first initialization inserts (a definition) |
| Store.SeedShape | Data/Database.cs:89-103 | the seed is COUNTRIES as a root and LANGUAGES under it, as two dictionaries and five items |
| Store.ItemsOfFive | Data/Database.cs:230 | selecting items from five rows keeps each row that belongs to the dictionary, in order |
| Store.SeedCountriesItems | Data/Database.cs:113-122 | the first seeded dictionary owns exactly the first two seeded items (UA, PL) |
| Store.SeedLanguagesItems | Data/Database.cs:124-138 | the second seeded dictionary owns exactly the last three seeded items (UA, EN, JP) |
| Store.Database.constructor | Data/Database.cs:20 | a database whose file does not exist yet has empty tables and fresh counters |
| Store.Database.Initialize | Data/Database.cs:18-66 | an existing database is left as it was, counters included; a new one is created and holds exactly the seed, with the counters at 2 and 5 |
| Store.Database.SeedSampleData | Data/Database.cs:77-141 | seeding empty tables gives exactly the two seed dictionaries and five seed items, with the counters at 2 and 5 |
| Store.Database.GetAllDicts | Data/Database.cs:144-170 | the result is the whole DICT table, in increasing id order |
| Store.Database.CreateDict | Data/Database.cs:173-185 | the new row gets the next AUTOINCREMENT id, larger than every id so far, and is appended; nothing else changes |
| Store.Database.UpdateDict | Data/Database.cs:188-200 | the row with the id is replaced; an absent id changes nothing; items and counters are untouched |
| Store.Database.DeleteDict | Data/Database.cs:203-219 | the delete succeeds exactly when no other dictionary names the row as parent; on success the row goes, and its items go only when there was a row for the cascade to start from; on failure nothing changes |
| Store.Database.GetItemsByDict | Data/Database.cs:222-245 | the result is exactly the items of the dictionary, in increasing id order |
| Store.Database.CreateItem | Data/Database.cs:248-259 | the new item gets the next AUTOINCREMENT id and is appended; nothing else changes |
| Store.Database.UpdateItem | Data/Database.cs:262-273 | the item with the id is replaced; the DICT table and the counters are untouched |
| Store.Database.DeleteItem | Data/Database.cs:276-284 | exactly the item with the id is removed |
| Window.ParentFromText | MainWindow.xaml.cs:110-116 | a blank parent field means a root; otherwise the parent is the parsed trimmed text |
| Window.ParentText | MainWindow.xaml.cs:232 | the parent box is empty exactly for a root dictionary |
| Window.ParentTextRoundTrip | MainWindow.xaml.cs:232 | submitting the parent field exactly as a selection filled it keeps the dictionary's parent |
| Window.EditedDict | MainWindow.xaml.cs:137 | the row the form describes has the given id and the parent the parent box names |
| Window.EditedDictTrimmed | MainWindow.xaml.cs:98-101 | the stored name, code and description carry no surrounding white space, the description is never null, and name and code are empty only for blank input |
| Window.DictVerdict | MainWindow.xaml.cs:103-135 | the form is rejected as incomplete exactly when name or code is blank; an accepted parent exists and does not lead back to the subject |
| Window.DictVerdictCases | MainWindow.xaml.cs:103-135 | the form is accepted exactly when name and code are filled and the parent is blank or parses to an existing id whose chain avoids the subject; it is rejected as not numeric exactly when name and code are filled and a non-blank parent does not parse |
| Window.ItemVerdict | MainWindow.xaml.cs:244-255 | an item form is accepted exactly when there is a selection and both code and name are non-blank, rejected for no selection exactly when there is none, and rejected as incomplete exactly when there is a selection and code or name is blank |
| Window.BlankFieldRejected | MainWindow.xaml.cs:103-107 | a blank name or code is reported before anything about the parent |
| Window.SelfParentRejected | MainWindow.xaml.cs:191-195 | making a dictionary its own parent is rejected as a cycle, whatever text parses to its id |
| Window.NonNumericParentRejected | MainWindow.xaml.cs:123-127 | a parent field that is not an optional sign followed by digits is rejected as not numeric |
| Window.OrphanParentRejected | MainWindow.xaml.cs:174-182 | a parent text that parses to an id with no row is rejected as not found, before any cycle check |
| Window.ThreeLevelCycleRejected | MainWindow.xaml.cs:191-195 | with B under A and C under B, making C the parent of A is rejected as a cycle |
| Window.CreateNeverWouldCycle | MainWindow.xaml.cs:131-135 | creating a dictionary is never rejected as a cycle, because ids are positive |
| Window.AcceptedUpdateKeepsForest | MainWindow.xaml.cs:159-202 | whatever update the validation accepts keeps the hierarchy a forest |
| Window.SeedIsForest | Data/Database.cs:89-103 | the seeded hierarchy is a forest |
| Window.SeedItemsOwned | Data/Database.cs:113-138 | every seeded item belongs to a seeded dictionary |
| Window.MainWindow.constructor | MainWindow.xaml.cs:23-29 | opening the window initializes the store and loads a snapshot equal to it, with no items shown; an existing store keeps its rows and its AUTOINCREMENT counters |
| Window.MainWindow.LoadDicts | MainWindow.xaml.cs:32-39 | the snapshot becomes the DICT table and the item list is cleared |
| Window.MainWindow.LoadItemsForSelectedDict | MainWindow.xaml.cs:42-53 | the item list becomes the selected dictionary's items, or empty without a selection |
| Window.MainWindow.IsCyclic | MainWindow.xaml.cs:81-93 | the answer is true exactly when the walk up the parent chain from the proposed parent reaches the dictionary |
| Window.MainWindow.CheckDictForm | MainWindow.xaml.cs:159-195 | the checks return exactly the verdict of the form, and on acceptance the parent the field names |
| Window.MainWindow.AddDict | MainWindow.xaml.cs:96-148 | the outcome is the form's verdict for the sentinel id 0; on acceptance exactly the described row is appended under the next id and only the DICT counter advances; otherwise the store is unchanged |
| Window.MainWindow.InsertDict | MainWindow.xaml.cs:137-139 | the row is appended under the next id, which becomes the DICT counter while the item counter stays, the snapshot is reloaded, and an existing (or no) parent keeps the hierarchy a forest |
| Window.MainWindow.UpdateDict | MainWindow.xaml.cs:151-204 | without a selection nothing happens; otherwise the outcome is the form's verdict, the described row overwrites the selected id on acceptance, the hierarchy stays a forest, and neither counter moves |
| Window.MainWindow.DeleteDict | MainWindow.xaml.cs:207-221 | after confirmation the dictionary and its items are removed, unless another dictionary names it as parent; a selection with no row removes nothing; without confirmation nothing changes; neither counter moves, so no id is issued twice |
| Window.MainWindow.AddItem | MainWindow.xaml.cs:242-259 | an accepted item is appended under the next id to the selected dictionary, only the item counter advances, and the list shows that dictionary's items; since the selection is a row of the snapshot, the new item's DICT_ID names an existing dictionary |
| Window.MainWindow.UpdateItem | MainWindow.xaml.cs:262-280 | an accepted edit replaces the item's code and name; every row keeps its id and its dictionary, and neither counter moves |
| Window.MainWindow.DeleteItem | MainWindow.xaml.cs:283-297 | after confirmation exactly the selected item is removed; neither counter moves, so no id is issued twice |

## Left out

- The WPF user interface is left out: grids, text boxes, message boxes and scrolling. Text boxes become handler parameters, a grid selection becomes an `Option` parameter, and a Yes/No dialog becomes a boolean. Only the outcome of a message is kept, as `Outcome`.
- The selection-changed handlers (`DictsGrid_SelectionChanged`, `ItemsGrid_SelectionChanged`) are modelled only through `ParentText` and `LoadItemsForSelectedDict`. Copying fields into text boxes is UI.
- Selecting the new dictionary after `BtnAddDict_Click` is display state and is not modelled.
- SQLite, connections, transactions, SQL text and `PRAGMA foreign_keys` are not modelled. Each table is a sequence in rowid order. Foreign-key enforcement is modelled only for `DeleteDict`, the one write that runs with it on. `Initialize` and `GetAllDicts` also turn it on, but write nothing it could refuse. Every other write (`CreateDict`, `UpdateDict`, `CreateItem`, `UpdateItem`, `DeleteItem`) runs without it. So the store checks no PARENT_ID or DICT_ID there; `Store.Database.UpdateItem` on its own may give an item a DICT_ID with no row. The window keeps both references itself: `Window.MainWindow.Valid` includes the forest and `ItemsOwned`, and every handler is proved to preserve them.
- `File.Exists(DbFile)` is the `created` field. Every store method other than `Initialize` requires `created`, reads included, because before `Initialize` the tables do not exist and SQLite raises an error.
- Store.Database.DeleteDict and Window.MainWindow.DeleteDict: SQLite's refusal arrives as an exception that the handler leaves uncaught. The model reports it as the outcome `StillReferenced`, changing nothing.
- Store.Database.CreateDict and Store.Database.CreateItem: the C# casts the 64-bit rowid to `int` and reads ids with `GetInt32`. Ids beyond 32 bits are not modelled.
- Text.ParseInt: culture-specific sign symbols of `int.TryParse` are left out. So are trailing U+0000 characters, which .NET accepts after the digits (`"12\0"` parses to 12) and which `Trim` does not remove; the model rejects such text. The model parses text that is already trimmed, as the handlers pass it, so the white space `NumberStyles.Integer` allows around the number never reaches it.
- Window.MainWindow.constructor requires an already existing database file to hold a forest that matches the counters (`Valid`). A file edited outside the program is not modelled.
- Window.MainWindow.IsCyclic requires the walk from the proposed parent to end, and it terminates only because of that. On a snapshot that already holds a cycle not through `dictId`, the C# loop would not terminate. The program never writes such a snapshot, as the preservation lemmas show.
- Window.MainWindow.UpdateDict and Window.MainWindow.UpdateItem use value rows. The C# mutates the selected object, which is also an element of the `dicts`/`items` lists, before writing. That aliasing is not modelled. It is invisible afterwards, because both handlers reload.
- Window.MainWindow.UpdateItem requires the selected item to be one of the listed items, which is where the form's selection comes from.
- Window.MainWindow.AddItem requires the selected dictionary to be a row of the snapshot, since the grid's selection comes from `dicts`. Window.MainWindow.constructor requires an existing store's items to belong to existing dictionaries, as it requires the forest.
- Concurrency, other processes sharing `app.db`, and I/O failures are left out.
