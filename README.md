# Daily emotional journal: entry collection, persistence and statistics

A Dafny model of the core of a small single-user journaling app. The user
records one entry per day: a mood symbol, a keyword, free-text notes and an
optional song. The model covers these parts:

- The controller (`App.tsx`, module `App`, class `Journal`). It holds the
  entry list, the entry shown in the editor (`None` while a new entry is
  being drafted) and the current view (welcome or editor). Saving is an
  upsert keyed by `id`, followed by a sort by descending date. Deleting
  filters out an `id`. Every change to the list is followed by writing the
  whole list to storage.
- The editor (`components/JournalEditor.tsx`, module `Editor`). It holds the
  field state, loaded from an entry or reset for a new one. It checks and
  trims the entry it hands over on save, and gives that entry an id and a
  date.
- The storage adapter (`services/storageService.ts`, module `Storage`). The
  whole journal lives in one key-value slot. Loading falls back to the empty
  list on any failure, and otherwise sorts the stored list by descending
  date. Saving overwrites the slot and swallows write errors.
- The statistics panel (`components/StatsModal.tsx`, module `Stats`). It
  counts entries per emotion over the emotion table, takes the largest count
  (at least 1) to scale the bars, and computes percentages.
- The record shapes and constants (`types.ts`, `constants.ts`, modules
  `Types` and `Constants`).

Two shared modules model JavaScript built-ins the core relies on:

- `Text` models `String.prototype.trim`, with ECMAScript's WhiteSpace and
  LineTerminator characters.
- `DateOrder` models `Array.prototype.sort` with the comparator
  `(a, b) => b.date.localeCompare(a.date)`. The array is sorted in place
  (`SortByDateDesc`, an insertion sort). It is proved equal to a functional
  stable sort (`SortDesc`). `SortDesc` is in turn proved sorted, a
  permutation of its input, and the identity on sorted input. The sort is
  stable, as JavaScript's sort is: `SortDescStable` proves that entries with
  equal dates keep their relative order.

The environment enters as parameters and fields:

- The day of a save is the `today` parameter of `HandleSave`. It is read at
  save time, not when the draft is opened.
- The delete confirmation dialog is the `confirmed` parameter.
- Whether the browser storage can be read or written is given by the
  `LocalStorage` fields `canRead` and `canWrite`.

## Model

| member | source | states |
|---|---|---|
| `Types.Symbol` | types.ts:1 | each of the ten emotions is written as a single-character symbol |
| `Types.FromSymbol` | types.ts:1 | a string read as an emotion is that emotion's symbol; every other string is not an emotion |
| `Types.SymbolRoundTrip` | types.ts:1 | every emotion's symbol reads back as that emotion |
| `Types.SymbolInjective` | types.ts:1 | the ten symbols are pairwise distinct |
| `Constants.LabelOf` | constants.ts:3-14 | a label is found exactly for the emotions that have a row, and it is that row's label |
| `Constants.RowsInOrder` | constants.ts:3-14 | the table has ten rows, and row k holds the emotion whose row index (`RowIndex`) is k |
| `Constants.EmotionTableComplete` | constants.ts:3-14 | the table has ten rows, no emotion twice, and every emotion variant has a row and a label |
| `Constants.DefaultEmotionLabel` | constants.ts:8 | the editor's default mood 🙂 is labelled Normal |
| `Text.IsWhitespace` | components/JournalEditor.tsx:46-47 | the characters `trim` removes: ECMAScript WhiteSpace (tab, vertical tab, form feed, space, no-break space, byte-order mark, Unicode space separators) and LineTerminator (line feed, carriage return, line and paragraph separators) |
| `Text.TrimStart` | components/JournalEditor.tsx:46-47 | removes exactly a leading run of whitespace, leaving a suffix that does not start with whitespace |
| `Text.TrimEnd` | components/JournalEditor.tsx:46-47 | removes exactly a trailing run of whitespace, leaving a prefix that does not end with whitespace |
| `Text.Trim` | components/JournalEditor.tsx:46-47 | the result is a contiguous middle part of the input, with only whitespace cut off on either side and neither end whitespace |
| `Text.TrimKeepsTrimmed` | components/JournalEditor.tsx:46-47 | a string without whitespace at either end is left unchanged |
| `Text.TrimIdempotent` | components/JournalEditor.tsx:46-47 | trimming twice gives the same result as trimming once |
| `Text.BlankIffAllWhitespace` | components/JournalEditor.tsx:37 | a keyword trims to the empty string exactly when it consists only of whitespace |
| `DateOrder.LexLess` | App.tsx:64 | `localeCompare` on dates as code-point lexicographic order: at the first differing position the smaller character wins, and a proper prefix comes first |
| `DateOrder.LexLessIrreflexive` | App.tsx:64 | no date comes before itself |
| `DateOrder.LexLessTransitive` | App.tsx:64 | the date comparison is transitive |
| `DateOrder.LexLessTotal` | App.tsx:64 | any two different dates are ordered one way or the other |
| `DateOrder.NotLessTransitive` | App.tsx:64 | "not earlier than" is transitive |
| `DateOrder.Insert` | App.tsx:64 | one insertion step of the stable sort adds exactly one element |
| `DateOrder.InsertPermutation` | App.tsx:64 | insertion adds the inserted entry and nothing else |
| `DateOrder.InsertSorted` | App.tsx:64 | inserting into a list sorted by descending date keeps it sorted |
| `DateOrder.SortDesc` | App.tsx:64 | the stable sort keeps the length |
| `DateOrder.SortDescSorted` | App.tsx:64 | the sorted list is in descending date order |
| `DateOrder.SortDescPermutation` | App.tsx:64 | the sorted list has the same entries, each as often, as the input |
| `DateOrder.WithDate` | App.tsx:64 | the entries with one given date, in list order; each is an entry of the list with that date |
| `DateOrder.WithDateSnoc` | App.tsx:64 | appending an entry extends the entries of its date by exactly that entry |
| `DateOrder.SwapLast` | App.tsx:64 | two entries with different dates can trade places without changing the entries of any one date |
| `DateOrder.InsertKeepsTies` | App.tsx:64 | per date, inserting an entry is the same as appending it: it goes behind every entry with its date |
| `DateOrder.SortDescStable` | App.tsx:64 | the sort is stable: for every date, the entries with that date come out in the order they went in |
| `DateOrder.SortedPrefix` | App.tsx:64 | a prefix of a sorted list is sorted |
| `DateOrder.SortDescOfSorted` | services/storageService.ts:12 | sorting a list already in descending date order leaves it unchanged |
| `DateOrder.InsertAtPosition` | App.tsx:64 | insertion places the entry after the last entry with the same or a later date |
| `DateOrder.ShiftRight` | App.tsx:64 | shifts exactly the trailing entries with an earlier date one cell right, and leaves the cells before and after alone |
| `DateOrder.InsertAt` | App.tsx:64 | one pass of the in-place sort turns the first `i + 1` cells into the insertion of cell `i` and leaves later cells alone |
| `DateOrder.SortByDateDesc` | App.tsx:64 | the in-place sort leaves the array equal to the stable descending sort of its old contents |
| `Collection.HasId` | App.tsx:56 | `entries.some(e => e.id === id)`: some entry of the list has the id |
| `Collection.HasIdIffCounted` | App.tsx:56 | `some(e => e.id === id)` holds exactly when at least one entry has that id |
| `Collection.IdCountAppend` | App.tsx:56 | counting an id over a concatenation adds the counts of the two parts |
| `Collection.IdCountInsert` | App.tsx:64 | an insertion step changes only the count of the inserted entry's id, by one |
| `Collection.IdCountSortDesc` | App.tsx:64 | sorting keeps the number of entries under each id |
| `Collection.Replaced` | App.tsx:61 | same length and order; every entry with the saved id becomes the saved entry and every other entry is unchanged |
| `Collection.IdCountReplaced` | App.tsx:61 | replacement keeps the number of entries under each id |
| `Collection.Upserted` | App.tsx:56-62 | a new id gives the saved entry followed by the old list, one longer; a known id gives the replaced list, same length; the saved entry is in the result |
| `Collection.UpsertIdCounts` | App.tsx:56-62 | other ids keep their counts and the saved id occurs at least once; unique ids stay unique, with exactly one entry under the saved id |
| `Collection.WithoutId` | App.tsx:72 | the result is no longer than the input and holds only entries of the input whose id differs |
| `Collection.WithoutIdAppend` | App.tsx:72 | filtering a concatenation filters each part, so the kept entries keep their relative order |
| `Collection.WithoutIdCounts` | App.tsx:72 | no entry with the deleted id remains; other ids keep their counts; deleting an absent id leaves the list unchanged |
| `Collection.WithoutIdKeeps` | App.tsx:72 | every entry whose id differs is kept |
| `Collection.WithoutIdPreserves` | App.tsx:72 | filtering keeps descending date order and keeps ids unique |
| `Storage.Decodable` | services/storageService.ts:7-10 | loading gets a list only when storage can be read and the slot holds an encoded list (`Payload.Encoded`); a missing slot, the empty string, text that does not parse, and a read error (`Payload.Unreadable` or `canRead` false) all fall back to the empty list |
| `Storage.Retrieved` | services/storageService.ts:6-17 | loading is sorted by descending date; it holds the stored records exactly (no de-duplication, no `id` rewriting) when the slot decodes, and is empty otherwise |
| `Storage.SaveThenLoad` | services/storageService.ts:6-26 | saving a sorted list and loading it back gives the same list |
| `Storage.LocalStorage.GetEntries` | services/storageService.ts:6-17 | never fails: returns the empty list on a read failure, a missing slot or an undecodable slot, and otherwise the stored list sorted in place |
| `Storage.LocalStorage.SaveEntries` | services/storageService.ts:19-26 | the journal's slot is overwritten with the whole list, or left unchanged when the write fails; no other slot changes |
| `Editor.FormFor` | components/JournalEditor.tsx:21-34 | an entry's four fields are copied; a new entry gets 🙂, an empty keyword, empty notes and no song |
| `Editor.OrElse` | components/JournalEditor.tsx:43-44 | JavaScript `\|\|` on strings: the first value unless it is empty |
| `Editor.Normalize` | components/JournalEditor.tsx:36-51 | rejected exactly when the keyword is all whitespace; otherwise: keyword and notes trimmed, keyword non-empty; emotion and song passed through; id and date taken from the edited entry when non-empty, both set to today for a draft; id equals date when it did before; a non-empty day gives a non-empty id and date |
| `Editor.ResaveWellFormed` | components/JournalEditor.tsx:21-51 | an entry with a trimmed non-empty keyword, trimmed notes and a non-empty id and date is saved back as itself, on any day |
| `Editor.ResaveIsIdentity` | components/JournalEditor.tsx:36-51 | opening a saved entry and saving it again unchanged gives the identical entry, on any later day |
| `Editor.JournalEditor.constructor` | components/JournalEditor.tsx:15-34 | a mounted editor shows the fields of its entry, or the defaults, with the search closed |
| `Editor.JournalEditor.Load` | components/JournalEditor.tsx:21-34 | a new entry loads its fields or resets them to the defaults, and leaves the search flag alone |
| `Editor.JournalEditor.SetEmotion` | components/JournalEditor.tsx:98 | picking a mood sets the emotion |
| `Editor.JournalEditor.SetKeyword` | components/JournalEditor.tsx:116 | typing sets the keyword |
| `Editor.JournalEditor.SetNotes` | components/JournalEditor.tsx:129 | typing sets the notes |
| `Editor.JournalEditor.HandleSave` | components/JournalEditor.tsx:36-51 | the entry handed to the journal is the normalised form; a blank keyword hands over nothing |
| `Editor.JournalEditor.HandleDelete` | components/JournalEditor.tsx:53-57 | an id is handed over exactly when an entry is shown and the user confirms, and it is that entry's id |
| `Editor.JournalEditor.HandleSelectSong` | components/JournalEditor.tsx:59-62 | a chosen song is set and the search closes |
| `Editor.JournalEditor.RemoveSong` | components/JournalEditor.tsx:151 | removing the song leaves no song |
| `Editor.JournalEditor.OpenSearch` | components/JournalEditor.tsx:157 | the add-song button opens the search |
| `Editor.JournalEditor.CloseSearch` | components/JournalEditor.tsx:166 | closing the search dialog closes it |
| `Stats.Occurrences` | components/StatsModal.tsx:21-25 | no emotion occurs more often than there are entries |
| `Stats.KnownCount` | components/StatsModal.tsx:21-25 | at most as many entries have a known emotion as there are entries |
| `Stats.SumCountsStep` | components/StatsModal.tsx:21-25 | one more entry raises the sum of the counts by one if its emotion is in the table, and by nothing otherwise |
| `Stats.SumCountsNone` | components/StatsModal.tsx:16-19 | with no entries, every count is 0 |
| `Stats.SumOfCounts` | components/StatsModal.tsx:21-27 | over a table without repeats, the counts add up to the number of entries with a known emotion, at most `totalEntries` |
| `Stats.EveryEntryCounted` | components/StatsModal.tsx:16-27 | with the journal's emotion table every entry is counted, so the counts add up to `totalEntries` |
| `Stats.TallyEmotions` | components/StatsModal.tsx:16-25 | the dictionary has a count exactly for the table's emotions, and each count is the number of entries with that emotion |
| `Stats.MaxCount` | components/StatsModal.tsx:28 | `maxCount` is at least 1, at least every count, and either 1 or one of the counts |
| `Stats.Percentage` | components/StatsModal.tsx:44 | 0 for an empty journal; otherwise count × 100 / total, which lies between 0 and 100 |
| `Stats.BarWidth` | components/StatsModal.tsx:56 | count × 100 / maxCount, which lies between 0 and 100 for a count up to `maxCount` |
| `Stats.Render` | components/StatsModal.tsx:13-68 | a closed panel renders nothing; an open one has one line per table row, in order, each with its emotion, label, count (at most `maxCount`), percentage `Percentage(count, totalEntries)` and bar width `BarWidth(count, maxCount)` between 0 and 100; `maxCount` is at least 1 and is 1 or one of the counts |
| `App.AfterDelete` | App.tsx:74-80 | a non-empty remainder shows its first (most recent) entry in the editor; an empty one shows the welcome view with nothing active |
| `App.SavedList` | App.tsx:55-68 | the saved list is sorted by descending date and is a permutation of the upserted list; it is one longer for a new id and the same length for a known one; it contains the saved entry; unique ids stay unique, with one entry under the saved id |
| `App.DeletedList` | App.tsx:72 | the remainder stays sorted and unique; the id is gone; every other entry stays; an absent id changes nothing |
| `App.Journal.Valid` | App.tsx:12-81 | the controller's invariant: the list is in descending date order, and the welcome view is shown only with an empty list and nothing active; every handler keeps it |
| `App.Journal.constructor` | App.tsx:12-30 | at mount the list is the loaded list; a non-empty list shows its first entry in the editor, an empty one shows the welcome view; storage ends up holding the loaded list |
| `App.Journal.SelectEntry` | App.tsx:32-35 | the picked entry is shown in the editor |
| `App.Journal.NewEntry` | App.tsx:37-40 | the editor opens on a draft (nothing active) |
| `App.Journal.CancelEdit` | App.tsx:42-53 | on a non-empty list a draft falls back to the first entry and a shown entry stays, in the editor; on an empty list the welcome view returns with nothing active |
| `App.Journal.SaveEntry` | App.tsx:55-69 | the list becomes the stable descending sort of the upserted list; the saved entry is shown in the editor; the list is written to storage |
| `App.Journal.DeleteEntry` | App.tsx:71-81 | the list becomes the filtered list; the next active entry and view follow `AfterDelete`; the list is written to storage |
| `App.Journal.SaveFromEditor` | App.tsx:94-98 | the result is the editor's normalised entry for the day of the save; a blank keyword changes neither the journal nor storage; an accepted save upserts that entry, shows it and writes the list to storage |
| `App.Journal.DeleteFromEditor` | App.tsx:94-98 | only a confirmed delete of a shown entry reaches the journal, which then deletes that id and writes the list to storage; otherwise nothing changes |
| `App.Journal.ShowStats` | App.tsx:90 | the statistics button opens the panel |
| `App.Journal.CloseStats` | App.tsx:106 | closing the panel closes it |
| `App.Journal.Statistics` | App.tsx:104-108 | the panel shows data exactly when open, over the current list: one row per table row, each with that emotion's count in the list, its percentage and its bar width `BarWidth(count, maxCount)`; `maxCount` is 1 or one of the counts |

## Left out

- The song lookup (`services/geminiService.ts`, `components/SongSearch.tsx`) is left out. It is an asynchronous network call to a language-model API. A chosen song enters the model only through `HandleSelectSong`.
- The offline asset cache (`sw.js`) is left out. It is not journal logic.
- `components/Sidebar.tsx`, `components/WelcomeView.tsx` and all JSX rendering are left out, as are date formatting with `toLocaleDateString` and the `count === 1 ? 'vez' : 'veces'` wording.
- The wall clock `new Date().toISOString()` is not modelled. It gives the UTC day, which is passed in as `today`.
- The `alert` and `window.confirm` dialogs are not modelled. A rejected save returns `Rejected(MissingKeyword)`, and the confirmation is a boolean parameter.
- JSON serialisation is not modelled. A slot holds either an exactly encoded list or `Unreadable`. The model does not capture records whose fields are missing or have the wrong type but still parse. It also does not capture the case where a stored array has fewer than two records, so the comparator is never called on a malformed record.
- `localeCompare` is modelled as code-point lexicographic order. This agrees with locale collation on fixed-width `YYYY-MM-DD` strings but not on arbitrary text.
- React scheduling is left out. Each handler is one atomic step followed by the persist effect. The editor is a separate object that callers load with `Load`; the model does not capture that React re-mounts it when the view changes.
- The editor effect reruns when the `entry` object changes identity. The model compares entries by value, so selecting an entry equal to the one shown does not model React's object-identity comparison.
- `Editor.OrElse`: an edited entry whose stored `id` or `date` is the empty string gets `today` in that field, as JavaScript's `||` does. `Normalize` states the copy of `id`/`date` only for non-empty values.
- Percentages and bar widths are exact rationals, not IEEE doubles.
- Unicode strings are sequences of code points. JavaScript strings are UTF-16, so an emoji has length 2 there and 1 here; no length in the core depends on this.
- The storage slot key is the field name `LOCAL_STORAGE_KEY`. The field label of an emotion row is named `caption`, because `label` is a reserved word in Dafny.
