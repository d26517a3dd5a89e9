# Notes app: note store and home-screen search, in Dafny

This project models the persistence core of a small React Native note-taking
app. It also models the client-side search that the app's home screen uses.

- **The note store** (`src/database/database.js`) is the `Database` class,
  held as a singleton. It owns one SQLite table,
  `notes(id, title, content, created_at, updated_at)`. It offers `addNote`,
  `getNotes`, `getNote`, `updateNote`, `deleteNote` and `searchNotes`.
  Before every operation it runs `ensureInitialized`, which re-runs `init`
  while the `initialized` flag is false. On the web, `init` sets the flag
  and leaves the module-level `db` handle null. While `db` is null,
  `getNotes` and `searchNotes` return `[]`; `getNote`, `addNote`,
  `updateNote` and `deleteNote` throw "База данных недоступна".
- **The home-screen filter** (`src/screens/HomeScreen.js`) keeps the loaded
  notes whose lower-cased title or content includes the lower-cased search
  text. When the search text is non-empty and nothing is left, the screen
  shows "Заметок не найдено".

Files:

- `seqs.dfy` (module `Seqs`): an order-preserving `Filter` and what
  "subsequence" means.
- `text.dfy` (module `Text`): `Contains`, which is JavaScript's
  `String.prototype.includes`.
- `sql_like.dfy` (module `SqlLike`): SQLite's `LIKE` operator.
- `notes.dfy` (module `Notes`): the `Note` row and the table. Each SQL
  statement the store issues is a function on the rows, with lemmas.
- `database.dfy` (module `Database`): the class `NoteStore`. Its fields are
  `initialized`, `handleOpen` (true when `db` is not null), `file` (the
  contents of `notes.db`) and `clock`. It also holds two client methods that
  run the store through its contracts alone.
- `home_screen.dfy` (module `HomeScreen`): `filteredNotes` and the
  "nothing found" condition.

Modelling choices:

- The SQL engine is an abstract table: rows kept in rowid order, plus the
  AUTOINCREMENT counter `nextId`, which is one past the largest id ever
  issued. `TableInv` holds in every state: ids strictly ascend in storage
  and lie in `1 .. nextId-1`, and `created_at <= updated_at <= clock`.
- `CURRENT_TIMESTAMP` is a `nat` clock. Each write takes `elapsed: nat` and
  stamps the advanced clock, so time never goes back but ties are possible.
- `Platform.OS`, the outcome of opening the file and creating the table
  (`OpenFails`, `CreateFails`, `Succeeds`), and what `notes.db` already holds
  are parameters. The outcome is used only when `init` actually runs.
- `ORDER BY updated_at DESC` is an insertion sort over the rows in rowid
  order: the result is a permutation sorted newest first, and rows with
  equal `updated_at` are listed in ascending rowid order, so repeated
  queries agree.
- Search uses a real `LIKE` matcher, not a restriction to plain terms. `%`
  matches any run of characters, `_` matches one character, and there is no
  escape character. Only ASCII letters compare case-insensitively.
  `PatternIsFoldedContains` proves that, for a term with no `%` or `_`,
  `LIKE '%term%'` is ASCII-case-insensitive substring search.
- `toLowerCase` in the home screen is a parameter `lower: string -> string`.
  The model does not look inside it.

Edge cases of the code that the model keeps:

- `searchNotes` uses `LIKE`, which ignores ASCII case and treats `%` and
  `_` in the term as wildcards. For example, the term `_` selects every note
  with a non-empty title or content (`UnderscoreMatchesAnyNonEmpty`).
- When opening `notes.db` succeeds and creating the table fails, `db` is
  left non-null while `initialized` stays false. If `notes.db` held no
  `notes` table yet, every operation until a successful retry runs its SQL
  against the missing table and fails (`QueryFailed`); if the table was
  already stored, the statements succeed. A later failed open keeps the old
  handle.
- An updated note heads the next listing whenever its `updated_at` is
  later than every earlier write (`UpdatedNoteListedFirst` and
  `SortedAfterUpdateHasTouchedFirst` require `clock < now`). An update
  stamped in the same tick as an earlier write may be listed after it:
  timestamps have one-second resolution, and ties are ordered arbitrarily.

## Model

| member | source | states |
|---|---|---|
| Database.NoteStore.constructor | src/database/database.js:7-10 | the flag starts false and `db` null, then one run of `init`: initialized exactly on the web or when open and create succeed; the handle is open exactly on a native platform whose open succeeded |
| Database.NoteStore.Init | src/database/database.js:12-32 | on the web the flag becomes true and the handle stays null; natively an open sets the handle, and the flag (and the table) are set only when both open and create succeed; a failure leaves the flag as it was; the object invariant is kept |
| Database.NoteStore.EnsureInitialized | src/database/database.js:34-38 | once `initialized` is true nothing changes (init is never re-run); otherwise exactly one run of `init`; rows, counter and clock untouched |
| Database.NoteStore.ModeMatchesPlatform | src/database/database.js:25-31 | fallback mode (initialized with a null handle) arises only on the web; native mode always has the table in place |
| Database.NoteStore.AddNote | src/database/database.js:40-51 | null handle: Unavailable and nothing changes; otherwise one row appended with the given title and content and `created_at = updated_at = now`, returning the AUTOINCREMENT id, which exceeds every id already in the table, with the counter advanced by one |
| Database.NoteStore.GetNotes | src/database/database.js:53-64 | null handle: `[]` and no error; otherwise the listing `OrderByUpdatedDesc` of the rows, a permutation of all rows sorted by `updated_at` descending; the table is unchanged |
| Database.NoteStore.GetNote | src/database/database.js:66-81 | null handle: Unavailable; otherwise the row with that id, or NotFound exactly when no row has it |
| Database.NoteStore.UpdateNote | src/database/database.js:83-97 | null handle: Unavailable, table unchanged; otherwise the table becomes `Update(rows, id, …, now)` and the result is the number of rows changed (at most 1; 0 for an unknown id, which is not an error) |
| Database.NoteStore.DeleteNote | src/database/database.js:99-110 | null handle: Unavailable, table unchanged; otherwise exactly the rows with that id are removed, the changed-row count (at most 1) is returned, and the AUTOINCREMENT counter is kept |
| Database.NoteStore.SearchNotes | src/database/database.js:112-126 | null handle: `[]`; otherwise the list `Search` gives: each row whose title or content is LIKE `%term%`, as often as in the table, and no other, sorted by `updated_at` descending; the table is unchanged |
| Notes.Find | src/database/database.js:72 | the row found has the requested id and is in the table; nothing is found exactly when no row has that id |
| Notes.CountId | src/database/database.js:89-92 | the `changes` count of a statement `WHERE id = ?` is zero exactly when no row has that id |
| Notes.CountIdAtMostOne | src/database/database.js:18 | with the primary key's unique ids, a statement `WHERE id = ?` changes at most one row, and exactly one when the id exists |
| Notes.Insert | src/database/database.js:46-47 | the INSERT: one row appended with both timestamps now; its meaning is stated by `InsertKeepsInv` and `FindAfterInsert` |
| Notes.InsertKeepsInv | src/database/database.js:17-22 | inserting under the counter at a time no earlier than the clock keeps unique ascending ids, ids below the advanced counter, and `created_at <= updated_at <= clock` |
| Notes.FindAfterInsert | src/database/database.js:46-47 | after the insert, the new id fetches the new row (given title and content, both timestamps now), and every other id fetches what it did before |
| Notes.Touch | src/database/database.js:89-92 | the SET clause on one row (title, content, `updated_at`); `FindAfterUpdate` states what it keeps |
| Notes.Update | src/database/database.js:89-92 | the UPDATE keeps the number of rows; `UpdateKeepsInv` and `FindAfterUpdate` state which row changes and how |
| Notes.UpdateKeepsInv | src/database/database.js:89-92 | the update keeps ids and `created_at`, so it keeps the table invariant with the clock at now |
| Notes.FindAfterUpdate | src/database/database.js:89-92 | fetching the updated id gives the old row with the new title, content and `updated_at`, and the same id and `created_at`; a missing id stays missing; other ids are unaffected |
| Notes.Delete | src/database/database.js:105 | the remaining rows are exactly the rows whose id differs, as an order-preserving subsequence, so the storage order is kept |
| Notes.DeleteKeepsInv | src/database/database.js:105 | deleting keeps the table invariant and does not roll back the counter |
| Notes.FindAfterDelete | src/database/database.js:105 | the table shrinks by exactly the changed-row count; the id then fetches nothing; every other id fetches what it did before |
| Notes.DeletedIdNotReissued | src/database/database.js:18 | a deleted id is below the AUTOINCREMENT counter, so the next insert does not reuse it and the id still fetches nothing |
| Notes.InsertNewerFirst | src/database/database.js:59 | inserting one row into a listing adds exactly that row (multiset and membership) |
| Notes.InsertNewerFirstSorted | src/database/database.js:59 | inserting into a listing sorted by `updated_at` descending keeps it sorted |
| Notes.OrderByUpdatedDesc | src/database/database.js:59 | the listing is a permutation of the table, sorted by `updated_at` descending |
| Notes.SortedAfterUpdateHasTouchedFirst | src/database/database.js:59 | after updating an existing note strictly later than every earlier write, that note, as updated, heads every permutation of the table sorted by `updated_at` descending |
| Notes.UpdatedNoteListedFirst | src/database/database.js:89-92 | in particular it heads the listing `getNotes` returns next |
| Notes.MatchesTerm | src/database/database.js:119 | the WHERE clause `title LIKE ? OR content LIKE ?` with `%term%` bound to both; `SearchIsFoldedSubstring` gives its meaning for plain terms |
| Notes.Matching | src/database/database.js:119 | the WHERE clause keeps each row whose title or content matches, as often as in the table, and no other; it keeps the whole table when every row matches |
| Notes.Search | src/database/database.js:118-121 | the result holds each matching row of the table as often as the table does, and no other row, sorted by `updated_at` descending |
| Notes.SearchEmptyTermListsAll | src/database/database.js:120 | an empty term (pattern `%%`) returns the same list as `getNotes` |
| Notes.SearchIsFoldedSubstring | src/database/database.js:119-120 | for a term without `%` or `_`, a row is found exactly when the ASCII-folded term occurs in its ASCII-folded title or content |
| SqlLike.Fold | src/database/database.js:119 | `LIKE` maps each ASCII capital to the small letter in the same place of the alphabet, leaves every other character alone, and never yields a capital |
| SqlLike.FoldSameIff | src/database/database.js:119 | two characters compare equal under `LIKE` exactly when they are equal or are the same ASCII letter in its two cases |
| SqlLike.Like | src/database/database.js:119 | the `LIKE` operator with `%`, `_` and ASCII folding; `PercentMatchesAll`, `LiteralPrefix` and `PatternIsFoldedContains` state what it decides |
| SqlLike.PercentMatchesAll | src/database/database.js:120 | a lone `%` matches every string |
| SqlLike.LiteralPrefix | src/database/database.js:120 | a wildcard-free literal followed by `%` matches exactly the strings that begin with it, up to ASCII case |
| SqlLike.PatternIsFoldedContains | src/database/database.js:119-120 | for a wildcard-free term, `LIKE` against `Pattern(term)` (`'%term%'`) holds exactly when the folded term occurs in the folded subject |
| SqlLike.EmptyTermMatchesAll | src/database/database.js:120 | `Pattern("")`, the pattern built from an empty term, matches every string |
| SqlLike.UnderscoreMatchesAnyNonEmpty | src/database/database.js:120 | a `_` in the term is a wildcard: `Pattern("_")`, that is `%_%`, matches exactly the non-empty strings |
| Text.Contains | src/screens/HomeScreen.js:56-57 | `includes`; `ContainsIffOccurs` states that it finds the needle at some offset |
| Text.ContainsIffOccurs | src/screens/HomeScreen.js:56-57 | `includes` holds exactly when the needle occurs at some offset of the haystack |
| Text.ContainsEmpty | src/screens/HomeScreen.js:56-57 | every string includes the empty string |
| HomeScreen.Shows | src/screens/HomeScreen.js:55-57 | the filter's test on one note; `FilteredNotes` keeps exactly the notes it holds for |
| HomeScreen.FilteredNotes | src/screens/HomeScreen.js:54-58 | the result is an order-preserving subsequence of `notes` that keeps exactly the notes whose lower-cased title or content includes the lower-cased search text, each as often as in `notes`, and is no longer than `notes` |
| HomeScreen.EmptySearchShowsAll | src/screens/HomeScreen.js:54-58 | with an empty search text (and `"".toLowerCase()` being `""`), the filtered list is exactly `notes` |
| HomeScreen.SameLowerSameResult | src/screens/HomeScreen.js:56-57 | two search texts with the same lower-case form give the same filtered list |
| HomeScreen.ShowsNothingFound | src/screens/HomeScreen.js:144 | the condition for "Заметок не найдено"; `NothingFoundIff` states when it holds |
| HomeScreen.NothingFoundIff | src/screens/HomeScreen.js:144 | "Заметок не найдено" is shown exactly when the search text is non-empty and no loaded note matches it |
| HomeScreen.AgreesWithSearchNotes | src/screens/HomeScreen.js:54-58 | where `toLowerCase` acts as ASCII folding on the note's title and content and on the term, and the term has no `%` or `_`, the screen's filter keeps the note exactly when `searchNotes` selects it |

## Left out

- The SQLite engine and the `expo-sqlite` calls are replaced by the
  abstract table in `Notes`. Storage I/O failures (disk errors, a locked
  database) are not modelled. The only query failure modelled is the
  statement that runs without a `notes` table (`QueryFailed`).
- Concurrency: the constructor's un-awaited `init()` and any overlap of
  async callers. Each operation, and the constructor's `init`, runs
  atomically.
- The AUTOINCREMENT ceiling: SQLite fails an insert once the largest rowid
  is reached. The model's counter is unbounded.
- SQLite's limit on `LIKE` pattern length: a term longer than that limit
  fails the query. The model accepts any length.
- The wall-clock text format of `CURRENT_TIMESTAMP` and its one-second
  resolution. Timestamps are `nat` ticks.
- Database.NoteStore.GetNotes, Database.NoteStore.SearchNotes: SQLite does
  not promise an order among rows with equal `updated_at`. The exact lists
  these return (ties in ascending rowid order), and the list equality in
  `Notes.SearchEmptyTermListsAll`, are the model's choice; of the program
  itself only the permutation and the newest-first order hold.
- Database.NoteStore.UpdateNote: returns only the `changes` count from
  `runAsync`'s result object, not its `lastInsertRowId`.
- Database.NoteStore.DeleteNote: returns only the `changes` count from
  `runAsync`'s result object, not its `lastInsertRowId`.
- JavaScript's dynamic typing of `id`: ids are integers here. A caller
  passing a string or `undefined` is not modelled.
- `console.error` logging in `init` (output only).
- The non-empty `trim()` checks in the add and edit screens. They are the
  callers' business, so `addNote` and `updateNote` take any strings, as the
  store itself does.
- The behaviour of `toLowerCase` itself. It is the parameter `lower`.
  `AgreesWithSearchNotes` assumes it acts as ASCII folding on the strings
  involved.
- React rendering, hooks, navigation, `Alert`, `Share`, the export text of
  the settings and detail screens (locale date formatting), and the colour
  tables of the theme. These are presentation, not store behaviour.
