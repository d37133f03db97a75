# Notes app: a verified model of its note store and editor

The program is a desktop note-taking app (`main.py`). A note has a title, free
text, a checklist, a mode that says which of the two is being edited
("normal" or "task") and a category. Notes live in a SQLite file with two
tables, `notes` and `tasks`. The `NotesDB` class saves, loads, lists, searches
and deletes them. The `NoteApp` window keeps one note open in an editor: a
text box (`NoteView`) in normal mode, a list of check boxes (`TaskView`) in
task mode.

This Dafny project models:

- `models.dfy` (`Models`): the `TaskItem` and `Note` records, and the two-valued mode.
- `text.dfy` (`Text`): the string operations the program depends on.
  - Python's `str.strip()`, with Python's whitespace set.
  - The ASCII-only case folding of SQLite's `LIKE`.
  - Python's code-point order on strings, which `sorted()` uses.
- `tables.dfy` (`Tables`): the two tables as sequences of rows in rowid order, and what each SQL statement of `NotesDB` does to them or reads from them, proved as lemmas on values.
- `store.dfy` (`Store`): the database file as a class `NotesDB`.
  - Fields: the two tables and the two AUTOINCREMENT counters.
  - Methods `SaveNote`, `InsertTasks` and `DeleteNote` change the tables step by step, as the SQL does.
  - The queries (`load_note`, `load_all_notes`, `search_notes`, `get_categories`) read the tables only, and are the functions `Tables.LoadFrom`, `Tables.Listing`, `Tables.Search` and `Tables.Categories` applied to them.
- `note_list.dfy` (`NoteList`): what `refresh_notes_list` puts in the note list for a search text and a category selection, and which note a line of that list stands for.
- `editing.dfy` (`Editing`): the editor as a class `NoteApp` holding `currentNote`.
  - It has the commands `new_note`, `load_note`, `toggle_mode` and `save_note`.
  - It has the in-place edits of the two views.
  - Each edit is also given as a function on values, with lemmas about it.

The model states the following properties:

- Ids are handed out once. A new note gets the next rowid and keeps it.
- A save replaces the note's checklist exactly and touches no other note.
- A saved note loads back field for field. The task ids come back empty and the timestamps are the store's.
- A delete cascades to the note's tasks.
- The listing is sorted newest first and holds every note exactly once.
- A search returns the full listing minus the notes that do not match, in the same order.
- Categories come back sorted, without duplicates and without the empty string.
- The category filter keeps exactly the matching summaries.
- The bounds-checked checklist edits and the mode toggle behave as the source says.
- An application-level invariant, `Synced`, holds throughout. It says the open note, if it has an id, is stored. Because of it, no command of the app leaves a task row without its note.

Behaviour of `main.py` that the model keeps as written:

- **In-memory timestamps after a save.** `save_note` writes only the new id back into the note (main.py:101), so the open note keeps the timestamps it had. `Editing.NoteApp.SaveNote` keeps them.
- **Saving under a missing id.** The UPDATE branch of `save_note` (main.py:102-112) does not check that the id exists, and the task rows are inserted anyway. `Tables.UpdateMissingOrphans` shows that this leaves task rows that belong to no note.
- **Foreign key.** The `ON DELETE CASCADE` clause of the `tasks` table (main.py:41) has no effect unless `PRAGMA foreign_keys` is switched on, and the program never switches it on. The model relies only on the explicit `DELETE FROM tasks` (main.py:185).
- **Deleting an unknown id.** `delete_note` on an id with no row still deletes the task rows whose `note_id` is that id. So it is a no-op when no task row is orphaned (`Store.NotesDB.DeleteNote`).

## Model

| member | source | states |
|---|---|---|
| Models.FreshNote | main.py:555 | `Note(title=title)`: every other field at its declared default; `Editing.NoteApp.NewNote` states what saving it stores |
| Models.NewTask | main.py:328 | `TaskItem(content=content)`: not done and without an id; stated by `Editing.WithTaskAppends` |
| Models.Flip | main.py:633-635 | toggling gives the other mode, never the same one |
| Text.IsSpace | main.py:249 | the characters Python's `str.isspace()` accepts, which `strip()` removes; used by `StripTrims` and `StripBlank` |
| Text.TrimStart | main.py:249 | the leading half of `strip()`; stated by `TrimStartDropsLeadingSpace` |
| Text.TrimEnd | main.py:249 | the trailing half of `strip()`; stated by `TrimEndDropsTrailingSpace` |
| Text.TrimStartDropsLeadingSpace | main.py:249 | trimming the start drops exactly the leading whitespace: the result is a suffix that does not start with whitespace, and every dropped character is whitespace |
| Text.TrimEndDropsTrailingSpace | main.py:249 | trimming the end drops exactly the trailing whitespace: the result is a prefix that does not end with whitespace, and every dropped character is whitespace |
| Text.StripTrims | main.py:249 | `strip()` gives a string that neither starts nor ends with whitespace and sits in the input with only whitespace before and after it |
| Text.Strip | main.py:249 | Python's `str.strip()`: drops the leading and then the trailing whitespace; what it gives is stated by `TrimStartDropsLeadingSpace`, `TrimEndDropsTrailingSpace` and `StripTrims` |
| Text.StripBlank | main.py:326-327 | a string strips to empty exactly when every character is whitespace, which is what `if content:` and `if not title:` test |
| Text.StripIdempotent | main.py:249 | stripping twice is stripping once |
| Text.StripIgnoresTrailingSpace | main.py:249 | a trailing whitespace character, such as the newline a Tk text box adds, does not change the stripped text |
| Text.Lower | main.py:200 | the ASCII-only lower-casing `LIKE` applies to both sides; used by `ContainsIgnoringCase` |
| Text.SameIgnoringCase | main.py:200 | two strings of the same length that agree once ASCII letters are lower-cased; used by `ContainsIgnoringCase` |
| Text.ContainsIgnoringCase | main.py:198-203 | `text LIKE '%q%'` holds exactly when `q` occurs at some position of `text` with ASCII letters compared case-insensitively |
| Text.LexLess | main.py:220 | Python's `<` on strings, the order `sorted()` uses; a strict total order by `LexLessIrreflexive`, `LexLessTransitive`, `LexLessTotal` and `LexLessAsymmetric` |
| Text.LexLessIrreflexive | main.py:220 | Python's string order is irreflexive |
| Text.LexLessTransitive | main.py:220 | Python's string order is transitive |
| Text.LexLessTotal | main.py:220 | of two different strings one is smaller |
| Text.LexLessAsymmetric | main.py:220 | Python's string order is asymmetric |
| Tables.FindNote | main.py:137-138 | the lookup by id finds nothing exactly when no row has that id, and otherwise returns a row of the table with that id |
| Tables.FindNoteUnique | main.py:23-24 | with primary-key ids the lookup returns the one row with that id |
| Tables.HasNote | main.py:137-142 | some row has the id, so `load_note` finds a row; stated by `FindNote` |
| Tables.InsertedRow | main.py:93-99 | the row the INSERT adds: the note's fields and the save time as both timestamps; stated by `InsertThenLoad` |
| Tables.UpdatedRow | main.py:104-111 | one row after the UPDATE's SET list, `created_at` kept; stated by `UpdatedRowsFind` |
| Tables.UpdatedRowsFind | main.py:104-111 | the UPDATE rewrites title, content, mode, category and modified_at of the row with that id, keeps its created_at, and leaves every other row as it was |
| Tables.UpdatedRowsIds | main.py:104-111 | the UPDATE keeps every rowid in place |
| Tables.UpdatedRows | main.py:104-111 | the note table after the UPDATE of one id; stated by `UpdatedRowsFind` and `UpdatedRowsIds` |
| Tables.WithoutNoteFind | main.py:184 | after the DELETE the id is gone and every other id finds the row it found before |
| Tables.WithoutNoteSubsequence | main.py:184 | the DELETE keeps only rows of the table, with ids still increasing |
| Tables.WithoutMissingNote | main.py:184 | deleting an id that has no row leaves the table as it was |
| Tables.WithoutNote | main.py:184 | the note table after `DELETE FROM notes WHERE id=?`; stated by `WithoutNoteFind`, `WithoutNoteSubsequence` and `WithoutMissingNote` |
| Tables.DropTasksOfOwners | main.py:115 | after `DELETE FROM tasks WHERE note_id=?` that note owns no task rows and every other note owns the rows it had |
| Tables.DropTasksOfSubsequence | main.py:115 | that DELETE keeps only rows of the table, none of that note, with ids still increasing |
| Tables.DropTasksOfNone | main.py:185 | deleting the tasks of a note that owns none leaves the table as it was |
| Tables.DropTasksOf | main.py:115 | the task table after `DELETE FROM tasks WHERE note_id=?`, used by both save and delete; stated by `DropTasksOfOwners`, `DropTasksOfSubsequence` and `DropTasksOfNone` |
| Tables.TasksOf | main.py:155 | the task rows `SELECT ... FROM tasks WHERE note_id=?` returns, taken in rowid order; stated by `DropTasksOfOwners` and `ReplaceTasksOwned` |
| Tables.NumberedTasks | main.py:117-125 | the rows the insert loop adds, one per item under consecutive rowids; `Store.NotesDB.InsertTasks` is proved to add exactly these |
| Tables.ReplaceTasks | main.py:114-125 | the task table after a save: the note's rows deleted, then its checklist inserted; stated by `ReplaceTasksOwned`, `ReplaceTasksOthers` and `ReplaceTasksIds` |
| Tables.AsItems | main.py:157 | the checklist built from task rows, without task ids; stated by `ReplaceTasksOwned` |
| Tables.ReplaceTasksOwned | main.py:114-125 | after a save, the saved note's task rows read back as exactly the saved checklist: same contents, same done flags, same order, no ids |
| Tables.ReplaceTasksOthers | main.py:114-125 | after a save, every other note's task rows are what they were |
| Tables.RowToNote | main.py:144-152 | the `Note` built from a notes row and its task items; stated by `LoadFrom`, `InsertThenLoad` and `UpdateThenLoad` |
| Tables.LoadFrom | main.py:132-160 | `load_note` returns None exactly when no row has the id; a loaded note carries that id, one item per task row of the note, and no task ids |
| Tables.SaveId | main.py:91-112 | the id `save_note` returns: the next AUTOINCREMENT rowid for a new note, the note's own id otherwise; stated by `SaveWellNumbered` and `Store.NotesDB.SaveNote` |
| Tables.SavedRows | main.py:91-112 | the note table after the INSERT or the UPDATE of `save_note`; stated by `SaveEffects` and `SaveKeepsStored` |
| Tables.InsertThenLoad | main.py:91-101 | loading a newly inserted note gives back every field as saved, the new id, both timestamps equal to the save time, and the checklist without ids |
| Tables.UpdateThenLoad | main.py:102-112 | loading an updated note gives back every field as saved, its old creation time, the save time as modification time, and the checklist without ids |
| Tables.UpdateMissingOrphans | main.py:102-125 | saving under an id with no row changes no note row but leaves task rows that belong to no note |
| Tables.SaveKeepsOthers | main.py:84-129 | a save changes what loading any other id returns in no way |
| Tables.SaveKeepsStored | main.py:84-112 | every stored note is still stored after a save |
| Tables.SaveKeepsOwnership | main.py:84-125 | a save of a new or stored note keeps every task row attached to a stored note |
| Tables.ReplaceTasksIds | main.py:35-37 | task rows inserted above the counter keep task ids increasing and bounded by the advanced counter |
| Tables.SaveEffects | main.py:84-129 | the round trip, the untouched other notes and the orphan rule of a save, together |
| Tables.SaveWellNumbered | main.py:93-125 | after a save, rowids in both tables are still positive, increasing and not above the advanced AUTOINCREMENT counters |
| Tables.DeleteThenLoad | main.py:179-188 | after `delete_note(id)` loading the id gives None, no task row refers to it, and every other id loads as before |
| Tables.DeleteKeepsOwnership | main.py:184-185 | the delete keeps every remaining task row attached to a stored note |
| Tables.DeleteMissingUnchanged | main.py:184-185 | deleting an unknown id changes neither table when no task row is orphaned |
| Tables.NextIdOwnsNoTasks | main.py:91-115 | when no task row is orphaned, no task row is filed under the id the next INSERT hands out, so the `DELETE FROM tasks` of a new note's save removes nothing |
| Tables.DeleteWellNumbered | main.py:184-185 | a delete keeps rowids positive, increasing and not above the counters, which do not move |
| Tables.ConsNewestFirst | main.py:171 | a row no older than a sorted list may go in front of it |
| Tables.InsertByRecency | main.py:171 | one step of `ORDER BY modified_at DESC`: the row goes in front of the first row that is not newer than it; stated by `InsertByRecencySorted` and `InsertByRecencyPermutes` |
| Tables.SummaryOf | main.py:168-169 | the five columns `load_all_notes` and `search_notes` select from a row; stated by `ListingMembers` |
| Tables.InsertByRecencyBounded | main.py:171 | inserting into a list keeps an upper bound on its modification times |
| Tables.InsertByRecencySorted | main.py:171 | inserting into a newest-first list keeps it newest first |
| Tables.InsertByRecencyPermutes | main.py:171 | inserting adds exactly that row |
| Tables.ByRecencySorted | main.py:168-172 | `ORDER BY modified_at DESC` yields a newest-first permutation of the table |
| Tables.ByRecency | main.py:171 | `ORDER BY modified_at DESC` as an insertion sort that keeps rowid order among equal times; stated by `ByRecencySorted` |
| Tables.KeepMembers | main.py:198-205 | a row passes the WHERE clause exactly when it is in the table and satisfies it |
| Tables.Keep | main.py:198-205 | the rows that pass the WHERE clause of `search_notes`, in table order; stated by `KeepMembers`, `KeepNewestFirst` and `SortThenKeep` |
| Tables.Matches | main.py:200 | `title LIKE '%q%' OR content LIKE '%q%'`; stated by `SearchMembers` |
| Tables.MatchingIds | main.py:196-201 | the ids of the rows the WHERE clause lets through; stated by `SearchMembers` |
| Tables.KeepBounded | main.py:198-205 | filtering keeps an upper bound on modification times |
| Tables.KeepNewestFirst | main.py:198-205 | filtering a newest-first list keeps it newest first |
| Tables.InsertThenKeepFront | main.py:198-205 | filtering commutes with inserting a row that goes in front |
| Tables.InsertThenKeepBehind | main.py:198-205 | the inductive step of `InsertThenKeep` for a row that goes behind the newest one: if filtering commutes with inserting it into the rest of the list, it commutes with inserting it into the whole list |
| Tables.InsertThenKeep | main.py:198-205 | filtering commutes with inserting into a sorted list |
| Tables.SortThenKeep | main.py:198-205 | sorting the filtered table equals filtering the sorted table |
| Tables.KeepEmptyQuery | main.py:203 | the pattern `'%%'` of an empty query matches every note |
| Tables.SummariesKeep | main.py:198-205 | filtering rows and then projecting to summaries equals projecting and then keeping the summaries whose ids pass |
| Tables.KeepIdsMembers | main.py:198-205 | a summary is kept exactly when it is in the list and its id passes |
| Tables.ListingMembers | main.py:163-176 | the listing holds one summary per note row and nothing else |
| Tables.SearchIsFilteredListing | main.py:191-208 | the search result is the full listing with the non-matching notes left out, in the same order |
| Tables.Listing | main.py:163-176 | `load_all_notes` has one summary per note, newest first, and each note's summary is in it |
| Tables.Search | main.py:191-208 | `search_notes(q)` is the full listing with the notes that do not match `q` left out, in the same order; an empty query keeps every note |
| Tables.SearchMembers | main.py:191-208 | a note's summary is in the search result exactly when its title or content holds the query, ignoring ASCII case |
| Tables.NonEmptyCategories | main.py:216-217 | a string is among the selected categories exactly when it is non-empty and some note has it |
| Tables.InsertDistinct | main.py:216-220 | inserting into an ascending duplicate-free list keeps it so and adds exactly that value |
| Tables.SortedDistinct | main.py:216-220 | the result is strictly ascending and holds exactly the input's values |
| Tables.AscendingDistinct | main.py:216-220 | a strictly ascending list has no duplicates |
| Tables.Categories | main.py:211-220 | `get_categories` is strictly ascending (so without duplicates) and holds exactly the non-empty categories in use |
| Store.NotesDB.constructor | main.py:16-46 | a freshly created database has empty tables and counters at zero |
| Store.NotesDB.SaveNote | main.py:84-129 | gives the id and the note's new state, the new tables and counters, the load round trip, that other notes are untouched, and when task rows stay attached |
| Store.NotesDB.InsertTasks | main.py:117-125 | the loop appends one task row per checklist item, in order, numbered by the advancing counter |
| Store.NotesDB.DeleteNote | main.py:179-188 | removes the note and its task rows, after which the id loads as None; other notes are untouched, counters unchanged, and it is a no-op on an unknown id when no row is orphaned |
| NoteList.FilterOn | main.py:498 | the category filter is on unless the selection is empty or "All"; stated by `SelectionAfterRefresh` and `ShownMembers` |
| NoteList.InCategory | main.py:499 | the list comprehension keeping the notes of the selected category, in order; stated by `InCategoryMembers` and `InCategoryNewestFirst` |
| NoteList.InCategoryMembers | main.py:498-499 | the category filter keeps exactly the summaries of the selected category |
| NoteList.InCategoryBounded | main.py:498-499 | the filter keeps an upper bound on modification times |
| NoteList.InCategoryNewestFirst | main.py:498-499 | the filter keeps the newest-first order |
| NoteList.KeepIdsBounded | main.py:492-493 | keeping matching summaries keeps an upper bound on modification times |
| NoteList.KeepIdsNewestFirst | main.py:492-493 | keeping matching summaries keeps the newest-first order |
| NoteList.Listed | main.py:488-495 | the list before the category filter: the search result for the stripped search text, or every note when it is empty; stated by `ShownMembers` |
| NoteList.Shown | main.py:484-499 | the lines `refresh_notes_list` fills the list with, top to bottom; stated by `ShownMembers` |
| NoteList.ShownMembers | main.py:484-499 | a note is in the list exactly when it matches the stripped search text (any note does when that is empty) and has the selected category (any does when the selection is empty or "All"); the list is newest first |
| NoteList.CategoryChoices | main.py:525 | the category box offers "All" first, then exactly the categories in use |
| NoteList.SelectionAfterRefresh | main.py:527-528 | an empty selection becomes "All", which keeps the filter off |
| NoteList.SelectedAsWritten | main.py:546-548 | the id the handlers pick for a line number, looked up in `load_all_notes()`; `SelectionAsWrittenPicksOtherNote` shows it can differ from the line shown |
| NoteList.Selected | main.py:538-549 | the corrected lookup: the id of the note on that line of the list as shown, or none when there is no such line; stated by `SelectedOpensShownNote` |
| NoteList.SelectionAsWrittenPicksOtherNote | main.py:538-549 | with the category "home" selected, line 0 shows note 2 but the lookup picks note 1 |
| NoteList.SelectedOpensShownNote | main.py:538-549 | with the lookup corrected, a selected line opens the note it shows: same id, title, category, mode and modification time |
| Editing.WithForm | main.py:647-648 | the open note with the stripped title and category entries written in; stated by `NoteApp.SaveNote` |
| Editing.Flushed | main.py:629-630 | in normal mode the stripped text box becomes the content, in task mode nothing changes; stated by `ToggleTwice` and `NoteApp.SaveNote` |
| Editing.ToggleTwice | main.py:623-638 | two toggles restore the mode and change nothing but the content, which becomes the stripped text box of the normal-mode side |
| Editing.ToggleTwiceUntouched | main.py:623-638 | a checklist note whose content is already stripped and whose text box is opened and left as it was comes back unchanged after two toggles |
| Editing.Toggled | main.py:623-638 | `toggle_mode` on an open note: flush the text box in normal mode, then flip the mode; stated by `ToggleTwice`, `ToggleTwiceUntouched` and `NoteApp.ToggleMode` |
| Editing.WithTaskAppends | main.py:325-330 | `add_task` keeps every item, appends one unchecked item with the stripped non-empty text, and adds nothing exactly when the entry is blank |
| Editing.WithTask | main.py:325-330 | `add_task` on a checklist, as a value; stated by `WithTaskAppends` |
| Editing.WithoutTaskRemovesOne | main.py:332-335 | `delete_task(i)` for an index in range removes exactly item `i`, keeping the order of the rest |
| Editing.WithoutTask | main.py:332-335 | `delete_task(i)` on a checklist, as a value; stated by `WithoutTaskRemovesOne` |
| Editing.WithDoneFlags | main.py:337-340 | `update_task_states` on a checklist, as a value; `NoteApp.UpdateTaskStates` is proved to compute it |
| Editing.NoteApp.constructor | main.py:357 | the application starts with no note open |
| Editing.NoteApp.UpdateNote | main.py:248-249 | the stripped text of the text box becomes the content |
| Editing.NoteApp.AddTask | main.py:325-330 | the open note's checklist becomes the one `add_task` gives, with all else unchanged |
| Editing.NoteApp.DeleteTask | main.py:332-335 | the open note's checklist loses the item at the index when in range, otherwise nothing changes |
| Editing.NoteApp.UpdateTaskStates | main.py:337-340 | the loop gives each item the state of its check box, in order, with nothing else changed |
| Editing.NoteApp.NewNote | main.py:551-560 | a non-empty title, not stripped, is stored as a new empty note under the next id, with the note table gaining that row, the task counter unchanged, the task table losing only rows already filed under the new id (by `Tables.NextIdOwnsNoTasks` there are none, and the table is unchanged, when no task row is orphaned), and the note opened; an empty or cancelled answer changes nothing |
| Editing.NoteApp.LoadNote | main.py:580-585 | a stored note becomes the open note; an unknown id leaves the editor as it was |
| Editing.NoteApp.ToggleMode | main.py:623-638 | without an open note nothing happens; otherwise the normal-mode text is flushed stripped and the mode flips, with the id kept |
| Editing.NoteApp.SaveNote | main.py:640-665 | the stripped title and category are written into the note even when the title is empty, in which case the store is untouched; otherwise the flushed note is saved, with both tables and both counters stated, reads back as held, keeps its in-memory timestamps, and never orphans a task row |
| Editing.NoteApp.DeleteSelected | main.py:562-578 | with the lookup corrected, the note on the confirmed line is deleted with its task rows, both counters stay where they were, and the editor is closed; no selection, no confirmation or no such line changes nothing |
| Editing.NoteApp.OpenSelected | main.py:538-549 | with the lookup corrected, the note on the selected line becomes the open note exactly as the store loads it; no selection or no such line changes nothing |

## Left out

- Widgets, layout, message boxes, the title dialog and the formatting of list lines and timestamps. What a widget holds is a parameter: the dialog's answer, the entries, the text box, the check boxes, the search text and the category selection.
- `load_current_note` only redraws the widgets. The model assumes the view it draws matches the open note's mode: a `NoteView` has `update_note` exactly in normal mode.
- `datetime.now()` and `isoformat`. The save time is a parameter, and timestamps are integers compared as numbers.
  - ISO strings of one format compare like the times they denote.
  - Rows with equal `modified_at` are listed in rowid order. SQLite leaves that order unspecified.
- `load_note` reads a note's task rows with no ORDER BY (main.py:155). The model reads them in rowid order, which is the order they were inserted; SQLite does not promise any order.
- SQLite's rowid ceiling: an AUTOINCREMENT table whose largest rowid is 9223372036854775807 refuses further INSERTs with SQLITE_FULL. The counters `noteSeq` and `taskSeq` are unbounded `nat`s and never run out.
- Opening, committing and closing the SQLite connection. Each `NotesDB` call is modelled as running alone and completely.
- The database file is modelled from empty (`init_database` on a new file). `CREATE TABLE IF NOT EXISTS` on an existing file is not modelled separately; every operation takes any state that meets `Valid`.
- `Text.ContainsIgnoringCase`: `%` and `_` inside the query act as wildcards in `LIKE` but are literal characters in the model, and non-ASCII letters are not case-folded, as in SQLite without ICU.
- NULL values: the program never writes NULL, so `category` is always a string in the model.
- `Models.Mode`: the `mode` column can in principle hold any string, but the program writes only "normal" and "task", so the model has only those two.
- Python's `str.isspace` set is written out for the Unicode code points it covers. `strip()` on characters outside the Basic Multilingual Plane behaves the same, since none of them is whitespace.
- The `Synced` invariant of `NoteApp` assumes that nothing other than the app changes the database file.

## Findings

| source | as written | input that shows it | evidently intended | confidence | as-written member | corrected member |
|---|---|---|---|---|---|---|
| main.py:546-548, main.py:572-574 | the selected line number is looked up in `load_all_notes()`, not in the list that is shown after search and category filtering | two notes: note 1 "Plan" in category "work", modified at time 2; note 2 "Shopping" in category "home", modified at time 1. With "home" selected the list shows only "Shopping", yet selecting that line opens (or deletes) "Plan" | the selected line stands for the note it shows | high, not executed | NoteList.SelectionAsWrittenPicksOtherNote | NoteList.SelectedOpensShownNote |
