/** The contents of the two SQLite tables, `notes` and `tasks`, and what each SQL
    statement of the note store does to them or reads from them. A table is the
    sequence of its rows in rowid order, which is the order a table scan returns. */
module Tables {
  import opened Models
  import opened Text

  /** A row of `notes`: `id, title, content, mode, category, created_at, modified_at`. */
  datatype NoteRow = NoteRow(
    id: nat,
    title: string,
    content: string,
    mode: Mode,
    category: string,
    createdAt: Timestamp,
    modifiedAt: Timestamp)

  /** A row of `tasks`: `id, note_id, content, done`. */
  datatype TaskRow = TaskRow(id: nat, noteId: nat, content: string, done: bool)

  /** The tuple the note list is built from: `id, title, category, modified_at, mode`. */
  datatype Summary = Summary(id: nat, title: string, category: string, modifiedAt: Timestamp, mode: Mode)

  // ---------------------------------------------------------------------------
  // Row identity

  /** Rowids grow along the table, so no id occurs twice. */
  ghost predicate NoteIdsIncreasing(rows: seq<NoteRow>)
  {
    forall i, j :: 0 <= i < j < |rows| ==> rows[i].id < rows[j].id
  }

  ghost predicate TaskIdsIncreasing(rows: seq<TaskRow>)
  {
    forall i, j :: 0 <= i < j < |rows| ==> rows[i].id < rows[j].id
  }

  /** `SELECT * FROM notes WHERE id=?` followed by `fetchone()`. */
  function FindNote(rows: seq<NoteRow>, id: nat): (r: Option<NoteRow>)
    ensures r.None? <==> forall k :: 0 <= k < |rows| ==> rows[k].id != id
    ensures r.Some? ==> r.value in rows && r.value.id == id
  {
    if rows == [] then None
    else if rows[0].id == id then Some(rows[0])
    else FindNote(rows[1..], id)
  }

  predicate HasNote(rows: seq<NoteRow>, id: nat)
  {
    FindNote(rows, id).Some?
  }

  /** With distinct ids the row a lookup finds is the one row carrying that id. */
  lemma {:induction false} FindNoteUnique(rows: seq<NoteRow>, k: nat)
    requires NoteIdsIncreasing(rows) && k < |rows|
    ensures FindNote(rows, rows[k].id) == Some(rows[k])
  {
    if k > 0 {
      assert rows[0].id < rows[k].id;
      FindNoteUnique(rows[1..], k - 1);
    }
  }

  /** No task row refers to a note that is not in the notes table. */
  ghost predicate NoOrphans(notes: seq<NoteRow>, tasks: seq<TaskRow>)
  {
    forall k :: 0 <= k < |tasks| ==> HasNote(notes, tasks[k].noteId)
  }

  // ---------------------------------------------------------------------------
  // Writing the notes table

  /** The row `INSERT INTO notes (title, content, mode, category, created_at,
      modified_at)` adds for `note` under rowid `id` at time `now`. */
  function InsertedRow(id: nat, note: Note, now: Timestamp): NoteRow
  {
    NoteRow(id, note.title, note.content, note.mode, note.category, now, now)
  }

  /** One row after `SET title=?, content=?, mode=?, category=?, modified_at=?`. */
  function UpdatedRow(row: NoteRow, note: Note, now: Timestamp): NoteRow
  {
    row.(title := note.title, content := note.content, mode := note.mode,
         category := note.category, modifiedAt := now)
  }

  /** The notes table after `UPDATE notes SET ... WHERE id=?`. */
  function UpdatedRows(rows: seq<NoteRow>, id: nat, note: Note, now: Timestamp): seq<NoteRow>
  {
    if rows == [] then []
    else [if rows[0].id == id then UpdatedRow(rows[0], note, now) else rows[0]]
         + UpdatedRows(rows[1..], id, note, now)
  }

  /** The notes table after `DELETE FROM notes WHERE id=?`. */
  function WithoutNote(rows: seq<NoteRow>, id: nat): seq<NoteRow>
  {
    if rows == [] then []
    else (if rows[0].id == id then [] else [rows[0]]) + WithoutNote(rows[1..], id)
  }

  /** The UPDATE changes the fields the note carries and `modified_at` of the row
      with that id, leaves `created_at` alone, and touches no other row. */
  lemma {:induction false} UpdatedRowsFind(rows: seq<NoteRow>, id: nat, note: Note, now: Timestamp, other: nat)
    ensures FindNote(UpdatedRows(rows, id, note, now), other)
         == if other == id && FindNote(rows, id).Some?
            then Some(UpdatedRow(FindNote(rows, id).value, note, now))
            else FindNote(rows, other)
  {
    if rows != [] {
      UpdatedRowsFind(rows[1..], id, note, now, other);
    }
  }

  /** The UPDATE keeps the rowids and their order. */
  lemma {:induction false} UpdatedRowsIds(rows: seq<NoteRow>, id: nat, note: Note, now: Timestamp)
    ensures var r := UpdatedRows(rows, id, note, now);
      |r| == |rows| && forall k :: 0 <= k < |rows| ==> r[k].id == rows[k].id
  {
    if rows != [] {
      UpdatedRowsIds(rows[1..], id, note, now);
    }
  }

  /** The DELETE removes the row with that id and keeps every other row. */
  lemma {:induction false} WithoutNoteFind(rows: seq<NoteRow>, id: nat, other: nat)
    ensures FindNote(WithoutNote(rows, id), other) == if other == id then None else FindNote(rows, other)
  {
    if rows != [] {
      WithoutNoteFind(rows[1..], id, other);
      var rest := WithoutNote(rows[1..], id);
      if rows[0].id != id {
        var w := [rows[0]] + rest;
        assert WithoutNote(rows, id) == w;
        assert w[0] == rows[0] && w[1..] == rest;
        assert FindNote(w, other) == if rows[0].id == other then Some(rows[0]) else FindNote(rest, other);
      } else {
        assert WithoutNote(rows, id) == rest;
      }
    }
  }

  /** The rows the DELETE keeps are rows of the table, in their old order. */
  lemma {:induction false} WithoutNoteSubsequence(rows: seq<NoteRow>, id: nat)
    ensures forall r :: r in WithoutNote(rows, id) ==> r in rows
    ensures NoteIdsIncreasing(rows) ==> NoteIdsIncreasing(WithoutNote(rows, id))
  {
    if rows != [] {
      WithoutNoteSubsequence(rows[1..], id);
      var rest := WithoutNote(rows[1..], id);
      if NoteIdsIncreasing(rows) {
        assert forall r :: r in rest ==> rows[0].id < r.id;
      }
    }
  }

  /** Deleting a row that is not there changes nothing. */
  lemma {:induction false} WithoutMissingNote(rows: seq<NoteRow>, id: nat)
    requires !HasNote(rows, id)
    ensures WithoutNote(rows, id) == rows
  {
    if rows != [] {
      WithoutMissingNote(rows[1..], id);
    }
  }

  // ---------------------------------------------------------------------------
  // Writing and reading the tasks table

  /** `SELECT ... FROM tasks WHERE note_id=?`: the rows of one note, in rowid order. */
  function TasksOf(tasks: seq<TaskRow>, noteId: nat): seq<TaskRow>
  {
    if tasks == [] then []
    else (if tasks[0].noteId == noteId then [tasks[0]] else []) + TasksOf(tasks[1..], noteId)
  }

  /** `DELETE FROM tasks WHERE note_id=?`. */
  function DropTasksOf(tasks: seq<TaskRow>, noteId: nat): seq<TaskRow>
  {
    if tasks == [] then []
    else (if tasks[0].noteId == noteId then [] else [tasks[0]]) + DropTasksOf(tasks[1..], noteId)
  }

  /** The rows the loop of `INSERT INTO tasks (note_id, content, done)` adds for
      `items`, the k-th one under rowid `firstId + k`. */
  function NumberedTasks(noteId: nat, items: seq<TaskItem>, firstId: nat): seq<TaskRow>
  {
    seq(|items|, k requires 0 <= k < |items| => TaskRow(firstId + k, noteId, items[k].content, items[k].done))
  }

  /** The tasks table after saving a note: its old rows are deleted and `items`
      are inserted afresh. */
  function ReplaceTasks(tasks: seq<TaskRow>, noteId: nat, items: seq<TaskItem>, firstId: nat): seq<TaskRow>
  {
    DropTasksOf(tasks, noteId) + NumberedTasks(noteId, items, firstId)
  }

  /** `[TaskItem(content=task[0], done=bool(task[1])) for task in tasks]`: the task
      ids are not read back. */
  function AsItems(rows: seq<TaskRow>): seq<TaskItem>
  {
    seq(|rows|, k requires 0 <= k < |rows| => TaskItem(rows[k].content, rows[k].done, None))
  }

  /** The same checklist with the ids forgotten. */
  function Unnumbered(items: seq<TaskItem>): seq<TaskItem>
  {
    seq(|items|, k requires 0 <= k < |items| => items[k].(id := None))
  }

  lemma {:induction false} TasksOfAppend(a: seq<TaskRow>, b: seq<TaskRow>, noteId: nat)
    ensures TasksOf(a + b, noteId) == TasksOf(a, noteId) + TasksOf(b, noteId)
  {
    if a != [] {
      assert (a + b)[0] == a[0];
      assert (a + b)[1..] == a[1..] + b;
      TasksOfAppend(a[1..], b, noteId);
    } else {
      assert a + b == b;
    }
  }

  lemma {:induction false} TasksOfAll(rows: seq<TaskRow>, noteId: nat)
    requires forall k :: 0 <= k < |rows| ==> rows[k].noteId == noteId
    ensures TasksOf(rows, noteId) == rows
  {
    if rows != [] {
      TasksOfAll(rows[1..], noteId);
    }
  }

  lemma {:induction false} TasksOfNone(rows: seq<TaskRow>, noteId: nat)
    requires forall k :: 0 <= k < |rows| ==> rows[k].noteId != noteId
    ensures TasksOf(rows, noteId) == []
  {
    if rows != [] {
      TasksOfNone(rows[1..], noteId);
    }
  }

  /** After the DELETE a note owns no task rows, and every other note owns the rows
      it owned before. */
  lemma {:induction false} DropTasksOfOwners(tasks: seq<TaskRow>, noteId: nat, other: nat)
    ensures TasksOf(DropTasksOf(tasks, noteId), other) == if other == noteId then [] else TasksOf(tasks, other)
  {
    if tasks != [] {
      DropTasksOfOwners(tasks[1..], noteId, other);
      var rest := DropTasksOf(tasks[1..], noteId);
      if tasks[0].noteId != noteId {
        var d := [tasks[0]] + rest;
        assert DropTasksOf(tasks, noteId) == d;
        assert d[0] == tasks[0] && d[1..] == rest;
        assert TasksOf(d, other) == (if tasks[0].noteId == other then [tasks[0]] else []) + TasksOf(rest, other);
      } else {
        assert DropTasksOf(tasks, noteId) == rest;
      }
    }
  }

  /** The DELETE keeps only rows of the table, in their old order, and removes every
      row of that note. */
  lemma {:induction false} DropTasksOfSubsequence(tasks: seq<TaskRow>, noteId: nat)
    ensures forall t :: t in DropTasksOf(tasks, noteId) ==> t in tasks && t.noteId != noteId
    ensures TaskIdsIncreasing(tasks) ==> TaskIdsIncreasing(DropTasksOf(tasks, noteId))
  {
    if tasks != [] {
      DropTasksOfSubsequence(tasks[1..], noteId);
      var rest := DropTasksOf(tasks[1..], noteId);
      if TaskIdsIncreasing(tasks) {
        assert forall t :: t in rest ==> tasks[0].id < t.id;
      }
    }
  }

  /** Deleting the tasks of a note that owns none changes nothing. */
  lemma {:induction false} DropTasksOfNone(tasks: seq<TaskRow>, noteId: nat)
    requires forall k :: 0 <= k < |tasks| ==> tasks[k].noteId != noteId
    ensures DropTasksOf(tasks, noteId) == tasks
  {
    if tasks != [] {
      DropTasksOfNone(tasks[1..], noteId);
    }
  }

  /** After a save, the task rows of the saved note hold exactly the items saved,
      with the same content and done flags in the same order. */
  lemma ReplaceTasksOwned(tasks: seq<TaskRow>, noteId: nat, items: seq<TaskItem>, firstId: nat)
    ensures AsItems(TasksOf(ReplaceTasks(tasks, noteId, items, firstId), noteId)) == Unnumbered(items)
  {
    var added := NumberedTasks(noteId, items, firstId);
    TasksOfAppend(DropTasksOf(tasks, noteId), added, noteId);
    DropTasksOfOwners(tasks, noteId, noteId);
    TasksOfAll(added, noteId);
    assert TasksOf(ReplaceTasks(tasks, noteId, items, firstId), noteId) == added;
    var a := AsItems(added);
    var u := Unnumbered(items);
    assert |a| == |u|;
    assert forall k :: 0 <= k < |a| ==> a[k] == u[k];
  }

  /** A save leaves the task rows of every other note as they were. */
  lemma ReplaceTasksOthers(tasks: seq<TaskRow>, noteId: nat, items: seq<TaskItem>, firstId: nat, other: nat)
    requires other != noteId
    ensures TasksOf(ReplaceTasks(tasks, noteId, items, firstId), other) == TasksOf(tasks, other)
  {
    var added := NumberedTasks(noteId, items, firstId);
    TasksOfAppend(DropTasksOf(tasks, noteId), added, other);
    DropTasksOfOwners(tasks, noteId, other);
    TasksOfNone(added, other);
  }

  // ---------------------------------------------------------------------------
  // Loading one note

  /** The note `load_note` builds from a row and the task items read for it. */
  function RowToNote(row: NoteRow, items: seq<TaskItem>): Note
  {
    Note(row.title, row.content, items, row.mode, row.category,
         Some(row.id), Some(row.createdAt), Some(row.modifiedAt))
  }

  /** `load_note(id)` against the given tables. */
  function LoadFrom(notes: seq<NoteRow>, tasks: seq<TaskRow>, id: nat): (r: Option<Note>)
    ensures r.None? <==> !HasNote(notes, id)
    ensures r.Some? ==> r.value.id == Some(id) && |r.value.tasks| == |TasksOf(tasks, id)|
    ensures r.Some? ==> forall t :: t in r.value.tasks ==> t.id.None?
  {
    match FindNote(notes, id)
    case None => None
    case Some(row) => Some(RowToNote(row, AsItems(TasksOf(tasks, id))))
  }

  /** Round trip of a first save: loading the new id gives back every field of the
      note as saved, both timestamps equal to the save time, and the saved tasks in
      order without ids. */
  lemma InsertThenLoad(notes: seq<NoteRow>, tasks: seq<TaskRow>, note: Note, id: nat, now: Timestamp, firstId: nat)
    requires forall k :: 0 <= k < |notes| ==> notes[k].id < id
    ensures LoadFrom(notes + [InsertedRow(id, note, now)], ReplaceTasks(tasks, id, note.tasks, firstId), id)
         == Some(note.(id := Some(id), tasks := Unnumbered(note.tasks),
                       createdAt := Some(now), modifiedAt := Some(now)))
  {
    var rows := notes + [InsertedRow(id, note, now)];
    assert NoteIdsIncreasingUpTo(rows, |notes|);
    FindNoteLast(rows);
    ReplaceTasksOwned(tasks, id, note.tasks, firstId);
  }

  ghost predicate NoteIdsIncreasingUpTo(rows: seq<NoteRow>, last: nat)
  {
    last < |rows| && forall k :: 0 <= k < last ==> rows[k].id < rows[last].id
  }

  lemma {:induction false} FindNoteLast(rows: seq<NoteRow>)
    requires rows != [] && NoteIdsIncreasingUpTo(rows, |rows| - 1)
    ensures FindNote(rows, rows[|rows| - 1].id) == Some(rows[|rows| - 1])
  {
    if |rows| > 1 {
      assert NoteIdsIncreasingUpTo(rows[1..], |rows| - 2);
      FindNoteLast(rows[1..]);
    }
  }

  /** Round trip of a later save: loading the id gives back every field as saved,
      the creation time the row already had, the save time as modification time,
      and the saved tasks in order without ids. */
  lemma UpdateThenLoad(notes: seq<NoteRow>, tasks: seq<TaskRow>, note: Note, id: nat, now: Timestamp, firstId: nat)
    requires HasNote(notes, id)
    ensures LoadFrom(UpdatedRows(notes, id, note, now), ReplaceTasks(tasks, id, note.tasks, firstId), id)
         == Some(note.(id := Some(id), tasks := Unnumbered(note.tasks),
                       createdAt := Some(FindNote(notes, id).value.createdAt), modifiedAt := Some(now)))
  {
    UpdatedRowsFind(notes, id, note, now, id);
    ReplaceTasksOwned(tasks, id, note.tasks, firstId);
  }

  /** A save through the UPDATE branch for an id with no row leaves the notes table
      as it was but still writes the task rows: they belong to no note. */
  lemma UpdateMissingOrphans(notes: seq<NoteRow>, tasks: seq<TaskRow>, note: Note, id: nat, now: Timestamp, firstId: nat)
    requires !HasNote(notes, id) && note.tasks != []
    ensures UpdatedRows(notes, id, note, now) == notes
    ensures !NoOrphans(notes, ReplaceTasks(tasks, id, note.tasks, firstId))
  {
    UpdatedRowsMissing(notes, id, note, now);
    var r := ReplaceTasks(tasks, id, note.tasks, firstId);
    assert r[|DropTasksOf(tasks, id)|].noteId == id;
  }

  lemma {:induction false} UpdatedRowsMissing(rows: seq<NoteRow>, id: nat, note: Note, now: Timestamp)
    requires !HasNote(rows, id)
    ensures UpdatedRows(rows, id, note, now) == rows
  {
    if rows != [] {
      UpdatedRowsMissing(rows[1..], id, note, now);
    }
  }

  /** The notes table after `save_note`: an INSERT for a note without an id, an
      UPDATE of row `id` otherwise. */
  function SavedRows(notes: seq<NoteRow>, note: Note, id: nat, now: Timestamp): seq<NoteRow>
  {
    if note.id.None? then notes + [InsertedRow(id, note, now)] else UpdatedRows(notes, id, note, now)
  }

  /** Saving one note changes what loading any other id returns in no way. */
  lemma SaveKeepsOthers(notes: seq<NoteRow>, tasks: seq<TaskRow>, note: Note, id: nat, now: Timestamp, firstId: nat, other: nat)
    requires other != id
    ensures LoadFrom(SavedRows(notes, note, id, now), ReplaceTasks(tasks, id, note.tasks, firstId), other)
         == LoadFrom(notes, tasks, other)
  {
    ReplaceTasksOthers(tasks, id, note.tasks, firstId, other);
    if note.id.None? {
      FindNoteAppend(notes, InsertedRow(id, note, now), other);
    } else {
      UpdatedRowsFind(notes, id, note, now, other);
    }
  }

  lemma {:induction false} FindNoteAppend(rows: seq<NoteRow>, row: NoteRow, other: nat)
    requires row.id != other
    ensures FindNote(rows + [row], other) == FindNote(rows, other)
  {
    if rows == [] {
      assert [row][1..] == [];
    } else {
      assert (rows + [row])[1..] == rows[1..] + [row];
      FindNoteAppend(rows[1..], row, other);
    }
  }

  /** A note that was stored is still stored after a save. */
  lemma {:induction false} SaveKeepsStored(notes: seq<NoteRow>, note: Note, id: nat, now: Timestamp, other: nat)
    requires HasNote(notes, other)
    ensures HasNote(SavedRows(notes, note, id, now), other)
  {
    if note.id.None? {
      if other != id {
        FindNoteAppend(notes, InsertedRow(id, note, now), other);
      } else {
        var rows := notes + [InsertedRow(id, note, now)];
        assert rows[|notes|].id == other;
      }
    } else {
      UpdatedRowsFind(notes, id, note, now, other);
    }
  }

  /** A save keeps every task row attached to a stored note, provided the note it
      saves is new or already stored. */
  lemma SaveKeepsOwnership(notes: seq<NoteRow>, tasks: seq<TaskRow>, note: Note, id: nat, now: Timestamp, firstId: nat)
    requires NoOrphans(notes, tasks)
    requires note.id.None? || HasNote(notes, id)
    ensures NoOrphans(SavedRows(notes, note, id, now), ReplaceTasks(tasks, id, note.tasks, firstId))
  {
    var rows := SavedRows(notes, note, id, now);
    var kept := DropTasksOf(tasks, id);
    var r := kept + NumberedTasks(id, note.tasks, firstId);
    DropTasksOfSubsequence(tasks, id);
    if note.id.None? {
      assert rows[|notes|].id == id;
    } else {
      SaveKeepsStored(notes, note, id, now, id);
    }
    forall k | 0 <= k < |r| ensures HasNote(rows, r[k].noteId) {
      if k >= |kept| {
        assert r[k].noteId == id;
      } else {
        assert r[k] in kept;
        assert r[k] in tasks;
        var j :| 0 <= j < |tasks| && tasks[j] == r[k];
        SaveKeepsStored(notes, note, id, now, r[k].noteId);
      }
    }
  }

  /** The tasks table keeps its ids increasing and below the counter when the rows
      a save inserts are numbered from just above the counter. */
  lemma ReplaceTasksIds(tasks: seq<TaskRow>, noteId: nat, items: seq<TaskItem>, firstId: nat)
    requires 0 < firstId
    requires TaskIdsIncreasing(tasks) && forall k :: 0 <= k < |tasks| ==> 0 < tasks[k].id < firstId
    ensures var r := ReplaceTasks(tasks, noteId, items, firstId);
      TaskIdsIncreasing(r) && forall k :: 0 <= k < |r| ==> 0 < r[k].id < firstId + |items|
  {
    var kept := DropTasksOf(tasks, noteId);
    DropTasksOfSubsequence(tasks, noteId);
    var r := ReplaceTasks(tasks, noteId, items, firstId);
    assert forall k :: 0 <= k < |kept| ==> kept[k] in tasks;
    assert forall k :: 0 <= k < |kept| ==> 0 < kept[k].id < firstId;
    forall k | |kept| <= k < |r| ensures r[k].id == firstId + k - |kept| {
      assert r[k] == NumberedTasks(noteId, items, firstId)[k - |kept|];
    }
    forall i, j | 0 <= i < j < |r| ensures r[i].id < r[j].id {
      if j < |kept| {
        assert r[i] == kept[i] && r[j] == kept[j];
      } else if i < |kept| {
        assert r[i] == kept[i];
      }
    }
  }

  /** Cascade: after deleting a note, loading it finds nothing, no task row refers to
      it, and every other note loads as before. */
  lemma DeleteThenLoad(notes: seq<NoteRow>, tasks: seq<TaskRow>, id: nat, other: nat)
    ensures LoadFrom(WithoutNote(notes, id), DropTasksOf(tasks, id), id).None?
    ensures TasksOf(DropTasksOf(tasks, id), id) == []
    ensures other != id ==> LoadFrom(WithoutNote(notes, id), DropTasksOf(tasks, id), other) == LoadFrom(notes, tasks, other)
  {
    WithoutNoteFind(notes, id, id);
    WithoutNoteFind(notes, id, other);
    DropTasksOfOwners(tasks, id, id);
    DropTasksOfOwners(tasks, id, other);
  }

  /** The cascade keeps every remaining task row attached to a stored note. */
  lemma DeleteKeepsOwnership(notes: seq<NoteRow>, tasks: seq<TaskRow>, id: nat)
    requires NoOrphans(notes, tasks)
    ensures NoOrphans(WithoutNote(notes, id), DropTasksOf(tasks, id))
  {
    var kept := DropTasksOf(tasks, id);
    DropTasksOfSubsequence(tasks, id);
    forall k | 0 <= k < |kept| ensures HasNote(WithoutNote(notes, id), kept[k].noteId) {
      assert kept[k] in tasks;
      var j :| 0 <= j < |tasks| && tasks[j] == kept[k];
      WithoutNoteFind(notes, id, kept[k].noteId);
    }
  }

  /** Deleting an id no note has changes neither table, as long as no task row
      refers to a missing note. */
  lemma DeleteMissingUnchanged(notes: seq<NoteRow>, tasks: seq<TaskRow>, id: nat)
    requires NoOrphans(notes, tasks) && !HasNote(notes, id)
    ensures WithoutNote(notes, id) == notes && DropTasksOf(tasks, id) == tasks
  {
    WithoutMissingNote(notes, id);
    DropTasksOfNone(tasks, id);
  }

  /** What a save means for loading: the saved note reads back, every other id reads
      as before, and task rows stay attached exactly when the saved note is new or
      stored. */
  lemma SaveEffects(notes: seq<NoteRow>, tasks: seq<TaskRow>, note: Note, id: nat, now: Timestamp, firstId: nat)
    requires note.id.None? ==> forall k :: 0 <= k < |notes| ==> notes[k].id < id
    requires note.id.Some? ==> id == note.id.value
    ensures var rows := SavedRows(notes, note, id, now);
      var rs := ReplaceTasks(tasks, id, note.tasks, firstId);
      && (note.id.None? ==>
           LoadFrom(rows, rs, id) == Some(note.(id := Some(id), tasks := Unnumbered(note.tasks),
                                               createdAt := Some(now), modifiedAt := Some(now))))
      && (HasNote(notes, id) ==>
           LoadFrom(rows, rs, id) == Some(note.(id := Some(id), tasks := Unnumbered(note.tasks),
                                               createdAt := LoadFrom(notes, tasks, id).value.createdAt,
                                               modifiedAt := Some(now))))
      && (forall other :: other != id ==> LoadFrom(rows, rs, other) == LoadFrom(notes, tasks, other))
      && (NoOrphans(notes, tasks) && (note.id.None? || HasNote(notes, id)) ==> NoOrphans(rows, rs))
      && (!HasNote(notes, id) && note.id.Some? && note.tasks != [] ==> !NoOrphans(rows, rs))
  {
    if note.id.None? {
      InsertThenLoad(notes, tasks, note, id, now, firstId);
    } else if HasNote(notes, id) {
      UpdateThenLoad(notes, tasks, note, id, now, firstId);
    }
    forall other | other != id
      ensures LoadFrom(SavedRows(notes, note, id, now), ReplaceTasks(tasks, id, note.tasks, firstId), other)
           == LoadFrom(notes, tasks, other)
    {
      SaveKeepsOthers(notes, tasks, note, id, now, firstId, other);
    }
    if NoOrphans(notes, tasks) && (note.id.None? || HasNote(notes, id)) {
      SaveKeepsOwnership(notes, tasks, note, id, now, firstId);
    }
    if !HasNote(notes, id) && note.id.Some? && note.tasks != [] {
      UpdateMissingOrphans(notes, tasks, note, id, now, firstId);
    }
  }

  /** The id `save_note` writes under: the note's own id, or the next rowid of an
      AUTOINCREMENT table whose largest id ever handed out is `noteSeq`. */
  function SaveId(note: Note, noteSeq: nat): nat
  {
    if note.id.Some? then note.id.value else noteSeq + 1
  }

  /** Rowids are positive, distinct, in table order and never above the largest id
      the AUTOINCREMENT counter of their table has handed out. */
  ghost predicate WellNumbered(notes: seq<NoteRow>, tasks: seq<TaskRow>, noteSeq: nat, taskSeq: nat)
  {
    && NoteIdsIncreasing(notes)
    && TaskIdsIncreasing(tasks)
    && (forall k :: 0 <= k < |notes| ==> 0 < notes[k].id <= noteSeq)
    && (forall k :: 0 <= k < |tasks| ==> 0 < tasks[k].id <= taskSeq)
  }

  /** A save numbers a new note and the new task rows above the counters and moves
      the counters past them, so rowids stay distinct and ordered. */
  lemma SaveWellNumbered(notes: seq<NoteRow>, tasks: seq<TaskRow>, noteSeq: nat, taskSeq: nat, note: Note, now: Timestamp)
    requires WellNumbered(notes, tasks, noteSeq, taskSeq)
    ensures var id := SaveId(note, noteSeq);
      WellNumbered(SavedRows(notes, note, id, now), ReplaceTasks(tasks, id, note.tasks, taskSeq + 1),
                   if note.id.None? then noteSeq + 1 else noteSeq, taskSeq + |note.tasks|)
  {
    var id := SaveId(note, noteSeq);
    var rows := SavedRows(notes, note, id, now);
    ReplaceTasksIds(tasks, id, note.tasks, taskSeq + 1);
    if note.id.None? {
      forall i, j | 0 <= i < j < |rows| ensures rows[i].id < rows[j].id {
        assert rows[i] == notes[i];
        if j < |notes| {
          assert rows[j] == notes[j];
        }
      }
      forall k | 0 <= k < |rows| ensures 0 < rows[k].id <= noteSeq + 1 {
        if k < |notes| {
          assert rows[k] == notes[k];
        }
      }
    } else {
      UpdatedRowsIds(notes, id, note, now);
    }
  }

  /** In a store without orphan rows no task row is filed under the id the next
      INSERT hands out, so the `DELETE FROM tasks` a save of a new note runs
      removes nothing. */
  lemma NextIdOwnsNoTasks(notes: seq<NoteRow>, tasks: seq<TaskRow>, noteSeq: nat, taskSeq: nat)
    requires WellNumbered(notes, tasks, noteSeq, taskSeq) && NoOrphans(notes, tasks)
    ensures ReplaceTasks(tasks, noteSeq + 1, [], taskSeq + 1) == tasks
  {
    forall k | 0 <= k < |tasks| ensures tasks[k].noteId != noteSeq + 1 {
      var row := FindNote(notes, tasks[k].noteId).value;
      assert row in notes;
      var m :| 0 <= m < |notes| && notes[m] == row;
    }
    DropTasksOfNone(tasks, noteSeq + 1);
    assert NumberedTasks(noteSeq + 1, [], taskSeq + 1) == [];
  }

  /** A delete keeps rowids distinct, ordered and below the unchanged counters. */
  lemma DeleteWellNumbered(notes: seq<NoteRow>, tasks: seq<TaskRow>, noteSeq: nat, taskSeq: nat, id: nat)
    requires WellNumbered(notes, tasks, noteSeq, taskSeq)
    ensures WellNumbered(WithoutNote(notes, id), DropTasksOf(tasks, id), noteSeq, taskSeq)
  {
    var rows := WithoutNote(notes, id);
    var kept := DropTasksOf(tasks, id);
    WithoutNoteSubsequence(notes, id);
    DropTasksOfSubsequence(tasks, id);
    forall k | 0 <= k < |rows| ensures 0 < rows[k].id <= noteSeq {
      assert rows[k] in notes;
    }
    forall k | 0 <= k < |kept| ensures 0 < kept[k].id <= taskSeq {
      assert kept[k] in tasks;
    }
  }

  // ---------------------------------------------------------------------------
  // Listing and searching

  function SummaryOf(row: NoteRow): Summary
  {
    Summary(row.id, row.title, row.category, row.modifiedAt, row.mode)
  }

  function Summaries(rows: seq<NoteRow>): seq<Summary>
  {
    seq(|rows|, k requires 0 <= k < |rows| => SummaryOf(rows[k]))
  }

  /** `ORDER BY modified_at DESC` holds of the rows. */
  ghost predicate NewestFirst(rows: seq<NoteRow>)
  {
    forall i, j :: 0 <= i < j < |rows| ==> rows[i].modifiedAt >= rows[j].modifiedAt
  }

  ghost predicate NoNewerThan(rows: seq<NoteRow>, t: Timestamp)
  {
    forall k :: 0 <= k < |rows| ==> rows[k].modifiedAt <= t
  }

  /** A row no older than every row of a sorted list may go in front of it. */
  lemma ConsNewestFirst(row: NoteRow, rest: seq<NoteRow>)
    requires NewestFirst(rest) && NoNewerThan(rest, row.modifiedAt)
    ensures NewestFirst([row] + rest)
  {
    var r := [row] + rest;
    forall i, j | 0 <= i < j < |r| ensures r[i].modifiedAt >= r[j].modifiedAt {
      assert r[j] == rest[j - 1];
      if i > 0 {
        assert r[i] == rest[i - 1];
      }
    }
  }

  /** Puts `row` in front of the first row that is not newer than it. */
  function InsertByRecency(row: NoteRow, sorted: seq<NoteRow>): seq<NoteRow>
  {
    if sorted == [] || sorted[0].modifiedAt <= row.modifiedAt then [row] + sorted
    else [sorted[0]] + InsertByRecency(row, sorted[1..])
  }

  /** `ORDER BY modified_at DESC`, rows with equal times kept in table order. */
  function ByRecency(rows: seq<NoteRow>): seq<NoteRow>
  {
    if rows == [] then [] else InsertByRecency(rows[0], ByRecency(rows[1..]))
  }

  lemma {:induction false} InsertByRecencyBounded(row: NoteRow, sorted: seq<NoteRow>, t: Timestamp)
    requires NoNewerThan(sorted, t) && row.modifiedAt <= t
    ensures NoNewerThan(InsertByRecency(row, sorted), t)
  {
    if sorted != [] && sorted[0].modifiedAt > row.modifiedAt {
      InsertByRecencyBounded(row, sorted[1..], t);
    }
  }

  lemma {:induction false} InsertByRecencySorted(row: NoteRow, sorted: seq<NoteRow>)
    requires NewestFirst(sorted)
    ensures NewestFirst(InsertByRecency(row, sorted))
  {
    if sorted == [] || sorted[0].modifiedAt <= row.modifiedAt {
      ConsNewestFirst(row, sorted);
    } else {
      InsertByRecencySorted(row, sorted[1..]);
      InsertByRecencyBounded(row, sorted[1..], sorted[0].modifiedAt);
      ConsNewestFirst(sorted[0], InsertByRecency(row, sorted[1..]));
    }
  }

  lemma {:induction false} InsertByRecencyPermutes(row: NoteRow, sorted: seq<NoteRow>)
    ensures multiset(InsertByRecency(row, sorted)) == multiset(sorted) + multiset{row}
  {
    if sorted != [] && sorted[0].modifiedAt > row.modifiedAt {
      InsertByRecencyPermutes(row, sorted[1..]);
      assert sorted == [sorted[0]] + sorted[1..];
    }
  }

  /** `ORDER BY modified_at DESC` is a sort: the listing is ordered newest first
      and holds every row of the table exactly as often as the table does. */
  lemma {:induction false} ByRecencySorted(rows: seq<NoteRow>)
    ensures NewestFirst(ByRecency(rows))
    ensures multiset(ByRecency(rows)) == multiset(rows)
  {
    if rows != [] {
      ByRecencySorted(rows[1..]);
      InsertByRecencySorted(rows[0], ByRecency(rows[1..]));
      InsertByRecencyPermutes(rows[0], ByRecency(rows[1..]));
      assert rows == [rows[0]] + rows[1..];
    }
  }

  /** The rows a `WHERE` clause keeps, in table order. */
  function Keep(rows: seq<NoteRow>, keep: NoteRow -> bool): seq<NoteRow>
  {
    if rows == [] then []
    else (if keep(rows[0]) then [rows[0]] else []) + Keep(rows[1..], keep)
  }

  lemma {:induction false} KeepCons(x: NoteRow, rest: seq<NoteRow>, keep: NoteRow -> bool)
    ensures Keep([x] + rest, keep) == (if keep(x) then [x] else []) + Keep(rest, keep)
  {
    var l := [x] + rest;
    assert l[0] == x && l[1..] == rest;
  }

  /** A row is kept exactly when it is in the table and passes the filter. */
  lemma {:induction false} KeepMembers(rows: seq<NoteRow>, keep: NoteRow -> bool)
    ensures forall x :: x in Keep(rows, keep) <==> x in rows && keep(x)
  {
    if rows != [] {
      KeepMembers(rows[1..], keep);
      assert rows == [rows[0]] + rows[1..];
    }
  }

  lemma {:induction false} KeepBounded(rows: seq<NoteRow>, keep: NoteRow -> bool, t: Timestamp)
    requires NoNewerThan(rows, t)
    ensures NoNewerThan(Keep(rows, keep), t)
  {
    if rows != [] {
      KeepBounded(rows[1..], keep, t);
    }
  }

  lemma {:induction false} KeepNewestFirst(rows: seq<NoteRow>, keep: NoteRow -> bool)
    requires NewestFirst(rows)
    ensures NewestFirst(Keep(rows, keep))
  {
    if rows != [] {
      KeepNewestFirst(rows[1..], keep);
      if keep(rows[0]) {
        KeepBounded(rows[1..], keep, rows[0].modifiedAt);
        ConsNewestFirst(rows[0], Keep(rows[1..], keep));
      }
    }
  }

  /** The row goes in front: the rows the filter keeps are all no newer than it. */
  lemma {:induction false} InsertThenKeepFront(row: NoteRow, sorted: seq<NoteRow>, keep: NoteRow -> bool)
    requires NewestFirst(sorted)
    requires sorted == [] || sorted[0].modifiedAt <= row.modifiedAt
    ensures Keep(InsertByRecency(row, sorted), keep)
         == if keep(row) then InsertByRecency(row, Keep(sorted, keep)) else Keep(sorted, keep)
  {
    var ks := Keep(sorted, keep);
    KeepCons(row, sorted, keep);
    if keep(row) && ks != [] {
      assert NoNewerThan(sorted, sorted[0].modifiedAt);
      KeepBounded(sorted, keep, sorted[0].modifiedAt);
      assert ks[0].modifiedAt <= row.modifiedAt;
    }
  }

  /** The row goes behind the newest one, whether or not the filter keeps that one. */
  lemma {:induction false} InsertThenKeepBehind(row: NoteRow, sorted: seq<NoteRow>, keep: NoteRow -> bool)
    requires sorted != [] && sorted[0].modifiedAt > row.modifiedAt
    requires Keep(InsertByRecency(row, sorted[1..]), keep)
          == if keep(row) then InsertByRecency(row, Keep(sorted[1..], keep)) else Keep(sorted[1..], keep)
    ensures Keep(InsertByRecency(row, sorted), keep)
         == if keep(row) then InsertByRecency(row, Keep(sorted, keep)) else Keep(sorted, keep)
  {
    var tail := sorted[1..];
    var ks := Keep(sorted, keep);
    var kt := Keep(tail, keep);
    assert InsertByRecency(row, sorted) == [sorted[0]] + InsertByRecency(row, tail);
    KeepCons(sorted[0], InsertByRecency(row, tail), keep);
    assert sorted == [sorted[0]] + tail;
    KeepCons(sorted[0], tail, keep);
    if keep(sorted[0]) {
      assert ks == [sorted[0]] + kt;
      if keep(row) {
        assert ks[0] == sorted[0] && ks[1..] == kt;
        assert InsertByRecency(row, ks) == [sorted[0]] + InsertByRecency(row, kt);
        assert Keep(InsertByRecency(row, sorted), keep) == [sorted[0]] + InsertByRecency(row, kt);
      } else {
        assert Keep(InsertByRecency(row, sorted), keep) == [sorted[0]] + kt;
      }
    } else {
      assert ks == kt;
      assert Keep(InsertByRecency(row, sorted), keep) == Keep(InsertByRecency(row, tail), keep);
    }
  }

  lemma {:induction false} InsertThenKeep(row: NoteRow, sorted: seq<NoteRow>, keep: NoteRow -> bool)
    requires NewestFirst(sorted)
    ensures Keep(InsertByRecency(row, sorted), keep)
         == if keep(row) then InsertByRecency(row, Keep(sorted, keep)) else Keep(sorted, keep)
  {
    if sorted == [] || sorted[0].modifiedAt <= row.modifiedAt {
      InsertThenKeepFront(row, sorted, keep);
    } else {
      InsertThenKeep(row, sorted[1..], keep);
      InsertThenKeepBehind(row, sorted, keep);
    }
  }

  /** Filtering and then sorting gives the sorted table with the rows the filter
      rejects left out: a filtered listing keeps the order of the full one. */
  lemma {:induction false} SortThenKeep(rows: seq<NoteRow>, keep: NoteRow -> bool)
    ensures ByRecency(Keep(rows, keep)) == Keep(ByRecency(rows), keep)
  {
    if rows != [] {
      var rest := rows[1..];
      SortThenKeep(rest, keep);
      ByRecencySorted(rest);
      InsertThenKeep(rows[0], ByRecency(rest), keep);
      var kr := Keep(rest, keep);
      assert rows == [rows[0]] + rest;
      KeepCons(rows[0], rest, keep);
      assert ByRecency(rows) == InsertByRecency(rows[0], ByRecency(rest));
      if keep(rows[0]) {
        var l := [rows[0]] + kr;
        assert Keep(rows, keep) == l;
        assert l[0] == rows[0] && l[1..] == kr;
        assert ByRecency(l) == InsertByRecency(rows[0], ByRecency(kr));
      } else {
        assert Keep(rows, keep) == kr;
      }
    }
  }

  /** `title LIKE '%q%' OR content LIKE '%q%'`. */
  predicate Matches(row: NoteRow, query: string)
  {
    ContainsIgnoringCase(row.title, query) || ContainsIgnoringCase(row.content, query)
  }

  function MatchesQuery(query: string): NoteRow -> bool
  {
    row => Matches(row, query)
  }

  /** An empty query matches every note, since `'%%'` matches any text. */
  lemma {:induction false} KeepEmptyQuery(rows: seq<NoteRow>)
    ensures Keep(rows, MatchesQuery("")) == rows
  {
    if rows != [] {
      assert OccursAt(rows[0].title, "", 0);
      KeepEmptyQuery(rows[1..]);
    }
  }

  /** The ids of the notes a search for `query` returns. */
  function MatchingIds(rows: seq<NoteRow>, query: string): set<nat>
  {
    set row | row in rows && Matches(row, query) :: row.id
  }

  /** The summaries whose note id is in `ids`, in their order. */
  function KeepIds(ss: seq<Summary>, ids: set<nat>): seq<Summary>
  {
    if ss == [] then []
    else (if ss[0].id in ids then [ss[0]] else []) + KeepIds(ss[1..], ids)
  }

  lemma {:induction false} SummariesAppend(a: seq<NoteRow>, b: seq<NoteRow>)
    ensures Summaries(a + b) == Summaries(a) + Summaries(b)
  {
  }

  lemma {:induction false} SummariesKeep(rows: seq<NoteRow>, keep: NoteRow -> bool, ids: set<nat>)
    requires forall x :: x in rows ==> (keep(x) <==> x.id in ids)
    ensures Summaries(Keep(rows, keep)) == KeepIds(Summaries(rows), ids)
  {
    if rows != [] {
      var rest := rows[1..];
      assert forall x :: x in rest ==> x in rows;
      SummariesKeep(rest, keep, ids);
      var head := if keep(rows[0]) then [rows[0]] else [];
      SummariesAppend(head, Keep(rest, keep));
      var ss := Summaries(rows);
      assert ss[0] == SummaryOf(rows[0]) && ss[1..] == Summaries(rest);
    }
  }

  /** The note list holds one summary per row of the notes table, and nothing else. */
  lemma ListingMembers(rows: seq<NoteRow>)
    ensures |Summaries(ByRecency(rows))| == |rows|
    ensures forall k :: 0 <= k < |rows| ==> SummaryOf(rows[k]) in Summaries(ByRecency(rows))
    ensures forall s :: s in Summaries(ByRecency(rows)) ==> exists k :: 0 <= k < |rows| && s == SummaryOf(rows[k])
  {
    var sorted := ByRecency(rows);
    ByRecencySorted(rows);
    assert |multiset(sorted)| == |multiset(rows)|;
    var ss := Summaries(sorted);
    forall k | 0 <= k < |rows| ensures SummaryOf(rows[k]) in ss {
      assert rows[k] in multiset(sorted);
      var j :| 0 <= j < |sorted| && sorted[j] == rows[k];
      assert ss[j] == SummaryOf(rows[k]);
    }
    forall s | s in ss ensures exists k :: 0 <= k < |rows| && s == SummaryOf(rows[k]) {
      var j :| 0 <= j < |ss| && ss[j] == s;
      assert sorted[j] in multiset(rows);
      var k :| 0 <= k < |rows| && rows[k] == sorted[j];
    }
  }

  /** `search_notes` filters with `WHERE` and then sorts; the result is the full
      note list with the summaries of the non-matching notes left out, in the same
      order. */
  lemma SearchIsFilteredListing(rows: seq<NoteRow>, query: string)
    requires NoteIdsIncreasing(rows)
    ensures Summaries(ByRecency(Keep(rows, MatchesQuery(query))))
         == KeepIds(Summaries(ByRecency(rows)), MatchingIds(rows, query))
  {
    var keep := MatchesQuery(query);
    var ids := MatchingIds(rows, query);
    var sorted := ByRecency(rows);
    SortThenKeep(rows, keep);
    ByRecencySorted(rows);
    forall x | x in sorted ensures keep(x) <==> x.id in ids {
      assert x in multiset(rows);
      if x.id in ids {
        var y :| y in rows && Matches(y, query) && y.id == x.id;
        var i :| 0 <= i < |rows| && rows[i] == x;
        var j :| 0 <= j < |rows| && rows[j] == y;
        assert i == j;
      }
    }
    SummariesKeep(sorted, keep, ids);
  }

  /** `SELECT id, title, category, modified_at, mode FROM notes ORDER BY modified_at
      DESC`: one summary per note, newest first, and nothing else. */
  function Listing(rows: seq<NoteRow>): (r: seq<Summary>)
    ensures |r| == |rows|
    ensures forall i, j :: 0 <= i < j < |r| ==> r[i].modifiedAt >= r[j].modifiedAt
    ensures forall k :: 0 <= k < |rows| ==> SummaryOf(rows[k]) in r
    ensures forall s :: s in r ==> exists k :: 0 <= k < |rows| && s == SummaryOf(rows[k])
  {
    ListingMembers(rows);
    ByRecencySorted(rows);
    Summaries(ByRecency(rows))
  }

  /** The same query with `WHERE title LIKE ? OR content LIKE ?`: the full listing,
      in its order, with the notes that do not match left out. An empty query keeps
      every note. */
  function Search(rows: seq<NoteRow>, query: string): (r: seq<Summary>)
    requires NoteIdsIncreasing(rows)
    ensures r == KeepIds(Listing(rows), MatchingIds(rows, query))
    ensures query == "" ==> r == Listing(rows)
  {
    SearchIsFilteredListing(rows, query);
    KeepEmptyQuery(rows);
    Summaries(ByRecency(Keep(rows, MatchesQuery(query))))
  }

  lemma {:induction false} KeepIdsMembers(ss: seq<Summary>, ids: set<nat>)
    ensures forall s :: s in KeepIds(ss, ids) <==> s in ss && s.id in ids
  {
    if ss != [] {
      KeepIdsMembers(ss[1..], ids);
      assert ss == [ss[0]] + ss[1..];
    }
  }

  /** A search returns a note's summary exactly when its title or content holds the
      query, ignoring ASCII case, and returns only summaries of stored notes. */
  lemma SearchMembers(rows: seq<NoteRow>, query: string)
    requires NoteIdsIncreasing(rows)
    ensures forall k :: 0 <= k < |rows| ==> (SummaryOf(rows[k]) in Search(rows, query) <==> Matches(rows[k], query))
    ensures forall s :: s in Search(rows, query) ==> s in Listing(rows)
  {
    var ids := MatchingIds(rows, query);
    KeepIdsMembers(Listing(rows), ids);
    forall k | 0 <= k < |rows| ensures SummaryOf(rows[k]) in Search(rows, query) <==> Matches(rows[k], query) {
      if rows[k].id in ids {
        var y :| y in rows && Matches(y, query) && y.id == rows[k].id;
        var j :| 0 <= j < |rows| && rows[j] == y;
        assert j == k;
      }
    }
  }

  // ---------------------------------------------------------------------------
  // Categories

  /** Sorted by Python's string order, each value once. */
  ghost predicate StrictlyAscending(s: seq<string>)
  {
    forall i, j :: 0 <= i < j < |s| ==> LexLess(s[i], s[j])
  }

  /** The `category` column, skipping the rows where it is empty. */
  function NonEmptyCategories(rows: seq<NoteRow>): (r: seq<string>)
    ensures forall c :: c in r <==> c != "" && exists row :: row in rows && row.category == c
  {
    if rows == [] then []
    else
      assert forall row :: row in rows <==> row == rows[0] || row in rows[1..];
      (if rows[0].category == "" then [] else [rows[0].category]) + NonEmptyCategories(rows[1..])
  }

  /** Adds `c` to a sorted list of distinct strings, unless it is there already. */
  function InsertDistinct(c: string, sorted: seq<string>): (r: seq<string>)
    requires StrictlyAscending(sorted)
    ensures StrictlyAscending(r)
    ensures forall x :: x in r <==> x in sorted || x == c
  {
    if sorted == [] then [c]
    else if c == sorted[0] then sorted
    else if LexLess(c, sorted[0]) then
      assert forall j :: 0 < j < |sorted| ==> LexLess(c, sorted[j]) by {
        forall j | 0 < j < |sorted| ensures LexLess(c, sorted[j]) {
          LexLessTransitive(c, sorted[0], sorted[j]);
        }
      }
      [c] + sorted
    else
      var rest := InsertDistinct(c, sorted[1..]);
      LexLessTotal(c, sorted[0]);
      assert forall x :: x in rest ==> LexLess(sorted[0], x);
      [sorted[0]] + rest
  }

  /** Python's `sorted()` of SQL's `DISTINCT`: each value once, ascending. */
  function SortedDistinct(xs: seq<string>): (r: seq<string>)
    ensures StrictlyAscending(r)
    ensures forall x :: x in r <==> x in xs
  {
    if xs == [] then [] else InsertDistinct(xs[0], SortedDistinct(xs[1..]))
  }

  /** Strict ascent rules out repeated values. */
  lemma AscendingDistinct(s: seq<string>)
    requires StrictlyAscending(s)
    ensures forall i, j :: 0 <= i < j < |s| ==> s[i] != s[j]
  {
    forall i, j | 0 <= i < j < |s| ensures s[i] != s[j] {
      LexLessIrreflexive(s[i]);
    }
  }

  /** `sorted(SELECT DISTINCT category FROM notes WHERE category != "")`: every
      non-empty category in use, once each, in ascending order. */
  function Categories(rows: seq<NoteRow>): (r: seq<string>)
    ensures StrictlyAscending(r)
    ensures forall c :: c in r <==> c != "" && exists row :: row in rows && row.category == c
  {
    SortedDistinct(NonEmptyCategories(rows))
  }
}
