/** The note store: the two tables of the SQLite file and the operations of
    `NotesDB`, each a statement sequence over them. */
module Store {
  import opened Models
  import opened Tables

  /** The database file. `noteSeq` and `taskSeq` are the largest rowids the two
      AUTOINCREMENT tables have ever handed out; deleted ids are never reused. */
  class NotesDB {
    var notes: seq<NoteRow>
    var tasks: seq<TaskRow>
    var noteSeq: nat
    var taskSeq: nat

    ghost predicate Valid()
      reads this
    {
      WellNumbered(notes, tasks, noteSeq, taskSeq)
    }

    /** Every task row belongs to a stored note. */
    ghost predicate Consistent()
      reads this
    {
      NoOrphans(notes, tasks)
    }

    /** `init_database()` on a file that has no tables yet. */
    constructor ()
      ensures Valid() && Consistent()
      ensures notes == [] && tasks == [] && noteSeq == 0 && taskSeq == 0
    {
      notes := [];
      tasks := [];
      noteSeq := 0;
      taskSeq := 0;
    }

    /** `save_note(note)`: an INSERT for a note without an id (which it then
        carries), an UPDATE of its row otherwise; then the note's task rows are
        deleted and its checklist inserted one row at a time. */
    method SaveNote(note: Note, now: Timestamp) returns (id: nat, saved: Note)
      requires Valid()
      modifies this
      ensures Valid()
      ensures id == SaveId(note, old(noteSeq)) && saved == note.(id := Some(id))
      ensures notes == SavedRows(old(notes), note, id, now)
      ensures tasks == ReplaceTasks(old(tasks), id, note.tasks, old(taskSeq) + 1)
      ensures noteSeq == if note.id.None? then old(noteSeq) + 1 else old(noteSeq)
      ensures taskSeq == old(taskSeq) + |note.tasks|
      ensures note.id.None? ==>
        LoadFrom(notes, tasks, id) == Some(saved.(tasks := Unnumbered(note.tasks),
                                    createdAt := Some(now), modifiedAt := Some(now)))
      ensures old(HasNote(notes, id)) ==>
        LoadFrom(notes, tasks, id) == Some(saved.(tasks := Unnumbered(note.tasks),
                                    createdAt := LoadFrom(old(notes), old(tasks), id).value.createdAt,
                                    modifiedAt := Some(now)))
      ensures forall other :: other != id ==> LoadFrom(notes, tasks, other) == LoadFrom(old(notes), old(tasks), other)
      ensures old(Consistent()) && (note.id.None? || old(HasNote(notes, id))) ==> Consistent()
      ensures !old(HasNote(notes, id)) && note.id.Some? && note.tasks != [] ==> !Consistent()
    {
      ghost var notes0, tasks0, firstId := notes, tasks, taskSeq + 1;
      SaveWellNumbered(notes0, tasks0, noteSeq, taskSeq, note, now);
      if note.id.None? {
        noteSeq := noteSeq + 1;
        id := noteSeq;
        notes := notes + [InsertedRow(id, note, now)];
      } else {
        id := note.id.value;
        notes := UpdatedRows(notes, id, note, now);
      }
      saved := note.(id := Some(id));

      tasks := DropTasksOf(tasks, id);
      InsertTasks(id, note.tasks);
      SaveEffects(notes0, tasks0, note, id, now, firstId);
    }

    /** The loop of `save_note` that inserts a checklist, one row per item, each
        under the next rowid of the tasks table. */
    method InsertTasks(noteId: nat, items: seq<TaskItem>)
      modifies this
      ensures tasks == old(tasks) + NumberedTasks(noteId, items, old(taskSeq) + 1)
      ensures taskSeq == old(taskSeq) + |items|
      ensures notes == old(notes) && noteSeq == old(noteSeq)
    {
      for k := 0 to |items|
        invariant tasks == old(tasks) + NumberedTasks(noteId, items[..k], old(taskSeq) + 1)
        invariant taskSeq == old(taskSeq) + k
        invariant notes == old(notes) && noteSeq == old(noteSeq)
      {
        taskSeq := taskSeq + 1;
        tasks := tasks + [TaskRow(taskSeq, noteId, items[k].content, items[k].done)];
        assert NumberedTasks(noteId, items[..k + 1], old(taskSeq) + 1)
            == NumberedTasks(noteId, items[..k], old(taskSeq) + 1)
               + [TaskRow(old(taskSeq) + 1 + k, noteId, items[k].content, items[k].done)];
      }
      assert items[..|items|] == items;
    }

    /** `delete_note(note_id)`: the note's row, then its task rows. */
    method DeleteNote(id: nat)
      requires Valid()
      modifies this
      ensures Valid()
      ensures notes == WithoutNote(old(notes), id) && tasks == DropTasksOf(old(tasks), id)
      ensures noteSeq == old(noteSeq) && taskSeq == old(taskSeq)
      ensures LoadFrom(notes, tasks, id).None? && TasksOf(tasks, id) == []
      ensures forall other :: other != id ==> LoadFrom(notes, tasks, other) == LoadFrom(old(notes), old(tasks), other)
      ensures old(Consistent()) ==> Consistent()
      ensures old(Consistent()) && !old(HasNote(notes, id)) ==> notes == old(notes) && tasks == old(tasks)
    {
      ghost var notes0, tasks0 := notes, tasks;
      notes := WithoutNote(notes, id);
      tasks := DropTasksOf(tasks, id);

      DeleteWellNumbered(notes0, tasks0, noteSeq, taskSeq, id);

      DeleteThenLoad(notes0, tasks0, id, id);
      forall other | other != id ensures LoadFrom(notes, tasks, other) == LoadFrom(notes0, tasks0, other) {
        DeleteThenLoad(notes0, tasks0, id, other);
      }
      if NoOrphans(notes0, tasks0) {
        DeleteKeepsOwnership(notes0, tasks0, id);
        if !HasNote(notes0, id) {
          DeleteMissingUnchanged(notes0, tasks0, id);
        }
      }
    }
  }
}
