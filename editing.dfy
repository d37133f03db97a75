/** The editor of the main window with its widgets stripped away: the note being
    edited, the two views that change it in place, and the commands of
    `NoteApp` that move it between the editor and the store. What a widget holds
    (the title and category entries, the text box, the check boxes, the answer to
    the title dialog) is a parameter. */
module Editing {
  import opened Models
  import opened Text
  import opened Tables
  import opened Store
  import opened NoteList

  // ---------------------------------------------------------------------------
  // Edits of the open note, as values

  /** The note after the title and category entries are read into it. */
  function WithForm(n: Note, titleEntry: string, categoryEntry: string): Note
  {
    n.(title := Strip(titleEntry), category := Strip(categoryEntry))
  }

  /** What the editor holds once its view is flushed: the stripped text of the text
      box in normal mode; a checklist view has nothing to flush. */
  function Flushed(n: Note, viewText: string): Note
  {
    if n.mode == Normal then n.(content := Strip(viewText)) else n
  }

  /** `toggle_mode` on an open note. */
  function Toggled(n: Note, viewText: string): Note
  {
    Flushed(n, viewText).(mode := Flip(n.mode))
  }

  /** Two toggles restore the mode and leave title, category, checklist, id and
      timestamps as they were; the content ends up as the stripped text of the box
      flushed on the normal-mode side. */
  lemma ToggleTwice(n: Note, first: string, second: string)
    ensures var r := Toggled(Toggled(n, first), second);
      && r.mode == n.mode
      && r == n.(content := r.content)
      && r.content == if n.mode == Normal then Strip(first) else Strip(second)
  {
  }

  /** A checklist note whose text box is opened and left as it was comes back
      unchanged: the box hands back its text with a newline added, which
      stripping removes again. */
  lemma ToggleTwiceUntouched(n: Note, first: string)
    requires n.mode == Task && Strip(n.content) == n.content
    ensures Toggled(Toggled(n, first), n.content + "\n") == n
  {
    assert IsSpace('\n');
    StripIgnoresTrailingSpace(n.content, '\n');
  }

  /** `add_task`: the entry's stripped text becomes a new unchecked item at the
      end, unless it is empty. */
  function WithTask(tasks: seq<TaskItem>, entry: string): seq<TaskItem>
  {
    var content := Strip(entry);
    if content != "" then tasks + [NewTask(content)] else tasks
  }

  /** Adding keeps every item and appends one, not done and not yet stored, whose
      text is neither empty nor surrounded by whitespace; a blank entry adds none. */
  lemma WithTaskAppends(tasks: seq<TaskItem>, entry: string)
    ensures var r := WithTask(tasks, entry);
      && r[..|tasks|] == tasks
      && |r| == |tasks| + (if Strip(entry) == "" then 0 else 1)
      && (|r| > |tasks| ==>
            && r[|tasks|] == TaskItem(Strip(entry), false, None)
            && !IsSpace(r[|tasks|].content[0])
            && !IsSpace(r[|tasks|].content[|r[|tasks|].content| - 1]))
    ensures WithTask(tasks, entry) == tasks <==> forall k :: 0 <= k < |entry| ==> IsSpace(entry[k])
  {
    StripBlank(entry);
    StripTrims(entry);
    if Strip(entry) != "" {
      assert |WithTask(tasks, entry)| != |tasks|;
    }
  }

  /** `delete_task(index)`: the item at `index` goes when there is one; an index
      out of range changes nothing. */
  function WithoutTask(tasks: seq<TaskItem>, index: int): seq<TaskItem>
  {
    if 0 <= index < |tasks| then tasks[..index] + tasks[index + 1..] else tasks
  }

  /** Deleting removes exactly the item at `index`: those before it stay where they
      are, those after it move up by one, and no other item goes. */
  lemma WithoutTaskRemovesOne(tasks: seq<TaskItem>, index: int)
    requires 0 <= index < |tasks|
    ensures var r := WithoutTask(tasks, index);
      && |r| == |tasks| - 1
      && (forall k :: 0 <= k < index ==> r[k] == tasks[k])
      && (forall k :: index <= k < |r| ==> r[k] == tasks[k + 1])
      && multiset(r) + multiset{tasks[index]} == multiset(tasks)
  {
    assert tasks == tasks[..index] + [tasks[index]] + tasks[index + 1..];
  }

  /** `update_task_states`: every item takes the state of its check box. */
  function WithDoneFlags(tasks: seq<TaskItem>, checks: seq<bool>): seq<TaskItem>
    requires |checks| == |tasks|
  {
    seq(|tasks|, k requires 0 <= k < |tasks| => tasks[k].(done := checks[k]))
  }

  // ---------------------------------------------------------------------------
  // The application

  class NoteApp {
    /** `current_note`: the note open in the editor, if any. */
    var currentNote: Option<Note>

    /** The open note, if it has an id, is a stored note. Every command keeps this,
        which is what keeps saves from writing task rows for a missing note. */
    ghost predicate Synced(db: NotesDB)
      reads this, db
    {
      currentNote.Some? && currentNote.value.id.Some? ==> HasNote(db.notes, currentNote.value.id.value)
    }

    /** The application starts with no note open. */
    constructor ()
      ensures currentNote.None?
    {
      currentNote := None;
    }

    /** `NoteView.update_note`: the stripped text of the text box becomes the
        content of the open note. */
    method UpdateNote(viewText: string)
      requires currentNote.Some?
      modifies this
      ensures currentNote == Some(old(currentNote).value.(content := Strip(viewText)))
    {
      currentNote := Some(currentNote.value.(content := Strip(viewText)));
    }

    /** `TaskView.add_task`. */
    method AddTask(entry: string)
      requires currentNote.Some?
      modifies this
      ensures currentNote == Some(old(currentNote).value.(tasks := WithTask(old(currentNote).value.tasks, entry)))
    {
      var content := Strip(entry);
      if content != "" {
        var n := currentNote.value;
        currentNote := Some(n.(tasks := n.tasks + [NewTask(content)]));
      }
    }

    /** `TaskView.delete_task`. */
    method DeleteTask(index: int)
      requires currentNote.Some?
      modifies this
      ensures currentNote == Some(old(currentNote).value.(tasks := WithoutTask(old(currentNote).value.tasks, index)))
    {
      var n := currentNote.value;
      if 0 <= index < |n.tasks| {
        currentNote := Some(n.(tasks := n.tasks[..index] + n.tasks[index + 1..]));
      }
    }

    /** `TaskView.update_task_states`: one check box per item, in order, each
        copied into the `done` flag of its item. */
    method UpdateTaskStates(checks: seq<bool>)
      requires currentNote.Some? && |checks| == |currentNote.value.tasks|
      modifies this
      ensures currentNote == Some(old(currentNote).value.(tasks := WithDoneFlags(old(currentNote).value.tasks, checks)))
    {
      var n := currentNote.value;
      var items := n.tasks;
      for i := 0 to |checks|
        invariant |items| == |n.tasks|
        invariant forall k :: 0 <= k < i ==> items[k] == n.tasks[k].(done := checks[k])
        invariant forall k :: i <= k < |items| ==> items[k] == n.tasks[k]
      {
        items := items[i := items[i].(done := checks[i])];
      }
      assert items == WithDoneFlags(n.tasks, checks);
      currentNote := Some(n.(tasks := items));
    }

    /** `new_note`: a non-empty answer to the title dialog, taken as typed, is saved
        as a new empty note, which becomes the open note. */
    method NewNote(db: NotesDB, answer: Option<string>, now: Timestamp)
      requires db.Valid()
      modifies this, db
      ensures db.Valid()
      ensures answer.None? || answer.value == "" ==> currentNote == old(currentNote) && unchanged(db)
      ensures answer.Some? && answer.value != "" ==>
        var id := old(db.noteSeq) + 1;
        && currentNote == Some(FreshNote(answer.value).(id := Some(id)))
        && db.notes == SavedRows(old(db.notes), FreshNote(answer.value), id, now)
        && db.tasks == ReplaceTasks(old(db.tasks), id, [], old(db.taskSeq) + 1)
        && db.noteSeq == id && db.taskSeq == old(db.taskSeq)
        && LoadFrom(db.notes, db.tasks, id) == Some(FreshNote(answer.value).(id := Some(id), createdAt := Some(now), modifiedAt := Some(now)))
        && (forall other :: other != id ==> LoadFrom(db.notes, db.tasks, other) == LoadFrom(old(db.notes), old(db.tasks), other))
        && Synced(db)
      ensures old(Synced(db)) ==> Synced(db)
      ensures old(db.Consistent()) ==> db.Consistent()
    {
      if answer.Some? && answer.value != "" {
        var note := FreshNote(answer.value);
        var id, saved := db.SaveNote(note, now);
        currentNote := Some(saved);
      }
    }

    /** `load_note(note_id)`: the stored note becomes the open note; an id with no
        note leaves the editor as it was. */
    method LoadNote(db: NotesDB, id: nat)
      modifies this
      ensures currentNote == if LoadFrom(db.notes, db.tasks, id).Some? then LoadFrom(db.notes, db.tasks, id) else old(currentNote)
      ensures old(Synced(db)) ==> Synced(db)
    {
      var note := LoadFrom(db.notes, db.tasks, id);
      if note.Some? {
        currentNote := note;
      }
    }

    /** `toggle_mode`: flush the text box when in normal mode, then switch to the
        other mode. Nothing happens without an open note. */
    method ToggleMode(viewText: string)
      modifies this
      ensures old(currentNote).None? ==> currentNote.None?
      ensures old(currentNote).Some? ==> currentNote == Some(Toggled(old(currentNote).value, viewText))
      ensures currentNote.Some? ==> currentNote.value.id == old(currentNote).value.id
    {
      if currentNote.None? {
        return;
      }
      if currentNote.value.mode == Normal {
        UpdateNote(viewText);
      }
      var n := currentNote.value;
      currentNote := Some(n.(mode := Flip(n.mode)));
    }

    /** `save_note`: the stripped entries become title and category; an empty title
        stops here, with the store untouched. Otherwise the text box is flushed in
        normal mode and the note saved; the open note takes its id but keeps the
        timestamps it had. */
    method SaveNote(db: NotesDB, titleEntry: string, categoryEntry: string, viewText: string, now: Timestamp)
      requires db.Valid()
      modifies this, db
      ensures db.Valid()
      ensures old(currentNote).None? ==> currentNote.None? && unchanged(db)
      ensures old(currentNote).Some? && Strip(titleEntry) == "" ==>
        currentNote == Some(WithForm(old(currentNote).value, titleEntry, categoryEntry)) && unchanged(db)
      ensures old(currentNote).Some? && Strip(titleEntry) != "" ==>
        var n := Flushed(WithForm(old(currentNote).value, titleEntry, categoryEntry), viewText);
        var id := SaveId(n, old(db.noteSeq));
        && currentNote == Some(n.(id := Some(id)))
        && db.notes == SavedRows(old(db.notes), n, id, now)
        && db.tasks == ReplaceTasks(old(db.tasks), id, n.tasks, old(db.taskSeq) + 1)
        && db.noteSeq == (if n.id.None? then old(db.noteSeq) + 1 else old(db.noteSeq))
        && db.taskSeq == old(db.taskSeq) + |n.tasks|
      ensures old(Synced(db)) ==> Synced(db)
      ensures old(Synced(db)) && old(db.Consistent()) ==> db.Consistent()
      ensures old(Synced(db)) && old(currentNote).Some? && Strip(titleEntry) != "" ==>
        var n := currentNote.value;
        && n.id.Some?
        && LoadFrom(db.notes, db.tasks, n.id.value)
             == Some(n.(tasks := Unnumbered(n.tasks),
                        createdAt := if old(currentNote).value.id.None? then Some(now)
                                     else LoadFrom(old(db.notes), old(db.tasks), n.id.value).value.createdAt,
                        modifiedAt := Some(now)))
    {
      if currentNote.None? {
        return;
      }
      var n := WithForm(currentNote.value, titleEntry, categoryEntry);
      currentNote := Some(n);
      if n.title == "" {
        return;
      }
      n := Flushed(n, viewText);
      var id, saved := db.SaveNote(n, now);
      currentNote := Some(saved);
    }

    /** `delete_note` with the line lookup corrected: the note on the selected line
        of the list as shown is deleted and the editor closed, once the user
        confirms. */
    method DeleteSelected(db: NotesDB, query: string, selected: string, selection: Option<nat>, confirmed: bool)
      requires db.Valid()
      modifies this, db
      ensures db.Valid()
      ensures selection.None? || !confirmed || Selected(old(db.notes), query, selected, selection.value).None? ==>
        currentNote == old(currentNote) && unchanged(db)
      ensures selection.Some? && confirmed && Selected(old(db.notes), query, selected, selection.value).Some? ==>
        var id := Selected(old(db.notes), query, selected, selection.value).value;
        && currentNote.None?
        && db.notes == WithoutNote(old(db.notes), id) && db.tasks == DropTasksOf(old(db.tasks), id)
        && db.noteSeq == old(db.noteSeq) && db.taskSeq == old(db.taskSeq)
        && LoadFrom(db.notes, db.tasks, id).None? && TasksOf(db.tasks, id) == []
        && (forall other :: other != id ==> LoadFrom(db.notes, db.tasks, other) == LoadFrom(old(db.notes), old(db.tasks), other))
      ensures old(Synced(db)) ==> Synced(db)
      ensures old(db.Consistent()) ==> db.Consistent()
    {
      if selection.None? || !confirmed {
        return;
      }
      var id := Selected(db.notes, query, selected, selection.value);
      if id.Some? {
        db.DeleteNote(id.value);
        currentNote := None;
      }
    }

    /** `on_note_select` with the line lookup corrected: the note on the selected
        line of the list as shown is opened. */
    method OpenSelected(db: NotesDB, query: string, selected: string, selection: Option<nat>)
      requires db.Valid()
      modifies this
      ensures selection.Some? && Selected(db.notes, query, selected, selection.value).Some? ==>
        && currentNote.Some? && currentNote.value.id == Selected(db.notes, query, selected, selection.value)
        && currentNote == LoadFrom(db.notes, db.tasks, Selected(db.notes, query, selected, selection.value).value)
      ensures selection.None? || Selected(db.notes, query, selected, selection.value).None? ==>
        currentNote == old(currentNote)
      ensures old(Synced(db)) ==> Synced(db)
    {
      if selection.None? {
        return;
      }
      var id := Selected(db.notes, query, selected, selection.value);
      if id.Some? {
        SelectedOpensShownNote(db.notes, db.tasks, query, selected, selection.value);
        LoadNote(db, id.value);
      }
    }
  }
}
