/** The in-memory records of the note store: a note and the checklist items it owns. */
module Models {

  datatype Option<+T> = None | Some(value: T)

  /** A point in time. The program stamps rows with the wall clock; the model takes the
      clock reading from the caller and only relies on timestamps being ordered. */
  type Timestamp = int

  /** Which of a note's two representations is edited: free text ("normal") or a
      checklist ("task"). These are the two strings the notes table stores. */
  datatype Mode = Normal | Task

  /** One checklist item; `id` is None until the item has been stored. */
  datatype TaskItem = TaskItem(content: string, done: bool, id: Option<nat>)

  /** A note as the editor holds it. `id`, `createdAt` and `modifiedAt` are None for
      a note that has never been stored. Both `content` and `tasks` are kept whatever
      the mode. */
  datatype Note = Note(
    title: string,
    content: string,
    tasks: seq<TaskItem>,
    mode: Mode,
    category: string,
    id: Option<nat>,
    createdAt: Option<Timestamp>,
    modifiedAt: Option<Timestamp>)

  /** The other mode. */
  function Flip(m: Mode): (r: Mode)
    ensures r != m
  {
    match m
    case Normal => Task
    case Task => Normal
  }

  /** `Note(title=...)` with every other field at its declared default: no content,
      no tasks, normal mode, no category, never stored. */
  function FreshNote(title: string): Note
  {
    Note(title, "", [], Normal, "", None, None, None)
  }

  /** A new checklist item as the task view creates it: not done, not yet stored. */
  function NewTask(content: string): TaskItem
  {
    TaskItem(content, false, None)
  }
}
