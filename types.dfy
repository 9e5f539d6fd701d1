/** The records the to-do app keeps in its component state. */
module TodoTypes {

  datatype Option<+T> = None | Some(value: T)

  /** Task and toast ids are the strings `uuid()` produces; the model only compares them. */
  type Id = string

  /** A task. `deadline` is the instant as a millisecond timestamp (None for `null`);
      `isEditing` is an optional flag, None while the key is absent. */
  datatype Todo = Todo(
    id: Id,
    name: string,
    isDone: bool,
    priority: int,
    deadline: Option<int>,
    isEditing: Option<bool>)

  /** The draft shared by the add form and the edit form. */
  datatype FormState = FormState(name: string, priority: int, deadline: Option<int>)

  /** The draft the form starts from and is reset to: empty name, priority 3 (low), no deadline. */
  const InitialFormState := FormState("", 3, None)

  datatype ToastKind = Success | Error | Info

  datatype Toast = Toast(id: Id, message: string, kind: ToastKind)

  function IdOf(t: Todo): Id { t.id }

  function ToastIdOf(t: Toast): Id { t.id }

  /** The ids present in a task list. */
  function Ids(s: seq<Todo>): set<Id> { set t | t in s :: t.id }

  /** The ids present in a toast queue. */
  function ToastIds(q: seq<Toast>): set<Id> { set t | t in q :: t.id }
}
