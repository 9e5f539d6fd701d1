/** The state of the `App` component and its event handlers. Each `useState` hook is a field;
    each handler is a method whose setter calls become assignments. Ids that the handlers draw
    from `uuid()` are parameters, required to be fresh. */
module AppState {
  import opened TodoTypes
  import opened TodoOrder
  import Tasks
  import Toasts

  const AddedMessage := "新しいタスクを追加しました"
  const UpdatedMessage := "タスクを更新しました"
  const RemovedMessage := "タスクを削除しました"
  const ClearedMessage := "完了済みタスクを削除しました"

  /** JavaScript truthiness of `editingTodoId`: null and the empty string are false. */
  function IsTruthy(id: Option<Id>): (b: bool)
    ensures id == None ==> !b
    ensures id == Some("") ==> !b
    ensures id.Some? && |id.value| > 0 ==> b
  {
    id.Some? && id.value != ""
  }

  class App {
    var todos: seq<Todo>
    var formState: FormState
    var formErrors: map<string, string>
    var editingTodoId: Option<Id>
    var toasts: seq<Toast>

    /** Task ids and toast ids are each unique. */
    ghost predicate Valid()
      reads this
    {
      Tasks.UniqueIds(todos) && Toasts.UniqueToastIds(toasts)
    }

    /** The state of the first render. */
    constructor ()
      ensures Valid()
      ensures todos == [] && toasts == []
      ensures formState == InitialFormState && formErrors == map[] && editingTodoId == None
    {
      todos := [];
      formState := InitialFormState;
      formErrors := map[];
      editingTodoId := None;
      toasts := [];
    }

    /** `showToast`: appends one toast, with the fresh id, at the end of the queue. */
    method ShowToast(id: Id, message: string, kind: ToastKind)
      requires Valid()
      requires id !in ToastIds(toasts)
      modifies this
      ensures Valid()
      ensures toasts == old(toasts) + [Toast(id, message, kind)]
      ensures ToastIds(toasts) == old(ToastIds(toasts)) + {id}
      ensures todos == old(todos) && formState == old(formState)
      ensures formErrors == old(formErrors) && editingTodoId == old(editingTodoId)
    {
      Toasts.AppendFreshKeepsUnique(toasts, Toast(id, message, kind));
      toasts := toasts + [Toast(id, message, kind)];
    }

    /** The timer of `showToast` firing for the toast with the id. */
    method ExpireToast(id: Id)
      requires Valid()
      modifies this
      ensures Valid()
      ensures toasts == Toasts.Expire(old(toasts), id)
      ensures id !in ToastIds(toasts)
      ensures id !in old(ToastIds(toasts)) ==> toasts == old(toasts)
      ensures todos == old(todos) && formState == old(formState)
      ensures formErrors == old(formErrors) && editingTodoId == old(editingTodoId)
    {
      Toasts.ExpireKeepsUnique(toasts, id);
      if id !in ToastIds(toasts) {
        Toasts.ExpireAbsentIsNoop(toasts, id);
      }
      toasts := Toasts.Expire(toasts, id);
    }

    /** `updateIsDone`. */
    method UpdateIsDone(id: Id, value: bool)
      requires Valid()
      modifies this
      ensures Valid()
      ensures todos == Tasks.UpdateIsDone(old(todos), id, value)
      ensures formState == old(formState) && formErrors == old(formErrors)
      ensures editingTodoId == old(editingTodoId) && toasts == old(toasts)
    {
      Tasks.UpdateTodoKeepsIds(todos, id, Tasks.Patch(None, Some(value), None, None, None));
      todos := Tasks.UpdateIsDone(todos, id, value);
    }

    /** `cancelEditing`. */
    method CancelEditing(id: Id)
      requires Valid()
      modifies this
      ensures Valid()
      ensures todos == Tasks.CancelEditing(old(todos), id)
      ensures formState == old(formState) && formErrors == old(formErrors)
      ensures editingTodoId == old(editingTodoId) && toasts == old(toasts)
    {
      Tasks.UpdateTodoKeepsIds(todos, id, Tasks.Patch(None, None, None, None, Some(false)));
      todos := Tasks.CancelEditing(todos, id);
    }

    /** `updateTodo`. */
    method UpdateTodo(id: Id, patch: Tasks.Patch)
      requires Valid()
      modifies this
      ensures Valid()
      ensures todos == Tasks.UpdateTodo(old(todos), id, patch)
      ensures formState == old(formState) && formErrors == old(formErrors)
      ensures editingTodoId == old(editingTodoId) && toasts == old(toasts)
    {
      Tasks.UpdateTodoKeepsIds(todos, id, patch);
      todos := Tasks.UpdateTodo(todos, id, patch);
    }

    /** The name input of the form. */
    method ChangeName(name: string)
      requires Valid()
      modifies this
      ensures Valid()
      ensures formState == old(formState).(name := name)
      ensures todos == old(todos) && formErrors == old(formErrors)
      ensures editingTodoId == old(editingTodoId) && toasts == old(toasts)
    {
      formState := formState.(name := name);
    }

    /** The priority select of the form. */
    method ChangePriority(priority: int)
      requires Valid()
      modifies this
      ensures Valid()
      ensures formState == old(formState).(priority := priority)
      ensures todos == old(todos) && formErrors == old(formErrors)
      ensures editingTodoId == old(editingTodoId) && toasts == old(toasts)
    {
      formState := formState.(priority := priority);
    }

    /** The deadline input of the form; an empty input gives None. */
    method ChangeDeadline(deadline: Option<int>)
      requires Valid()
      modifies this
      ensures Valid()
      ensures formState == old(formState).(deadline := deadline)
      ensures todos == old(todos) && formErrors == old(formErrors)
      ensures editingTodoId == old(editingTodoId) && toasts == old(toasts)
    {
      formState := formState.(deadline := deadline);
    }

    /** `addNewTodo`. An invalid name only records the errors. A valid one adds the task built
        from the draft, sorts the list, resets the draft and the errors and shows a toast. */
    method AddNewTodo(todoId: Id, toastId: Id)
      requires Valid()
      requires todoId !in Ids(todos) && toastId !in ToastIds(toasts)
      modifies this
      ensures Valid()
      ensures editingTodoId == old(editingTodoId)
      ensures !Tasks.NameIsValid(old(formState).name) ==>
        && formErrors == Tasks.ValidateForm(old(formState).name)
        && todos == old(todos) && formState == old(formState) && toasts == old(toasts)
      ensures Tasks.NameIsValid(old(formState).name) ==>
        && Ordered(todos)
        && multiset(todos) == multiset(old(todos)) + multiset{Tasks.NewTodo(todoId, old(formState))}
        && |todos| == |old(todos)| + 1
        && Ids(todos) == Ids(old(todos)) + {todoId}
        && formState == InitialFormState && formErrors == map[]
        && toasts == old(toasts) + [Toast(toastId, AddedMessage, Success)]
    {
      var errors := Tasks.ValidateForm(formState.name);
      if |errors.Keys| > 0 {
        formErrors := errors;
        return;
      }
      var t := Tasks.NewTodo(todoId, formState);
      Tasks.AddTodoKeepsIdsUnique(todos, t);
      todos := Tasks.AddTodo(todos, t);
      formState := InitialFormState;
      formErrors := map[];
      ShowToast(toastId, AddedMessage, Success);
    }

    /** `startEditing`: marks the id as being edited and, when a task has it, loads that task
        into the draft. */
    method StartEditing(id: Id)
      requires Valid()
      modifies this
      ensures Valid()
      ensures editingTodoId == Some(id)
      ensures forall i :: 0 <= i < |todos| && todos[i].id == id ==> formState == Tasks.FormOf(todos[i])
      ensures id !in Ids(todos) ==> formState == old(formState)
      ensures todos == old(todos) && formErrors == old(formErrors) && toasts == old(toasts)
    {
      editingTodoId := Some(id);
      var found := Tasks.Find(todos, id);
      if found.Some? {
        var t := found.value;
        formState := Tasks.FormOf(t);
      }
      forall i | 0 <= i < |todos| && todos[i].id == id ensures found == Some(todos[i]) {
        Tasks.FindUnique(todos, i);
      }
    }

    /** `saveEdit`: with no task being edited nothing happens; otherwise the task with that id
        takes the draft's fields, no task is being edited any more, and a toast is shown. The
        draft itself is kept. */
    method SaveEdit(toastId: Id)
      requires Valid()
      requires toastId !in ToastIds(toasts)
      modifies this
      ensures Valid()
      ensures formState == old(formState) && formErrors == old(formErrors)
      ensures !IsTruthy(old(editingTodoId)) ==>
        todos == old(todos) && editingTodoId == old(editingTodoId) && toasts == old(toasts)
      ensures IsTruthy(old(editingTodoId)) ==>
        && todos == Tasks.MergeForm(old(todos), old(editingTodoId).value, old(formState))
        && editingTodoId == None
        && toasts == old(toasts) + [Toast(toastId, UpdatedMessage, Success)]
    {
      if IsTruthy(editingTodoId) {
        var id := editingTodoId.value;
        Tasks.UpdateTodoKeepsIds(todos, id, Tasks.Patch(Some(formState.name), None, Some(formState.priority), Some(formState.deadline), None));
        todos := Tasks.MergeForm(todos, id, formState);
        editingTodoId := None;
        ShowToast(toastId, UpdatedMessage, Success);
      }
    }

    /** `cancelEdit`: no task is being edited and the draft is reset; the tasks are untouched. */
    method CancelEdit()
      requires Valid()
      modifies this
      ensures Valid()
      ensures editingTodoId == None && formState == InitialFormState
      ensures todos == old(todos) && formErrors == old(formErrors) && toasts == old(toasts)
    {
      editingTodoId := None;
      formState := InitialFormState;
    }

    /** `remove`: drops the task with the id and shows a toast. */
    method Remove(id: Id, toastId: Id)
      requires Valid()
      requires toastId !in ToastIds(toasts)
      modifies this
      ensures Valid()
      ensures todos == Tasks.Remove(old(todos), id)
      ensures id in old(Ids(todos)) ==> |todos| == |old(todos)| - 1
      ensures id !in old(Ids(todos)) ==> todos == old(todos)
      ensures toasts == old(toasts) + [Toast(toastId, RemovedMessage, Info)]
      ensures formState == old(formState) && formErrors == old(formErrors)
      ensures editingTodoId == old(editingTodoId)
    {
      Tasks.RemoveKeepsIdsUnique(todos, id);
      if id in Ids(todos) {
        Tasks.RemovePresentShrinksByOne(todos, id);
      } else {
        Tasks.RemoveAbsentIsNoop(todos, id);
      }
      todos := Tasks.Remove(todos, id);
      ShowToast(toastId, RemovedMessage, Info);
    }

    /** `removeCompletedTodos`: keeps the tasks that are not done and shows a toast. */
    method RemoveCompletedTodos(toastId: Id)
      requires Valid()
      requires toastId !in ToastIds(toasts)
      modifies this
      ensures Valid()
      ensures todos == Tasks.RemoveCompleted(old(todos))
      ensures Tasks.UncompletedCount(todos) == |todos| == Tasks.UncompletedCount(old(todos))
      ensures toasts == old(toasts) + [Toast(toastId, ClearedMessage, Info)]
      ensures formState == old(formState) && formErrors == old(formErrors)
      ensures editingTodoId == old(editingTodoId)
    {
      Tasks.RemoveCompletedKeepsIdsUnique(todos);
      Tasks.RemoveCompletedCount(todos);
      todos := Tasks.RemoveCompleted(todos);
      ShowToast(toastId, ClearedMessage, Info);
    }
  }
}
