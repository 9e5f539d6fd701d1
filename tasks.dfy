/** The task-list transforms of the `App` component: each takes the previous list and returns
    the next one, as the state setters in the handlers do. */
module Tasks {
  import opened TodoTypes
  import opened Lists
  import opened TodoOrder

  /** Task ids are unique within the list. */
  ghost predicate UniqueIds(s: seq<Todo>) { DistinctBy(s, IdOf) }

  /** A partial update of a task's fields other than `id`; None stands for an absent key. */
  datatype Patch = Patch(
    name: Option<string>,
    isDone: Option<bool>,
    priority: Option<int>,
    deadline: Option<Option<int>>,
    isEditing: Option<bool>)

  /** The object spread `{ ...t, ...p }`: every key present in `p` overrides `t`'s field. */
  function Apply(t: Todo, p: Patch): (r: Todo)
    ensures r.id == t.id
    ensures p.name.Some? ==> r.name == p.name.value
    ensures p.name.None? ==> r.name == t.name
    ensures p.isDone.Some? ==> r.isDone == p.isDone.value
    ensures p.isDone.None? ==> r.isDone == t.isDone
    ensures p.priority.Some? ==> r.priority == p.priority.value
    ensures p.priority.None? ==> r.priority == t.priority
    ensures p.deadline.Some? ==> r.deadline == p.deadline.value
    ensures p.deadline.None? ==> r.deadline == t.deadline
    ensures p.isEditing.Some? ==> r.isEditing == p.isEditing
    ensures p.isEditing.None? ==> r.isEditing == t.isEditing
    ensures p == Patch(None, None, None, None, None) ==> r == t
  {
    Todo(
      t.id,
      if p.name.Some? then p.name.value else t.name,
      if p.isDone.Some? then p.isDone.value else t.isDone,
      if p.priority.Some? then p.priority.value else t.priority,
      if p.deadline.Some? then p.deadline.value else t.deadline,
      if p.isEditing.Some? then p.isEditing else t.isEditing)
  }

  /** `updateTodo`: every task with the given id gets the patch; all other tasks, the length,
      the order and every id stay as they were. */
  function UpdateTodo(s: seq<Todo>, id: Id, p: Patch): (r: seq<Todo>)
    ensures |r| == |s|
    ensures forall i :: 0 <= i < |s| ==> r[i].id == s[i].id
    ensures forall i :: 0 <= i < |s| && s[i].id != id ==> r[i] == s[i]
    ensures forall i :: 0 <= i < |s| && s[i].id == id ==> r[i] == Apply(s[i], p)
  {
    if s == [] then []
    else [if s[0].id == id then Apply(s[0], p) else s[0]] + UpdateTodo(s[1..], id, p)
  }

  /** An update that names an id not in the list is a no-op. */
  lemma {:induction false} UpdateTodoAbsentIsNoop(s: seq<Todo>, id: Id, p: Patch)
    requires id !in Ids(s)
    ensures UpdateTodo(s, id, p) == s
  {
    if s != [] {
      assert s[0] in s;
      assert id !in Ids(s[1..]) by {
        forall t | t in s[1..] ensures t.id != id { assert t in s; }
      }
      UpdateTodoAbsentIsNoop(s[1..], id, p);
      assert s == [s[0]] + s[1..];
    }
  }

  /** Updates keep the set of ids and their uniqueness. */
  lemma UpdateTodoKeepsIds(s: seq<Todo>, id: Id, p: Patch)
    ensures Ids(UpdateTodo(s, id, p)) == Ids(s)
    ensures UniqueIds(s) ==> UniqueIds(UpdateTodo(s, id, p))
  {
    var r := UpdateTodo(s, id, p);
    forall x | x in Ids(r) ensures x in Ids(s) {
      var t :| t in r && t.id == x;
      var i :| 0 <= i < |r| && r[i] == t;
      assert s[i] in s;
    }
    forall x | x in Ids(s) ensures x in Ids(r) {
      var t :| t in s && t.id == x;
      var i :| 0 <= i < |s| && s[i] == t;
      assert r[i] in r;
    }
  }

  /** `updateIsDone`: the task with the id gets `isDone := value`; nothing else changes. */
  function UpdateIsDone(s: seq<Todo>, id: Id, value: bool): (r: seq<Todo>)
    ensures |r| == |s|
    ensures forall i :: 0 <= i < |s| ==> r[i] == if s[i].id == id then s[i].(isDone := value) else s[i]
  {
    UpdateTodo(s, id, Patch(None, Some(value), None, None, None))
  }

  /** `cancelEditing`: the task with the id gets `isEditing := false`; nothing else changes. */
  function CancelEditing(s: seq<Todo>, id: Id): (r: seq<Todo>)
    ensures |r| == |s|
    ensures forall i :: 0 <= i < |s| ==> r[i] == if s[i].id == id then s[i].(isEditing := Some(false)) else s[i]
  {
    UpdateTodo(s, id, Patch(None, None, None, None, Some(false)))
  }

  /** The draft of a task, as the edit form shows it. */
  function FormOf(t: Todo): FormState { FormState(t.name, t.priority, t.deadline) }

  /** The list update of `saveEdit`, `{ ...todo, ...formState }`: the task with the id takes the
      draft's name, priority and deadline and keeps its id, `isDone` and `isEditing`. */
  function MergeForm(s: seq<Todo>, id: Id, f: FormState): (r: seq<Todo>)
    ensures |r| == |s|
    ensures forall i :: 0 <= i < |s| ==>
      r[i] == if s[i].id == id then s[i].(name := f.name, priority := f.priority, deadline := f.deadline) else s[i]
  {
    UpdateTodo(s, id, Patch(Some(f.name), None, Some(f.priority), Some(f.deadline), None))
  }

  /** Saving a draft loaded from a task, unchanged, leaves the list as it was. */
  lemma SaveUnchangedFormIsNoop(s: seq<Todo>, k: nat)
    requires UniqueIds(s) && k < |s|
    ensures MergeForm(s, s[k].id, FormOf(s[k])) == s
  {
  }

  /** Saving an edit does not sort again: an edit of a deadline can leave an ordered list out of
      order until the next add sorts it. */
  lemma EditCanBreakOrder()
    ensures var s := [Todo("a", "aa", false, 3, Some(1), None), Todo("b", "bb", false, 3, Some(2), None)];
      Ordered(s) && !Ordered(MergeForm(s, "a", FormState("aa", 3, Some(3))))
  {
    var s := [Todo("a", "aa", false, 3, Some(1), None), Todo("b", "bb", false, 3, Some(2), None)];
    var r := MergeForm(s, "a", FormState("aa", 3, Some(3)));
    assert r[0].deadline == Some(3) && r[1].deadline == Some(2);
    assert !Before(r[0], r[1]);
  }

  /** `todos.find`: the first task with the id, if any. */
  function Find(s: seq<Todo>, id: Id): (r: Option<Todo>)
    ensures r.None? <==> id !in Ids(s)
    ensures r.Some? ==> r.value in s && r.value.id == id
    ensures r.Some? ==> exists k :: 0 <= k < |s| && s[k] == r.value && forall j :: 0 <= j < k ==> s[j].id != id
  {
    if s == [] then None
    else if s[0].id == id then Some(s[0])
    else
      assert forall t :: t in s ==> t == s[0] || t in s[1..];
      Find(s[1..], id)
  }

  /** With unique ids, `find` returns the one task that has the id. */
  lemma FindUnique(s: seq<Todo>, k: nat)
    requires UniqueIds(s) && k < |s|
    ensures Find(s, s[k].id) == Some(s[k])
  {
    assert s[k] in s;
    var t := Find(s, s[k].id).value;
    var i :| 0 <= i < |s| && s[i] == t;
  }

  /** The filter test of `remove`: the task does not have the id. */
  function OtherThan(id: Id): Todo -> bool { (t: Todo) => t.id != id }

  /** `remove`: the tasks that do not have the id, in their original order. */
  function Remove(s: seq<Todo>, id: Id): (r: seq<Todo>)
    ensures forall t :: t in r <==> t in s && t.id != id
    ensures forall t :: multiset(r)[t] == if t.id == id then 0 else multiset(s)[t]
    ensures IsSubseq(r, s)
    ensures id !in Ids(r)
  {
    FilterIsSubseq(s, OtherThan(id));
    FilterMultiset(s, OtherThan(id));
    Filter(s, OtherThan(id))
  }

  /** Removing an id that is not in the list is a no-op. */
  lemma RemoveAbsentIsNoop(s: seq<Todo>, id: Id)
    requires id !in Ids(s)
    ensures Remove(s, id) == s
  {
    forall t | t in s ensures t.id != id { assert t.id in Ids(s); }
    FilterAllKept(s, OtherThan(id));
  }

  /** With unique ids, removing a present id shortens the list by exactly one. */
  lemma {:induction false} RemovePresentShrinksByOne(s: seq<Todo>, id: Id)
    requires UniqueIds(s) && id in Ids(s)
    ensures |Remove(s, id)| == |s| - 1
  {
    DistinctTail(s, IdOf);
    if s[0].id == id {
      assert id !in Ids(s[1..]) by {
        forall t | t in s[1..] ensures t.id != id { assert IdOf(t) != IdOf(s[0]); }
      }
      RemoveAbsentIsNoop(s[1..], id);
    } else {
      assert id in Ids(s[1..]) by {
        var t :| t in s && t.id == id;
        assert t != s[0];
        assert s == [s[0]] + s[1..];
      }
      RemovePresentShrinksByOne(s[1..], id);
    }
  }

  /** Removing keeps ids unique. */
  lemma RemoveKeepsIdsUnique(s: seq<Todo>, id: Id)
    requires UniqueIds(s)
    ensures UniqueIds(Remove(s, id))
  {
    FilterKeepsDistinct(s, OtherThan(id), IdOf);
  }

  predicate IsPending(t: Todo) { !t.isDone }

  /** `removeCompletedTodos`: exactly the tasks that are not done, in their original order. */
  function RemoveCompleted(s: seq<Todo>): (r: seq<Todo>)
    ensures forall t :: t in r <==> t in s && !t.isDone
    ensures forall t :: multiset(r)[t] == if t.isDone then 0 else multiset(s)[t]
    ensures IsSubseq(r, s)
  {
    FilterIsSubseq(s, IsPending);
    FilterMultiset(s, IsPending);
    Filter(s, IsPending)
  }

  lemma RemoveCompletedKeepsIdsUnique(s: seq<Todo>)
    requires UniqueIds(s)
    ensures UniqueIds(RemoveCompleted(s))
  {
    FilterKeepsDistinct(s, IsPending, IdOf);
  }

  /** `uncompletedCount`: how many tasks are not done. It equals the list length exactly when no
      task is done. */
  function UncompletedCount(s: seq<Todo>): (n: nat)
    ensures n <= |s|
    ensures n == |s| <==> forall t :: t in s ==> !t.isDone
  {
    |Filter(s, IsPending)|
  }

  /** After removing the completed tasks every remaining task counts as uncompleted, and the
      count itself is unchanged. */
  lemma RemoveCompletedCount(s: seq<Todo>)
    ensures UncompletedCount(RemoveCompleted(s)) == |RemoveCompleted(s)| == UncompletedCount(s)
  {
    FilterIdempotent(s, IsPending);
  }

  const NameLengthError := "2文字以上、32文字以内で入力してください"

  /** A task name is accepted when it is 2 to 32 characters long. */
  predicate NameIsValid(name: string) { 2 <= |name| <= 32 }

  /** `validateForm`: no error for a valid name, otherwise exactly one error, under the key
      "name", holding the length message. */
  function ValidateForm(name: string): (errors: map<string, string>)
    ensures errors.Keys == if NameIsValid(name) then {} else {"name"}
    ensures "name" in errors ==> errors["name"] == NameLengthError
  {
    if |name| < 2 || |name| > 32 then map["name" := NameLengthError] else map[]
  }

  /** The task `addNewTodo` builds from the draft. */
  function NewTodo(id: Id, f: FormState): (t: Todo)
    ensures t.id == id && FormOf(t) == f
    ensures !t.isDone && t.isEditing.None?
  {
    Todo(id, f.name, false, f.priority, f.deadline, None)
  }

  /** The list update of `addNewTodo`: the new task appended, then the whole list sorted. The
      result is ordered and holds exactly the old tasks plus the new one. */
  function AddTodo(s: seq<Todo>, t: Todo): (r: seq<Todo>)
    ensures Ordered(r)
    ensures multiset(r) == multiset(s) + multiset{t}
    ensures |r| == |s| + 1
  {
    SortOrdered(s + [t]);
    assert |multiset(Sort(s + [t]))| == |multiset(s + [t])|;
    Sort(s + [t])
  }

  /** A fresh id keeps the ids unique after an add. */
  lemma AddTodoKeepsIdsUnique(s: seq<Todo>, t: Todo)
    requires UniqueIds(s) && t.id !in Ids(s)
    ensures UniqueIds(AddTodo(s, t))
    ensures Ids(AddTodo(s, t)) == Ids(s) + {t.id}
  {
    forall y | y in s ensures IdOf(y) != IdOf(t) { assert y.id in Ids(s); }
    DistinctSnoc(s, t, IdOf);
    SortKeepsIdsUnique(s + [t]);
    SameIds(AddTodo(s, t), s + [t]);
    assert Ids(s + [t]) == Ids(s) + {t.id} by {
      assert forall u :: u in s + [t] <==> u in s || u == t;
    }
  }

  /** A task whose deadline is earlier than every existing deadline is placed first. */
  lemma EarliestDeadlineFirst(s: seq<Todo>, t: Todo)
    requires t.deadline.Some?
    requires forall u :: u in s && u.deadline.Some? ==> t.deadline.value < u.deadline.value
    ensures AddTodo(s, t)[0] == t
  {
    var r := AddTodo(s, t);
    assert t in multiset(r);
    var k :| 0 <= k < |r| && r[k] == t;
    assert r[0] in multiset(r);
  }

  /** An undeadlined task with a smaller priority number than an existing undeadlined task is
      placed ahead of it. */
  lemma HigherPriorityFirst(s: seq<Todo>, t: Todo, u: Todo)
    requires t.deadline.None? && u.deadline.None?
    requires u in s && t.priority < u.priority
    ensures forall i, j ::
      (0 <= i < |AddTodo(s, t)| && 0 <= j < |AddTodo(s, t)| && AddTodo(s, t)[i] == t && AddTodo(s, t)[j] == u) ==> i < j
  {
  }
}
