/** The write side of the persistence effect: after every change of the task list the list is
    written to the storage slot, but only when it is non-empty. */
module Storage {
  import opened TodoTypes

  /** The slot's content after the effect has run for `todos`; None while the key is absent. */
  function WriteSlot(slot: Option<seq<Todo>>, todos: seq<Todo>): (r: Option<seq<Todo>>)
    ensures |todos| > 0 ==> r == Some(todos)
    ensures |todos| == 0 ==> r == slot
  {
    if |todos| > 0 then Some(todos) else slot
  }

  /** The slot after the effect has run for each list of `history` in turn. */
  function WriteAll(slot: Option<seq<Todo>>, history: seq<seq<Todo>>): (r: Option<seq<Todo>>)
    ensures (forall k :: 0 <= k < |history| ==> history[k] == []) ==> r == slot
    ensures r == slot || exists k :: 0 <= k < |history| && history[k] != [] && r == Some(history[k])
    decreases |history|
  {
    if history == [] then slot
    else WriteAll(WriteSlot(slot, history[0]), history[1..])
  }

  /** The last non-empty list of a history, or `slot` when there is none. */
  function LastNonEmpty(slot: Option<seq<Todo>>, history: seq<seq<Todo>>): Option<seq<Todo>>
    decreases |history|
  {
    if history == [] then slot
    else if |history[|history| - 1]| > 0 then Some(history[|history| - 1])
    else LastNonEmpty(slot, history[..|history| - 1])
  }

  /** The slot always holds the last non-empty list the app had: emptying the list (deleting
      the last task, or clearing the completed ones) is never written, so the previous list is
      what a later load finds. */
  lemma {:induction false} SlotHoldsLastNonEmpty(slot: Option<seq<Todo>>, history: seq<seq<Todo>>)
    ensures WriteAll(slot, history) == LastNonEmpty(slot, history)
    decreases |history|
  {
    if history != [] {
      var n := |history| - 1;
      WriteAllSnoc(slot, history[..n], history[n]);
      assert history == history[..n] + [history[n]];
      SlotHoldsLastNonEmpty(slot, history[..n]);
    }
  }

  lemma {:induction false} WriteAllSnoc(slot: Option<seq<Todo>>, history: seq<seq<Todo>>, last: seq<Todo>)
    ensures WriteAll(slot, history + [last]) == WriteSlot(WriteAll(slot, history), last)
    decreases |history|
  {
    if history == [] {
      assert [] + [last] == [last];
    } else {
      assert (history + [last])[1..] == history[1..] + [last];
      WriteAllSnoc(WriteSlot(slot, history[0]), history[1..], last);
    }
  }

  /** Once the slot holds a non-empty list it never holds an empty one again. */
  lemma SlotNeverEmptied(slot: Option<seq<Todo>>, history: seq<seq<Todo>>)
    requires slot.Some? && |slot.value| > 0
    ensures WriteAll(slot, history).Some? && |WriteAll(slot, history).value| > 0
  {
    SlotHoldsLastNonEmpty(slot, history);
    LastNonEmptyIsNonEmpty(slot, history);
  }

  lemma {:induction false} LastNonEmptyIsNonEmpty(slot: Option<seq<Todo>>, history: seq<seq<Todo>>)
    requires slot.Some? && |slot.value| > 0
    ensures LastNonEmpty(slot, history).Some? && |LastNonEmpty(slot, history).value| > 0
    decreases |history|
  {
    if history != [] && |history[|history| - 1]| == 0 {
      LastNonEmptyIsNonEmpty(slot, history[..|history| - 1]);
    }
  }
}
