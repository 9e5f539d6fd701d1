/** The toast queue: `showToast` appends a toast, and its timer later filters that toast out. */
module Toasts {
  import opened TodoTypes
  import opened Lists

  /** Toast ids are unique within the queue. */
  ghost predicate UniqueToastIds(q: seq<Toast>) { DistinctBy(q, ToastIdOf) }

  /** `showToast` appends a toast with a fresh id: the ids stay unique. */
  lemma AppendFreshKeepsUnique(q: seq<Toast>, t: Toast)
    requires UniqueToastIds(q) && t.id !in ToastIds(q)
    ensures UniqueToastIds(q + [t])
    ensures ToastIds(q + [t]) == ToastIds(q) + {t.id}
  {
    forall y | y in q ensures ToastIdOf(y) != ToastIdOf(t) { assert y.id in ToastIds(q); }
    DistinctSnoc(q, t, ToastIdOf);
  }

  /** The filter test of the timer callback: the toast does not have the id. */
  function OtherThan(id: Id): Toast -> bool { (t: Toast) => t.id != id }

  /** The timer callback of `showToast`: every toast with the id is filtered out, the others
      keep their order. */
  function Expire(q: seq<Toast>, id: Id): (r: seq<Toast>)
    ensures forall t :: t in r <==> t in q && t.id != id
    ensures forall t :: multiset(r)[t] == if t.id == id then 0 else multiset(q)[t]
    ensures id !in ToastIds(r)
    ensures IsSubseq(r, q)
  {
    FilterIsSubseq(q, OtherThan(id));
    FilterMultiset(q, OtherThan(id));
    Filter(q, OtherThan(id))
  }

  /** Expiring an id that is no longer queued (the toast is already gone) is a no-op. */
  lemma ExpireAbsentIsNoop(q: seq<Toast>, id: Id)
    requires id !in ToastIds(q)
    ensures Expire(q, id) == q
  {
    forall t | t in q ensures t.id != id { assert t.id in ToastIds(q); }
    FilterAllKept(q, OtherThan(id));
  }

  /** A second expiry of the same id changes nothing. */
  lemma ExpireTwiceIsExpireOnce(q: seq<Toast>, id: Id)
    ensures Expire(Expire(q, id), id) == Expire(q, id)
  {
    ExpireAbsentIsNoop(Expire(q, id), id);
  }

  /** The expiry of a toast removes that toast only: the toasts queued before it come back
      unchanged, and the toasts queued after it lose only toasts with the same id. */
  lemma ShowThenExpire(before: seq<Toast>, t: Toast, after: seq<Toast>)
    requires t.id !in ToastIds(before)
    ensures Expire(before + [t] + after, t.id) == before + Expire(after, t.id)
  {
    var keep := OtherThan(t.id);
    FilterAppend(before + [t], after, keep);
    FilterAppend(before, [t], keep);
    ExpireAbsentIsNoop(before, t.id);
    assert Filter([t], keep) == [];
    assert Filter(before + [t], keep) == before;
  }

  /** Expiry keeps toast ids unique. */
  lemma ExpireKeepsUnique(q: seq<Toast>, id: Id)
    requires UniqueToastIds(q)
    ensures UniqueToastIds(Expire(q, id))
  {
    FilterKeepsDistinct(q, OtherThan(id), ToastIdOf);
  }
}
