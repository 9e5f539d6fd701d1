/** The order `addNewTodo` sorts the task list into: tasks with a deadline first, by ascending
    deadline, then tasks without one, by ascending priority number. */
module TodoOrder {
  import opened TodoTypes
  import opened Lists

  /** `Before(a, b)`: `a` may stand ahead of `b`. A total preorder; ties are allowed. */
  predicate Before(a: Todo, b: Todo)
  {
    if a.deadline.Some? && b.deadline.Some? then a.deadline.value <= b.deadline.value
    else if a.deadline.Some? then true
    else if b.deadline.Some? then false
    else a.priority <= b.priority
  }

  /** The sort comparator exactly as the add handler writes it: on two equal deadlines it
      answers 1 whichever way round it is asked. */
  function CompareAsWritten(a: Todo, b: Todo): (c: int)
    ensures c < 0 <==> !Before(b, a)
    ensures c > 0 ==> Before(b, a)
    ensures c == 0 ==> Before(a, b) && Before(b, a)
  {
    if a.deadline.Some? && b.deadline.Some? then (if a.deadline.value < b.deadline.value then -1 else 1)
    else if a.deadline.Some? then -1
    else if b.deadline.Some? then 1
    else a.priority - b.priority
  }

  /** The comparator with equal deadlines answered by 0: a consistent comparator whose
      non-positive answers are exactly the pairs of `Before`. */
  function Compare(a: Todo, b: Todo): (c: int)
    ensures c <= 0 <==> Before(a, b)
    ensures c >= 0 <==> Before(b, a)
  {
    if a.deadline.Some? && b.deadline.Some? then
      (if a.deadline.value < b.deadline.value then -1
       else if a.deadline.value == b.deadline.value then 0
       else 1)
    else if a.deadline.Some? then -1
    else if b.deadline.Some? then 1
    else a.priority - b.priority
  }

  function Sign(x: int): int { if x < 0 then -1 else if x == 0 then 0 else 1 }

  /** On two tasks with the same deadline the written comparator claims each is after the other. */
  lemma CompareAsWrittenTieInconsistent(a: Todo, b: Todo)
    requires a.deadline.Some? && a.deadline == b.deadline
    ensures CompareAsWritten(a, b) == 1 && CompareAsWritten(b, a) == 1
    ensures Sign(CompareAsWritten(a, b)) != -Sign(CompareAsWritten(b, a))
  {
  }

  /** The corrected comparator is consistent, and differs from the written one only on ties. */
  lemma CompareConsistent(a: Todo, b: Todo)
    ensures Sign(Compare(a, b)) == -Sign(Compare(b, a))
    ensures !(a.deadline.Some? && a.deadline == b.deadline) ==> Compare(a, b) == CompareAsWritten(a, b)
  {
  }

  lemma BeforeTotal(a: Todo, b: Todo)
    ensures Before(a, b) || Before(b, a)
  {
  }

  lemma BeforeTransitive(a: Todo, b: Todo, c: Todo)
    requires Before(a, b) && Before(b, c)
    ensures Before(a, c)
  {
  }

  /** Every earlier task may stand before every later one. */
  ghost predicate Ordered(s: seq<Todo>)
  {
    forall i, j :: 0 <= i < j < |s| ==> Before(s[i], s[j])
  }

  ghost predicate DeadlinesFirst(s: seq<Todo>)
  {
    forall i, j :: 0 <= i < j < |s| && s[j].deadline.Some? ==> s[i].deadline.Some?
  }

  ghost predicate DeadlinesAscending(s: seq<Todo>)
  {
    forall i, j :: 0 <= i < j < |s| && s[i].deadline.Some? && s[j].deadline.Some? ==>
      s[i].deadline.value <= s[j].deadline.value
  }

  ghost predicate PrioritiesAscending(s: seq<Todo>)
  {
    forall i, j :: 0 <= i < j < |s| && s[i].deadline.None? && s[j].deadline.None? ==>
      s[i].priority <= s[j].priority
  }

  /** The sort order, spelled out: a list is ordered exactly when its deadlined tasks come first,
      their deadlines ascend, and the priorities of the undeadlined tasks ascend. */
  lemma OrderedIff(s: seq<Todo>)
    ensures Ordered(s) <==> DeadlinesFirst(s) && DeadlinesAscending(s) && PrioritiesAscending(s)
  {
    if DeadlinesFirst(s) && DeadlinesAscending(s) && PrioritiesAscending(s) {
      forall i, j | 0 <= i < j < |s| ensures Before(s[i], s[j]) {
        if s[j].deadline.Some? {
          assert s[i].deadline.Some?;
        }
      }
    }
  }

  /** Inserts `x` ahead of the first task it may stand before. */
  function Insert(x: Todo, s: seq<Todo>): (r: seq<Todo>)
    ensures multiset(r) == multiset(s) + multiset{x}
  {
    if s == [] then [x]
    else if Before(x, s[0]) then [x] + s
    else
      assert s == [s[0]] + s[1..];
      [s[0]] + Insert(x, s[1..])
  }

  /** One ordered permutation of `s` (insertion sort). Only `Ordered` and the permutation are
      promised about it; where tasks tie, nothing is said about their relative order. */
  function Sort(s: seq<Todo>): (r: seq<Todo>)
    ensures multiset(r) == multiset(s)
  {
    if s == [] then []
    else
      assert s == [s[0]] + s[1..];
      Insert(s[0], Sort(s[1..]))
  }

  lemma {:induction false} InsertOrdered(x: Todo, s: seq<Todo>)
    requires Ordered(s)
    ensures Ordered(Insert(x, s))
  {
    if s == [] {
    } else if Before(x, s[0]) {
      var r := [x] + s;
      forall i, j | 0 <= i < j < |r| ensures Before(r[i], r[j]) {
        assert r[j] == s[j - 1];
        if i == 0 {
          if j > 1 { BeforeTransitive(x, s[0], s[j - 1]); }
        } else {
          assert r[i] == s[i - 1];
        }
      }
    } else {
      var tail := s[1..];
      assert Ordered(tail) by {
        forall i, j | 0 <= i < j < |tail| ensures Before(tail[i], tail[j]) {
          assert tail[i] == s[i + 1] && tail[j] == s[j + 1];
        }
      }
      InsertOrdered(x, tail);
      var rest := Insert(x, tail);
      forall k | 0 <= k < |rest| ensures Before(s[0], rest[k]) {
        assert rest[k] in multiset(rest);
        if rest[k] == x {
          BeforeTotal(x, s[0]);
        } else {
          assert rest[k] in multiset(tail);
          var j :| 0 <= j < |tail| && tail[j] == rest[k];
          assert s[j + 1] == rest[k];
        }
      }
      var r := [s[0]] + rest;
      assert r == Insert(x, s);
      forall i, j | 0 <= i < j < |r| ensures Before(r[i], r[j]) {
        assert r[j] == rest[j - 1];
        if i > 0 {
          assert r[i] == rest[i - 1];
        }
      }
    }
  }

  lemma {:induction false} SortOrdered(s: seq<Todo>)
    ensures Ordered(Sort(s))
  {
    if s != [] {
      SortOrdered(s[1..]);
      InsertOrdered(s[0], Sort(s[1..]));
    }
  }

  /** Two lists holding the same tasks hold the same ids. */
  lemma SameIds(a: seq<Todo>, b: seq<Todo>)
    requires multiset(a) == multiset(b)
    ensures Ids(a) == Ids(b)
  {
    forall id | id in Ids(a) ensures id in Ids(b) {
      var t :| t in a && t.id == id;
      assert t in multiset(a);
    }
    forall id | id in Ids(b) ensures id in Ids(a) {
      var t :| t in b && t.id == id;
      assert t in multiset(b);
    }
  }

  lemma {:induction false} InsertKeepsIdsUnique(x: Todo, s: seq<Todo>)
    requires DistinctBy(s, IdOf)
    requires x.id !in Ids(s)
    ensures DistinctBy(Insert(x, s), IdOf)
  {
    if s == [] {
    } else if Before(x, s[0]) {
      forall y | y in s ensures IdOf(y) != IdOf(x) {
        assert y.id in Ids(s);
      }
      DistinctCons(x, s, IdOf);
    } else {
      DistinctTail(s, IdOf);
      assert s[0] in s;
      assert x.id !in Ids(s[1..]) by {
        forall t | t in s[1..] ensures t.id != x.id {
          assert t in s;
        }
      }
      InsertKeepsIdsUnique(x, s[1..]);
      var rest := Insert(x, s[1..]);
      forall y | y in rest ensures IdOf(y) != IdOf(s[0]) {
        assert y in multiset(rest);
        if y != x {
          assert y in multiset(s[1..]);
        } else {
          assert s[0].id in Ids(s);
        }
      }
      DistinctCons(s[0], rest, IdOf);
    }
  }

  lemma {:induction false} SortKeepsIdsUnique(s: seq<Todo>)
    requires DistinctBy(s, IdOf)
    ensures DistinctBy(Sort(s), IdOf)
  {
    if s != [] {
      DistinctTail(s, IdOf);
      SortKeepsIdsUnique(s[1..]);
      SameIds(Sort(s[1..]), s[1..]);
      assert s[0].id !in Ids(s[1..]) by {
        forall t | t in s[1..] ensures t.id != s[0].id {
          assert IdOf(t) != IdOf(s[0]);
        }
      }
      InsertKeepsIdsUnique(s[0], Sort(s[1..]));
    }
  }
}
