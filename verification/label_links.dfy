/** `Label.addTask` and `Label.removeTask`, which edit both sides of the many-to-many relation:
    the label's `tasks` list and the task's `labels` set. */
module LabelLinks {
  import opened Entities

  /** `List.remove(Object)`: drops the first occurrence of `x`, if any. */
  function RemoveFirst(s: seq<Id>, x: Id): (r: seq<Id>)
    ensures x in s ==> |r| == |s| - 1
    ensures x !in s ==> r == s
    ensures multiset(r) == multiset(s) - multiset{x}
  {
    if |s| == 0 then []
    else
      assert s == [s[0]] + s[1..];
      if s[0] == x then s[1..] else [s[0]] + RemoveFirst(s[1..], x)
  }

  /** Removing drops exactly the first occurrence and keeps the order of everything else: with
      `k` the first index holding `x`, the result is the list without position `k`. */
  lemma {:induction false} RemoveFirstAt(s: seq<Id>, x: Id, k: nat)
    requires k < |s| && s[k] == x && x !in s[..k]
    ensures RemoveFirst(s, x) == s[..k] + s[k + 1..]
  {
    if k > 0 {
      assert s[..k][0] == s[0];
      assert s[1..][..k - 1] == s[..k][1..];
      RemoveFirstAt(s[1..], x, k - 1);
      assert s[..k] == [s[0]] + s[1..][..k - 1];
    }
  }

  /** Appending `x` and then removing it gives back the list when `x` was not there before. */
  lemma {:induction false} RemoveAfterAppend(s: seq<Id>, x: Id)
    requires x !in s
    ensures RemoveFirst(s + [x], x) == s
  {
    if |s| > 0 {
      assert (s + [x])[1..] == s[1..] + [x];
      RemoveAfterAppend(s[1..], x);
    }
  }

  /** `label.addTask(task)`: the task joins the label's list and the label joins the task's
      set. */
  function AddTask(l: Label, t: Task): (r: (Label, Task))
    ensures r.0 == l.(tasks := r.0.tasks) && r.1 == t.(labels := r.1.labels)
    ensures r.0.tasks == l.tasks + [t.id]
    ensures r.1.labels == t.labels + {l.id}
  {
    (l.(tasks := l.tasks + [t.id]), t.(labels := t.labels + {l.id}))
  }

  /** `label.removeTask(task)`: the first entry for the task leaves the label's list and the
      label leaves the task's set. */
  function RemoveTask(l: Label, t: Task): (r: (Label, Task))
    ensures r.0 == l.(tasks := r.0.tasks) && r.1 == t.(labels := r.1.labels)
    ensures multiset(r.0.tasks) == multiset(l.tasks) - multiset{t.id}
    ensures r.1.labels == t.labels - {l.id}
  {
    (l.(tasks := RemoveFirst(l.tasks, t.id)), t.(labels := t.labels - {l.id}))
  }

  /** The two sides agree about the pair. */
  predicate Linked(l: Label, t: Task) {
    t.id in l.tasks && l.id in t.labels
  }

  predicate Unlinked(l: Label, t: Task) {
    t.id !in l.tasks && l.id !in t.labels
  }

  /** Linking an unlinked pair and unlinking it again restores both entities. */
  lemma AddThenRemoveRestores(l: Label, t: Task)
    requires Unlinked(l, t)
    ensures Linked(AddTask(l, t).0, AddTask(l, t).1)
    ensures RemoveTask(AddTask(l, t).0, AddTask(l, t).1) == (l, t)
  {
    RemoveAfterAppend(l.tasks, t.id);
    assert t.labels + {l.id} - {l.id} == t.labels;
  }

  /** Removing a pair the label lists once leaves both sides unlinked. */
  lemma RemoveUnlinks(l: Label, t: Task)
    requires multiset(l.tasks)[t.id] <= 1
    ensures Unlinked(RemoveTask(l, t).0, RemoveTask(l, t).1)
  {
    var r := RemoveTask(l, t).0.tasks;
    assert multiset(r)[t.id] == 0;
  }

  /** The list admits duplicates while the set does not: adding a task twice and removing it
      once leaves the task in the label's list but the label out of the task's set. */
  lemma AddTwiceRemoveOnceDisagrees(l: Label, t: Task)
    requires Unlinked(l, t)
    ensures var (l1, t1) := AddTask(l, t);
      var (l2, t2) := AddTask(l1, t1);
      var (l3, t3) := RemoveTask(l2, t2);
      t.id in l3.tasks && l.id !in t3.labels
  {
    var (l1, t1) := AddTask(l, t);
    var (l2, t2) := AddTask(l1, t1);
    var (l3, t3) := RemoveTask(l2, t2);
    assert multiset(l2.tasks)[t.id] == 2;
    assert multiset(l3.tasks)[t.id] == 1;
  }
}
