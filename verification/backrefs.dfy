/** The inverse collections `User.assignedTasks` and `TaskStatus.tasks`. The services edit them
    in memory; loading an entity afresh rebuilds them from the owning side (`Task.assignee`,
    `Task.taskStatus`), which `Reload` models. */
module BackRefs {
  import opened Wrappers
  import opened Entities
  import opened Invariants
  import opened Repositories

  /** `user.addAssignedTask(task)`: task `t` joins the set of user `u`; nothing else changes. */
  function AddAssigned(users: map<Id, User>, u: Id, t: Id): (r: map<Id, User>)
    ensures r.Keys == users.Keys
    ensures forall k :: k in r ==> r[k] == users[k].(assignedTasks := r[k].assignedTasks)
    ensures forall k, x :: k in r ==>
      (x in r[k].assignedTasks <==> x in users[k].assignedTasks || (k == u && x == t))
  {
    if u in users then users[u := users[u].(assignedTasks := users[u].assignedTasks + {t})] else users
  }

  /** `oldAssignee.getAssignedTasks().remove(task)`, when there is an old assignee. */
  function RemoveAssigned(users: map<Id, User>, u: Option<Id>, t: Id): (r: map<Id, User>)
    ensures r.Keys == users.Keys
    ensures forall k :: k in r ==> r[k] == users[k].(assignedTasks := r[k].assignedTasks)
    ensures forall k, x :: k in r ==>
      (x in r[k].assignedTasks <==> x in users[k].assignedTasks && !(u == Some(k) && x == t))
  {
    if u.Some? && u.value in users
    then users[u.value := users[u.value].(assignedTasks := users[u.value].assignedTasks - {t})]
    else users
  }

  /** The store as the next transaction sees it: every inverse collection recomputed from the
      tasks that point at its owner. */
  function Reload(st: Store): (r: Store)
    ensures AssigneeRefsSynced(r) && StatusRefsSynced(r)
    ensures r.tasks == st.tasks && r.labels == st.labels && r.nextId == st.nextId
    ensures r.users.Keys == st.users.Keys && r.statuses.Keys == st.statuses.Keys
    ensures forall u :: u in r.users ==> r.users[u] == st.users[u].(assignedTasks := r.users[u].assignedTasks)
    ensures forall s :: s in r.statuses ==> r.statuses[s] == st.statuses[s].(tasks := r.statuses[s].tasks)
  {
    st.(users := map u | u in st.users :: st.users[u].(assignedTasks := TasksByUser(st, u)),
        statuses := map s | s in st.statuses :: st.statuses[s].(tasks := TasksByStatus(st, s)))
  }

  /** A store whose inverse collections already agree with the owning side is its own reload. */
  lemma {:induction false} ReloadFixesSyncedStores(st: Store)
    requires AssigneeRefsSynced(st) && StatusRefsSynced(st)
    ensures Reload(st) == st
  {
    var r := Reload(st);
    forall u | u in st.users
      ensures r.users[u] == st.users[u]
    {
      assert r.users[u].assignedTasks == TasksByUser(st, u);
      assert forall x :: x in TasksByUser(st, u) <==> x in st.users[u].assignedTasks;
    }
    forall s | s in st.statuses
      ensures r.statuses[s] == st.statuses[s]
    {
      assert r.statuses[s].tasks == TasksByStatus(st, s);
      assert forall x :: x in TasksByStatus(st, s) <==> x in st.statuses[s].tasks;
    }
    assert r.users == st.users;
    assert r.statuses == st.statuses;
  }

  /** Reloading keeps every constraint the database enforces. */
  lemma ReloadKeepsWf(st: Store)
    requires Wf(st)
    ensures Wf(Reload(st))
  {
  }

  /** The assignee change the legacy service performs: task `t` leaves the collection of its old
      assignee `from` and joins that of its new assignee `to`. */
  function MoveAssignment(users: map<Id, User>, from: Option<Id>, to: Option<Id>, t: Id): (r: map<Id, User>)
    ensures r.Keys == users.Keys
    ensures forall k :: k in r ==> r[k] == users[k].(assignedTasks := r[k].assignedTasks)
    ensures forall k, x :: k in r ==>
      (x in r[k].assignedTasks <==>
        (x in users[k].assignedTasks && !(from == Some(k) && x == t)) || (to == Some(k) && x == t))
  {
    var removed := RemoveAssigned(users, from, t);
    if to.Some? then AddAssigned(removed, to.value, t) else removed
  }

  /** Replacing a task by one with the same assignee, and touching no user, keeps the
      collections in step. */
  lemma {:induction false} SameAssigneeKeepsSync(st: Store, st': Store, t: Task)
    requires AssigneeRefsSynced(st)
    requires t.id in st.tasks && st.tasks[t.id].assignee == t.assignee
    requires st'.users == st.users && st'.tasks == st.tasks[t.id := t]
    ensures AssigneeRefsSynced(st')
  {
    forall u, x | u in st'.users
      ensures x in st'.users[u].assignedTasks <==> x in st'.tasks && st'.tasks[x].assignee == Some(u)
    {
      assert x in st.users[u].assignedTasks <==> x in st.tasks && st.tasks[x].assignee == Some(u);
    }
  }

  /** Moving a task from its current assignee to the assignee it now has keeps the collections in
      step with the owning side. */
  lemma {:induction false} MoveKeepsSync(st: Store, st': Store, t: Task, from: Option<Id>)
    requires AssigneeRefsSynced(st)
    requires t.id in st.tasks ==> st.tasks[t.id].assignee == from
    requires t.id !in st.tasks ==> from.None?
    requires st'.users == MoveAssignment(st.users, from, t.assignee, t.id) && st'.tasks == st.tasks[t.id := t]
    ensures AssigneeRefsSynced(st')
  {
    forall u, x | u in st'.users
      ensures x in st'.users[u].assignedTasks <==> x in st'.tasks && st'.tasks[x].assignee == Some(u)
    {
      assert x in st.users[u].assignedTasks <==> x in st.tasks && st.tasks[x].assignee == Some(u);
    }
  }

  /** The database constraints do not look at the assignee collections. */
  lemma WfIgnoresAssignedTasks(st: Store, users: map<Id, User>)
    requires Wf(st)
    requires users.Keys == st.users.Keys
    requires forall k :: k in users ==> users[k] == st.users[k].(assignedTasks := users[k].assignedTasks)
    ensures Wf(st.(users := users))
  {
    var st' := st.(users := users);
    assert forall k :: k in st'.users ==> st'.users[k].email == st.users[k].email && st'.users[k].id == st.users[k].id;
  }
}
