/** The repository queries the services call, as functions of the store. */
module Repositories {
  import opened Wrappers
  import opened Entities
  import opened Invariants
  import opened Failures

  /** The outcome of `findByX` on a unique column: no row, one row, or (never under the
      unique constraint) several rows, which Spring Data reports as an error. */
  datatype Lookup = NoMatch | Match(key: Id) | Ambiguous

  lemma HasElement(s: set<Id>)
    requires |s| > 0
    ensures exists x :: x in s
  {
    if forall x :: x !in s {
      assert false;
    }
  }

  lemma SizeOneIsSingleton(s: set<Id>)
    requires |s| == 1
    ensures exists x :: s == {x}
  {
    HasElement(s);
    var x :| x in s;
    assert |s - {x}| == 0;
    assert s == {x};
  }

  /** A set whose members are all equal has at most one member. */
  lemma AtMostOne(s: set<Id>)
    ensures (forall a, b :: a in s && b in s ==> a == b) ==> |s| <= 1
  {
    if |s| > 1 {
      HasElement(s);
      var a :| a in s;
      HasElement(s - {a});
    }
  }

  /** The single-result reading of a set of matching keys. */
  function FromKeys(ks: set<Id>): (r: Lookup)
    ensures r.NoMatch? <==> ks == {}
    ensures r.Match? ==> ks == {r.key}
    ensures r.Ambiguous? ==> |ks| > 1
    ensures |ks| == 1 ==> r.Match?
  {
    if ks == {} then NoMatch
    else if |ks| == 1 then
      SizeOneIsSingleton(ks);
      var k :| ks == {k};
      Match(k)
    else Ambiguous
  }

  /** `TaskStatusRepository.findBySlug`; a null slug matches no row. */
  function FindStatusBySlug(st: Store, slug: Option<string>): (r: Lookup)
    ensures r.NoMatch? <==> forall k :: k in st.statuses ==> Some(st.statuses[k].slug) != slug
    ensures r.Match? ==> r.key in st.statuses && Some(st.statuses[r.key].slug) == slug
    ensures UniqueSlugs(st) ==> !r.Ambiguous?
  {
    var ks := set k | k in st.statuses && Some(st.statuses[k].slug) == slug;
    assert forall k :: k in st.statuses && Some(st.statuses[k].slug) == slug ==> k in ks;
    assert (forall k :: k in st.statuses ==> Some(st.statuses[k].slug) != slug) ==> ks == {};
    assert UniqueSlugs(st) ==> forall a, b :: a in ks && b in ks ==> a == b;
    AtMostOne(ks);
    FromKeys(ks)
  }

  /** `UserRepository.findByEmail`. */
  function FindUserByEmail(st: Store, email: string): (r: Lookup)
    ensures r.NoMatch? <==> forall k :: k in st.users ==> st.users[k].email != email
    ensures r.Match? ==> r.key in st.users && st.users[r.key].email == email
    ensures UniqueEmails(st) ==> !r.Ambiguous?
  {
    var ks := set k | k in st.users && st.users[k].email == email;
    assert forall k :: k in st.users && st.users[k].email == email ==> k in ks;
    assert (forall k :: k in st.users ==> st.users[k].email != email) ==> ks == {};
    assert UniqueEmails(st) ==> forall a, b :: a in ks && b in ks ==> a == b;
    AtMostOne(ks);
    FromKeys(ks)
  }

  predicate ExistsUserByEmail(st: Store, email: string) {
    exists k :: k in st.users && st.users[k].email == email
  }

  predicate ExistsStatusByName(st: Store, name: string) {
    exists k :: k in st.statuses && st.statuses[k].name == name
  }

  predicate ExistsStatusBySlug(st: Store, slug: string) {
    exists k :: k in st.statuses && st.statuses[k].slug == slug
  }

  predicate ExistsLabelByName(st: Store, name: string) {
    exists k :: k in st.labels && st.labels[k].name == name
  }

  /** `LabelRepository.existsByIdAndTasksIsNotEmpty`: the label exists and some task's label
      set (the join table) holds it. */
  predicate ExistsLabelInUse(st: Store, labelId: Id) {
    labelId in st.labels && exists t :: t in st.tasks && labelId in st.tasks[t].labels
  }

  /** The tasks `SELECT COUNT(t) ... WHERE t.assignee.id = :userId` counts. */
  function TasksByUser(st: Store, userId: Id): set<Id> {
    set t | t in st.tasks && st.tasks[t].assignee == Some(userId)
  }

  function TasksByStatus(st: Store, statusId: Id): set<Id> {
    set t | t in st.tasks && st.tasks[t].status == statusId
  }

  /** `TaskRepository.existsTasksByUser`: `COUNT(t) > 0`. */
  predicate ExistsTasksByUser(st: Store, userId: Id) {
    |TasksByUser(st, userId)| > 0
  }

  /** `TaskRepository.existsTasksByStatus`: `COUNT(t) > 0`. */
  predicate ExistsTasksByStatus(st: Store, statusId: Id) {
    |TasksByStatus(st, statusId)| > 0
  }

  /** The derived queries `existsByAssigneeId` and `existsByTaskStatusId`. */
  predicate ExistsByAssigneeId(st: Store, assigneeId: Id) {
    exists t :: t in st.tasks && st.tasks[t].assignee == Some(assigneeId)
  }

  predicate ExistsByTaskStatusId(st: Store, statusId: Id) {
    exists t :: t in st.tasks && st.tasks[t].status == statusId
  }

  /** The counting query holds exactly when some task is assigned to the user; a task without
      an assignee never counts. Both queries on the assignee agree. */
  lemma ExistsTasksByUserIff(st: Store, userId: Id)
    ensures ExistsTasksByUser(st, userId) <==>
      exists t :: t in st.tasks && st.tasks[t].assignee.Some? && st.tasks[t].assignee.value == userId
    ensures ExistsTasksByUser(st, userId) == ExistsByAssigneeId(st, userId)
  {
    var s := TasksByUser(st, userId);
    if |s| > 0 {
      HasElement(s);
    }
    if exists t :: t in st.tasks && st.tasks[t].assignee == Some(userId) {
      var t :| t in st.tasks && st.tasks[t].assignee == Some(userId);
      assert t in s;
    }
  }

  /** The counting query holds exactly when some task has the status; both status queries agree. */
  lemma ExistsTasksByStatusIff(st: Store, statusId: Id)
    ensures ExistsTasksByStatus(st, statusId) <==> exists t :: t in st.tasks && st.tasks[t].status == statusId
    ensures ExistsTasksByStatus(st, statusId) == ExistsByTaskStatusId(st, statusId)
  {
    var s := TasksByStatus(st, statusId);
    if |s| > 0 {
      HasElement(s);
    }
    if exists t :: t in st.tasks && st.tasks[t].status == statusId {
      var t :| t in st.tasks && st.tasks[t].status == statusId;
      assert t in s;
    }
  }

  /** `taskRepository.save(task)`: bean validation refuses a task without a usable name;
      otherwise the row is written under its id and the id generator moves past it. */
  function SaveTask(st: Store, t: Task): (r: Result<Store, Failure>)
    ensures r.Ok? <==> ValidTaskName(t.name)
    ensures r.Err? ==> r.error == ConstraintViolation(TaskKind)
    ensures r.Ok? ==> r.value.tasks == st.tasks[t.id := t]
    ensures r.Ok? ==> r.value.nextId >= st.nextId && r.value.nextId > t.id
    ensures r.Ok? ==> r.value.users == st.users && r.value.statuses == st.statuses && r.value.labels == st.labels
  {
    if !ValidTaskName(t.name) then Err(ConstraintViolation(TaskKind))
    else Ok(st.(tasks := st.tasks[t.id := t], nextId := if t.id < st.nextId then st.nextId else t.id + 1))
  }

  /** `delete` or `deleteById` on a loaded status: the `task_status_id` foreign key of the task
      table makes the database refuse while any task still references the status. */
  function DeleteStatusRow(st: Store, id: Id): (r: Result<Store, Failure>)
    ensures r.Err? <==> exists t :: t in st.tasks && st.tasks[t].status == id
    ensures r.Err? ==> r.error == ReferencedRow(StatusKind)
    ensures r.Ok? ==> r.value == st.(statuses := st.statuses - {id})
  {
    if ExistsByTaskStatusId(st, id) then Err(ReferencedRow(StatusKind))
    else Ok(st.(statuses := st.statuses - {id}))
  }

  /** `userRepository.deleteById`: an unknown id is ignored; the `assignee_id` foreign key of the
      task table makes the database refuse while any task is still assigned to the user. */
  function DeleteUserRow(st: Store, id: Id): (r: Result<Store, Failure>)
    ensures r.Err? <==> id in st.users && exists t :: t in st.tasks && st.tasks[t].assignee == Some(id)
    ensures r.Err? ==> r.error == ReferencedRow(UserKind)
    ensures r.Ok? ==> r.value == st.(users := st.users - {id})
  {
    if id in st.users && ExistsByAssigneeId(st, id) then Err(ReferencedRow(UserKind))
    else Ok(st.(users := st.users - {id}))
  }
}
