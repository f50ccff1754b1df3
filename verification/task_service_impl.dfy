/** `TaskServiceImpl`: create and update delegate everything to the mapper and save; delete
    detaches the task from its assignee's collection and removes it. No path adds the task to an
    assignee's collection. */
module TaskServiceImpl {
  import opened Wrappers
  import Text
  import opened Entities
  import opened Invariants
  import opened Failures
  import opened Repositories
  import opened BackRefs
  import opened TaskMapper

  /** `create`: map the request (resolving its relations), then save under a fresh id. */
  function Create(st: Store, dto: TaskCreateDto, day: Day): (r: Result<(Store, Task), Failure>)
    ensures r.Ok? ==> r.value.1.id == st.nextId && r.value.0.tasks == st.tasks[st.nextId := r.value.1]
    ensures r.Ok? ==> r.value.0.users == st.users && r.value.0.statuses == st.statuses && r.value.0.labels == st.labels
    ensures r.Ok? ==> r.value.1.name == dto.title && r.value.1.description == dto.content && r.value.1.index == dto.index
    ensures r.Ok? ==> r.value.1.status in st.statuses && Some(st.statuses[r.value.1.status].slug) == dto.status
    ensures r.Ok? ==> r.value.1.assignee == dto.assigneeId
    ensures r.Ok? ==> r.value.1.labels == if dto.taskLabelIds.None? then {} else dto.taskLabelIds.value
    ensures r.Ok? <==> PopulateTaskRelationships(st, dto).Ok? && ValidTaskName(dto.title)
    ensures PopulateTaskRelationships(st, dto).Err? ==> r == Err(PopulateTaskRelationships(st, dto).error)
    ensures PopulateTaskRelationships(st, dto).Ok? && !ValidTaskName(dto.title) ==> r == Err(ConstraintViolation(TaskKind))
  {
    var t :- MapCreate(st, dto, st.nextId, day);
    var st' :- SaveTask(st, t);
    Ok((st', t))
  }

  /** The outcome of a create request, stated from the request alone: it succeeds exactly when
      the status is given and names a status, the assignee and labels given exist, and the title
      passes validation. A request whose relations resolve but whose title is blank fails at the
      save, as a constraint violation. */
  lemma CreateRequestOutcome(st: Store, dto: TaskCreateDto, day: Day)
    requires UniqueSlugs(st)
    ensures var r := Create(st, dto, day);
      && (r.Ok? <==>
            && dto.status.Some? && !Text.IsBlank(dto.status.value)
            && (exists k :: k in st.statuses && st.statuses[k].slug == dto.status.value)
            && (dto.assigneeId.Some? ==> dto.assigneeId.value in st.users)
            && (dto.taskLabelIds.Some? ==> dto.taskLabelIds.value <= st.labels.Keys)
            && ValidTaskName(dto.title))
      && (PopulateTaskRelationships(st, dto).Ok? && !ValidTaskName(dto.title) ==> r == Err(ConstraintViolation(TaskKind)))
  {
    PopulateOutcome(st, dto);
  }

  /** Creating a task keeps the store consistent, and the new task is stored under a fresh id. */
  lemma CreateKeepsWf(st: Store, dto: TaskCreateDto, day: Day)
    requires Wf(st)
    ensures Create(st, dto, day).Ok? ==>
      var (st', t) := Create(st, dto, day).value;
      Wf(st') && t.id !in st.tasks && st'.tasks == st.tasks[t.id := t]
  {
    if Create(st, dto, day).Ok? {
      PopulateOutcome(st, dto);
    }
  }

  /** `update`: an unknown id fails; otherwise the mapper applies the request and the result is
      saved. The assignee collections are left as they were. */
  function Update(st: Store, id: Id, dto: TaskUpdateDto): (r: Result<(Store, Task), Failure>)
    ensures id !in st.tasks ==> r == Err(NotFound(TaskKind, id))
    ensures r.Ok? ==> id in st.tasks && r.value.1.id == st.tasks[id].id
    ensures r.Ok? ==> r.value.0.tasks == st.tasks[r.value.1.id := r.value.1]
    ensures r.Ok? ==> r.value.0.users == st.users && r.value.0.statuses == st.statuses && r.value.0.labels == st.labels
    ensures r.Ok? ==> ValidTaskName(r.value.1.name)
    ensures r.Ok? <==>
      id in st.tasks && TaskMapper.Update(st, dto, st.tasks[id]).Ok?
      && ValidTaskName(TaskMapper.Update(st, dto, st.tasks[id]).value.name)
    ensures r.Ok? ==> r.value.1 == TaskMapper.Update(st, dto, st.tasks[id]).value
    ensures id in st.tasks && TaskMapper.Update(st, dto, st.tasks[id]).Err? ==>
      r == Err(TaskMapper.Update(st, dto, st.tasks[id]).error)
  {
    if id !in st.tasks then Err(NotFound(TaskKind, id))
    else
      var t :- TaskMapper.Update(st, dto, st.tasks[id]);
      var st' :- SaveTask(st, t);
      Ok((st', t))
  }

  /** The outcome of an update request, stated from the request and the stored task: it
      succeeds exactly when the task exists, the status is not sent as null, every sent relation
      resolves, and the patched title passes validation; the stored task then carries each
      patched field. */
  lemma UpdateRequestOutcome(st: Store, id: Id, dto: TaskUpdateDto)
    requires UniqueSlugs(st)
    ensures var r := Update(st, id, dto);
      && (r.Ok? <==>
            && id in st.tasks
            && !dto.status.Null?
            && (dto.status.Value? ==> exists k :: k in st.statuses && st.statuses[k].slug == dto.status.value)
            && (dto.assigneeId.Value? ==> dto.assigneeId.value in st.users)
            && (dto.taskLabelIds.Value? ==> dto.taskLabelIds.value <= st.labels.Keys)
            && ValidTaskName(dto.title.ApplyTo(st.tasks[id].name)))
      && (r.Ok? ==>
            && r.value.1.name == dto.title.ApplyTo(st.tasks[id].name)
            && r.value.1.description == dto.content.ApplyTo(st.tasks[id].description)
            && r.value.1.index == dto.index.ApplyTo(st.tasks[id].index)
            && r.value.1.assignee == dto.assigneeId.ApplyTo(st.tasks[id].assignee)
            && (dto.taskLabelIds.Value? ==> r.value.1.labels == dto.taskLabelIds.value)
            && (dto.taskLabelIds.Null? ==> r.value.1.labels == {}))
  {
    if id in st.tasks {
      UpdateOutcome(st, dto, st.tasks[id]);
    }
  }

  /** Updating a task keeps the store consistent. */
  lemma UpdateKeepsWf(st: Store, id: Id, dto: TaskUpdateDto)
    requires Wf(st)
    ensures Update(st, id, dto).Ok? ==> Wf(Update(st, id, dto).value.0)
  {
    if Update(st, id, dto).Ok? {
      UpdateOutcome(st, dto, st.tasks[id]);
    }
  }

  /** `delete`: an unknown id fails; otherwise the task leaves its assignee's collection and its
      row is removed. */
  function Delete(st: Store, id: Id): (r: Result<Store, Failure>)
    ensures id !in st.tasks <==> r == Err(NotFound(TaskKind, id))
    ensures r.Ok? ==> r.value.tasks == st.tasks - {id}
    ensures r.Ok? ==> r.value.statuses == st.statuses && r.value.labels == st.labels
    ensures r.Ok? ==> r.value.users.Keys == st.users.Keys
    ensures r.Ok? ==> forall u :: u in st.users ==>
      r.value.users[u] == st.users[u].(assignedTasks := r.value.users[u].assignedTasks)
    ensures r.Ok? ==> forall u, x :: u in st.users ==>
      (x in r.value.users[u].assignedTasks <==>
        x in st.users[u].assignedTasks && !(st.tasks[id].assignee == Some(u) && x == id))
  {
    if id !in st.tasks then Err(NotFound(TaskKind, id))
    else Ok(st.(users := RemoveAssigned(st.users, st.tasks[id].assignee, id), tasks := st.tasks - {id}))
  }

  /** Deleting a task keeps the store consistent and keeps the assignee collections in step. */
  lemma DeleteKeepsInvariants(st: Store, id: Id)
    requires Wf(st)
    ensures Delete(st, id).Ok? ==> Wf(Delete(st, id).value)
    ensures Delete(st, id).Ok? && AssigneeRefsSynced(st) ==> AssigneeRefsSynced(Delete(st, id).value)
  {
  }

  /** Deleting an unassigned task leaves every user untouched. */
  lemma DeleteUnassignedTouchesNoUser(st: Store, id: Id)
    requires id in st.tasks && st.tasks[id].assignee.None?
    ensures Delete(st, id) == Ok(st.(tasks := st.tasks - {id}))
  {
  }

  /** A small consistent store: one user (id 1), one status (id 2) with slug "draft", no tasks. */
  function SampleStore(): Store {
    Store(
      map[1 := User(1, None, None, "a@b.c", "h", USER, 0, {})],
      map[2 := TaskStatus(2, "Draft", "draft", 0, {})],
      map[],
      map[],
      3)
  }

  /** Creating a task assigned to a user does not put the task in that user's collection, so
      the assignee collections fall out of step until the user is next loaded. */
  lemma CreateLeavesAssigneeStale()
    ensures AssigneeRefsSynced(SampleStore())
    ensures Create(SampleStore(), TaskCreateDto(None, Some("T"), None, Some("draft"), Some(1), None), 0).Ok?
    ensures !AssigneeRefsSynced(Create(SampleStore(), TaskCreateDto(None, Some("T"), None, Some("draft"), Some(1), None), 0).value.0)
  {
    var st := SampleStore();
    var dto := TaskCreateDto(None, Some("T"), None, Some("draft"), Some(1), None);
    assert !Text.IsBlank("draft") by {
      assert !Text.IsWhitespace("draft"[0]);
    }
    assert UniqueSlugs(st);
    assert Some(st.statuses[2].slug) == Some("draft");
    assert ValidTaskName(Some("T")) by {
      assert "T"[0] as int > 0x20;
    }
    var st' := Create(st, dto, 0).value.0;
    assert st'.tasks[3].assignee == Some(1);
    assert 3 !in st'.users[1].assignedTasks;
  }

  /** Reassigning a task through the update leaves it in the old assignee's collection and out
      of the new one's. */
  lemma UpdateLeavesAssigneeStale()
    ensures var st := SampleStore().(
              users := SampleStore().users[5 := User(5, None, None, "d@e.f", "h", USER, 0, {7})],
              tasks := map[7 := Task(7, None, Some("T"), None, 2, Some(5), {}, 0)],
              nextId := 8);
      && AssigneeRefsSynced(st)
      && Update(st, 7, EmptyUpdate.(assigneeId := Value(1))).Ok?
      && !AssigneeRefsSynced(Update(st, 7, EmptyUpdate.(assigneeId := Value(1))).value.0)
  {
    var st := SampleStore().(
              users := SampleStore().users[5 := User(5, None, None, "d@e.f", "h", USER, 0, {7})],
              tasks := map[7 := Task(7, None, Some("T"), None, 2, Some(5), {}, 0)],
              nextId := 8);
    assert ValidTaskName(Some("T")) by {
      assert "T"[0] as int > 0x20;
    }
    var st' := Update(st, 7, EmptyUpdate.(assigneeId := Value(1))).value.0;
    assert st'.tasks[7].assignee == Some(1);
    assert 7 in st'.users[5].assignedTasks;
  }
}
