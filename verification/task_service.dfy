/** The legacy `TaskService`. It applies the relation changes itself, keeping the assignee's
    `assignedTasks` in step, and then runs the mapper's update over the same request. */
module TaskService {
  import opened Wrappers
  import opened Text
  import opened Entities
  import opened Invariants
  import opened Failures
  import opened Repositories
  import opened BackRefs
  import opened TaskMapper
  import TaskServiceImpl

  /** A finite set of ids with an element has a least element. */
  lemma {:induction false} LeastExists(s: set<Id>)
    requires exists x :: x in s
    ensures exists m :: m in s && forall x :: x in s ==> m <= x
    decreases |s|
  {
    var x :| x in s;
    if exists y :: y in s && y != x {
      var y :| y in s && y != x;
      assert y in s - {x};
      LeastExists(s - {x});
      var m :| m in s - {x} && forall y :: y in s - {x} ==> m <= y;
      var least := if x < m then x else m;
      forall y | y in s
        ensures least <= y
      {
        if y != x {
          assert y in s - {x};
        }
      }
    } else {
      assert forall y :: y in s ==> x <= y;
    }
  }

  function Least(s: set<Id>): (m: Id)
    requires exists x :: x in s
    ensures m in s && forall x :: x in s ==> m <= x
  {
    LeastExists(s);
    var m :| m in s && forall x :: x in s ==> m <= x;
    m
  }

  /** The legacy loop over the requested label ids: each must name a label, and the first one
      that does not fails the request with `Label not found: <id>`, naming that id alone. Which
      missing id comes first is the set's iteration order; the model takes the least. Iterating
      a null set throws. */
  function FindEachLabel(st: Store, ids: Option<set<Id>>): (r: Result<set<Id>, Failure>)
    ensures ids.None? <==> r == Err(NullValue("taskLabelIds"))
    ensures ids.Some? ==> (r.Ok? <==> ids.value <= st.labels.Keys)
    ensures r.Ok? ==> r.value == ids.value
    ensures r.Err? && ids.Some? ==>
      r.error.NotFound? && r.error.kind == LabelKind && r.error.id in ids.value - st.labels.Keys
  {
    if ids.None? then Err(NullValue("taskLabelIds"))
    else if exists k :: k in ids.value && k !in st.labels.Keys then
      assert exists k :: k in ids.value - st.labels.Keys by {
        var k :| k in ids.value && k !in st.labels.Keys;
        assert k in ids.value - st.labels.Keys;
      }
      Err(NotFound(LabelKind, Least(ids.value - st.labels.Keys)))
    else Ok(ids.value)
  }

  /** `one` names a single missing label out of the missing set `all` names. */
  predicate NamesOneMissingLabel(one: Failure, all: Failure) {
    one.NotFound? && one.kind == LabelKind && all.LabelsNotFound? && one.id in all.missing
  }

  /** The legacy service's own relation steps on the task row: the status, then the assignee,
      then the labels, each as the request says. */
  function ApplyRelations(st: Store, dto: TaskUpdateDto, t: Task): (r: Result<Task, Failure>)
    ensures dto.taskLabelIds.Null? ==> r.Err?
    ensures r.Ok? ==> r.value == t.(status := r.value.status, assignee := r.value.assignee, labels := r.value.labels)
    ensures r.Ok? ==> r.value.assignee == dto.assigneeId.ApplyTo(t.assignee)
  {
    var status :- if dto.status.Absent? then Ok(t.status) else ResolveStatus(st, dto.status.Sent());
    var assignee :- match dto.assigneeId
                    case Absent => Ok(t.assignee)
                    case Null => Ok(None)
                    case Value(a) => var u :- ResolveUser(st, a); Ok(Some(u));
    var labels :- if dto.taskLabelIds.Absent? then Ok(t.labels) else FindEachLabel(st, dto.taskLabelIds.Sent());
    Ok(t.(status := status, assignee := assignee, labels := labels))
  }

  /** Except on a null label set, the legacy steps and the mapper's relation steps succeed
      together and then agree; they fail with the same failure, except that where the mapper
      names every missing label the legacy loop names one of them. */
  lemma ApplyRelationsMatchesMapper(st: Store, dto: TaskUpdateDto, t: Task)
    requires !dto.taskLabelIds.Null?
    ensures var legacy := ApplyRelations(st, dto, t);
      var mapper := UpdateTaskRelationships(st, dto, t);
      && legacy.Ok? == mapper.Ok?
      && (legacy.Ok? ==> legacy.value == mapper.value)
      && (legacy.Err? ==> legacy.error == mapper.error || NamesOneMissingLabel(legacy.error, mapper.error))
  {
  }

  /** The lookups the legacy create repeats after the mapper: status, assignee, labels. */
  function RepeatLookups(st: Store, dto: TaskCreateDto, t: Task): (r: Result<Task, Failure>)
    ensures r.Ok? ==> r.value.id == t.id && r.value.name == t.name && r.value.index == t.index
    ensures r.Ok? ==> r.value.description == t.description && r.value.createdAt == t.createdAt
  {
    match ResolveStatus(st, dto.status)
    case Err(e) => Err(e)
    case Ok(s) =>
      var t1 := t.(status := s);
      if dto.assigneeId.None? then LookupLabels(st, dto, t1)
      else
        match ResolveUser(st, dto.assigneeId.value)
        case Err(e) => Err(e)
        case Ok(u) => LookupLabels(st, dto, t1.(assignee := Some(u)))
  }

  function LookupLabels(st: Store, dto: TaskCreateDto, t: Task): (r: Result<Task, Failure>)
    ensures r.Ok? ==> r.value == t.(labels := r.value.labels)
  {
    if dto.taskLabelIds.None? then Ok(t)
    else
      match FindEachLabel(st, dto.taskLabelIds)
      case Err(e) => Err(e)
      case Ok(ls) => Ok(t.(labels := ls))
  }

  /** Once the mapper has resolved a create request, repeating the lookups changes nothing. */
  lemma {:induction false} RepeatLookupsChangeNothing(st: Store, dto: TaskCreateDto, id: Id, day: Day)
    requires UniqueSlugs(st) && MapCreate(st, dto, id, day).Ok?
    ensures RepeatLookups(st, dto, MapCreate(st, dto, id, day).value) == MapCreate(st, dto, id, day)
  {
    PopulateOutcome(st, dto);
    var t := MapCreate(st, dto, id, day).value;
    var s := ResolveStatus(st, dto.status);
    assert s.Ok?;
    assert s.value == t.status;
  }

  /** `create`: the status is required; the mapper builds the task; the lookups are repeated, and
      the task joins its assignee's collection. */
  function Create(st: Store, dto: TaskCreateDto, day: Day): (r: Result<(Store, Task), Failure>)
    ensures dto.status.None? || IsBlank(dto.status.value) ==> r == Err(StatusRequired)
  {
    if dto.status.None? || IsBlank(dto.status.value) then Err(StatusRequired)
    else
      var t0 :- MapCreate(st, dto, st.nextId, day);
      var t :- RepeatLookups(st, dto, t0);
      var st' :- SaveTask(st.(users := MoveAssignment(st.users, None, t.assignee, t.id)), t);
      Ok((st', t))
  }

  /** The legacy create fails exactly when the implementation's does, with the same failure, and
      otherwise stores the same task; the two stores differ only in the assignee's collection. */
  lemma {:induction false} CreateAgreesWithImpl(st: Store, dto: TaskCreateDto, day: Day)
    requires UniqueSlugs(st)
    ensures var legacy := Create(st, dto, day);
      var impl := TaskServiceImpl.Create(st, dto, day);
      && legacy.Ok? == impl.Ok?
      && (legacy.Err? ==> legacy.error == impl.error)
      && (legacy.Ok? ==>
            && legacy.value.1 == impl.value.1
            && legacy.value.0 == impl.value.0.(users := legacy.value.0.users))
  {
    if MapCreate(st, dto, st.nextId, day).Ok? {
      RepeatLookupsChangeNothing(st, dto, st.nextId, day);
    }
  }

  /** Creating a task keeps the store consistent and keeps the assignee collections in step. */
  lemma {:induction false} CreateKeepsInvariants(st: Store, dto: TaskCreateDto, day: Day)
    requires Wf(st) && AssigneeRefsSynced(st)
    ensures Create(st, dto, day).Ok? ==>
      Wf(Create(st, dto, day).value.0) && AssigneeRefsSynced(Create(st, dto, day).value.0)
  {
    var r := Create(st, dto, day);
    if r.Ok? {
      CreateAgreesWithImpl(st, dto, day);
      TaskServiceImpl.CreateKeepsWf(st, dto, day);
      var (st', t) := r.value;
      var impl := TaskServiceImpl.Create(st, dto, day).value.0;
      assert t.id == st.nextId && t.id !in st.tasks;
      WfIgnoresAssignedTasks(impl, st'.users);
      assert st' == impl.(users := st'.users);
      MoveKeepsSync(st, st', t, None);
    }
  }

  /** `update`: an unknown id fails; the service resolves the sent status, assignee and labels
      itself, moves the task between assignee collections when an assignee is sent, runs the
      mapper's update over the same request, and saves. */
  function Update(st: Store, id: Id, dto: TaskUpdateDto): (r: Result<(Store, Task), Failure>)
    ensures id !in st.tasks ==> r == Err(NotFound(TaskKind, id))
  {
    if id !in st.tasks then Err(NotFound(TaskKind, id))
    else
      var t0 := st.tasks[id];
      var t3 :- ApplyRelations(st, dto, t0);
      var users := if dto.assigneeId.Absent? then st.users else MoveAssignment(st.users, t0.assignee, t3.assignee, id);
      var t4 :- TaskMapper.Update(st, dto, t3);
      var st' :- SaveTask(st.(users := users), t4);
      Ok((st', t4))
  }

  /** Unless the label ids are sent as null, the legacy update fails exactly when the
      implementation's does, with a failure of the same class (hence the same HTTP status): the
      same failure, or for missing labels one missing id where the implementation names them
      all. Otherwise it stores the same task; the two stores differ only in the assignee
      collections. Applying the relations twice (here, then in
      the mapper) is the same as applying them once. */
  lemma {:induction false} UpdateAgreesWithImpl(st: Store, id: Id, dto: TaskUpdateDto)
    requires UniqueSlugs(st) && !dto.taskLabelIds.Null?
    ensures var legacy := Update(st, id, dto);
      var impl := TaskServiceImpl.Update(st, id, dto);
      && legacy.Ok? == impl.Ok?
      && (legacy.Err? ==> ClassOf(legacy.error) == ClassOf(impl.error))
      && (legacy.Err? ==> legacy.error == impl.error || NamesOneMissingLabel(legacy.error, impl.error))
      && (legacy.Ok? ==>
            && legacy.value.1 == impl.value.1
            && legacy.value.0 == impl.value.0.(users := legacy.value.0.users))
  {
    if id in st.tasks {
      var t0 := st.tasks[id];
      ApplyRelationsMatchesMapper(st, dto, t0);
      RelationsIgnoreFields(st, dto, t0, UpdateFields(dto, t0));
      if UpdateTaskRelationships(st, dto, t0).Ok? {
        MapperAfterRelations(st, dto, t0);
      }
    }
  }

  /** Sending the label ids as null fails in the legacy service once the status and assignee
      resolve, while the implementation clears the labels. */
  lemma NullLabelsDiverge(st: Store, id: Id, dto: TaskUpdateDto)
    requires UniqueSlugs(st) && id in st.tasks && dto.taskLabelIds.Null?
    requires dto.status.Absent? && (dto.assigneeId.Value? ==> dto.assigneeId.value in st.users)
    ensures Update(st, id, dto) == Err(NullValue("taskLabelIds"))
    ensures TaskServiceImpl.Update(st, id, dto).Ok? ==> TaskServiceImpl.Update(st, id, dto).value.1.labels == {}
  {
    UpdateOutcome(st, dto, st.tasks[id]);
  }

  /** The legacy update keeps the store consistent: it stores what the implementation stores,
      apart from the assignee collections, which the constraints do not look at. */
  lemma {:induction false} UpdateKeepsWf(st: Store, id: Id, dto: TaskUpdateDto)
    requires Wf(st)
    ensures Update(st, id, dto).Ok? ==> Wf(Update(st, id, dto).value.0)
  {
    var r := Update(st, id, dto);
    if r.Ok? {
      var st' := r.value.0;
      assert !dto.taskLabelIds.Null?;
      UpdateAgreesWithImpl(st, id, dto);
      TaskServiceImpl.UpdateKeepsWf(st, id, dto);
      var impl := TaskServiceImpl.Update(st, id, dto).value.0;
      WfIgnoresAssignedTasks(impl, st'.users);
      assert st' == impl.(users := st'.users);
    }
  }

  /** What a successful legacy update does: the task keeps its id, its assignee follows the
      patch, it replaces the stored task, and when an assignee was sent the task moves from the
      old assignee's collection to the new one's. */
  lemma UpdateEffect(st: Store, id: Id, dto: TaskUpdateDto)
    requires KeysMatch(st) && Update(st, id, dto).Ok?
    ensures id in st.tasks
    ensures var (st', t) := Update(st, id, dto).value;
      && t.id == id
      && t.assignee == dto.assigneeId.ApplyTo(st.tasks[id].assignee)
      && st'.tasks == st.tasks[id := t]
      && st'.users == if dto.assigneeId.Absent? then st.users
                      else MoveAssignment(st.users, st.tasks[id].assignee, t.assignee, id)
  {
  }

  /** The legacy update keeps the assignee collections in step with the tasks. */
  lemma {:induction false} UpdateKeepsSync(st: Store, id: Id, dto: TaskUpdateDto)
    requires KeysMatch(st) && AssigneeRefsSynced(st)
    ensures Update(st, id, dto).Ok? ==> AssigneeRefsSynced(Update(st, id, dto).value.0)
  {
    var r := Update(st, id, dto);
    if r.Ok? {
      UpdateEffect(st, id, dto);
      var (st', t) := r.value;
      var t0 := st.tasks[id];
      if dto.assigneeId.Absent? {
        SameAssigneeKeepsSync(st, st', t);
      } else {
        MoveKeepsSync(st, st', t, t0.assignee);
      }
    }
  }

  /** The legacy update keeps the store consistent and keeps the assignee collections in step. */
  lemma UpdateKeepsInvariants(st: Store, id: Id, dto: TaskUpdateDto)
    requires Wf(st) && AssigneeRefsSynced(st)
    ensures Update(st, id, dto).Ok? ==>
      Wf(Update(st, id, dto).value.0) && AssigneeRefsSynced(Update(st, id, dto).value.0)
  {
    UpdateKeepsWf(st, id, dto);
    UpdateKeepsSync(st, id, dto);
  }

  /** `delete` does what the implementation's does. */
  function Delete(st: Store, id: Id): (r: Result<Store, Failure>)
    ensures id !in st.tasks <==> r == Err(NotFound(TaskKind, id))
    ensures r.Ok? ==> r.value.tasks == st.tasks - {id}
    ensures r.Ok? && AssigneeRefsSynced(st) ==> AssigneeRefsSynced(r.value)
  {
    TaskServiceImpl.Delete(st, id)
  }

  /** `hasTasksWithUser`: some task is assigned to the user. */
  function HasTasksWithUser(st: Store, userId: Id): (b: bool)
    ensures b <==> exists t :: t in st.tasks && st.tasks[t].assignee == Some(userId)
  {
    ExistsTasksByUserIff(st, userId);
    ExistsTasksByUser(st, userId)
  }

  /** `hasTasksWithStatus`: some task has the status. */
  function HasTasksWithStatus(st: Store, statusId: Id): (b: bool)
    ensures b <==> exists t :: t in st.tasks && st.tasks[t].status == statusId
  {
    ExistsTasksByStatusIff(st, statusId);
    ExistsTasksByStatus(st, statusId)
  }
}
