/** The task mapper: building a task from a create request, applying a tri-state update request,
    resolving relations by slug and id, and the task-to-response mapping. */
module TaskMapper {
  import opened Wrappers
  import opened Text
  import opened Entities
  import opened Invariants
  import opened Failures
  import opened Repositories

  /** A create request; every field may be missing (a Java null). */
  datatype TaskCreateDto = TaskCreateDto(
    index: Option<int>,
    title: Option<string>,
    content: Option<string>,
    status: Option<string>,
    assigneeId: Option<Id>,
    taskLabelIds: Option<set<Id>>)

  /** An update request: each field unsent, sent as null, or sent with a value. */
  datatype TaskUpdateDto = TaskUpdateDto(
    index: Patch<int>,
    title: Patch<string>,
    content: Patch<string>,
    status: Patch<string>,
    assigneeId: Patch<Id>,
    taskLabelIds: Patch<set<Id>>)

  const EmptyUpdate := TaskUpdateDto(Absent, Absent, Absent, Absent, Absent, Absent)

  /** The response body for one task. */
  datatype TaskDto = TaskDto(
    id: Id,
    index: Option<int>,
    title: Option<string>,
    content: Option<string>,
    status: Option<string>,
    assigneeId: Option<Id>,
    taskLabelIds: set<Id>,
    createdAt: Day)

  /** The three relations a create request resolves. */
  datatype Relations = Relations(status: Id, assignee: Option<Id>, labels: set<Id>)

  /** `findBySlug(slug).orElseThrow(...)`. */
  function ResolveStatus(st: Store, slug: Option<string>): (r: Result<Id, Failure>)
    ensures r.Ok? ==> r.value in st.statuses && Some(st.statuses[r.value].slug) == slug
    ensures (forall k :: k in st.statuses ==> Some(st.statuses[k].slug) != slug) <==> r == Err(SlugNotFound(slug))
    ensures UniqueSlugs(st) ==> r.Ok? || r == Err(SlugNotFound(slug))
  {
    match FindStatusBySlug(st, slug)
    case NoMatch => Err(SlugNotFound(slug))
    case Match(k) => Ok(k)
    case Ambiguous => Err(AmbiguousResult)
  }

  /** `userRepository.findById(id).orElseThrow(...)`. */
  function ResolveUser(st: Store, id: Id): (r: Result<Id, Failure>)
    ensures r.Ok? <==> id in st.users
    ensures r.Ok? ==> r.value == id
    ensures r.Err? ==> r.error == NotFound(UserKind, id)
  {
    if id in st.users then Ok(id) else Err(NotFound(UserKind, id))
  }

  /** `getLabelsByIds`: null or empty gives no labels; otherwise every id must name a label, and
      the failure names exactly the ids that do not. */
  function GetLabelsByIds(st: Store, ids: Option<set<Id>>): (r: Result<set<Id>, Failure>)
    ensures r.Ok? <==> ids.None? || ids.value <= st.labels.Keys
    ensures r.Ok? ==> r.value == (if ids.None? then {} else ids.value)
    ensures r.Err? ==> r.error == LabelsNotFound(ids.value - st.labels.Keys) && ids.value - st.labels.Keys != {}
  {
    if ids.None? || ids.value == {} then Ok({})
    else
      var found := set k | k in ids.value && k in st.labels;
      var missing := set k | k in ids.value && k !in found;
      assert missing == ids.value - st.labels.Keys;
      if missing != {} then Err(LabelsNotFound(missing))
      else
        assert forall k :: k in ids.value ==> k !in missing;
        Ok(found)
  }

  /** `populateTaskRelationships`: the status is required and is resolved first, then the
      assignee if one is given, then the labels if a non-empty set is given. */
  function PopulateTaskRelationships(st: Store, dto: TaskCreateDto): (r: Result<Relations, Failure>)
  {
    if dto.status.None? || IsBlank(dto.status.value) then Err(StatusRequired)
    else
      var status :- ResolveStatus(st, dto.status);
      var assignee :- if dto.assigneeId.None? then Ok(None)
                      else var u :- ResolveUser(st, dto.assigneeId.value); Ok(Some(u));
      var labels :- if dto.taskLabelIds.Some? && dto.taskLabelIds.value != {}
                    then GetLabelsByIds(st, dto.taskLabelIds) else Ok({});
      Ok(Relations(status, assignee, labels))
  }

  /** The outcome of a create request, stated from the request: the status is checked for
      presence, then resolved; the assignee and labels are taken as given and must exist. */
  lemma PopulateOutcome(st: Store, dto: TaskCreateDto)
    requires UniqueSlugs(st)
    ensures var r := PopulateTaskRelationships(st, dto);
      && (dto.status.None? || IsBlank(dto.status.value) ==> r == Err(StatusRequired))
      && (r.Ok? <==>
            && dto.status.Some? && !IsBlank(dto.status.value)
            && (exists k :: k in st.statuses && st.statuses[k].slug == dto.status.value)
            && (dto.assigneeId.Some? ==> dto.assigneeId.value in st.users)
            && (dto.taskLabelIds.Some? ==> dto.taskLabelIds.value <= st.labels.Keys))
      && (r.Ok? ==>
            && r.value.status in st.statuses
            && Some(st.statuses[r.value.status].slug) == dto.status
            && r.value.assignee == dto.assigneeId
            && r.value.labels == (if dto.taskLabelIds.None? then {} else dto.taskLabelIds.value))
      && (dto.status.Some? && !IsBlank(dto.status.value)
          && (forall k :: k in st.statuses ==> st.statuses[k].slug != dto.status.value)
          ==> r == Err(SlugNotFound(dto.status)))
      && (dto.status.Some? && !IsBlank(dto.status.value) && ResolveStatus(st, dto.status).Ok?
          && dto.assigneeId.Some? && dto.assigneeId.value !in st.users
          ==> r == Err(NotFound(UserKind, dto.assigneeId.value)))
  {
    var r := PopulateTaskRelationships(st, dto);
    if dto.status.Some? && !IsBlank(dto.status.value) {
      var s := ResolveStatus(st, dto.status);
      if exists k :: k in st.statuses && st.statuses[k].slug == dto.status.value {
        var k :| k in st.statuses && st.statuses[k].slug == dto.status.value;
        assert Some(st.statuses[k].slug) == dto.status;
        assert s.Ok?;
      }
    }
  }

  /** `map(TaskCreateDTO)` followed by the relations: title becomes the name and content the
      description. The id and creation day are those the save assigns. */
  function MapCreate(st: Store, dto: TaskCreateDto, id: Id, createdAt: Day): (r: Result<Task, Failure>)
    ensures r.Ok? <==> PopulateTaskRelationships(st, dto).Ok?
    ensures r.Ok? ==> r.value.id == id && r.value.createdAt == createdAt
    ensures r.Ok? ==> r.value.name == dto.title && r.value.description == dto.content && r.value.index == dto.index
    ensures r.Ok? ==> r.value.status in st.statuses && Some(st.statuses[r.value.status].slug) == dto.status
    ensures r.Ok? ==> r.value.assignee == dto.assigneeId
    ensures r.Ok? ==> r.value.labels == if dto.taskLabelIds.None? then {} else dto.taskLabelIds.value
    ensures r.Err? ==> r.error == PopulateTaskRelationships(st, dto).error
  {
    var rel :- PopulateTaskRelationships(st, dto);
    Ok(Task(id, dto.index, dto.title, dto.content, rel.status, rel.assignee, rel.labels, createdAt))
  }

  /** The plain-field part of `update`: index, title and content follow their patches; the
      relations, id and creation day are left to `UpdateTaskRelationships`. */
  function UpdateFields(dto: TaskUpdateDto, t: Task): (r: Task)
    ensures r.id == t.id && r.createdAt == t.createdAt
    ensures r.status == t.status && r.assignee == t.assignee && r.labels == t.labels
  {
    t.(index := dto.index.ApplyTo(t.index),
       name := dto.title.ApplyTo(t.name),
       description := dto.content.ApplyTo(t.description))
  }

  /** `updateTaskRelationships`. A sent status is looked up by slug (a null slug finds nothing);
      a sent assignee id is looked up and a null one clears the assignee; a sent label-id set is
      resolved in full and then replaces the task's labels, a null one clearing them. */
  function UpdateTaskRelationships(st: Store, dto: TaskUpdateDto, t: Task): (r: Result<Task, Failure>)
    ensures r.Ok? ==> r.value == t.(status := r.value.status, assignee := r.value.assignee, labels := r.value.labels)
    ensures r.Ok? ==> r.value.assignee == dto.assigneeId.ApplyTo(t.assignee)
  {
    var status :- if dto.status.Absent? then Ok(t.status) else ResolveStatus(st, dto.status.Sent());
    var assignee :- match dto.assigneeId
                    case Absent => Ok(t.assignee)
                    case Null => Ok(None)
                    case Value(a) => var u :- ResolveUser(st, a); Ok(Some(u));
    var labels :- if dto.taskLabelIds.Absent? then Ok(t.labels) else GetLabelsByIds(st, dto.taskLabelIds.Sent());
    Ok(t.(status := status, assignee := assignee, labels := labels))
  }

  /** `update(TaskUpdateDTO, Task)`: the fields, then the relations. */
  function Update(st: Store, dto: TaskUpdateDto, t: Task): (r: Result<Task, Failure>)
    ensures r.Ok? ==> r.value.id == t.id && r.value.createdAt == t.createdAt
    ensures r.Ok? ==> r.value.assignee == dto.assigneeId.ApplyTo(t.assignee)
  {
    UpdateTaskRelationships(st, dto, UpdateFields(dto, t))
  }

  /** What an update does to each field, stated per patch: an unsent field keeps its value, a
      null one clears it, a value replaces it; every sent relation is resolved against the store,
      and the whole label set is replaced rather than merged. */
  lemma UpdateOutcome(st: Store, dto: TaskUpdateDto, t: Task)
    requires UniqueSlugs(st)
    ensures var r := Update(st, dto, t);
      && (r.Ok? <==>
            && (dto.status.Value? ==> exists k :: k in st.statuses && st.statuses[k].slug == dto.status.value)
            && !dto.status.Null?
            && (dto.assigneeId.Value? ==> dto.assigneeId.value in st.users)
            && (dto.taskLabelIds.Value? ==> dto.taskLabelIds.value <= st.labels.Keys))
      && (dto.status.Null? ==> r == Err(SlugNotFound(None)))
      && (r.Ok? ==>
            && r.value.index == dto.index.ApplyTo(t.index)
            && r.value.name == dto.title.ApplyTo(t.name)
            && r.value.description == dto.content.ApplyTo(t.description)
            && (dto.status.Absent? ==> r.value.status == t.status)
            && (dto.status.Value? ==> r.value.status in st.statuses && st.statuses[r.value.status].slug == dto.status.value)
            && r.value.assignee == dto.assigneeId.ApplyTo(t.assignee)
            && (dto.taskLabelIds.Absent? ==> r.value.labels == t.labels)
            && (dto.taskLabelIds.Null? ==> r.value.labels == {})
            && (dto.taskLabelIds.Value? ==> r.value.labels == dto.taskLabelIds.value))
      && (dto.status.Value? && (forall k :: k in st.statuses ==> st.statuses[k].slug != dto.status.value)
          ==> r == Err(SlugNotFound(dto.status.Sent())))
      && (!dto.status.Null?
          && (dto.status.Value? ==> exists k :: k in st.statuses && st.statuses[k].slug == dto.status.value)
          && dto.assigneeId.Value? && dto.assigneeId.value !in st.users
          ==> r == Err(NotFound(UserKind, dto.assigneeId.value)))
      && (!dto.status.Null?
          && (dto.status.Value? ==> exists k :: k in st.statuses && st.statuses[k].slug == dto.status.value)
          && (dto.assigneeId.Value? ==> dto.assigneeId.value in st.users)
          && dto.taskLabelIds.Value? && !(dto.taskLabelIds.value <= st.labels.Keys)
          ==> r == Err(LabelsNotFound(dto.taskLabelIds.value - st.labels.Keys)))
  {
    if dto.status.Value? {
      if exists k :: k in st.statuses && st.statuses[k].slug == dto.status.value {
        var k :| k in st.statuses && st.statuses[k].slug == dto.status.value;
        assert Some(st.statuses[k].slug) == dto.status.Sent();
      }
    }
  }

  /** Applying the same update twice gives the state after applying it once. The legacy service
      relies on this: it applies the relation changes itself and then again through the mapper. */
  lemma {:induction false} UpdateIsIdempotent(st: Store, dto: TaskUpdateDto, t: Task)
    requires UniqueSlugs(st)
    ensures Update(st, dto, t).Ok? ==> Update(st, dto, Update(st, dto, t).value) == Update(st, dto, t)
    ensures UpdateTaskRelationships(st, dto, t).Ok? ==>
      UpdateTaskRelationships(st, dto, UpdateTaskRelationships(st, dto, t).value) == UpdateTaskRelationships(st, dto, t)
  {
    var r := Update(st, dto, t);
    if r.Ok? {
      UpdateOutcome(st, dto, t);
      UpdateOutcome(st, dto, r.value);
      var r2 := Update(st, dto, r.value);
      if dto.status.Value? {
        var k :| k in st.statuses && st.statuses[k].slug == dto.status.value;
        assert r.value.status == k && r2.value.status == k;
      }
      assert r2.value == r.value;
    }
    var q := UpdateTaskRelationships(st, dto, t);
    if q.Ok? {
      var f := UpdateFields(EmptyUpdate.(status := dto.status, assigneeId := dto.assigneeId, taskLabelIds := dto.taskLabelIds), t);
      assert f == t;
      UpdateOutcome(st, EmptyUpdate.(status := dto.status, assigneeId := dto.assigneeId, taskLabelIds := dto.taskLabelIds), t);
      UpdateOutcome(st, EmptyUpdate.(status := dto.status, assigneeId := dto.assigneeId, taskLabelIds := dto.taskLabelIds), q.value);
    }
  }

  /** The relation steps read only the relation fields of the task they are given. */
  lemma RelationsIgnoreFields(st: Store, dto: TaskUpdateDto, t: Task, t': Task)
    requires t'.status == t.status && t'.assignee == t.assignee && t'.labels == t.labels
    ensures var a := UpdateTaskRelationships(st, dto, t);
      var b := UpdateTaskRelationships(st, dto, t');
      && a.Ok? == b.Ok?
      && (a.Err? ==> a.error == b.error)
      && (a.Ok? ==> b.value == t'.(status := a.value.status, assignee := a.value.assignee, labels := a.value.labels))
  {
  }

  /** The mapper's update over a task whose relations were already resolved from the same
      request equals the mapper's update of the original task. */
  lemma {:induction false} MapperAfterRelations(st: Store, dto: TaskUpdateDto, t: Task)
    requires UniqueSlugs(st) && UpdateTaskRelationships(st, dto, t).Ok?
    ensures Update(st, dto, UpdateTaskRelationships(st, dto, t).value) == Update(st, dto, t)
  {
    var t3 := UpdateTaskRelationships(st, dto, t).value;
    RelationsIgnoreFields(st, dto, t, UpdateFields(dto, t));
    UpdateOutcome(st, dto, t);
    UpdateOutcome(st, dto, t3);
    var a := Update(st, dto, t);
    var b := Update(st, dto, t3);
    if dto.status.Value? {
      var k :| k in st.statuses && st.statuses[k].slug == dto.status.value;
      assert a.value.status == k && b.value.status == k;
    }
    assert b.value == a.value;
  }

  /** An update with no field sent changes nothing. */
  lemma EmptyUpdateIsNoOp(st: Store, t: Task)
    ensures Update(st, EmptyUpdate, t) == Ok(t)
  {
  }

  /** `mapLabelsToTaskLabelIds`: the ids of the labels; a null collection gives no ids. */
  function MapLabelsToTaskLabelIds(labels: Option<set<Label>>): (r: set<Id>)
    ensures labels.None? ==> r == {}
    ensures labels.Some? ==> forall l :: l in labels.value ==> l.id in r
    ensures labels.Some? ==> forall k :: k in r ==> exists l :: l in labels.value && l.id == k
  {
    if labels.None? then {} else set l | l in labels.value :: l.id
  }

  /** The label objects a task's label set refers to. */
  function LabelsOf(st: Store, t: Task): set<Label> {
    set k | k in t.labels && k in st.labels :: st.labels[k]
  }

  /** `map(Task)`: title from the name, content from the description, the status as its slug,
      the assignee as its id, and the label ids. */
  function ToDto(st: Store, t: Task): (d: TaskDto)
    ensures d.id == t.id && d.index == t.index && d.createdAt == t.createdAt
    ensures d.title == t.name && d.content == t.description && d.assigneeId == t.assignee
  {
    TaskDto(
      t.id, t.index, t.name, t.description,
      if t.status in st.statuses then Some(st.statuses[t.status].slug) else None,
      t.assignee,
      MapLabelsToTaskLabelIds(Some(LabelsOf(st, t))),
      t.createdAt)
  }

  /** In a consistent store the response carries exactly the task's label ids and the slug of
      its status. */
  lemma {:induction false} DtoReflectsRelations(st: Store, t: Task)
    requires KeysMatch(st) && TaskRefsResolve(st, t)
    ensures ToDto(st, t).taskLabelIds == t.labels
    ensures ToDto(st, t).status == Some(st.statuses[t.status].slug)
  {
    var ids := ToDto(st, t).taskLabelIds;
    forall k | k in t.labels
      ensures k in ids
    {
      assert st.labels[k] in LabelsOf(st, t);
    }
  }

  /** The update request that sends back every field of a response. */
  function Echo(d: TaskDto): TaskUpdateDto {
    TaskUpdateDto(
      if d.index.None? then Null else Value(d.index.value),
      if d.title.None? then Null else Value(d.title.value),
      if d.content.None? then Null else Value(d.content.value),
      if d.status.None? then Null else Value(d.status.value),
      if d.assigneeId.None? then Null else Value(d.assigneeId.value),
      Value(d.taskLabelIds))
  }

  /** Round trip: sending a stored task's own response back as an update leaves it unchanged. */
  lemma {:induction false} EchoUpdateIsNoOp(st: Store, k: Id)
    requires Wf(st) && k in st.tasks
    ensures Update(st, Echo(ToDto(st, st.tasks[k])), st.tasks[k]) == Ok(st.tasks[k])
  {
    var t := st.tasks[k];
    DtoReflectsRelations(st, t);
    var dto := Echo(ToDto(st, t));
    UpdateOutcome(st, dto, t);
    assert t.status in st.statuses && st.statuses[t.status].slug == dto.status.value;
    var r := Update(st, dto, t);
    assert r.value.status == t.status;
    assert r.value.index == t.index;
    assert r.value.name == t.name;
    assert r.value.description == t.description;
    assert r.value.assignee == t.assignee;
  }

  /** Round trip: a created task's response gives back the request's title, content, index,
      status slug, assignee and label ids (a missing label set reads back as empty). */
  lemma {:induction false} CreateThenDto(st: Store, dto: TaskCreateDto, id: Id, day: Day)
    requires KeysMatch(st) && UniqueSlugs(st)
    requires MapCreate(st, dto, id, day).Ok?
    ensures var d := ToDto(st, MapCreate(st, dto, id, day).value);
      && d.title == dto.title && d.content == dto.content && d.index == dto.index
      && d.status == dto.status && d.assigneeId == dto.assigneeId
      && d.taskLabelIds == (if dto.taskLabelIds.None? then {} else dto.taskLabelIds.value)
  {
    PopulateOutcome(st, dto);
    var t := MapCreate(st, dto, id, day).value;
    DtoReflectsRelations(st, t);
  }
}
