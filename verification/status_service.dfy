/** The task-status services. `TaskStatusServiceImpl` and the legacy `TaskStatusService` create
    and update identically; they differ in how `delete` decides that a status is still in use:
    the implementation looks at the status's own `tasks` collection, the legacy service asks the
    task repository. */
module StatusService {
  import opened Wrappers
  import opened Entities
  import opened Invariants
  import opened Failures
  import opened Repositories
  import opened BackRefs
  import TaskService
  import ExceptionHandler

  datatype StatusCreateDto = StatusCreateDto(name: string, slug: string)

  datatype StatusUpdateDto = StatusUpdateDto(name: Patch<string>, slug: Patch<string>)

  /** `create`: a taken name is refused first, then a taken slug; otherwise the status is saved
      under a fresh id with no tasks. */
  function Create(st: Store, dto: StatusCreateDto, day: Day): (r: Result<(Store, TaskStatus), Failure>)
    ensures r.Ok? <==> !ExistsStatusByName(st, dto.name) && !ExistsStatusBySlug(st, dto.slug)
    ensures ExistsStatusByName(st, dto.name) ==> r == Err(Duplicate(StatusKind, NameField, dto.name))
    ensures !ExistsStatusByName(st, dto.name) && ExistsStatusBySlug(st, dto.slug) ==>
      r == Err(Duplicate(StatusKind, SlugField, dto.slug))
    ensures r.Ok? ==> var s := r.value.1;
      s.id == st.nextId && s.name == dto.name && s.slug == dto.slug && s.createdAt == day && s.tasks == {}
    ensures r.Ok? ==> r.value.0.statuses == st.statuses[st.nextId := r.value.1] && r.value.0.nextId > st.nextId
    ensures r.Ok? ==> r.value.0.users == st.users && r.value.0.tasks == st.tasks && r.value.0.labels == st.labels
  {
    if ExistsStatusByName(st, dto.name) then Err(Duplicate(StatusKind, NameField, dto.name))
    else if ExistsStatusBySlug(st, dto.slug) then Err(Duplicate(StatusKind, SlugField, dto.slug))
    else
      var s := TaskStatus(st.nextId, dto.name, dto.slug, day, {});
      Ok((st.(statuses := st.statuses[st.nextId := s], nextId := st.nextId + 1), s))
  }

  /** Creating a status keeps the store consistent and keeps the status collections in step: no
      task can point at an id that was never handed out. */
  lemma CreateKeepsInvariants(st: Store, dto: StatusCreateDto, day: Day)
    requires Wf(st) && StatusRefsSynced(st)
    ensures Create(st, dto, day).Ok? ==>
      Wf(Create(st, dto, day).value.0) && StatusRefsSynced(Create(st, dto, day).value.0)
  {
    if Create(st, dto, day).Ok? {
      var st' := Create(st, dto, day).value.0;
      assert forall t :: t in st.tasks ==> st.tasks[t].status != st.nextId;
      assert UniqueStatusNames(st') by {
        forall a, b | a in st'.statuses && b in st'.statuses && st'.statuses[a].name == st'.statuses[b].name
          ensures a == b
        {
          if a == st.nextId || b == st.nextId {
            assert !ExistsStatusByName(st, dto.name);
          }
        }
      }
      assert UniqueSlugs(st') by {
        forall a, b | a in st'.statuses && b in st'.statuses && st'.statuses[a].slug == st'.statuses[b].slug
          ensures a == b
        {
          if a == st.nextId || b == st.nextId {
            assert !ExistsStatusBySlug(st, dto.slug);
          }
        }
      }
    }
  }

  /** Whether the update's check lets a sent name (`isName`) or slug of status `id` through: not
      null, and either the row's own value or one no status holds. */
  predicate Accepts(st: Store, id: Id, p: Patch<string>, isName: bool)
    requires id in st.statuses
  {
    match p
    case Absent => true
    case Null => false
    case Value(v) =>
      if isName then v == st.statuses[id].name || !ExistsStatusByName(st, v)
      else v == st.statuses[id].slug || !ExistsStatusBySlug(st, v)
  }

  /** `update`: an unknown id fails; each sent name or slug is checked against the other rows
      (name first), a null one fails on `equals`; then the sent fields are copied and saved. */
  function Update(st: Store, id: Id, dto: StatusUpdateDto): (r: Result<(Store, TaskStatus), Failure>)
    ensures id !in st.statuses ==> r == Err(NotFound(StatusKind, id))
    ensures r.Ok? <==> id in st.statuses && Accepts(st, id, dto.name, true) && Accepts(st, id, dto.slug, false)
    ensures id in st.statuses && dto.name.Null? ==> r == Err(NullValue("name"))
    ensures id in st.statuses && dto.name.Value? && !Accepts(st, id, dto.name, true) ==>
      r == Err(Duplicate(StatusKind, NameField, dto.name.value))
    ensures id in st.statuses && Accepts(st, id, dto.name, true) && dto.slug.Null? ==> r == Err(NullValue("slug"))
    ensures id in st.statuses && Accepts(st, id, dto.name, true) && dto.slug.Value? && !Accepts(st, id, dto.slug, false) ==>
      r == Err(Duplicate(StatusKind, SlugField, dto.slug.value))
    ensures r.Ok? ==> var s := r.value.1;
      && s == st.statuses[id].(name := s.name, slug := s.slug)
      && s.name == (if dto.name.Value? then dto.name.value else st.statuses[id].name)
      && s.slug == (if dto.slug.Value? then dto.slug.value else st.statuses[id].slug)
      && r.value.0 == st.(statuses := st.statuses[id := s])
  {
    if id !in st.statuses then Err(NotFound(StatusKind, id))
    else
      var cur := st.statuses[id];
      var name :- CheckUnique(StatusKind, NameField, "name", dto.name, cur.name,
                              dto.name.Value? && ExistsStatusByName(st, dto.name.value));
      var slug :- CheckUnique(StatusKind, SlugField, "slug", dto.slug, cur.slug,
                              dto.slug.Value? && ExistsStatusBySlug(st, dto.slug.value));
      var s := cur.(name := name, slug := slug);
      Ok((st.(statuses := st.statuses[id := s]), s))
  }

  /** Updating a status keeps the store consistent and keeps the status collections in step. */
  lemma UpdateKeepsInvariants(st: Store, id: Id, dto: StatusUpdateDto)
    requires Wf(st) && StatusRefsSynced(st)
    ensures Update(st, id, dto).Ok? ==>
      Wf(Update(st, id, dto).value.0) && StatusRefsSynced(Update(st, id, dto).value.0)
  {
    var r := Update(st, id, dto);
    if r.Ok? {
      var st' := r.value.0;
      assert UniqueStatusNames(st');
      assert UniqueSlugs(st');
    }
  }

  /** Sending the same request again changes nothing more: after the first update the sent
      values are the row's own, which the uniqueness checks let through. */
  lemma UpdateIsIdempotent(st: Store, id: Id, dto: StatusUpdateDto)
    requires Update(st, id, dto).Ok?
    ensures Update(Update(st, id, dto).value.0, id, dto) == Update(st, id, dto)
  {
    var (st', s) := Update(st, id, dto).value;
    assert st'.statuses[id := s] == st'.statuses;
  }

  /** Sending back the current name and slug succeeds and leaves the store as it was. */
  lemma ResendingCurrentValuesIsNoOp(st: Store, id: Id)
    requires id in st.statuses
    ensures var cur := st.statuses[id];
      Update(st, id, StatusUpdateDto(Value(cur.name), Value(cur.slug))) == Ok((st, cur))
  {
    assert st.statuses[id := st.statuses[id]] == st.statuses;
  }

  /** `TaskStatusServiceImpl.delete`: an unknown id fails; a status whose `tasks` collection is
      not empty is refused; otherwise the row is deleted, which the database refuses while a
      task still references the status. */
  function Delete(st: Store, id: Id): (r: Result<Store, Failure>)
    ensures id !in st.statuses <==> r == Err(NotFound(StatusKind, id))
    ensures r == Err(InUse(StatusKind)) <==> id in st.statuses && st.statuses[id].tasks != {}
    ensures r == Err(ReferencedRow(StatusKind)) <==>
      id in st.statuses && st.statuses[id].tasks == {} && exists t :: t in st.tasks && st.tasks[t].status == id
    ensures r.Ok? ==> r.value == st.(statuses := st.statuses - {id})
  {
    if id !in st.statuses then Err(NotFound(StatusKind, id))
    else if st.statuses[id].tasks != {} then Err(InUse(StatusKind))
    else DeleteStatusRow(st, id)
  }

  /** `TaskStatusService.delete`: the same, but the in-use test is the task repository's
      `existsTasksByStatus`, which asks the tasks themselves, so the database never refuses. */
  function LegacyDelete(st: Store, id: Id): (r: Result<Store, Failure>)
    ensures id !in st.statuses <==> r == Err(NotFound(StatusKind, id))
    ensures r == Err(InUse(StatusKind)) <==>
      id in st.statuses && exists t :: t in st.tasks && st.tasks[t].status == id
    ensures r.Err? ==> r.error.NotFound? || r.error.InUse?
    ensures r.Ok? ==> r.value == st.(statuses := st.statuses - {id})
  {
    if id !in st.statuses then Err(NotFound(StatusKind, id))
    else if TaskService.HasTasksWithStatus(st, id) then Err(InUse(StatusKind))
    else DeleteStatusRow(st, id)
  }

  /** The legacy guard is exactly what the foreign key needs: deleting keeps the store
      consistent whatever state the status collections are in. */
  lemma LegacyDeleteKeepsInvariants(st: Store, id: Id)
    requires Wf(st)
    ensures LegacyDelete(st, id).Ok? ==> Wf(LegacyDelete(st, id).value)
    ensures LegacyDelete(st, id).Ok? && StatusRefsSynced(st) ==> StatusRefsSynced(LegacyDelete(st, id).value)
  {
  }

  /** The database's refusal keeps the store consistent whatever the collections say; with the
      collections in step, the implementation's guard is as good as the legacy one and the
      database is never asked to refuse. */
  lemma DeleteKeepsInvariants(st: Store, id: Id)
    requires Wf(st)
    ensures Delete(st, id).Ok? ==> Wf(Delete(st, id).value)
    ensures StatusRefsSynced(st) ==> Delete(st, id) != Err(ReferencedRow(StatusKind))
    ensures StatusRefsSynced(st) && Delete(st, id).Ok? ==> StatusRefsSynced(Delete(st, id).value)
  {
    if StatusRefsSynced(st) && id in st.statuses && st.statuses[id].tasks == {} {
      forall t | t in st.tasks
        ensures st.tasks[t].status != id
      {
        assert t !in st.statuses[id].tasks;
      }
    }
  }

  /** Each request loads the status afresh, so its `tasks` collection is rebuilt from the tasks:
      the implementation's delete on the reloaded store decides as the legacy delete does on the
      stored one, and leaves the same store once that is reloaded too. */
  lemma {:induction false} DeleteAfterReloadAgreesWithLegacy(st: Store, id: Id)
    ensures Delete(Reload(st), id).Ok? == LegacyDelete(st, id).Ok?
    ensures Delete(Reload(st), id).Err? ==> Delete(Reload(st), id).error == LegacyDelete(st, id).error
    ensures Delete(Reload(st), id).Ok? ==> Delete(Reload(st), id).value == Reload(LegacyDelete(st, id).value)
  {
    var rs := Reload(st);
    if id in st.statuses {
      assert rs.statuses[id].tasks == TasksByStatus(st, id);
      if TasksByStatus(st, id) != {} {
        HasElement(TasksByStatus(st, id));
        var t :| t in TasksByStatus(st, id);
        assert st.tasks[t].status == id;
      }
      if LegacyDelete(st, id).Ok? {
        var after := LegacyDelete(st, id).value;
        assert Reload(after).statuses == rs.statuses - {id};
        assert Reload(after).users == rs.users;
      }
    }
  }

  /** A status whose collection is out of step (here: a task was attached to it and the status
      was not reloaded) passes the implementation's guard, and the delete reaches the database,
      which refuses it: the client sees a 500 where the legacy service answers 409. */
  lemma StaleCollectionMissesGuard()
    ensures var st := Store(map[], map[2 := TaskStatus(2, "Draft", "draft", 0, {})], map[],
                            map[7 := Task(7, None, Some("T"), None, 2, None, {}, 0)], 8);
      && RefIntegrity(st)
      && Delete(st, 2) == Err(ReferencedRow(StatusKind))
      && ExceptionHandler.StatusOf(ReferencedRow(StatusKind)) == 500
      && LegacyDelete(st, 2) == Err(InUse(StatusKind))
      && ExceptionHandler.StatusOf(InUse(StatusKind)) == 409
  {
    var st := Store(map[], map[2 := TaskStatus(2, "Draft", "draft", 0, {})], map[],
                    map[7 := Task(7, None, Some("T"), None, 2, None, {}, 0)], 8);
    assert st.tasks[7].status == 2;
  }
}
