/** The label services. `LabelServiceImpl` and the legacy `LabelService` have the same bodies
    and differ only in how their collaborators are injected, so one definition models both. */
module LabelService {
  import opened Wrappers
  import opened Entities
  import opened Invariants
  import opened Failures
  import opened Repositories

  datatype LabelCreateDto = LabelCreateDto(name: Option<string>)

  datatype LabelUpdateDto = LabelUpdateDto(name: Patch<string>)

  /** `create`: a taken name is refused; bean validation checks the name when the label is
      saved; the new label has no tasks. */
  function Create(st: Store, dto: LabelCreateDto, day: Day): (r: Result<(Store, Label), Failure>)
    ensures dto.name.Some? && ExistsLabelByName(st, dto.name.value) ==>
      r == Err(Duplicate(LabelKind, NameField, dto.name.value))
    ensures r.Ok? <==> (dto.name.Some? && !ExistsLabelByName(st, dto.name.value) && ValidLabelName(dto.name.value))
    ensures r.Err? && !r.error.Duplicate? ==> r == Err(ConstraintViolation(LabelKind))
    ensures r.Ok? ==> var l := r.value.1;
      l.id == st.nextId && Some(l.name) == dto.name && l.createdAt == day && l.tasks == []
    ensures r.Ok? ==> r.value.0.labels == st.labels[st.nextId := r.value.1] && r.value.0.nextId > st.nextId
    ensures r.Ok? ==> r.value.0.users == st.users && r.value.0.statuses == st.statuses && r.value.0.tasks == st.tasks
  {
    if dto.name.Some? && ExistsLabelByName(st, dto.name.value) then
      Err(Duplicate(LabelKind, NameField, dto.name.value))
    else if dto.name.None? || !ValidLabelName(dto.name.value) then Err(ConstraintViolation(LabelKind))
    else
      var l := Label(st.nextId, dto.name.value, day, []);
      Ok((st.(labels := st.labels[st.nextId := l], nextId := st.nextId + 1), l))
  }

  /** Creating a label keeps the store consistent. */
  lemma CreateKeepsWf(st: Store, dto: LabelCreateDto, day: Day)
    requires Wf(st)
    ensures Create(st, dto, day).Ok? ==> Wf(Create(st, dto, day).value.0)
  {
    if Create(st, dto, day).Ok? {
      var st' := Create(st, dto, day).value.0;
      assert UniqueLabelNames(st') by {
        forall a, b | a in st'.labels && b in st'.labels && st'.labels[a].name == st'.labels[b].name
          ensures a == b
        {
          if a == st.nextId || b == st.nextId {
            assert !ExistsLabelByName(st, dto.name.value);
          }
        }
      }
    }
  }

  /** `update`: an unknown id fails; a sent name is checked against the other labels (a null
      one fails on `equals`); the mapper copies it and bean validation checks it on save. */
  function Update(st: Store, id: Id, dto: LabelUpdateDto): (r: Result<(Store, Label), Failure>)
    ensures id !in st.labels ==> r == Err(NotFound(LabelKind, id))
    ensures id in st.labels && dto.name.Null? ==> r == Err(NullValue("name"))
    ensures (id in st.labels && dto.name.Value? && dto.name.value != st.labels[id].name
             && ExistsLabelByName(st, dto.name.value)) ==> r == Err(Duplicate(LabelKind, NameField, dto.name.value))
    ensures r.Ok? <==> (id in st.labels && !dto.name.Null?
      && (dto.name.Value? ==> dto.name.value == st.labels[id].name || !ExistsLabelByName(st, dto.name.value))
      && ValidLabelName(if dto.name.Value? then dto.name.value else st.labels[id].name))
    ensures r.Ok? ==> var l := r.value.1;
      && l == st.labels[id].(name := l.name)
      && l.name == (if dto.name.Value? then dto.name.value else st.labels[id].name)
      && r.value.0 == st.(labels := st.labels[id := l])
  {
    if id !in st.labels then Err(NotFound(LabelKind, id))
    else
      var cur := st.labels[id];
      var name :- CheckUnique(LabelKind, NameField, "name", dto.name, cur.name,
                              dto.name.Value? && ExistsLabelByName(st, dto.name.value));
      var l := cur.(name := name);
      if !ValidLabelName(l.name) then Err(ConstraintViolation(LabelKind))
      else Ok((st.(labels := st.labels[id := l]), l))
  }

  /** Updating a label keeps the store consistent. */
  lemma UpdateKeepsWf(st: Store, id: Id, dto: LabelUpdateDto)
    requires Wf(st)
    ensures Update(st, id, dto).Ok? ==> Wf(Update(st, id, dto).value.0)
  {
    var r := Update(st, id, dto);
    if r.Ok? {
      assert UniqueLabelNames(r.value.0);
    }
  }

  /** Sending the same request again changes nothing more. */
  lemma UpdateIsIdempotent(st: Store, id: Id, dto: LabelUpdateDto)
    requires Update(st, id, dto).Ok?
    ensures Update(Update(st, id, dto).value.0, id, dto) == Update(st, id, dto)
  {
    var (st', l) := Update(st, id, dto).value;
    assert st'.labels[id := l] == st'.labels;
  }

  /** `delete`: an unknown id fails; a label some task still carries is refused
      (`existsByIdAndTasksIsNotEmpty`); otherwise the row is removed. */
  function Delete(st: Store, id: Id): (r: Result<Store, Failure>)
    ensures id !in st.labels <==> r == Err(NotFound(LabelKind, id))
    ensures r == Err(InUse(LabelKind)) <==> (id in st.labels && exists t :: t in st.tasks && id in st.tasks[t].labels)
    ensures r.Ok? ==> r.value.labels.Keys == st.labels.Keys - {id}
    ensures r.Ok? ==> forall k :: k in r.value.labels ==> r.value.labels[k] == st.labels[k]
    ensures r.Ok? ==> r.value.users == st.users && r.value.statuses == st.statuses && r.value.tasks == st.tasks
  {
    if id !in st.labels then Err(NotFound(LabelKind, id))
    else if ExistsLabelInUse(st, id) then Err(InUse(LabelKind))
    else Ok(st.(labels := st.labels - {id}))
  }

  /** The guard is what the join table's foreign key needs. */
  lemma DeleteKeepsWf(st: Store, id: Id)
    requires Wf(st)
    ensures Delete(st, id).Ok? ==> Wf(Delete(st, id).value)
  {
  }
}
