/** The user services. `UserServiceImpl` and the legacy `UserService` create and update
    identically; the implementation's `delete` refuses a user who still has tasks, the legacy
    one deletes by id without looking. The password encoder is a parameter. */
module UserService {
  import opened Wrappers
  import opened Entities
  import opened Invariants
  import opened Failures
  import opened Repositories
  import TaskService
  import ExceptionHandler

  datatype UserCreateDto = UserCreateDto(
    email: Option<string>,
    firstName: Option<string>,
    lastName: Option<string>,
    password: Option<string>)

  datatype UserUpdateDto = UserUpdateDto(
    firstName: Patch<string>,
    lastName: Patch<string>,
    email: Patch<string>,
    password: Patch<string>)

  /** `create`: a taken email is refused; the password is encoded (a null one makes the encoder
      throw); the new user has no tasks and the entity's default role, `USER` (the service sets no
      role); bean validation checks the email when it is saved. */
  function Create(st: Store, dto: UserCreateDto, encode: string -> string, day: Day): (r: Result<(Store, User), Failure>)
    ensures dto.email.Some? && ExistsUserByEmail(st, dto.email.value) ==>
      r == Err(Duplicate(UserKind, EmailField, dto.email.value))
    ensures r.Ok? <==> (dto.email.Some? && !ExistsUserByEmail(st, dto.email.value) && dto.password.Some?
                        && ValidEmail(dto.email.value))
    ensures r.Ok? ==> var u := r.value.1;
      && u.id == st.nextId && Some(u.email) == dto.email
      && u.firstName == dto.firstName && u.lastName == dto.lastName
      && u.passwordDigest == encode(dto.password.value)
      && u.role == USER && u.assignedTasks == {} && u.createdAt == day
    ensures r.Ok? ==> r.value.0.users == st.users[st.nextId := r.value.1] && r.value.0.nextId > st.nextId
    ensures r.Ok? ==> r.value.0.statuses == st.statuses && r.value.0.tasks == st.tasks && r.value.0.labels == st.labels
  {
    if dto.email.Some? && ExistsUserByEmail(st, dto.email.value) then
      Err(Duplicate(UserKind, EmailField, dto.email.value))
    else if dto.password.None? then Err(NullValue("password"))
    else if dto.email.None? || !ValidEmail(dto.email.value) then Err(ConstraintViolation(UserKind))
    else
      var u := User(st.nextId, dto.firstName, dto.lastName, dto.email.value, encode(dto.password.value), USER, day, {});
      Ok((st.(users := st.users[st.nextId := u], nextId := st.nextId + 1), u))
  }

  /** Creating a user keeps the store consistent and the assignee collections in step. */
  lemma CreateKeepsInvariants(st: Store, dto: UserCreateDto, encode: string -> string, day: Day)
    requires Wf(st) && AssigneeRefsSynced(st)
    ensures Create(st, dto, encode, day).Ok? ==>
      Wf(Create(st, dto, encode, day).value.0) && AssigneeRefsSynced(Create(st, dto, encode, day).value.0)
  {
    if Create(st, dto, encode, day).Ok? {
      var st' := Create(st, dto, encode, day).value.0;
      assert forall t :: t in st.tasks ==> st.tasks[t].assignee != Some(st.nextId);
      assert UniqueEmails(st') by {
        forall a, b | a in st'.users && b in st'.users && st'.users[a].email == st'.users[b].email
          ensures a == b
        {
          if a == st.nextId || b == st.nextId {
            assert !ExistsUserByEmail(st, dto.email.value);
          }
        }
      }
    }
  }

  /** `update`: an unknown id fails; a sent email is checked against the other users (a null
      one fails on `equals`); the mapper copies the names and the email; a sent password is
      encoded (a null one makes the encoder throw); bean validation checks the email on save. */
  function Update(st: Store, id: Id, dto: UserUpdateDto, encode: string -> string): (r: Result<(Store, User), Failure>)
    ensures id !in st.users ==> r == Err(NotFound(UserKind, id))
    ensures r.Err? ==> !r.error.AccessDenied?
    ensures id in st.users && dto.email.Null? ==> r == Err(NullValue("email"))
    ensures (id in st.users && dto.email.Value? && dto.email.value != st.users[id].email
             && ExistsUserByEmail(st, dto.email.value)) ==> r == Err(Duplicate(UserKind, EmailField, dto.email.value))
    ensures r.Ok? <==> (id in st.users && !dto.email.Null? && !dto.password.Null?
      && (dto.email.Value? ==> dto.email.value == st.users[id].email || !ExistsUserByEmail(st, dto.email.value))
      && ValidEmail(if dto.email.Value? then dto.email.value else st.users[id].email))
    ensures r.Ok? ==> var u := r.value.1; var cur := st.users[id];
      && u == cur.(firstName := u.firstName, lastName := u.lastName, email := u.email, passwordDigest := u.passwordDigest)
      && u.firstName == dto.firstName.ApplyTo(cur.firstName)
      && u.lastName == dto.lastName.ApplyTo(cur.lastName)
      && u.email == (if dto.email.Value? then dto.email.value else cur.email)
      && u.passwordDigest == (if dto.password.Value? then encode(dto.password.value) else cur.passwordDigest)
      && r.value.0 == st.(users := st.users[id := u])
  {
    if id !in st.users then Err(NotFound(UserKind, id))
    else
      var cur := st.users[id];
      var email :- CheckUnique(UserKind, EmailField, "email", dto.email, cur.email,
                               dto.email.Value? && ExistsUserByEmail(st, dto.email.value));
      var mapped := cur.(firstName := dto.firstName.ApplyTo(cur.firstName),
                         lastName := dto.lastName.ApplyTo(cur.lastName),
                         email := email);
      var digest :- match dto.password
                    case Absent => Ok(cur.passwordDigest)
                    case Null => Err(NullValue("password"))
                    case Value(p) => Ok(encode(p));
      var u := mapped.(passwordDigest := digest);
      if !ValidEmail(u.email) then Err(ConstraintViolation(UserKind))
      else Ok((st.(users := st.users[id := u]), u))
  }

  /** Updating a user keeps the store consistent and the assignee collections in step: the
      user's `assignedTasks` is not touched. */
  lemma UpdateKeepsInvariants(st: Store, id: Id, dto: UserUpdateDto, encode: string -> string)
    requires Wf(st) && AssigneeRefsSynced(st)
    ensures Update(st, id, dto, encode).Ok? ==>
      Wf(Update(st, id, dto, encode).value.0) && AssigneeRefsSynced(Update(st, id, dto, encode).value.0)
  {
    var r := Update(st, id, dto, encode);
    if r.Ok? {
      var st' := r.value.0;
      assert UniqueEmails(st');
    }
  }

  /** A request that sends nothing, or sends back only the user's own email, succeeds and leaves
      the store as it was. */
  lemma EmptyRequestIsNoOp(st: Store, id: Id, encode: string -> string)
    requires id in st.users && ValidEmail(st.users[id].email)
    ensures Update(st, id, UserUpdateDto(Absent, Absent, Absent, Absent), encode) == Ok((st, st.users[id]))
    ensures Update(st, id, UserUpdateDto(Absent, Absent, Value(st.users[id].email), Absent), encode) == Ok((st, st.users[id]))
  {
    assert st.users[id := st.users[id]] == st.users;
  }

  /** `UserServiceImpl.delete`: an unknown id fails; a user some task is assigned to is
      refused; otherwise the row is removed. */
  function Delete(st: Store, id: Id): (r: Result<Store, Failure>)
    ensures id !in st.users <==> r == Err(NotFound(UserKind, id))
    ensures r.Err? ==> r.error.NotFound? || r.error.InUse?
    ensures r == Err(InUse(UserKind)) <==>
      id in st.users && exists t :: t in st.tasks && st.tasks[t].assignee == Some(id)
    ensures r.Err? ==> r.error.NotFound? || r.error.InUse?
    ensures r.Ok? ==> r.value == st.(users := st.users - {id})
  {
    if id !in st.users then Err(NotFound(UserKind, id))
    else if TaskService.HasTasksWithUser(st, id) then Err(InUse(UserKind))
    else DeleteUserRow(st, id)
  }

  /** The guard is what the assignee foreign key needs. */
  lemma DeleteKeepsInvariants(st: Store, id: Id)
    requires Wf(st)
    ensures Delete(st, id).Ok? ==> Wf(Delete(st, id).value)
    ensures Delete(st, id).Ok? && AssigneeRefsSynced(st) ==> AssigneeRefsSynced(Delete(st, id).value)
  {
  }

  /** The legacy `delete`: `deleteById` and nothing else. An unknown id is ignored; a user a
      task is still assigned to reaches the database, which refuses. */
  function LegacyDelete(st: Store, id: Id): (r: Result<Store, Failure>)
    ensures r.Err? <==> id in st.users && exists t :: t in st.tasks && st.tasks[t].assignee == Some(id)
    ensures r.Err? ==> r.error == ReferencedRow(UserKind)
    ensures r.Ok? ==> r.value.users.Keys == st.users.Keys - {id}
    ensures r.Ok? ==> forall k :: k in r.value.users ==> r.value.users[k] == st.users[k]
    ensures r.Ok? ==> r.value.tasks == st.tasks && r.value.statuses == st.statuses && r.value.labels == st.labels
  {
    DeleteUserRow(st, id)
  }

  /** Where the implementation accepts, the legacy delete does the same thing. */
  lemma LegacyDeleteAgreesWhenAccepted(st: Store, id: Id)
    requires Delete(st, id).Ok?
    ensures LegacyDelete(st, id) == Delete(st, id)
  {
  }

  /** The database's refusal is what keeps the legacy delete from breaking the store. */
  lemma LegacyDeleteKeepsInvariants(st: Store, id: Id)
    requires Wf(st)
    ensures LegacyDelete(st, id).Ok? ==> Wf(LegacyDelete(st, id).value)
    ensures LegacyDelete(st, id).Ok? && AssigneeRefsSynced(st) ==> AssigneeRefsSynced(LegacyDelete(st, id).value)
  {
  }

  /** A user a task is still assigned to: the implementation refuses with 409 before deleting,
      while the legacy delete goes to the database, which refuses, and the client sees a 500. */
  lemma LegacyDeleteReachesDatabase()
    ensures var st := Store(map[1 := User(1, None, None, "a@b.c", "h", USER, 0, {7})],
                            map[2 := TaskStatus(2, "Draft", "draft", 0, {7})], map[],
                            map[7 := Task(7, None, Some("T"), None, 2, Some(1), {}, 0)], 8);
      && RefIntegrity(st)
      && LegacyDelete(st, 1) == Err(ReferencedRow(UserKind))
      && ExceptionHandler.StatusOf(ReferencedRow(UserKind)) == 500
      && Delete(st, 1) == Err(InUse(UserKind))
      && ExceptionHandler.StatusOf(InUse(UserKind)) == 409
  {
    var st := Store(map[1 := User(1, None, None, "a@b.c", "h", USER, 0, {7})],
                    map[2 := TaskStatus(2, "Draft", "draft", 0, {7})], map[],
                    map[7 := Task(7, None, Some("T"), None, 2, Some(1), {}, 0)], 8);
    assert st.tasks[7].assignee == Some(1);
  }
}
