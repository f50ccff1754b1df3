/** `UsersController`: the paged, filtered user list, and the `@PreAuthorize` rule on update
    and delete: the caller holds `ROLE_ADMIN` or is the user being changed. */
module UsersController {
  import opened Wrappers
  import opened Entities
  import opened Invariants
  import opened Failures
  import opened Listing
  import opened Security
  import opened UserUtils
  import UserSpecification
  import UserService

  /** `UserDTO`: the password digest, role and task collection are not exposed. */
  datatype UserDto = UserDto(id: Id, email: string, firstName: Option<string>, lastName: Option<string>, createdAt: Day)

  datatype UserPage = UserPage(content: seq<UserDto>, totalCount: nat)

  function ToDto(u: User): UserDto {
    UserDto(u.id, u.email, u.firstName, u.lastName, u.createdAt)
  }

  function Matching(params: UserSpecification.UserParams, rows: seq<User>): seq<User> {
    Select(rows, u => UserSpecification.Build(params, u))
  }

  /** `index(params, page, size)`: `PageRequest.of(page - 1, size)` (see `Listing.PageRequest`
      for what it refuses); otherwise the content is the requested page of matches, mapped to
      DTOs, and the count is that of all matches. `page` and `size` are Java `int`s; `rows` is
      the user table in storage order. */
  method Index(rows: seq<User>, params: UserSpecification.UserParams, page: int, size: int)
    returns (r: Result<UserPage, Failure>)
    requires IsInt(page) && IsInt(size)
    ensures r.Err? <==> PageRequest(page, size).Err?
    ensures (page < 1 && page != IntMin) || size < 1 <==> r == Err(InvalidPageRequest)
    ensures r.Err? ==> r.error == PageRequest(page, size).error
    ensures r.Ok? ==> r.value.totalCount == |Matching(params, rows)|
    ensures r.Ok? ==> |r.value.content| <= size
    ensures r.Ok? ==> |r.value.content| == |PageSlice(Matching(params, rows), PageIndex(page) + 1, size)|
    ensures r.Ok? ==> forall j :: 0 <= j < |r.value.content| ==>
      r.value.content[j] == ToDto(Matching(params, rows)[PageRequest(page, size).value + j])
  {
    var offset :- PageRequest(page, size);
    var matches := Filter(rows, u => UserSpecification.Build(params, u));
    var slice := PageSlice(matches, PageIndex(page) + 1, size);
    var content := seq(|slice|, k requires 0 <= k < |slice| => ToDto(slice[k]));
    r := Ok(UserPage(content, |matches|));
  }

  /** The rule on `update` and `delete`: `hasRole('ROLE_ADMIN') or @userUtils.isCurrentUser(#id)`.
      The request has already passed authentication. */
  predicate MayModify(st: Store, auth: Authentication, id: Id)
    requires UniqueEmails(st)
  {
    HasRole(auth.authorities, "ROLE_ADMIN") || IsCurrentUser(st, Some(auth), id)
  }

  /** `update`: the rule first, then the service. */
  function Update(st: Store, auth: Authentication, id: Id, dto: UserService.UserUpdateDto, encode: string -> string)
    : (r: Result<(Store, User), Failure>)
    requires UniqueEmails(st)
    ensures !MayModify(st, auth, id) ==> r == Err(AccessDenied("Access Denied"))
    ensures MayModify(st, auth, id) ==> r == UserService.Update(st, id, dto, encode)
  {
    if !MayModify(st, auth, id) then Err(AccessDenied("Access Denied"))
    else UserService.Update(st, id, dto, encode)
  }

  /** `delete`: the rule first, then the service. */
  function Delete(st: Store, auth: Authentication, id: Id): (r: Result<Store, Failure>)
    requires UniqueEmails(st)
    ensures !MayModify(st, auth, id) ==> r == Err(AccessDenied("Access Denied"))
    ensures MayModify(st, auth, id) ==> r == UserService.Delete(st, id)
  {
    if !MayModify(st, auth, id) then Err(AccessDenied("Access Denied"))
    else UserService.Delete(st, id)
  }

  /** Only an administrator or the user themself changes a user: whenever an update or delete
      gets past the rule, the caller holds `ROLE_ADMIN` or signed in with that user's email. */
  lemma OnlyAdminOrSelf(st: Store, auth: Authentication, id: Id, dto: UserService.UserUpdateDto, encode: string -> string)
    requires KeysMatch(st) && UniqueEmails(st) && auth.authenticated
    ensures !(Update(st, auth, id, dto, encode).Err? && Update(st, auth, id, dto, encode).error.AccessDenied?) <==>
      "ROLE_ADMIN" in auth.authorities || (id in st.users && st.users[id].email == auth.name)
    ensures !(Delete(st, auth, id).Err? && Delete(st, auth, id).error.AccessDenied?) <==>
      "ROLE_ADMIN" in auth.authorities || (id in st.users && st.users[id].email == auth.name)
  {
    IsCurrentUserIff(st, auth, id);
    assert WithRolePrefix("ROLE_ADMIN") == "ROLE_ADMIN" by {
      assert "ROLE_ADMIN"[..|RolePrefix|] == RolePrefix;
    }
  }

  /** The rule is checked before the id is looked up: a caller who may not touch the id gets
      "access denied" even when no such user exists. */
  lemma DeniedBeforeNotFound(st: Store, auth: Authentication, id: Id)
    requires KeysMatch(st) && UniqueEmails(st) && auth.authenticated
    requires id !in st.users && "ROLE_ADMIN" !in auth.authorities
    ensures Delete(st, auth, id) == Err(AccessDenied("Access Denied"))
  {
    IsCurrentUserIff(st, auth, id);
    assert WithRolePrefix("ROLE_ADMIN") == "ROLE_ADMIN" by {
      assert "ROLE_ADMIN"[..|RolePrefix|] == RolePrefix;
    }
  }

  /** With a token the application issued, signed in as stored user `me`: `me` may change their
      own account, and may change another account exactly when `me` is an administrator. */
  lemma {:induction false} IssuedTokenRights(st: Store, me: Id, other: Id)
    requires KeysMatch(st) && UniqueEmails(st) && me in st.users && other != me
    ensures var u := st.users[me];
      var auth := Authentication(true, u.email, GrantedAuthorities(TokenClaims(u)).value);
      && MayModify(st, auth, me)
      && (MayModify(st, auth, other) <==> u.role == ADMIN)
  {
    var u := st.users[me];
    IssuedTokenCarriesRole(u);
    var auth := Authentication(true, u.email, GrantedAuthorities(TokenClaims(u)).value);
    IsCurrentUserIff(st, auth, me);
    IsCurrentUserIff(st, auth, other);
  }
}
