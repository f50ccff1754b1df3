/** The user-list filter: ten optional parameters, each tested against one column, combined with
    AND. Unlike the task filter, a text parameter counts as absent only when it is null. A null
    column never satisfies an equality or LIKE test (SQL three-valued logic). */
module UserSpecification {
  import opened Wrappers
  import opened Text
  import opened Entities

  datatype UserParams = UserParams(
    id: Option<Id>,
    email: Option<string>,
    emailCont: Option<string>,
    firstName: Option<string>,
    firstNameCont: Option<string>,
    lastName: Option<string>,
    lastNameCont: Option<string>,
    createdAt: Option<Day>,
    createdAtGt: Option<Day>,
    createdAtLt: Option<Day>)

  const NoParams := UserParams(None, None, None, None, None, None, None, None, None, None)

  /** `column = value`, where a null column matches nothing. */
  predicate EqualsColumn<T(==)>(p: Option<T>, column: Option<T>) {
    p.None? || column == Some(p.value)
  }

  /** `lower(column) LIKE '%' + lower(p) + '%'`, where a null column matches nothing. */
  predicate ContainsColumn(p: Option<string>, column: Option<string>) {
    p.None? || (column.Some? && ContainsIgnoringCase(column.value, p.value))
  }

  predicate WithId(p: Option<Id>, u: User) { EqualsColumn(p, Some(u.id)) }
  predicate WithEmail(p: Option<string>, u: User) { EqualsColumn(p, Some(u.email)) }
  predicate WithEmailCont(p: Option<string>, u: User) { ContainsColumn(p, Some(u.email)) }
  predicate WithFirstName(p: Option<string>, u: User) { EqualsColumn(p, u.firstName) }
  predicate WithFirstNameCont(p: Option<string>, u: User) { ContainsColumn(p, u.firstName) }
  predicate WithLastName(p: Option<string>, u: User) { EqualsColumn(p, u.lastName) }
  predicate WithLastNameCont(p: Option<string>, u: User) { ContainsColumn(p, u.lastName) }
  predicate WithCreatedAt(p: Option<Day>, u: User) { EqualsColumn(p, Some(u.createdAt)) }
  predicate WithCreatedAtGt(p: Option<Day>, u: User) { p.None? || u.createdAt > p.value }
  predicate WithCreatedAtLt(p: Option<Day>, u: User) { p.None? || u.createdAt < p.value }

  predicate Build(p: UserParams, u: User) {
    && WithId(p.id, u)
    && WithEmail(p.email, u)
    && WithEmailCont(p.emailCont, u)
    && WithFirstName(p.firstName, u)
    && WithFirstNameCont(p.firstNameCont, u)
    && WithLastName(p.lastName, u)
    && WithLastNameCont(p.lastNameCont, u)
    && WithCreatedAt(p.createdAt, u)
    && WithCreatedAtGt(p.createdAtGt, u)
    && WithCreatedAtLt(p.createdAtLt, u)
  }

  /** With every parameter null, every user passes. */
  lemma EmptyFilterAcceptsAll(u: User)
    ensures Build(NoParams, u)
  {
  }

  /** Each parameter contributes its own test and nothing else: clearing it to null drops that
      test and leaves the other nine as they were. */
  lemma NullParameterDropsItsTest(p: UserParams, u: User)
    ensures Build(p, u) <==> Build(p.(id := None), u) && WithId(p.id, u)
    ensures Build(p, u) <==> Build(p.(email := None), u) && WithEmail(p.email, u)
    ensures Build(p, u) <==> Build(p.(emailCont := None), u) && WithEmailCont(p.emailCont, u)
    ensures Build(p, u) <==> Build(p.(firstName := None), u) && WithFirstName(p.firstName, u)
    ensures Build(p, u) <==> Build(p.(firstNameCont := None), u) && WithFirstNameCont(p.firstNameCont, u)
    ensures Build(p, u) <==> Build(p.(lastName := None), u) && WithLastName(p.lastName, u)
    ensures Build(p, u) <==> Build(p.(lastNameCont := None), u) && WithLastNameCont(p.lastNameCont, u)
    ensures Build(p, u) <==> Build(p.(createdAt := None), u) && WithCreatedAt(p.createdAt, u)
    ensures Build(p, u) <==> Build(p.(createdAtGt := None), u) && WithCreatedAtGt(p.createdAtGt, u)
    ensures Build(p, u) <==> Build(p.(createdAtLt := None), u) && WithCreatedAtLt(p.createdAtLt, u)
  {
  }

  /** `id`, `email`, `firstName`, `lastName` and `createdAt` are exact equality tests, and a user
      without a first or last name never matches a given one. */
  lemma ExactTests(i: Id, e: string, n: string, d: Day, u: User)
    ensures Build(NoParams.(id := Some(i)), u) <==> u.id == i
    ensures Build(NoParams.(email := Some(e)), u) <==> u.email == e
    ensures Build(NoParams.(firstName := Some(n)), u) <==> u.firstName.Some? && u.firstName.value == n
    ensures Build(NoParams.(lastName := Some(n)), u) <==> u.lastName.Some? && u.lastName.value == n
    ensures Build(NoParams.(createdAt := Some(d)), u) <==> u.createdAt == d
  {
  }

  /** The `*Cont` tests are case-insensitive containment in the column. */
  lemma ContainsTests(q: string, u: User)
    ensures Build(NoParams.(emailCont := Some(q)), u) <==> Occurs(Lower(u.email), Lower(q))
    ensures Build(NoParams.(firstNameCont := Some(q)), u) <==>
      u.firstName.Some? && Occurs(Lower(u.firstName.value), Lower(q))
    ensures Build(NoParams.(emailCont := Some(q)), u) == Build(NoParams.(emailCont := Some(Lower(q))), u)
  {
    ContainsIffOccurs(Lower(u.email), Lower(q));
    IgnoringCaseIsCaseBlind(u.email, q);
    if u.firstName.Some? {
      ContainsIffOccurs(Lower(u.firstName.value), Lower(q));
    }
  }

  /** An empty `firstNameCont` is not absent: it accepts every user with a first name and rejects
      a user whose first name is null, whereas the absent parameter accepts both. */
  lemma EmptyContIsNotAbsent(u: User)
    ensures u.firstName.Some? ==> Build(NoParams.(firstNameCont := Some("")), u)
    ensures u.firstName.None? ==> !Build(NoParams.(firstNameCont := Some("")), u)
    ensures Build(NoParams.(firstNameCont := None), u)
  {
    if u.firstName.Some? {
      ContainsEmpty(Lower(u.firstName.value));
    }
  }

  /** `createdAtGt` and `createdAtLt` together select the open interval between them: both
      endpoints are excluded, and an interval with no day strictly inside is empty. */
  lemma OpenInterval(lo: Day, hi: Day, u: User)
    ensures Build(NoParams.(createdAtGt := Some(lo), createdAtLt := Some(hi)), u) <==> lo < u.createdAt < hi
    ensures u.createdAt == lo || u.createdAt == hi ==>
      !Build(NoParams.(createdAtGt := Some(lo), createdAtLt := Some(hi)), u)
    ensures hi <= lo + 1 ==> !Build(NoParams.(createdAtGt := Some(lo), createdAtLt := Some(hi)), u)
  {
  }

  /** `q` narrows `p` when every parameter set in `p` is set to the same value in `q`. */
  predicate Narrows(q: UserParams, p: UserParams) {
    && (p.id.None? || q.id == p.id)
    && (p.email.None? || q.email == p.email)
    && (p.emailCont.None? || q.emailCont == p.emailCont)
    && (p.firstName.None? || q.firstName == p.firstName)
    && (p.firstNameCont.None? || q.firstNameCont == p.firstNameCont)
    && (p.lastName.None? || q.lastName == p.lastName)
    && (p.lastNameCont.None? || q.lastNameCont == p.lastNameCont)
    && (p.createdAt.None? || q.createdAt == p.createdAt)
    && (p.createdAtGt.None? || q.createdAtGt == p.createdAtGt)
    && (p.createdAtLt.None? || q.createdAtLt == p.createdAtLt)
  }

  /** Adding parameters can only shrink the set of matching users. */
  lemma MoreParamsMatchFewer(q: UserParams, p: UserParams, u: User)
    requires Narrows(q, p)
    ensures Build(q, u) ==> Build(p, u)
  {
  }
}
