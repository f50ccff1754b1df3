/** `UserUtils`: the signed-in user, looked up by the authentication's name (the token's
    subject, an email), and the admin and self tests built on it. */
module UserUtils {
  import opened Wrappers
  import opened Entities
  import opened Invariants
  import opened Repositories

  /** The security context's authentication; `None` when there is none. */
  datatype Authentication = Authentication(authenticated: bool, name: string, authorities: seq<string>)

  /** `getCurrentUser`: no authentication, or one that is not authenticated, gives null; otherwise
      the user whose email is the authentication's name, or null when there is none. The email
      column is unique, so the lookup is never ambiguous. */
  function CurrentUser(st: Store, auth: Option<Authentication>): (r: Option<User>)
    requires UniqueEmails(st)
    ensures r.Some? <==> auth.Some? && auth.value.authenticated && ExistsUserByEmail(st, auth.value.name)
    ensures r.Some? ==> exists k :: k in st.users && st.users[k] == r.value && r.value.email == auth.value.name
  {
    if auth.None? || !auth.value.authenticated then None
    else
      match FindUserByEmail(st, auth.value.name)
      case Match(k) => Some(st.users[k])
      case NoMatch => None
      case Ambiguous => None
  }

  /** `isAdmin`: the current user exists and has role `ADMIN` in the store. */
  predicate IsAdmin(st: Store, auth: Option<Authentication>)
    requires UniqueEmails(st)
  {
    var u := CurrentUser(st, auth);
    u.Some? && u.value.role == ADMIN
  }

  /** `isCurrentUser(userId)`: the current user exists and has that id. */
  predicate IsCurrentUser(st: Store, auth: Option<Authentication>, userId: Id)
    requires UniqueEmails(st)
  {
    var u := CurrentUser(st, auth);
    u.Some? && u.value.id == userId
  }

  /** In a consistent store, a user is "current" exactly for the authentication that names their
      email, and for no other id. */
  lemma IsCurrentUserIff(st: Store, auth: Authentication, userId: Id)
    requires KeysMatch(st) && UniqueEmails(st) && auth.authenticated
    ensures IsCurrentUser(st, Some(auth), userId) <==> userId in st.users && st.users[userId].email == auth.name
  {
    if userId in st.users && st.users[userId].email == auth.name {
      assert ExistsUserByEmail(st, auth.name);
    }
  }

  /** With unique emails, the principal is an administrator exactly when the user with their
      email exists and has role `ADMIN`: the role in the store decides, not the token. */
  lemma IsAdminIff(st: Store, auth: Authentication)
    requires UniqueEmails(st) && auth.authenticated
    ensures IsAdmin(st, Some(auth)) <==>
      exists k :: k in st.users && st.users[k].email == auth.name && st.users[k].role == ADMIN
  {
    if exists k :: k in st.users && st.users[k].email == auth.name && st.users[k].role == ADMIN {
      var k :| k in st.users && st.users[k].email == auth.name && st.users[k].role == ADMIN;
      assert ExistsUserByEmail(st, auth.name);
      var u := CurrentUser(st, Some(auth)).value;
      var j :| j in st.users && st.users[j] == u && u.email == auth.name;
      assert j == k;
    }
  }

  /** Without an authenticated principal nobody is current and nobody is an admin. */
  lemma AnonymousIsNobody(st: Store, auth: Option<Authentication>, userId: Id)
    requires UniqueEmails(st)
    requires auth.None? || !auth.value.authenticated
    ensures !IsCurrentUser(st, auth, userId) && !IsAdmin(st, auth)
  {
  }
}
