/** The mock authentication hook: the current user in memory and the one-slot
    "user" entry of local storage, with `signup`, `login`, `logout` and
    `updateUser`; plus the logout the authentication context exposes. */
module Auth {
  import opened Wrappers

  datatype UserType = Student | Consultancy

  /** A user record. Records written by the mock `signup` carry a user type and
      `isOnboarded`; records the login page stores carry a profile instead, so
      `userType` is None when absent, `isOnboarded` is false when absent, and
      `hasProfile` is the truthiness of the `profile` field. */
  datatype User = User(
    id: string,
    email: string,
    name: string,
    userType: Option<UserType>,
    isOnboarded: bool,
    hasProfile: bool)

  /** A `Partial<User>`: the fields present in the update. */
  datatype Patch = Patch(
    id: Option<string>,
    email: Option<string>,
    name: Option<string>,
    userType: Option<UserType>,
    isOnboarded: Option<bool>,
    hasProfile: Option<bool>)

  /** `{}`; spreading `null` contributes no field either. */
  const NoChanges := Patch(None, None, None, None, None, None)

  /** `stored` is the storage slot; `error` the hook's error message. */
  datatype AuthState = AuthState(user: Option<User>, stored: Option<User>, error: Option<string>)

  /** What an operation returns together with the state it leaves. */
  datatype Outcome<T> = Outcome(state: AuthState, result: T)

  const LoginFailedMessage := "Invalid email or password"

  /** The mount effect: restore the user from the storage slot, if any. */
  function Restore(stored: Option<User>): (s: AuthState)
    ensures s.user == stored && s.stored == stored && s.error.None?
  {
    AuthState(stored, stored, None)
  }

  /** `isAuthenticated: !!user`. */
  predicate IsAuthenticated(s: AuthState) {
    s.user.Some?
  }

  /** `signup`: the new user (with the generated `id`) is stored and becomes current;
      the password is not kept. */
  function Signup(s: AuthState, email: string, password: string, name: string, userType: UserType, id: string): (r: Outcome<User>)
    ensures r.result.email == email && r.result.name == name && r.result.id == id
    ensures r.result.userType == Some(userType) && !r.result.isOnboarded && !r.result.hasProfile
    ensures r.state.user == Some(r.result) && r.state.stored == Some(r.result) && r.state.error.None?
    ensures IsAuthenticated(r.state)
  {
    var u := User(id, email, name, Some(userType), false, false);
    Outcome(AuthState(Some(u), Some(u), None), u)
  }

  /** `login`: succeeds, returning the stored user, exactly when the storage slot holds
      a user with the same email; otherwise it throws (`None`) after setting the error
      message and leaves the current user alone. */
  function Login(s: AuthState, email: string, password: string): (r: Outcome<Option<User>>)
    ensures r.result.Some? <==> s.stored.Some? && s.stored.value.email == email
    ensures r.result.Some? ==> r.result == s.stored && r.state == s.(user := s.stored, error := None)
    ensures r.result.None? ==> r.state == s.(error := Some(LoginFailedMessage))
  {
    if s.stored.Some? && s.stored.value.email == email then Outcome(s.(user := s.stored, error := None), s.stored)
    else Outcome(s.(error := Some(LoginFailedMessage)), None)
  }

  /** The password plays no part in `login`. */
  lemma LoginIgnoresPassword(s: AuthState, email: string, p1: string, p2: string)
    ensures Login(s, email, p1) == Login(s, email, p2)
  {
  }

  /** `logout` in the hook: empties the storage slot and drops the current user. */
  function Logout(s: AuthState): (s': AuthState)
    ensures !IsAuthenticated(s') && s'.stored.None? && s'.error == s.error
  {
    s.(user := None, stored := None)
  }

  /** `{...u, ...p}`. */
  function ApplyPatch(u: User, p: Patch): User {
    User(
      p.id.GetOr(u.id), p.email.GetOr(u.email), p.name.GetOr(u.name),
      if p.userType.Some? then p.userType else u.userType,
      p.isOnboarded.GetOr(u.isOnboarded), p.hasProfile.GetOr(u.hasProfile))
  }

  /** `updateUser`: with no current user it returns nothing and changes nothing;
      otherwise the fields in the update override, the other fields keep their values,
      and the stored copy equals the new current user. */
  function UpdateUser(s: AuthState, p: Patch): (r: Outcome<Option<User>>)
    ensures s.user.None? ==> r == Outcome(s, None)
    ensures s.user.Some? ==> r.result.Some? && r.state == s.(user := r.result, stored := r.result)
    ensures s.user.Some? ==> var u, u' := s.user.value, r.result.value;
      && (p.email.Some? ==> u'.email == p.email.value) && (p.email.None? ==> u'.email == u.email)
      && (p.name.Some? ==> u'.name == p.name.value) && (p.name.None? ==> u'.name == u.name)
      && (p.id.Some? ==> u'.id == p.id.value) && (p.id.None? ==> u'.id == u.id)
      && (p.userType.Some? ==> u'.userType == p.userType) && (p.userType.None? ==> u'.userType == u.userType)
      && (p.isOnboarded.Some? ==> u'.isOnboarded == p.isOnboarded.value) && (p.isOnboarded.None? ==> u'.isOnboarded == u.isOnboarded)
      && (p.hasProfile.Some? ==> u'.hasProfile == p.hasProfile.value) && (p.hasProfile.None? ==> u'.hasProfile == u.hasProfile)
  {
    match s.user
    case None => Outcome(s, None)
    case Some(u) =>
      var u' := ApplyPatch(u, p);
      Outcome(s.(user := Some(u'), stored := Some(u')), Some(u'))
  }

  /** An empty update writes the current user back to storage unchanged. */
  lemma EmptyUpdateRestoresStorage(s: AuthState)
    requires s.user.Some?
    ensures UpdateUser(s, NoChanges).state == s.(stored := s.user)
  {
  }

  /** `auth.clearAuth()`: removes the storage slot (the tokens it also removes are not modelled). */
  function ClearAuth(s: AuthState): (s': AuthState)
    ensures s'.stored.None? && s'.user == s.user && s'.error == s.error
  {
    s.(stored := None)
  }

  /** The context's `logout` as written: `clearAuth()` then `updateUser(null)`, which
      puts the current user (if any) straight back into storage. */
  function ContextLogoutAsWritten(s: AuthState): (s': AuthState)
    ensures s'.user == s.user && s'.stored == s.user && s'.error == s.error
    ensures IsAuthenticated(s') <==> IsAuthenticated(s)
  {
    UpdateUser(ClearAuth(s), NoChanges).state
  }

  /** As written, logging out through the context keeps a signed-in user signed in and
      writes the user straight back to storage. */
  lemma ContextLogoutKeepsUser(s: AuthState)
    requires s.user.Some?
    ensures ContextLogoutAsWritten(s).user == s.user
    ensures ContextLogoutAsWritten(s).stored == s.user
    ensures IsAuthenticated(ContextLogoutAsWritten(s))
  {
  }

  /** The context's `logout` as intended: `clearAuth()` then the hook's own `logout`. */
  function ContextLogout(s: AuthState): (s': AuthState)
    ensures !IsAuthenticated(s') && s'.stored.None? && s'.error == s.error
  {
    Logout(ClearAuth(s))
  }

  /** After the intended logout, logging in again fails whatever the email. */
  lemma LoginAfterLogoutFails(s: AuthState, email: string, password: string)
    ensures Login(ContextLogout(s), email, password).result.None?
  {
  }
}
