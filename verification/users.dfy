/** The user store of `UserManager`: a list of user records plus the
    current session. The session is an index into the list, standing for the
    `current_user` reference that aliases one of the stored records. */
module Users {
  import opened Wrappers
  import opened EmailFormat

  datatype User = User(login: string, password: string, email: string, tasks: seq<string>)

  /** `data["users"]` and `current_user`. */
  datatype Store = Store(users: seq<User>, session: Option<nat>)

  /** The error messages the application shows to the user. */
  datatype Error =
    | LoginExists
    | EmptyTask
    | EmptyProfileField
    | InvalidEmailFormat
    | MissingField
    | PasswordMismatch

  function Message(e: Error): string {
    match e
    case LoginExists => "Login already exists"
    case EmptyTask => "Please enter a task"
    case EmptyProfileField => "Email and password cannot be empty"
    case InvalidEmailFormat => "Invalid email format"
    case MissingField => "All fields are required"
    case PasswordMismatch => "Passwords do not match"
  }

  /** The record written when no data file exists yet. */
  const Admin := User("admin", "admin", "admin@admin.com", ["Task 1", "Task 2"])

  /** The session points at a stored record. */
  predicate HasSession(st: Store) {
    st.session.Some? && st.session.value < |st.users|
  }

  /** The session, if any, points at a stored record. */
  predicate SessionInRange(st: Store) {
    st.session.None? || st.session.value < |st.users|
  }

  /** No two records share a login; registration is what enforces it. */
  predicate UniqueLogins(users: seq<User>) {
    forall i, j | 0 <= i < j < |users| :: users[i].login != users[j].login
  }

  /** Every stored address has the accepted format. */
  predicate EmailsValid(users: seq<User>) {
    forall i | 0 <= i < |users| :: IsEmail(users[i].email)
  }

  /** The invariants registration and the profile screen keep. */
  predicate Valid(st: Store) {
    SessionInRange(st) && UniqueLogins(st.users) && EmailsValid(st.users)
  }

  /** `st'` differs from `st` at most in the session record: the list length,
      the session and every other record are as before. */
  predicate OnlySessionRecordChanged(st: Store, st': Store)
    requires HasSession(st)
  {
    && |st'.users| == |st.users|
    && st'.session == st.session
    && forall j | 0 <= j < |st.users| && j != st.session.value :: st'.users[j] == st.users[j]
  }

  /** `load_data`: `doc` is the parsed data file, `None` when the file does
      not exist. A missing file yields the bootstrap store; a present file is
      trusted as it is. */
  function Load(doc: Option<seq<User>>): (st: Store)
    ensures st.session.None?
    ensures doc.Some? ==> st.users == doc.value
    ensures doc.None? ==> st.users == [Admin] && Valid(st)
  {
    match doc
    case None =>
      SampleAddresses();
      Store([Admin], None)
    case Some(users) => Store(users, None)
  }

  predicate Credentials(user: User, login: string, password: string) {
    user.login == login && user.password == password
  }

  /** The first index at or after `from` whose record satisfies `p`. */
  function FindFirst(users: seq<User>, p: User -> bool, from: nat): (r: Option<nat>)
    requires from <= |users|
    ensures r.Some? ==> from <= r.value < |users| && p(users[r.value])
    ensures r.Some? ==> forall j | from <= j < r.value :: !p(users[j])
    ensures r.None? ==> forall j | from <= j < |users| :: !p(users[j])
    decreases |users| - from
  {
    if from == |users| then None
    else if p(users[from]) then Some(from)
    else FindFirst(users, p, from + 1)
  }

  /** `login`: succeeds exactly when some record carries both credentials,
      and then makes the first such record the session; a failed attempt
      changes nothing. */
  function Login(st: Store, login: string, password: string): (r: (bool, Store))
    ensures r.0 <==> exists i | 0 <= i < |st.users| :: Credentials(st.users[i], login, password)
    ensures r.0 ==> r.1.users == st.users && HasSession(r.1)
    ensures r.0 ==> Credentials(st.users[r.1.session.value], login, password)
    ensures r.0 ==> forall j | 0 <= j < r.1.session.value :: !Credentials(st.users[j], login, password)
    ensures !r.0 ==> r.1 == st
  {
    match FindFirst(st.users, (u: User) => Credentials(u, login, password), 0)
    case Some(i) => (true, st.(session := Some(i)))
    case None => (false, st)
  }

  /** Some record already uses `login`. */
  predicate LoginTaken(users: seq<User>, login: string) {
    exists i | 0 <= i < |users| :: users[i].login == login
  }

  /** `UserManager.register`: a taken login is refused with
      "Login already exists" and nothing changes; otherwise exactly one new
      record with no tasks is appended and every earlier record and the
      session are kept. No format check happens here. */
  function Register(st: Store, login: string, password: string, email: string): (r: Result<Store, Error>)
    ensures r.Failure? <==> LoginTaken(st.users, login)
    ensures r.Failure? ==> r.error == LoginExists
    ensures r.Success? ==> |r.value.users| == |st.users| + 1
    ensures r.Success? ==> r.value.users[..|st.users|] == st.users
    ensures r.Success? ==> r.value.users[|st.users|] == User(login, password, email, [])
    ensures r.Success? ==> r.value.session == st.session
  {
    if LoginTaken(st.users, login) then Failure(LoginExists)
    else Success(st.(users := st.users + [User(login, password, email, [])]))
  }

  /** `UserManager.update_profile`: the session record gets the new e-mail
      and password, and is then written back over the first record with the
      same login. */
  function UpdateProfile(st: Store, email: string, password: string): (r: Store)
    requires HasSession(st)
    ensures |r.users| == |st.users| && r.session == st.session
    ensures var i := st.session.value;
      r.users[i] == st.users[i].(email := email, password := password)
    ensures forall j | 0 <= j < |st.users| && st.users[j].login != st.users[st.session.value].login ::
      r.users[j] == st.users[j]
    ensures UniqueLogins(st.users) ==> OnlySessionRecordChanged(st, r)
    ensures var i := st.session.value;
      var f := FindFirst(st.users, (u: User) => u.login == st.users[i].login, 0);
      && f.Some?
      && r.users[f.value] == st.users[i].(email := email, password := password)
      && forall j | 0 <= j < |st.users| && j != i && j != f.value :: r.users[j] == st.users[j]
  {
    var i := st.session.value;
    var updated := st.users[i].(email := email, password := password);
    var users := st.users[i := updated];
    // the update keeps the login, so the first record with it is the same
    // in `users` as in `st.users`
    assert ((u: User) => u.login == updated.login)(st.users[i]);
    match FindFirst(st.users, (u: User) => u.login == updated.login, 0)
    case Some(j) => st.(users := users[j := updated])
    case None => assert false; st
  }

  /** A profile update with a well-formed address keeps every store
      invariant, and the new password logs the same user in again after a
      logout. */
  lemma UpdateProfilePreservesValid(st: Store, email: string, password: string)
    requires Valid(st) && HasSession(st)
    requires IsEmail(email)
    ensures Valid(UpdateProfile(st, email, password))
    ensures var r := Login(Logout(UpdateProfile(st, email, password)), st.users[st.session.value].login, password);
      r.0 && r.1.session == st.session
  {
  }

  /** `logout`: the session is cleared; the records are untouched. */
  function Logout(st: Store): (r: Store)
    ensures r.users == st.users && r.session.None?
  {
    st.(session := None)
  }

  /** On a fresh store the bootstrap credentials are accepted and any other
      password for "admin" is refused. */
  lemma FreshStoreLogin(password: string)
    requires password != "admin"
    ensures Login(Load(None), "admin", "admin").0
    ensures Login(Load(None), "admin", "admin").1.session == Some(0)
    ensures !Login(Load(None), "admin", password).0
  {
  }

  /** After a successful registration the new credentials log in, and they
      select the new record when logins were unique. */
  lemma RegisterThenLogin(st: Store, login: string, password: string, email: string)
    requires Register(st, login, password, email).Success?
    ensures Login(Register(st, login, password, email).value, login, password).0
    ensures UniqueLogins(st.users) ==>
      Login(Register(st, login, password, email).value, login, password).1.session == Some(|st.users|)
  {
  }

  /** Registration keeps logins unique and the session in range, and keeps
      every stored address well formed when the new one is. */
  lemma RegisterPreservesInvariants(st: Store, login: string, password: string, email: string)
    requires SessionInRange(st) && UniqueLogins(st.users)
    requires Register(st, login, password, email).Success?
    ensures SessionInRange(Register(st, login, password, email).value)
    ensures UniqueLogins(Register(st, login, password, email).value.users)
    ensures EmailsValid(st.users) && IsEmail(email) ==>
      EmailsValid(Register(st, login, password, email).value.users)
  {
  }

  /** Logging out does not change which credentials are accepted. */
  lemma LogoutKeepsCredentials(st: Store, login: string, password: string)
    ensures Login(Logout(st), login, password).0 == Login(st, login, password).0
    ensures Login(st, login, password).0 ==>
      Login(Logout(st), login, password).1 == Login(st, login, password).1
  {
  }
}
