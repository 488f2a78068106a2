/** The input checks of the registration screen (`AuthUI._register`) and
    of the profile tab (`ProfileManager.update_profile`), which run before
    the store is touched. */
module Screens {
  import opened Wrappers
  import opened EmailFormat
  import opened Users

  /** `AuthUI._register`: the checks run in this order, each ending the
      attempt with its own message: a missing field, a confirmation that
      differs from the password, an e-mail of the wrong format, and only then
      `UserManager.register` with its taken-login check. */
  function SubmitRegistration(st: Store, login: string, password: string, confirm: string, email: string)
    : (r: Result<Store, Error>)
    ensures (r.Failure? && r.error == MissingField) <==>
      (login == "" || password == "" || confirm == "" || email == "")
    ensures (r.Failure? && r.error == PasswordMismatch) <==>
      (login != "" && password != "" && confirm != "" && email != "" && password != confirm)
    ensures (r.Failure? && r.error == InvalidEmailFormat) <==>
      (login != "" && password != "" && email != "" && password == confirm && !IsEmail(email))
    ensures (r.Failure? && r.error == LoginExists) <==>
      (login != "" && password != "" && password == confirm && IsEmail(email) && LoginTaken(st.users, login))
    ensures r.Success? <==>
      (login != "" && password != "" && confirm != "" && email != "" && password == confirm
       && IsEmail(email) && !LoginTaken(st.users, login))
    ensures r.Success? ==> r == Register(st, login, password, email)
  {
    if login == "" || password == "" || confirm == "" || email == "" then Failure(MissingField)
    else if password != confirm then Failure(PasswordMismatch)
    else if !IsEmail(email) then Failure(InvalidEmailFormat)
    else Register(st, login, password, email)
  }

  /** A registration the screen lets through keeps all store invariants,
      including the well-formedness of every stored address, and its
      credentials then log in. */
  lemma SubmitRegistrationPreservesValid(st: Store, login: string, password: string, confirm: string, email: string)
    requires Valid(st)
    requires SubmitRegistration(st, login, password, confirm, email).Success?
    ensures Valid(SubmitRegistration(st, login, password, confirm, email).value)
    ensures Login(SubmitRegistration(st, login, password, confirm, email).value, login, password).0
  {
  }

  /** `ProfileManager.update_profile`: an empty field is refused first, then
      a badly formed address; otherwise the session record takes the new
      address and password and nothing else in the store changes. */
  function SubmitProfile(st: Store, email: string, password: string): (r: Result<Store, Error>)
    requires HasSession(st)
    ensures (r.Failure? && r.error == EmptyProfileField) <==> (email == "" || password == "")
    ensures (r.Failure? && r.error == InvalidEmailFormat) <==> (email != "" && password != "" && !IsEmail(email))
    ensures r.Success? <==> (email != "" && password != "" && IsEmail(email))
    ensures r.Success? ==> HasSession(r.value) && OnlySessionRecordChanged(st, r.value)
    ensures r.Success? ==> var i := st.session.value;
      r.value.users[i] == st.users[i].(email := email, password := password)
  {
    if email == "" || password == "" then Failure(EmptyProfileField)
    else if !IsEmail(email) then Failure(InvalidEmailFormat)
    else
      var i := st.session.value;
      Success(st.(users := st.users[i := st.users[i].(email := email, password := password)]))
  }

  /** With unique logins the profile tab's direct write to the session
      record and `UserManager.update_profile`, which nothing calls, produce
      the same store. */
  lemma SubmitProfileIsUpdateProfile(st: Store, email: string, password: string)
    requires Valid(st) && HasSession(st)
    requires SubmitProfile(st, email, password).Success?
    ensures SubmitProfile(st, email, password).value == UpdateProfile(st, email, password)
  {
  }

  /** An accepted profile change keeps the store invariants, and the new
      password logs the same user in again after a logout. */
  lemma SubmitProfilePreservesValid(st: Store, email: string, password: string)
    requires Valid(st) && HasSession(st)
    requires SubmitProfile(st, email, password).Success?
    ensures Valid(SubmitProfile(st, email, password).value)
    ensures var st' := SubmitProfile(st, email, password).value;
      var r := Login(Logout(st'), st.users[st.session.value].login, password);
      r.0 && r.1.session == st.session
  {
  }
}
