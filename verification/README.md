# SciHlp user store and plot rewrite, in Dafny

This project models the logic core of SciHlp (`scihlp.py`), a Tk desktop
utility with a login gate, a per-user to-do list, a profile editor and a
function plotter. The widgets are left out and so is the JSON file. What
remains is modelled as pure functions over immutable values:

- **The user store** (`users.dfy`). `UserManager` keeps a list of user
  records (`login`, `password`, `email`, `tasks`) and a `current_user`
  reference that aliases one of them. Here the store is
  `Store(users: seq<User>, session: Option<nat>)`, and the session is an
  index into the list. The module covers the bootstrap seed written when no
  data file exists, `login`, `register`, `update_profile` (including its
  write-back over the first record with the same login) and `logout`.
- **The to-do list** (`tasks.dfy`). `TaskManager` appends a task, prepends
  the `"[DONE] "` marker and deletes a task at an index. The source does
  each of these through `current_user`, so every operation here rewrites
  the session slot of the store.
- **The screen checks** (`screens.dfy`). The registration screen checks,
  in order: a missing field, a password/confirmation mismatch, and a
  malformed e-mail. Only then does it call `register`, which refuses a
  taken login. The profile tab refuses an empty field first, then a
  malformed e-mail.
- **The e-mail format** (`email.dfy`). This is
  `re.match(r"[^@]+@[^@]+\.[^@]+", s)`. Because `re.match` anchors only at
  the start, the accepted format is the `IsEmail` predicate:
  - the first `'@'` is at some `a > 0`;
  - a `'.'` follows at some `b > a + 1` with no `'@'` between them;
  - one more non-`'@'` character comes after the `'.'`.

  `MatchEmail` is a left-to-right scanner proved to decide exactly
  `IsEmail`.
- **The plot rewrite** (`plotter.dfy`, `text.dfy`). `plot_function`
  rejects an empty entry. Otherwise it runs six `str.replace` calls that
  put `np.` in front of `sin`, `cos`, `tan`, `exp`, `log` and `sqrt`.
  - `Text.Replace` models Python's `str.replace`: it scans left to right
    and rewrites non-overlapping occurrences.
  - `Split` and `Join` are a reference semantics for it:
    `s.replace(t, r) == r.join(s.split(t))`.

Some behaviours of the code that the model keeps as written:

- `add_task` refuses only the empty string; text made only of blanks is
  accepted.
- The registration screen checks the e-mail format before `register`
  checks whether the login is taken. A taken login with a malformed
  address is therefore reported as an e-mail error.
- The profile tab checks for empty fields before checking the format.
- There is no "no active session" error. The source dereferences
  `current_user` unconditionally, and the tabs that call these operations
  exist only after a login. The model states this as
  `requires HasSession(st)`.
- Nothing in `scihlp.py` calls `UserManager.update_profile`. The profile
  tab writes the new e-mail and password into `current_user` directly
  (scihlp.py:479-481), which `Screens.SubmitProfile` models.
  `Users.UpdateProfile` models the unused method as written, and
  `Screens.SubmitProfileIsUpdateProfile` shows that the two give the same
  store when logins are unique.
- `mark_task_done` on a task that is already done changes nothing and
  reports nothing.

## Model

| member | source | states |
|---|---|---|
| Users.Load | scihlp.py:30-46 | With no data file the store is exactly the bootstrap admin record (login and password "admin", e-mail "admin@admin.com", tasks "Task 1" and "Task 2"), satisfies every store invariant and has no session. A data file that exists is taken as it is, with no session. |
| Users.FindFirst | scihlp.py:55-57 | The scan returns the first index whose record satisfies the test, or nothing when no record from the start point on does. |
| Users.Login | scihlp.py:53-59 | Succeeds exactly when some record carries both the login and the password. On success the session becomes the first such record and the records are unchanged. A failed attempt leaves the store unchanged. |
| Users.FreshStoreLogin | scihlp.py:32-59 | On a fresh store, "admin"/"admin" logs in and selects record 0. Any other password for "admin" is refused. |
| Users.Register | scihlp.py:61-78 | Refuses with "Login already exists" exactly when the login is taken. Otherwise it appends one record with the given fields and no tasks, and keeps every earlier record and the session. |
| Users.RegisterThenLogin | scihlp.py:53-78 | After a successful registration the same credentials log in. With unique logins they select the new record. |
| Users.RegisterPreservesInvariants | scihlp.py:61-78 | Registration keeps logins unique and the session in range. It keeps every stored address well formed when the new one is. |
| Users.UpdateProfile | scihlp.py:80-91 | The session record gets the new e-mail and password, and so does the first record with the session's login, which the write-back overwrites. Every other record is untouched, so with unique logins only the session slot changes. |
| Users.UpdateProfilePreservesValid | scihlp.py:80-91 | An update with a well-formed address keeps every store invariant. After a logout the new password logs the same user back in. |
| Users.Logout | scihlp.py:93-95 | Clears the session and keeps every record. |
| Users.LogoutKeepsCredentials | scihlp.py:93-95 | Logging out does not change which credentials log in, nor which record they select. |
| Tasks.WithSessionTasks | scihlp.py:367 | Writing a task list through the session changes only the session user's tasks. The list length, the session and every other record are unchanged. |
| Tasks.AddTask | scihlp.py:359-368 | Refuses with "Please enter a task" exactly when the text is empty, so blank-only text is accepted. Otherwise the list grows by one, the text is at the end, the earlier tasks are kept, the session user's login, password and e-mail are kept, and no other record changes. |
| Tasks.Done | scihlp.py:383-384 | A marked task always starts with "[DONE] ". A task that already does is kept as it is. Otherwise the original text follows the marker. |
| Tasks.MarkTaskDone | scihlp.py:372-386 | Only the task at the index changes, and it becomes its marked form. A task that is already done leaves the whole store unchanged. The length, all other tasks, the session user's login, password and e-mail, and all other records are kept. |
| Tasks.MarkTaskDoneIdempotent | scihlp.py:380-386 | Marking the same task done twice gives the same store as marking it once. |
| Tasks.RemoveTask | scihlp.py:388-401 | The list shrinks by one. Tasks before the index are kept, and each later task moves down one place. The session user's login, password and e-mail are kept, and no other record changes. |
| Tasks.RemoveUndoesAdd | scihlp.py:361-401 | Removing the task just appended gives back the original store. |
| Screens.SubmitRegistration | scihlp.py:590-614 | Each error is reported exactly when its check is the first to fail: missing field, then password mismatch, then malformed e-mail, then taken login. It succeeds exactly when every check passes. On success the result is the store after the append. |
| Screens.SubmitRegistrationPreservesValid | scihlp.py:597-609 | A registration the screen accepts keeps all store invariants, including well-formed stored addresses. The new credentials then log in. |
| Screens.SubmitProfile | scihlp.py:466-482 | Refuses empty fields first, then a malformed e-mail. It succeeds exactly when both fields are filled and the address is well formed. On success only the session record changes, and only its e-mail and password. |
| Screens.SubmitProfileIsUpdateProfile | scihlp.py:479-481 | With unique logins, an accepted profile change gives the same store as `UserManager.update_profile` with the same fields. |
| Screens.SubmitProfilePreservesValid | scihlp.py:466-482 | An accepted profile change keeps all store invariants. After a logout the new password logs the same user back in. |
| EmailFormat.MatchEmail | scihlp.py:475 | The scanner accepts exactly the strings the e-mail pattern matches at their start. |
| EmailFormat.SampleAddresses | scihlp.py:38 | "admin@admin.com" has the accepted format and "not-an-email" does not. |
| EmailFormat.RejectsMissingOrLeadingAt | scihlp.py:605 | A string with no '@', or one that starts with '@', is never accepted. |
| Text.StartsWith | scihlp.py:383 | A string starts with a prefix exactly when it is at least as long and agrees with the prefix character by character; it is then the prefix followed by the rest. |
| Text.Replace | scihlp.py:168-173 | A replace changes the length by the length difference of the replacement and the token, once per rewritten occurrence. A string in which the scan finds no occurrence comes back unchanged. |
| Text.ReplaceIsJoinOfSplit | scihlp.py:168-173 | Replacing equals joining the split pieces with the replacement. |
| Text.SplitJoinRoundTrip | scihlp.py:168-173 | Joining the split pieces with the token gives back the input. |
| Text.SplitPiecesAreTokenFree | scihlp.py:168-173 | No occurrence of the token lies wholly inside a piece of the split, so every occurrence is found by the scan or overlaps one it found. For a token that cannot overlap itself, such as the six names, the scan finds every occurrence. |
| Text.CountZeroIffAbsent | scihlp.py:168-173 | The scan finds no occurrence exactly when the token does not occur. |
| Text.ReplaceAbsentIsIdentity | scihlp.py:168-173 | A string without the token comes out of replace unchanged. |
| Plotter.Qualify | scihlp.py:168 | A single pass is the input's pieces rejoined with "np." plus the name, and the text grows by 3 characters per rewritten occurrence. |
| Plotter.QualifyAll | scihlp.py:168-173 | The replace chain never shortens the expression, and leaves alone an expression that holds none of the names. |
| Plotter.QualifyAllIdentityIff | scihlp.py:168-173 | The replace chain leaves the expression unchanged exactly when it contains none of the names. |
| Plotter.PlotFunction | scihlp.py:147-173 | The empty entry is refused before any rewrite. Any other entry is rewritten, never shrinks, and is unchanged exactly when it contains none of the six names. |
| Plotter.BareSinSurvives | scihlp.py:168-173 | The chain maps "sisin" to "sinp.sin", whose leading "sin" has no "np." before it. |

## Left out

- Plotter.Qualify: this states that every occurrence a pass rewrote ends up behind `np.`. It does not state that every `sin` of the final text does, because that stronger property is false for the replace chain: `Plotter.BareSinSurvives` exhibits `"sisin"`.
- JSON persistence (`save_data`, `json.load`, scihlp.py:45-51) is not modelled. Each operation's resulting store is what would be written. Disk contents, partial writes and malformed files need a file-system model. `Users.Load` takes the already-parsed document as a parameter.
- Evaluating the rewritten expression (`eval`), the 1000-point `np.linspace` grid, the default sine plot and all matplotlib drawing are left out. They are floating-point numerics and arbitrary code execution.
- `WeatherFetcher` and `send_notification` are left out. They are stubs: a fixed dictionary with a wall-clock label, and a message that always reports success.
- All Tk widgets, `messagebox` dialogs and screen navigation are left out. So is the listbox selection: the task index is a parameter with `requires index < |SessionTasks(st)|`. `remove_task` is modelled as the branch after the user confirmed.
- The login screen's own empty-field check (`AuthUI._login`) is not modelled; only `UserManager.login` behind it is.
- Users.UpdateProfile: with duplicate logins loaded from a file, the source writes `current_user` into the first record with that login. After that, both list slots refer to one dictionary. The model copies the value into the first record, but it cannot express that later in-place edits would reach both slots.
- Python's integers, and its strings as sequences of code points, need no width limits here. Strings are `seq<char>`.
