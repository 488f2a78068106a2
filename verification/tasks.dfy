/** `TaskManager`: the to-do list of the logged-in user. Every operation
    writes through the session into the stored record, as `TaskManager` does
    by mutating `current_user["tasks"]` in place. */
module Tasks {
  import opened Wrappers
  import opened Text
  import opened Users

  /** The prefix that marks a task as completed. */
  const DoneMarker := "[DONE] "

  /** The session user's task list. */
  function SessionTasks(st: Store): seq<string>
    requires HasSession(st)
  {
    st.users[st.session.value].tasks
  }

  /** Replace the session user's task list, keeping every other field. */
  function WithSessionTasks(st: Store, tasks: seq<string>): (r: Store)
    requires HasSession(st)
    ensures HasSession(r) && SessionTasks(r) == tasks
    ensures OnlySessionRecordChanged(st, r)
    ensures r.users[st.session.value] == st.users[st.session.value].(tasks := tasks)
  {
    var i := st.session.value;
    st.(users := st.users[i := st.users[i].(tasks := tasks)])
  }

  /** `add_task`: the empty string is refused with "Please enter a task";
      any other text, blanks included, goes to the end of the list. */
  function AddTask(st: Store, text: string): (r: Result<Store, Error>)
    requires HasSession(st)
    ensures r.Failure? <==> text == ""
    ensures r.Failure? ==> r.error == EmptyTask
    ensures r.Success? ==> HasSession(r.value) && OnlySessionRecordChanged(st, r.value)
    ensures r.Success? ==> var i := st.session.value;
      r.value.users[i] == st.users[i].(tasks := SessionTasks(r.value))
    ensures r.Success? ==> |SessionTasks(r.value)| == |SessionTasks(st)| + 1
    ensures r.Success? ==> SessionTasks(r.value)[..|SessionTasks(st)|] == SessionTasks(st)
    ensures r.Success? ==> SessionTasks(r.value)[|SessionTasks(st)|] == text
  {
    if text == "" then Failure(EmptyTask)
    else Success(WithSessionTasks(st, SessionTasks(st) + [text]))
  }

  /** The task marked as done: the marker is prepended unless present. */
  function Done(task: string): (r: string)
    ensures StartsWith(r, DoneMarker)
    ensures StartsWith(task, DoneMarker) ==> r == task
    ensures !StartsWith(task, DoneMarker) ==> r[..|DoneMarker|] == DoneMarker && r[|DoneMarker|..] == task
  {
    if StartsWith(task, DoneMarker) then task else DoneMarker + task
  }

  /** `mark_task_done`: only the task at `index` changes, and afterwards it
      carries the marker, with the original text right behind it unless it
      had the marker already. */
  function MarkTaskDone(st: Store, index: nat): (r: Store)
    requires HasSession(st) && index < |SessionTasks(st)|
    ensures HasSession(r) && OnlySessionRecordChanged(st, r)
    ensures r.users[st.session.value] == st.users[st.session.value].(tasks := SessionTasks(r))
    ensures |SessionTasks(r)| == |SessionTasks(st)|
    ensures SessionTasks(r)[index] == Done(SessionTasks(st)[index])
    ensures forall j | 0 <= j < |SessionTasks(st)| && j != index :: SessionTasks(r)[j] == SessionTasks(st)[j]
    ensures StartsWith(SessionTasks(st)[index], DoneMarker) ==> r == st
  {
    var tasks := SessionTasks(st);
    if StartsWith(tasks[index], DoneMarker) then st
    else WithSessionTasks(st, tasks[index := DoneMarker + tasks[index]])
  }

  /** Marking a task done twice is the same as marking it once. */
  lemma MarkTaskDoneIdempotent(st: Store, index: nat)
    requires HasSession(st) && index < |SessionTasks(st)|
    ensures MarkTaskDone(MarkTaskDone(st, index), index) == MarkTaskDone(st, index)
  {
  }

  /** `remove_task` after the user confirmed: the task at `index` goes away
      and every later task moves down by one. */
  function RemoveTask(st: Store, index: nat): (r: Store)
    requires HasSession(st) && index < |SessionTasks(st)|
    ensures HasSession(r) && OnlySessionRecordChanged(st, r)
    ensures r.users[st.session.value] == st.users[st.session.value].(tasks := SessionTasks(r))
    ensures |SessionTasks(r)| == |SessionTasks(st)| - 1
    ensures SessionTasks(r)[..index] == SessionTasks(st)[..index]
    ensures forall j | index <= j < |SessionTasks(r)| :: SessionTasks(r)[j] == SessionTasks(st)[j + 1]
  {
    var tasks := SessionTasks(st);
    WithSessionTasks(st, tasks[..index] + tasks[index + 1..])
  }

  /** Removing the task just added gives back the store as it was. */
  lemma RemoveUndoesAdd(st: Store, text: string)
    requires HasSession(st) && AddTask(st, text).Success?
    ensures RemoveTask(AddTask(st, text).value, |SessionTasks(st)|) == st
  {
    var st' := AddTask(st, text).value;
    var r := RemoveTask(st', |SessionTasks(st)|);
    var i := st.session.value;
    assert SessionTasks(r) == SessionTasks(st);
    assert r.users[i] == st.users[i];
    assert r.users == st.users;
  }
}
