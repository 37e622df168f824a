/** The task store: the mutations the user interface applies to the task
    collection, and the statistics shown beside it. The collection is an
    immutable sequence; each mutation returns the new collection, which the
    program then writes to local storage (not modelled). */
module Store {
  import opened Wrappers
  import opened Seqs
  import opened Text
  import opened Tasks

  /** Submitting the creation form with the id and timestamp the clock gave
      (`addTask`). Text that trims to nothing is rejected and the collection
      stays as it was; otherwise the new, incomplete task goes to the front. */
  function AddTask(s: seq<Task>, form: TaskForm, id: string, now: int): (r: seq<Task>)
    ensures AllWhitespace(form.text) ==> r == s
    ensures !AllWhitespace(form.text) ==>
      && |r| == |s| + 1
      && r[1..] == s
      && r[0].id == id && r[0].createdAt == now && !r[0].completed
      && r[0].text == Trim(form.text) && r[0].text != []
      && r[0].category == form.category && r[0].priority == form.priority
      && r[0].dueDate == form.dueDate
  {
    var text := Trim(form.text);
    if text == [] then s
    else [Task(id, text, form.category, form.priority, form.dueDate, false, now)] + s
  }

  /** Ticking or unticking a task's checkbox (the checkbox branch of
      `handleTaskActions`): the first task with the id takes the checkbox's new
      state and nothing else changes. The program dereferences the result of
      `find` unguarded, so an unknown id raises an error: `None`. */
  function SetCompleted(s: seq<Task>, id: string, checked: bool): (r: Option<seq<Task>>)
    ensures r.None? <==> forall i :: 0 <= i < |s| ==> s[i].id != id
    ensures r.Some? ==> |r.value| == |s|
    ensures r.Some? ==> forall j :: 0 <= j < |s| ==>
      r.value[j] == if IsFirstMatch(s, id, j) then s[j].(completed := checked) else s[j]
  {
    match FirstIndexOf(s, id)
    case None => None
    case Some(i) => Some(s[i := s[i].(completed := checked)])
  }

  /** Deleting a task (the delete branch of `handleTaskActions`): every task
      with the id goes, the rest stay in order; an unknown id changes nothing. */
  function DeleteTask(s: seq<Task>, id: string): (r: seq<Task>)
    ensures IsSubseq(r, s)
    ensures forall t :: multiset(r)[t] == if t.id == id then 0 else multiset(s)[t]
    ensures (forall i :: 0 <= i < |s| ==> s[i].id != id) ==> r == s
  {
    var keep := (t: Task) => t.id != id;
    KeepSubseq(s, keep);
    assert (forall i :: 0 <= i < |s| ==> s[i].id != id) ==> Keep(s, keep) == s by {
      if forall i :: 0 <= i < |s| ==> s[i].id != id {
        KeepAll(s, keep);
      }
    }
    Keep(s, keep)
  }

  /** Saving the edit dialog (`saveEditTask`) for the task being edited, if
      any: the first task with that id takes the dialog's trimmed text (empty
      text is not rejected here), category, priority and due date, and keeps
      its id, completion and creation time. Nothing changes when no task is
      being edited or none has the id. */
  function SaveEdit(s: seq<Task>, current: Option<string>, form: TaskForm): (r: seq<Task>)
    ensures |r| == |s|
    ensures forall j :: 0 <= j < |s| ==>
      r[j] == if current.Some? && IsFirstMatch(s, current.value, j)
              then s[j].(text := Trim(form.text), category := form.category,
                         priority := form.priority, dueDate := form.dueDate)
              else s[j]
    ensures (current.None? || forall i :: 0 <= i < |s| ==> s[i].id != current.value) ==> r == s
  {
    if current.None? then s
    else
      match FirstIndexOf(s, current.value)
      case None => s
      case Some(i) =>
        s[i := s[i].(text := Trim(form.text), category := form.category,
                     priority := form.priority, dueDate := form.dueDate)]
  }

  /** The counters under the list. */
  datatype TaskStats = TaskStats(total: int, completed: int, pending: int)

  /** The number of completed tasks, counted one position at a time. */
  function CountCompleted(s: seq<Task>): nat {
    if |s| == 0 then 0 else (if s[0].completed then 1 else 0) + CountCompleted(s[1..])
  }

  /** Filtering out the completed tasks and taking the length counts them. */
  lemma {:induction false} CompletedCount(s: seq<Task>)
    ensures |Keep(s, IsCompleted)| == CountCompleted(s)
    decreases |s|
  {
    if |s| > 0 {
      CompletedCount(s[1..]);
    }
  }

  /** `updateTaskStats`: the number of tasks, of completed ones, and the difference. */
  function Stats(s: seq<Task>): (r: TaskStats)
    ensures r.total == |s|
    ensures r.completed == CountCompleted(s)
    ensures 0 <= r.completed <= r.total
    ensures r.pending == r.total - r.completed
    ensures r.completed == 0 <==> forall t :: t in s ==> !t.completed
    ensures r.pending == 0 <==> forall t :: t in s ==> t.completed
  {
    var done := |Keep(s, IsCompleted)|;
    CompletedCount(s);
    KeepPartition(s, IsCompleted);
    KeepEmptyIff(s, IsCompleted);
    KeepEmptyIff(s, Not(IsCompleted));
    TaskStats(|s|, done, |s| - done)
  }

  /** "Clear completed" (`clearCompletedTasks`), with the user's answer to the
      confirmation prompt. With no completed task, or a declined prompt, the
      collection is unchanged; otherwise exactly the completed tasks go and
      the others keep their order. */
  function ClearCompleted(s: seq<Task>, confirmed: bool): (r: seq<Task>)
    ensures (!confirmed || forall t :: t in s ==> !t.completed) ==> r == s
    ensures IsSubseq(r, s)
    ensures confirmed ==> forall t :: multiset(r)[t] == if t.completed then 0 else multiset(s)[t]
    ensures confirmed ==> forall t :: t in r ==> !t.completed
    ensures confirmed ==> |r| == |s| - Stats(s).completed
  {
    SubseqRefl(s);
    var count := Stats(s).completed;
    if count == 0 then s
    else if confirmed then
      KeepSubseq(s, Not(IsCompleted));
      KeepPartition(s, IsCompleted);
      Keep(s, Not(IsCompleted))
    else s
  }

  /** Adding a task under an id no task has yet keeps the ids unique. The
      program takes the id from the clock, which does not guarantee this. */
  lemma AddPreservesUniqueIds(s: seq<Task>, form: TaskForm, id: string, now: int)
    requires UniqueIds(s) && id !in IdsOf(s)
    ensures UniqueIds(AddTask(s, form, id, now))
  {
    var r := AddTask(s, form, id, now);
    UniqueIdsIff(s);
    UniqueIdsIff(r);
    if !AllWhitespace(form.text) {
      assert r == [r[0]] + s;
      assert IdsOf(r) == [id] + IdsOf(s);
      DistinctCons(id, IdsOf(s));
    }
  }

  /** A task that is added is counted as pending. */
  lemma AddStats(s: seq<Task>, form: TaskForm, id: string, now: int)
    requires !AllWhitespace(form.text)
    ensures var before, after := Stats(s), Stats(AddTask(s, form, id, now));
      after == TaskStats(before.total + 1, before.completed, before.pending + 1)
  {
    var r := AddTask(s, form, id, now);
    assert r == [r[0]] + s;
    KeepCons(r[0], s, IsCompleted);
  }

  /** Ticking a checkbox keeps every id in place, so ids stay unique, and
      moves the task between the completed and pending counts at most once. */
  lemma SetCompletedFrame(s: seq<Task>, id: string, checked: bool)
    requires SetCompleted(s, id, checked).Some?
    ensures var r := SetCompleted(s, id, checked).value;
      && IdsOf(r) == IdsOf(s)
      && (UniqueIds(s) ==> UniqueIds(r))
      && Stats(r).total == Stats(s).total
      && var i := FirstIndexOf(s, id).value;
         Stats(r).completed
           == Stats(s).completed - (if s[i].completed then 1 else 0) + (if checked then 1 else 0)
  {
    var i := FirstIndexOf(s, id).value;
    var x := s[i].(completed := checked);
    assert SetCompleted(s, id, checked).value == s[i := x];
    ReplaceSameId(s, i, x);
    KeepReplaceCount(s, i, x, IsCompleted);
  }

  /** Saving an edit keeps every id in place, so ids stay unique, and leaves
      the counters alone. */
  lemma SaveEditFrame(s: seq<Task>, current: Option<string>, form: TaskForm)
    ensures var r := SaveEdit(s, current, form);
      && IdsOf(r) == IdsOf(s)
      && (UniqueIds(s) ==> UniqueIds(r))
      && Stats(r) == Stats(s)
  {
    if current.Some? && FirstIndexOf(s, current.value).Some? {
      var i := FirstIndexOf(s, current.value).value;
      var x := s[i].(text := Trim(form.text), category := form.category,
                     priority := form.priority, dueDate := form.dueDate);
      assert SaveEdit(s, current, form) == s[i := x] by {}
      ReplaceSameId(s, i, x);
      KeepReplaceCount(s, i, x, IsCompleted);
      assert Stats(s[i := x]) == Stats(s) by {
        assert Stats(s[i := x]).completed == Stats(s).completed;
      }
    } else {
      assert SaveEdit(s, current, form) == s by {}
    }
  }

  /** With unique ids, deleting a present id removes exactly that one task,
      and ids stay unique. */
  lemma DeleteRemovesOne(s: seq<Task>, id: string)
    requires UniqueIds(s)
    ensures UniqueIds(DeleteTask(s, id))
    ensures id in IdsOf(s) ==> |DeleteTask(s, id)| == |s| - 1
  {
    var r := DeleteTask(s, id);
    SubseqMultiset(r, s);
    UniqueIdsSubMultiset(r, s);
    if id in IdsOf(s) {
      var t := FindById(s, id).value;
      assert multiset(s)[t] == 1;
      assert multiset(r) == multiset(s) - multiset{t};
    }
  }

  /** Clearing keeps the ids unique. */
  lemma ClearCompletedPreservesUniqueIds(s: seq<Task>, confirmed: bool)
    requires UniqueIds(s)
    ensures UniqueIds(ClearCompleted(s, confirmed))
  {
    SubseqMultiset(ClearCompleted(s, confirmed), s);
    UniqueIdsSubMultiset(ClearCompleted(s, confirmed), s);
  }
}
