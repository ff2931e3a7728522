/**
 * The page's task store: the task list, the task being edited and whether
 * the form is open, and the handlers that replace the task list as a whole.
 */
module TaskStore {
  import opened Types
  import opened Seqs

  // ---------------------------------------------------------------- list transforms

  function Toggled(id: string): Task -> Task {
    (t: Task) => if t.id == id then t.(completed := !t.completed) else t
  }

  /** The new list `handleToggleComplete` computes with `map`. */
  function ToggleById(tasks: seq<Task>, id: string): (r: seq<Task>)
    ensures |r| == |tasks|
    ensures forall i :: 0 <= i < |tasks| ==>
      && r[i].completed == (tasks[i].completed != (tasks[i].id == id))
      && r[i].(completed := tasks[i].completed) == tasks[i]
  {
    Map(Toggled(id), tasks)
  }

  function HasOtherId(id: string): Task -> bool {
    (t: Task) => t.id != id
  }

  /** The new list `handleDeleteTask` computes with `filter`. */
  function RemoveById(tasks: seq<Task>, id: string): (r: seq<Task>)
    ensures forall t :: t in r <==> t in tasks && t.id != id
    ensures IsSubsequence(r, tasks)
    ensures forall t :: multiset(r)[t] == if t.id != id then multiset(tasks)[t] else 0
    ensures (forall i :: 0 <= i < |tasks| ==> tasks[i].id != id) ==> r == tasks
  {
    FilterIsSubsequence(HasOtherId(id), tasks);
    FilterCount(HasOtherId(id), tasks);
    if forall i :: 0 <= i < |tasks| ==> tasks[i].id != id then
      FilterAll(HasOtherId(id), tasks);
      Filter(HasOtherId(id), tasks)
    else
      Filter(HasOtherId(id), tasks)
  }

  function Replacing(task: Task): Task -> Task {
    (t: Task) => if t.id == task.id then task else t
  }

  /** The new list `handleSaveTask` computes with `map` while editing. */
  function ReplaceById(tasks: seq<Task>, task: Task): (r: seq<Task>)
    ensures |r| == |tasks|
    ensures forall i :: 0 <= i < |tasks| ==> r[i].id == tasks[i].id
    ensures forall i :: 0 <= i < |tasks| ==> tasks[i].id == task.id ==> r[i] == task
    ensures forall i :: 0 <= i < |tasks| ==> tasks[i].id != task.id ==> r[i] == tasks[i]
    ensures (forall i :: 0 <= i < |tasks| ==> tasks[i].id != task.id) ==> r == tasks
    ensures UniqueIds(tasks) ==> UniqueIds(r)
  {
    Map(Replacing(task), tasks)
  }

  // ---------------------------------------------------------------- properties

  /** Toggling the same id twice restores the list. */
  lemma ToggleTwice(tasks: seq<Task>, id: string)
    ensures ToggleById(ToggleById(tasks, id), id) == tasks
  {
    var r := ToggleById(ToggleById(tasks, id), id);
    assert forall i :: 0 <= i < |tasks| ==> r[i] == tasks[i];
  }

  /** A toggle for an id nobody has leaves the list as it is. */
  lemma ToggleAbsent(tasks: seq<Task>, id: string)
    requires forall i :: 0 <= i < |tasks| ==> tasks[i].id != id
    ensures ToggleById(tasks, id) == tasks
  {
    var r := ToggleById(tasks, id);
    assert forall i :: 0 <= i < |tasks| ==> r[i] == tasks[i];
  }

  /** With distinct ids, saving replaces exactly the one task with that id. */
  lemma ReplaceUnique(tasks: seq<Task>, task: Task, k: int)
    requires UniqueIds(tasks)
    requires 0 <= k < |tasks| && tasks[k].id == task.id
    ensures ReplaceById(tasks, task) == tasks[k := task]
  {
  }

  lemma ToggleKeepsUniqueIds(tasks: seq<Task>, id: string)
    requires UniqueIds(tasks)
    ensures UniqueIds(ToggleById(tasks, id))
  {
    var r := ToggleById(tasks, id);
    assert forall i :: 0 <= i < |tasks| ==> r[i].id == tasks[i].id by {
      forall i | 0 <= i < |tasks| ensures r[i].id == tasks[i].id {
        assert r[i].(completed := tasks[i].completed).id == r[i].id;
      }
    }
  }

  /** Dropping elements cannot make two ids equal. */
  lemma {:induction false} SubsequenceKeepsUniqueIds(a: seq<Task>, b: seq<Task>)
    requires IsSubsequence(a, b) && UniqueIds(b)
    ensures UniqueIds(a)
    decreases |b|
  {
    if a != [] {
      assert UniqueIds(b[1..]);
      if a[0] == b[0] && IsSubsequence(a[1..], b[1..]) {
        SubsequenceKeepsUniqueIds(a[1..], b[1..]);
        SubsequenceMultiset(a[1..], b[1..]);
        forall j | 1 <= j < |a| ensures a[0].id != a[j].id {
          assert a[j] in multiset(a[1..]) by { assert a[j] == a[1..][j - 1]; }
          var k :| 0 <= k < |b[1..]| && b[1..][k] == a[j];
          assert b[k + 1] == a[j];
        }
      } else {
        SubsequenceKeepsUniqueIds(a, b[1..]);
      }
    }
  }

  lemma RemoveKeepsUniqueIds(tasks: seq<Task>, id: string)
    requires UniqueIds(tasks)
    ensures UniqueIds(RemoveById(tasks, id))
  {
    SubsequenceKeepsUniqueIds(RemoveById(tasks, id), tasks);
  }

  /** Appending keeps ids distinct exactly when the new id is fresh. */
  lemma AppendUniqueIffFresh(tasks: seq<Task>, task: Task)
    requires UniqueIds(tasks)
    ensures UniqueIds(tasks + [task]) <==> forall i :: 0 <= i < |tasks| ==> tasks[i].id != task.id
  {
    var r := tasks + [task];
    if !forall i :: 0 <= i < |tasks| ==> tasks[i].id != task.id {
      var i :| 0 <= i < |tasks| && tasks[i].id == task.id;
      assert r[i].id == r[|tasks|].id;
    }
  }

  /** Adding a task and then saving an edited version of it gives the list with the edited version appended. */
  lemma AddThenUpdate(tasks: seq<Task>, added: Task, edited: Task)
    requires UniqueIds(tasks)
    requires forall i :: 0 <= i < |tasks| ==> tasks[i].id != added.id
    requires edited.id == added.id
    ensures ReplaceById(tasks + [added], edited) == tasks + [edited]
  {
    AppendUniqueIffFresh(tasks, added);
    ReplaceUnique(tasks + [added], edited, |tasks|);
  }

  // ---------------------------------------------------------------- page state

  /** The page component's state: `tasks`, `editingTask` and `isFormOpen`. */
  class Index {
    var tasks: seq<Task>
    var editingTask: Option<Task>
    var isFormOpen: bool

    /** The initial state; `now` is the clock reading the seed due dates are relative to. */
    constructor(now: int)
      ensures tasks == SampleTasks(now) && editingTask == None && !isFormOpen
      ensures UniqueIds(tasks)
    {
      tasks := SampleTasks(now);
      editingTask := None;
      isFormOpen := false;
      SampleTaskIdsUnique(now);
    }

    method HandleToggleComplete(taskId: string)
      modifies this
      ensures tasks == ToggleById(old(tasks), taskId)
      ensures editingTask == old(editingTask) && isFormOpen == old(isFormOpen)
      ensures UniqueIds(old(tasks)) ==> UniqueIds(tasks)
    {
      if UniqueIds(tasks) {
        ToggleKeepsUniqueIds(tasks, taskId);
      }
      tasks := ToggleById(tasks, taskId);
    }

    method HandleEditTask(task: Task)
      modifies this
      ensures editingTask == Some(task) && isFormOpen
      ensures tasks == old(tasks)
    {
      editingTask := Some(task);
      isFormOpen := true;
    }

    method HandleDeleteTask(taskId: string)
      modifies this
      ensures tasks == RemoveById(old(tasks), taskId)
      ensures editingTask == old(editingTask) && isFormOpen == old(isFormOpen)
      ensures UniqueIds(old(tasks)) ==> UniqueIds(tasks)
    {
      if UniqueIds(tasks) {
        RemoveKeepsUniqueIds(tasks, taskId);
      }
      tasks := RemoveById(tasks, taskId);
    }

    method HandleAddTask()
      modifies this
      ensures editingTask == None && isFormOpen
      ensures tasks == old(tasks)
    {
      editingTask := None;
      isFormOpen := true;
    }

    /** Updates by id while a task is being edited, appends otherwise. */
    method HandleSaveTask(task: Task)
      modifies this
      ensures old(editingTask).Some? ==> tasks == ReplaceById(old(tasks), task)
      ensures old(editingTask).None? ==> tasks == old(tasks) + [task]
      ensures editingTask == old(editingTask) && isFormOpen == old(isFormOpen)
      ensures old(editingTask).Some? && UniqueIds(old(tasks)) ==> UniqueIds(tasks)
    {
      if editingTask.Some? {
        tasks := ReplaceById(tasks, task);
      } else {
        tasks := tasks + [task];
      }
    }

    /** The form's `onClose`. */
    method CloseForm()
      modifies this
      ensures !isFormOpen
      ensures tasks == old(tasks) && editingTask == old(editingTask)
    {
      isFormOpen := false;
    }
  }

  /** "Add Task" followed by a save appends the saved task. */
  method AddThenSave(page: Index, task: Task)
    modifies page
    ensures page.tasks == old(page.tasks) + [task]
    ensures page.editingTask == None && page.isFormOpen
  {
    page.HandleAddTask();
    page.HandleSaveTask(task);
  }

  /** Editing a task followed by a save replaces by id and keeps the length. */
  method EditThenSave(page: Index, editing: Task, task: Task)
    modifies page
    ensures page.tasks == ReplaceById(old(page.tasks), task)
    ensures |page.tasks| == |old(page.tasks)|
    ensures page.editingTask == Some(editing) && page.isFormOpen
  {
    page.HandleEditTask(editing);
    page.HandleSaveTask(task);
  }
}
