/**
 * The task list page: add a task from the input field, toggle a task between
 * done and pending, delete a task, and the two counters shown above the list.
 */
module Tasks {
  import opened Text
  import opened Collections

  datatype Task = Task(id: string, text: string, completed: bool)

  /** The list the page starts with. */
  const InitialTasks: seq<Task> := [
    Task("1", "Criar design system moderno", true),
    Task("2", "Implementar lista de tarefas", true),
    Task("3", "Adicionar animações suaves", false),
    Task("4", "Testar responsividade", false)
  ]

  /** The record `{ ...task, completed: !task.completed }` when the id matches, the task itself otherwise. */
  function Flip(t: Task, id: string): Task
  {
    if t.id == id then t.(completed := !t.completed) else t
  }

  /** `tasks.map((task) => task.id === id ? { ...task, completed: !task.completed } : task)` */
  function Toggled(ts: seq<Task>, id: string): (r: seq<Task>)
    ensures |r| == |ts|
    ensures forall i :: 0 <= i < |ts| ==> r[i].id == ts[i].id && r[i].text == ts[i].text
    ensures forall i :: 0 <= i < |ts| ==> r[i].completed == (ts[i].completed != (ts[i].id == id))
  {
    if ts == [] then [] else [Flip(ts[0], id)] + Toggled(ts[1..], id)
  }

  /** Toggling the same id twice restores the list; toggling an absent id changes nothing. */
  lemma {:induction false} ToggleInvolution(ts: seq<Task>, id: string)
    ensures Toggled(Toggled(ts, id), id) == ts
    ensures (forall i :: 0 <= i < |ts| ==> ts[i].id != id) ==> Toggled(ts, id) == ts
  {
    var once := Toggled(ts, id);
    var twice := Toggled(once, id);
    assert forall i :: 0 <= i < |ts| ==> twice[i] == ts[i];
  }

  function TaskIdIsNot(id: string): Task -> bool
  {
    (t: Task) => t.id != id
  }

  /** `tasks.filter((task) => task.id !== id)` */
  function WithoutTask(ts: seq<Task>, id: string): (r: seq<Task>)
    ensures |r| <= |ts|
    ensures forall i :: 0 <= i < |r| ==> r[i].id != id && r[i] in ts
    ensures forall i :: 0 <= i < |ts| && ts[i].id != id ==> ts[i] in r
  {
    Filter(ts, TaskIdIsNot(id))
  }

  /**
   * Deleting keeps exactly the tasks with another id, in their order, and
   * undoes adding a task under an id not yet in use.
   */
  lemma DeleteTaskKeepsOthers(ts: seq<Task>, id: string, t: Task)
    ensures forall i :: 0 <= i < |WithoutTask(ts, id)| ==> WithoutTask(ts, id)[i].id != id
    ensures forall i :: 0 <= i < |ts| && ts[i].id != id ==> ts[i] in WithoutTask(ts, id)
    ensures WithoutTask(ts + [t], id) == WithoutTask(ts, id) + (if t.id == id then [] else [t])
    ensures (forall i :: 0 <= i < |ts| ==> ts[i].id != t.id) ==> WithoutTask(ts + [t], t.id) == ts
  {
    FilterAppend(ts, [t], TaskIdIsNot(id));
    FilterAppend(ts, [t], TaskIdIsNot(t.id));
    FilterAll(ts, TaskIdIsNot(t.id));
  }

  /** Deleting an absent id changes nothing, and deleting twice is deleting once. */
  lemma DeleteTaskIdempotent(ts: seq<Task>, id: string)
    ensures (forall i :: 0 <= i < |ts| ==> ts[i].id != id) ==> WithoutTask(ts, id) == ts
    ensures WithoutTask(WithoutTask(ts, id), id) == WithoutTask(ts, id)
  {
    FilterAll(ts, TaskIdIsNot(id));
    FilterIdempotent(ts, TaskIdIsNot(id));
  }

  function IsCompleted(t: Task): bool
  {
    t.completed
  }

  function IsPending(t: Task): bool
  {
    !t.completed
  }

  /** `tasks.filter((t) => t.completed).length` */
  function CompletedCount(ts: seq<Task>): (n: nat)
    ensures n <= |ts|
    ensures n == 0 <==> forall i :: 0 <= i < |ts| ==> !ts[i].completed
  {
    Count(ts, IsCompleted)
  }

  /** `tasks.filter((t) => !t.completed).length` */
  function PendingCount(ts: seq<Task>): (n: nat)
    ensures n <= |ts|
    ensures n == 0 <==> forall i :: 0 <= i < |ts| ==> ts[i].completed
  {
    Count(ts, IsPending)
  }

  /** Every task is counted exactly once, as completed or as pending. */
  lemma CountsPartition(ts: seq<Task>)
    ensures CompletedCount(ts) + PendingCount(ts) == |ts|
  {
    CountComplement(ts, IsCompleted, IsPending);
  }

  /** The task page's state: the list of tasks, replaced as a whole by each operation. */
  class TaskList {
    var tasks: seq<Task>

    constructor ()
      ensures tasks == InitialTasks
    {
      tasks := InitialTasks;
    }

    /**
     * `addTask`: when the input is not blank, appends a pending task under
     * `id` holding the trimmed text; a blank input changes nothing.
     */
    method AddTask(newTask: string, id: string)
      modifies this
      ensures !IsBlank(newTask) ==> tasks == old(tasks) + [Task(id, Trim(newTask), false)]
      ensures IsBlank(newTask) ==> tasks == old(tasks)
    {
      if !IsBlank(newTask) {
        tasks := tasks + [Task(id, Trim(newTask), false)];
      }
    }

    /** `toggleTask`: flips `completed` on every task with this id. */
    method ToggleTask(id: string)
      modifies this
      ensures tasks == Toggled(old(tasks), id)
    {
      tasks := Toggled(tasks, id);
    }

    /** `deleteTask`: drops every task with this id. */
    method DeleteTask(id: string)
      modifies this
      ensures tasks == WithoutTask(old(tasks), id)
    {
      tasks := WithoutTask(tasks, id);
    }
  }
}
