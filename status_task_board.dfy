/** `components/TaskBoard.tsx`: a project's tasks, kept as one flat list and
    shown grouped under three fixed status columns. A new task always starts
    in "todo"; its id is the one the server gives the stored record. */
module StatusTaskBoard {
  import opened Wrappers
  import opened Text

  /** `TaskType`: `_id` is the id the server assigned. */
  datatype Task = Task(id: string, projectId: string, content: string, description: Option<string>, columnId: string)

  datatype StatusColumn = StatusColumn(id: string, title: string)

  /** `defaultColumns`: the hardcoded status columns, in display order. */
  const DefaultColumns: seq<StatusColumn> :=
    [StatusColumn("todo", "To Do"), StatusColumn("in-progress", "In Progress"), StatusColumn("done", "Done")]

  /** `tasks.filter(t => t.columnId === columnId)`: the tasks of one column,
      in list order. */
  function TasksIn(tasks: seq<Task>, columnId: string): (r: seq<Task>)
    ensures |r| <= |tasks|
    ensures forall t :: t in r <==> t in tasks && t.columnId == columnId
  {
    if tasks == [] then []
    else (if tasks[0].columnId == columnId then [tasks[0]] else []) + TasksIn(tasks[1..], columnId)
  }

  /** The filter keeps the order: it distributes over concatenation. */
  lemma {:induction false} TasksInAppend(a: seq<Task>, b: seq<Task>, columnId: string)
    ensures TasksIn(a + b, columnId) == TasksIn(a, columnId) + TasksIn(b, columnId)
    decreases |a|
  {
    if a == [] {
      assert a + b == b;
    } else {
      assert (a + b)[1..] == a[1..] + b;
      TasksInAppend(a[1..], b, columnId);
    }
  }

  /** The `tasksByColumn` reduce: one entry per default column, holding
      exactly that column's tasks. */
  method GroupTasks(tasks: seq<Task>) returns (groups: map<string, seq<Task>>)
    ensures groups.Keys == {"todo", "in-progress", "done"}
    ensures forall c :: c in groups ==> groups[c] == TasksIn(tasks, c)
  {
    groups := map[];
    var i := 0;
    while i < |DefaultColumns|
      invariant 0 <= i <= |DefaultColumns|
      invariant groups.Keys == set k | 0 <= k < i :: DefaultColumns[k].id
      invariant forall c :: c in groups ==> groups[c] == TasksIn(tasks, c)
    {
      var col := DefaultColumns[i];
      groups := groups[col.id := TasksIn(tasks, col.id)];
      i := i + 1;
    }
    assert DefaultColumns[0].id == "todo" && DefaultColumns[1].id == "in-progress" && DefaultColumns[2].id == "done";
  }

  /** A status none of the default columns has. */
  predicate Unshown(columnId: string) {
    columnId != "todo" && columnId != "in-progress" && columnId != "done"
  }

  /** The tasks no group shows. */
  function UnshownTasks(tasks: seq<Task>): (r: seq<Task>)
    ensures forall t :: t in r <==> t in tasks && Unshown(t.columnId)
  {
    if tasks == [] then []
    else (if Unshown(tasks[0].columnId) then [tasks[0]] else []) + UnshownTasks(tasks[1..])
  }

  /** The groups split the list: every task is shown in exactly the group
      of its status, or in none when its status is not a default column, so
      the group sizes and the unshown tasks add up to the whole list. */
  lemma {:induction false} GroupsPartition(tasks: seq<Task>)
    ensures |TasksIn(tasks, "todo")| + |TasksIn(tasks, "in-progress")| + |TasksIn(tasks, "done")|
            + |UnshownTasks(tasks)| == |tasks|
    decreases |tasks|
  {
    if tasks != [] {
      GroupsPartition(tasks[1..]);
    }
  }

  /** The component's task list and the two form fields. */
  datatype TaskBoardState = TaskBoardState(tasks: seq<Task>, newTaskContent: string, newTaskDescription: string)

  /** The record the server stores and sends back for the posted fields:
      the fields as posted, under the id the server chose. */
  function CreatedTask(st: TaskBoardState, projectId: string, serverId: string): Task {
    Task(serverId, projectId, st.newTaskContent, Some(st.newTaskDescription), "todo")
  }

  /** `addTask`: blank content changes nothing; otherwise the created task
      is appended to the list and both form fields are cleared. */
  function AddTask(st: TaskBoardState, projectId: string, serverId: string): (r: TaskBoardState)
    ensures IsBlank(st.newTaskContent) ==> r == st
    ensures !IsBlank(st.newTaskContent) ==>
      && r.tasks == st.tasks + [CreatedTask(st, projectId, serverId)]
      && r.newTaskContent == "" && r.newTaskDescription == ""
  {
    if IsBlank(st.newTaskContent) then st
    else TaskBoardState(st.tasks + [CreatedTask(st, projectId, serverId)], "", "")
  }

  /** After `addTask` the "To Do" group gains exactly the new task, at its
      end, and every other group is unchanged. */
  lemma AddTaskGroups(st: TaskBoardState, projectId: string, serverId: string, columnId: string)
    ensures var r := AddTask(st, projectId, serverId);
      TasksIn(r.tasks, columnId) ==
        if !IsBlank(st.newTaskContent) && columnId == "todo"
        then TasksIn(st.tasks, columnId) + [CreatedTask(st, projectId, serverId)]
        else TasksIn(st.tasks, columnId)
  {
    var t := CreatedTask(st, projectId, serverId);
    TasksInAppend(st.tasks, [t], columnId);
    assert [t][1..] == [];
  }
}
