/** The page's board as one object: the columns and their cards (what the DOM
    holds), the task being edited, and the stored snapshot. Each method is one
    function of the page script acting on that state. */
module Board {
  import opened Wrappers
  import opened Tasks
  import opened Snapshots

  /** Id of the column that receives new tasks. */
  const FirstColumn := "coluna1"

  /** Priority shown in the form when the task being edited has none. */
  const DefaultPriority := "Média"

  /** JavaScript's `v || fallback` for a string: the empty string is falsy. */
  function Or(v: string, fallback: string): string
  {
    if v != "" then v else fallback
  }

  /** The values `showTaskForm` writes into the form for a task being edited. */
  function Prefill(t: Task): TaskData
  {
    TaskData(Or(t.title, ""), Or(t.description, ""), Or(t.priority, DefaultPriority),
             Or(t.dueDate, ""), Or(t.responsible, ""))
  }

  /** Opening a card for editing and saving the form untouched keeps the card,
      except that an empty priority becomes the default one. */
  lemma SaveUntouchedForm(cols: Columns, id: string, c: nat, p: nat)
    requires Locate(cols, id) == Some(Pos(c, p))
    ensures c < |cols| && p < |cols[c]|
    ensures Updated(cols, id, Prefill(cols[c][p]))[c][p] ==
              cols[c][p].(priority := if cols[c][p].priority == "" then DefaultPriority else cols[c][p].priority)
    ensures cols[c][p].priority != "" ==> Updated(cols, id, Prefill(cols[c][p])) == cols
  {
    var t := cols[c][p];
    UpdatedAt(cols, id, Prefill(t), c, p);
    if t.priority != "" {
      assert MakeTask(id, Prefill(t)) == t;
      assert cols[c][p := t] == cols[c];
      assert cols[c := cols[c]] == cols;
    }
  }

  class KanbanBoard {
    /** Ids of the page's `.kanban-column` elements, in document order. */
    const columnIds: seq<string>
    /** The cards of each column in order; `columns[i]` sits in column `columnIds[i]`. */
    var columns: Columns
    /** `editingTask`: the task being edited, or None when the form creates one. */
    var editingTask: Option<Task>
    /** The value stored under the `kanbanTasks` key, None while nothing is stored. */
    var store: Option<Snapshot>

    ghost predicate Valid()
      reads this
    {
      |columns| == |columnIds| && Distinct(columnIds)
    }

    /** The page as it is opened: its columns, all empty, and whatever was stored before. */
    constructor (ids: seq<string>, stored: Option<Snapshot>)
      requires Distinct(ids)
      ensures Valid() && columnIds == ids && columns == Empties(|ids|)
      ensures editingTask == None && store == stored
    {
      columnIds := ids;
      columns := Empties(|ids|);
      editingTask := None;
      store := stored;
    }

    /** The object `saveTasksToLocalStorage` builds: a key per column, in board
        order, with the six fields of each of its cards, in order. */
    method BuildSnapshot() returns (s: Snapshot)
      requires Valid()
      ensures s == SnapshotOf(columnIds, columns)
    {
      s := [];
      var i := 0;
      while i < |columnIds|
        invariant 0 <= i <= |columnIds|
        invariant s == SnapshotOf(columnIds[..i], columns[..i])
      {
        var records := [];
        var j := 0;
        while j < |columns[i]|
          invariant 0 <= j <= |columns[i]|
          invariant records == columns[i][..j]
        {
          records := records + [columns[i][j]];
          j := j + 1;
        }
        assert records == columns[i];
        assert SnapshotOf(columnIds[..i + 1], columns[..i + 1])
            == SnapshotOf(columnIds[..i], columns[..i]) + [Entry(columnIds[i], columns[i])];
        s := s + [Entry(columnIds[i], records)];
        i := i + 1;
      }
      assert columnIds[..i] == columnIds && columns[..i] == columns;
    }

    method SaveTasksToLocalStorage()
      requires Valid()
      modifies this`store
      ensures store == Some(SnapshotOf(columnIds, columns))
    {
      var s := BuildSnapshot();
      store := Some(s);
    }

    /** `createNewTask`: the card with id "task-" + `stamp` (the time stamp the
        source reads from the clock) goes to the end of the first column. */
    method CreateNewTask(data: TaskData, stamp: string) returns (task: Task)
      requires Valid() && FirstColumn in columnIds
      requires Locate(columns, "task-" + stamp).None?
      modifies this`columns, this`store
      ensures Valid()
      ensures task.id == "task-" + stamp && DataOf(task) == data
      ensures IndexOf(columnIds, FirstColumn).Some?
      ensures columns == Created(old(columns), IndexOf(columnIds, FirstColumn).value, task)
      ensures IdBag(columns) == IdBag(old(columns)) + multiset{task.id}
      ensures Unique(old(columns)) ==> Unique(columns)
      ensures store == Some(SnapshotOf(columnIds, columns))
    {
      task := MakeTask("task-" + stamp, data);
      var c := IndexOf(columnIds, FirstColumn);
      LocateBag(columns, task.id);
      CreatedSpec(columns, c.value, task);
      columns := Created(columns, c.value, task);
      SaveTasksToLocalStorage();
    }

    /** `updateTask`, with `id` the id of `editingTask`: a missing card is
        reported and nothing changes, not even the store. */
    method UpdateTask(id: string, data: TaskData)
      requires Valid()
      modifies this`columns, this`store
      ensures Valid()
      ensures columns == Updated(old(columns), id, data)
      ensures store == if Locate(old(columns), id).Some? then Some(SnapshotOf(columnIds, columns)) else old(store)
      ensures Unique(old(columns)) ==> Unique(columns)
    {
      UpdatedSpec(columns, id, data);
      var pos := Locate(columns, id);
      if pos.None? {
        return;
      }
      columns := Updated(columns, id, data);
      SaveTasksToLocalStorage();
    }

    /** `deleteTask`: a missing card is reported and nothing changes. */
    method DeleteTask(id: string)
      requires Valid()
      modifies this`columns, this`store
      ensures Valid()
      ensures columns == Removed(old(columns), id)
      ensures store == if Locate(old(columns), id).Some? then Some(SnapshotOf(columnIds, columns)) else old(store)
      ensures Unique(old(columns)) ==> Unique(columns) && Locate(columns, id).None?
    {
      var pos := Locate(columns, id);
      if pos.None? {
        LocateBag(columns, id);
        return;
      }
      var c, p := pos.value.col, pos.value.idx;
      RemovedAt(columns, id, c, p);
      columns := Removed(columns, id);
      SaveTasksToLocalStorage();
    }

    /** The `dragover` handler of column `dst` while card `p` of column `src`
        is dragged: `appendChild` moves the card to the end of `dst`. */
    method DragOver(src: nat, p: nat, dst: nat)
      requires Valid() && src < |columns| && p < |columns[src]| && dst < |columns|
      modifies this`columns, this`store
      ensures Valid()
      ensures columns == Moved(old(columns), src, p, dst)
      ensures Bag(columns) == Bag(old(columns))
      ensures Unique(columns) <==> Unique(old(columns))
      ensures store == Some(SnapshotOf(columnIds, columns))
    {
      MovedCounts(columns, src, p, dst);
      columns := Moved(columns, src, p, dst);
      SaveTasksToLocalStorage();
    }

    /** `loadTasksFromLocalStorage`: the records of every stored key that names
        a column are appended to that column; other keys are skipped. Nothing
        is saved. */
    method LoadTasksFromLocalStorage()
      requires Valid()
      modifies this`columns
      ensures Valid()
      ensures columns == Loaded(columnIds, old(columns), StoredOrEmpty(store))
    {
      var tasks := StoredOrEmpty(store);
      if |columnIds| == 0 {
        return;
      }
      var n := 0;
      LoadEmpty(columnIds, columns);
      assert tasks[..0] == [];
      while n < |tasks|
        invariant 0 <= n <= |tasks|
        invariant columns == Loaded(columnIds, old(columns), tasks[..n])
      {
        var entry := tasks[n];
        LoadedStep(columnIds, old(columns), tasks[..n], entry);
        assert tasks[..n + 1] == tasks[..n] + [entry];
        var column := IndexOf(columnIds, entry.key);
        if column.Some? {
          var c := column.value;
          ghost var before := columns;
          assert c < |before| && before[c] + entry.records[..0] == before[c];
          var j := 0;
          while j < |entry.records|
            invariant 0 <= j <= |entry.records|
            invariant columns == before[c := before[c] + entry.records[..j]]
          {
            assert entry.records[..j + 1] == entry.records[..j] + [entry.records[j]];
            assert before[c] + entry.records[..j + 1] == (before[c] + entry.records[..j]) + [entry.records[j]];
            columns := columns[c := columns[c] + [entry.records[j]]];
            j := j + 1;
          }
          assert entry.records[..j] == entry.records;
        }
        n := n + 1;
      }
      assert tasks[..n] == tasks;
    }

    /** `showTaskForm`: with no task the form is reset for a new one; with a
        task the form shows its fields and that task becomes the one edited. */
    method ShowTaskForm(taskData: Option<Task>) returns (shown: Option<TaskData>)
      modifies this`editingTask
      ensures editingTask == taskData
      ensures shown == if taskData.Some? then Some(Prefill(taskData.value)) else None
    {
      if taskData.Some? {
        shown := Some(Prefill(taskData.value));
        editingTask := taskData;
      } else {
        shown := None;
        editingTask := None;
      }
    }

    /** `editTask`: reads the card with id `id` back into a record and opens
        the form on it. */
    method EditTask(id: string) returns (shown: Option<TaskData>)
      requires Locate(columns, id).Some?
      modifies this`editingTask
      ensures var pos := Locate(columns, id).value;
              editingTask == Some(columns[pos.col][pos.idx]) && editingTask.value.id == id
      ensures shown == Some(Prefill(editingTask.value))
    {
      var pos := Locate(columns, id).value;
      var card := columns[pos.col][pos.idx];
      var taskData := Task(id, card.title, card.description, card.priority, card.dueDate, card.responsible);
      shown := ShowTaskForm(Some(taskData));
    }

    /** `saveTask`: submits the form values, updating the edited task when
        there is one and creating a task otherwise. `editingTask` is kept. */
    method SaveTask(submitted: TaskData, stamp: string)
      requires Valid()
      requires editingTask.None? ==> FirstColumn in columnIds && Locate(columns, "task-" + stamp).None?
      modifies this`columns, this`store
      ensures Valid()
      ensures editingTask.Some? ==> columns == Updated(old(columns), editingTask.value.id, submitted)
      ensures editingTask.None? ==>
                (IndexOf(columnIds, FirstColumn).Some? &&
                 columns == Created(old(columns), IndexOf(columnIds, FirstColumn).value,
                                    MakeTask("task-" + stamp, submitted)))
      ensures store == if editingTask.Some? && Locate(old(columns), editingTask.value.id).None?
                       then old(store) else Some(SnapshotOf(columnIds, columns))
      ensures Unique(old(columns)) ==> Unique(columns)
    {
      if editingTask.Some? {
        UpdateTask(editingTask.value.id, submitted);
      } else {
        var task := CreateNewTask(submitted, stamp);
      }
    }
  }
}
