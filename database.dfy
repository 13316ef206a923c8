/** The `tasks` table of main.py as an object whose one field is the table,
    keyed by the INTEGER PRIMARY KEY `id`. Each HTTP handler (get_tasks,
    create_task, update_task, delete_task) and each CLI command (addItem,
    updateItem, removeItem) is a method that changes the table the way its
    SQL statement does. Validation of the request body happens before the
    handler runs, so a method that takes a body first validates it and
    answers 422 without touching the table. */
module Database {
  import opened Models
  import opened Rows

  class TaskDb {
    var tasks: map<int, Row>

    /** Every stored row is one that the Task response model accepts. The
        HTTP handlers keep this; the CLI commands do not check it. */
    ghost predicate Conforming()
      reads this
    {
      forall id :: id in tasks ==> ValidRow(tasks[id])
    }

    /** Every key is a rowid SQLite could have given a new row. Every method
        keeps this, since rows only ever get such ids. */
    ghost predicate RowidKeys()
      reads this
    {
      forall id :: id in tasks ==> AssignableRowid(id)
    }

    /** `CREATE TABLE IF NOT EXISTS tasks` on a database that has none. */
    constructor ()
      ensures tasks == map[]
      ensures RowidKeys()
    {
      tasks := map[];
    }

    /** `SELECT id, task_name, description, status, date_added FROM tasks`:
        every row once, in an order the statement does not fix. */
    method SelectAll() returns (scan: seq<(int, Row)>)
      ensures IsScanOf(scan, tasks)
    {
      scan := [];
      var left := tasks.Keys;
      while left != {}
        invariant left <= tasks.Keys
        invariant |scan| + |left| == |tasks|
        invariant forall i :: 0 <= i < |scan| ==> scan[i].0 in tasks && scan[i].0 !in left && tasks[scan[i].0] == scan[i].1
        invariant forall i, j :: 0 <= i < j < |scan| ==> scan[i].0 != scan[j].0
        decreases left
      {
        NonEmptyHasMember(left);
        var id :| id in left;
        scan := scan + [(id, tasks[id])];
        left := left - {id};
      }
    }

    /** GET /tasks: one Task per stored row, equal to that row field for
        field, each row exactly once. */
    method GetTasks() returns (list: seq<Task>)
      ensures |list| == |tasks|
      ensures forall i :: 0 <= i < |list| ==> list[i].id in tasks && list[i] == ToTask(list[i].id, tasks[list[i].id])
      ensures forall i, j :: 0 <= i < j < |list| ==> list[i].id != list[j].id
      ensures forall id :: id in tasks ==> exists i :: 0 <= i < |list| && list[i] == ToTask(id, tasks[id])
      ensures Conforming() ==> forall i :: 0 <= i < |list| ==> ValidRow(Columns(list[i]))
    {
      var scan := SelectAll();
      list := ToTasks(scan);
      ScanIsComplete(scan, tasks);
      forall id | id in tasks ensures exists i :: 0 <= i < |list| && list[i] == ToTask(id, tasks[id]) {
        var i :| 0 <= i < |scan| && scan[i].0 == id;
        assert list[i] == ToTask(id, tasks[id]);
      }
    }

    /** POST /tasks: a valid body inserts one row under a rowid the table did
        not hold, and the response is the row just stored. With every rowid
        taken the INSERT fails and the answer is 500. */
    method CreateTask(body: Body, dateAdded: string) returns (r: Result<Task, HttpError>)
      modifies this
      ensures r.Ok? <==> ValidateCreate(body).Ok? && |old(tasks)| < MaxRowid
      ensures ValidateCreate(body).Err? ==> r == Err(UnprocessableEntity)
      ensures ValidateCreate(body).Ok? && |old(tasks)| >= MaxRowid ==> r == Err(ServerError)
      ensures r.Err? ==> tasks == old(tasks)
      ensures r.Ok? ==>
        && AssignableRowid(r.value.id)
        && r.value.id !in old(tasks)
        && tasks == old(tasks)[r.value.id := Inserted(ValidateCreate(body).value, dateAdded)]
        && r.value == ToTask(r.value.id, tasks[r.value.id])
      ensures old(Conforming()) ==> Conforming()
      ensures old(RowidKeys()) ==> RowidKeys()
    {
      match ValidateCreate(body)
      case Err(e) =>
        r := Err(e);
      case Ok(t) =>
        if |tasks| >= MaxRowid {
          r := Err(ServerError);
        } else {
          FreshRowidExists(tasks.Keys);
          var id :| AssignableRowid(id) && id !in tasks;
          tasks := tasks[id := Inserted(t, dateAdded)];
          r := Ok(Task(id, t.taskName, t.description, t.status, dateAdded));
        }
    }

    /** PUT /tasks/{task_id}: an id the driver cannot bind answers 500 and an
        unknown id 404, both changing nothing; a known one gets the per-field
        merge, and the response is the row as now stored. No other row
        changes. */
    method UpdateTask(taskId: int, body: Body) returns (r: Result<Task, HttpError>)
      modifies this
      ensures ValidateUpdate(body).Err? ==> r == Err(UnprocessableEntity) && tasks == old(tasks)
      ensures ValidateUpdate(body).Ok? && !Bindable(taskId) ==> r == Err(ServerError) && tasks == old(tasks)
      ensures ValidateUpdate(body).Ok? && Bindable(taskId) && taskId !in old(tasks) ==>
        r == Err(NotFound) && tasks == old(tasks)
      ensures ValidateUpdate(body).Ok? && Bindable(taskId) && taskId in old(tasks) ==>
        && tasks == old(tasks)[taskId := Merge(old(tasks)[taskId], ValidateUpdate(body).value)]
        && r == Ok(ToTask(taskId, tasks[taskId]))
      ensures old(Conforming()) ==> Conforming()
      ensures old(RowidKeys()) ==> RowidKeys()
    {
      match ValidateUpdate(body)
      case Err(e) =>
        r := Err(e);
      case Ok(u) =>
        if !Bindable(taskId) {
          r := Err(ServerError);
        } else if taskId !in tasks {
          r := Err(NotFound);
        } else {
          var row := tasks[taskId];
          var merged := Merge(row, u);
          tasks := tasks[taskId := merged];
          r := Ok(Task(taskId, merged.taskName, merged.description, merged.status, row.dateAdded));
        }
    }

    /** DELETE /tasks/{task_id}: an id the driver cannot bind answers 500 and
        an unknown id 404, both changing nothing; a known one removes exactly
        that row. */
    method DeleteTask(taskId: int) returns (r: Result<(), HttpError>)
      modifies this
      ensures r.Ok? <==> Bindable(taskId) && taskId in old(tasks)
      ensures r.Err? ==> r.error == if Bindable(taskId) then NotFound else ServerError
      ensures tasks == if Bindable(taskId) then old(tasks) - {taskId} else old(tasks)
      ensures r.Ok? ==> |tasks| == |old(tasks)| - 1
      ensures old(Conforming()) ==> Conforming()
      ensures old(RowidKeys()) ==> RowidKeys()
    {
      if !Bindable(taskId) {
        r := Err(ServerError);
      } else if taskId !in tasks {
        r := Err(NotFound);
      } else {
        tasks := tasks - {taskId};
        r := Ok(());
      }
    }

    /** CLI addItem: inserts a pending row with no check on the name or the
        description; with every rowid taken the INSERT fails and nothing
        changes. */
    method AddItem(taskName: string, description: string, dateAdded: string)
      modifies this
      ensures |old(tasks)| < MaxRowid ==>
        exists id :: AssignableRowid(id) && id !in old(tasks) &&
          tasks == old(tasks)[id := Row(taskName, Some(description), DefaultStatus, dateAdded)]
      ensures |old(tasks)| >= MaxRowid ==> tasks == old(tasks)
      ensures old(Conforming()) && ValidName(taskName) && |description| <= MaxDescriptionLength ==> Conforming()
      ensures old(RowidKeys()) ==> RowidKeys()
    {
      if |tasks| < MaxRowid {
        FreshRowidExists(tasks.Keys);
        var id :| AssignableRowid(id) && id !in tasks;
        tasks := tasks[id := Row(taskName, Some(description), DefaultStatus, dateAdded)];
      }
    }

    /** CLI updateItem: sets the status of the row, any text at all; an
        unknown id, or one the driver cannot bind, changes nothing. */
    method UpdateItem(taskId: int, newStatus: string)
      modifies this
      ensures tasks ==
        if Bindable(taskId) && taskId in old(tasks)
        then old(tasks)[taskId := old(tasks)[taskId].(status := newStatus)]
        else old(tasks)
      ensures old(Conforming()) && ValidStatus(newStatus) ==> Conforming()
      ensures old(RowidKeys()) ==> RowidKeys()
    {
      if Bindable(taskId) && taskId in tasks {
        tasks := tasks[taskId := tasks[taskId].(status := newStatus)];
      }
    }

    /** CLI removeItem: deletes the row if there is one; an unknown id, or one
        the driver cannot bind, changes nothing. */
    method RemoveItem(taskId: int)
      modifies this
      ensures tasks == if Bindable(taskId) then old(tasks) - {taskId} else old(tasks)
      ensures old(Conforming()) ==> Conforming()
      ensures old(RowidKeys()) ==> RowidKeys()
    {
      if Bindable(taskId) {
        tasks := tasks - {taskId};
      }
    }
  }

  /** POST `{"task_name": "Buy milk"}`: the new task is pending, has no
      description, and its id was free. */
  method CreateWithDefaults(db: TaskDb, dateAdded: string) returns (r: Result<Task, HttpError>)
    requires |db.tasks| < MaxRowid
    modifies db
    ensures r.Ok? && r.value.id !in old(db.tasks)
    ensures r.value.taskName == "Buy milk" && r.value.description == None && r.value.status == "pending"
    ensures db.tasks == old(db.tasks)[r.value.id := Columns(r.value)]
  {
    r := db.CreateTask(Body(Given("Buy milk"), Absent, Absent), dateAdded);
  }

  /** PUT with a name and a status but no description keeps the stored
      description: the update merges, it does not replace. */
  method UpdateKeepsDescription(db: TaskDb, taskId: int) returns (r: Result<Task, HttpError>)
    requires db.RowidKeys()
    requires taskId in db.tasks && db.tasks[taskId].description == Some("2%")
    modifies db
    ensures r.Ok? && r.value.description == Some("2%") && r.value.status == "done"
    ensures taskId in db.tasks && db.tasks[taskId].description == Some("2%")
  {
    r := db.UpdateTask(taskId, Body(Given("Buy milk"), Absent, Given("done")));
  }

  /** Create, delete the new id, delete it again: the table is as before and
      the second delete answers 404. */
  method CreateDeleteDelete(db: TaskDb, body: Body, dateAdded: string)
    returns (first: Result<(), HttpError>, second: Result<(), HttpError>)
    requires ValidateCreate(body).Ok? && |db.tasks| < MaxRowid
    modifies db
    ensures first.Ok? && second == Err(NotFound)
    ensures db.tasks == old(db.tasks)
  {
    var created := db.CreateTask(body, dateAdded);
    first := db.DeleteTask(created.value.id);
    second := db.DeleteTask(created.value.id);
  }
}
