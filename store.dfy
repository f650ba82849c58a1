/**
 * The application over its database session: a class whose fields are the
 * three tables, their id counters and the mail sent. Each handler is a method
 * that changes the tables step by step as `app/main.py` does, and is proved to
 * make exactly the transition that the Handlers module specifies.
 */
module AppStore {
  import opened Wrappers
  import opened Schema
  import opened Handlers
  import Utf8

  /**
   * The body of `update_task` on the fetched row: `setattr` for each item of
   * `dict(exclude_unset=True)`, in order. The result is the patched row.
   */
  method ApplyUpdate(stored: TaskRow, taskUpdate: TaskUpdate) returns (task: TaskRow)
    ensures task == Patch(stored, taskUpdate)
  {
    var items := SetItems(taskUpdate);
    task := stored;
    var i := 0;
    while i < |items|
      invariant 0 <= i <= |items|
      invariant task == ApplyItems(stored, items[..i])
    {
      ApplyItemsStep(stored, items, i);
      task := SetAttr(task, items[i]);
      i := i + 1;
    }
    assert items[..i] == items;
    SetItemsPatch(stored, taskUpdate);
  }

  class Store {
    var users: map<int, UserRow>
    var otps: map<int, OtpRow>
    var tasks: map<int, TaskRow>
    var nextUserId: nat
    var nextOtpId: nat
    var nextTaskId: nat
    var outbox: seq<Notification>
    /** The password hasher, fixed when the application starts. */
    const hash: string -> Digest

    /** The tables as a value. */
    function Snapshot(): State
      reads this
    {
      State(users, otps, tasks, nextUserId, nextOtpId, nextTaskId, outbox)
    }

    ghost predicate Valid()
      reads this
    {
      Handlers.Valid(Snapshot())
    }

    /** A fresh database: empty tables, ids starting at 1, no mail sent. */
    constructor (hash: string -> Digest)
      ensures Valid() && Snapshot() == Init() && this.hash == hash
    {
      users, otps, tasks := map[], map[], map[];
      nextUserId, nextOtpId, nextTaskId := 1, 1, 1;
      outbox := [];
      this.hash := hash;
    }

    /** POST /register/ (`create_user`). */
    method CreateUser(user: UserCreate) returns (r: Result<UserOut>)
      requires Valid()
      modifies this
      ensures Valid()
      ensures Step(Snapshot(), r) == Register(old(Snapshot()), user, hash)
    {
      if EmailTaken(users, user.email) {
        return Err(EmailAlreadyRegistered);
      }
      var pwdBytes := Utf8.Encode(user.password);
      if |pwdBytes| > MaxPasswordBytes {
        return Err(PasswordTooLong);
      }
      ghost var before := Snapshot();
      var hashed := hash(user.password);
      // first commit: the user row, whose id the refresh then reads
      var dbUser := UserRow(nextUserId, user.firstName, user.lastName, user.email, hashed);
      users := users[dbUser.id := dbUser];
      nextUserId := nextUserId + 1;
      // second commit: the OTP row for that id
      var otp := OtpRow(nextOtpId, dbUser.id, FixedOtpCode);
      otps := otps[otp.id := otp];
      nextOtpId := nextOtpId + 1;
      outbox := outbox + [OtpEmail(dbUser.email, FixedOtpCode)];
      RegisterValid(before, user, hash);
      r := Ok(UserOut(dbUser.id, dbUser.firstName, dbUser.lastName, dbUser.email));
      assert Step(Snapshot(), r) == Register(before, user, hash);
    }

    /** POST /tasks/ (`create_task`). */
    method CreateTask(task: TaskCreate) returns (r: Result<Task>)
      requires Valid()
      modifies this
      ensures Valid()
      ensures Step(Snapshot(), r) == Handlers.CreateTask(old(Snapshot()), task)
    {
      var dbTask := TaskRow(nextTaskId, Some(task.title), Some(task.description), task.ownerId,
                            task.date, task.time, task.completed);
      tasks := tasks[dbTask.id := dbTask];
      nextTaskId := nextTaskId + 1;
      r := Respond(dbTask);
    }

    /** GET /tasks/ (`get_all_tasks`): every task once, in id order, or a server error for a row with a null field. */
    method GetAllTasks() returns (r: Result<seq<Task>>)
      requires Valid()
      ensures r == ListTasks(Snapshot())
      ensures r.Ok? <==> AllRespondable(Snapshot())
      ensures r.Ok? ==> forall i :: 0 <= i < |r.value| ==> r.value[i].id in tasks
      ensures r.Ok? ==> forall i, j :: 0 <= i < j < |r.value| ==> r.value[i].id < r.value[j].id
    {
      r := ListTasks(Snapshot());
      ListTasksOk(Snapshot());
      if r.Ok? {
        ListTasksIsTable(Snapshot());
      }
    }

    /** GET /tasks/{task_id} (`get_task`). */
    method GetTask(taskId: int) returns (r: Result<Task>)
      ensures r == Handlers.GetTask(Snapshot(), taskId)
      ensures taskId !in tasks <==> r == Err(TaskNotFound)
      ensures r.Ok? ==> RowOf(r.value) == tasks[taskId]
      ensures taskId in tasks ==> (r.Ok? <==> ToTask(tasks[taskId]).Some?)
      ensures taskId in tasks && r.Err? ==> r.error == ResponseInvalid
    {
      if taskId !in tasks {
        return Err(TaskNotFound);
      }
      r := Respond(tasks[taskId]);
    }

    /** PUT /tasks/{task_id} (`update_task`): `setattr` for each supplied field, then commit. */
    method UpdateTask(taskId: int, taskUpdate: TaskUpdate) returns (r: Result<Task>)
      requires Valid()
      modifies this
      ensures Valid()
      ensures Step(Snapshot(), r) == Handlers.UpdateTask(old(Snapshot()), taskId, taskUpdate)
    {
      if taskId !in tasks {
        return Err(TaskNotFound);
      }
      ghost var before := Snapshot();
      var task := ApplyUpdate(tasks[taskId], taskUpdate);
      UpdateTaskValid(before, taskId, taskUpdate);
      tasks := tasks[taskId := task];
      r := Respond(task);
    }

    /** DELETE /tasks/{task_id} (`delete_task`). */
    method DeleteTask(taskId: int) returns (r: Result<string>)
      requires Valid()
      modifies this
      ensures Valid()
      ensures Step(Snapshot(), r) == Handlers.DeleteTask(old(Snapshot()), taskId)
    {
      if taskId !in tasks {
        return Err(TaskNotFound);
      }
      tasks := tasks - {taskId};
      r := Ok(TaskDeleted);
    }
  }
}
