/**
 * The request handlers of the application as transitions of an in-memory
 * store: a user table, an OTP table and a task table, each keyed by an id
 * that the store assigns from its own counter. Each handler maps a state and
 * a request body to a new state and a response (`Step`).
 */
module Handlers {
  import opened Wrappers
  import opened Schema
  import Utf8

  /** A stored password digest, as the password hasher returns it. */
  datatype Digest = Digest(text: string)

  /** A row of the user table; the password column holds the digest. */
  datatype UserRow = UserRow(id: int, firstName: Option<string>, lastName: Option<string>,
                             email: string, password: Digest)

  /** A row of the OTP table. */
  datatype OtpRow = OtpRow(id: int, userId: int, otpCode: int)

  /**
   * A row of the task table. Title, description and completed can hold null:
   * an update may write an explicit null into them.
   */
  datatype TaskRow = TaskRow(id: int, title: Option<string>, description: Option<string>, ownerId: int,
                             date: string, time: string, completed: Option<bool>)

  /** An OTP e-mail handed to the mail sender. */
  datatype Notification = OtpEmail(to: string, code: int)

  /** The store, next ids per table, and the notifications sent so far. */
  datatype State = State(users: map<int, UserRow>, otps: map<int, OtpRow>, tasks: map<int, TaskRow>,
                         nextUserId: nat, nextOtpId: nat, nextTaskId: nat,
                         outbox: seq<Notification>)

  /** An `HTTPException`: status code and detail message. */
  datatype HttpError = HttpError(status: int, detail: string)

  datatype Result<T> = Ok(value: T) | Err(error: HttpError)

  /** The new state of the store and the response a handler produced. */
  datatype Step<T> = Step(state: State, result: Result<T>)

  /** The registration response: the new user without the password. */
  datatype UserOut = UserOut(id: int, firstName: Option<string>, lastName: Option<string>, email: string)

  const EmailAlreadyRegistered := HttpError(400, "Email already registered")
  const PasswordTooLong := HttpError(400, "Password is too long. When encoded to UTF-8 it exceeds 72 bytes; choose a shorter password.")
  const TaskNotFound := HttpError(404, "Task not found")
  /** What the framework answers when a response does not fit its response model. */
  const ResponseInvalid := HttpError(500, "Internal Server Error")

  /** The hasher's input limit in bytes. */
  const MaxPasswordBytes := 72
  /** The one code every registration issues. */
  const FixedOtpCode := 123456
  const TaskDeleted := "Task deleted successfully"

  /** The store before any request: empty tables, ids starting at 1. */
  function Init(): State
  {
    State(map[], map[], map[], 1, 1, 1, [])
  }

  /**
   * The store's invariant: each row sits under its own id, below its table's
   * counter; no two users share an email; every OTP row belongs to an existing
   * user and carries the fixed code; every user has an OTP row.
   */
  predicate Valid(s: State)
  {
    1 <= s.nextUserId && 1 <= s.nextOtpId && 1 <= s.nextTaskId
    && (forall id :: id in s.users ==> 1 <= id < s.nextUserId && s.users[id].id == id)
    && (forall a, b :: a in s.users && b in s.users && s.users[a].email == s.users[b].email ==> a == b)
    && (forall id :: id in s.otps ==>
          1 <= id < s.nextOtpId && s.otps[id].id == id
          && s.otps[id].userId in s.users && s.otps[id].otpCode == FixedOtpCode)
    && (forall u :: u in s.users ==> HasOtp(s.otps, u))
    && (forall id :: id in s.tasks ==> 1 <= id < s.nextTaskId && s.tasks[id].id == id)
  }

  /** Some OTP row belongs to user `u`. */
  predicate HasOtp(otps: map<int, OtpRow>, u: int)
  {
    exists o :: o in otps && otps[o].userId == u
  }

  /** Some user row has this email (the `.first()` of the duplicate query). */
  predicate EmailTaken(users: map<int, UserRow>, email: string)
  {
    exists id :: id in users && users[id].email == email
  }

  /** The byte-length rule: the UTF-8 encoding may be at most 72 bytes long. */
  function PasswordFits(password: string): (fits: bool)
    ensures fits <==> Utf8.Utf8Len(password) <= MaxPasswordBytes
  {
    |Utf8.Encode(password)| <= MaxPasswordBytes
  }

  // ---------------------------------------------------------------------------
  // POST /register/
  // ---------------------------------------------------------------------------

  /**
   * `create_user`: duplicate check, byte-length check, then a user row with
   * the digest, then an OTP row for the new id, then the OTP e-mail.
   */
  function Register(s: State, req: UserCreate, hash: string -> Digest): (r: Step<UserOut>)
    ensures r.result.Err? ==> r.state == s
    ensures r.result.Ok? <==> !EmailTaken(s.users, req.email) && PasswordFits(req.password)
    ensures r.result.Ok? ==> EmailTaken(r.state.users, req.email) && r.state.tasks == s.tasks
  {
    if EmailTaken(s.users, req.email) then
      Step(s, Err(EmailAlreadyRegistered))
    else if !PasswordFits(req.password) then
      Step(s, Err(PasswordTooLong))
    else
      var uid, oid := s.nextUserId, s.nextOtpId;
      var user := UserRow(uid, req.firstName, req.lastName, req.email, hash(req.password));
      var otp := OtpRow(oid, uid, FixedOtpCode);
      var s' := s.(users := s.users[uid := user], nextUserId := uid + 1,
                   otps := s.otps[oid := otp], nextOtpId := oid + 1,
                   outbox := s.outbox + [OtpEmail(req.email, FixedOtpCode)]);
      assert s'.users[uid].email == req.email;
      Step(s', Ok(UserOut(uid, req.firstName, req.lastName, req.email)))
  }

  /** Registration keeps the store's invariant, in particular unique emails. */
  lemma RegisterValid(s: State, req: UserCreate, hash: string -> Digest)
    requires Valid(s)
    ensures Valid(Register(s, req, hash).state)
  {
    var s' := Register(s, req, hash).state;
    if Register(s, req, hash).result.Ok? {
      forall u | u in s'.users ensures HasOtp(s'.otps, u) {
        if u == s.nextUserId {
          assert s'.otps[s.nextOtpId].userId == u;
        } else {
          var o :| o in s.otps && s.otps[o].userId == u;
          assert s'.otps[o].userId == u;
        }
      }
    }
  }

  /**
   * A taken email is refused whatever the password (the duplicate check runs
   * before the length check), and nothing changes.
   */
  lemma RegisterDuplicateEmail(s: State, req: UserCreate, hash: string -> Digest)
    requires EmailTaken(s.users, req.email)
    ensures Register(s, req, hash) == Step(s, Err(EmailAlreadyRegistered))
  {
  }

  /**
   * For a free email the length rule alone decides: an encoding over 72 bytes
   * is refused with nothing changed, one of 72 bytes or fewer is accepted.
   */
  lemma RegisterPasswordRule(s: State, req: UserCreate, hash: string -> Digest)
    requires !EmailTaken(s.users, req.email)
    ensures Utf8.Utf8Len(req.password) > MaxPasswordBytes ==>
              Register(s, req, hash) == Step(s, Err(PasswordTooLong))
    ensures Utf8.Utf8Len(req.password) <= MaxPasswordBytes <==> Register(s, req, hash).result.Ok?
  {
  }

  /** Passwords of at most 18 code points always fit; passwords of more than 72 never do. */
  lemma PasswordFitsByCount(password: string)
    ensures |password| <= MaxPasswordBytes / 4 ==> PasswordFits(password)
    ensures |password| > MaxPasswordBytes ==> !PasswordFits(password)
  {
    Utf8.Utf8LenBounds(password);
  }

  /** For an ASCII password the rule is exactly "at most 72 characters". */
  lemma AsciiPasswordFits(password: string)
    requires forall i :: 0 <= i < |password| ==> password[i] as int < 0x80
    ensures PasswordFits(password) <==> |password| <= MaxPasswordBytes
  {
    Utf8.AsciiLen(password);
  }

  /**
   * A successful registration adds exactly one user, under a fresh id and with
   * the digest of the password; exactly one OTP row, for that id and with the
   * fixed code; one notification to the new email; tasks are untouched. The
   * response echoes id, names and email.
   */
  lemma RegisterSuccess(s: State, req: UserCreate, hash: string -> Digest)
    requires Valid(s)
    requires Register(s, req, hash).result.Ok?
    ensures var Step(s', r) := Register(s, req, hash);
      var id := r.value.id;
      && id !in s.users
      && s'.users == s.users[id := UserRow(id, req.firstName, req.lastName, req.email, hash(req.password))]
      && |s'.users| == |s.users| + 1
      && (exists o :: o !in s.otps && s'.otps == s.otps[o := OtpRow(o, id, FixedOtpCode)])
      && |s'.otps| == |s.otps| + 1
      && s'.tasks == s.tasks
      && s'.outbox == s.outbox + [OtpEmail(req.email, FixedOtpCode)]
      && r.value == UserOut(id, req.firstName, req.lastName, req.email)
  {
    var o := s.nextOtpId;
    assert o !in s.otps;
  }

  /**
   * A body without names registers a user whose names are None, in the stored
   * row and in the response alike.
   */
  lemma RegisterWithoutNames(s: State, email: string, password: string, hash: string -> Digest)
    requires Valid(s)
    requires Register(s, NewUserCreate(email, password, Unset, Unset), hash).result.Ok?
    ensures var Step(s', r) := Register(s, NewUserCreate(email, password, Unset, Unset), hash);
      && r.value.firstName == None && r.value.lastName == None && r.value.email == email
      && s'.users[r.value.id] == UserRow(r.value.id, None, None, email, hash(password))
  {
  }

  /** Once an email has registered, registering it again fails and changes nothing. */
  lemma RegisterTwice(s: State, first: UserCreate, second: UserCreate, hash: string -> Digest)
    requires Register(s, first, hash).result.Ok?
    requires second.email == first.email
    ensures var s' := Register(s, first, hash).state;
      Register(s', second, hash) == Step(s', Err(EmailAlreadyRegistered))
  {
    var s' := Register(s, first, hash).state;
    assert s'.users[s.nextUserId].email == first.email;
  }

  // ---------------------------------------------------------------------------
  // Task responses
  // ---------------------------------------------------------------------------

  /** The row that holds exactly a task's seven fields. */
  function RowOf(t: Task): TaskRow
  {
    TaskRow(t.id, Some(t.title), Some(t.description), t.ownerId, t.date, t.time, Some(t.completed))
  }

  /**
   * Validation of a row against the `Task` response model: it passes exactly
   * when no field is null, and then it carries every field of the row.
   */
  function ToTask(row: TaskRow): (r: Option<Task>)
    ensures r.Some? <==> row.title.Some? && row.description.Some? && row.completed.Some?
    ensures r.Some? ==> RowOf(r.value) == row
  {
    if row.title.Some? && row.description.Some? && row.completed.Some? then
      Some(Task(row.id, row.title.value, row.description.value, row.ownerId,
                row.date, row.time, row.completed.value))
    else
      None
  }

  /** A task read back from its own row is that task. */
  lemma ToTaskRowOf(t: Task)
    ensures ToTask(RowOf(t)) == Some(t)
  {
  }

  /** The response for one row: the task, or a server error when the row does not fit `Task`. */
  function Respond(row: TaskRow): (r: Result<Task>)
    ensures r.Ok? <==> ToTask(row).Some?
    ensures r.Ok? ==> RowOf(r.value) == row
    ensures r.Err? ==> r.error == ResponseInvalid
  {
    match ToTask(row)
    case Some(t) => Ok(t)
    case None => Err(ResponseInvalid)
  }

  /** The response for a list of rows: every row validated, or a server error. */
  function RespondAll(rows: seq<TaskRow>): (r: Result<seq<Task>>)
    ensures r.Ok? <==> forall i :: 0 <= i < |rows| ==> ToTask(rows[i]).Some?
    ensures r.Ok? ==> |r.value| == |rows| && forall i :: 0 <= i < |rows| ==> ToTask(rows[i]) == Some(r.value[i])
    ensures r.Err? ==> r.error == ResponseInvalid
  {
    if rows == [] then Ok([])
    else
      match (ToTask(rows[0]), RespondAll(rows[1..]))
      case (Some(t), Ok(ts)) => Ok([t] + ts)
      case _ => Err(ResponseInvalid)
  }

  // ---------------------------------------------------------------------------
  // POST /tasks/
  // ---------------------------------------------------------------------------

  /** `create_task`: a new row with the body's fields; the owner is not checked. */
  function CreateTask(s: State, t: TaskCreate): (r: Step<Task>)
    ensures r.state.tasks.Keys == s.tasks.Keys + {s.nextTaskId}
    ensures r.state == s.(tasks := r.state.tasks, nextTaskId := s.nextTaskId + 1)
    ensures r.result.Ok? <==> t.completed.Some?
  {
    var id := s.nextTaskId;
    var row := TaskRow(id, Some(t.title), Some(t.description), t.ownerId, t.date, t.time, t.completed);
    Step(s.(tasks := s.tasks[id := row], nextTaskId := id + 1), Respond(row))
  }

  lemma CreateTaskValid(s: State, t: TaskCreate)
    requires Valid(s)
    ensures Valid(CreateTask(s, t).state)
  {
  }

  /**
   * Creating a task adds exactly one row, under a fresh id, with the body's
   * fields and whatever owner id it names; users and OTPs are untouched.
   * A null `completed` is stored, and the response then fails the `Task` model.
   */
  lemma CreateTaskSuccess(s: State, t: TaskCreate)
    requires Valid(s)
    ensures var Step(s', r) := CreateTask(s, t);
      exists id :: id !in s.tasks
        && s'.tasks == s.tasks[id := TaskRow(id, Some(t.title), Some(t.description), t.ownerId,
                                             t.date, t.time, t.completed)]
        && (t.completed.Some? ==>
              r == Ok(Task(id, t.title, t.description, t.ownerId, t.date, t.time, t.completed.value)))
    ensures CreateTask(s, t).state.users == s.users && CreateTask(s, t).state.otps == s.otps
    ensures t.completed.None? ==> CreateTask(s, t).result == Err(ResponseInvalid)
  {
    assert s.nextTaskId !in s.tasks;
  }

  /** A body without `completed` creates a task whose response says completed = false. */
  lemma CreateTaskDefaultIncomplete(s: State, title: string, description: string, ownerId: int,
                                    date: string, time: string)
    ensures var r := CreateTask(s, NewTaskCreate(title, description, ownerId, date, time, Unset)).result;
      r.Ok? && !r.value.completed && r.value.title == title && r.value.description == description
  {
  }

  // ---------------------------------------------------------------------------
  // GET /tasks/
  // ---------------------------------------------------------------------------

  /** The keys below `n`, in increasing order. */
  function IdsBelow(keys: set<int>, n: nat): (ids: seq<int>)
    ensures forall i, j :: 0 <= i < j < |ids| ==> ids[i] < ids[j]
    ensures forall k :: k in ids <==> k in keys && 0 <= k < n
  {
    if n == 0 then []
    else
      var prev := IdsBelow(keys, n - 1);
      assert forall i :: 0 <= i < |prev| ==> prev[i] < n - 1 by {
        forall i | 0 <= i < |prev| ensures prev[i] < n - 1 { assert prev[i] in prev; }
      }
      prev + (if n - 1 in keys then [n - 1] else [])
  }

  /** The task table's rows in id order. */
  function TaskRows(s: State): (rows: seq<TaskRow>)
  {
    var ids := IdsBelow(s.tasks.Keys, s.nextTaskId);
    seq(|ids|, i requires 0 <= i < |ids| => s.tasks[ids[i]])
  }

  /** `get_all_tasks`: every row of the task table, validated as `Task`s. */
  function ListTasks(s: State): (r: Result<seq<Task>>)
    ensures r.Err? ==> r.error == ResponseInvalid
  {
    RespondAll(TaskRows(s))
  }

  /** Row `i` of the listing is the row under the `i`-th id of the table. */
  lemma TaskRowsAt(s: State)
    requires Valid(s)
    ensures var ids, rows := IdsBelow(s.tasks.Keys, s.nextTaskId), TaskRows(s);
      && |rows| == |ids|
      && (forall i :: 0 <= i < |ids| ==> ids[i] in s.tasks && rows[i] == s.tasks[ids[i]] && rows[i].id == ids[i])
      && (forall id :: id in s.tasks <==> id in ids)
  {
  }

  /** Every row of the table fits the response model. */
  predicate AllRespondable(s: State)
  {
    forall id :: id in s.tasks ==> ToTask(s.tasks[id]).Some?
  }

  /** The listing fails exactly when some row of the table does not fit the response model. */
  lemma ListTasksOk(s: State)
    requires Valid(s)
    ensures ListTasks(s).Ok? <==> AllRespondable(s)
  {
    var ids, rows := IdsBelow(s.tasks.Keys, s.nextTaskId), TaskRows(s);
    TaskRowsAt(s);
    if AllRespondable(s) {
      forall i | 0 <= i < |rows| ensures ToTask(rows[i]).Some? {
        assert ids[i] in s.tasks;
      }
    } else {
      var id :| id in s.tasks && ToTask(s.tasks[id]).None?;
      var i :| 0 <= i < |ids| && ids[i] == id;
      assert ToTask(rows[i]).None?;
    }
  }

  /** A successful listing holds each task of the table exactly once, in increasing id order. */
  lemma ListTasksIsTable(s: State)
    requires Valid(s)
    requires ListTasks(s).Ok?
    ensures var ts := ListTasks(s).value;
      && (forall i :: 0 <= i < |ts| ==> ts[i].id in s.tasks && ToTask(s.tasks[ts[i].id]) == Some(ts[i]))
      && (forall i, j :: 0 <= i < j < |ts| ==> ts[i].id < ts[j].id)
      && (forall id :: id in s.tasks ==> exists i :: 0 <= i < |ts| && ts[i].id == id)
  {
    TaskRowsAt(s);
    ValidatedIds(IdsBelow(s.tasks.Keys, s.nextTaskId), TaskRows(s), ListTasks(s).value);
  }

  /** Validated rows keep the rows' ids, position by position. */
  lemma ValidatedIds(ids: seq<int>, rows: seq<TaskRow>, ts: seq<Task>)
    requires |rows| == |ids| == |ts|
    requires forall i :: 0 <= i < |ids| ==> rows[i].id == ids[i] && ToTask(rows[i]) == Some(ts[i])
    ensures forall i :: 0 <= i < |ts| ==> ts[i].id == ids[i] && ToTask(rows[i]) == Some(ts[i])
    ensures forall id :: id in ids ==> exists i :: 0 <= i < |ts| && ts[i].id == id
  {
    forall id | id in ids ensures exists i :: 0 <= i < |ts| && ts[i].id == id {
      var i :| 0 <= i < |ids| && ids[i] == id;
      assert ts[i].id == id;
    }
  }

  // ---------------------------------------------------------------------------
  // GET /tasks/{task_id}
  // ---------------------------------------------------------------------------

  /** `get_task`: the row under `id`, or "Task not found". */
  function GetTask(s: State, id: int): (r: Result<Task>)
    ensures r == Err(TaskNotFound) <==> id !in s.tasks
    ensures r.Ok? ==> id in s.tasks && RowOf(r.value) == s.tasks[id]
    ensures id in s.tasks ==> (r.Ok? <==> ToTask(s.tasks[id]).Some?)
    ensures id in s.tasks && r.Err? ==> r.error == ResponseInvalid
  {
    if id !in s.tasks then Err(TaskNotFound) else Respond(s.tasks[id])
  }

  /** A task just created is found under the id its response carries. */
  lemma CreatedTaskIsFound(s: State, t: TaskCreate)
    requires Valid(s)
    requires CreateTask(s, t).result.Ok?
    ensures var Step(s', r) := CreateTask(s, t);
      GetTask(s', r.value.id) == r
  {
  }

  // ---------------------------------------------------------------------------
  // PUT /tasks/{task_id}
  // ---------------------------------------------------------------------------

  /** Patch semantics: each supplied field is written, every other field keeps its value. */
  function Patch(row: TaskRow, u: TaskUpdate): (r: TaskRow)
    ensures r.id == row.id && r.ownerId == row.ownerId && r.date == row.date && r.time == row.time
    ensures u == NoChanges ==> r == row
  {
    row.(title := ValueOr(u.title, row.title),
         description := ValueOr(u.description, row.description),
         completed := ValueOr(u.completed, row.completed))
  }

  /** `setattr(task, key, value)` for one item. */
  function SetAttr(row: TaskRow, item: Item): (r: TaskRow)
    ensures r.id == row.id && r.ownerId == row.ownerId && r.date == row.date && r.time == row.time
  {
    match item
    case TitleItem(v) => row.(title := v)
    case DescriptionItem(v) => row.(description := v)
    case CompletedItem(v) => row.(completed := v)
  }

  /** The `setattr` loop over a sequence of items, first item first. */
  function ApplyItems(row: TaskRow, items: seq<Item>): TaskRow
  {
    if items == [] then row else SetAttr(ApplyItems(row, items[..|items| - 1]), items[|items| - 1])
  }

  /** One more `setattr`: applying the first `i + 1` items applies the first `i`, then item `i`. */
  lemma ApplyItemsStep(row: TaskRow, items: seq<Item>, i: int)
    requires 0 <= i < |items|
    ensures ApplyItems(row, items[..i + 1]) == SetAttr(ApplyItems(row, items[..i]), items[i])
  {
    assert items[..i + 1][..i] == items[..i];
  }

  /** Whatever items are applied, id, owner, date and time stay as they were. */
  lemma {:induction false} ApplyItemsKeepsFixedFields(row: TaskRow, items: seq<Item>)
    ensures var r := ApplyItems(row, items);
      r.id == row.id && r.ownerId == row.ownerId && r.date == row.date && r.time == row.time
  {
    if items != [] {
      ApplyItemsKeepsFixedFields(row, items[..|items| - 1]);
    }
  }

  /** Applying `a + b` applies `a`, then `b`. */
  lemma {:induction false} ApplyItemsAppend(row: TaskRow, a: seq<Item>, b: seq<Item>)
    ensures ApplyItems(row, a + b) == ApplyItems(ApplyItems(row, a), b)
    decreases |b|
  {
    if b == [] {
      assert a + b == a;
    } else {
      var b' := b[..|b| - 1];
      assert (a + b)[..|a + b| - 1] == a + b';
      ApplyItemsAppend(row, a, b');
    }
  }

  /** The `setattr` loop over the supplied items performs exactly the patch. */
  lemma SetItemsPatch(row: TaskRow, u: TaskUpdate)
    ensures ApplyItems(row, SetItems(u)) == Patch(row, u)
  {
    var t := if u.title.Given? then [TitleItem(u.title.value)] else [];
    var d := if u.description.Given? then [DescriptionItem(u.description.value)] else [];
    var c := if u.completed.Given? then [CompletedItem(u.completed.value)] else [];
    assert SetItems(u) == t + d + c;
    ApplyItemsAppend(row, t + d, c);
    ApplyItemsAppend(row, t, d);
    var r1 := ApplyItems(row, t);
    var r2 := ApplyItems(r1, d);
    assert t != [] ==> t[..0] == [];
    assert d != [] ==> d[..0] == [];
    assert c != [] ==> c[..0] == [];
    assert r1 == row.(title := ValueOr(u.title, row.title));
    assert r2 == r1.(description := ValueOr(u.description, row.description));
    assert ApplyItems(r2, c) == r2.(completed := ValueOr(u.completed, row.completed));
  }

  /** `update_task`: "Task not found" for an absent id, else the stored row patched. */
  function UpdateTask(s: State, id: int, u: TaskUpdate): (r: Step<Task>)
    ensures r.state.tasks.Keys == s.tasks.Keys
    ensures r.state == s.(tasks := r.state.tasks)
    ensures r.result == Err(TaskNotFound) <==> id !in s.tasks
  {
    if id !in s.tasks then Step(s, Err(TaskNotFound))
    else
      var row := Patch(s.tasks[id], u);
      Step(s.(tasks := s.tasks[id := row]), Respond(row))
  }

  lemma UpdateTaskValid(s: State, id: int, u: TaskUpdate)
    requires Valid(s)
    ensures Valid(UpdateTask(s, id, u).state)
  {
  }

  /**
   * An update of a present task rewrites that one row and nothing else: the
   * supplied fields take the sent values (null included), every other field,
   * and in particular owner, date and time, keeps its value. The response is
   * the patched row as a `Task`, or a server error when it holds a null.
   */
  lemma UpdateTaskSuccess(s: State, id: int, u: TaskUpdate)
    requires id in s.tasks
    ensures var Step(s', r) := UpdateTask(s, id, u);
      var old_, new_ := s.tasks[id], s'.tasks[id];
      && (ToTask(new_).Some? ==> r == Ok(ToTask(new_).value))
      && (ToTask(new_).None? ==> r == Err(ResponseInvalid))
      && s'.tasks.Keys == s.tasks.Keys
      && (forall k :: k in s.tasks && k != id ==> s'.tasks[k] == s.tasks[k])
      && s' == s.(tasks := s'.tasks)
      && new_.id == old_.id && new_.ownerId == old_.ownerId && new_.date == old_.date && new_.time == old_.time
      && new_.title == (if u.title.Given? then u.title.value else old_.title)
      && new_.description == (if u.description.Given? then u.description.value else old_.description)
      && new_.completed == (if u.completed.Given? then u.completed.value else old_.completed)
  {
  }

  /** An update with no field supplied leaves the store exactly as it was. */
  lemma UpdateNothingSupplied(s: State, id: int)
    requires id in s.tasks
    ensures UpdateTask(s, id, NoChanges).state == s
  {
    assert s.tasks[id := s.tasks[id]] == s.tasks;
  }

  /**
   * An explicit null is written and committed; the response then fails the
   * `Task` model, and so does every later read of that task.
   */
  lemma UpdateToNull(s: State, id: int)
    requires id in s.tasks
    ensures var Step(s', r) := UpdateTask(s, id, NoChanges.(title := Given(None)));
      && s'.tasks[id].title == None
      && r == Err(ResponseInvalid)
      && GetTask(s', id) == Err(ResponseInvalid)
  {
  }

  /** Updating only `completed` leaves title and description as they were. */
  lemma UpdateCompletedOnly(s: State, id: int, done: bool)
    requires id in s.tasks
    ensures var t := UpdateTask(s, id, NoChanges.(completed := Given(Some(done)))).state.tasks[id];
      t.title == s.tasks[id].title && t.description == s.tasks[id].description && t.completed == Some(done)
  {
  }

  // ---------------------------------------------------------------------------
  // DELETE /tasks/{task_id}
  // ---------------------------------------------------------------------------

  /** `delete_task`: "Task not found" for an absent id, else the row removed. */
  function DeleteTask(s: State, id: int): (r: Step<string>)
    ensures r.state.tasks.Keys == s.tasks.Keys - {id}
    ensures r.state == s.(tasks := r.state.tasks)
    ensures r.result.Ok? <==> id in s.tasks
  {
    if id !in s.tasks then Step(s, Err(TaskNotFound))
    else Step(s.(tasks := s.tasks - {id}), Ok(TaskDeleted))
  }

  lemma DeleteTaskValid(s: State, id: int)
    requires Valid(s)
    ensures Valid(DeleteTask(s, id).state)
  {
  }

  /**
   * Deleting a present task removes exactly that row; every other row and
   * every other table stays, and the task is not found afterwards.
   */
  lemma DeleteTaskSuccess(s: State, id: int)
    requires id in s.tasks
    ensures var Step(s', r) := DeleteTask(s, id);
      && r == Ok(TaskDeleted)
      && s'.tasks.Keys == s.tasks.Keys - {id}
      && |s'.tasks| == |s.tasks| - 1
      && (forall k :: k in s'.tasks ==> s'.tasks[k] == s.tasks[k])
      && s' == s.(tasks := s'.tasks)
      && GetTask(s', id) == Err(TaskNotFound)
  {
  }

  /** For an absent id, reading, updating and deleting all fail with "Task not found" and change nothing. */
  lemma AbsentTask(s: State, id: int, u: TaskUpdate)
    requires id !in s.tasks
    ensures GetTask(s, id) == Err(TaskNotFound)
    ensures UpdateTask(s, id, u) == Step(s, Err(TaskNotFound))
    ensures DeleteTask(s, id) == Step(s, Err(TaskNotFound))
  {
  }
}
