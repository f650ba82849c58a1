# Todo application backend: registration and task CRUD

This project models the request handlers of a small task-management backend
(FastAPI over SQLAlchemy) and proves properties of that model in Dafny.

The backend keeps three tables: users, one-time passcodes (OTPs) and tasks.
Registration (`create_user`) runs four steps in order:

1. It refuses an email that is already registered.
2. It refuses a password whose UTF-8 encoding is longer than 72 bytes.
3. It stores the user with the password's digest.
4. It stores an OTP row with the fixed code 123456 for the new user and hands the code to the mail sender.

The task handlers create, list, read, patch and delete task rows by id. They
check neither the owner of a task nor that its owner id names a user.

`app/main.py` has no handler for OTP verification, login or user deletion, so
none is modelled.

Modules:

- `Wrappers` (`wrappers.dfy`): `Option`.
- `Utf8` (`utf8.dfy`): `str.encode("utf-8")` over Unicode scalar values. It has a closed-form length. A strict decoder serves as its inverse.
- `Schema` (`schema.dfy`): the pydantic models `UserCreate`, `Task`, `TaskCreate` and `TaskUpdate`, and how their defaults apply.
  - `Field` records whether the client sent a key (pydantic's `fields_set`).
  - `Given(None)` is a key sent explicitly as null.
  - `SetItems` is `dict(exclude_unset=True).items()`.
  - `NewUserCreate` and `NewTaskCreate` apply the defaults. The handlers take bodies with defaults already applied; `Handlers.RegisterWithoutNames` and `Handlers.CreateTaskDefaultIncomplete` connect the two.
- `Handlers` (`handlers.dfy`) is the pure specification of each handler.
  - Each handler is a function from a `State` (the tables, one id counter per table, and the sent OTP mails) and a request to a new state and a response.
  - `Valid` is the store's invariant: rows sit under their own ids, emails are unique, every OTP row belongs to a user and carries the fixed code, and every user has an OTP row.
  - The lemmas in this module state what each handler does and does not change.
- `AppStore` (`store.dfy`): class `Store`, whose fields are the tables. Each handler is a method that updates them step by step, in the order `app/main.py` uses. Each method is proved to make exactly the transition its `Handlers` function specifies, and to keep `Valid`.
  - `CreateUser` does two inserts in sequence.
  - `UpdateTask` runs `ApplyUpdate`, a loop that does one `setattr` per supplied field.

Design points:

- The password hasher is an arbitrary function `string -> Digest`. It is fixed when the `Store` is constructed and passed to the specification functions. The model leaves out the random salt: the real scheme gives a new digest on each call, while the model's function is deterministic. No property here depends on that.
- Errors are `HttpError(status, detail)` values with the source's status codes and messages.
- A response that does not fit the `Task` response model becomes a 500 error. The framework checks the model only after the handler has committed, so the commit stands.
- `models.py` is not part of this model. The rows here are assumed to take exactly the values the handlers pass. In particular, title, description and completed are assumed to accept null, which is the SQLAlchemy column default.

## Model

| member | source | states |
|---|---|---|
| Utf8.EncodeChar | app/main.py:39 | one code point becomes 1, 2, 3 or 4 bytes at the 0x80/0x800/0x10000 thresholds; the lead byte announces the length, the rest are continuation bytes |
| Utf8.Utf8Len | app/main.py:39-40 | the closed-form byte count of a password, 1 to 4 bytes per code point; no contract of its own: `Utf8.Encode` ties it to the encoding and `Utf8.Utf8LenBounds` bounds it |
| Utf8.Encode | app/main.py:39 | the length of `password.encode("utf-8")` is the closed-form `Utf8Len` (sum of per-code-point lengths) |
| Utf8.DecodeEncodeChar | app/main.py:39 | decoding one code point's bytes gives that code point back |
| Utf8.EncodeDecodeChar | app/main.py:39 | a byte sequence that decodes to `c` is exactly `c`'s encoding (one form per code point) |
| Utf8.DecodeEncode | app/main.py:39 | round trip: strict decoding of the encoding of `s` gives `s` |
| Utf8.EncodeDecode | app/main.py:39 | the encoding of `s` is the only byte string that decodes to `s` |
| Utf8.Utf8LenBounds | app/main.py:39-40 | between 1 and 4 bytes per code point: `|s| <= Utf8Len(s) <= 4*|s|` |
| Utf8.AsciiLen | app/main.py:39-40 | an ASCII string is one byte per character |
| Schema.NewUserCreate | schema.py:4-10 | email and password are required and kept; first and last name are None unless sent, and are kept as sent otherwise |
| Schema.NewTaskCreate | schema.py:32-38 | the required fields are kept; an absent `completed` becomes false, a sent one (null included) is kept |
| Schema.SetItems | app/main.py:111 | the items of `dict(exclude_unset=True)` hold exactly the supplied fields with their values (null included), each once, in declaration order |
| Handlers.Valid | app/main.py:34-67 | the store invariant: each row under its own id below its table's counter, no two users with one email, every OTP row for an existing user with code 123456, every user with an OTP row; no contract of its own: the `*Valid` lemmas prove each handler keeps it |
| Handlers.PasswordFits | app/main.py:39-40 | the byte-length rule holds exactly when the UTF-8 length is at most 72 |
| Handlers.Register | app/main.py:31-76 | `create_user` as a transition: any error leaves the state unchanged; it succeeds exactly when the email is free and the password fits; afterwards the email is taken and tasks are unchanged. The duplicate check of app/main.py:34 is `EmailTaken`: some stored user has that email |
| Handlers.RegisterValid | app/main.py:33-67 | registration keeps the store invariant, in particular that no two users share an email |
| Handlers.RegisterDuplicateEmail | app/main.py:34-44 | a taken email fails with "Email already registered" whatever the password (the duplicate check comes before the length check), and no table changes |
| Handlers.RegisterPasswordRule | app/main.py:39-44 | for a free email: over 72 UTF-8 bytes fails with the too-long error and no user or OTP is created; 72 or fewer succeeds |
| Handlers.PasswordFitsByCount | app/main.py:39-40 | at most 18 code points always fits; more than 72 code points never fits |
| Handlers.AsciiPasswordFits | app/main.py:39-40 | an ASCII password fits exactly when it has at most 72 characters |
| Handlers.RegisterSuccess | app/main.py:47-76 | success adds exactly one user under a fresh id with `password = hash(plaintext)`, and exactly one OTP row for that id with code 123456; other users and all tasks are unchanged; one OTP mail goes to the new email; the response is id, names and email only |
| Handlers.RegisterWithoutNames | schema.py:8-10 | a body with no names registers a user whose stored row and response both have None names, the sent email and the digest of the password |
| Handlers.RegisterTwice | app/main.py:34-36 | after an email registers, a second registration of it fails with the duplicate error and changes nothing |
| Handlers.ToTask | schema.py:20-27 | a row passes the `Task` response model exactly when no field is null, and the task then carries all seven fields of the row |
| Handlers.ToTaskRowOf | schema.py:20-27 | a task read back from its own row is that task |
| Handlers.Respond | app/main.py:78 | the `response_model=Task` check of one row: the task, exactly when the row passes, and then it is the stored row; otherwise the 500 |
| Handlers.RespondAll | app/main.py:93-96 | a list response succeeds exactly when every row passes, and then holds each row's task at its position; otherwise it is a 500 error |
| Handlers.CreateTask | app/main.py:78-91 | `create_task` as a transition: the table gains exactly the key of the next id, only the task table and its counter change, and the response succeeds exactly when `completed` is not null |
| Handlers.CreateTaskValid | app/main.py:79-91 | creating a task keeps the store invariant |
| Handlers.CreateTaskSuccess | app/main.py:79-91 | creation adds exactly one row under a fresh id with the body's fields and any owner id (no existence check); users and OTPs are unchanged; the response is that task |
| Handlers.CreateTaskDefaultIncomplete | schema.py:38 | a body without `completed` creates a task answered with completed = false and the sent title and description |
| Handlers.IdsBelow | app/main.py:95 | the ids it lists are strictly increasing and are exactly the table's keys below the bound |
| Handlers.TaskRowsAt | app/main.py:95 | the listed rows are the table's rows, position by position, each under its own id, with every key listed |
| Handlers.ListTasks | app/main.py:93-96 | `get_all_tasks`: the table's rows (`TaskRows`) validated as a list; it can fail only with the 500; `Handlers.ListTasksOk` and `Handlers.ListTasksIsTable` state its contents |
| Handlers.ListTasksOk | app/main.py:93-96 | listing fails exactly when some stored row does not fit the response model |
| Handlers.ListTasksIsTable | app/main.py:93-96 | a successful listing holds every task of the table exactly once, as stored, in increasing id order |
| Handlers.GetTask | app/main.py:98-103 | `get_task`: "Task not found" exactly for an absent id; for a present id it answers with the stored row as a `Task` exactly when that row passes the response model, and otherwise fails only with the 500 |
| Handlers.CreatedTaskIsFound | app/main.py:98-103 | reading a just-created task by its id gives the creation response |
| Handlers.Patch | app/main.py:111-112 | the patch never changes id, owner, date or time, and an update with nothing supplied leaves the row as it was |
| Handlers.SetAttr | app/main.py:112 | one `setattr` of an update field never changes id, owner, date or time |
| Handlers.ApplyItems | app/main.py:111-112 | the `setattr` loop over a list of items, first item first; no contract of its own: `Handlers.ApplyItemsStep`, `Handlers.ApplyItemsKeepsFixedFields` and `Handlers.SetItemsPatch` state what it does |
| Handlers.ApplyItemsStep | app/main.py:111-112 | one more loop iteration applies one more `setattr` |
| Handlers.ApplyItemsKeepsFixedFields | schema.py:43-46 | no sequence of update items changes id, owner, date or time |
| Handlers.SetItemsPatch | app/main.py:111-112 | the `setattr` loop over the supplied items is exactly the patch: supplied fields written, others kept |
| Handlers.UpdateTask | app/main.py:105-116 | `update_task` as a transition: the table keeps its keys, only the task table changes, and "Task not found" comes exactly for an absent id |
| Handlers.UpdateTaskValid | app/main.py:106-116 | updating keeps the store invariant |
| Handlers.UpdateTaskSuccess | app/main.py:106-116 | an update rewrites only that one row; supplied fields take the sent values (null included); all other fields, including owner, date and time, are kept; other rows and tables are unchanged; the response is the patched row as a `Task`, or the 500 when it holds a null |
| Handlers.UpdateNothingSupplied | app/main.py:111-112 | an update with no field supplied leaves the store unchanged |
| Handlers.UpdateCompletedOnly | app/main.py:111-112 | supplying only `completed` leaves title and description unchanged |
| Handlers.UpdateToNull | app/main.py:111-116 | an explicit null title is committed, the response is a 500 error, and later reads of the task fail the same way |
| Handlers.DeleteTask | app/main.py:118-131 | `delete_task` as a transition: the table loses exactly that key, only the task table changes, and it succeeds exactly for a present id |
| Handlers.DeleteTaskValid | app/main.py:119-131 | deleting keeps the store invariant |
| Handlers.DeleteTaskSuccess | app/main.py:119-131 | deletion removes exactly that row, count down by one; every other row and table is unchanged; the answer is "Task deleted successfully"; the task is then not found |
| Handlers.AbsentTask | app/main.py:98-126 | for an absent id, get, update and delete fail with 404 "Task not found" and change nothing |
| AppStore.Store.constructor | app/main.py:10 | a fresh database has empty tables and ids starting at 1, and satisfies the invariant |
| AppStore.Store.CreateUser | app/main.py:31-76 | the duplicate query, then the byte-length check, then the user insert, then the OTP insert, then the mail; the method makes exactly the `Register` transition and keeps the invariant |
| AppStore.Store.CreateTask | app/main.py:78-91 | inserts the row and makes exactly the `CreateTask` transition |
| AppStore.Store.GetAllTasks | app/main.py:93-96 | returns the `ListTasks` response: it succeeds exactly when all rows pass the model, and then lists stored tasks in increasing id order |
| AppStore.Store.GetTask | app/main.py:98-103 | equals `Handlers.GetTask`: "Task not found" exactly for an absent id; a present id whose row passes the response model is answered with that row as a `Task`, and a present id can fail only with the 500 |
| AppStore.ApplyUpdate | app/main.py:111-112 | the loop applies one `setattr` per supplied item, in order, and yields exactly the patched row |
| AppStore.Store.UpdateTask | app/main.py:105-116 | fetches the row, runs the `setattr` loop, commits; the method makes exactly the `UpdateTask` (patch) transition and keeps the invariant |
| AppStore.Store.DeleteTask | app/main.py:118-131 | removes the row and makes exactly the `DeleteTask` transition |

## Left out

- Mail sending (app/send_mail.py) is not modelled. It reads environment variables, uses SMTP over SSL, prints, and catches exceptions from the SMTP session. It is modelled only as one `OtpEmail` notification appended after the OTP row is stored.
- Mail errors raised outside that `try` are not modelled. A malformed SMTP_PORT raises in every case. Once SMTP is configured, an email containing a line break in the `To` header, or a failure to build the SSL context, also raises. `create_user` then answers 500 after both commits. The model always answers with the new user.
- test_mail.py is a manual script with no logic.
- Framework plumbing is not modelled: FastAPI routing, the `get_db` session lifecycle, `create_all` and the constant `read_root`.
- Request validation is not modelled: the 422 for a missing or mistyped field, and pydantic's type coercion. Requests arrive already typed.
- Success status codes (201 for registration, 200 otherwise) are not modelled; only response bodies are.
- Handlers.RegisterSuccess: does not prove that the stored digest differs from the plaintext. That is a property of the bcrypt_sha256 scheme, and the hasher here is an arbitrary function. The model shows only that the stored value is `hash(plaintext)`, of a distinct `Digest` type, computed after the length check.
- Id generation is a per-table counter that never reuses an id. The database's own autoincrement may reuse the largest id after a deletion; that is not modelled.
- Sequential commits, transaction atomicity and concurrent duplicate-email races are not modelled. A crash between the user commit and the OTP commit would leave a user without an OTP row.
- Handlers.ListTasksIsTable: states increasing id order, which the query does not promise. `query(...).all()` has no ORDER BY, so the database chooses the order.
- Email matching is exact string equality; database collation is not modelled.
- A password holding a lone surrogate (a `\ud800` escape in the JSON body) is not modelled. For it `user.password.encode("utf-8")` raises and `create_user` answers 500 before any write; Dafny's `char` is a Unicode scalar value and cannot represent it.
- An explicit null for `completed` in a creation body is stored as sent. The response then fails the `Task` model, as `Handlers.CreateTaskSuccess` states. Whether the database would substitute a column default instead is not modelled.
- `models.py` is not part of this model. Column types, nullability and foreign keys are assumed to accept what the handlers write: null in title, description and completed, and an owner id with no matching user.
