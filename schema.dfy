/**
 * The request and response bodies of the API, as the pydantic models declare
 * them: required fields are plain values, `Optional[...]` fields are `Option`s,
 * and a field the client may leave out is a `Field` until its default is applied.
 */
module Schema {
  import opened Wrappers

  /**
   * Whether the client put a key in the request body (pydantic's `fields_set`).
   * `Given(None)` is a key sent explicitly as null, which counts as supplied.
   */
  datatype Field<T> = Unset | Given(value: T)

  /** The value of a field once the default for an absent key is applied. */
  function ValueOr<T>(f: Field<T>, default: T): T
  {
    match f
    case Unset => default
    case Given(v) => v
  }

  /** `UserCreate`: email and password are required, the names are optional. */
  datatype UserCreate = UserCreate(email: string, password: string,
                                   firstName: Option<string>, lastName: Option<string>)

  /** Validates a registration body: an absent first or last name becomes None. */
  function NewUserCreate(email: string, password: string,
                         firstName: Field<Option<string>>, lastName: Field<Option<string>>): (u: UserCreate)
    ensures u.email == email && u.password == password
    ensures firstName.Unset? ==> u.firstName == None
    ensures lastName.Unset? ==> u.lastName == None
    ensures firstName.Given? ==> u.firstName == firstName.value
    ensures lastName.Given? ==> u.lastName == lastName.value
  {
    UserCreate(email, password, ValueOr(firstName, None), ValueOr(lastName, None))
  }

  /** `Task`, the response model: every one of its seven fields is present and non-null. */
  datatype Task = Task(id: int, title: string, description: string, ownerId: int,
                       date: string, time: string, completed: bool)

  /** `TaskCreate`: date and time are free-form strings; `completed` may be null. */
  datatype TaskCreate = TaskCreate(title: string, description: string, ownerId: int,
                                   date: string, time: string, completed: Option<bool>)

  /** Validates a task-creation body: an absent `completed` becomes false. */
  function NewTaskCreate(title: string, description: string, ownerId: int,
                         date: string, time: string, completed: Field<Option<bool>>): (t: TaskCreate)
    ensures t.title == title && t.description == description && t.ownerId == ownerId
    ensures t.date == date && t.time == time
    ensures completed.Unset? ==> t.completed == Some(false)
    ensures completed.Given? ==> t.completed == completed.value
  {
    TaskCreate(title, description, ownerId, date, time, ValueOr(completed, Some(false)))
  }

  /**
   * `TaskUpdate`: three optional fields, each unset unless the client sent it.
   * It has no owner, date or time, so an update cannot address them.
   */
  datatype TaskUpdate = TaskUpdate(title: Field<Option<string>>, description: Field<Option<string>>,
                                   completed: Field<Option<bool>>)

  /** The `TaskUpdate` of an empty body: every field unset. */
  const NoChanges := TaskUpdate(Unset, Unset, Unset)

  /** One entry of `task_update.dict(exclude_unset=True)`: a field name with its value. */
  datatype Item =
    | TitleItem(title: Option<string>)
    | DescriptionItem(description: Option<string>)
    | CompletedItem(completed: Option<bool>)

  /** Position of an item's field in the model's declaration order. */
  function Rank(item: Item): nat
  {
    match item
    case TitleItem(_) => 0
    case DescriptionItem(_) => 1
    case CompletedItem(_) => 2
  }

  /**
   * `task_update.dict(exclude_unset=True).items()`: the supplied fields, each
   * once, in declaration order.
   */
  function SetItems(u: TaskUpdate): (items: seq<Item>)
    ensures forall v :: TitleItem(v) in items <==> u.title == Given(v)
    ensures forall v :: DescriptionItem(v) in items <==> u.description == Given(v)
    ensures forall v :: CompletedItem(v) in items <==> u.completed == Given(v)
    ensures forall i, j :: 0 <= i < j < |items| ==> Rank(items[i]) < Rank(items[j])
  {
    (if u.title.Given? then [TitleItem(u.title.value)] else [])
    + (if u.description.Given? then [DescriptionItem(u.description.value)] else [])
    + (if u.completed.Given? then [CompletedItem(u.completed.value)] else [])
  }
}
