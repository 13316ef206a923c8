/** The request and response models of the task API (main.py, the pydantic
    classes TaskBase, TaskCreate, TaskUpdate and Task) and the field
    validation the framework runs on a request body before any handler sees
    it. A body that fails validation is answered with 422 and never reaches
    the table. */
module Models {

  datatype Option<+T> = None | Some(value: T)

  datatype Result<+T, +E> = Ok(value: T) | Err(error: E)

  const MaxNameLength: nat := 100
  const MaxDescriptionLength: nat := 255
  const DefaultStatus: string := "pending"

  /** The closed set of the `Literal` status type. */
  const Statuses: set<string> := {"pending", "done", "in-progress", "testing"}

  /** The errors a handler answers with: 422 for a body that fails
      validation, 404 for an unknown task id, 500 for a failure the handler
      does not catch or turns into that answer (a task id the database
      driver cannot bind, a table with no rowid left). */
  datatype HttpError = UnprocessableEntity | NotFound | ServerError

  /** One field of a JSON request body: left out, sent as `null`, or sent as a
      string. Values of other JSON types are not modelled. */
  datatype Field = Absent | Null | Given(text: string)

  /** The body of POST /tasks and of PUT /tasks/{id}, as sent. */
  datatype Body = Body(taskName: Field, description: Field, status: Field)

  /** A validated TaskCreate: every field has its value or its default. */
  datatype TaskCreate = TaskCreate(taskName: string, description: Option<string>, status: string)

  /** A validated TaskUpdate: `None` stands for a field that was absent or null. */
  datatype TaskUpdate = TaskUpdate(taskName: Option<string>, description: Option<string>, status: Option<string>)

  /** The response model Task: a TaskBase with the id and the creation date. */
  datatype Task = Task(id: int, taskName: string, description: Option<string>, status: string, dateAdded: string)

  predicate ValidName(s: string) {
    1 <= |s| <= MaxNameLength
  }

  predicate ValidDescription(d: Option<string>) {
    d.Some? ==> |d.value| <= MaxDescriptionLength
  }

  predicate ValidStatus(s: string) {
    s in Statuses
  }

  /** The constraints TaskCreate declares on its fields. */
  predicate ValidCreate(t: TaskCreate) {
    ValidName(t.taskName) && ValidDescription(t.description) && ValidStatus(t.status)
  }

  /** The constraints TaskUpdate declares on the fields it carries. */
  predicate ValidUpdate(u: TaskUpdate) {
    && (u.taskName.Some? ==> ValidName(u.taskName.value))
    && ValidDescription(u.description)
    && (u.status.Some? ==> ValidStatus(u.status.value))
  }

  /** `o` is what the nullable field `f` carries: its text when sent as a
      string, nothing when left out or sent as null. */
  predicate Carries(f: Field, o: Option<string>) {
    match f
    case Given(s) => o == Some(s)
    case _ => o == None
  }

  /** An `Optional[str]` field with a length range. */
  function OptionalText(f: Field, minLength: nat, maxLength: nat): (r: Result<Option<string>, HttpError>)
    ensures r.Ok? <==> (f.Given? ==> minLength <= |f.text| <= maxLength)
    ensures r.Ok? ==> Carries(f, r.value)
    ensures r.Err? ==> r.error == UnprocessableEntity
  {
    match f
    case Given(s) =>
      if minLength <= |s| <= maxLength then Ok(Some(s)) else Err(UnprocessableEntity)
    case _ => Ok(None)
  }

  /** TaskCreate's `status`: a `Literal` with default "pending", not nullable. */
  function CreateStatus(f: Field): (r: Result<string, HttpError>)
    ensures r.Ok? <==> f.Absent? || (f.Given? && ValidStatus(f.text))
    ensures r.Ok? ==> ValidStatus(r.value)
    ensures r.Ok? && f.Absent? ==> r.value == DefaultStatus
    ensures r.Ok? && f.Given? ==> r.value == f.text
  {
    match f
    case Absent => Ok(DefaultStatus)
    case Null => Err(UnprocessableEntity)
    case Given(s) => if s in Statuses then Ok(s) else Err(UnprocessableEntity)
  }

  /** TaskUpdate's `status`: an `Optional[Literal]` with no default, which
      the body must contain but may set to null. */
  function UpdateStatus(f: Field): (r: Result<Option<string>, HttpError>)
    ensures r.Ok? <==> f.Null? || (f.Given? && ValidStatus(f.text))
    ensures r.Ok? ==> Carries(f, r.value)
  {
    match f
    case Absent => Err(UnprocessableEntity)
    case Null => Ok(None)
    case Given(s) => if s in Statuses then Ok(Some(s)) else Err(UnprocessableEntity)
  }

  /** Validation of a POST /tasks body into a TaskCreate. */
  function ValidateCreate(b: Body): (r: Result<TaskCreate, HttpError>)
    ensures r.Ok? <==>
      && b.taskName.Given? && ValidName(b.taskName.text)
      && (b.description.Given? ==> |b.description.text| <= MaxDescriptionLength)
      && (b.status.Absent? || (b.status.Given? && ValidStatus(b.status.text)))
    ensures r.Err? ==> r.error == UnprocessableEntity
    ensures r.Ok? ==> ValidCreate(r.value)
    ensures r.Ok? ==> b.taskName == Given(r.value.taskName)
    ensures r.Ok? ==> Carries(b.description, r.value.description)
    ensures r.Ok? ==> r.value.status == if b.status.Given? then b.status.text else DefaultStatus
  {
    match b.taskName
    case Given(name) =>
      if !ValidName(name) then Err(UnprocessableEntity)
      else
        (match OptionalText(b.description, 0, MaxDescriptionLength)
         case Err(e) => Err(e)
         case Ok(description) =>
           match CreateStatus(b.status)
           case Err(e) => Err(e)
           case Ok(status) => Ok(TaskCreate(name, description, status)))
    case _ => Err(UnprocessableEntity)
  }

  /** Validation of a PUT /tasks/{id} body into a TaskUpdate. */
  function ValidateUpdate(b: Body): (r: Result<TaskUpdate, HttpError>)
    ensures r.Ok? <==>
      && (b.taskName.Given? ==> ValidName(b.taskName.text))
      && (b.description.Given? ==> |b.description.text| <= MaxDescriptionLength)
      && (b.status.Null? || (b.status.Given? && ValidStatus(b.status.text)))
    ensures r.Err? ==> r.error == UnprocessableEntity
    ensures r.Ok? ==> ValidUpdate(r.value)
    ensures r.Ok? ==> Carries(b.taskName, r.value.taskName)
    ensures r.Ok? ==> Carries(b.description, r.value.description)
    ensures r.Ok? ==> Carries(b.status, r.value.status)
  {
    match OptionalText(b.taskName, 1, MaxNameLength)
    case Err(e) => Err(e)
    case Ok(name) =>
      match OptionalText(b.description, 0, MaxDescriptionLength)
      case Err(e) => Err(e)
      case Ok(description) =>
        match UpdateStatus(b.status)
        case Err(e) => Err(e)
        case Ok(status) => Ok(TaskUpdate(name, description, status))
  }

  /** A whitespace-only name passes: the constraint is on length only. */
  lemma BlankNameAccepted()
    ensures ValidateCreate(Body(Given("   "), Absent, Absent)) == Ok(TaskCreate("   ", None, DefaultStatus))
  {
  }

  /** Only a name's length matters to validation, never its characters. */
  lemma LengthOnly(s: string, t: string, description: Field, status: Field)
    requires |s| == |t|
    ensures ValidateCreate(Body(Given(s), description, status)).Ok? ==
            ValidateCreate(Body(Given(t), description, status)).Ok?
    ensures ValidateUpdate(Body(Given(s), description, status)).Ok? ==
            ValidateUpdate(Body(Given(t), description, status)).Ok?
  {
  }

  /** An update body that leaves out `status` is refused, whatever else it
      carries; one that sends `"status": null` is accepted. */
  lemma UpdateNeedsStatusKey(name: Field, description: Field)
    ensures ValidateUpdate(Body(name, description, Absent)).Err?
    ensures ValidateUpdate(Body(name, description, Null)).Ok? <==>
      ValidateUpdate(Body(name, description, Given(DefaultStatus))).Ok?
  {
  }
}
