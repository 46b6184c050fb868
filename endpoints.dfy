/** The decision logic of the six request handlers, as domain outcomes. Each handler receives
    the table it works on, the raw JSON body where there is one, and, where a row is written,
    the clock reading and the id drawn for a new row. The request body is validated before the
    handler looks at the table, as the framework does. */
module Endpoints {
  import opened Wrappers
  import opened Models
  import opened Schemas
  import opened Crud

  /** Why a handler failed after it started work: the store refused the commit, or the
      `TaskUpdate` built inside the replace handler did not validate. */
  datatype Fault = StoreRejected(reason: StoreError) | PayloadRejected(errors: seq<FieldError>)

  datatype Outcome =
    | Listed(tasks: seq<Task>)              // 200, array of tasks
    | Found(task: Task)                     // 200, one task
    | CreatedTask(task: Task)               // 201
    | Updated(task: Task)                   // 200 after PUT or PATCH
    | NoContent                             // 204
    | NotFound                              // 404
    | Unprocessable(errors: seq<FieldError>) // the request body failed validation
    | ServerError(fault: Fault)             // an error raised inside the handler

  /** `task_in.dict()` of a `TaskCreate`, handed back to `TaskUpdate(**…)`: every field is present,
      the description as null when it is absent. */
  function AsUpdateBody(p: TaskCreate): (body: Body)
    ensures TitleKey in body && DescriptionKey in body && IsCompletedKey in body
    ensures body[TitleKey] == JsonString(p.title) && body[IsCompletedKey] == JsonBool(p.isCompleted)
    ensures body[DescriptionKey].JsonNull? <==> p.description.None?
    ensures p.description.Some? ==> body[DescriptionKey] == JsonString(p.description.value)
  {
    map[TitleKey := JsonString(p.title),
        DescriptionKey := if p.description.Some? then JsonString(p.description.value) else JsonNull,
        IsCompletedKey := JsonBool(p.isCompleted)]
  }

  /** The set-field map of the replace handler. Every column is set; it only fails when stripping
      leaves the title, or a description, empty. */
  function ReplacementFields(p: TaskCreate): (r: Result<map<Column, Cell>, seq<FieldError>>)
    requires ValidCreate(p)
    ensures r.Success? <==> !IsBlank(p.title) && (p.description.Some? ==> !IsBlank(p.description.value))
    ensures r.Success? ==> Complete(r.value) && IsUpdatePayload(r.value)
    ensures r.Success? ==> r.value[Title] == Text(Strip(p.title))
    ensures r.Success? ==> r.value[IsCompleted] == Flag(p.isCompleted)
    ensures r.Success? ==> r.value[Description] == (if p.description.None? then Null else Text(Strip(p.description.value)))
  {
    ReplacementBodyFields(p);
    var r := ParseUpdate(AsUpdateBody(p));
    if r.Success? then
      CompleteByCases(r.value);
      r
    else
      r
  }

  /** How each field of the rebuilt body fares under `TaskUpdate`: the title and a description
      are accepted exactly when stripping leaves something, with the stripped text kept; the
      flag is always accepted as sent. */
  lemma ReplacementBodyFields(p: TaskCreate)
    requires ValidCreate(p)
    ensures var body := AsUpdateBody(p);
      && !NothingProvided(body)
      && ((forall c :: KeyOf(c) in body ==> UpdateField(c, body[KeyOf(c)]).Success?) <==>
          !IsBlank(p.title) && (p.description.Some? ==> !IsBlank(p.description.value)))
      && (UpdateField(Title, body[TitleKey]).Success? ==> UpdateField(Title, body[TitleKey]).value == Text(Strip(p.title)))
      && (UpdateField(Description, body[DescriptionKey]).Success? ==>
          UpdateField(Description, body[DescriptionKey]).value ==
            (if p.description.None? then Null else Text(Strip(p.description.value))))
      && UpdateField(IsCompleted, body[IsCompletedKey]) == Success(Flag(p.isCompleted))
  {
    var body := AsUpdateBody(p);
    assert KeyOf(Title) in body && KeyOf(Description) in body && KeyOf(IsCompleted) in body;
    assert !NothingProvided(body) by {
      assert !body[TitleKey].JsonNull?;
    }
    var title := UpdateField(Title, body[TitleKey]);
    var description := UpdateField(Description, body[DescriptionKey]);
    var completed := UpdateField(IsCompleted, body[IsCompletedKey]);
    assert title.Success? <==> !IsBlank(p.title);
    assert title.Success? ==> title.value == Text(Strip(p.title));
    assert description.Success? <==> p.description.Some? ==> !IsBlank(p.description.value);
    assert completed == Success(Flag(p.isCompleted));
    if title.Success? && description.Success? {
      forall c | KeyOf(c) in body ensures UpdateField(c, body[KeyOf(c)]).Success? {
        match c
        case Title =>
        case Description =>
        case IsCompleted =>
      }
    }
  }

  /** A replace never sets a NOT NULL column to null, so its update always commits. */
  lemma ReplacementCommits(t: Task, p: TaskCreate, now: Timestamp)
    requires ValidCreate(p) && ReplacementFields(p).Success?
    ensures ApplyUpdate(t, ReplacementFields(p).value, now).Success?
  {
    var fields := ReplacementFields(p).value;
    forall c | c in fields && !Nullable(c) ensures !fields[c].Null? {
      match c
      case Title =>
      case Description =>
      case IsCompleted =>
    }
  }

  /** PUT writes every field: a body that omits `description` clears it and one that omits
      `is_completed` resets it to false, whatever the record held before. */
  lemma ReplaceResetsOmittedFields(t: Task, title: string, now: Timestamp)
    requires TitleFits(title) && !IsBlank(title)
    ensures var body := map[TitleKey := JsonString(title)];
      && ParseCreate(body).Success?
      && ReplacementFields(ParseCreate(body).value).Success?
      && var u := ApplyUpdate(t, ReplacementFields(ParseCreate(body).value).value, now);
      && u.Success?
      && u.value.title == Strip(title)
      && u.value.description == None
      && !u.value.isCompleted
  {
    var body := map[TitleKey := JsonString(title)];
    assert DescriptionKey !in body && IsCompletedKey !in body;
    assert CreateTitle(body) == Success(title);
    var p := TaskCreate(title, None, false);
    assert ParseCreate(body) == Success(p);
    var fields := ReplacementFields(p).value;
    assert fields[Description] == Null && fields[IsCompleted] == Flag(false);
    assert fields[Title] == Text(Strip(title));
    ReplacementCommits(t, p, now);
    UpdateFields(t, fields, now);
  }

  /** A PATCH body may mix null with other values: `{"title": null, "is_completed": true}` passes
      validation, because the root check only refuses bodies whose values are all null, and the
      commit then fails on the NOT NULL `title` column. */
  lemma PatchWithNullTitleReachesStore(t: Task, now: Timestamp)
    ensures var body := map[TitleKey := JsonNull, IsCompletedKey := JsonBool(true)];
      && ParseUpdate(body) == Success(map[Title := Null, IsCompleted := Flag(true)])
      && ApplyUpdate(t, ParseUpdate(body).value, now) == Failure(NotNullViolation)
  {
    var body := map[TitleKey := JsonNull, IsCompletedKey := JsonBool(true)];
    assert !NothingProvided(body) by {
      assert IsCompletedKey in body && !body[IsCompletedKey].JsonNull?;
    }
    assert KeyOf(Title) in body && KeyOf(IsCompleted) in body && KeyOf(Description) !in body;
    assert ParseUpdate(body).value == map[Title := Null, IsCompleted := Flag(true)];
  }

  /** A PATCH body naming a clean title and the flag sets exactly those two fields. */
  lemma PatchTitleAndFlag(title: string, done: bool)
    requires TitleFits(title) && Strip(title) == title
    ensures ParseUpdate(map[TitleKey := JsonString(title), IsCompletedKey := JsonBool(done)])
         == Success(map[Title := Text(title), IsCompleted := Flag(done)])
  {
    var body := map[TitleKey := JsonString(title), IsCompletedKey := JsonBool(done)];
    assert KeyOf(Title) in body && KeyOf(IsCompleted) in body && KeyOf(Description) !in body;
    assert !NothingProvided(body) by {
      assert !body[TitleKey].JsonNull?;
    }
    assert UpdateField(Title, body[TitleKey]) == Success(Text(title));
    assert UpdateField(IsCompleted, body[IsCompletedKey]) == Success(Flag(done));
    forall c | KeyOf(c) in body ensures UpdateField(c, body[KeyOf(c)]).Success? {
      match c
      case Title =>
      case Description =>
      case IsCompleted =>
    }
    var r := ParseUpdate(body);
    assert r.value.Keys == {Title, IsCompleted} by {
      forall c ensures c in r.value <==> c == Title || c == IsCompleted {
        match c
        case Title =>
        case Description =>
        case IsCompleted =>
      }
    }
    assert r.value == map[Title := Text(title), IsCompleted := Flag(done)];
  }

  /** A PATCH body holding only keys the schema does not know passes the root check, sets no
      field, and so leaves the record exactly as it was. */
  lemma PatchWithUnknownKeyOnly(t: Task, key: string, v: Raw, now: Timestamp)
    requires key !in {TitleKey, DescriptionKey, IsCompletedKey} && !v.JsonNull?
    ensures ParseUpdate(map[key := v]) == Success(map[])
    ensures ApplyUpdate(t, map[], now) == Success(t)
  {
    var body := map[key := v];
    assert !NothingProvided(body) by {
      assert key in body && !body[key].JsonNull?;
    }
    assert forall c :: KeyOf(c) !in body;
    assert ParseUpdate(body).value == map[];
    UpdateNothing(t, now);
  }

  // ---------------------------------------------------------------------------
  // Handlers
  // ---------------------------------------------------------------------------

  /** GET /tasks: the listing, in the order the table gives it. */
  method ReadTasks(db: TaskTable) returns (o: Outcome)
    requires db.Valid()
    ensures o.Listed? && IsListing(o.tasks, db.tasks)
  {
    var tasks := db.ListTasks();
    o := Listed(tasks);
  }

  /** POST /tasks: validates the body as `TaskCreate` and inserts it under the drawn id. */
  method CreateTask(db: TaskTable, body: Body, freshId: string, now: Timestamp) returns (o: Outcome)
    requires |freshId| == IdLength
    requires db.Valid() && db.latest <= now
    modifies db
    ensures db.Valid() && old(db.latest) <= db.latest <= now
    ensures ParseCreate(body).Failure? ==> o == Unprocessable(ParseCreate(body).error) && db.tasks == old(db.tasks)
    ensures ParseCreate(body).Success? && freshId in old(db.tasks) ==>
      o == ServerError(StoreRejected(DuplicateKey)) && db.tasks == old(db.tasks)
    ensures ParseCreate(body).Success? && freshId !in old(db.tasks) ==>
      && o == CreatedTask(Created(freshId, ParseCreate(body).value, now))
      && db.tasks == old(db.tasks)[freshId := o.task]
  {
    var parsed := ParseCreate(body);
    if parsed.Failure? {
      return Unprocessable(parsed.error);
    }
    var r := db.CreateTask(parsed.value, freshId, now);
    match r
    case Success(t) => o := CreatedTask(t);
    case Failure(e) => o := ServerError(StoreRejected(e));
  }

  /** PUT /tasks/{id}: validates the body as `TaskCreate`; an unknown id is not found; otherwise
      every field is rebuilt as a `TaskUpdate` and applied with the partial-update operation. */
  method ReplaceTask(db: TaskTable, id: string, body: Body, now: Timestamp) returns (o: Outcome)
    requires db.Valid() && db.latest <= now
    modifies db
    ensures db.Valid() && old(db.latest) <= db.latest <= now
    ensures ParseCreate(body).Failure? ==> o == Unprocessable(ParseCreate(body).error) && db.tasks == old(db.tasks)
    ensures ParseCreate(body).Success? && id !in old(db.tasks) ==> o == NotFound && db.tasks == old(db.tasks)
    ensures ParseCreate(body).Success? && id in old(db.tasks) ==>
      var fields := ReplacementFields(ParseCreate(body).value);
      && (fields.Failure? ==> o == ServerError(PayloadRejected(fields.error)) && db.tasks == old(db.tasks))
      && (fields.Success? ==>
            var u := ApplyUpdate(old(db.tasks)[id], fields.value, now);
            u.Success? && o == Updated(u.value) && db.tasks == old(db.tasks)[id := u.value])
  {
    var parsed := ParseCreate(body);
    if parsed.Failure? {
      return Unprocessable(parsed.error);
    }
    var found := db.GetTask(id);
    if found.None? {
      return NotFound;
    }
    var fields := ReplacementFields(parsed.value);
    if fields.Failure? {
      return ServerError(PayloadRejected(fields.error));
    }
    ReplacementCommits(found.value, parsed.value, now);
    var r := db.UpdateTask(id, fields.value, now);
    o := Updated(r.value);
  }

  /** PATCH /tasks/{id}: validates the body as `TaskUpdate`; an unknown id is not found; otherwise
      the set-field map is applied as received. */
  method UpdateTask(db: TaskTable, id: string, body: Body, now: Timestamp) returns (o: Outcome)
    requires db.Valid() && db.latest <= now
    modifies db
    ensures db.Valid() && old(db.latest) <= db.latest <= now
    ensures ParseUpdate(body).Failure? ==> o == Unprocessable(ParseUpdate(body).error) && db.tasks == old(db.tasks)
    ensures ParseUpdate(body).Success? && id !in old(db.tasks) ==> o == NotFound && db.tasks == old(db.tasks)
    ensures ParseUpdate(body).Success? && id in old(db.tasks) ==>
      var u := ApplyUpdate(old(db.tasks)[id], ParseUpdate(body).value, now);
      && (u.Success? ==> o == Updated(u.value) && db.tasks == old(db.tasks)[id := u.value])
      && (u.Failure? ==> o == ServerError(StoreRejected(u.error)) && db.tasks == old(db.tasks))
  {
    var parsed := ParseUpdate(body);
    if parsed.Failure? {
      return Unprocessable(parsed.error);
    }
    var found := db.GetTask(id);
    if found.None? {
      return NotFound;
    }
    var r := db.UpdateTask(id, parsed.value, now);
    match r
    case Success(t) => o := Updated(t);
    case Failure(e) => o := ServerError(StoreRejected(e));
  }

  /** DELETE /tasks/{id}: an unknown id is not found; otherwise the record is removed. */
  method DeleteTask(db: TaskTable, id: string) returns (o: Outcome)
    requires db.Valid()
    modifies db
    ensures db.Valid() && db.latest == old(db.latest)
    ensures id !in old(db.tasks) ==> o == NotFound && db.tasks == old(db.tasks)
    ensures id in old(db.tasks) ==> o == NoContent && db.tasks == old(db.tasks) - {id} && id !in db.tasks
  {
    var found := db.GetTask(id);
    if found.None? {
      return NotFound;
    }
    db.DeleteTask(id);
    o := NoContent;
  }

  /** GET /tasks/{id}: the record, or not found; the table is only read. */
  method ReadTask(db: TaskTable, id: string) returns (o: Outcome)
    requires db.Valid()
    ensures o.Found? <==> id in db.tasks
    ensures o.Found? ==> o.task == db.tasks[id] && o.task.id == id
    ensures !o.Found? ==> o == NotFound
  {
    var found := db.GetTask(id);
    if found.None? {
      return NotFound;
    }
    o := Found(found.value);
  }
}
