/** The request and response schemas: field bounds, defaults, whitespace stripping and the
    root check on partial updates. A JSON request body is a map from keys to raw values. */
module Schemas {
  import opened Wrappers
  import opened Models

  /** A JSON value as it arrives in a request body. Numbers, arrays and objects are `JsonOther`. */
  datatype Raw = JsonNull | JsonString(s: string) | JsonBool(b: bool) | JsonOther

  type Body = map<string, Raw>

  const TitleKey: string := "title"
  const DescriptionKey: string := "description"
  const IsCompletedKey: string := "is_completed"

  /** The body key under which a column is sent. */
  function KeyOf(c: Column): (k: string)
    ensures k in {TitleKey, DescriptionKey, IsCompletedKey}
    ensures k == TitleKey <==> c == Title
    ensures k == IsCompletedKey <==> c == IsCompleted
  {
    match c
    case Title => TitleKey
    case Description => DescriptionKey
    case IsCompleted => IsCompletedKey
  }

  /** Where a validation error was found: the whole body, or one field. */
  datatype Loc = Root | At(column: Column)

  datatype ErrorKind =
    | Missing          // a required field is absent
    | NoneNotAllowed   // explicit null for a field that does not accept it
    | WrongType        // the value is not of the field's type
    | TooShort         // shorter than min_length (1)
    | TooLong          // longer than max_length
    | NothingToUpdate  // the partial-update root check failed

  datatype FieldError = FieldError(loc: Loc, kind: ErrorKind)

  // ---------------------------------------------------------------------------
  // Whitespace stripping (Python's `str.strip()` with no argument)
  // ---------------------------------------------------------------------------

  /** The characters Python's `str.isspace` accepts. */
  predicate IsSpace(c: char) {
    || '\t' <= c <= '\r'                // tab, line feed, vertical tab, form feed, carriage return
    || '\U{1C}' <= c <= '\U{1F}'        // file, group, record and unit separators
    || c == ' ' || c == '\U{85}' || c == '\U{A0}' || c == '\U{1680}'
    || '\U{2000}' <= c <= '\U{200A}'
    || c == '\U{2028}' || c == '\U{2029}' || c == '\U{202F}' || c == '\U{205F}' || c == '\U{3000}'
  }

  predicate IsBlank(s: string) {
    forall k :: 0 <= k < |s| ==> IsSpace(s[k])
  }

  /** No whitespace at either end. */
  predicate IsTrimmed(s: string) {
    s == [] || (!IsSpace(s[0]) && !IsSpace(s[|s| - 1]))
  }

  /** Drops the leading whitespace: the result is the suffix that starts at the first other character. */
  function TrimStart(s: string): (r: string)
    ensures |r| <= |s| && r == s[|s| - |r|..]
    ensures forall k :: 0 <= k < |s| - |r| ==> IsSpace(s[k])
    ensures r == [] || !IsSpace(r[0])
  {
    if s != [] && IsSpace(s[0]) then TrimStart(s[1..]) else s
  }

  /** Drops the trailing whitespace: the result is the prefix that ends at the last other character. */
  function TrimEnd(s: string): (r: string)
    ensures |r| <= |s| && r == s[..|r|]
    ensures forall k :: |r| <= k < |s| ==> IsSpace(s[k])
    ensures r == [] || !IsSpace(r[|r| - 1])
  {
    if s != [] && IsSpace(s[|s| - 1]) then TrimEnd(s[..|s| - 1]) else s
  }

  /** `s.strip()`. */
  function Strip(s: string): (r: string)
    ensures |r| <= |s|
    ensures IsTrimmed(r)
    ensures r == [] <==> IsBlank(s)
  {
    TrimEnds(s);
    TrimEnd(TrimStart(s))
  }

  /** Trimming both ends leaves no whitespace at either end, and nothing exactly when the
      string is all whitespace. */
  lemma TrimEnds(s: string)
    ensures IsTrimmed(TrimEnd(TrimStart(s)))
    ensures TrimEnd(TrimStart(s)) == [] <==> IsBlank(s)
  {
    var t := TrimStart(s);
    var r := TrimEnd(t);
    if r != [] {
      assert r[0] == t[0];
      assert t[0] == s[|s| - |t|];
    }
  }

  /** `s.strip()` is the middle of `s`: what it drops on either side is whitespace only. */
  lemma StripKeepsMiddle(s: string)
    ensures exists i :: SurroundedByBlanks(s, Strip(s), i)
  {
    var t := TrimStart(s);
    CutBothEnds(s, t, TrimEnd(t));
    assert Strip(s) == TrimEnd(t);
    assert SurroundedByBlanks(s, Strip(s), |s| - |t|);
  }

  /** `r` is `s[i..i + |r|]` and `s` holds only whitespace before and after it. */
  predicate SurroundedByBlanks(s: string, r: string, i: int) {
    0 <= i <= |s| - |r| && r == s[i..i + |r|] && IsBlank(s[..i]) && IsBlank(s[i + |r|..])
  }

  /** Cutting a blank prefix off `s`, giving `t`, then a blank suffix off `t`, giving `r`,
      leaves `r` surrounded by blanks in `s`. */
  lemma CutBothEnds(s: string, t: string, r: string)
    requires |t| <= |s| && t == s[|s| - |t|..] && forall k :: 0 <= k < |s| - |t| ==> IsSpace(s[k])
    requires |r| <= |t| && r == t[..|r|] && forall k :: |r| <= k < |t| ==> IsSpace(t[k])
    ensures SurroundedByBlanks(s, r, |s| - |t|)
  {
    var i := |s| - |t|;
    assert IsBlank(s[..i]) by {
      forall k | 0 <= k < i ensures IsSpace(s[..i][k]) {
        assert s[..i][k] == s[k];
      }
    }
    assert s[i + |r|..] == t[|r|..];
    assert IsBlank(t[|r|..]) by {
      forall k | 0 <= k < |t| - |r| ensures IsSpace(t[|r|..][k]) {
        assert t[|r|..][k] == t[|r| + k];
      }
    }
  }

  /** Removing the whitespace already removed changes nothing: `s.strip().strip() == s.strip()`. */
  lemma StripTrimmed(s: string)
    requires IsTrimmed(s)
    ensures Strip(s) == s
  {
    assert TrimStart(s) == s;
    assert TrimEnd(s) == s;
  }

  lemma StripIdempotent(s: string)
    ensures Strip(Strip(s)) == Strip(s)
  {
    StripTrimmed(Strip(s));
  }

  // ---------------------------------------------------------------------------
  // Field validators
  // ---------------------------------------------------------------------------

  /** The string as the field validator sees it: stripped when the schema's configuration says so. */
  function Normalised(s: string, strip: bool): string {
    if strip then Strip(s) else s
  }

  /** A string field with `min_length=1, max_length=maxLength`; the length is checked after stripping. */
  function ConstrainedString(c: Column, v: Raw, strip: bool, maxLength: nat): (r: Result<string, FieldError>)
    ensures r.Success? <==> v.JsonString? && 1 <= |Normalised(v.s, strip)| <= maxLength
    ensures r.Success? ==> r.value == Normalised(v.s, strip)
    ensures r.Failure? ==> r.error.loc == At(c)
  {
    match v
    case JsonString(s) =>
      var n := Normalised(s, strip);
      if |n| < 1 then Failure(FieldError(At(c), TooShort))
      else if |n| > maxLength then Failure(FieldError(At(c), TooLong))
      else Success(n)
    case _ => Failure(FieldError(At(c), WrongType))
  }

  function ErrorsOf<T>(r: Result<T, FieldError>): (errs: seq<FieldError>)
    ensures r.Success? <==> errs == []
  {
    if r.Success? then [] else [r.error]
  }

  // ---------------------------------------------------------------------------
  // TaskBase / TaskCreate
  // ---------------------------------------------------------------------------

  /** A validated `TaskCreate`. */
  datatype TaskCreate = TaskCreate(title: string, description: Option<string>, isCompleted: bool)

  /** What every `TaskCreate` instance satisfies. */
  predicate ValidCreate(p: TaskCreate) {
    TitleFits(p.title) && DescriptionFits(p.description)
  }

  /** `TaskBase.title`: required, 1..255, not stripped. */
  function CreateTitle(body: Body): (r: Result<string, FieldError>)
    ensures r.Success? <==> TitleKey in body && body[TitleKey].JsonString? && TitleFits(body[TitleKey].s)
    ensures r.Success? ==> r.value == body[TitleKey].s
  {
    if TitleKey !in body then Failure(FieldError(At(Title), Missing))
    else if body[TitleKey].JsonNull? then Failure(FieldError(At(Title), NoneNotAllowed))
    else ConstrainedString(Title, body[TitleKey], false, TitleMaxLength)
  }

  /** `TaskBase.description`: optional and nullable; when a string, 1..10000, not stripped. */
  function CreateDescription(body: Body): (r: Result<Option<string>, FieldError>)
    ensures r.Success? <==>
      DescriptionKey !in body || body[DescriptionKey].JsonNull?
      || (body[DescriptionKey].JsonString? && 1 <= |body[DescriptionKey].s| <= DescriptionMaxLength)
    ensures r.Success? ==> (r.value.None? <==> DescriptionKey !in body || body[DescriptionKey].JsonNull?)
    ensures r.Success? && r.value.Some? ==> r.value.value == body[DescriptionKey].s
  {
    if DescriptionKey !in body || body[DescriptionKey].JsonNull? then Success(None)
    else
      match ConstrainedString(Description, body[DescriptionKey], false, DescriptionMaxLength)
      case Success(s) => Success(Some(s))
      case Failure(e) => Failure(e)
  }

  /** `TaskCreate.is_completed`: a boolean, false when omitted, null refused. */
  function CreateCompleted(body: Body): (r: Result<bool, FieldError>)
    ensures r.Success? <==> IsCompletedKey !in body || body[IsCompletedKey].JsonBool?
    ensures r.Success? ==> (r.value <==> IsCompletedKey in body && body[IsCompletedKey] == JsonBool(true))
  {
    if IsCompletedKey !in body then Success(false)
    else
      match body[IsCompletedKey]
      case JsonBool(b) => Success(b)
      case JsonNull => Failure(FieldError(At(IsCompleted), NoneNotAllowed))
      case _ => Failure(FieldError(At(IsCompleted), WrongType))
  }

  /** Parses a body as `TaskCreate`, reporting every failing field. Unknown keys are ignored. */
  function ParseCreate(body: Body): (r: Result<TaskCreate, seq<FieldError>>)
    ensures r.Success? <==> CreateTitle(body).Success? && CreateDescription(body).Success? && CreateCompleted(body).Success?
    ensures r.Success? ==> ValidCreate(r.value)
    ensures r.Success? ==> r.value == TaskCreate(CreateTitle(body).value, CreateDescription(body).value, CreateCompleted(body).value)
    ensures r.Success? ==> body[TitleKey] == JsonString(r.value.title)
    ensures r.Success? ==> (r.value.description.None? <==> DescriptionKey !in body || body[DescriptionKey].JsonNull?)
    ensures r.Success? && IsCompletedKey !in body ==> !r.value.isCompleted
    ensures r.Failure? ==> r.error != [] && forall e :: e in r.error ==> e.loc.At?
  {
    var title := CreateTitle(body);
    var description := CreateDescription(body);
    var completed := CreateCompleted(body);
    var errors := ErrorsOf(title) + ErrorsOf(description) + ErrorsOf(completed);
    if errors == [] then
      Success(TaskCreate(title.value, description.value, completed.value))
    else
      Failure(errors)
  }

  // ---------------------------------------------------------------------------
  // TaskUpdate
  // ---------------------------------------------------------------------------

  /** The root check `check_not_empty` fails: no key at all, or every value (known key or not) null. */
  predicate NothingProvided(body: Body) {
    |body| == 0 || forall k :: k in body ==> body[k].JsonNull?
  }

  /** The bound of a text column in the schemas. */
  function MaxLength(c: Column): nat {
    if c == Title then TitleMaxLength else DescriptionMaxLength
  }

  /** One `TaskUpdate` field: null is accepted for every field; strings are stripped, then bounded. */
  function UpdateField(c: Column, v: Raw): (r: Result<Cell, FieldError>)
    ensures r.Success? ==> CellFits(c, r.value)
    ensures r.Success? ==> (r.value.Null? <==> v.JsonNull?)
    ensures r.Failure? ==> r.error.loc == At(c)
  {
    if v.JsonNull? then Success(Null)
    else if c == IsCompleted then
      (if v.JsonBool? then Success(Flag(v.b)) else Failure(FieldError(At(c), WrongType)))
    else
      match ConstrainedString(c, v, true, MaxLength(c))
      case Success(s) => Success(Text(s))
      case Failure(e) => Failure(e)
  }

  /** A value in a `TaskUpdate` set-field map: typed, and any text stripped and within bounds. */
  predicate UpdateCell(c: Column, v: Cell) {
    CellFits(c, v) && (v.Text? ==> IsTrimmed(v.s) && 1 <= |v.s| <= MaxLength(c))
  }

  /** What every `TaskUpdate` set-field map (`dict(exclude_unset=True)`) satisfies. */
  predicate IsUpdatePayload(fields: map<Column, Cell>) {
    forall c :: c in fields ==> UpdateCell(c, fields[c])
  }

  lemma UpdateFieldAccepts(c: Column, v: Raw)
    requires UpdateField(c, v).Success?
    ensures UpdateCell(c, UpdateField(c, v).value)
  {
  }

  /** Exactly which `TaskUpdate` field values are accepted, and what is kept: null as null, a
      boolean flag as sent, and a string by its stripped text when that is 1..max long. */
  lemma UpdateFieldMeaning(c: Column, v: Raw)
    ensures UpdateField(c, v).Success? <==>
      v.JsonNull? || (c == IsCompleted && v.JsonBool?) ||
      (c != IsCompleted && v.JsonString? && 1 <= |Strip(v.s)| <= MaxLength(c))
    ensures UpdateField(c, v).Success? && !v.JsonNull? ==>
      UpdateField(c, v).value == (if c == IsCompleted then Flag(v.b) else Text(Strip(v.s)))
  {
  }

  function FieldErrors(body: Body, c: Column): seq<FieldError> {
    if KeyOf(c) in body then ErrorsOf(UpdateField(c, body[KeyOf(c)])) else []
  }

  /** Parses a body as `TaskUpdate` and returns its set-field map: the pre root validator runs
      first and alone; then each field that is present is validated, and all failures are reported. */
  function ParseUpdate(body: Body): (r: Result<map<Column, Cell>, seq<FieldError>>)
    ensures NothingProvided(body) ==> r == Failure([FieldError(Root, NothingToUpdate)])
    ensures r.Success? <==>
      !NothingProvided(body) && forall c :: KeyOf(c) in body ==> UpdateField(c, body[KeyOf(c)]).Success?
    ensures r.Success? ==> IsUpdatePayload(r.value)
    ensures r.Success? ==> forall c :: c in r.value <==> KeyOf(c) in body
    ensures r.Success? ==> forall c :: c in r.value ==> r.value[c] == UpdateField(c, body[KeyOf(c)]).value
    ensures r.Failure? ==> r.error != []
  {
    if NothingProvided(body) then
      Failure([FieldError(Root, NothingToUpdate)])
    else
      var errors := FieldErrors(body, Title) + FieldErrors(body, Description) + FieldErrors(body, IsCompleted);
      if errors == [] then
        assert forall c :: KeyOf(c) in body ==> UpdateField(c, body[KeyOf(c)]).Success? by {
          forall c | KeyOf(c) in body ensures UpdateField(c, body[KeyOf(c)]).Success? {
            assert FieldErrors(body, c) == [];
          }
        }
        var fields := map c | KeyOf(c) in body :: UpdateField(c, body[KeyOf(c)]).value;
        assert IsUpdatePayload(fields) by {
          forall c | c in fields ensures UpdateCell(c, fields[c]) {
            UpdateFieldAccepts(c, body[KeyOf(c)]);
          }
        }
        Success(fields)
      else
        assert exists c :: KeyOf(c) in body && UpdateField(c, body[KeyOf(c)]).Failure? by {
          if FieldErrors(body, Title) != [] {
            assert KeyOf(Title) in body && UpdateField(Title, body[KeyOf(Title)]).Failure?;
          } else if FieldErrors(body, Description) != [] {
            assert KeyOf(Description) in body && UpdateField(Description, body[KeyOf(Description)]).Failure?;
          } else {
            assert KeyOf(IsCompleted) in body && UpdateField(IsCompleted, body[KeyOf(IsCompleted)]).Failure?;
          }
        }
        Failure(errors)
  }

  /** A refused partial update, past the root check, lists an error at exactly the fields
      whose values were refused, and none at the root. */
  lemma UpdateErrorsNameFailingFields(body: Body)
    requires !NothingProvided(body) && ParseUpdate(body).Failure?
    ensures forall c :: (exists e :: e in ParseUpdate(body).error && e.loc == At(c)) <==>
      KeyOf(c) in body && UpdateField(c, body[KeyOf(c)]).Failure?
    ensures forall e :: e in ParseUpdate(body).error ==> e.loc.At?
  {
    var errors := ParseUpdate(body).error;
    assert errors == FieldErrors(body, Title) + FieldErrors(body, Description) + FieldErrors(body, IsCompleted);
    forall c | KeyOf(c) in body && UpdateField(c, body[KeyOf(c)]).Failure?
      ensures exists e :: e in errors && e.loc == At(c)
    {
      var e := UpdateField(c, body[KeyOf(c)]).error;
      assert e in FieldErrors(body, c);
      match c
      case Title => assert e in errors;
      case Description => assert e in errors;
      case IsCompleted => assert e in errors;
    }
  }

  /** A refused create body lists an error at exactly the fields whose validators refused them. */
  lemma CreateErrorsNameFailingFields(body: Body)
    requires ParseCreate(body).Failure?
    ensures (exists e :: e in ParseCreate(body).error && e.loc == At(Title)) <==> CreateTitle(body).Failure?
    ensures (exists e :: e in ParseCreate(body).error && e.loc == At(Description)) <==> CreateDescription(body).Failure?
    ensures (exists e :: e in ParseCreate(body).error && e.loc == At(IsCompleted)) <==> CreateCompleted(body).Failure?
  {
    var errors := ParseCreate(body).error;
    assert errors == ErrorsOf(CreateTitle(body)) + ErrorsOf(CreateDescription(body)) + ErrorsOf(CreateCompleted(body));
    if CreateTitle(body).Failure? {
      assert CreateTitle(body).error in errors;
    }
    if CreateDescription(body).Failure? {
      assert CreateDescription(body).error in errors;
    }
    if CreateCompleted(body).Failure? {
      assert CreateCompleted(body).error in errors;
    }
  }

  // ---------------------------------------------------------------------------
  // The response model `Task`
  // ---------------------------------------------------------------------------

  /** A task as serialised in a response. */
  datatype TaskOut = TaskOut(
    id: string,
    title: string,
    description: Option<string>,
    isCompleted: bool,
    createdAt: Timestamp,
    updatedAt: Timestamp)

  /** Reads a record through the response model: every string is stripped, then the `TaskBase`
      bounds are checked again, so a record whose title is only whitespace cannot be returned. */
  function Present(t: Task): (r: Result<TaskOut, seq<FieldError>>)
    ensures r.Success? <==>
      TitleFits(Strip(t.title))
      && (t.description.Some? ==> 1 <= |Strip(t.description.value)| <= DescriptionMaxLength)
    ensures r.Success? ==> r.value.id == Strip(t.id) && r.value.title == Strip(t.title)
    ensures r.Success? ==> r.value.isCompleted == t.isCompleted
    ensures r.Success? ==> r.value.createdAt == t.createdAt && r.value.updatedAt == t.updatedAt
    ensures r.Success? ==> (r.value.description.None? <==> t.description.None?)
    ensures r.Success? && t.description.Some? ==> r.value.description.value == Strip(t.description.value)
  {
    var title := ConstrainedString(Title, JsonString(t.title), true, TitleMaxLength);
    var description: Result<Option<string>, FieldError> :=
      if t.description.None? then Success(None)
      else match ConstrainedString(Description, JsonString(t.description.value), true, DescriptionMaxLength)
        case Success(s) => Success(Some(s))
        case Failure(e) => Failure(e);
    var errors := ErrorsOf(title) + ErrorsOf(description);
    if errors == [] then
      Success(TaskOut(Strip(t.id), title.value, description.value, t.isCompleted, t.createdAt, t.updatedAt))
    else
      Failure(errors)
  }

  /** A record whose strings carry no surrounding whitespace is returned exactly as stored. */
  lemma PresentTrimmed(t: Task)
    requires Stored(t.id, t, t.updatedAt)
    requires IsTrimmed(t.id) && IsTrimmed(t.title)
    requires t.description.Some? ==> IsTrimmed(t.description.value)
    ensures Present(t) == Success(TaskOut(t.id, t.title, t.description, t.isCompleted, t.createdAt, t.updatedAt))
  {
    StripTrimmed(t.id);
    StripTrimmed(t.title);
    if t.description.Some? {
      StripTrimmed(t.description.value);
    }
  }

  /** A create body whose title is only whitespace passes `TaskCreate`, which does not strip,
      yet the same title cannot pass the response model or `TaskUpdate`, which do. */
  lemma BlankTitleOnlyCreateAccepts(s: string)
    requires IsBlank(s) && 1 <= |s| <= TitleMaxLength
    ensures ParseCreate(map[TitleKey := JsonString(s)]) == Success(TaskCreate(s, None, false))
    ensures ParseUpdate(map[TitleKey := JsonString(s)]).Failure?
    ensures forall t: Task :: t.title == s ==> Present(t).Failure?
  {
    var body := map[TitleKey := JsonString(s)];
    assert KeyOf(Title) in body && UpdateField(Title, body[KeyOf(Title)]).Failure?;
  }
}
