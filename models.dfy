/** The persisted `Task` record: its columns, which of them may be NULL,
    and the values filled in when a row is inserted. */
module Models {
  import opened Wrappers

  /** `title` is a `String(255)` column. */
  const TitleMaxLength: nat := 255
  /** Descriptions are a `Text` column; the 10 000 bound comes from the payload schemas. */
  const DescriptionMaxLength: nat := 10000
  /** `id` is a `String(36)` column filled with `str(uuid4())`, which is always 36 characters. */
  const IdLength: nat := 36

  /** An abstract clock reading; the source reads `datetime.utcnow`. */
  type Timestamp = nat

  datatype Task = Task(
    id: string,
    title: string,
    description: Option<string>,
    isCompleted: bool,
    createdAt: Timestamp,
    updatedAt: Timestamp)

  /** The columns a client may write. */
  datatype Column = Title | Description | IsCompleted

  /** One column value as the ORM holds it before a commit; `Null` is SQL NULL. */
  datatype Cell = Null | Text(s: string) | Flag(b: bool)

  /** Only `description` is declared `nullable=True`. */
  predicate Nullable(c: Column) {
    c == Description
  }

  /** The cell has the column's Python type (a `str` column holds text, a `Boolean` column a flag), or is NULL. */
  predicate CellFits(c: Column, v: Cell) {
    match c
    case Title => v.Null? || v.Text?
    case Description => v.Null? || v.Text?
    case IsCompleted => v.Null? || v.Flag?
  }

  predicate WellTyped(row: map<Column, Cell>) {
    forall c :: c in row ==> CellFits(c, row[c])
  }

  /** Every column has a cell. */
  predicate Complete(row: map<Column, Cell>) {
    forall c: Column :: c in row
  }

  lemma CompleteByCases(row: map<Column, Cell>)
    requires Title in row && Description in row && IsCompleted in row
    ensures Complete(row)
  {
    forall c: Column ensures c in row {
      match c
      case Title =>
      case Description =>
      case IsCompleted =>
    }
  }

  /** The NOT NULL constraints of the table: every column but `description` must hold a value. */
  predicate NotNullHolds(row: map<Column, Cell>) {
    forall c :: c in row && !Nullable(c) ==> !row[c].Null?
  }

  /** The data columns of a record. */
  function DataColumns(t: Task): (row: map<Column, Cell>)
    ensures Complete(row) && WellTyped(row) && NotNullHolds(row)
    ensures row[Title] == Text(t.title) && row[IsCompleted] == Flag(t.isCompleted)
    ensures row[Description].Null? <==> t.description.None?
    ensures t.description.Some? ==> row[Description] == Text(t.description.value)
  {
    var row := map[Title := Text(t.title),
                   Description := if t.description.Some? then Text(t.description.value) else Null,
                   IsCompleted := Flag(t.isCompleted)];
    CompleteByCases(row);
    row
  }

  /** The record a committed row reads back as. */
  function FromRow(id: string, row: map<Column, Cell>, createdAt: Timestamp, updatedAt: Timestamp): (t: Task)
    requires Complete(row) && WellTyped(row) && NotNullHolds(row)
    ensures DataColumns(t) == row
    ensures t.id == id && t.createdAt == createdAt && t.updatedAt == updatedAt
  {
    Task(id, row[Title].s,
         if row[Description].Text? then Some(row[Description].s) else None,
         row[IsCompleted].b, createdAt, updatedAt)
  }

  /** Reading a record's columns back gives the record itself. */
  lemma RowRoundTrip(t: Task)
    ensures FromRow(t.id, DataColumns(t), t.createdAt, t.updatedAt) == t
  {
  }

  /** Two records with the same id and timestamps are equal exactly when their data columns are. */
  lemma DataColumnsInjective(t: Task, u: Task)
    requires t.id == u.id && t.createdAt == u.createdAt && t.updatedAt == u.updatedAt
    ensures DataColumns(t) == DataColumns(u) <==> t == u
  {
    if DataColumns(t) == DataColumns(u) {
      RowRoundTrip(t);
      RowRoundTrip(u);
    }
  }

  /** A new ORM object `Task(id=…, title=…, …)` as it reads back after the insert: the column
      defaults fill `is_completed` (false when not given), `created_at` and `updated_at`. */
  function NewRecord(id: string, title: string, description: Option<string>,
                     isCompleted: Option<bool>, now: Timestamp): (t: Task)
    ensures t.id == id && t.title == title && t.description == description
    ensures t.isCompleted <==> isCompleted == Some(true)
    ensures t.createdAt == now && t.updatedAt == now
  {
    Task(id, title, description, isCompleted.GetOr(false), now, now)
  }

  predicate TitleFits(s: string) {
    1 <= |s| <= TitleMaxLength
  }

  predicate DescriptionFits(d: Option<string>) {
    d.None? || 1 <= |d.value| <= DescriptionMaxLength
  }

  /** What every row of the table satisfies: the key matches the id, the title and the
      description obey the payload bounds, and the timestamps are ordered and not in the future. */
  predicate Stored(key: string, t: Task, latest: Timestamp) {
    && t.id == key
    && TitleFits(t.title)
    && DescriptionFits(t.description)
    && t.createdAt <= t.updatedAt <= latest
  }

  /** The invariant survives the clock moving forward. */
  lemma StoredLater(key: string, t: Task, latest: Timestamp, now: Timestamp)
    requires Stored(key, t, latest) && latest <= now
    ensures Stored(key, t, now)
  {
  }
}
