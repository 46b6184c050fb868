/** The task table and the five operations on it. The table is a map from id to record,
    owned by a `TaskTable` object whose methods change it in place as a committed session would. */
module Crud {
  import opened Wrappers
  import opened Models
  import opened Schemas

  /** Why the store refuses a commit: a NOT NULL column set to NULL, or a primary key already used. */
  datatype StoreError = NotNullViolation | DuplicateKey

  // ---------------------------------------------------------------------------
  // Listing order
  // ---------------------------------------------------------------------------

  /** Newest first: `created_at` never increases along the sequence. */
  predicate NewestFirst(s: seq<Task>) {
    forall i, j :: 0 <= i < j < |s| ==> s[i].createdAt >= s[j].createdAt
  }

  predicate DistinctIds(s: seq<Task>) {
    forall i, j :: 0 <= i < j < |s| ==> s[i].id != s[j].id
  }

  /** `s` lists the table: each stored record once, newest first. */
  predicate IsListing(s: seq<Task>, m: map<string, Task>) {
    && |s| == |m|
    && (forall i :: 0 <= i < |s| ==> s[i].id in m && m[s[i].id] == s[i])
    && DistinctIds(s)
    && NewestFirst(s)
  }

  function IdSet(s: seq<Task>): set<string> {
    set i | 0 <= i < |s| :: s[i].id
  }

  lemma {:induction false} IdSetSize(s: seq<Task>)
    requires DistinctIds(s)
    ensures |IdSet(s)| == |s|
  {
    if s != [] {
      var init := s[..|s| - 1];
      IdSetSize(init);
      assert IdSet(s) == IdSet(init) + {s[|s| - 1].id};
      assert s[|s| - 1].id !in IdSet(init);
    }
  }

  /** A listing holds every stored record: nothing is left out. */
  lemma ListingCoversTable(s: seq<Task>, m: map<string, Task>)
    requires IsListing(s, m)
    ensures forall id :: id in m ==> exists i :: 0 <= i < |s| && s[i] == m[id]
  {
    IdSetSize(s);
    var ids := IdSet(s);
    assert ids <= m.Keys;
    assert |m.Keys - ids| == |m.Keys| - |ids|;
    assert m.Keys == ids;
    forall id | id in m ensures exists i :: 0 <= i < |s| && s[i] == m[id] {
      var i :| 0 <= i < |s| && s[i].id == id;
    }
  }

  /** Some key of a non-empty part of the table holds its newest record. */
  lemma {:induction false} NewestExists(m: map<string, Task>, keys: set<string>)
    requires keys != {} && keys <= m.Keys
    ensures exists k :: k in keys && forall k' :: k' in keys ==> m[k'].createdAt <= m[k].createdAt
  {
    var x :| x in keys;
    if keys != {x} {
      NewestExists(m, keys - {x});
      var k :| k in keys - {x} && forall k' :: k' in keys - {x} ==> m[k'].createdAt <= m[k].createdAt;
      if m[x].createdAt > m[k].createdAt {
        assert forall k' :: k' in keys ==> m[k'].createdAt <= m[x].createdAt;
      } else {
        assert forall k' :: k' in keys ==> m[k'].createdAt <= m[k].createdAt;
      }
    } else {
      assert forall k' :: k' in keys ==> k' == x;
    }
  }

  // ---------------------------------------------------------------------------
  // Records written by create and update
  // ---------------------------------------------------------------------------

  /** `Task(**task_in.dict())` as it reads back after the insert at time `now`. */
  function Created(id: string, p: TaskCreate, now: Timestamp): (t: Task)
    ensures t.id == id && t.title == p.title && t.description == p.description
    ensures t.isCompleted == p.isCompleted
    ensures t.createdAt == t.updatedAt == now
  {
    NewRecord(id, p.title, p.description, Some(p.isCompleted), now)
  }

  /** The record after the set fields are assigned and committed at time `now`: the commit fails
      when a NOT NULL column was set to null; otherwise the set columns take their new values and
      `updated_at` moves to `now` exactly when some column value changed (no UPDATE is issued
      otherwise, so `onupdate` does not fire). `id` and `created_at` never change. */
  function ApplyUpdate(t: Task, fields: map<Column, Cell>, now: Timestamp): (r: Result<Task, StoreError>)
    requires WellTyped(fields)
    ensures r.Failure? <==> exists c :: c in fields && !Nullable(c) && fields[c].Null?
    ensures r.Failure? ==> r.error == NotNullViolation
    ensures r.Success? ==> r.value.id == t.id && r.value.createdAt == t.createdAt
    ensures r.Success? ==> forall c :: c in fields ==> DataColumns(r.value)[c] == fields[c]
    ensures r.Success? ==> forall c :: c !in fields ==> DataColumns(r.value)[c] == DataColumns(t)[c]
    ensures r.Success? ==> r.value.updatedAt == (if forall c :: c in fields ==> fields[c] == DataColumns(t)[c] then t.updatedAt else now)
    ensures r.Success? && (forall c :: c in fields ==> fields[c] == DataColumns(t)[c]) ==> r.value == t
  {
    var row := DataColumns(t) + fields;
    if !NotNullHolds(row) then
      Failure(NotNullViolation)
    else
      var u := FromRow(t.id, row, t.createdAt, if row == DataColumns(t) then t.updatedAt else now);
      assert row == DataColumns(t) ==> u == t by {
        if row == DataColumns(t) { DataColumnsInjective(t, u); }
      }
      Success(u)
  }

  /** An update whose set-field map is empty changes nothing, not even `updated_at`. */
  lemma UpdateNothing(t: Task, now: Timestamp)
    ensures ApplyUpdate(t, map[], now) == Success(t)
  {
    assert DataColumns(t) + map[] == DataColumns(t);
    RowRoundTrip(t);
  }

  /** The typed fields after a successful update: each set column holds its new value,
      each other column its old one. */
  lemma UpdateFields(t: Task, fields: map<Column, Cell>, now: Timestamp)
    requires WellTyped(fields) && ApplyUpdate(t, fields, now).Success?
    ensures var u := ApplyUpdate(t, fields, now).value;
      && u.title == (if Title in fields then fields[Title].s else t.title)
      && u.isCompleted == (if IsCompleted in fields then fields[IsCompleted].b else t.isCompleted)
      && u.description == (if Description !in fields then t.description
                           else if fields[Description].Null? then None
                           else Some(fields[Description].s))
  {
    var u := ApplyUpdate(t, fields, now).value;
    assert DataColumns(u)[Title] == Text(u.title);
    assert DataColumns(u)[IsCompleted] == Flag(u.isCompleted);
    assert DataColumns(t)[Description].Null? <==> t.description.None?;
    assert DataColumns(u)[Description].Null? <==> u.description.None?;
  }

  /** An update with a valid set-field map keeps every row invariant, with the clock at `now`. */
  lemma UpdateKeepsStored(t: Task, fields: map<Column, Cell>, latest: Timestamp, now: Timestamp)
    requires Stored(t.id, t, latest) && latest <= now
    requires IsUpdatePayload(fields) && ApplyUpdate(t, fields, now).Success?
    ensures Stored(t.id, ApplyUpdate(t, fields, now).value, now)
  {
    UpdateFields(t, fields, now);
  }

  // ---------------------------------------------------------------------------
  // The table
  // ---------------------------------------------------------------------------

  class TaskTable {
    /** The committed rows, keyed by primary key. */
    var tasks: map<string, Task>
    /** The latest clock reading any committed row carries. */
    ghost var latest: Timestamp

    ghost predicate Valid()
      reads this
    {
      forall id :: id in tasks ==> Stored(id, tasks[id], latest)
    }

    /** An empty table, as `create_all` leaves it. */
    constructor ()
      ensures Valid() && tasks == map[] && latest == 0
    {
      tasks := map[];
      latest := 0;
    }

    /** `list_tasks`: every stored record, newest first; the ORDER BY is a selection of the
        newest remaining row, one row at a time. */
    method ListTasks() returns (s: seq<Task>)
      requires Valid()
      ensures IsListing(s, tasks)
    {
      s := [];
      var rest := tasks.Keys;
      while rest != {}
        invariant rest <= tasks.Keys
        invariant |s| + |rest| == |tasks|
        invariant forall i :: 0 <= i < |s| ==> s[i].id in tasks && tasks[s[i].id] == s[i] && s[i].id !in rest
        invariant DistinctIds(s)
        invariant NewestFirst(s)
        invariant forall i, k :: 0 <= i < |s| && k in rest ==> s[i].createdAt >= tasks[k].createdAt
        decreases rest
      {
        NewestExists(tasks, rest);
        var k :| k in rest && forall k' :: k' in rest ==> tasks[k'].createdAt <= tasks[k].createdAt;
        s := s + [tasks[k]];
        rest := rest - {k};
      }
    }

    /** `get_task`: the record with that id, or none; the table is only read. */
    method GetTask(id: string) returns (r: Option<Task>)
      requires Valid()
      ensures r.Some? <==> id in tasks
      ensures r.Some? ==> r.value == tasks[id] && r.value.id == id
    {
      if id in tasks {
        r := Some(tasks[id]);
      } else {
        r := None;
      }
    }

    /** `create_task`: inserts one record under the drawn id. A drawn id already in use
        violates the primary key and the insert is rolled back. */
    method CreateTask(p: TaskCreate, freshId: string, now: Timestamp) returns (r: Result<Task, StoreError>)
      requires |freshId| == IdLength
      requires Valid() && ValidCreate(p) && latest <= now
      modifies this
      ensures Valid() && old(latest) <= latest <= now
      ensures freshId in old(tasks) ==> r == Failure(DuplicateKey) && tasks == old(tasks)
      ensures freshId !in old(tasks) ==> r == Success(Created(freshId, p, now))
      ensures freshId !in old(tasks) ==> tasks == old(tasks)[freshId := r.value] && |tasks| == |old(tasks)| + 1
    {
      if freshId in tasks {
        r := Failure(DuplicateKey);
        return;
      }
      var t := Created(freshId, p, now);
      forall id | id in tasks ensures Stored(id, tasks[id], now) {
        StoredLater(id, tasks[id], latest, now);
      }
      tasks := tasks[freshId := t];
      latest := now;
      r := Success(t);
    }

    /** `update_task`: assigns each set field to the record, then commits. A commit that
        breaks a NOT NULL constraint is rolled back and leaves the table as it was. */
    method UpdateTask(id: string, fields: map<Column, Cell>, now: Timestamp) returns (r: Result<Task, StoreError>)
      requires Valid() && id in tasks && IsUpdatePayload(fields) && latest <= now
      modifies this
      ensures Valid() && old(latest) <= latest <= now
      ensures r == ApplyUpdate(old(tasks)[id], fields, now)
      ensures r.Success? ==> tasks == old(tasks)[id := r.value]
      ensures r.Failure? ==> tasks == old(tasks)
    {
      var task := tasks[id];
      var row := DataColumns(task);
      var pending := fields.Keys;
      while pending != {}
        invariant pending <= fields.Keys
        invariant row == DataColumns(task) + map c | c in fields && c !in pending :: fields[c]
        decreases pending
      {
        var c :| c in pending;
        row := row[c := fields[c]];
        pending := pending - {c};
      }
      assert row == DataColumns(task) + fields;
      if !NotNullHolds(row) {
        r := Failure(NotNullViolation);
        return;
      }
      var stamp := if row == DataColumns(task) then task.updatedAt else now;
      var updated := FromRow(id, row, task.createdAt, stamp);
      UpdateKeepsStored(task, fields, latest, now);
      forall k | k in tasks ensures Stored(k, tasks[k], now) {
        StoredLater(k, tasks[k], latest, now);
      }
      tasks := tasks[id := updated];
      latest := now;
      r := Success(updated);
    }

    /** `delete_task`: removes exactly that record. */
    method DeleteTask(id: string)
      requires Valid() && id in tasks
      modifies this
      ensures Valid() && latest == old(latest)
      ensures tasks == old(tasks) - {id} && |tasks| == |old(tasks)| - 1
    {
      tasks := tasks - {id};
    }
  }
}
