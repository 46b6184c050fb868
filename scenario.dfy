/** The four tests of the repository's test suite, replayed against the contracts alone, each on
    a fresh table. As in the tests, seeded rows are written straight to the table. */
module Scenario {
  import opened Wrappers
  import opened Models
  import opened Schemas
  import opened Crud
  import opened Endpoints

  /** Two ids as `str(uuid4())` draws them. */
  const FirstId: string := "6f1c0a4e-3b2d-4c9a-9e7f-0a1b2c3d4e5f"
  const SecondId: string := "0d9e8f7a-6b5c-4d3e-8f2a-1b0c9d8e7f6a"

  method CreateReturnsPayload() {
    var db := new TaskTable();
    var body := map[TitleKey := JsonString("Comprar café"),
                    DescriptionKey := JsonString("Granos tostados"),
                    IsCompletedKey := JsonBool(false)];
    var o := CreateTask(db, body, FirstId, 1);
    assert o.CreatedTask? && o.task.id == FirstId && o.task.id != [];
    assert o.task.title == "Comprar café" && o.task.description == Some("Granos tostados");
    assert !o.task.isCompleted;
  }

  method ListReturnsBothNewestFirst() {
    var db := new TaskTable();
    var r := db.CreateTask(TaskCreate("Tarea A", Some("Seeded description"), false), FirstId, 1);
    r := db.CreateTask(TaskCreate("Tarea B", Some("Seeded description"), true), SecondId, 2);
    var o := ReadTasks(db);
    assert |o.tasks| == 2;
    assert o.tasks[0].createdAt >= o.tasks[1].createdAt;
    assert o.tasks[0].id == SecondId && o.tasks[1].id == FirstId;
  }

  method PatchChangesOnlyGivenFields() {
    var db := new TaskTable();
    var r := db.CreateTask(TaskCreate("Sample task", Some("Seeded description"), false), FirstId, 1);
    var patch := map[TitleKey := JsonString("Actualizada"), IsCompletedKey := JsonBool(true)];
    ActualizadaIsClean();
    PatchTitleAndFlag("Actualizada", true);
    PatchKeepsDescription(db.tasks[FirstId], 2);
    var o := UpdateTask(db, FirstId, patch, 2);
    assert o.Updated? && o.task.title == "Actualizada" && o.task.isCompleted;
    assert o.task.description == Some("Seeded description");
  }

  /** The patch of the test, applied to any record: title and flag change, the description stays. */
  lemma PatchKeepsDescription(t: Task, now: Timestamp)
    ensures var u := ApplyUpdate(t, map[Title := Text("Actualizada"), IsCompleted := Flag(true)], now);
      u.Success? && u.value.title == "Actualizada" && u.value.isCompleted && u.value.description == t.description
  {
    var fields := map[Title := Text("Actualizada"), IsCompleted := Flag(true)];
    assert WellTyped(fields) && NotNullHolds(fields);
    UpdateFields(t, fields, now);
  }

  lemma ActualizadaIsClean()
    ensures TitleFits("Actualizada") && Strip("Actualizada") == "Actualizada"
  {
    StripTrimmed("Actualizada");
  }

  method DeleteRemovesRecord() {
    var db := new TaskTable();
    var r := db.CreateTask(TaskCreate("Sample task", Some("Seeded description"), false), FirstId, 1);
    var o := DeleteTask(db, FirstId);
    assert o == NoContent;
    o := ReadTask(db, FirstId);
    assert o == NotFound;
  }
}
