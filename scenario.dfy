/** One life cycle of an objective, driven through the handlers on an empty
    store: a boss creates an objective with its requirement, an employee lists
    and completes the requirement but may not delete the objective, the boss
    deletes it, and its requirements are gone. */
module Scenario {
  import opened Python
  import opened Models
  import opened Okr

  const BossPermissions: set<string> := {
    GET_PERSONS, GET_OBJECTIVES, GET_REQUIREMENTS, DELETE_OBJECTIVES,
    DELETE_REQUIREMENTS, PATCH_REQUIREMENTS, POST_REQUIREMENTS, POST_OBJECTIVES }

  const EmployeePermissions: set<string> := {
    GET_PERSONS, GET_OBJECTIVES, GET_REQUIREMENTS, PATCH_REQUIREMENTS }

  /** A boss creates objective "Ship v1" with requirement "Write tests" for
      a new person, and an employee lists the objective's requirements. */
  method CreateAndList() returns (db: Store, created: Response, listed: Response)
    ensures fresh(db) && db.Valid()
    ensures created.status == 200 && created.payload.ObjectiveCreated?
    ensures created.payload.nRequirements == 11
    ensures listed.status == 200 && listed.payload.RequirementList?
    ensures |listed.payload.requirements| == 1
    ensures listed.payload.requirements[0] == RequirementView(
      listed.payload.requirements[0].id, false, "Write tests", created.payload.objectiveId, "Ship v1")
    ensures db.objectives.Keys == {created.payload.objectiveId}
    ensures db.requirements == map[listed.payload.requirements[0].id :=
      Requirement("Write tests", false, created.payload.objectiveId)]
  {
    var boss, employee := Token(BossPermissions), Token(EmployeePermissions);
    db := new Store();
    var ok, person := db.InsertPerson(InitPerson(Str("Doe"), Str("Jane")));
    assert ok;
    ghost var objective, requirement;
    created, objective, requirement := NewObjective(db, boss, Object(map[
      "objective" := Str("Ship v1"), "person" := Int(person), "requirements" := Str("Write tests")]));
    var oid := created.payload.objectiveId;
    assert RequirementsOf(db.Rows(), oid) == {requirement};
    listed := RetrieveRequirements(db.Rows(), employee, oid);
  }

  /** The employee completes the requirement twice (the second time nothing
      changes) and may not delete the objective; the boss deletes it, after
      which its requirement list is not found. */
  method CompleteAndDelete(db: Store, oid: nat, rid: nat)
    returns (patched: Response, repeated: Response, refused: Response, deleted: Response, after: Response)
    requires db.Valid()
    requires db.objectives.Keys == {oid}
    requires db.requirements == map[rid := Requirement("Write tests", false, oid)]
    modifies db
    ensures patched == Response(200, Patched(false, true, true))
    ensures repeated == Response(200, Patched(true, true, false))
    ensures refused == Response(401, Unauthorized(PermissionMissing))
    ensures deleted == Response(200, Deleted(oid))
    ensures after == NotFound
    ensures db.objectives == map[] && db.requirements == map[]
  {
    var boss, employee := Token(BossPermissions), Token(EmployeePermissions);
    var body := Object(map["requirement_id" := Int(rid), "objective_id" := Int(oid), "is_met" := Bool(true)]);
    patched := UpdateRequirement(db, employee, rid, body);
    repeated := UpdateRequirement(db, employee, rid, body);
    refused := DeleteObjective(db, employee, oid);
    deleted := DeleteObjective(db, boss, oid);
    assert RequirementsOf(db.Rows(), oid) == {};
    after := RetrieveRequirements(db.Rows(), employee, oid);
  }

  /** The whole life cycle, as a client observes it. */
  method ObjectiveLifeCycle()
    returns (created: Response, listed: Response, patched: Response, repeated: Response,
             refused: Response, deleted: Response, after: Response)
    ensures created.status == 200 && created.payload.ObjectiveCreated?
    ensures created.payload.nRequirements == 11
    ensures listed.status == 200 && listed.payload.RequirementList?
    ensures |listed.payload.requirements| == 1
    ensures !listed.payload.requirements[0].isMet
    ensures listed.payload.requirements[0].description == "Write tests"
    ensures listed.payload.requirements[0].objectiveDescription == "Ship v1"
    ensures patched == Response(200, Patched(false, true, true))
    ensures repeated == Response(200, Patched(true, true, false))
    ensures refused == Response(401, Unauthorized(PermissionMissing))
    ensures deleted == Response(200, Deleted(created.payload.objectiveId))
    ensures after == NotFound
  {
    var db;
    db, created, listed := CreateAndList();
    assert listed.payload.requirements[0].id in db.requirements;
    patched, repeated, refused, deleted, after :=
      CompleteAndDelete(db, created.payload.objectiveId, listed.payload.requirements[0].id);
  }
}
