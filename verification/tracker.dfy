/**
 * Application handlers of `src/tracker/trackerController.js`: create, list,
 * update and delete over the application table, each scoped to the caller.
 * The wall clock and the `Date` parser enter as parameters.
 */
module Tracker {
  import opened Js
  import opened Tables
  import opened Listing
  import opened Schema

  /** The fields of a create request; `resumeId` is the already numeric id. */
  datatype ApplicationInput = ApplicationInput(
    company: Option<string>,
    position: Option<string>,
    status: Option<string>,
    appliedDate: Option<string>,
    resumeId: Option<Id>)

  /** The three fields an update request may carry. */
  datatype ApplicationPatch = ApplicationPatch(company: Option<string>, position: Option<string>, status: Option<string>)

  const DefaultStatus := "Applied"

  /** The three fields a create insists on are all truthy. */
  predicate CreateComplete(input: ApplicationInput) {
    Truthy(input.company) && Truthy(input.position) && TruthyId(input.resumeId)
  }

  /** Only the caller's rows may differ between `before` and `after`. */
  ghost predicate OthersUntouched(before: Table<Application>, after: Table<Application>, caller: Id) {
    forall k :: k in before.rows && before.rows[k].userId != caller ==>
      k in after.rows && after.rows[k] == before.rows[k]
  }

  /**
   * `createApplication`: 400 when company, position or resumeId is falsy;
   * 404 unless the resume exists and belongs to the caller; otherwise 201
   * with one new application of the caller, whose status defaults to
   * "Applied" and whose date defaults to now.
   */
  function CreateApplication(
    db: Db, caller: Id, input: ApplicationInput, now: Timestamp, parseDate: string -> Timestamp): (r: Reply<Id>)
    requires Consistent(db)
    ensures Consistent(r.db)
    ensures ApplicationsLinked(db) ==> ApplicationsLinked(r.db)
    ensures r.db == db.(applications := r.db.applications)
    ensures OthersUntouched(db.applications, r.db.applications, caller)
    ensures !CreateComplete(input) ==>
              r == Reply(db, 400, "Company, position, and resumeId are required", None)
    ensures CreateComplete(input) && !OwnsResume(db, caller, input.resumeId.value) ==>
              r == Reply(db, 404, "Resume not found or doesn't belong to user", None)
    ensures r.status == 201 <==> CreateComplete(input) && OwnsResume(db, caller, input.resumeId.value)
    ensures r.status == 201 ==>
              && r.message == "Application created successfully"
              && r.body.Some?
              && var id := r.body.value;
                 && id !in db.applications.rows
                 && r.db.applications.rows.Keys == db.applications.rows.Keys + {id}
                 && (forall k :: k in db.applications.rows ==> r.db.applications.rows[k] == db.applications.rows[k])
                 && var a := r.db.applications.rows[id];
                    && a.company == input.company.value
                    && a.position == input.position.value
                    && (Truthy(input.status) ==> a.status == input.status.value)
                    && (!Truthy(input.status) ==> a.status == DefaultStatus)
                    && a.status != ""
                    && (Truthy(input.appliedDate) ==> a.appliedDate == parseDate(input.appliedDate.value))
                    && (!Truthy(input.appliedDate) ==> a.appliedDate == now)
                    && a.resumeId == input.resumeId.value
                    && a.userId == caller
                    && a.createdAt == now
                    && OwnsResume(r.db, a.userId, a.resumeId)
  {
    if !CreateComplete(input) then Reply(db, 400, "Company, position, and resumeId are required", None)
    else if !OwnsResume(db, caller, input.resumeId.value) then
      Reply(db, 404, "Resume not found or doesn't belong to user", None)
    else
      var app := Application(
        input.company.value,
        input.position.value,
        Or(input.status, DefaultStatus),
        if Truthy(input.appliedDate) then parseDate(input.appliedDate.value) else now,
        input.resumeId.value,
        caller,
        now);
      OrTruthy(input.status, DefaultStatus);
      var (apps, id) := Insert(db.applications, app);
      Reply(db.(applications := apps), 201, "Application created successfully", Some(id))
  }

  /**
   * `getApplications`: each of the caller's applications exactly once,
   * newest first, and nobody else's.
   */
  function GetApplications(db: Db, caller: Id): (r: seq<Id>)
    requires Consistent(db)
    ensures forall k :: k in r <==> OwnsApplication(db, caller, k)
    ensures forall i :: 0 <= i < |r| ==> r[i] in db.applications.rows
    ensures Distinct(r)
    ensures forall i, j :: 0 <= i < j < |r| ==>
              db.applications.rows[r[i]].createdAt >= db.applications.rows[r[j]].createdAt
  {
    var r := NewestFirst(db.applications, (a: Application) => a.userId == caller, (a: Application) => a.createdAt);
    assert forall i :: 0 <= i < |r| ==> r[i] in r;
    r
  }

  /**
   * `updateApplication`: 404 unless the application belongs to the caller;
   * otherwise company, position and status each take the new value when it
   * is truthy and keep the stored one otherwise, and nothing else changes.
   */
  function UpdateApplication(db: Db, caller: Id, id: Id, patch: ApplicationPatch): (r: Reply<Application>)
    ensures Consistent(db) ==> Consistent(r.db)
    ensures ApplicationsLinked(db) ==> ApplicationsLinked(r.db)
    ensures r.db == db.(applications := r.db.applications)
    ensures OthersUntouched(db.applications, r.db.applications, caller)
    ensures !OwnsApplication(db, caller, id) ==> r == Reply(db, 404, "Application not found", None)
    ensures OwnsApplication(db, caller, id) ==>
              && r.status == 200 && r.message == "Application updated successfully"
              && r.db.applications.nextId == db.applications.nextId
              && r.db.applications.rows.Keys == db.applications.rows.Keys
              && (forall k :: k in db.applications.rows && k != id ==>
                    r.db.applications.rows[k] == db.applications.rows[k])
              && r.body == Some(r.db.applications.rows[id])
              && var before, after := db.applications.rows[id], r.db.applications.rows[id];
                 && (Truthy(patch.company) ==> after.company == patch.company.value)
                 && (!Truthy(patch.company) ==> after.company == before.company)
                 && (Truthy(patch.position) ==> after.position == patch.position.value)
                 && (!Truthy(patch.position) ==> after.position == before.position)
                 && (Truthy(patch.status) ==> after.status == patch.status.value)
                 && (!Truthy(patch.status) ==> after.status == before.status)
                 && after.appliedDate == before.appliedDate
                 && after.resumeId == before.resumeId
                 && after.userId == before.userId
                 && after.createdAt == before.createdAt
  {
    if !OwnsApplication(db, caller, id) then Reply(db, 404, "Application not found", None)
    else
      var existing := db.applications.rows[id];
      var updated := existing.(
        company := Or(patch.company, existing.company),
        position := Or(patch.position, existing.position),
        status := Or(patch.status, existing.status));
      Reply(db.(applications := Replace(db.applications, id, updated)), 200, "Application updated successfully",
            Some(updated))
  }

  /** Sending the same update twice leaves the store as sending it once. */
  lemma UpdateApplicationIdempotent(db: Db, caller: Id, id: Id, patch: ApplicationPatch)
    ensures var once := UpdateApplication(db, caller, id, patch);
            UpdateApplication(once.db, caller, id, patch).db == once.db
  {
    var once := UpdateApplication(db, caller, id, patch);
    if OwnsApplication(db, caller, id) {
      var x := once.db.applications.rows[id];
      OrAbsorbs(patch.company, db.applications.rows[id].company);
      OrAbsorbs(patch.position, db.applications.rows[id].position);
      OrAbsorbs(patch.status, db.applications.rows[id].status);
      assert x.(company := Or(patch.company, x.company), position := Or(patch.position, x.position),
                status := Or(patch.status, x.status)) == x;
      assert once.db.applications.rows[id := x] == once.db.applications.rows;
    }
  }

  /**
   * `deleteApplication`: 404 unless the application belongs to the caller;
   * otherwise exactly that one row goes and nothing else changes.
   */
  function DeleteApplication(db: Db, caller: Id, id: Id): (r: Reply<()>)
    ensures Consistent(db) ==> Consistent(r.db)
    ensures ApplicationsLinked(db) ==> ApplicationsLinked(r.db)
    ensures r.db == db.(applications := r.db.applications)
    ensures OthersUntouched(db.applications, r.db.applications, caller)
    ensures !OwnsApplication(db, caller, id) ==> r == Reply(db, 404, "Application not found", None)
    ensures OwnsApplication(db, caller, id) ==>
              && r.status == 200 && r.message == "Application deleted successfully"
              && r.db.applications.rows.Keys == db.applications.rows.Keys - {id}
              && (forall k :: k in r.db.applications.rows ==> r.db.applications.rows[k] == db.applications.rows[k])
  {
    if !OwnsApplication(db, caller, id) then Reply(db, 404, "Application not found", None)
    else Reply(db.(applications := Remove(db.applications, id)), 200, "Application deleted successfully", None)
  }

  /** A created application shows up in its owner's list and in nobody else's. */
  lemma CreateThenList(db: Db, caller: Id, other: Id, input: ApplicationInput, now: Timestamp,
                       parseDate: string -> Timestamp)
    requires Consistent(db) && other != caller
    requires CreateApplication(db, caller, input, now, parseDate).status == 201
    ensures var c := CreateApplication(db, caller, input, now, parseDate);
            && c.body.value in GetApplications(c.db, caller)
            && c.body.value !in GetApplications(c.db, other)
  {
  }

  /** An update that carries only a status leaves company and position as they were. */
  lemma StatusOnlyUpdate(db: Db, caller: Id, id: Id, status: string)
    requires OwnsApplication(db, caller, id)
    ensures var r := UpdateApplication(db, caller, id, ApplicationPatch(None, None, Some(status)));
            && r.db.applications.rows[id].company == db.applications.rows[id].company
            && r.db.applications.rows[id].position == db.applications.rows[id].position
            && (status != "" ==> r.db.applications.rows[id].status == status)
  {
  }
}
