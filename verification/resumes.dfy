/**
 * Resume handlers of `src/resumes/resumeController.js`. A resume owns four
 * child collections (skills, experiences, projects, education), each a
 * table whose rows point back through `resumeId`.
 */
module Resumes {
  import opened Js
  import opened Tables
  import opened Listing
  import opened Schema

  datatype SkillInput = SkillInput(category: Field, name: Field)

  datatype ExperienceInput = ExperienceInput(
    jobTitle: Field, company: Field, location: Field, startDate: Field, endDate: Field, description: Field)

  datatype ProjectInput = ProjectInput(name: Field, summary: Field, techStack: Field, link: Field)

  datatype EducationInput = EducationInput(
    degree: Field, institution: Field, startYear: Field, endYear: Field, grade: Field)

  /** The six top-level columns a request may set. */
  datatype ResumeFields = ResumeFields(
    title: Field, summary: Field, template: Field, colorScheme: Field, qualifications: Field, customSections: Field)

  /** The body of a create request; a section that is absent (or falsy) is `None`. */
  datatype ResumeInput = ResumeInput(
    fields: ResumeFields,
    skills: Option<seq<SkillInput>>,
    experiences: Option<seq<ExperienceInput>>,
    projects: Option<seq<ProjectInput>>,
    education: Option<seq<EducationInput>>)

  /** The child row `skills.map(s => ({ category: s.category, name: s.name }))` creates for one element. */
  function NewSkill(s: SkillInput, rid: Id): Skill {
    Skill(Stored(s.category), Stored(s.name), rid)
  }

  /** The child row of one `experiences` element: its six listed fields only. */
  function NewExperience(e: ExperienceInput, rid: Id): Experience {
    Experience(Stored(e.jobTitle), Stored(e.company), Stored(e.location),
               Stored(e.startDate), Stored(e.endDate), Stored(e.description), rid)
  }

  /** The child row of one `projects` element: its four listed fields only. */
  function NewProject(p: ProjectInput, rid: Id): Project {
    Project(Stored(p.name), Stored(p.summary), Stored(p.techStack), Stored(p.link), rid)
  }

  /** The child row of one `education` element: its five listed fields only. */
  function NewEducation(e: EducationInput, rid: Id): Education {
    Education(Stored(e.degree), Stored(e.institution), Stored(e.startYear), Stored(e.endYear), Stored(e.grade), rid)
  }

  /** `items.map(x => make(x, rid))`: one child row per request element, in order. */
  function Rows<I, T>(items: seq<I>, make: (I, Id) -> T, rid: Id): (r: seq<T>)
    ensures |r| == |items|
    ensures forall i :: 0 <= i < |r| ==> r[i] == make(items[i], rid)
  {
    seq(|items|, i requires 0 <= i < |items| => make(items[i], rid))
  }

  /**
   * `after` holds the rows of `before` unchanged plus exactly `count` new
   * rows under the next `count` ids.
   */
  ghost predicate Appended<T>(before: Table<T>, after: Table<T>, count: nat) {
    && after.nextId == before.nextId + count
    && (forall k :: k in after.rows <==> k in before.rows || before.nextId <= k < before.nextId + count)
    && (forall k :: k in before.rows ==> after.rows[k] == before.rows[k])
  }

  /**
   * One section of a create: an absent array leaves the table as it was; a
   * present one appends `make(item, rid)` for each element, in order.
   */
  ghost predicate Created<I, T>(before: Table<T>, after: Table<T>, items: Option<seq<I>>, make: (I, Id) -> T, rid: Id) {
    && (items.None? ==> after == before)
    && (items.Some? ==>
          && Appended(before, after, |items.value|)
          && forall i :: 0 <= i < |items.value| ==> after.rows[before.nextId + i] == make(items.value[i], rid))
  }

  /** `section ? { create: section.map(...) } : undefined`. */
  function CreateSection<I, T>(t: Table<T>, items: Option<seq<I>>, make: (I, Id) -> T, rid: Id): (r: Table<T>)
    requires Tables.Valid(t)
    ensures Tables.Valid(r) && Created(t, r, items, make, rid)
  {
    if items.Some? then InsertAll(t, Rows(items.value, make, rid)) else t
  }

  function CreateSkills(t: Table<Skill>, items: Option<seq<SkillInput>>, rid: Id): (r: Table<Skill>)
    requires Tables.Valid(t)
    ensures Tables.Valid(r) && Created(t, r, items, NewSkill, rid)
    ensures forall k :: k in r.rows && k !in t.rows ==> r.rows[k].resumeId == rid
  {
    var r := CreateSection(t, items, NewSkill, rid);
    assert forall k :: k in r.rows && k !in t.rows ==> r.rows[k] == NewSkill(items.value[k - t.nextId], rid);
    r
  }

  function CreateExperiences(t: Table<Experience>, items: Option<seq<ExperienceInput>>, rid: Id): (r: Table<Experience>)
    requires Tables.Valid(t)
    ensures Tables.Valid(r) && Created(t, r, items, NewExperience, rid)
    ensures forall k :: k in r.rows && k !in t.rows ==> r.rows[k].resumeId == rid
  {
    var r := CreateSection(t, items, NewExperience, rid);
    assert forall k :: k in r.rows && k !in t.rows ==> r.rows[k] == NewExperience(items.value[k - t.nextId], rid);
    r
  }

  function CreateProjects(t: Table<Project>, items: Option<seq<ProjectInput>>, rid: Id): (r: Table<Project>)
    requires Tables.Valid(t)
    ensures Tables.Valid(r) && Created(t, r, items, NewProject, rid)
    ensures forall k :: k in r.rows && k !in t.rows ==> r.rows[k].resumeId == rid
  {
    var r := CreateSection(t, items, NewProject, rid);
    assert forall k :: k in r.rows && k !in t.rows ==> r.rows[k] == NewProject(items.value[k - t.nextId], rid);
    r
  }

  function CreateEducation(t: Table<Education>, items: Option<seq<EducationInput>>, rid: Id): (r: Table<Education>)
    requires Tables.Valid(t)
    ensures Tables.Valid(r) && Created(t, r, items, NewEducation, rid)
    ensures forall k :: k in r.rows && k !in t.rows ==> r.rows[k].resumeId == rid
  {
    var r := CreateSection(t, items, NewEducation, rid);
    assert forall k :: k in r.rows && k !in t.rows ==> r.rows[k] == NewEducation(items.value[k - t.nextId], rid);
    r
  }

  /** The top-level row a create stores. */
  function NewResume(f: ResumeFields, caller: Id, now: Timestamp): Resume {
    Resume(Stored(f.title), Stored(f.summary), Stored(f.template), Stored(f.colorScheme),
           Stored(f.qualifications), Stored(f.customSections), caller, now)
  }

  /**
   * `createResume`: one new resume owned by the caller and, for each section
   * present in the request, one child per element linked to it, carrying
   * only the listed fields. Absent sections create nothing.
   */
  function CreateResume(db: Db, caller: Id, input: ResumeInput, now: Timestamp): (r: Reply<Id>)
    requires Consistent(db)
    ensures Consistent(r.db)
    ensures ApplicationsLinked(db) ==> ApplicationsLinked(r.db)
    ensures r.status == 201 && r.message == "Resume created successfully" && r.body.Some?
    ensures r.db.users == db.users && r.db.applications == db.applications
    ensures var rid := r.body.value;
            && rid == db.resumes.nextId && rid !in db.resumes.rows
            && r.db.resumes.rows.Keys == db.resumes.rows.Keys + {rid}
            && (forall k :: k in db.resumes.rows ==> r.db.resumes.rows[k] == db.resumes.rows[k])
            && OwnsResume(r.db, caller, rid)
            && r.db.resumes.rows[rid].createdAt == now
            && r.db.resumes.rows[rid].title == Stored(input.fields.title)
            && r.db.resumes.rows[rid].summary == Stored(input.fields.summary)
            && r.db.resumes.rows[rid].template == Stored(input.fields.template)
            && r.db.resumes.rows[rid].colorScheme == Stored(input.fields.colorScheme)
            && r.db.resumes.rows[rid].qualifications == Stored(input.fields.qualifications)
            && r.db.resumes.rows[rid].customSections == Stored(input.fields.customSections)
    ensures Created(db.skills, r.db.skills, input.skills, NewSkill, r.body.value)
    ensures Created(db.experiences, r.db.experiences, input.experiences, NewExperience, r.body.value)
    ensures Created(db.projects, r.db.projects, input.projects, NewProject, r.body.value)
    ensures Created(db.education, r.db.education, input.education, NewEducation, r.body.value)
  {
    var (resumes, rid) := Insert(db.resumes, NewResume(input.fields, caller, now));
    var db' := Db(
      db.users,
      resumes,
      CreateSkills(db.skills, input.skills, rid),
      CreateExperiences(db.experiences, input.experiences, rid),
      CreateProjects(db.projects, input.projects, rid),
      CreateEducation(db.education, input.education, rid),
      db.applications);
    Reply(db', 201, "Resume created successfully", Some(rid))
  }

  /** The resume a child row belongs to, one per child table. */
  function SkillResume(x: Skill): Id { x.resumeId }
  function ExperienceResume(x: Experience): Id { x.resumeId }
  function ProjectResume(x: Project): Id { x.resumeId }
  function EducationResume(x: Education): Id { x.resumeId }

  /** The rows of a child table that belong to resume `rid`. */
  function ChildrenOf<T>(t: Table<T>, parent: T -> Id, rid: Id): (r: map<Id, T>)
    ensures forall k :: k in r <==> k in t.rows && parent(t.rows[k]) == rid
    ensures forall k :: k in r ==> r[k] == t.rows[k]
  {
    map k | k in t.rows && parent(t.rows[k]) == rid :: t.rows[k]
  }

  /** A resume as `include: { skills, experiences, projects, education }` returns it. */
  datatype ResumeView = ResumeView(
    id: Id,
    resume: Resume,
    skills: map<Id, Skill>,
    experiences: map<Id, Experience>,
    projects: map<Id, Project>,
    education: map<Id, Education>)

  function View(db: Db, rid: Id): (v: ResumeView)
    requires rid in db.resumes.rows
    ensures v.id == rid && v.resume == db.resumes.rows[rid]
    ensures forall k :: k in v.skills <==> k in db.skills.rows && db.skills.rows[k].resumeId == rid
    ensures forall k :: k in v.experiences <==> k in db.experiences.rows && db.experiences.rows[k].resumeId == rid
    ensures forall k :: k in v.projects <==> k in db.projects.rows && db.projects.rows[k].resumeId == rid
    ensures forall k :: k in v.education <==> k in db.education.rows && db.education.rows[k].resumeId == rid
    ensures forall k :: k in v.skills ==> v.skills[k] == db.skills.rows[k]
    ensures forall k :: k in v.experiences ==> v.experiences[k] == db.experiences.rows[k]
    ensures forall k :: k in v.projects ==> v.projects[k] == db.projects.rows[k]
    ensures forall k :: k in v.education ==> v.education[k] == db.education.rows[k]
  {
    ResumeView(
      rid,
      db.resumes.rows[rid],
      ChildrenOf(db.skills, SkillResume, rid),
      ChildrenOf(db.experiences, ExperienceResume, rid),
      ChildrenOf(db.projects, ProjectResume, rid),
      ChildrenOf(db.education, EducationResume, rid))
  }

  /**
   * The ids `getResumes` returns: each of the caller's resumes exactly once,
   * newest first, and nobody else's.
   */
  function ListResumeIds(db: Db, caller: Id): (r: seq<Id>)
    requires Consistent(db)
    ensures forall k :: k in r <==> OwnsResume(db, caller, k)
    ensures forall i :: 0 <= i < |r| ==> r[i] in db.resumes.rows
    ensures Distinct(r)
    ensures forall i, j :: 0 <= i < j < |r| ==> db.resumes.rows[r[i]].createdAt >= db.resumes.rows[r[j]].createdAt
  {
    var r := NewestFirst(db.resumes, (x: Resume) => x.userId == caller, (x: Resume) => x.createdAt);
    assert forall i :: 0 <= i < |r| ==> r[i] in r;
    r
  }

  /** `getResumes`: the listed resumes, each with its four child collections. */
  function GetResumes(db: Db, caller: Id): (r: seq<ResumeView>)
    requires Consistent(db)
    ensures var ids := ListResumeIds(db, caller);
            |r| == |ids| && forall i :: 0 <= i < |r| ==> r[i] == View(db, ids[i])
  {
    var ids := ListResumeIds(db, caller);
    seq(|ids|, i requires 0 <= i < |ids| => View(db, ids[i]))
  }

  /** The keys of `m` are exactly the `count` ids from `lo` on. */
  ghost predicate KeysFrom<T>(m: map<Id, T>, lo: Id, count: nat) {
    forall k :: k in m <==> lo <= k < lo + count
  }

  /** How many children a section of a create request asks for. */
  function Count<X>(items: Option<seq<X>>): nat {
    if items.Some? then |items.value| else 0
  }

  /**
   * When every earlier child points at a resume below `rid`, and `make`
   * links each new row to `rid`, the children of `rid` after a section
   * create are exactly the new rows.
   */
  lemma ChildrenOfCreated<I, T>(
    before: Table<T>, after: Table<T>, items: Option<seq<I>>, make: (I, Id) -> T, parent: T -> Id, rid: Id)
    requires forall k :: k in before.rows ==> parent(before.rows[k]) < rid
    requires Created(before, after, items, make, rid)
    requires items.Some? ==> forall i :: 0 <= i < |items.value| ==> parent(make(items.value[i], rid)) == rid
    ensures KeysFrom(ChildrenOf(after, parent, rid), before.nextId, Count(items))
  {
    forall k | before.nextId <= k < before.nextId + Count(items)
      ensures parent(after.rows[k]) == rid
    {
      assert after.rows[before.nextId + (k - before.nextId)] == make(items.value[k - before.nextId], rid);
    }
  }

  /**
   * Create then list: the caller's list holds the new resume, and its
   * sections hold exactly the children the request asked for (none for an
   * absent section).
   */
  lemma CreateThenGet(db: Db, caller: Id, input: ResumeInput, now: Timestamp)
    requires Consistent(db)
    ensures var c := CreateResume(db, caller, input, now);
            var v := View(c.db, c.body.value);
            && c.body.value in ListResumeIds(c.db, caller)
            && v.resume == NewResume(input.fields, caller, now)
            && KeysFrom(v.skills, db.skills.nextId, Count(input.skills))
            && KeysFrom(v.experiences, db.experiences.nextId, Count(input.experiences))
            && KeysFrom(v.projects, db.projects.nextId, Count(input.projects))
            && KeysFrom(v.education, db.education.nextId, Count(input.education))
  {
    var c := CreateResume(db, caller, input, now);
    var rid := c.body.value;
    ChildrenOfCreated(db.skills, c.db.skills, input.skills, NewSkill, SkillResume, rid);
    ChildrenOfCreated(db.experiences, c.db.experiences, input.experiences, NewExperience, ExperienceResume, rid);
    ChildrenOfCreated(db.projects, c.db.projects, input.projects, NewProject, ProjectResume, rid);
    ChildrenOfCreated(db.education, c.db.education, input.education, NewEducation, EducationResume, rid);
  }

  /**
   * The body sets none of the six columns. Prisma drops `undefined` keys, and
   * an `updateMany` left with empty data matches nothing and counts 0.
   */
  predicate NoColumns(f: ResumeFields) {
    && f.title.Undefined? && f.summary.Undefined? && f.template.Undefined?
    && f.colorScheme.Undefined? && f.qualifications.Undefined? && f.customSections.Undefined?
  }

  /**
   * `updateResume`: on the caller's own resume, each of the six columns takes
   * the request's value (a key missing from the body keeps the stored one);
   * the owner, the creation time and every other row and table stay as they
   * were. Without a matching (id, owner) row, or with no column to set, the
   * update counts 0 rows: 404 and no change.
   */
  function UpdateResume(db: Db, caller: Id, id: Id, f: ResumeFields): (r: Reply<()>)
    ensures Consistent(db) ==> Consistent(r.db)
    ensures ApplicationsLinked(db) ==> ApplicationsLinked(r.db)
    ensures !OwnsResume(db, caller, id) || NoColumns(f) ==> r == Reply(db, 404, "Resume not found", None)
    ensures OwnsResume(db, caller, id) && !NoColumns(f) ==>
              && r.status == 200 && r.message == "Resume updated successfully"
              && r.db == db.(resumes := r.db.resumes)
              && r.db.resumes.nextId == db.resumes.nextId
              && r.db.resumes.rows.Keys == db.resumes.rows.Keys
              && (forall k :: k in db.resumes.rows && k != id ==> r.db.resumes.rows[k] == db.resumes.rows[k])
              && var before, after := db.resumes.rows[id], r.db.resumes.rows[id];
                 && after.userId == caller && after.createdAt == before.createdAt
                 && after.title == Patch(before.title, f.title)
                 && after.summary == Patch(before.summary, f.summary)
                 && after.template == Patch(before.template, f.template)
                 && after.colorScheme == Patch(before.colorScheme, f.colorScheme)
                 && after.qualifications == Patch(before.qualifications, f.qualifications)
                 && after.customSections == Patch(before.customSections, f.customSections)
  {
    if !OwnsResume(db, caller, id) || NoColumns(f) then Reply(db, 404, "Resume not found", None)
    else
      var x := db.resumes.rows[id];
      var updated := x.(
        title := Patch(x.title, f.title),
        summary := Patch(x.summary, f.summary),
        template := Patch(x.template, f.template),
        colorScheme := Patch(x.colorScheme, f.colorScheme),
        qualifications := Patch(x.qualifications, f.qualifications),
        customSections := Patch(x.customSections, f.customSections));
      Reply(db.(resumes := Replace(db.resumes, id, updated)), 200, "Resume updated successfully", None)
  }

  /** Sending the same update twice leaves the store as sending it once. */
  lemma UpdateResumeIdempotent(db: Db, caller: Id, id: Id, f: ResumeFields)
    ensures var once := UpdateResume(db, caller, id, f);
            UpdateResume(once.db, caller, id, f).db == once.db
  {
    var once := UpdateResume(db, caller, id, f);
    if OwnsResume(db, caller, id) && !NoColumns(f) {
      var x := once.db.resumes.rows[id];
      PatchIdempotent(db.resumes.rows[id].title, f.title);
      PatchIdempotent(db.resumes.rows[id].summary, f.summary);
      PatchIdempotent(db.resumes.rows[id].template, f.template);
      PatchIdempotent(db.resumes.rows[id].colorScheme, f.colorScheme);
      PatchIdempotent(db.resumes.rows[id].qualifications, f.qualifications);
      PatchIdempotent(db.resumes.rows[id].customSections, f.customSections);
      assert once.db.resumes.rows[id := x] == once.db.resumes.rows;
    }
  }

  /** `deleteMany({ where: { resumeId: rid } })` on a child table. */
  function RemoveChildren<T>(t: Table<T>, parent: T -> Id, rid: Id): (r: Table<T>)
    ensures Tables.Valid(t) ==> Tables.Valid(r)
    ensures r.nextId == t.nextId
    ensures forall k :: k in r.rows <==> k in t.rows && parent(t.rows[k]) != rid
    ensures forall k :: k in r.rows ==> r.rows[k] == t.rows[k]
  {
    RemoveWhere(t, (x: T) => parent(x) == rid)
  }

  /** Removing the children of one resume leaves the children of every other resume as they were. */
  lemma ChildrenOfAfterRemove<T>(t: Table<T>, parent: T -> Id, id: Id, other: Id)
    requires other != id
    ensures ChildrenOf(RemoveChildren(t, parent, id), parent, other) == ChildrenOf(t, parent, other)
  {
  }

  /** Each child table has lost exactly its rows pointing at `id`, whoever owns them. */
  ghost predicate ChildrenRemoved(before: Db, after: Db, id: Id) {
    && after.skills.nextId == before.skills.nextId
    && after.experiences.nextId == before.experiences.nextId
    && after.projects.nextId == before.projects.nextId
    && after.education.nextId == before.education.nextId
    && (forall k :: k in after.skills.rows <==> k in before.skills.rows && before.skills.rows[k].resumeId != id)
    && (forall k :: k in after.skills.rows ==> after.skills.rows[k] == before.skills.rows[k])
    && (forall k :: k in after.experiences.rows <==>
          k in before.experiences.rows && before.experiences.rows[k].resumeId != id)
    && (forall k :: k in after.experiences.rows ==> after.experiences.rows[k] == before.experiences.rows[k])
    && (forall k :: k in after.projects.rows <==> k in before.projects.rows && before.projects.rows[k].resumeId != id)
    && (forall k :: k in after.projects.rows ==> after.projects.rows[k] == before.projects.rows[k])
    && (forall k :: k in after.education.rows <==>
          k in before.education.rows && before.education.rows[k].resumeId != id)
    && (forall k :: k in after.education.rows ==> after.education.rows[k] == before.education.rows[k])
  }

  /**
   * `deleteResume`, as written: the four `deleteMany` calls on the children
   * run first and are scoped by resume id only; the resume itself is then
   * deleted only when it belongs to the caller, and otherwise the answer is
   * 404 with the children already gone.
   */
  function DeleteResume(db: Db, caller: Id, id: Id): (r: Reply<()>)
    ensures Consistent(db) ==> Consistent(r.db)
    ensures r.db.users == db.users && r.db.applications == db.applications
    ensures ChildrenRemoved(db, r.db, id)
    ensures r.db.resumes.nextId == db.resumes.nextId
    ensures OwnsResume(db, caller, id) ==>
              && r.status == 200 && r.message == "Resume deleted successfully"
              && r.db.resumes.rows.Keys == db.resumes.rows.Keys - {id}
              && (forall k :: k in r.db.resumes.rows ==> r.db.resumes.rows[k] == db.resumes.rows[k])
    ensures !OwnsResume(db, caller, id) ==>
              r.status == 404 && r.message == "Resume not found" && r.db.resumes == db.resumes
    ensures r.body.None?
  {
    var cut := db.(
      skills := RemoveChildren(db.skills, SkillResume, id),
      experiences := RemoveChildren(db.experiences, ExperienceResume, id),
      projects := RemoveChildren(db.projects, ProjectResume, id),
      education := RemoveChildren(db.education, EducationResume, id));
    if OwnsResume(db, caller, id) then
      Reply(cut.(resumes := Remove(cut.resumes, id)), 200, "Resume deleted successfully", None)
    else
      Reply(cut, 404, "Resume not found", None)
  }

  /**
   * The behaviour of `deleteResume` as written: a caller who does not own
   * the resume gets 404 and the resume row survives, but its skills,
   * experiences, projects and education are deleted all the same, so the
   * store has changed.
   */
  lemma NonOwnerDeleteWipesChildren(db: Db, caller: Id, id: Id, skill: Id)
    requires id in db.resumes.rows && db.resumes.rows[id].userId != caller
    requires skill in db.skills.rows && db.skills.rows[skill].resumeId == id
    ensures var r := DeleteResume(db, caller, id);
            && r.status == 404
            && id in r.db.resumes.rows
            && View(r.db, id).skills == map[]
            && View(r.db, id).experiences == map[]
            && View(r.db, id).projects == map[]
            && View(r.db, id).education == map[]
            && r.db != db
  {
    var r := DeleteResume(db, caller, id);
    assert skill !in r.db.skills.rows;
  }

  /** Rows of every other resume, and the other users' resumes, come through a delete untouched. */
  lemma DeleteResumeSparesOthers(db: Db, caller: Id, id: Id, other: Id)
    requires other != id && other in db.resumes.rows
    ensures var r := DeleteResume(db, caller, id);
            other in r.db.resumes.rows && View(r.db, other) == View(db, other)
  {
    ChildrenOfAfterRemove(db.skills, SkillResume, id, other);
    ChildrenOfAfterRemove(db.experiences, ExperienceResume, id, other);
    ChildrenOfAfterRemove(db.projects, ProjectResume, id, other);
    ChildrenOfAfterRemove(db.education, EducationResume, id, other);
  }

  /**
   * The handler issues no write to the application table. In this model,
   * which has no foreign keys, an application may therefore be left pointing
   * at a deleted resume; the database's own foreign-key behaviour is not
   * modelled.
   */
  lemma DeleteResumeLeavesApplicationDangling()
    ensures var resume := Resume(None, None, None, None, None, None, 1, 0);
            var app := Application("Acme", "Engineer", "Applied", 0, 1, 1, 0);
            var db := EmptyDb().(resumes := Table(map[1 := resume], 2), applications := Table(map[1 := app], 2));
            && Consistent(db) && ApplicationsLinked(db)
            && !ApplicationsLinked(DeleteResume(db, 1, 1).db)
  {
    var resume := Resume(None, None, None, None, None, None, 1, 0);
    var app := Application("Acme", "Engineer", "Applied", 0, 1, 1, 0);
    var db := EmptyDb().(resumes := Table(map[1 := resume], 2), applications := Table(map[1 := app], 2));
    var after := DeleteResume(db, 1, 1).db;
    assert 1 in after.applications.rows && 1 !in after.resumes.rows;
  }
}
