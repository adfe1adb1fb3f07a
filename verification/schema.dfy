/**
 * The persisted entities and the store the handlers act on: one table per
 * entity, with the invariants that auto-increment ids, the resume cascade
 * and the unique email column keep.
 */
module Schema {
  import opened Js
  import opened Tables

  /** `password` holds the hash, never the plain text. */
  datatype User = User(name: string, email: string, password: string, isVerified: bool)

  /** The six top-level columns are nullable; `userId` is the owner. */
  datatype Resume = Resume(
    title: Option<string>,
    summary: Option<string>,
    template: Option<string>,
    colorScheme: Option<string>,
    qualifications: Option<string>,
    customSections: Option<string>,
    userId: Id,
    createdAt: Timestamp)

  datatype Skill = Skill(category: Option<string>, name: Option<string>, resumeId: Id)

  datatype Experience = Experience(
    jobTitle: Option<string>,
    company: Option<string>,
    location: Option<string>,
    startDate: Option<string>,
    endDate: Option<string>,
    description: Option<string>,
    resumeId: Id)

  datatype Project = Project(
    name: Option<string>,
    summary: Option<string>,
    techStack: Option<string>,
    link: Option<string>,
    resumeId: Id)

  datatype Education = Education(
    degree: Option<string>,
    institution: Option<string>,
    startYear: Option<string>,
    endYear: Option<string>,
    grade: Option<string>,
    resumeId: Id)

  datatype Application = Application(
    company: string,
    position: string,
    status: string,
    appliedDate: Timestamp,
    resumeId: Id,
    userId: Id,
    createdAt: Timestamp)

  datatype Db = Db(
    users: Table<User>,
    resumes: Table<Resume>,
    skills: Table<Skill>,
    experiences: Table<Experience>,
    projects: Table<Project>,
    education: Table<Education>,
    applications: Table<Application>)

  /** What a handler leaves behind: the new store, the HTTP status, the `message` and the JSON body. */
  datatype Reply<B> = Reply(db: Db, status: nat, message: string, body: Option<B>)

  /** The unique constraint on `User.email`. */
  ghost predicate EmailsUnique(users: Table<User>) {
    forall j, k :: j in users.rows && k in users.rows && users.rows[j].email == users.rows[k].email ==> j == k
  }

  /**
   * Every child row points at a resume id that has been handed out; since a
   * resume's children are deleted with it, a freshly created resume has none.
   */
  ghost predicate ChildrenLinked(db: Db) {
    && (forall k :: k in db.skills.rows ==> db.skills.rows[k].resumeId < db.resumes.nextId)
    && (forall k :: k in db.experiences.rows ==> db.experiences.rows[k].resumeId < db.resumes.nextId)
    && (forall k :: k in db.projects.rows ==> db.projects.rows[k].resumeId < db.resumes.nextId)
    && (forall k :: k in db.education.rows ==> db.education.rows[k].resumeId < db.resumes.nextId)
  }

  ghost predicate Consistent(db: Db) {
    && Tables.Valid(db.users)
    && Tables.Valid(db.resumes)
    && Tables.Valid(db.skills)
    && Tables.Valid(db.experiences)
    && Tables.Valid(db.projects)
    && Tables.Valid(db.education)
    && Tables.Valid(db.applications)
    && EmailsUnique(db.users)
    && ChildrenLinked(db)
  }

  /** The store a fresh database starts from. */
  function EmptyDb(): (db: Db)
    ensures Consistent(db)
  {
    Db(Empty(), Empty(), Empty(), Empty(), Empty(), Empty(), Empty())
  }

  /** The resume under `id` exists and belongs to `caller` (`where: { id, userId }`). */
  predicate OwnsResume(db: Db, caller: Id, id: Id) {
    id in db.resumes.rows && db.resumes.rows[id].userId == caller
  }

  /** The application under `id` exists and belongs to `caller`. */
  predicate OwnsApplication(db: Db, caller: Id, id: Id) {
    id in db.applications.rows && db.applications.rows[id].userId == caller
  }

  /** Every application points at an existing resume of its own user. */
  ghost predicate ApplicationsLinked(db: Db) {
    forall k :: k in db.applications.rows ==>
      OwnsResume(db, db.applications.rows[k].userId, db.applications.rows[k].resumeId)
  }
}
