# CareerForge backend: ownership and defaulting rules, modelled in Dafny

CareerForge's backend is a REST service. It handles signup and login, resumes and their nested sections, and job applications linked to a resume. Each handler validates its input, makes a few ORM calls and maps the outcome to an HTTP status. This project replaces the database with an immutable in-memory store, `Schema.Db`, which holds one `Tables.Table` per entity: rows keyed by an auto-increment id. Each handler that can change the store or fail becomes a pure function from the store (plus the caller's id for the protected routes) and the request fields to a `Schema.Reply`: the new store, the status, the `message` and the body. The two list handlers, `Resumes.GetResumes` and `Tracker.GetApplications`, return the list alone, because apart from the 500 path the code always answers them with 200. The `protect` middleware, `Guard.Protect`, returns a `Guard.Verdict`: either the identity it passes on or the refusal it sends. The proofs cover these properties:

- "Only the caller's rows are touched."
- "Nothing else changes."
- Defaults and `||` fallbacks are applied exactly as the code writes them.
- Invariants are kept: auto-increment freshness, unique emails, and child rows that point at issued resume ids.

`Schema.Consistent` is the store invariant. It holds for the empty store (`Schema.EmptyDb`), and every handler that changes the store proves it holds afterwards. It says three things:

- Every id in use is below the table's next auto-increment id.
- Emails are unique.
- Every child row points at a resume id that has been issued.

The handlers that insert rows, scan a table (`findMany`) or search by email take `Consistent` as a precondition. It stands in for what the database's auto-increment and unique constraint guarantee. The source itself asks nothing more of its callers.

Modules, one per concern:

- `Js` (`js.dfy`): JavaScript truthiness, `startsWith`, and `split` with a one-character separator together with its inverse `Join`. Three definitions give the semantics the handlers rely on; they are definitions, and the properties proved about them are in the table below:
  - `Js.Or` is the `||` fallback of src/tracker/trackerController.js:33 and src/tracker/trackerController.js:95-97.
  - `Js.Field` records how Prisma treats an `undefined` versus a `null` column value.
  - `Js.Stored` is what Prisma's `create` stores for a field (src/resumes/resumeController.js:21-29).
  - `Js.Patch` is what Prisma's `update` leaves in a column (src/resumes/resumeController.js:125-127).
- `Tables` (`tables.dfy`): the ORM calls used: `create`, nested `create`, `update`, `delete`, `deleteMany`, `findFirst`.
- `Listing` (`listing.dfy`): `findMany` ordered by `createdAt` descending. It scans the id range, then runs an insertion sort.
- `Schema` (`schema.dfy`): the entities, the store, the store invariant `Consistent`, and the ownership predicates.
- `Auth` (`auth.dfy`): `signup` and `login`. bcrypt and JWT signing are oracles in `Crypto`.
- `Guard` (`guard.dfy`): the `protect` middleware. JWT verification is an oracle, `verify: string -> Option<P>`.
- `Resumes` (`resumes.dfy`): create, list, update and delete of the resume aggregate.
- `Tracker` (`tracker.dfy`): create, list, update and delete of applications.

The code shows unfinished parts, and the model follows what it does:

- `signup` stores new users with `isVerified = true`, which its own comment marks as temporary (src/auth/authController.js:28).
- `signup` accepts any non-empty password.
- `login` never looks at `isVerified`.
- Both `signup` and `login` return the stored user row, including the password hash.
- `src/auth/authRoutes.js:2` and `src/auth/authRoutes.js:9` wire a `verifyEmail` route that the controller does not export, so there is no email-verification step to model.
- `deleteResume` deletes the children of the given resume id before its owner-scoped delete of the resume itself. A caller who does not own the resume therefore wipes its skills, experiences, projects and education, and still gets 404. The model reproduces this (`Resumes.NonOwnerDeleteWipesChildren`); it does not fix it.
- `updateResume` answers 404 "Resume not found" to the owner when the body carries none of the six columns. Prisma drops `undefined` keys, an `updateMany` left with empty data updates nothing and reports a count of 0, and the code maps a 0 count to 404 (`Resumes.NoColumns`). The empty-data rule belongs to Prisma's query engine and is not visible in the code itself.
- `deleteResume` issues no write to applications. The model has no foreign keys, so there an application may be left pointing at a deleted resume (`Resumes.DeleteResumeLeavesApplicationDangling`). What the database itself would do is listed under "Left out".

## Model

| member | source | states |
|---|---|---|
| Js.Split | src/auth/authMiddleware.js:12 | `split(" ")` always yields at least one piece, and no piece contains the separator |
| Js.JoinSplit | src/auth/authMiddleware.js:12 | joining the pieces of a split with the separator gives back the original header |
| Js.SplitJoin | src/auth/authMiddleware.js:12 | splitting pieces joined by the separator gives back those pieces when none contains it, so split and join are inverse both ways |
| Js.SplitHead | src/auth/authMiddleware.js:12 | the first piece of a split is the text before the first separator |
| Js.OrAbsorbs | src/tracker/trackerController.js:95-97 | falling back to a value that was itself produced by the same fallback gives that value again, so re-sending an update's fields changes nothing |
| Js.OrTruthy | src/tracker/trackerController.js:33 | the result of the or-fallback is non-empty exactly when the sent value is truthy or the fallback is non-empty; `Tracker.CreateApplication` uses it to promise that a created status is never empty |
| Js.PatchIdempotent | src/resumes/resumeController.js:125-128 | writing the same column value twice (or skipping an `undefined` one twice) equals doing it once |
| Js.StartsWith | src/auth/authMiddleware.js:9 | a string starting with `p` is `p` followed by the rest of the string; with `Js.StartsWithAppend`, it holds exactly for strings of the form `p + t` |
| Js.StartsWithAppend | src/auth/authMiddleware.js:9 | every string `p + t` starts with `p` |
| Tables.Insert | src/tracker/trackerController.js:29-37 | `create` adds exactly one row under the next id, which no row held, and leaves every other row as it was |
| Tables.Replace | src/tracker/trackerController.js:92-98 | `update` by id replaces that one row, keeps the key set and the next id, and leaves every other row as it was |
| Tables.Remove | src/tracker/trackerController.js:126 | `delete` by id removes that one row and keeps every other row as it was |
| Tables.InsertAll | src/resumes/resumeController.js:32-70 | a nested `create` of a list adds one row per element, in order, under consecutive fresh ids, and keeps every existing row |
| Tables.FindFirst | src/auth/authController.js:15 | a lookup returns a row that satisfies the filter, and returns nothing exactly when no row does |
| Listing.InsertDescSorted | src/tracker/trackerController.js:62 | inserting into a newest-first sequence keeps it newest-first |
| Listing.SortDescSorted | src/tracker/trackerController.js:62 | the sort behind `orderBy: { createdAt: "desc" }` yields a non-increasing sequence of creation times |
| Listing.SortDescDistinct | src/tracker/trackerController.js:62 | the sort never duplicates an id |
| Listing.NewestFirst | src/tracker/trackerController.js:60-66 | `findMany` returns every row the filter selects, each exactly once and newest first, and no other row |
| Auth.FindByEmail | src/auth/authController.js:46-48 | the user lookup finds a user with that email, or reports none exactly when no stored user has it |
| Auth.Signup | src/auth/authController.js:11-30 | a falsy name, email or password gives 400 and no change. A taken email gives 400 "Email already exists" and no change. Otherwise 201 adds exactly one verified user whose password is the hash. Only the user table changes, and emails stay unique |
| Auth.Login | src/auth/authController.js:43-58 | a falsy field gives 400, an unknown email 404, and a password that does not match the stored hash 401. Otherwise 200 with the token signed over that user's id. The store never changes |
| Auth.SignupThenLogin | src/auth/authController.js:20-56 | when a password matches its own hash, logging in right after a successful signup succeeds with a token for the new user |
| Auth.SignupEmailOnce | src/auth/authController.js:15-17 | once signup has registered an email, any later complete signup with that email is refused with 400 and no change |
| Guard.BearerToken | src/auth/authMiddleware.js:12 | `header.split(" ")[1]` is the text after `"Bearer "` up to the next space |
| Guard.Protect | src/auth/authMiddleware.js:7-18 | a missing header, or one without the exact prefix `"Bearer "`, gives 401 "Not authorized". A token the verifier rejects gives 401 "Invalid or expired token". Otherwise the decoded payload is passed on, which is the one path that calls `next` |
| Guard.AllowOnlyVerified | src/auth/authMiddleware.js:13-16 | the identity attached to a request is always one that the verifier produced for some token |
| Guard.DoubleSpaceGivesEmptyToken | src/auth/authMiddleware.js:12 | for `"Bearer  x"` the token handed to the verifier is the empty string |
| Guard.LowerCaseSchemeRefused | src/auth/authMiddleware.js:9-10 | the prefix check is case-sensitive: `"bearer …"` is refused before any verification |
| Guard.TokenStopsAtSpace | src/auth/authMiddleware.js:12 | text after a second space is ignored |
| Resumes.CreateSkills | src/resumes/resumeController.js:32-34 | a skills array creates exactly one skill per element, linked to the new resume and copying only category and name. An absent array creates none |
| Resumes.CreateExperiences | src/resumes/resumeController.js:36-47 | the same for experiences and their six listed fields |
| Resumes.CreateProjects | src/resumes/resumeController.js:49-58 | the same for projects and their four listed fields |
| Resumes.CreateEducation | src/resumes/resumeController.js:60-70 | the same for education and its five listed fields |
| Resumes.CreateResume | src/resumes/resumeController.js:21-70 | 201 with one new resume owned by the caller, under the next id, with the six columns as sent. Each section present creates exactly its children, and each absent section leaves its table as it was. Users, applications and all existing rows are untouched |
| Resumes.View | src/resumes/resumeController.js:95-100 | `include` attaches to a resume exactly the skill, experience, project and education rows whose `resumeId` is that resume's id |
| Resumes.ListResumeIds | src/resumes/resumeController.js:92-94 | the list holds every resume of the caller exactly once, newest first, and no resume of anyone else |
| Resumes.GetResumes | src/resumes/resumeController.js:92-101 | each listed resume comes with exactly the skills, experiences, projects and education rows that point at it |
| Resumes.CreateThenGet | src/resumes/resumeController.js:21-101 | after a create, the caller's list holds the new resume. Its sections hold exactly the newly created children, and none for a section the request omitted |
| Resumes.UpdateResume | src/resumes/resumeController.js:125-130 | with no (id, owner) match, or with none of the six keys in the body: 404 and no change. Otherwise each of the six columns takes the sent value, or keeps its stored value when the key is missing. The owner, the creation time, the other resumes and every other table, children included, are unchanged |
| Resumes.UpdateResumeIdempotent | src/resumes/resumeController.js:125-128 | sending the same resume update twice leaves the store as sending it once |
| Resumes.RemoveChildren | src/resumes/resumeController.js:145-148 | `deleteMany({ where: { resumeId } })` removes exactly the child rows pointing at that resume id, and keeps every other row as it was |
| Resumes.ChildrenOfAfterRemove | src/resumes/resumeController.js:145-148 | deleting the children of one resume id leaves the children of every other resume id as they were |
| Resumes.DeleteResume | src/resumes/resumeController.js:145-154 | every skill, experience, project and education row of that resume id is removed, whoever owns the resume, and every other child row is kept. The resume row is removed (200) only if the caller owns it; otherwise 404 with the resume table unchanged. Users and applications are untouched |
| Resumes.NonOwnerDeleteWipesChildren | src/resumes/resumeController.js:145-154 | as written, a delete by someone who is not the owner answers 404 and keeps the resume row, but its skills, experiences, projects and education are all gone and the store has changed |
| Resumes.DeleteResumeSparesOthers | src/resumes/resumeController.js:145-152 | a delete leaves every other resume, with all its children, exactly as it was |
| Resumes.DeleteResumeLeavesApplicationDangling | src/resumes/resumeController.js:145-152 | the handler issues no write to applications; in the model, which has no foreign keys, an application may then point at a deleted resume |
| Tracker.CreateApplication | src/tracker/trackerController.js:12-37 | a falsy company, position or resumeId gives 400 and no change. A resume that is missing or not the caller's gives 404 and no change. Otherwise 201 adds exactly one application of the caller, pointing at that caller-owned resume. Its status is the sent one if truthy, else "Applied", so never empty, and its date is the parsed sent date if truthy, else now. Nothing else changes |
| Tracker.GetApplications | src/tracker/trackerController.js:60-66 | the list holds every application of the caller exactly once, newest first, and no application of anyone else |
| Tracker.UpdateApplication | src/tracker/trackerController.js:85-99 | an id that is missing or not the caller's gives 404 and no change. Otherwise company, position and status each take the new value when it is truthy and keep the old one otherwise. appliedDate, resumeId, userId, creation time and every other row are unchanged |
| Tracker.UpdateApplicationIdempotent | src/tracker/trackerController.js:92-99 | applying the same application update twice equals applying it once |
| Tracker.DeleteApplication | src/tracker/trackerController.js:119-126 | an id that is missing or not the caller's gives 404 and no change. Otherwise exactly that one row is removed and nothing else changes |
| Tracker.CreateThenList | src/tracker/trackerController.js:29-66 | a created application appears in its owner's list and in no other user's list |
| Tracker.StatusOnlyUpdate | src/tracker/trackerController.js:95-97 | an update that carries only a status leaves company and position unchanged |

## Left out

- Exception paths: the `try`/`catch` 500 responses and `console.error` logging are not modelled.
- Id coercion: `Number(id)` and its NaN case are not modelled; ids arrive as natural numbers.
- Bodies of the wrong shape are not modelled. Examples are a truthy section that is not an array, or a null element inside one. Each makes the code throw and answer 500.
- Clock and date parsing: `new Date()` becomes the `now` parameter and `new Date(appliedDate)` the `parseDate` oracle. An invalid date, which Prisma rejects with a 500, is not modelled.
- Crypto internals: bcrypt's salt and cost factor are folded into the `hash` oracle. The JWT secret, the one-day expiry and token internals sit behind `sign` and `verify`. Only `compare(p, hash(p))` is assumed, and only in `Auth.SignupThenLogin`.
- Joined response bodies: `Tracker.GetApplications` returns application ids without the joined resume summary (`id`, `title`, `template`). The create responses return only the new id, not the created row with its includes. `Resumes.GetResumes` does return each resume joined with its four child collections.
- Child order: the child collections of a listed resume are maps keyed by id, because the code gives them no order.
- Database schema: column types, defaults and nullability are not visible. On create, a missing or null scalar is stored as no value. Years and dates of child rows are text. Foreign keys and database-level cascades are not assumed.
- Transactions and concurrency: the atomicity of Prisma's nested create, and races such as two concurrent signups with one email, are not modelled.
- Wiring: `src/server.js`, the three route files and `src/utils/testEmail.js` are Express wiring and a one-off SMTP send.
- Listing.NewestFirst: rows with equal `createdAt` come in no promised order; Prisma promises none either.
- Resumes.DeleteResume: foreign-key behaviour is not modelled. If the database restricts deleting a resume that an application references, the resume delete fails with a 500 after the children are already gone. If it cascades, the application is deleted too. The model does neither.
- Email equality: `Auth.FindByEmail` and `Schema.EmailsUnique` compare emails exactly. A database collation that ignores case, which would treat `A@x.com` as taken after `a@x.com`, is not modelled.
