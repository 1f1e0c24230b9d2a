# Student registration: registration, statistics and dashboard helpers

A model, in Dafny, of the logic of a small student-registration web
application. An Express/Mongoose backend stores courses and students and
answers a registration request, a student lookup and an aggregate statistics
request. A browser dashboard renders those statistics. The document store is
modelled as two in-memory sequences: the Course collection and the Student
collection, in storage order. Store identifiers (ObjectIds) are strings, so the
source's `String(a) === String(b)` comparisons become string equality.

Modules, one per concern:

- `Records` (records.dfy): the Course and Student record shapes, `Course.findById`
  as `FindCourse`, and `CountRef`, the number of students referencing a course.
- `Registration` (registration.dfy): the request body and the handler's two
  checks. A field is rejected when it is falsy (absent or empty): `server.js:61`
  tests only falsiness, so a field of spaces such as `"  "` passes. Trimming
  happens only in the browser, before sending (`public/js/main.js:27-29`).
- `Server` (server.dfy): the registration reply, the student lookup with its
  course populated, and `Store`, a class over the two collections. `Register`
  appends one student. `GetStats` only reads.
- `Aggregation` (aggregation.dfy): the statistics handler. It groups students by
  course reference (`$group`), names each group after its course or `'Unknown'`,
  folds the total, then appends a zero-count entry for every course not yet
  present. The whole handler is specified by `StatsOf`. Each of its loops is a
  method proved against that function.
- `HtmlEscape` (escape.dfy): `escapeHtml`, with a decoder `Unescape` as its
  independent partner.
- `Dashboard` (dashboard.dfy): the percentage rule, the in-place descending sort
  by count, the per-course rows with the own-course mark, and the own-course
  summary. The end-to-end lemmas state what the dashboard shows for statistics
  computed from a store.

The registration identifier is generated by the store (an ObjectId). The model
takes it as a parameter of `Register`. Saving under an identifier already taken
fails with a duplicate-key error, and the handler's catch turns that into
`500 Server error`. The model keeps that path, so the store invariant (distinct
student identifiers) needs no precondition on callers.

## Model

| member | source | states |
|---|---|---|
| Records.FindCourse | server.js:65 | `None` exactly when no stored course has the id; otherwise the first stored course with that id |
| Registration.Validate | server.js:60-66 | `MissingFields` exactly when one of the four fields is absent or empty; `InvalidCourse` exactly when all are present and no course has `courseId`; otherwise accepts a stored course whose id is `courseId` |
| Server.RegisterReply | server.js:58-79 | 400 "Missing fields" iff a field is falsy; 400 "Invalid course" iff the fields are present and the course is unknown; 200 with the new id iff the fields are present, the course exists and the generated id is free; when the fields are present, the course exists and the id is taken, exactly 500 "Server error"; the status is 400 exactly in the two validation failures and 500 only with "Server error" |
| Server.Store.Register | server.js:68-75 | on success appends exactly one student carrying the request's name, studentId, rollNumber and courseId under the returned id; on every failure the students are unchanged; courses are never changed; student ids stay distinct |
| Server.Lookup | server.js:83-87 | not found exactly when no student has the id; otherwise a student with that id, with its course populated by `findById` |
| Server.LookupUnique | server.js:83-87 | with distinct student ids, the student found is the only stored student carrying the requested id |
| Server.Store.GetStudent | server.js:83-87 | answers the lookup of the current store; under the store invariant the student found is the only one with that id |
| Server.RegisterThenLookup | server.js:68-86 | after a successful registration, looking up the returned id gives back the record just written, with the validated course embedded |
| Server.StatsAfterRegister | server.js:96-114 | appending a student raises the total by one and the count of that student's course by one; every other count is unchanged |
| Server.Store.GetStats | server.js:94-122 | answers `StatsOf` of the current store, so `totalStudents` equals the number of stored students and the sum of the counts; reads and changes nothing |
| Server.Store.GetStatsTwice | server.js:94-122 | two statistics requests with no write in between return identical results |
| Aggregation.GroupBy | server.js:96-103 | groups have distinct course ids; a course id has a group exactly when some student references it; each group's count is the number of students referencing it; the counts sum to the number of students |
| Aggregation.GroupByCounts | server.js:96-103 | every group counts exactly the students referencing its id, and so holds at least one |
| Aggregation.NameGroups | server.js:105-113 | the first loop produces, in group order, one entry per group carrying its id, its count, and its course's name or 'Unknown' |
| Aggregation.SumCounts | server.js:114 | the fold returns the sum of the entries' counts |
| Aggregation.AppendZeroCourses | server.js:116-121 | the second loop yields `AddMissing`: one zero-count entry per course whose id is not yet present, including ids appended earlier in the loop |
| Aggregation.AddMissingShape | server.js:116-121 | the appended part keeps the existing entries as a prefix; every appended entry has count 0 and the id and name of the first course with that id; no id is duplicated; the sum of counts is unchanged |
| Aggregation.ComputeStats | server.js:94-122 | the handler's four steps compute `StatsOf(courses, students)` |
| Aggregation.StatsTotal | server.js:114-121 | `totalStudents` equals the number of stored students and the sum of `count` over all `perCourse` entries |
| Aggregation.StatsEntries | server.js:96-121 | `perCourse` ids are pairwise distinct; an id is present exactly when it is a stored course or some student references it; each entry counts the students referencing its id and is named after its course, or 'Unknown' |
| Aggregation.StatsCourseOnce | server.js:116-120 | every stored course appears in exactly one entry; a course with no students gets a count-0 entry carrying its name |
| Aggregation.StatsUnknown | server.js:106-111 | a referenced id that resolves to no course keeps its count, at least 1, under the name 'Unknown' |
| Aggregation.StatsExample | server.js:94-122 | courses CS, EE with students CS, CS, EE give total 3 and entries (CS, 2), (EE, 1) |
| HtmlEscape.EscapeHtml | public/js/dashboard.js:91-94 | `''` for an absent or empty argument; otherwise the per-character replacement of the string |
| HtmlEscape.EscapeHtmlSafe | public/js/dashboard.js:93 | the output holds no `<`, `>`, `"` or `'`, and every `&` in it begins `&amp;`, `&lt;`, `&gt;`, `&quot;` or `&#39;` |
| HtmlEscape.EscapeIdentity | public/js/dashboard.js:93 | a string with none of the five characters is returned unchanged |
| HtmlEscape.EscapeRoundTrip | public/js/dashboard.js:93 | decoding the five references in the output gives back the input |
| HtmlEscape.EscapeInjective | public/js/dashboard.js:93 | two different strings never escape to the same output |
| Dashboard.Percent | public/js/dashboard.js:54 | 0 when the total is 0, with no division; otherwise the integer nearest to 100·count/total, with halves rounded up as `Math.round` does |
| Dashboard.PercentBounds | public/js/dashboard.js:76 | for 0 ≤ count ≤ total the percentage lies in 0..100; a count of 0 gives 0 and the whole total gives 100 |
| Dashboard.PercentExample | public/js/dashboard.js:54 | 2 of 3 is 67, 1 of 3 is 33, and any count over a total of 0 is 0 |
| Dashboard.SortByCountDesc | public/js/dashboard.js:42 | after the in-place sort the array is a permutation of its input with non-increasing counts |
| Dashboard.BuildRows | public/js/dashboard.js:45-71 | one row per entry, in order, each with the escaped course name, the count, the percentage of the total and the own-course mark |
| Dashboard.RowsFacts | public/js/dashboard.js:49-65 | a row's name is safe markup; a row is marked "(Your course)" exactly when its course id is the student's; with distinct ids at most one row is marked; when the total is the sum of the counts every bar is within 0..100 |
| Dashboard.MyCount | public/js/dashboard.js:74-75 | the count of the first entry whose course id is the student's, or 0 when none matches |
| Dashboard.RenderStats | public/js/dashboard.js:38-76 | sorts the entries into a non-increasing permutation, builds the rows from the sorted order, and computes the own-course count and its percentage |
| Dashboard.SummaryCount | public/js/dashboard.js:74-76 | on statistics computed from a store, after the sort, the summary count is the number of students registered for the viewer's course, and its percentage is within 0..100 |
| Dashboard.OwnRowOnce | public/js/dashboard.js:62-65 | on statistics computed from a store, after the sort, exactly one row is marked "(Your course)" when the viewer's course exists |

## Left out

- Express bootstrap, CORS, static file serving, the `*` fallback route, port and environment handling, and `process.exit` (server.js:1-19, server.js:129-134): these are I/O plumbing.
- The Mongoose connection and schema machinery (server.js:21-43). Only the record shapes are kept.
- `GET /api/courses` (server.js:48-55): a database query with a sort by name, with no logic of its own.
- The `createdAt` default from the clock (server.js:41) and the `toLocaleString` date display (public/js/dashboard.js:34): these depend on the clock and the locale.
- Store failures other than a taken identifier (store unreachable, write failure): these all end in `500 Server error` and are not modelled.
- Registration.Validate: Mongoose casts `courseId` to an ObjectId, and the model does not. Ids are assumed to arrive in the store's canonical spelling (24 lowercase hex digits). A malformed id string makes `findById` throw, which the handler reports as a 500; the model answers "Invalid course". A well-formed id in another spelling, such as the uppercase-hex form of an existing course's id, is found by the source, which answers 200 and stores the canonical id; the model compares strings and answers "Invalid course". Request fields that are JSON numbers or booleans are not modelled; a field is absent or a string.
- Server.Lookup: ids are assumed to arrive in the store's canonical lowercase-hex spelling. A malformed id makes the ObjectId cast fail (a 500 in the source) and the model reports not found. A well-formed id in another spelling, such as the uppercase-hex form of an existing student's id, is found by `Student.findById` at server.js:85, while the model reports not found.
- `fetch`, `Promise.all` and the DOM construction of the dashboard (public/js/dashboard.js:2-36, 44-88). A row is reduced to its escaped name, count, percentage and own-course mark. The surrounding markup, the "(N students)" text and the bar colour are left out. The `|| 0` and `|| []` defaults for a malformed statistics reply are left out too.
- Dashboard.Percent: the source divides in floating point and rounds. The model uses exact integer half-up rounding, `(200·count + total) / (2·total)`, and ignores floating-point rounding artefacts.
- Dashboard.SortByCountDesc: the contract does not state stability. The JavaScript sort is stable, so entries with equal counts keep their order there; the insertion sort here swaps only strictly smaller counts but this is not proved.
- Aggregation.GroupBy: MongoDB returns `$group` results in an unspecified order. The model fixes first-occurrence order. The properties stated through membership, counts and sums (GroupBy, GroupByCounts, StatsTotal, StatsEntries, StatsCourseOnce, StatsUnknown) do not depend on that order. StatsExample's entry order and the "in group order" of NameGroups follow the chosen order.
- public/js/main.js (client-side trimming and the course-selection check), seed.js (the one-off course seeding) and route-courses.js (a router over a model file that is not available) are not part of this model.
- Concurrency between requests and stale statistics reads: each request is modelled as one atomic step on the store.
