/** The statistics endpoint: students grouped by course reference, each
    group named after its course (or 'Unknown'), the total folded from the
    groups, and a zero-count entry appended for every course that has no
    group yet. */
module Aggregation {
  import opened Records

  /** One row of the `$group` stage: a course reference and how many students carry it. */
  datatype Group = Group(id: Id, count: nat)

  /** One element of `perCourse`. */
  datatype Entry = Entry(courseId: Id, courseName: string, count: nat)

  /** The response body `{ totalStudents, perCourse }`. */
  datatype Stats = Stats(totalStudents: nat, perCourse: seq<Entry>)

  // ---------------------------------------------------------------- grouping

  ghost predicate DistinctGroupIds(gs: seq<Group>) {
    forall i, j :: 0 <= i < j < |gs| ==> gs[i].id != gs[j].id
  }

  ghost predicate InGroups(gs: seq<Group>, id: Id) {
    exists i :: 0 <= i < |gs| && gs[i].id == id
  }

  /** The count of the first group carrying `id`, 0 when there is none. */
  function GroupCount(gs: seq<Group>, id: Id): nat {
    if gs == [] then 0
    else if gs[0].id == id then gs[0].count
    else GroupCount(gs[1..], id)
  }

  function SumGroups(gs: seq<Group>): nat {
    if gs == [] then 0 else gs[0].count + SumGroups(gs[1..])
  }

  /** Adds one student with course reference `c` to the groups: bumps the
      group of `c`, or opens a new group of one at the end. */
  function GroupInsert(gs: seq<Group>, c: Id): seq<Group> {
    if gs == [] then [Group(c, 1)]
    else if gs[0].id == c then [Group(c, gs[0].count + 1)] + gs[1..]
    else [gs[0]] + GroupInsert(gs[1..], c)
  }

  lemma InGroupsCons(g: Group, gs: seq<Group>, id: Id)
    ensures InGroups([g] + gs, id) <==> g.id == id || InGroups(gs, id)
  {
    var r := [g] + gs;
    if InGroups(gs, id) {
      var i :| 0 <= i < |gs| && gs[i].id == id;
      assert r[i + 1].id == id;
    }
    if InGroups(r, id) && g.id != id {
      var i :| 0 <= i < |r| && r[i].id == id;
      assert r[0] == g;
      assert gs[i - 1].id == id;
    }
  }

  lemma {:induction false} GroupInsertIds(gs: seq<Group>, c: Id, id: Id)
    ensures InGroups(GroupInsert(gs, c), id) <==> InGroups(gs, id) || id == c
  {
    if gs == [] {
      assert GroupInsert(gs, c)[0].id == c;
    } else {
      assert gs == [gs[0]] + gs[1..];
      InGroupsCons(gs[0], gs[1..], id);
      if gs[0].id == c {
        InGroupsCons(Group(c, gs[0].count + 1), gs[1..], id);
      } else {
        GroupInsertIds(gs[1..], c, id);
        InGroupsCons(gs[0], GroupInsert(gs[1..], c), id);
      }
    }
  }

  lemma {:induction false} GroupInsertDistinct(gs: seq<Group>, c: Id)
    requires DistinctGroupIds(gs)
    ensures DistinctGroupIds(GroupInsert(gs, c))
  {
    if gs != [] && gs[0].id != c {
      var rest := GroupInsert(gs[1..], c);
      GroupInsertDistinct(gs[1..], c);
      assert !InGroups(gs[1..], gs[0].id) by {
        forall k | 0 <= k < |gs[1..]| ensures gs[1..][k].id != gs[0].id {
          assert gs[1..][k] == gs[k + 1];
        }
      }
      forall j | 0 <= j < |rest| ensures rest[j].id != gs[0].id {
        assert InGroups(rest, rest[j].id);
        GroupInsertIds(gs[1..], c, rest[j].id);
      }
    }
  }

  lemma {:induction false} GroupInsertCount(gs: seq<Group>, c: Id, id: Id)
    ensures GroupCount(GroupInsert(gs, c), id) == GroupCount(gs, id) + (if id == c then 1 else 0)
  {
    if gs != [] && gs[0].id != c {
      GroupInsertCount(gs[1..], c, id);
      assert GroupInsert(gs, c)[1..] == GroupInsert(gs[1..], c);
    } else if gs != [] {
      assert GroupInsert(gs, c)[1..] == gs[1..];
    }
  }

  lemma {:induction false} GroupInsertSum(gs: seq<Group>, c: Id)
    ensures SumGroups(GroupInsert(gs, c)) == SumGroups(gs) + 1
  {
    if gs != [] && gs[0].id != c {
      GroupInsertSum(gs[1..], c);
      assert GroupInsert(gs, c)[1..] == GroupInsert(gs[1..], c);
    } else if gs != [] {
      assert GroupInsert(gs, c)[1..] == gs[1..];
    }
  }

  /** The `$group: { _id: '$course', count: { $sum: 1 } }` stage: one group
      per distinct course reference, in order of first occurrence. */
  function GroupBy(students: seq<Student>): (r: seq<Group>)
    ensures DistinctGroupIds(r)
    ensures forall id :: GroupCount(r, id) == CountRef(students, id)
    ensures forall id :: InGroups(r, id) <==> CountRef(students, id) > 0
    ensures SumGroups(r) == |students|
  {
    if students == [] then []
    else
      var front, c := GroupBy(students[..|students| - 1]), students[|students| - 1].course;
      GroupInsertDistinct(front, c);
      GroupInsertSum(front, c);
      assert forall id :: GroupCount(GroupInsert(front, c), id) == CountRef(students, id) by {
        forall id ensures GroupCount(GroupInsert(front, c), id) == CountRef(students, id) {
          GroupInsertCount(front, c, id);
        }
      }
      assert forall id :: InGroups(GroupInsert(front, c), id) <==> CountRef(students, id) > 0 by {
        forall id ensures InGroups(GroupInsert(front, c), id) <==> CountRef(students, id) > 0 {
          GroupInsertIds(front, c, id);
        }
      }
      GroupInsert(front, c)
  }

  /** With distinct ids, a group's count is what GroupCount finds for its id. */
  lemma {:induction false} GroupCountAt(gs: seq<Group>, i: nat)
    requires DistinctGroupIds(gs) && i < |gs|
    ensures GroupCount(gs, gs[i].id) == gs[i].count
  {
    if i > 0 {
      assert gs[1..][i - 1] == gs[i];
      GroupCountAt(gs[1..], i - 1);
    }
  }

  /** Every group of the `$group` stage counts exactly the students that
      reference its course, and so holds at least one. */
  lemma GroupByCounts(students: seq<Student>)
    ensures forall i :: 0 <= i < |GroupBy(students)| ==>
      GroupBy(students)[i].count == CountRef(students, GroupBy(students)[i].id) >= 1
  {
    var gs := GroupBy(students);
    forall i | 0 <= i < |gs| ensures gs[i].count == CountRef(students, gs[i].id) >= 1 {
      GroupCountAt(gs, i);
      assert InGroups(gs, gs[i].id);
    }
  }

  // ---------------------------------------------------------------- naming

  /** `course ? course.name : 'Unknown'`. */
  function NameOf(courses: seq<Course>, id: Id): string {
    match FindCourse(courses, id)
    case Some(c) => c.name
    case None => "Unknown"
  }

  /** The first loop: one entry per group, named after its course. */
  function Resolve(courses: seq<Course>, gs: seq<Group>): (r: seq<Entry>)
    ensures |r| == |gs|
    ensures forall i :: 0 <= i < |gs| ==> r[i] == Entry(gs[i].id, NameOf(courses, gs[i].id), gs[i].count)
  {
    if gs == [] then []
    else [Entry(gs[0].id, NameOf(courses, gs[0].id), gs[0].count)] + Resolve(courses, gs[1..])
  }

  lemma ResolveSnoc(courses: seq<Course>, gs: seq<Group>, g: Group)
    ensures Resolve(courses, gs + [g]) == Resolve(courses, gs) + [Entry(g.id, NameOf(courses, g.id), g.count)]
  {
    var a, b := Resolve(courses, gs + [g]), Resolve(courses, gs) + [Entry(g.id, NameOf(courses, g.id), g.count)];
    assert |a| == |b|;
    forall i | 0 <= i < |a| ensures a[i] == b[i] {
      assert (gs + [g])[i] == if i < |gs| then gs[i] else g;
    }
  }

  // ---------------------------------------------------------------- totals

  /** `results.reduce((s, r) => s + r.count, 0)`. */
  function SumEntries(es: seq<Entry>): nat {
    if es == [] then 0 else es[0].count + SumEntries(es[1..])
  }

  lemma {:induction false} SumEntriesSnoc(es: seq<Entry>, e: Entry)
    ensures SumEntries(es + [e]) == SumEntries(es) + e.count
  {
    if es != [] {
      assert (es + [e])[1..] == es[1..] + [e];
      SumEntriesSnoc(es[1..], e);
    }
  }

  lemma {:induction false} SumResolve(courses: seq<Course>, gs: seq<Group>)
    ensures SumEntries(Resolve(courses, gs)) == SumGroups(gs)
  {
    if gs != [] {
      SumResolve(courses, gs[1..]);
    }
  }

  // ---------------------------------------------------------------- zero-count courses

  predicate HasEntry(es: seq<Entry>, id: Id) {
    exists i :: 0 <= i < |es| && es[i].courseId == id
  }

  ghost predicate DistinctEntryIds(es: seq<Entry>) {
    forall i, j :: 0 <= i < j < |es| ==> es[i].courseId != es[j].courseId
  }

  /** The second loop: for each course in turn, append a zero-count entry
      unless some entry (possibly one appended earlier) already has its id. */
  function AddMissing(es: seq<Entry>, courses: seq<Course>): seq<Entry>
    decreases |courses|
  {
    if courses == [] then es
    else
      var c := courses[0];
      AddMissing(if HasEntry(es, c.id) then es else es + [Entry(c.id, c.name, 0)], courses[1..])
  }

  /** What AddMissing keeps, what it appends, and that it never duplicates an id. */
  lemma {:induction false} AddMissingShape(es: seq<Entry>, courses: seq<Course>)
    ensures |AddMissing(es, courses)| >= |es|
    ensures AddMissing(es, courses)[..|es|] == es
    ensures forall i :: |es| <= i < |AddMissing(es, courses)| ==>
      var e := AddMissing(es, courses)[i];
      e.count == 0 && !HasEntry(es, e.courseId) && FindCourse(courses, e.courseId) == Some(Course(e.courseId, e.courseName))
    ensures forall id :: HasEntry(AddMissing(es, courses), id) <==> HasEntry(es, id) || FindCourse(courses, id).Some?
    ensures DistinctEntryIds(es) ==> DistinctEntryIds(AddMissing(es, courses))
    ensures SumEntries(AddMissing(es, courses)) == SumEntries(es)
    decreases |courses|
  {
    if courses != [] {
      var c := courses[0];
      var es' := if HasEntry(es, c.id) then es else es + [Entry(c.id, c.name, 0)];
      var tail := courses[1..];
      AddMissingShape(es', tail);
      var r := AddMissing(es, courses);
      assert r == AddMissing(es', tail);
      assert es'[..|es|] == es;
      assert r[..|es|] == es by { assert r[..|es'|][..|es|] == r[..|es|]; }
      assert HasEntry(es', c.id) by {
        if !HasEntry(es, c.id) { assert es'[|es|].courseId == c.id; }
      }
      forall id | HasEntry(es, id) ensures HasEntry(es', id) {
        var i :| 0 <= i < |es| && es[i].courseId == id;
        assert es'[i].courseId == id;
      }
      forall id ensures FindCourse(courses, id).Some? <==> id == c.id || FindCourse(tail, id).Some? {
        if id != c.id {
          assert FindCourse(courses, id) == FindCourse(tail, id);
        }
      }
      forall id | HasEntry(es', id) ensures HasEntry(es, id) || id == c.id {
        var i :| 0 <= i < |es'| && es'[i].courseId == id;
        if i < |es| { assert es[i].courseId == id; }
      }
      forall i | |es| <= i < |r|
        ensures r[i].count == 0 && !HasEntry(es, r[i].courseId)
        ensures FindCourse(courses, r[i].courseId) == Some(Course(r[i].courseId, r[i].courseName))
      {
        if i < |es'| {
          assert !HasEntry(es, c.id) && i == |es|;
          assert r[i] == es'[i] == Entry(c.id, c.name, 0);
        } else {
          assert r[i].courseId != c.id;
          assert FindCourse(courses, r[i].courseId) == FindCourse(tail, r[i].courseId);
        }
      }
      if DistinctEntryIds(es) {
        assert DistinctEntryIds(es');
      }
      if !HasEntry(es, c.id) {
        SumEntriesSnoc(es, Entry(c.id, c.name, 0));
      }
    }
  }

  // ---------------------------------------------------------------- the endpoint

  /** The statistics the endpoint answers for a given store content. */
  function StatsOf(courses: seq<Course>, students: seq<Student>): Stats {
    var resolved := Resolve(courses, GroupBy(students));
    Stats(SumEntries(resolved), AddMissing(resolved, courses))
  }

  /** The first loop of the handler: each group becomes an entry named
      after its course, 'Unknown' when the course lookup finds nothing. */
  method NameGroups(courses: seq<Course>, counts: seq<Group>) returns (results: seq<Entry>)
    ensures results == Resolve(courses, counts)
  {
    results := [];
    var i := 0;
    while i < |counts|
      invariant 0 <= i <= |counts|
      invariant results == Resolve(courses, counts[..i])
    {
      var c := counts[i];
      var course := FindCourse(courses, c.id);
      assert counts[..i + 1] == counts[..i] + [c];
      ResolveSnoc(courses, counts[..i], c);
      results := results + [Entry(c.id, if course.Some? then course.value.name else "Unknown", c.count)];
      i := i + 1;
    }
    assert counts[..|counts|] == counts;
  }

  /** The `reduce` that folds the total over the named groups. */
  method SumCounts(results: seq<Entry>) returns (total: nat)
    ensures total == SumEntries(results)
  {
    total := 0;
    var k := 0;
    while k < |results|
      invariant 0 <= k <= |results|
      invariant total == SumEntries(results[..k])
    {
      assert results[..k + 1] == results[..k] + [results[k]];
      SumEntriesSnoc(results[..k], results[k]);
      total := total + results[k].count;
      k := k + 1;
    }
    assert results[..|results|] == results;
  }

  /** The second loop of the handler: a zero-count entry for every course
      whose id no entry carries yet. */
  method AppendZeroCourses(resolved: seq<Entry>, courses: seq<Course>) returns (results: seq<Entry>)
    ensures results == AddMissing(resolved, courses)
  {
    results := resolved;
    var j := 0;
    while j < |courses|
      invariant 0 <= j <= |courses|
      invariant AddMissing(results, courses[j..]) == AddMissing(resolved, courses)
    {
      var ac := courses[j];
      assert courses[j..][1..] == courses[j + 1..];
      if !HasEntry(results, ac.id) {
        results := results + [Entry(ac.id, ac.name, 0)];
      }
      j := j + 1;
    }
    assert courses[|courses|..] == [];
  }

  /** The handler body: group, name each group, fold the total, then append
      the zero-count courses. */
  method ComputeStats(courses: seq<Course>, students: seq<Student>) returns (s: Stats)
    ensures s == StatsOf(courses, students)
  {
    var counts := GroupBy(students);
    var results := NameGroups(courses, counts);
    var total := SumCounts(results);
    results := AppendZeroCourses(results, courses);
    s := Stats(total, results);
  }

  // ---------------------------------------------------------------- properties

  /** The total is the number of stored students, and also the sum of the
      counts over every `perCourse` entry (the appended entries carry 0). */
  lemma StatsTotal(courses: seq<Course>, students: seq<Student>)
    ensures StatsOf(courses, students).totalStudents == |students|
    ensures StatsOf(courses, students).totalStudents == SumEntries(StatsOf(courses, students).perCourse)
  {
    var gs := GroupBy(students);
    SumResolve(courses, gs);
    AddMissingShape(Resolve(courses, gs), courses);
  }

  /** Every `perCourse` entry: ids are pairwise distinct; an id is present
      exactly when it is a stored course or some student references it;
      each entry counts the students referencing its id and carries the
      name of its course, or 'Unknown' when no course has that id. */
  lemma StatsEntries(courses: seq<Course>, students: seq<Student>)
    ensures DistinctEntryIds(StatsOf(courses, students).perCourse)
    ensures forall id :: HasEntry(StatsOf(courses, students).perCourse, id) <==>
      FindCourse(courses, id).Some? || CountRef(students, id) > 0
    ensures forall e :: e in StatsOf(courses, students).perCourse ==>
      e.count == CountRef(students, e.courseId) && e.courseName == NameOf(courses, e.courseId)
  {
    var gs := GroupBy(students);
    var rs := Resolve(courses, gs);
    var pc := AddMissing(rs, courses);
    GroupByCounts(students);
    AddMissingShape(rs, courses);
    assert DistinctEntryIds(rs) by {
      forall i, j | 0 <= i < j < |rs| ensures rs[i].courseId != rs[j].courseId {
        assert rs[i].courseId == gs[i].id && rs[j].courseId == gs[j].id;
      }
    }
    forall id ensures HasEntry(rs, id) <==> CountRef(students, id) > 0 {
      if HasEntry(rs, id) {
        var i :| 0 <= i < |rs| && rs[i].courseId == id;
        assert gs[i].id == id;
        assert InGroups(gs, id);
      }
      if CountRef(students, id) > 0 {
        assert InGroups(gs, id);
        var i :| 0 <= i < |gs| && gs[i].id == id;
        assert rs[i].courseId == id;
      }
    }
    forall e | e in pc ensures e.count == CountRef(students, e.courseId) && e.courseName == NameOf(courses, e.courseId) {
      var i :| 0 <= i < |pc| && pc[i] == e;
      if i < |rs| {
        assert pc[i] == pc[..|rs|][i] == rs[i];
      } else {
        assert !HasEntry(rs, e.courseId);
      }
    }
  }

  /** Number of `perCourse` entries carrying `id`. */
  function Occurrences(es: seq<Entry>, id: Id): nat {
    if es == [] then 0
    else Occurrences(es[..|es| - 1], id) + (if es[|es| - 1].courseId == id then 1 else 0)
  }

  lemma {:induction false} OccurrencesDistinct(es: seq<Entry>, id: Id)
    requires DistinctEntryIds(es)
    ensures Occurrences(es, id) == if HasEntry(es, id) then 1 else 0
  {
    if es != [] {
      var front := es[..|es| - 1];
      assert DistinctEntryIds(front);
      OccurrencesDistinct(front, id);
      if es[|es| - 1].courseId == id {
        forall i | 0 <= i < |front| ensures front[i].courseId != id {
          assert front[i] == es[i];
        }
      } else {
        if HasEntry(es, id) {
          var i :| 0 <= i < |es| && es[i].courseId == id;
          assert front[i].courseId == id;
        }
        if HasEntry(front, id) {
          var i :| 0 <= i < |front| && front[i].courseId == id;
          assert es[i].courseId == id;
        }
      }
    }
  }

  /** Every stored course appears in exactly one `perCourse` entry; when no
      student references it, that entry has count 0 and the course's name. */
  lemma StatsCourseOnce(courses: seq<Course>, students: seq<Student>, c: Course)
    requires c in courses
    ensures Occurrences(StatsOf(courses, students).perCourse, c.id) == 1
    ensures CountRef(students, c.id) == 0 ==>
      Entry(c.id, FindCourse(courses, c.id).value.name, 0) in StatsOf(courses, students).perCourse
  {
    var pc := StatsOf(courses, students).perCourse;
    StatsEntries(courses, students);
    assert FindCourse(courses, c.id).Some?;
    OccurrencesDistinct(pc, c.id);
    var i :| 0 <= i < |pc| && pc[i].courseId == c.id;
    assert pc[i] in pc;
  }

  /** A group whose course reference resolves to no course keeps its count,
      which is at least 1, and is named 'Unknown'. */
  lemma StatsUnknown(courses: seq<Course>, students: seq<Student>, id: Id)
    requires CountRef(students, id) > 0 && FindCourse(courses, id).None?
    ensures Entry(id, "Unknown", CountRef(students, id)) in StatsOf(courses, students).perCourse
  {
    var pc := StatsOf(courses, students).perCourse;
    StatsEntries(courses, students);
    var i :| 0 <= i < |pc| && pc[i].courseId == id;
    assert pc[i] in pc;
  }

  /** The worked example: two courses, three students (two in the first). */
  lemma StatsExample()
    ensures StatsOf([Course("c1", "CS"), Course("c2", "EE")],
                    [Student("s1", "A", "1", "r1", "c1"), Student("s2", "B", "2", "r2", "c1"),
                     Student("s3", "C", "3", "r3", "c2")])
         == Stats(3, [Entry("c1", "CS", 2), Entry("c2", "EE", 1)])
  {
    var courses := [Course("c1", "CS"), Course("c2", "EE")];
    var students := [Student("s1", "A", "1", "r1", "c1"), Student("s2", "B", "2", "r2", "c1"),
                     Student("s3", "C", "3", "r3", "c2")];
    assert students[..2][..1] == [students[0]];
    assert students[..2] == [students[0], students[1]];
    var gs := GroupBy(students);
    assert students[..1][..0] == [];
    assert GroupBy(students[..1]) == [Group("c1", 1)];
    assert GroupBy(students[..2]) == GroupInsert(GroupBy(students[..1]), "c1");
    assert GroupBy(students[..2]) == [Group("c1", 2)];
    assert gs == GroupInsert(GroupBy(students[..2]), "c2");
    assert gs == [Group("c1", 2), Group("c2", 1)];
    var rs := Resolve(courses, gs);
    assert rs == [Entry("c1", "CS", 2), Entry("c2", "EE", 1)];
    assert HasEntry(rs, "c1") by { assert rs[0].courseId == "c1"; }
    assert HasEntry(rs, "c2") by { assert rs[1].courseId == "c2"; }
    assert courses[1..][1..] == [];
  }
}
