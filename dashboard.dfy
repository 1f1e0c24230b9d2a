/** The statistics block of the dashboard page: the course rows sorted by
    count, each with its percentage bar and the own-course highlight, and the
    summary of the viewer's own course. */
module Dashboard {
  import opened Records
  import opened Aggregation
  import opened HtmlEscape

  // ---------------------------------------------------------------- percentage

  /** `total === 0 ? 0 : Math.round((count / total) * 100)`, in exact
      arithmetic: the integer nearest to 100 * count / total, halves upward. */
  function Percent(count: nat, total: nat): (p: nat)
    ensures total == 0 ==> p == 0
    ensures total > 0 ==> 2 * (p * total) - total <= 200 * count < 2 * (p * total) + total
  {
    if total == 0 then 0 else (200 * count + total) / (2 * total)
  }

  /** A count within the total gives a percentage within 0..100; the whole
      gives 100 and nothing gives 0. */
  lemma PercentBounds(count: nat, total: nat)
    requires count <= total
    ensures Percent(count, total) <= 100
    ensures count == 0 ==> Percent(count, total) == 0
    ensures 0 < count == total ==> Percent(count, total) == 100
  {
    if total > 0 {
      var p := Percent(count, total);
      assert 2 * (p * total) - total <= 200 * count < 2 * (p * total) + total;
      if p >= 101 { MulMono(101, p, total); }
      if count == 0 && p >= 1 { MulMono(1, p, total); }
      if count == total && p <= 99 { MulMono(p, 99, total); }
    }
  }

  lemma MulMono(a: nat, b: nat, t: nat)
    requires a <= b
    ensures a * t <= b * t
  {
  }

  /** Two students out of three is 67%, one out of three is 33%. */
  lemma PercentExample()
    ensures Percent(2, 3) == 67 && Percent(1, 3) == 33 && Percent(5, 0) == 0
  {
  }

  // ---------------------------------------------------------------- sorting

  ghost predicate NonIncreasing(s: seq<Entry>) {
    forall i, j :: 0 <= i < j < |s| ==> s[i].count >= s[j].count
  }

  /** `perCourse.sort((a, b) => b.count - a.count)`, as an insertion sort in place. */
  method SortByCountDesc(a: array<Entry>)
    modifies a
    ensures NonIncreasing(a[..])
    ensures multiset(a[..]) == multiset(old(a[..]))
  {
    var i := 0;
    while i < a.Length
      invariant 0 <= i <= a.Length
      invariant forall k, l :: 0 <= k < l < i ==> a[k].count >= a[l].count
      invariant multiset(a[..]) == multiset(old(a[..]))
    {
      InsertAt(a, i);
      i := i + 1;
    }
  }

  /** Moves `a[i]` left past every smaller count, extending the sorted prefix by one. */
  method InsertAt(a: array<Entry>, i: nat)
    requires i < a.Length
    requires forall k, l :: 0 <= k < l < i ==> a[k].count >= a[l].count
    modifies a
    ensures forall k, l :: 0 <= k < l <= i ==> a[k].count >= a[l].count
    ensures multiset(a[..]) == multiset(old(a[..]))
  {
    var j := i;
    while j > 0 && a[j - 1].count < a[j].count
      invariant 0 <= j <= i
      invariant forall k, l :: 0 <= k < l <= i && k != j && l != j ==> a[k].count >= a[l].count
      invariant forall l :: j < l <= i ==> a[j].count > a[l].count
      invariant multiset(a[..]) == multiset(old(a[..]))
    {
      SwapDown(a, j);
      j := j - 1;
    }
    forall k, l | 0 <= k < l <= i ensures a[k].count >= a[l].count {
      if l == j && k < j - 1 {
        assert a[k].count >= a[j - 1].count;
      }
    }
  }

  /** Exchanges `a[j - 1]` and `a[j]`. */
  method SwapDown(a: array<Entry>, j: nat)
    requires 0 < j < a.Length
    modifies a
    ensures a[j - 1] == old(a[j]) && a[j] == old(a[j - 1])
    ensures forall m :: 0 <= m < a.Length && m != j - 1 && m != j ==> a[m] == old(a[m])
    ensures multiset(a[..]) == multiset(old(a[..]))
  {
    a[j - 1], a[j] := a[j], a[j - 1];
  }

  // ---------------------------------------------------------------- rows

  /** One row of the statistics list: the escaped course name, its count,
      the bar's width in percent, and whether it is marked "(Your course)". */
  datatype Row = Row(name: string, count: nat, percent: nat, own: bool)

  /** `String(pc.courseId) === String(student.course._id)`. */
  predicate IsOwnCourse(e: Entry, myCourse: Id) {
    e.courseId == myCourse
  }

  function RowOf(e: Entry, total: nat, myCourse: Id): Row {
    Row(EscapeHtml(Some(e.courseName)), e.count, Percent(e.count, total), IsOwnCourse(e, myCourse))
  }

  /** The `forEach` that appends one row per entry, in order. */
  method BuildRows(perCourse: seq<Entry>, total: nat, myCourse: Id) returns (rows: seq<Row>)
    ensures |rows| == |perCourse|
    ensures forall i :: 0 <= i < |rows| ==> rows[i] == RowOf(perCourse[i], total, myCourse)
  {
    rows := [];
    var i := 0;
    while i < |perCourse|
      invariant 0 <= i <= |perCourse|
      invariant |rows| == i
      invariant forall k :: 0 <= k < i ==> rows[k] == RowOf(perCourse[k], total, myCourse)
    {
      rows := rows + [RowOf(perCourse[i], total, myCourse)];
      i := i + 1;
    }
  }

  /** Every row's label is safe markup; a row is marked exactly when its
      entry is the viewer's course; with distinct course ids at most one row
      is marked; when the total is the sum of the counts, every bar lies
      within 0..100 percent. */
  lemma RowsFacts(perCourse: seq<Entry>, total: nat, myCourse: Id, i: nat, j: nat)
    requires i < |perCourse| && j < |perCourse|
    ensures Safe(RowOf(perCourse[i], total, myCourse).name)
    ensures RowOf(perCourse[i], total, myCourse).own <==> perCourse[i].courseId == myCourse
    ensures (DistinctEntryIds(perCourse) && RowOf(perCourse[i], total, myCourse).own
             && RowOf(perCourse[j], total, myCourse).own) ==> i == j
    ensures total == SumEntries(perCourse) ==> RowOf(perCourse[i], total, myCourse).percent <= 100
  {
    EscapeHtmlSafe(Some(perCourse[i].courseName));
    if total == SumEntries(perCourse) {
      CountWithinSum(perCourse, i);
      PercentBounds(perCourse[i].count, total);
    }
  }

  lemma {:induction false} CountWithinSum(es: seq<Entry>, i: nat)
    requires i < |es|
    ensures es[i].count <= SumEntries(es)
  {
    if i > 0 {
      assert es[1..][i - 1] == es[i];
      CountWithinSum(es[1..], i - 1);
    }
  }

  // ---------------------------------------------------------------- summary

  /** `perCourse.find(p => p.courseId === myCourse)`, then `myCourse ? myCourse.count : 0`. */
  function MyCount(perCourse: seq<Entry>, myCourse: Id): (n: nat)
    ensures !HasEntry(perCourse, myCourse) ==> n == 0
    ensures HasEntry(perCourse, myCourse) ==>
      exists i :: 0 <= i < |perCourse| && perCourse[i].courseId == myCourse && n == perCourse[i].count
        && forall k :: 0 <= k < i ==> perCourse[k].courseId != myCourse
  {
    if perCourse == [] then 0
    else if perCourse[0].courseId == myCourse then perCourse[0].count
    else
      var n := MyCount(perCourse[1..], myCourse);
      assert HasEntry(perCourse, myCourse) ==> HasEntry(perCourse[1..], myCourse) by {
        if HasEntry(perCourse, myCourse) {
          var i :| 0 <= i < |perCourse| && perCourse[i].courseId == myCourse;
          assert perCourse[1..][i - 1].courseId == myCourse;
        }
      }
      assert HasEntry(perCourse[1..], myCourse) ==>
        exists i :: 0 <= i < |perCourse| && perCourse[i].courseId == myCourse && n == perCourse[i].count
          && forall k :: 0 <= k < i ==> perCourse[k].courseId != myCourse by {
        if HasEntry(perCourse[1..], myCourse) {
          var i :| 0 <= i < |perCourse[1..]| && perCourse[1..][i].courseId == myCourse && n == perCourse[1..][i].count
            && forall k :: 0 <= k < i ==> perCourse[1..][k].courseId != myCourse;
          assert perCourse[i + 1] == perCourse[1..][i];
          assert forall k :: 0 < k < i + 1 ==> perCourse[k] == perCourse[1..][k - 1];
        }
      }
      assert !HasEntry(perCourse[1..], myCourse) ==> !HasEntry(perCourse, myCourse) by {
        if HasEntry(perCourse, myCourse) {
          var i :| 0 <= i < |perCourse| && perCourse[i].courseId == myCourse;
          assert perCourse[1..][i - 1].courseId == myCourse;
        }
      }
      n
  }

  /** The statistics block of public/js/dashboard.js (lines 38-76): sort the
      entries in place, build the rows, then the own-course count and its
      percentage. */
  method RenderStats(stats: Stats, myCourse: Id) returns (sorted: seq<Entry>, rows: seq<Row>, myCount: nat, percent: nat)
    ensures NonIncreasing(sorted) && multiset(sorted) == multiset(stats.perCourse)
    ensures |rows| == |sorted|
    ensures forall i :: 0 <= i < |rows| ==> rows[i] == RowOf(sorted[i], stats.totalStudents, myCourse)
    ensures myCount == MyCount(sorted, myCourse)
    ensures percent == Percent(myCount, stats.totalStudents)
  {
    var a := new Entry[|stats.perCourse|](i requires 0 <= i < |stats.perCourse| => stats.perCourse[i]);
    assert a[..] == stats.perCourse;
    SortByCountDesc(a);
    sorted := a[..];
    rows := BuildRows(sorted, stats.totalStudents, myCourse);
    myCount := MyCount(sorted, myCourse);
    percent := Percent(myCount, stats.totalStudents);
  }

  // ---------------------------------------------------------------- end to end

  lemma HasEntryPermutation(a: seq<Entry>, b: seq<Entry>, id: Id)
    requires multiset(a) == multiset(b)
    ensures HasEntry(a, id) ==> HasEntry(b, id)
  {
    if HasEntry(a, id) {
      var i :| 0 <= i < |a| && a[i].courseId == id;
      assert a[i] in multiset(a);
      assert a[i] in b;
      var j :| 0 <= j < |b| && b[j] == a[i];
    }
  }

  /** On statistics computed from the store, after the sort, the summary's
      count is exactly the number of students registered for the viewer's
      course, and its percentage lies within 0..100. */
  lemma SummaryCount(courses: seq<Course>, students: seq<Student>, sorted: seq<Entry>, myCourse: Id)
    requires multiset(sorted) == multiset(StatsOf(courses, students).perCourse)
    ensures MyCount(sorted, myCourse) == CountRef(students, myCourse)
    ensures Percent(MyCount(sorted, myCourse), StatsOf(courses, students).totalStudents) <= 100
  {
    var pc := StatsOf(courses, students).perCourse;
    StatsEntries(courses, students);
    StatsTotal(courses, students);
    HasEntryPermutation(sorted, pc, myCourse);
    HasEntryPermutation(pc, sorted, myCourse);
    if HasEntry(sorted, myCourse) {
      var i :| 0 <= i < |sorted| && sorted[i].courseId == myCourse && MyCount(sorted, myCourse) == sorted[i].count;
      assert sorted[i] in multiset(sorted);
      assert sorted[i] in pc;
    }
    PercentBounds(MyCount(sorted, myCourse), StatsOf(courses, students).totalStudents);
  }

  lemma {:induction false} MultiplicityTwo(a: seq<Entry>, x: Entry)
    requires multiset(a)[x] >= 2
    ensures exists i, j :: 0 <= i < j < |a| && a[i] == x && a[j] == x
  {
    var n := |a|;
    var front := a[..n - 1];
    assert a == front + [a[n - 1]];
    assert multiset(a) == multiset(front) + multiset{a[n - 1]};
    if a[n - 1] == x {
      assert x in multiset(front);
      var i :| 0 <= i < |front| && front[i] == x;
      assert a[i] == x;
    } else {
      MultiplicityTwo(front, x);
      var i, j :| 0 <= i < j < |front| && front[i] == x && front[j] == x;
      assert a[i] == x && a[j] == x;
    }
  }

  /** Two positions of a permutation come from two positions of the original. */
  lemma TwoPositions(a: seq<Entry>, b: seq<Entry>, i: nat, j: nat)
    requires multiset(a) == multiset(b) && i < j < |b|
    ensures exists i', j' :: 0 <= i' < |a| && 0 <= j' < |a| && i' != j' && a[i'] == b[i] && a[j'] == b[j]
  {
    if b[i] == b[j] {
      assert b == b[..j] + b[j..];
      assert multiset(b) == multiset(b[..j]) + multiset(b[j..]);
      assert b[..j][i] == b[i] && b[j..][0] == b[j];
      assert multiset(b[..j])[b[i]] >= 1 && multiset(b[j..])[b[i]] >= 1;
      MultiplicityTwo(a, b[i]);
    } else {
      assert b[i] in multiset(b) && b[j] in multiset(b);
      assert b[i] in a && b[j] in a;
      var i' :| 0 <= i' < |a| && a[i'] == b[i];
      var j' :| 0 <= j' < |a| && a[j'] == b[j];
    }
  }

  lemma DistinctPermutation(a: seq<Entry>, b: seq<Entry>)
    requires multiset(a) == multiset(b) && DistinctEntryIds(a)
    ensures DistinctEntryIds(b)
  {
    forall i, j | 0 <= i < j < |b| ensures b[i].courseId != b[j].courseId {
      TwoPositions(a, b, i, j);
    }
  }

  /** On statistics computed from the store, after the sort, exactly one
      row carries the "(Your course)" mark when the viewer's course exists. */
  lemma OwnRowOnce(courses: seq<Course>, students: seq<Student>, sorted: seq<Entry>, total: nat, myCourse: Id)
    requires multiset(sorted) == multiset(StatsOf(courses, students).perCourse)
    requires FindCourse(courses, myCourse).Some?
    ensures exists i :: 0 <= i < |sorted| && RowOf(sorted[i], total, myCourse).own
    ensures forall i, j ::
      (0 <= i < |sorted| && 0 <= j < |sorted| && RowOf(sorted[i], total, myCourse).own
       && RowOf(sorted[j], total, myCourse).own) ==> i == j
  {
    var pc := StatsOf(courses, students).perCourse;
    StatsEntries(courses, students);
    DistinctPermutation(pc, sorted);
    HasEntryPermutation(pc, sorted, myCourse);
    var k :| 0 <= k < |sorted| && sorted[k].courseId == myCourse;
    assert RowOf(sorted[k], total, myCourse).own;
  }
}
