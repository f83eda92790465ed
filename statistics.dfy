/**
 * The statistics panel (src/components/StudentStatistics.tsx): the number
 * of students, per course how many students take it and what share of all
 * students that is, the per-course list sorted by count (stable, so equal
 * counts keep the course order) and the name of the most popular course.
 */
module Statistics {
  import opened Types

  /** One entry of `studentsPerCourse`. */
  datatype CourseStat = CourseStat(courseName: string, count: nat, percentage: nat)

  /** The memo's result. */
  datatype Stats = Stats(totalStudents: nat, studentsPerCourse: seq<CourseStat>, mostPopularCourse: string)

  /** `students.filter(student => student.courseId === courseId).length`. */
  function CountEnrolled(students: seq<Student>, courseId: int): nat {
    if students == [] then 0
    else (if students[0].courseId == courseId then 1 else 0) + CountEnrolled(students[1..], courseId)
  }

  /** A course never has more students than there are students. */
  lemma {:induction false} CountEnrolledBound(students: seq<Student>, courseId: int)
    ensures CountEnrolled(students, courseId) <= |students|
    ensures (forall k :: 0 <= k < |students| ==> students[k].courseId != courseId) ==> CountEnrolled(students, courseId) == 0
  {
    if students != [] {
      CountEnrolledBound(students[1..], courseId);
    }
  }

  /**
   * `totalStudents ? Math.round((count / totalStudents) * 100) : 0`, on
   * exact rationals: the integer p with p <= 100 * count / total + 1/2 < p + 1.
   */
  function Percentage(count: nat, total: nat): (p: nat)
    ensures total == 0 ==> p == 0
    ensures total > 0 ==> 2 * p * total <= 200 * count + total < 2 * (p + 1) * total
  {
    if total == 0 then 0
    else
      var p := (200 * count + total) / (2 * total);
      DivBounds(200 * count + total, 2 * total);
      p
  }

  lemma DivBounds(a: nat, b: nat)
    requires b > 0
    ensures (a / b) * b <= a < (a / b + 1) * b
  {
  }

  /** A share is a whole percentage between 0 and 100. */
  lemma PercentageInRange(count: nat, total: nat)
    requires count <= total
    ensures 0 <= Percentage(count, total) <= 100
  {
    if total > 0 {
      var p := Percentage(count, total);
      assert 2 * p * total <= 201 * total;
      assert (2 * p) * total <= 201 * total;
      assert 2 * p <= 201;
    }
  }

  /** `courses.map(...)`: one entry per course, in course order. */
  function PerCourse(students: seq<Student>, courses: seq<Course>): (r: seq<CourseStat>)
    ensures |r| == |courses|
  {
    seq(|courses|, i requires 0 <= i < |courses| =>
      var count := CountEnrolled(students, courses[i].id);
      CourseStat(courses[i].name, count, Percentage(count, |students|)))
  }

  // ------------------------------------------------------------ the sort

  /** Places `x` after every entry with a larger count, before the rest. */
  function InsertByCount(x: CourseStat, sorted: seq<CourseStat>): seq<CourseStat> {
    if sorted == [] || sorted[0].count <= x.count then [x] + sorted
    else [sorted[0]] + InsertByCount(x, sorted[1..])
  }

  /** `studentsPerCourse.sort((a, b) => b.count - a.count)`, stable as ECMA-262 requires. */
  function SortByCount(stats: seq<CourseStat>): seq<CourseStat> {
    if stats == [] then [] else InsertByCount(stats[0], SortByCount(stats[1..]))
  }

  ghost predicate NonIncreasing(stats: seq<CourseStat>) {
    forall i, j :: 0 <= i < j < |stats| ==> stats[i].count >= stats[j].count
  }

  /** The entries with count `c`, in order. */
  function WithCount(stats: seq<CourseStat>, c: nat): seq<CourseStat> {
    if stats == [] then []
    else (if stats[0].count == c then [stats[0]] else []) + WithCount(stats[1..], c)
  }

  lemma {:induction false} InsertByCountPermutes(x: CourseStat, sorted: seq<CourseStat>)
    ensures multiset(InsertByCount(x, sorted)) == multiset(sorted) + multiset{x}
  {
    if !(sorted == [] || sorted[0].count <= x.count) {
      InsertByCountPermutes(x, sorted[1..]);
      assert sorted == [sorted[0]] + sorted[1..];
    }
  }

  lemma {:induction false} InsertByCountSorted(x: CourseStat, sorted: seq<CourseStat>)
    requires NonIncreasing(sorted)
    ensures NonIncreasing(InsertByCount(x, sorted))
  {
    var r := InsertByCount(x, sorted);
    if sorted == [] || sorted[0].count <= x.count {
      assert r[1..] == sorted;
      forall i, j | 0 <= i < j < |r| ensures r[i].count >= r[j].count {
        if i > 0 { assert r[i] == sorted[i - 1]; }
      }
    } else {
      var rest := sorted[1..];
      InsertByCountSorted(x, rest);
      InsertByCountPermutes(x, rest);
      var inner := InsertByCount(x, rest);
      assert r[1..] == inner;
      forall i, j | 0 <= i < j < |r| ensures r[i].count >= r[j].count {
        if i == 0 {
          assert r[j] in multiset(inner);
          assert r[j] == x || r[j] in rest;
        } else {
          assert r[i] == inner[i - 1] && r[j] == inner[j - 1];
        }
      }
    }
  }

  lemma {:induction false} InsertByCountStable(x: CourseStat, sorted: seq<CourseStat>, c: nat)
    ensures WithCount(InsertByCount(x, sorted), c) == (if x.count == c then [x] else []) + WithCount(sorted, c)
  {
    var r := InsertByCount(x, sorted);
    if sorted == [] || sorted[0].count <= x.count {
      assert r[1..] == sorted;
    } else {
      var rest := sorted[1..];
      var inner := InsertByCount(x, rest);
      assert r[1..] == inner;
      assert WithCount(r, c) == (if sorted[0].count == c then [sorted[0]] else []) + WithCount(inner, c);
      assert WithCount(sorted, c) == (if sorted[0].count == c then [sorted[0]] else []) + WithCount(rest, c);
      InsertByCountStable(x, rest, c);
    }
  }

  /** The sorted list is in non-increasing count order and is a permutation of its input. */
  lemma {:induction false} SortByCountSortedPermutation(stats: seq<CourseStat>)
    ensures NonIncreasing(SortByCount(stats))
    ensures multiset(SortByCount(stats)) == multiset(stats)
  {
    if stats != [] {
      SortByCountSortedPermutation(stats[1..]);
      InsertByCountSorted(stats[0], SortByCount(stats[1..]));
      InsertByCountPermutes(stats[0], SortByCount(stats[1..]));
      assert stats == [stats[0]] + stats[1..];
    }
  }

  /** Stability: the entries of each count keep their original relative order. */
  lemma {:induction false} SortByCountStable(stats: seq<CourseStat>, c: nat)
    ensures WithCount(SortByCount(stats), c) == WithCount(stats, c)
  {
    if stats != [] {
      SortByCountStable(stats[1..], c);
      SortByCountSortedPermutation(stats[1..]);
      InsertByCountStable(stats[0], SortByCount(stats[1..]), c);
    }
  }

  // -------------------------------------------------------- the whole memo

  /** `studentsPerCourse[0]?.courseName || 'None'`. */
  function MostPopular(sorted: seq<CourseStat>): string {
    if sorted == [] || sorted[0].courseName == "" then "None" else sorted[0].courseName
  }

  function ComputeStatistics(students: seq<Student>, courses: seq<Course>): Stats {
    var sorted := SortByCount(PerCourse(students, courses));
    Stats(|students|, sorted, MostPopular(sorted))
  }

  /**
   * The totals and the per-course list: one entry per course (a
   * permutation), in non-increasing count order, stable on ties, each count
   * at most the total and each share within [0, 100].
   */
  lemma StatisticsShape(students: seq<Student>, courses: seq<Course>)
    ensures var st := ComputeStatistics(students, courses);
            st.totalStudents == |students| &&
            multiset(st.studentsPerCourse) == multiset(PerCourse(students, courses)) &&
            NonIncreasing(st.studentsPerCourse) &&
            (forall c :: WithCount(st.studentsPerCourse, c) == WithCount(PerCourse(students, courses), c)) &&
            (forall k :: 0 <= k < |st.studentsPerCourse| ==>
                st.studentsPerCourse[k].count <= |students| && st.studentsPerCourse[k].percentage <= 100)
  {
    var per := PerCourse(students, courses);
    var sorted := SortByCount(per);
    SortByCountSortedPermutation(per);
    forall c { SortByCountStable(per, c); }
    forall k | 0 <= k < |sorted| ensures sorted[k].count <= |students| && sorted[k].percentage <= 100 {
      assert sorted[k] in multiset(per);
      var i :| 0 <= i < |per| && per[i] == sorted[k];
      CountEnrolledBound(students, courses[i].id);
      PercentageInRange(per[i].count, |students|);
    }
  }

  /** The count each entry of `stats` carries. */
  lemma {:induction false} WithCountFirst(stats: seq<CourseStat>, c: nat)
    requires WithCount(stats, c) != []
    ensures exists k :: 0 <= k < |stats| && stats[k] == WithCount(stats, c)[0] && stats[k].count == c &&
                        forall j :: 0 <= j < k ==> stats[j].count != c
  {
    if stats[0].count != c {
      WithCountFirst(stats[1..], c);
      var k :| 0 <= k < |stats| - 1 && stats[1..][k] == WithCount(stats[1..], c)[0] && stats[1..][k].count == c &&
               forall j :: 0 <= j < k ==> stats[1..][j].count != c;
      assert stats[k + 1] == stats[1..][k];
      forall j | 0 <= j < k + 1 ensures stats[j].count != c {
        if j > 0 { assert stats[j] == stats[1..][j - 1]; }
      }
    }
  }

  lemma {:induction false} WithCountHead(stats: seq<CourseStat>)
    requires stats != []
    ensures WithCount(stats, stats[0].count) != [] && WithCount(stats, stats[0].count)[0] == stats[0]
  {
  }

  /**
   * The most popular entry is the earliest course with the largest count: ties
   * go to the course listed first.
   */
  lemma MostPopularIsEarliestMaximum(students: seq<Student>, courses: seq<Course>)
    requires courses != []
    ensures var per := PerCourse(students, courses);
            exists k :: 0 <= k < |per| && ComputeStatistics(students, courses).studentsPerCourse[0] == per[k] &&
                        (forall j :: 0 <= j < |per| ==> per[j].count <= per[k].count) &&
                        (forall j :: 0 <= j < k ==> per[j].count < per[k].count)
  {
    var per := PerCourse(students, courses);
    var sorted := SortByCount(per);
    SortByCountSortedPermutation(per);
    assert |sorted| == |per| by { assert |multiset(sorted)| == |multiset(per)|; }
    var top := sorted[0];
    forall j | 0 <= j < |per| ensures per[j].count <= top.count {
      assert per[j] in multiset(sorted);
      var i :| 0 <= i < |sorted| && sorted[i] == per[j];
    }
    WithCountHead(sorted);
    SortByCountStable(per, top.count);
    WithCountFirst(per, top.count);
  }

  /** With no students every count and share is 0 and the list keeps course order. */
  lemma NoStudentsKeepsCourseOrder(courses: seq<Course>)
    ensures var st := ComputeStatistics([], courses);
            st.totalStudents == 0 &&
            st.studentsPerCourse == PerCourse([], courses) &&
            forall k :: 0 <= k < |st.studentsPerCourse| ==>
              st.studentsPerCourse[k] == CourseStat(courses[k].name, 0, 0)
  {
    var per := PerCourse([], courses);
    AllSameCountIsFixed(per, 0);
  }

  lemma {:induction false} AllSameCountIsFixed(stats: seq<CourseStat>, c: nat)
    requires forall k :: 0 <= k < |stats| ==> stats[k].count == c
    ensures SortByCount(stats) == stats
  {
    if stats != [] {
      AllSameCountIsFixed(stats[1..], c);
    }
  }

  /**
   * 'None' appears only for an empty course list or a nameless first entry;
   * with no students the first course's name is reported.
   */
  lemma MostPopularNone(students: seq<Student>, courses: seq<Course>)
    ensures var st := ComputeStatistics(students, courses);
            (st.mostPopularCourse == "None" <==>
               courses == [] || st.studentsPerCourse[0].courseName == "" || st.studentsPerCourse[0].courseName == "None")
    ensures students == [] && courses != [] && courses[0].name != "" ==>
              ComputeStatistics(students, courses).mostPopularCourse == courses[0].name
  {
    var per := PerCourse(students, courses);
    SortByCountSortedPermutation(per);
    assert |SortByCount(per)| == |per| by { assert |multiset(SortByCount(per))| == |multiset(per)|; }
    if students == [] {
      NoStudentsKeepsCourseOrder(courses);
    }
  }
}
