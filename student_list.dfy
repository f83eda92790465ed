/**
 * The student list (src/components/StudentList.tsx): the derived view
 * (filter by search term and course, pages of six), the page cell with its
 * Previous/Next buttons and its reset effect, and the search-form submit
 * that records the term in the stored search history.
 */
module StudentList {
  import opened Types
  import opened Text
  import opened Storage
  import SearchHistory

  /** `itemsPerPage`. */
  const ItemsPerPage: nat := 6

  /** The search test: an empty term matches; otherwise the lower-cased term is part of the lower-cased name or email. */
  predicate MatchesSearch(s: Student, term: string) {
    term == "" || Includes(Lower(s.name), Lower(term)) || Includes(Lower(s.email), Lower(term))
  }

  /** The course test: no filter matches; otherwise the course id printed in decimal equals the filter. */
  predicate MatchesCourse(s: Student, courseFilter: string) {
    courseFilter == "" || IntToString(s.courseId) == courseFilter
  }

  predicate Matches(s: Student, term: string, courseFilter: string) {
    MatchesSearch(s, term) && MatchesCourse(s, courseFilter)
  }

  /** `students.filter(...)`: the matching students in list order. */
  function FilterStudents(students: seq<Student>, term: string, courseFilter: string): seq<Student>
  {
    if students == [] then []
    else (if Matches(students[0], term, courseFilter) then [students[0]] else [])
         + FilterStudents(students[1..], term, courseFilter)
  }

  /** `Math.ceil(n / itemsPerPage)`. */
  function TotalPages(n: nat): nat {
    (n + ItemsPerPage - 1) / ItemsPerPage
  }

  /** One end of `Array.prototype.slice`: negative counts from the end, clamped to [0, len]. */
  function SliceBound(len: nat, k: int): (r: nat)
    ensures r <= len
  {
    if k < 0 then (if len + k < 0 then 0 else len + k) else if k > len then len else k
  }

  /** `list.slice(start, end)`. */
  function JsSlice<T>(list: seq<T>, start: int, end: int): seq<T> {
    var from, to := SliceBound(|list|, start), SliceBound(|list|, end);
    if from < to then list[from..to] else []
  }

  /** `filtered.slice((page - 1) * itemsPerPage, (page - 1) * itemsPerPage + itemsPerPage)`. */
  function PageSlice(filtered: seq<Student>, page: int): seq<Student> {
    var start := (page - 1) * ItemsPerPage;
    JsSlice(filtered, start, start + ItemsPerPage)
  }

  /** What the memo hands to the markup. */
  datatype View = View(filteredStudents: seq<Student>, paginatedStudents: seq<Student>, totalPages: nat)

  function ComputeView(students: seq<Student>, term: string, courseFilter: string, page: int): View {
    var filtered := FilterStudents(students, term, courseFilter);
    View(filtered, PageSlice(filtered, page), TotalPages(|filtered|))
  }

  // ---------------------------------------------------------------- filter

  /** A student is in the filtered list exactly when it is in the list and matches. */
  lemma {:induction false} FilterMembership(students: seq<Student>, term: string, courseFilter: string, s: Student)
    ensures s in FilterStudents(students, term, courseFilter) <==> s in students && Matches(s, term, courseFilter)
  {
    if students != [] {
      FilterMembership(students[1..], term, courseFilter, s);
      assert students == [students[0]] + students[1..];
    }
  }

  /** Filtering commutes with concatenation, so the kept students stay in their relative order. */
  lemma {:induction false} FilterAppend(a: seq<Student>, b: seq<Student>, term: string, courseFilter: string)
    ensures FilterStudents(a + b, term, courseFilter) == FilterStudents(a, term, courseFilter) + FilterStudents(b, term, courseFilter)
  {
    if a == [] {
      assert a + b == b;
    } else {
      var head := if Matches(a[0], term, courseFilter) then [a[0]] else [];
      assert (a + b)[0] == a[0];
      assert (a + b)[1..] == a[1..] + b;
      FilterAppend(a[1..], b, term, courseFilter);
      assert FilterStudents(a + b, term, courseFilter) == head + FilterStudents(a[1..] + b, term, courseFilter);
      assert FilterStudents(a, term, courseFilter) == head + FilterStudents(a[1..], term, courseFilter);
    }
  }

  /** When every student matches (in particular with an empty term and no course filter) nothing is removed. */
  lemma {:induction false} FilterKeepsAllMatching(students: seq<Student>, term: string, courseFilter: string)
    requires forall k :: 0 <= k < |students| ==> Matches(students[k], term, courseFilter)
    ensures FilterStudents(students, term, courseFilter) == students
  {
    if students != [] {
      FilterKeepsAllMatching(students[1..], term, courseFilter);
    }
  }

  lemma NoFilterKeepsAll(students: seq<Student>)
    ensures FilterStudents(students, "", "") == students
  {
    FilterKeepsAllMatching(students, "", "");
  }

  /** The search test is case-insensitive substring search on name or email. */
  lemma SearchMeansSubstring(s: Student, term: string)
    ensures MatchesSearch(s, term) <==>
            term == "" || OccursIn(Lower(term), Lower(s.name)) || OccursIn(Lower(term), Lower(s.email))
  {
    IncludesMeansOccurs(Lower(s.name), Lower(term));
    IncludesMeansOccurs(Lower(s.email), Lower(term));
  }

  /** With a course filter set, a student passes only if its course id prints as the filter. */
  lemma CourseFilterMeansId(s: Student, courseId: int)
    ensures MatchesCourse(s, IntToString(courseId)) <==> s.courseId == courseId
  {
    IntToStringInjective(s.courseId, courseId);
    IntToStringRoundTrip(courseId);
  }

  /** A course filter no student carries gives an empty list and zero pages. */
  lemma {:induction false} UnusedCourseFilterEmpties(students: seq<Student>, term: string, courseId: int)
    requires forall k :: 0 <= k < |students| ==> students[k].courseId != courseId
    ensures FilterStudents(students, term, IntToString(courseId)) == []
    ensures ComputeView(students, term, IntToString(courseId), 1).totalPages == 0
  {
    if students != [] {
      CourseFilterMeansId(students[0], courseId);
      UnusedCourseFilterEmpties(students[1..], term, courseId);
    }
  }

  // ------------------------------------------------------------ pagination

  /** `ceil(n / 6)` pages: none for an empty list, and the last page is the one holding entry n. */
  lemma TotalPagesBounds(n: nat)
    ensures TotalPages(n) == 0 <==> n == 0
    ensures n > 0 ==> (TotalPages(n) - 1) * ItemsPerPage < n <= TotalPages(n) * ItemsPerPage
  {
  }

  function Min(a: int, b: int): int { if a <= b then a else b }

  /** Page `page` (from 1) holds entries (page-1)*6 up to page*6 of the filtered list, at most six of them. */
  lemma PageSliceContents(filtered: seq<Student>, page: int)
    requires page >= 1
    ensures var start := Min((page - 1) * ItemsPerPage, |filtered|);
            PageSlice(filtered, page) == filtered[start..Min(page * ItemsPerPage, |filtered|)]
    ensures |PageSlice(filtered, page)| <= ItemsPerPage
  {
  }

  /** The first `k` pages, concatenated in order. */
  function PagesUpTo(filtered: seq<Student>, k: nat): seq<Student> {
    if k == 0 then [] else PagesUpTo(filtered, k - 1) + PageSlice(filtered, k)
  }

  lemma {:induction false} PagesUpToPrefix(filtered: seq<Student>, k: nat)
    ensures PagesUpTo(filtered, k) == filtered[..Min(k * ItemsPerPage, |filtered|)]
  {
    if k > 0 {
      PagesUpToPrefix(filtered, k - 1);
      PageSliceContents(filtered, k);
    }
  }

  /** Concatenating pages 1..totalPages gives back the filtered list exactly. */
  lemma AllPagesRebuildFiltered(filtered: seq<Student>)
    ensures PagesUpTo(filtered, TotalPages(|filtered|)) == filtered
  {
    PagesUpToPrefix(filtered, TotalPages(|filtered|));
    TotalPagesBounds(|filtered|);
  }

  /** A page past the last one shows nothing, even when the filtered list is not empty. */
  lemma PageBeyondLastIsEmpty(filtered: seq<Student>, page: int)
    requires page > TotalPages(|filtered|)
    ensures PageSlice(filtered, page) == []
  {
    TotalPagesBounds(|filtered|);
  }

  /** The Previous updater `prev => Math.max(prev - 1, 1)`. */
  function PreviousPage(page: int): (r: int)
    ensures r >= 1
    ensures r <= page || page < 1
    ensures page > 1 ==> r == page - 1
    ensures page < 1 ==> r == 1
  {
    if page - 1 >= 1 then page - 1 else 1
  }

  /** The Next updater `prev => Math.min(prev + 1, totalPages)`. */
  function NextPage(page: int, totalPages: nat): (r: int)
    ensures r <= totalPages
    ensures 1 <= page <= totalPages ==> page <= r && 1 <= r
    ensures page < totalPages ==> r == page + 1
    ensures page >= totalPages ==> r == totalPages
  {
    if page + 1 <= totalPages then page + 1 else totalPages
  }

  /** Previous and Next keep a page inside [1, totalPages]. */
  lemma PagerStaysInRange(page: int, totalPages: nat)
    requires 1 <= page <= totalPages
    ensures 1 <= PreviousPage(page) <= totalPages
    ensures 1 <= NextPage(page, totalPages) <= totalPages
  {
  }

  // ----------------------------------------------------- search-form submit

  /**
   * The `searchHistory` entry after a search-form submit: a blank term or a
   * term already recorded writes nothing; otherwise the untrimmed term goes
   * in front and the list is cut to five.
   */
  function SubmitHistory(saved: Option<seq<string>>, term: string): Option<seq<string>> {
    if Trim(term) == "" then saved
    else
      var history := saved.GetOr([]);
      if term in history then saved else Some(Take([term] + history, 5))
  }

  lemma SubmitHistorySpec(saved: Option<seq<string>>, term: string)
    ensures IsBlank(term) ==> SubmitHistory(saved, term) == saved
    ensures saved.Some? && term in saved.value ==> SubmitHistory(saved, term) == saved
    ensures !IsBlank(term) && term !in saved.GetOr([]) ==>
              SubmitHistory(saved, term).Some? &&
              var r := SubmitHistory(saved, term).value;
              1 <= |r| <= 5 && r[0] == term && r[1..] == Take(saved.GetOr([]), 4)
  {
    TrimEmptyIffBlank(term);
  }

  /**
   * The search form and the history panel record terms differently: for a
   * new term they build the same list, but a term already recorded is moved
   * to the front by the panel and left where it is by the search form.
   */
  lemma SubmitVersusPanel(history: seq<string>, term: string)
    ensures !IsBlank(term) && term !in history ==>
              SubmitHistory(Some(history), term) == Some(SearchHistory.MoveToFront(history, term))
    ensures term in history && history[0] != term ==>
              SubmitHistory(Some(history), term) != Some(SearchHistory.MoveToFront(history, term))
  {
    TrimEmptyIffBlank(term);
    if term !in history {
      SearchHistory.WithoutAbsent(history, term);
    }
    SearchHistory.MoveToFrontSpec(history, term);
  }

  // ---------------------------------------------------------- the UI state

  /** The component's state cells that the derived view depends on. */
  class ListState {
    var searchTerm: string
    var debouncedSearchTerm: string
    var selectedCourseId: string
    var currentPage: int

    /** First render: empty inputs, page 1 (the reset effect also runs on mount). */
    constructor ()
      ensures searchTerm == "" && debouncedSearchTerm == "" && selectedCourseId == "" && currentPage == 1
    {
      searchTerm, debouncedSearchTerm, selectedCourseId, currentPage := "", "", "", 1;
    }

    /** The derived view of the current state over the provider's students. */
    function View(students: seq<Student>): View
      reads this
    {
      ComputeView(students, debouncedSearchTerm, selectedCourseId, currentPage)
    }

    /** `handleSearchChange` / `handleSelectSearch`: only the raw input changes; the list waits for the debounce. */
    method SetSearchTerm(value: string)
      modifies this
      ensures searchTerm == value
      ensures debouncedSearchTerm == old(debouncedSearchTerm) && selectedCourseId == old(selectedCourseId)
      ensures currentPage == old(currentPage)
    {
      searchTerm := value;
    }

    /** The reset effect on `[debouncedSearchTerm, selectedCourseId]`: page 1 after either changes. */
    method ResetEffect(previousTerm: string, previousCourse: string)
      modifies this
      ensures currentPage == if previousTerm != debouncedSearchTerm || previousCourse != selectedCourseId
                             then 1 else old(currentPage)
      ensures searchTerm == old(searchTerm) && debouncedSearchTerm == old(debouncedSearchTerm)
      ensures selectedCourseId == old(selectedCourseId)
    {
      if previousTerm != debouncedSearchTerm || previousCourse != selectedCourseId {
        currentPage := 1;
      }
    }

    /** The debounced value catches up with `value`, and the reset effect follows. */
    method DebouncedTermSettles(value: string)
      modifies this
      ensures debouncedSearchTerm == value
      ensures currentPage == if value != old(debouncedSearchTerm) then 1 else old(currentPage)
      ensures searchTerm == old(searchTerm) && selectedCourseId == old(selectedCourseId)
    {
      var previous := debouncedSearchTerm;
      debouncedSearchTerm := value;
      ResetEffect(previous, selectedCourseId);
    }

    /** `handleCourseFilterChange`, and the reset effect that follows. */
    method SetCourseFilter(value: string)
      modifies this
      ensures selectedCourseId == value
      ensures currentPage == if value != old(selectedCourseId) then 1 else old(currentPage)
      ensures searchTerm == old(searchTerm) && debouncedSearchTerm == old(debouncedSearchTerm)
    {
      var previous := selectedCourseId;
      selectedCourseId := value;
      ResetEffect(debouncedSearchTerm, previous);
    }

    /** The Previous button. */
    method Previous()
      modifies this
      ensures currentPage == PreviousPage(old(currentPage))
      ensures searchTerm == old(searchTerm) && debouncedSearchTerm == old(debouncedSearchTerm)
      ensures selectedCourseId == old(selectedCourseId)
    {
      currentPage := PreviousPage(currentPage);
    }

    /** The Next button, with the page count of the render it was clicked in. */
    method Next(totalPages: nat)
      modifies this
      ensures currentPage == NextPage(old(currentPage), totalPages)
      ensures searchTerm == old(searchTerm) && debouncedSearchTerm == old(debouncedSearchTerm)
      ensures selectedCourseId == old(selectedCourseId)
    {
      currentPage := NextPage(currentPage, totalPages);
    }

    /** `handleSearchSubmit`: reads the stored history and writes it back only when it records the raw term. */
    method HandleSearchSubmit(storage: HistoryStorage)
      modifies storage
      ensures storage.saved == SubmitHistory(old(storage.saved), searchTerm)
    {
      if Trim(searchTerm) != "" {
        var history := if storage.saved.Some? then storage.saved.value else [];
        if searchTerm !in history {
          var newHistory := Take([searchTerm] + history, 5);
          storage.saved := Some(newHistory);
        }
      }
    }
  }

  /**
   * The page is only reset by filter changes: when the students list shrinks
   * under the current page, the page can point past the last one and the
   * view shows an empty page of a non-empty result.
   */
  lemma ShrinkingListLeavesStalePage(list: ListState, students: seq<Student>)
    requires list.debouncedSearchTerm == "" && list.selectedCourseId == "" && list.currentPage == 2
    requires 1 <= |students| <= ItemsPerPage
    ensures list.View(students).filteredStudents == students
    ensures list.View(students).totalPages == 1
    ensures list.View(students).paginatedStudents == []
  {
    NoFilterKeepsAll(students);
    PageBeyondLastIsEmpty(students, 2);
  }
}
