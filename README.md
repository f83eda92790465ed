# Student dashboard core, modelled in Dafny

This project models the logic of a small React dashboard for managing
students and courses. The markup is not modelled. What is modelled:

- **The mock persistence gateway** (`src/services/api.ts`). It is a store
  holding the `students` storage entry (`Option<seq<Student>>`). When the
  entry is absent, every call falls back to a two-record seed. Add appends
  a record under a supplied id, update replaces records by id, delete
  filters by id.
- **The data provider** (`src/context/StudentManagementContext.tsx`). It has
  four state cells: `students`, `courses`, `loading` and `error`. It runs
  the initial load, and its add, update and delete patch `students` only
  after the gateway call succeeded. Each awaited gateway call is a
  parameter saying how the promise settled. A set of wiring methods shows
  that the provider's list stays equal to the list the gateway stores.
- **The form controller** (`src/hooks/useForm.ts`). Its state cells are
  values, errors, touched and isSubmitting. The model covers the
  validation effect, change, blur, the completion of a file read, reset
  and submit.
- **The student form** (`src/components/StudentForm.tsx`):
  - its initial values in add and edit mode;
  - the validator, including the email regular expression. A direct test
    of the email is proved to accept exactly the strings the pattern
    matches;
  - the `onSubmit` callback, which hands an add or an update to the
    provider.
- **The student list** (`src/components/StudentList.tsx`):
  - filtering by search term and course, and pages of six;
  - the Previous and Next buttons and the page-reset effect;
  - the search-form submit that records the term in the stored search
    history.
- **The search-history panel** (`src/components/SearchHistory.tsx`). On
  mount it loads the history. `addToHistory` moves the term to the front,
  dropping its earlier copies, and keeps at most five entries.
  `clearHistory` empties the list. Nothing in the source calls
  `addToHistory`; the list's search form is the only writer of the history.
- **The statistics panel** (`src/components/StudentStatistics.tsx`):
  - per-course counts and round-half-up percentages;
  - the stable descending sort;
  - the most popular course.
- **The export panel** (`src/components/ExportData.tsx`): CSV lines and JSON
  records, with course ids resolved to names.
- **The student card** (`src/components/StudentCard.tsx`): the course name
  it shows and its delete button, which only acts after confirmation.

Modules follow the source files:

| module | models |
|---|---|
| `Types` | the records, plus the course lookup that both the card and the export use |
| `Text` | the JavaScript string operations the code relies on |
| `Storage` | the shared `searchHistory` storage entry |
| `Api` | `api.ts` |
| `StudentManagement` | the context |
| `UseForm` | `useForm.ts` |
| `StudentForm`, `StudentList`, `SearchHistory`, `Statistics`, `ExportData`, `StudentCard` | the components of the same names |

State that the source changes in place becomes a `class`: `MockApi`,
`Provider`, `FormController`, `Panel`, `ListState`. Derived values become
functions, with lemmas about them.

The model keeps three behaviours of the code that a reader might not expect:

- **A failed save still resets the form.** `StudentForm`'s `onSubmit`
  catches and logs the failure. So `handleSubmit` sees a resolved promise
  and resets the form (`StudentForm.SubmitForm`). `handleSubmit` also
  swallows rejections itself (`UseForm.FormController.HandleSubmit`).
- **'None' is rarely shown.** The most popular course is 'None' only when
  there is no course or the first sorted course has an empty name. With no
  students it is the first course's name (`Statistics.MostPopularNone`).
- **The page is not clamped.** The page goes back to 1 only when the search
  term or the course filter changes, not when the list shrinks. So the view
  can show an empty page past the last one
  (`StudentList.ShrinkingListLeavesStalePage`).

## Model

| member | source | states |
|---|---|---|
| Types.FindCourse | src/components/ExportData.tsx:16 | `courses.find` by id is None exactly when no course carries the id; otherwise it is the course at the first position with that id |
| Types.CourseLabel | src/components/ExportData.tsx:16-21 | the label is the fallback when no course has the id, and otherwise the name of the first course with that id |
| Text.Lower | src/components/StudentList.tsx:48-49 | `toLowerCase` on ASCII letters, character by character; the search rule built on it is stated by `StudentList.SearchMeansSubstring` |
| Text.Includes | src/components/StudentList.tsx:48-49 | `includes` as a left-to-right scan; its meaning is stated by `Text.IncludesMeansOccurs` |
| Text.Trim | src/components/StudentForm.tsx:43-45 | `trim()` over the ECMAScript white-space and line-terminator set; its shape is stated by `Text.TrimShape` and `Text.TrimEmptyIffBlank` |
| Text.IntToString | src/components/StudentList.tsx:53 | `courseId.toString()` for an integer: a minus sign for negatives, then the decimal digits; see `Text.IntToStringRoundTrip` and `Text.IntToStringInjective` |
| Text.NumberOf | src/components/StudentForm.tsx:90 | `Number(...)` on a decimal integer numeral; `Text.IntToStringRoundTrip` states that it inverts `Text.IntToString` |
| Text.IncludesMeansOccurs | src/components/StudentList.tsx:48-49 | `hay.includes(needle)` is true exactly when the needle occurs at some position of `hay` |
| Text.EmptyIncluded | src/components/StudentList.tsx:47-49 | the empty string is included in every string |
| Text.TrimShape | src/components/StudentForm.tsx:43-45 | `trim()` returns the middle of the string: it drops a blank prefix and a blank suffix and leaves no white space at either end |
| Text.TrimEmptyIffBlank | src/components/StudentForm.tsx:43 | `s.trim()` is empty (so `!s.trim()` holds) exactly when every character of `s` is JavaScript white space |
| Text.NatToStringDigits | src/components/StudentList.tsx:53 | the decimal form of a natural number is a non-empty string of digits whose value is that number |
| Text.IntToStringRoundTrip | src/components/StudentForm.tsx:34 | `Number(n.toString())` gives back `n`: the string is a numeral and reads back as the same integer |
| Text.IntToStringInjective | src/components/StudentList.tsx:53 | two integers print to the same decimal string exactly when they are equal |
| Storage.HistoryStorage.constructor | src/components/SearchHistory.tsx:16 | the `searchHistory` storage entry starts as given: a list, or absent |
| Storage.Take | src/components/SearchHistory.tsx:30 | `slice(0, n)` keeps the first entries in order, at most `n` of them, and all of them when there are at most `n` |
| Api.SeedStudents | src/services/api.ts:6-21 | the two seed students, field for field |
| Api.SeedCourses | src/services/api.ts:24-29 | the four seed courses, ids 1 to 4 |
| Api.Loaded | src/services/api.ts:51-57 | the list every operation starts from: the stored list, or the seed when the entry is absent |
| Api.Replaced | src/services/api.ts:121-123 | the map-replace keeps the length; each entry becomes the argument if its id matches, and otherwise stays as it was |
| Api.Removed | src/services/api.ts:148 | the filter keeps exactly the records whose id differs; none with that id remains |
| Api.RemovedAppend | src/services/api.ts:148 | the delete filter distributes over concatenation, so kept records stay in order |
| Api.RemovedAbsent | src/services/api.ts:148 | deleting an id nobody carries writes back the same list |
| Api.RemovedIdempotent | src/services/api.ts:148-151 | deleting the same id twice is deleting it once |
| Api.ReplacedAbsent | src/services/api.ts:121-126 | updating with an id nobody carries writes back the same list |
| Api.AddThenDeleteRestores | src/services/api.ts:92-98 | appending a record and then deleting its id restores the list if and only if the id was not already taken |
| Api.AddUpdateDeleteRoundTrip | src/services/api.ts:82-151 | with a fresh id, add followed by update of that record and then delete of it restores the list |
| Api.AddWithTakenIdDuplicates | src/services/api.ts:94 | there is no collision check: adding under a taken id leaves two records with that id |
| Api.MockApi.constructor | src/services/api.ts:51 | the gateway starts with the given storage entry |
| Api.MockApi.GetStudents | src/services/api.ts:45-59 | returns the stored list when the entry exists, else the two-record seed; nothing is written |
| Api.MockApi.GetCourses | src/services/api.ts:69-75 | always returns the four seed courses, with ids 1 to 4 in order |
| Api.MockApi.AddStudent | src/services/api.ts:82-104 | returns the draft with the new id; the entry becomes the loaded (or seed) list followed by that record |
| Api.MockApi.UpdateStudent | src/services/api.ts:111-131 | the entry becomes the map-replace of the loaded list, so the entry is present afterwards; the argument is returned |
| Api.MockApi.DeleteStudent | src/services/api.ts:138-156 | the entry becomes the loaded list without the records carrying that id |
| Api.SeedScenario | src/services/api.ts:6-21 | on an empty store, adding a student with a new id leaves three records with pairwise distinct ids, the new one last |
| StudentManagement.Provider.constructor | src/context/StudentManagementContext.tsx:33-36 | the provider starts with empty lists, `loading` true and no error |
| StudentManagement.Provider.FetchData | src/context/StudentManagementContext.tsx:39-61 | on success both lists are stored and the error is cleared; on failure the load message is set and the lists are kept; `loading` ends false |
| StudentManagement.Provider.AddStudent | src/context/StudentManagementContext.tsx:64-76 | on success the returned record is appended and `error` is untouched; on failure the list is kept, the add message is set and the rejection is re-thrown; `loading` ends false |
| StudentManagement.Provider.UpdateStudent | src/context/StudentManagementContext.tsx:79-93 | on success every entry with the id becomes the argument; on failure the list is kept, the update message is set and the rejection is re-thrown |
| StudentManagement.Provider.DeleteStudent | src/context/StudentManagementContext.tsx:96-108 | on success exactly the entries with the id are dropped, in order; on failure the list is kept, the delete message is set and the rejection is re-thrown |
| StudentManagement.LoadFromGateway | src/context/StudentManagementContext.tsx:44-51 | the initial load against the mock gateway stores the gateway's list and the four courses, with no error |
| StudentManagement.AddThroughGateway | src/context/StudentManagementContext.tsx:67-68 | after an add, the provider's list and the stored list are equal, and both are the old list plus the new record; the storage entry is present, the error is kept, `loading` is false and `courses` is unchanged |
| StudentManagement.UpdateThroughGateway | src/context/StudentManagementContext.tsx:82-85 | after an update, the provider's list and the stored list are equal, and both are the old list with the record replaced by id; the storage entry is present, the error is kept, `loading` is false and `courses` is unchanged |
| StudentManagement.DeleteThroughGateway | src/context/StudentManagementContext.tsx:99-100 | after a delete, the provider's list and the stored list are equal, and both are the old list without that id; the storage entry is present, the error is kept, `loading` is false and `courses` is unchanged |
| StudentManagement.ErrorOutlivesSuccess | src/context/StudentManagementContext.tsx:64-93 | a successful update after a failed add leaves the add's error message in place; the list is the old one with the record replaced, `loading` ends false and `courses` is unchanged |
| UseForm.AllTouched | src/hooks/useForm.ts:76-79 | every key of the values, and only those, is marked touched |
| UseForm.FormController.constructor | src/hooks/useForm.ts:17-26 | the form starts with the initial values, nothing touched, not submitting, and errors equal to the validation of the initial values |
| UseForm.FormController.ValidationEffect | src/hooks/useForm.ts:23-26 | `errors` becomes the validation of the current values |
| UseForm.FormController.HandleChange | src/hooks/useForm.ts:29-35 | exactly the named field changes; errors are recomputed |
| UseForm.FormController.HandleBlur | src/hooks/useForm.ts:38-44 | the named field is marked touched and the other marks stay |
| UseForm.FormController.FileLoaded | src/hooks/useForm.ts:51-56 | the data URL is written into the values captured when the file was chosen, so edits made during the read are lost |
| UseForm.FormController.ResetForm | src/hooks/useForm.ts:62-67 | values return to the initial ones; errors and touched are emptied and `isSubmitting` is cleared |
| UseForm.FormController.HandleSubmit | src/hooks/useForm.ts:70-93 | all fields are marked touched and errors recomputed. `onSubmit` is called with the values only when there is no error. The form resets if it resolves; a rejection is swallowed and the draft kept. `isSubmitting` ends false |
| StudentForm.InitialValues | src/components/StudentForm.tsx:30-36 | the values carry exactly the five form keys; edit mode copies the student, with the course id in decimal; add mode uses empty strings; see `StudentForm.UntouchedEditSavesSameStudent` and `StudentForm.EmptyFormFailsEverywhere` |
| StudentForm.IsValidEmail | src/components/StudentForm.tsx:52 | the email test read directly; `StudentForm.EmailTestMatchesPattern` proves it equal to the regular expression |
| StudentForm.NameError | src/components/StudentForm.tsx:43-47 | the name rule; stated by `StudentForm.ValidateName` |
| StudentForm.EmailError | src/components/StudentForm.tsx:50-54 | the email rule; stated by `StudentForm.ValidateEmail` |
| StudentForm.Validate | src/components/StudentForm.tsx:39-67 | the four rules merged into one error record; stated by `StudentForm.ValidateKeys`, `StudentForm.ValidateName`, `StudentForm.ValidateEmail` and `StudentForm.ValidateRequiredFields` |
| StudentForm.SaveRequestOf | src/components/StudentForm.tsx:84-100 | edit mode builds an update carrying the form id; add mode builds a draft without id; the course id goes through `Number` |
| StudentForm.IndexOf | src/components/StudentForm.tsx:52 | the position of the first occurrence of a character, or None when it does not occur |
| StudentForm.LastIndexOf | src/components/StudentForm.tsx:52 | the position of the last occurrence of a character, or None when it does not occur |
| StudentForm.EmailTestMatchesPattern | src/components/StudentForm.tsx:52 | the direct email test accepts exactly the strings that `^[A-Z0-9._%+-]+@[A-Z0-9.-]+\.[A-Z]{2,}$` (case-insensitive) matches |
| StudentForm.EmailTestSound | src/components/StudentForm.tsx:52 | every address the direct test accepts splits as the pattern requires, at its first `@` and the last `.` after it |
| StudentForm.EmailTestComplete | src/components/StudentForm.tsx:52 | every string that splits as the pattern requires is accepted by the direct test |
| StudentForm.ValidEmailHasOneAt | src/components/StudentForm.tsx:52 | an accepted address holds exactly one `@` |
| StudentForm.ValidateKeys | src/components/StudentForm.tsx:39-67 | errors are only ever reported for name, email, courseId and profileImage; the id never affects validation |
| StudentForm.ValidateName | src/components/StudentForm.tsx:43-47 | 'Name is required' exactly for a blank name; 'Name must be at least 2 characters' exactly for a non-blank name whose trimmed length is below 2; otherwise no name error |
| StudentForm.ValidateEmail | src/components/StudentForm.tsx:50-54 | 'Email is required' exactly for a blank email; 'Invalid email address' exactly when the untrimmed email does not match the pattern; otherwise no email error |
| StudentForm.ValidateRequiredFields | src/components/StudentForm.tsx:57-64 | the course and image errors appear exactly when those fields are empty, with their messages |
| StudentForm.EmptyFormFailsEverywhere | src/components/StudentForm.tsx:30-36 | the blank add-mode form fails on all four checked fields |
| StudentForm.UntouchedEditSavesSameStudent | src/components/StudentForm.tsx:30-36 | the edit form's initial values map back to exactly the edited student, course id included |
| StudentForm.OnSubmit | src/components/StudentForm.tsx:82-107 | edit mode sends an update carrying the form id; add mode sends an add without id; the course goes through `Number`. `onSuccess` runs exactly when the save resolves. A failure sets the add or update error message and is not re-thrown |
| StudentForm.SubmitForm | src/components/StudentForm.tsx:117-120 | a valid form is saved and reset even when the save was rejected. The provider then holds the appended or replaced record, or keeps its list and gets the add or update error message. An invalid form saves nothing, keeps its draft, and leaves the provider untouched |
| StudentList.MatchesSearch | src/components/StudentList.tsx:47-49 | the search test; stated by `StudentList.SearchMeansSubstring` |
| StudentList.MatchesCourse | src/components/StudentList.tsx:52-53 | the course test; stated by `StudentList.CourseFilterMeansId` |
| StudentList.FilterStudents | src/components/StudentList.tsx:45-56 | `students.filter(...)`; stated by `StudentList.FilterMembership` and `StudentList.FilterAppend` |
| StudentList.TotalPages | src/components/StudentList.tsx:59 | `Math.ceil(n / 6)` on integers; stated by `StudentList.TotalPagesBounds` |
| StudentList.JsSlice | src/components/StudentList.tsx:64 | `slice(start, end)` with JavaScript's handling of negative and out-of-range bounds |
| StudentList.PageSlice | src/components/StudentList.tsx:62-64 | the slice of page p; stated by `StudentList.PageSliceContents` and `StudentList.AllPagesRebuildFiltered` |
| StudentList.ComputeView | src/components/StudentList.tsx:43-71 | the memo: the filtered list, its current page and the page count |
| StudentList.SubmitHistory | src/components/StudentList.tsx:79-92 | the stored history after a search-form submit; stated by `StudentList.SubmitHistorySpec` |
| StudentList.FilterMembership | src/components/StudentList.tsx:45-56 | a student is in the filtered list exactly when it is in the list and matches both tests |
| StudentList.FilterAppend | src/components/StudentList.tsx:45-56 | filtering distributes over concatenation, so the relative order is kept |
| StudentList.FilterKeepsAllMatching | src/components/StudentList.tsx:45-56 | when every student matches, the filter returns the list unchanged |
| StudentList.NoFilterKeepsAll | src/components/StudentList.tsx:47-53 | an empty term and no course filter keep every student |
| StudentList.SearchMeansSubstring | src/components/StudentList.tsx:47-49 | the search matches exactly when the term is empty or the lower-cased term occurs in the lower-cased name or email |
| StudentList.CourseFilterMeansId | src/components/StudentList.tsx:52-53 | a course filter that is the decimal form of an id matches exactly the students with that course id |
| StudentList.UnusedCourseFilterEmpties | src/components/StudentList.tsx:52-59 | a course filter that no student carries gives an empty list and zero pages |
| StudentList.TotalPagesBounds | src/components/StudentList.tsx:59 | there are zero pages exactly for an empty list; otherwise the last page holds the last entry |
| StudentList.PageSliceContents | src/components/StudentList.tsx:62-64 | page p is `filtered[(p-1)*6 .. min(p*6, n)]` and holds at most six entries |
| StudentList.PagesUpToPrefix | src/components/StudentList.tsx:62-64 | the first k pages, concatenated, are the first min(6k, n) entries |
| StudentList.AllPagesRebuildFiltered | src/components/StudentList.tsx:59-64 | concatenating pages 1 to totalPages gives back the filtered list exactly |
| StudentList.PageBeyondLastIsEmpty | src/components/StudentList.tsx:62-64 | a page beyond the last one is empty |
| StudentList.PreviousPage | src/components/StudentList.tsx:211 | Previous never goes below 1, steps back by one from any page above 1, and gives 1 from any page below 1 |
| StudentList.NextPage | src/components/StudentList.tsx:223 | Next never exceeds totalPages, steps forward by one from any page below it, and gives totalPages from a stale page at or above it |
| StudentList.PagerStaysInRange | src/components/StudentList.tsx:211-223 | from a page in [1, totalPages], both buttons stay in that range |
| StudentList.SubmitHistorySpec | src/components/StudentList.tsx:79-92 | a blank term or a term already recorded leaves the history as it was; otherwise the untrimmed term goes first and is followed by the first four older entries |
| StudentList.SubmitVersusPanel | src/components/StudentList.tsx:87-88 | the search form and the history panel agree on a new term; for a recorded term that is not first they disagree, since the form leaves it in place and the panel moves it; the source never calls the panel's `addToHistory`, so only the form's policy writes history in the app |
| StudentList.ListState.constructor | src/components/StudentList.tsx:26-30 | empty term and filter, page 1 |
| StudentList.ListState.SetSearchTerm | src/components/StudentList.tsx:74-76 | only the raw term changes; the page and the filtered list wait for the debounce |
| StudentList.ListState.ResetEffect | src/components/StudentList.tsx:38-40 | the page becomes 1 exactly when the debounced term or the course filter changed |
| StudentList.ListState.DebouncedTermSettles | src/components/StudentList.tsx:35-40 | when the debounced term takes a new value the page goes back to 1 |
| StudentList.ListState.SetCourseFilter | src/components/StudentList.tsx:100-102 | choosing another course filter sets the page to 1 |
| StudentList.ListState.Previous | src/components/StudentList.tsx:211 | the page moves by the Previous updater; nothing else changes |
| StudentList.ListState.Next | src/components/StudentList.tsx:223 | the page moves by the Next updater; nothing else changes |
| StudentList.ListState.HandleSearchSubmit | src/components/StudentList.tsx:79-92 | the stored history becomes the submit rule applied to the stored history and the raw term |
| StudentList.ShrinkingListLeavesStalePage | src/components/StudentList.tsx:38-40 | the page is not re-clamped when the list shrinks: page 2 of a one-page list shows nothing |
| SearchHistory.MoveToFront | src/components/SearchHistory.tsx:27-30 | the list `addToHistory` builds; stated by `SearchHistory.MoveToFrontSpec` and `SearchHistory.MoveToFrontIdempotent` |
| SearchHistory.WithoutAppend | src/components/SearchHistory.tsx:29 | removing a term distributes over concatenation, so the kept entries keep their order and multiplicity |
| SearchHistory.Without | src/components/SearchHistory.tsx:29 | the entries other than the term are kept and the term no longer occurs; their order and multiplicity are stated by `SearchHistory.WithoutAppend` |
| SearchHistory.WithoutAbsent | src/components/SearchHistory.tsx:29 | removing a term that is not recorded changes nothing |
| SearchHistory.MoveToFrontSpec | src/components/SearchHistory.tsx:27-30 | the term is first and occurs once; there are at most five entries; the rest are the older entries other than the term, in order |
| SearchHistory.MoveToFrontIdempotent | src/components/SearchHistory.tsx:27-30 | recording the same term twice in a row is recording it once |
| SearchHistory.Panel.constructor | src/components/SearchHistory.tsx:15-20 | the panel shows the stored history, or nothing when none is stored |
| SearchHistory.Panel.AddToHistory | src/components/SearchHistory.tsx:23-34 | a blank term changes nothing; otherwise the new list is shown and stored; nothing in the source calls `addToHistory`, so this path is defined but unreachable in the app |
| SearchHistory.Panel.ClearHistory | src/components/SearchHistory.tsx:37-40 | the list is emptied and the storage entry removed |
| Statistics.CountEnrolled | src/components/StudentStatistics.tsx:18 | the number of students with the course id; bounded by `Statistics.CountEnrolledBound` |
| Statistics.InsertByCount | src/components/StudentStatistics.tsx:27 | one insertion step of the stable descending sort; stated by `Statistics.InsertByCountPermutes`, `Statistics.InsertByCountSorted` and `Statistics.InsertByCountStable` |
| Statistics.SortByCount | src/components/StudentStatistics.tsx:27 | the stable descending sort by count; stated by `Statistics.SortByCountSortedPermutation` and `Statistics.SortByCountStable` |
| Statistics.MostPopular | src/components/StudentStatistics.tsx:30 | the first entry's name, or 'None' when there is none or its name is empty; stated by `Statistics.MostPopularNone` |
| Statistics.ComputeStatistics | src/components/StudentStatistics.tsx:12-37 | the memo: total, sorted per-course list and most popular course; stated by `Statistics.StatisticsShape` and `Statistics.MostPopularIsEarliestMaximum` |
| Statistics.CountEnrolledBound | src/components/StudentStatistics.tsx:18 | a course count never exceeds the number of students, and is 0 when no student takes the course |
| Statistics.Percentage | src/components/StudentStatistics.tsx:22 | 0 with no students; otherwise the integer nearest to 100·count/total, with halves rounded up |
| Statistics.PercentageInRange | src/components/StudentStatistics.tsx:22 | a share of at most the total is between 0 and 100 |
| Statistics.PerCourse | src/components/StudentStatistics.tsx:17-24 | one entry per course |
| Statistics.InsertByCountPermutes | src/components/StudentStatistics.tsx:27 | inserting adds exactly the inserted entry |
| Statistics.InsertByCountSorted | src/components/StudentStatistics.tsx:27 | inserting into a non-increasing list keeps it non-increasing |
| Statistics.InsertByCountStable | src/components/StudentStatistics.tsx:27 | an entry inserted with count c goes before the other entries with count c, whose order is kept |
| Statistics.SortByCountSortedPermutation | src/components/StudentStatistics.tsx:27 | the sorted list is a permutation of its input, in non-increasing count order |
| Statistics.SortByCountStable | src/components/StudentStatistics.tsx:27 | the sort is stable: the entries of each count keep their relative order |
| Statistics.StatisticsShape | src/components/StudentStatistics.tsx:12-37 | the total is the number of students; the list is a stable, non-increasing permutation of the per-course entries, each count at most the total and each share at most 100 |
| Statistics.WithCountFirst | src/components/StudentStatistics.tsx:27 | the first entry with count c is at the first position carrying c |
| Statistics.MostPopularIsEarliestMaximum | src/components/StudentStatistics.tsx:27-30 | the top entry has the largest count, and among courses with that count it is the one listed first |
| Statistics.NoStudentsKeepsCourseOrder | src/components/StudentStatistics.tsx:18-27 | with no students, every count and share is 0 and the list is in course order |
| Statistics.AllSameCountIsFixed | src/components/StudentStatistics.tsx:27 | a list whose counts are all equal is left as it is by the sort |
| Statistics.MostPopularNone | src/components/StudentStatistics.tsx:30 | 'None' is reported exactly when there is no course or the top name is empty or 'None'; with no students it is the first course's name |
| ExportData.Join | src/components/ExportData.tsx:29-37 | `array.join(sep)`; see `ExportData.SplitJoin` and `ExportData.JoinAvoids` |
| ExportData.CsvRecordOf | src/components/ExportData.tsx:15-24 | a student's fields with the course resolved to a name, else 'Unknown' |
| ExportData.Quoted | src/components/ExportData.tsx:32-35 | a field wrapped in double quotes, with embedded quotes left as they are |
| ExportData.CsvRow | src/components/ExportData.tsx:30-36 | the raw id and four quoted fields, comma-separated; see `ExportData.CsvRowsCollide` |
| ExportData.CsvContent | src/components/ExportData.tsx:28-37 | the lines joined by backslash and `n`; stated by `ExportData.CsvSplitsIntoLines` and `ExportData.CsvIsOneLine` |
| ExportData.JsonRecords | src/components/ExportData.tsx:54-64 | one record per student; stated by `ExportData.JsonRecordsDescribeStudents` |
| ExportData.CsvLines | src/components/ExportData.tsx:28-36 | the header line followed by one line per student |
| ExportData.SplitJoin | src/components/ExportData.tsx:37 | splitting a join at its separator gives back the parts, when no part holds the separator's first character |
| ExportData.JoinAvoids | src/components/ExportData.tsx:36-37 | a character in neither the parts nor the separator is not in their join |
| ExportData.CsvLinesAvoid | src/components/ExportData.tsx:15-36 | a character in no field, no course name and not in 'Unknown', and not a quote or comma, is in no CSV line |
| ExportData.HeaderLine | src/components/ExportData.tsx:27-29 | the header line is exactly `ID,Name,Email,Course,Profile Image URL` |
| ExportData.CsvSplitsIntoLines | src/components/ExportData.tsx:28-37 | split at the separator, the export is the header and then student k's row at position k+1 (when no field holds a backslash) |
| ExportData.CsvIsOneLine | src/components/ExportData.tsx:37 | the separator is not a line break: with no line break in any field the whole export is one line |
| ExportData.CsvRowsCollide | src/components/ExportData.tsx:31-36 | with quotes not doubled, two different records produce the same data line |
| ExportData.ReadQuotedBodyEscaped | src/components/ExportData.tsx:31-36 | a field with its quotes doubled and then closed reads back as that field, whatever follows |
| ExportData.ReadEscapedLine | src/components/ExportData.tsx:30-36 | a line of escaped fields reads back as exactly those fields |
| ExportData.EscapedRowInjective | src/components/ExportData.tsx:30-36 | with RFC 4180 escaping, two rows are equal exactly when their records are |
| ExportData.CorrectedLines | src/components/ExportData.tsx:28-36 | the corrected export has one line per student after the header |
| ExportData.CorrectedCsvReadsBack | src/components/ExportData.tsx:28-37 | the corrected export splits at line breaks into the header and one line per student, each reading back as that student's fields |
| ExportData.DoubledQuotesAvoid | src/components/ExportData.tsx:32 | doubling quotes adds no character other than the quote |
| ExportData.JsonRecordsDescribeStudents | src/components/ExportData.tsx:54-64 | one JSON record per student, in order; each gives back its student (raw course id included) and names the same course as the CSV line |
| StudentCard.CourseName | src/components/StudentCard.tsx:19-22 | the name of the first course with the student's course id, else 'Unknown Course' |
| StudentCard.HandleDelete | src/components/StudentCard.tsx:25-33 | without confirmation nothing changes; with it `loading` ends false and `courses` is unchanged, a success deletes the card's student id and keeps the error, and a failure keeps the list and sets the delete error without propagating |

## Left out

- Latency and concurrency. The 500 ms timers of the gateway, the parallel
  `Promise.all` of the initial load, and racing mutations are not modelled.
  Each gateway call is one atomic step, and each awaited result is a
  parameter.
- `useDebounce`. Timers are not modelled: `StudentList.ListState.DebouncedTermSettles`
  is the moment the debounced value catches up. The scenario of three quick
  changes giving one update is not stated.
- `localStorage` and JSON. A stored entry is the list it encodes, as an
  `Option`, and `JSON.parse(JSON.stringify(x))` is taken to give back `x`.
  The `getItem` truthiness test is modelled as "key present".
- `Date.now().toString()`. The new id is a parameter of `Api.MockApi.AddStudent`.
- `FileReader`. Reading the file is not modelled. Only its completion
  (`UseForm.FormController.FileLoaded`) is, with the values snapshot the
  closure captured.
- StudentForm.SaveRequestOf, StudentForm.OnSubmit: `Number(...)` is modelled
  only for decimal integer numerals, since the course select only offers
  course ids. Empty strings, `NaN`, fractions and exponents are excluded by
  the precondition.
- Statistics.Percentage: `Math.round` on floating point is modelled as exact
  round-half-up on rationals. The two differ at some exact halves, where the
  binary product `count / total * 100` falls just below the half. For 23
  of 40 the code computes 57.49999999999999 and shows 57, while the model
  gives 58. For 29 of 200 the code shows 14 and the model 15.
- Statistics.StatisticsShape: it does not state that the shares sum to
  about 100. They do not when some student's course id is missing from
  the catalogue.
- Statistics.SortByCountSortedPermutation: the in-place `sort` of a local
  array is a function that returns the stably sorted sequence. The array
  is local to the memo and never aliased, so nothing else observes the
  update in place.
- Text.Lower: `toLowerCase` is ASCII only, not full Unicode case mapping.
- Strings are sequences of code points, not UTF-16 code units. `length`
  (the name-length rule) differs for characters outside the Basic
  Multilingual Plane.
- Text.IntToString: JavaScript prints numbers of 1e21 and above in
  exponent notation; the model always prints every digit.
- The Blob, the object URL, the hidden anchor click and the
  ISO-date file name of the export are not modelled. Neither is the
  indentation text of `JSON.stringify(data, null, 2)`: the JSON export is
  modelled by its records.
- React rendering: memoisation, re-renders and the markup are not modelled.
  The `touched && error` display gate is not modelled either.
- UseForm.FormController.HandleSubmit: `isSubmitting` is true only while
  the submit is awaited, and that intermediate state is not observable in
  a one-step method. The contract states its value at the end.
- UseForm.FormController.HandleSubmit: after a reset the next render
  re-runs the validation effect, because `validate` is a new closure on
  every render of the form. That re-run is a separate
  `UseForm.FormController.ValidationEffect` call, and the contract states
  the errors as `resetForm` leaves them.
- `useStudentManagement`'s throw outside a provider is not modelled. Every
  component receives its provider explicitly.
- Drag-and-drop in the image upload is not modelled.
- The `console.error` logging in the catch blocks of the provider, the form
  hook, the student form and the card is not modelled. Only the state each
  catch leaves behind is.
- `window.confirm` is not modelled as a dialog. Its answer is the `confirmed`
  parameter of `StudentCard.HandleDelete`.

## Findings

| source | as written | input that shows it | evidently intended | confidence | as-written member | corrected member |
|---|---|---|---|---|---|---|
| src/components/ExportData.tsx:31-36 | each field is wrapped in `"` but embedded quotes are not doubled (RFC 4180, section 2, rule 7) | name `a","b` with email `c`, against name `a` with email `b","c` (same id, course and image): both give the data line `id,"a","b","c",...` | quotes inside a field are doubled, so every line reads back as its own fields | high (not executed) | ExportData.CsvRowsCollide | ExportData.EscapedRowInjective |
| src/components/ExportData.tsx:37 | rows are joined with `'\\n'`, the two characters backslash and `n`, so the file is a single line | any list of students without line breaks in their fields: the whole export holds no line break | rows separated by a line break | high (not executed) | ExportData.CsvIsOneLine | ExportData.CorrectedCsvReadsBack |
