/**
 * The student form (src/components/StudentForm.tsx): its initial values in
 * add and edit mode, the `validate` rules (with the email pattern
 * `^[A-Z0-9._%+-]+@[A-Z0-9.-]+\.[A-Z]{2,}$`, case-insensitive) and the
 * `onSubmit` callback that hands the record to the provider.
 */
module StudentForm {
  import opened Types
  import opened Text
  import opened UseForm
  import opened Api
  import opened StudentManagement

  const NameRequired: string := "Name is required"
  const NameTooShort: string := "Name must be at least 2 characters"
  const EmailRequired: string := "Email is required"
  const EmailInvalid: string := "Invalid email address"
  const CourseRequired: string := "Course is required"
  const ImageRequired: string := "Profile image is required"

  /**
   * `values.<key>`. Every form starts from `InitialValues`, whose ensures
   * gives it all five keys, and `handleChange` keeps every key it finds;
   * so the "" default, where the source would throw, is never read.
   */
  function Field(values: Values, key: string): string {
    if key in values then values[key] else ""
  }

  /** `initialValues`: the edited student's fields (course id in decimal), or empty strings. */
  function InitialValues(student: Option<Student>): (values: Values)
    ensures values.Keys == {"id", "name", "email", "courseId", "profileImage"}
    ensures student.None? ==> forall key :: key in values ==> values[key] == ""
  {
    match student
    case Some(s) =>
      map["id" := s.id, "name" := s.name, "email" := s.email,
          "courseId" := IntToString(s.courseId), "profileImage" := s.profileImage]
    case None =>
      map["id" := "", "name" := "", "email" := "", "courseId" := "", "profileImage" := ""]
  }

  // ---------------------------------------------------------------- email

  predicate IsAsciiLetter(c: char) {
    'A' <= c <= 'Z' || 'a' <= c <= 'z'
  }

  /** `[A-Z0-9._%+-]` under the `i` flag. */
  predicate IsLocalChar(c: char) {
    IsAsciiLetter(c) || IsDigit(c) || c == '.' || c == '_' || c == '%' || c == '+' || c == '-'
  }

  /** `[A-Z0-9.-]` under the `i` flag. */
  predicate IsDomainChar(c: char) {
    IsAsciiLetter(c) || IsDigit(c) || c == '.' || c == '-'
  }

  /**
   * `s` splits as local part `s[..at]`, `@`, domain label part
   * `s[at+1..dot]`, `.`, top-level part `s[dot+1..]`, each from its
   * character class and of the length the pattern's quantifiers ask.
   */
  ghost predicate PatternSplit(s: string, at: int, dot: int) {
    0 < at && at + 1 < dot && dot + 2 < |s| && s[at] == '@' && s[dot] == '.' &&
    (forall k :: 0 <= k < at ==> IsLocalChar(s[k])) &&
    (forall k :: at < k < dot ==> IsDomainChar(s[k])) &&
    (forall k :: dot < k < |s| ==> IsAsciiLetter(s[k]))
  }

  /** The language of the email regular expression. */
  ghost predicate MatchesEmailPattern(s: string) {
    exists at, dot :: PatternSplit(s, at, dot)
  }

  /** The first index of `c` in `s`. */
  function IndexOf(s: string, c: char): (r: Option<nat>)
    ensures r.None? ==> forall k :: 0 <= k < |s| ==> s[k] != c
    ensures r.Some? ==> r.value < |s| && s[r.value] == c && forall k :: 0 <= k < r.value ==> s[k] != c
  {
    if s == [] then None
    else if s[0] == c then Some(0)
    else match IndexOf(s[1..], c) {
      case None => None
      case Some(i) => Some(i + 1)
    }
  }

  /** The last index of `c` in `s`. */
  function LastIndexOf(s: string, c: char): (r: Option<nat>)
    ensures r.None? ==> forall k :: 0 <= k < |s| ==> s[k] != c
    ensures r.Some? ==> r.value < |s| && s[r.value] == c && forall k :: r.value < k < |s| ==> s[k] != c
  {
    if s == [] then None
    else if s[|s| - 1] == c then Some(|s| - 1)
    else LastIndexOf(s[..|s| - 1], c)
  }

  /**
   * The email test read directly: a non-empty local part of local characters
   * before the first `@`; after it a domain of domain characters whose last
   * `.` has a non-empty prefix and is followed by at least two letters.
   */
  predicate IsValidEmail(s: string) {
    match IndexOf(s, '@')
    case None => false
    case Some(at) =>
      var domain := s[at + 1..];
      at > 0 && (forall k :: 0 <= k < at ==> IsLocalChar(s[k])) &&
      match LastIndexOf(domain, '.')
      case None => false
      case Some(dot) =>
        dot > 0 && |domain| - dot - 1 >= 2 &&
        (forall k :: 0 <= k < dot ==> IsDomainChar(domain[k])) &&
        (forall k :: dot < k < |domain| ==> IsAsciiLetter(domain[k]))
  }

  /** The direct test accepts exactly the strings the regular expression matches. */
  lemma EmailTestMatchesPattern(s: string)
    ensures IsValidEmail(s) <==> MatchesEmailPattern(s)
  {
    if IsValidEmail(s) {
      EmailTestSound(s);
    }
    if MatchesEmailPattern(s) {
      var at, dot :| PatternSplit(s, at, dot);
      EmailTestComplete(s, at, dot);
    }
  }

  /** What the direct test accepts splits as the pattern asks, at the first `@` and the last `.`. */
  lemma EmailTestSound(s: string)
    requires IsValidEmail(s)
    ensures PatternSplit(s, IndexOf(s, '@').value, IndexOf(s, '@').value + 1 + LastIndexOf(s[IndexOf(s, '@').value + 1..], '.').value)
  {
    var at := IndexOf(s, '@').value;
    var domain := s[at + 1..];
    var dot := LastIndexOf(domain, '.').value;
    forall k | at < k < at + 1 + dot ensures IsDomainChar(s[k]) {
      assert s[k] == domain[k - at - 1];
    }
    forall k | at + 1 + dot < k < |s| ensures IsAsciiLetter(s[k]) {
      assert s[k] == domain[k - at - 1];
    }
  }

  /** Every split the pattern allows is the one the direct test finds, and the test accepts. */
  lemma EmailTestComplete(s: string, at: int, dot: int)
    requires PatternSplit(s, at, dot)
    ensures IsValidEmail(s)
  {
    assert !IsLocalChar('@');
    assert IndexOf(s, '@') == Some(at);
    var domain := s[at + 1..];
    assert domain[dot - at - 1] == '.';
    assert forall k :: dot - at - 1 < k < |domain| ==> domain[k] == s[at + 1 + k] && domain[k] != '.';
    assert LastIndexOf(domain, '.') == Some(dot - at - 1);
    forall k | 0 <= k < dot - at - 1 ensures IsDomainChar(domain[k]) {
      assert domain[k] == s[at + 1 + k];
    }
    forall k | dot - at - 1 < k < |domain| ensures IsAsciiLetter(domain[k]) {
      assert domain[k] == s[at + 1 + k];
    }
  }

  /** An address the pattern accepts has exactly one `@`. */
  lemma ValidEmailHasOneAt(s: string)
    requires IsValidEmail(s)
    ensures multiset(s)['@'] == 1
  {
    var at := IndexOf(s, '@').value;
    assert s == s[..at] + [s[at]] + s[at + 1..];
    assert multiset(s[..at])['@'] == 0 by {
      assert forall k :: 0 <= k < at ==> s[..at][k] != '@';
    }
    var domain := s[at + 1..];
    assert multiset(domain)['@'] == 0 by {
      var dot := LastIndexOf(domain, '.').value;
      forall k | 0 <= k < |domain| ensures domain[k] != '@' {
        if k < dot { assert IsDomainChar(domain[k]); }
        else if k > dot { assert IsAsciiLetter(domain[k]); }
      }
    }
  }

  // -------------------------------------------------------------- validate

  function NameError(name: string): Errors {
    if Trim(name) == "" then map["name" := NameRequired]
    else if |Trim(name)| < 2 then map["name" := NameTooShort]
    else map[]
  }

  function EmailError(email: string): Errors {
    if Trim(email) == "" then map["email" := EmailRequired]
    else if !IsValidEmail(email) then map["email" := EmailInvalid]
    else map[]
  }

  /** The form's `validate`. */
  function Validate(values: Values): Errors {
    NameError(Field(values, "name")) + EmailError(Field(values, "email")) +
    (if Field(values, "courseId") == "" then map["courseId" := CourseRequired] else map[]) +
    (if Field(values, "profileImage") == "" then map["profileImage" := ImageRequired] else map[])
  }

  /** Only the four checked fields can carry an error; `id` is never checked. */
  lemma ValidateKeys(values: Values, id: string)
    ensures Validate(values).Keys <= {"name", "email", "courseId", "profileImage"}
    ensures Validate(values["id" := id]) == Validate(values)
  {
    assert Field(values["id" := id], "name") == Field(values, "name");
    assert Field(values["id" := id], "email") == Field(values, "email");
    assert Field(values["id" := id], "courseId") == Field(values, "courseId");
    assert Field(values["id" := id], "profileImage") == Field(values, "profileImage");
  }

  /** The name rule, on the trimmed name. */
  lemma ValidateName(values: Values)
    ensures var name := Field(values, "name");
            ("name" in Validate(values) && Validate(values)["name"] == NameRequired <==> IsBlank(name)) &&
            ("name" in Validate(values) && Validate(values)["name"] == NameTooShort <==> !IsBlank(name) && |Trim(name)| < 2) &&
            ("name" !in Validate(values) <==> |Trim(name)| >= 2)
  {
    TrimEmptyIffBlank(Field(values, "name"));
  }

  /** The email rule: required on the trimmed address, then the pattern on the untrimmed one. */
  lemma ValidateEmail(values: Values)
    ensures var email := Field(values, "email");
            ("email" in Validate(values) && Validate(values)["email"] == EmailRequired <==> IsBlank(email)) &&
            ("email" in Validate(values) && Validate(values)["email"] == EmailInvalid <==>
               !IsBlank(email) && !MatchesEmailPattern(email)) &&
            ("email" !in Validate(values) <==> !IsBlank(email) && MatchesEmailPattern(email))
  {
    TrimEmptyIffBlank(Field(values, "email"));
    EmailTestMatchesPattern(Field(values, "email"));
  }

  /** Course and image are only required to be non-empty. */
  lemma ValidateRequiredFields(values: Values)
    ensures "courseId" in Validate(values) <==> Field(values, "courseId") == ""
    ensures "courseId" in Validate(values) ==> Validate(values)["courseId"] == CourseRequired
    ensures "profileImage" in Validate(values) <==> Field(values, "profileImage") == ""
    ensures "profileImage" in Validate(values) ==> Validate(values)["profileImage"] == ImageRequired
  {
  }

  /** A blank form in add mode fails on every checked field. */
  lemma EmptyFormFailsEverywhere()
    ensures Validate(InitialValues(None)).Keys == {"name", "email", "courseId", "profileImage"}
  {
    assert Trim("") == "";
  }

  // -------------------------------------------------------------- onSubmit

  /** What `onSubmit` asks the provider to save. */
  datatype SaveRequest = UpdateRequest(student: Student) | AddRequest(draft: NewStudent)

  /** Edit mode sends the form's id along; add mode sends no id; the course goes through `Number`. */
  function SaveRequestOf(editing: Option<Student>, formValues: Values): SaveRequest
    requires IsNumeral(Field(formValues, "courseId"))
  {
    var courseId := NumberOf(Field(formValues, "courseId"));
    if editing.Some? then
      UpdateRequest(Student(Field(formValues, "id"), Field(formValues, "name"), Field(formValues, "email"),
                            courseId, Field(formValues, "profileImage")))
    else
      AddRequest(NewStudent(Field(formValues, "name"), Field(formValues, "email"), courseId,
                            Field(formValues, "profileImage")))
  }

  /** Saving an untouched edit form sends back exactly the student being edited. */
  lemma UntouchedEditSavesSameStudent(s: Student)
    ensures IsNumeral(Field(InitialValues(Some(s)), "courseId"))
    ensures SaveRequestOf(Some(s), InitialValues(Some(s))) == UpdateRequest(s)
  {
    IntToStringRoundTrip(s.courseId);
  }

  /**
   * `onSubmit`: the save goes to the provider; `onSuccess` runs only when it
   * resolves; a rejection is logged and swallowed, so the promise
   * `onSubmit` returns always resolves.
   */
  method OnSubmit(provider: Provider, editing: Option<Student>, formValues: Values, reply: Reply<Student>)
    returns (request: SaveRequest, onSuccessCalled: bool)
    requires IsNumeral(Field(formValues, "courseId"))
    modifies provider
    ensures request == SaveRequestOf(editing, formValues)
    ensures onSuccessCalled <==> reply.Resolved?
    ensures provider.courses == old(provider.courses) && !provider.loading
    ensures reply.Resolved? && request.UpdateRequest? ==> provider.students == Replaced(old(provider.students), request.student)
    ensures reply.Resolved? && request.AddRequest? ==> provider.students == old(provider.students) + [reply.value]
    ensures reply.Rejected? ==> provider.students == old(provider.students)
    ensures reply.Resolved? ==> provider.error == old(provider.error)
    ensures reply.Rejected? ==>
              provider.error == Some(if request.UpdateRequest? then UpdateFailed else AddFailed)
  {
    request := SaveRequestOf(editing, formValues);
    var completion;
    match request {
      case UpdateRequest(student) =>
        completion := provider.UpdateStudent(student, reply);
      case AddRequest(_) =>
        completion := provider.AddStudent(reply);
    }
    onSuccessCalled := completion == Done;
  }

  /**
   * The form's submit button: `handleSubmit(onSubmit)`. Because `onSubmit`
   * swallows save failures, a valid form is reset even when the save was
   * rejected.
   */
  method SubmitForm(form: FormController, provider: Provider, editing: Option<Student>, reply: Reply<Student>)
    returns (request: Option<SaveRequest>)
    requires form.validate == Validate
    requires Validate(form.values) == map[] ==> IsNumeral(Field(form.values, "courseId"))
    modifies form`values, form`errors, form`touched, form`isSubmitting, provider
    ensures Validate(old(form.values)) == map[] ==>
              request == Some(SaveRequestOf(editing, old(form.values))) &&
              form.values == form.initialValues && form.errors == map[] && form.touched == map[]
    ensures Validate(old(form.values)) == map[] ==>
              !provider.loading && provider.courses == old(provider.courses)
    ensures request.Some? && request.value.UpdateRequest? && reply.Resolved? ==>
              provider.students == Replaced(old(provider.students), request.value.student) &&
              provider.error == old(provider.error)
    ensures request.Some? && request.value.AddRequest? && reply.Resolved? ==>
              provider.students == old(provider.students) + [reply.value] && provider.error == old(provider.error)
    ensures request.Some? && reply.Rejected? ==>
              provider.students == old(provider.students) &&
              provider.error == Some(if editing.Some? then UpdateFailed else AddFailed)
    ensures Validate(old(form.values)) != map[] ==>
              request == None && form.values == old(form.values) &&
              form.touched == AllTouched(old(form.values)) && form.errors == Validate(old(form.values)) &&
              provider.students == old(provider.students) && provider.error == old(provider.error) &&
              provider.loading == old(provider.loading) && provider.courses == old(provider.courses)
    ensures !form.isSubmitting
  {
    request := None;
    if Validate(form.values) == map[] {
      var saved, onSuccessCalled := OnSubmit(provider, editing, form.values, reply);
      request := Some(saved);
    }
    var submitted := form.HandleSubmit(false);
  }
}
