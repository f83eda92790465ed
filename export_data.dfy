/**
 * The export panel (src/components/ExportData.tsx): the CSV text and the
 * JSON records built from the students, with each course id resolved to a
 * course name. The file download itself is not modelled.
 */
module ExportData {
  import opened Types

  const Unknown: string := "Unknown"
  const Headers: seq<string> := ["ID", "Name", "Email", "Course", "Profile Image URL"]

  /** The row separator as written: the two characters backslash and `n`, not a line break. */
  const RowSeparator: string := ['\\', 'n']

  /** `array.join(sep)`. */
  function Join(parts: seq<string>, sep: string): string {
    if parts == [] then ""
    else if |parts| == 1 then parts[0]
    else parts[0] + sep + Join(parts[1..], sep)
  }

  /** One element of `data`: the student's fields with the course resolved. */
  datatype CsvRecord = CsvRecord(id: string, name: string, email: string, course: string, profileImage: string)

  function CsvRecordOf(s: Student, courses: seq<Course>): CsvRecord {
    CsvRecord(s.id, s.name, s.email, CourseLabel(courses, s.courseId, Unknown), s.profileImage)
  }

  /** `"${field}"`: wrapped in double quotes, embedded quotes left as they are. */
  function Quoted(field: string): string {
    "\"" + field + "\""
  }

  /** A data line: the raw id, then the four quoted fields, comma-separated. */
  function CsvRow(r: CsvRecord): string {
    Join([r.id, Quoted(r.name), Quoted(r.email), Quoted(r.course), Quoted(r.profileImage)], ",")
  }

  /** The header line followed by one data line per student, in collection order. */
  function CsvLines(students: seq<Student>, courses: seq<Course>): (lines: seq<string>)
    ensures |lines| == |students| + 1
  {
    [Join(Headers, ",")] + seq(|students|, i requires 0 <= i < |students| => CsvRow(CsvRecordOf(students[i], courses)))
  }

  /** `csvContent`. */
  function CsvContent(students: seq<Student>, courses: seq<Course>): string {
    Join(CsvLines(students, courses), RowSeparator)
  }

  // ------------------------------------------------------ reading it back

  /** The first position at which `sep` occurs in `s`. */
  function FindSeparator(s: string, sep: string): Option<nat>
    requires sep != []
    decreases |s|
  {
    if |s| < |sep| then None
    else if s[..|sep|] == sep then Some(0)
    else match FindSeparator(s[1..], sep) {
      case None => None
      case Some(i) => Some(i + 1)
    }
  }

  /** `s.split(sep)`. */
  function Split(s: string, sep: string): seq<string>
    requires sep != []
    decreases |s|
  {
    match FindSeparator(s, sep)
    case None => [s]
    case Some(i) =>
      FindSeparatorBounds(s, sep);
      [s[..i]] + Split(s[i + |sep|..], sep)
  }

  lemma {:induction false} FindSeparatorBounds(s: string, sep: string)
    requires sep != []
    ensures FindSeparator(s, sep).Some? ==> FindSeparator(s, sep).value + |sep| <= |s|
    decreases |s|
  {
    if |s| >= |sep| && s[..|sep|] != sep {
      FindSeparatorBounds(s[1..], sep);
    }
  }

  lemma {:induction false} FindSeparatorNone(s: string, sep: string)
    requires sep != [] && sep[0] !in s
    ensures FindSeparator(s, sep) == None
    decreases |s|
  {
    if |s| >= |sep| {
      assert s[..|sep|][0] == s[0];
      FindSeparatorNone(s[1..], sep);
    }
  }

  lemma {:induction false} FindSeparatorAfter(line: string, sep: string, tail: string)
    requires sep != [] && sep[0] !in line
    ensures FindSeparator(line + sep + tail, sep) == Some(|line|)
    decreases |line|
  {
    var s := line + sep + tail;
    if line == [] {
      assert s[..|sep|] == sep;
    } else {
      assert s[..|sep|][0] == line[0];
      assert s[1..] == line[1..] + sep + tail;
      FindSeparatorAfter(line[1..], sep, tail);
    }
  }

  /** Splitting a join gives back the parts, when no part contains the separator's first character. */
  lemma {:induction false} SplitJoin(parts: seq<string>, sep: string)
    requires parts != [] && sep != []
    requires forall k :: 0 <= k < |parts| ==> sep[0] !in parts[k]
    ensures Split(Join(parts, sep), sep) == parts
  {
    if |parts| == 1 {
      FindSeparatorNone(parts[0], sep);
    } else {
      var rest := Join(parts[1..], sep);
      FindSeparatorAfter(parts[0], sep, rest);
      var s := parts[0] + sep + rest;
      assert s[..|parts[0]|] == parts[0];
      assert s[|parts[0]| + |sep|..] == rest;
      SplitJoin(parts[1..], sep);
    }
  }

  /** A character in neither the parts nor the separator is not in their join. */
  lemma {:induction false} JoinAvoids(parts: seq<string>, sep: string, c: char)
    requires c !in sep && forall k :: 0 <= k < |parts| ==> c !in parts[k]
    ensures c !in Join(parts, sep)
  {
    if |parts| > 1 {
      JoinAvoids(parts[1..], sep, c);
    }
  }

  /** No field of a student, nor any course name, contains the character `c`. */
  predicate FieldsAvoid(students: seq<Student>, courses: seq<Course>, c: char) {
    c !in Unknown &&
    (forall k :: 0 <= k < |students| ==>
       c !in students[k].id && c !in students[k].name && c !in students[k].email && c !in students[k].profileImage) &&
    (forall k :: 0 <= k < |courses| ==> c !in courses[k].name)
  }

  /** Every field of the record built for student k avoids `c`. */
  lemma RecordAvoids(students: seq<Student>, courses: seq<Course>, c: char, k: int)
    requires FieldsAvoid(students, courses, c) && 0 <= k < |students|
    ensures var r := CsvRecordOf(students[k], courses);
            c !in r.id && c !in r.name && c !in r.email && c !in r.course && c !in r.profileImage
  {
    var s := students[k];
    match FindCourse(courses, s.courseId) {
      case None =>
      case Some(found) =>
        var i :| IsFirstMatch(courses, s.courseId, i) && courses[i] == found;
    }
  }

  lemma CsvLinesAvoid(students: seq<Student>, courses: seq<Course>, c: char)
    requires FieldsAvoid(students, courses, c) && c != '"' && c != ','
    requires forall k :: 0 <= k < |Headers| ==> c !in Headers[k]
    ensures forall k :: 0 <= k < |CsvLines(students, courses)| ==> c !in CsvLines(students, courses)[k]
  {
    var lines := CsvLines(students, courses);
    JoinAvoids(Headers, ",", c);
    assert c !in lines[0];
    forall k | 1 <= k < |lines| ensures c !in lines[k] {
      RecordAvoids(students, courses, c, k - 1);
      CsvRowAvoids(CsvRecordOf(students[k - 1], courses), c);
    }
  }

  /** A data line holds no character, other than a quote or comma, that its fields lack. */
  lemma CsvRowAvoids(r: CsvRecord, c: char)
    requires c != '"' && c != ','
    requires c !in r.id && c !in r.name && c !in r.email && c !in r.course && c !in r.profileImage
    ensures c !in CsvRow(r)
  {
    var fields := [r.id, Quoted(r.name), Quoted(r.email), Quoted(r.course), Quoted(r.profileImage)];
    forall i | 0 <= i < 5 ensures c !in fields[i] { }
    JoinAvoids(fields, ",", c);
  }

  /** The header is exactly `ID,Name,Email,Course,Profile Image URL`. */
  lemma HeaderLine()
    ensures Join(Headers, ",") == "ID,Name,Email,Course,Profile Image URL"
  {
  }

  /**
   * Reading the export back: split at the separator it is the header and
   * then one line per student in order (when no field contains a backslash).
   */
  lemma CsvSplitsIntoLines(students: seq<Student>, courses: seq<Course>)
    requires FieldsAvoid(students, courses, '\\')
    ensures var lines := Split(CsvContent(students, courses), RowSeparator);
            |lines| == |students| + 1 && lines[0] == "ID,Name,Email,Course,Profile Image URL" &&
            forall k :: 0 <= k < |students| ==> lines[k + 1] == CsvRow(CsvRecordOf(students[k], courses))
  {
    HeaderLine();
    CsvLinesAvoid(students, courses, '\\');
    SplitJoin(CsvLines(students, courses), RowSeparator);
  }

  /**
   * The separator is not a line break: when no field holds a line break the
   * whole export is a single line, however many students there are.
   */
  lemma CsvIsOneLine(students: seq<Student>, courses: seq<Course>)
    requires FieldsAvoid(students, courses, '\n')
    ensures '\n' !in CsvContent(students, courses)
  {
    CsvLinesAvoid(students, courses, '\n');
    JoinAvoids(CsvLines(students, courses), RowSeparator, '\n');
  }

  lemma JoinFive(a: string, b: string, c: string, d: string, e: string, sep: string)
    ensures Join([a, b, c, d, e], sep) == a + sep + b + sep + c + sep + d + sep + e
  {
    assert [a, b, c, d, e][1..] == [b, c, d, e];
    assert [b, c, d, e][1..] == [c, d, e];
    assert [c, d, e][1..] == [d, e];
    assert [d, e][1..] == [e];
    var de := d + sep + e;
    assert Join([d, e], sep) == de;
    var cde := c + sep + de;
    assert Join([c, d, e], sep) == cde;
    var bcde := b + sep + cde;
    assert Join([b, c, d, e], sep) == bcde;
    assert Join([a, b, c, d, e], sep) == a + sep + bcde;
  }

  /** Moving a `","` from the end of one quoted field to the start of the next changes nothing. */
  lemma ShiftedQuotes(a: string, b: string, c: string)
    ensures Quoted(a + "\",\"" + b) + "," + Quoted(c) == Quoted(a) + "," + Quoted(b + "\",\"" + c)
  {
    var q := "\"";
    var sep := "\",\"";
    assert sep == q + "," + q;
    calc {
      Quoted(a + sep + b) + "," + Quoted(c);
      q + (a + sep + b) + q + "," + (q + c + q);
      q + a + sep + b + sep + c + q;
      q + a + q + "," + (q + (b + sep + c) + q);
    }
  }

  /**
   * Quotes are not escaped: a name holding `","` and an email holding `","`
   * shift the columns, so two different records give the same data line.
   */
  lemma CsvRowsCollide(id: string, a: string, b: string, c: string, course: string, image: string)
    ensures CsvRecord(id, a + "\",\"" + b, c, course, image) != CsvRecord(id, a, b + "\",\"" + c, course, image)
    ensures CsvRow(CsvRecord(id, a + "\",\"" + b, c, course, image)) ==
            CsvRow(CsvRecord(id, a, b + "\",\"" + c, course, image))
  {
    var sep := "\",\"";
    assert |a + sep + b| != |a|;
    CsvRowShape(CsvRecord(id, a + sep + b, c, course, image));
    CsvRowShape(CsvRecord(id, a, b + sep + c, course, image));
    ShiftedQuotes(a, b, c);
  }

  /** A data line with the name and email columns grouped together. */
  lemma CsvRowShape(r: CsvRecord)
    ensures CsvRow(r) == r.id + "," + (Quoted(r.name) + "," + Quoted(r.email)) + "," + Quoted(r.course) + "," + Quoted(r.profileImage)
  {
    var x, y, qc, qi := Quoted(r.name), Quoted(r.email), Quoted(r.course), Quoted(r.profileImage);
    JoinFive(r.id, x, y, qc, qi, ",");
    assert r.id + "," + x + "," + y + "," + qc + "," + qi == r.id + "," + (x + "," + y) + "," + qc + "," + qi;
  }

  // --------------------------------------------- RFC 4180 quoting, corrected

  /** A field quoted as section 2 of RFC 4180 asks: wrapped in quotes, each embedded quote doubled. */
  function EscapedField(field: string): string {
    "\"" + DoubledQuotes(field) + "\""
  }

  function DoubledQuotes(s: string): string {
    if s == [] then [] else (if s[0] == '"' then "\"\"" else [s[0]]) + DoubledQuotes(s[1..])
  }

  /** Reads the body of a quoted field up to its closing quote: the field and what follows the quote. */
  function ReadQuotedBody(s: string): Option<(string, string)>
    decreases |s|
  {
    if s == [] then None
    else if s[0] == '"' then
      if |s| >= 2 && s[1] == '"' then
        match ReadQuotedBody(s[2..]) {
          case None => None
          case Some((f, rest)) => Some(("\"" + f, rest))
        }
      else Some(("", s[1..]))
    else
      match ReadQuotedBody(s[1..]) {
        case None => None
        case Some((f, rest)) => Some(([s[0]] + f, rest))
      }
  }

  lemma {:induction false} ReadQuotedBodyEscaped(field: string, rest: string)
    requires rest == [] || rest[0] != '"'
    ensures ReadQuotedBody(DoubledQuotes(field) + "\"" + rest) == Some((field, rest))
  {
    var s := DoubledQuotes(field) + "\"" + rest;
    if field == [] {
      assert s == "\"" + rest;
      assert s[1..] == rest;
      assert !(|s| >= 2 && s[1] == '"');
    } else {
      var c := field[0];
      var tail := DoubledQuotes(field[1..]) + "\"" + rest;
      ReadQuotedBodyEscaped(field[1..], rest);
      assert field == [c] + field[1..];
      if c == '"' {
        assert DoubledQuotes(field) == "\"\"" + DoubledQuotes(field[1..]);
        assert s == "\"\"" + tail;
        assert s[2..] == tail;
        assert ReadQuotedBody(s) == Some(("\"" + field[1..], rest));
      } else {
        assert DoubledQuotes(field) == [c] + DoubledQuotes(field[1..]);
        assert s == [c] + tail;
        assert s[1..] == tail;
        assert ReadQuotedBody(s) == Some(([c] + field[1..], rest));
      }
    }
  }

  /** Reads a comma-separated line of quoted fields. */
  function ReadFields(s: string): Option<seq<string>>
    decreases |s|
  {
    if s == [] || s[0] != '"' then None
    else match ReadQuotedBody(s[1..]) {
      case None => None
      case Some((f, rest)) =>
        if rest == [] then Some([f])
        else if rest[0] == ',' && |rest| < |s| then
          match ReadFields(rest[1..]) {
            case None => None
            case Some(fs) => Some([f] + fs)
          }
        else None
    }
  }

  /** A line of escaped fields. */
  function EscapedLine(fields: seq<string>): string {
    Join(seq(|fields|, i requires 0 <= i < |fields| => EscapedField(fields[i])), ",")
  }

  /** Every line of escaped fields reads back as those fields, whatever characters they hold. */
  lemma {:induction false} ReadEscapedLine(fields: seq<string>)
    requires fields != []
    ensures ReadFields(EscapedLine(fields)) == Some(fields)
  {
    var escaped := seq(|fields|, i requires 0 <= i < |fields| => EscapedField(fields[i]));
    var line := EscapedLine(fields);
    if |fields| == 1 {
      assert line == escaped[0] == EscapedField(fields[0]);
      ReadQuotedBodyEscaped(fields[0], "");
      assert line[0] == '"';
      assert line[1..] == DoubledQuotes(fields[0]) + "\"" + "";
      assert ReadQuotedBody(line[1..]) == Some((fields[0], ""));
      assert ReadFields(line) == Some([fields[0]]);
      assert fields == [fields[0]];
    } else {
      var restLine := EscapedLine(fields[1..]);
      assert escaped[1..] == seq(|fields| - 1, i requires 0 <= i < |fields| - 1 => EscapedField(fields[1..][i]));
      assert line == escaped[0] + "," + restLine;
      var rest := "," + restLine;
      ReadQuotedBodyEscaped(fields[0], rest);
      assert line[1..] == DoubledQuotes(fields[0]) + "\"" + rest;
      ReadEscapedLine(fields[1..]);
      assert rest[1..] == restLine;
      assert fields == [fields[0]] + fields[1..];
    }
  }

  /** Data lines as intended: every field, the id included, escaped per RFC 4180. */
  function EscapedRow(r: CsvRecord): string {
    EscapedLine([r.id, r.name, r.email, r.course, r.profileImage])
  }

  /** Distinct records give distinct escaped lines: the collision above cannot happen. */
  lemma EscapedRowInjective(a: CsvRecord, b: CsvRecord)
    ensures EscapedRow(a) == EscapedRow(b) <==> a == b
  {
    ReadEscapedLine([a.id, a.name, a.email, a.course, a.profileImage]);
    ReadEscapedLine([b.id, b.name, b.email, b.course, b.profileImage]);
  }

  /** The export as intended: header and escaped rows separated by line breaks. */
  function CorrectedCsvContent(students: seq<Student>, courses: seq<Course>): string {
    Join(CorrectedLines(students, courses), "\n")
  }

  function CorrectedLines(students: seq<Student>, courses: seq<Course>): (lines: seq<string>)
    ensures |lines| == |students| + 1
  {
    [Join(Headers, ",")] + seq(|students|, i requires 0 <= i < |students| => EscapedRow(CsvRecordOf(students[i], courses)))
  }

  /**
   * The corrected export reads back line by line and field by field: line
   * k + 1 holds exactly the fields of student k (when no field holds a line break).
   */
  lemma CorrectedCsvReadsBack(students: seq<Student>, courses: seq<Course>)
    requires FieldsAvoid(students, courses, '\n')
    ensures var lines := Split(CorrectedCsvContent(students, courses), "\n");
            |lines| == |students| + 1 && lines[0] == "ID,Name,Email,Course,Profile Image URL" &&
            forall k :: 0 <= k < |students| ==>
              var r := CsvRecordOf(students[k], courses);
              ReadFields(lines[k + 1]) == Some([r.id, r.name, r.email, r.course, r.profileImage])
  {
    var lines := CorrectedLines(students, courses);
    HeaderLine();
    assert '\n' !in lines[0];
    forall k | 1 <= k < |lines| ensures '\n' !in lines[k] {
      RecordAvoids(students, courses, '\n', k - 1);
      EscapedRowAvoids(CsvRecordOf(students[k - 1], courses), '\n');
    }
    SplitJoin(lines, "\n");
    forall k | 0 <= k < |students|
      ensures var r := CsvRecordOf(students[k], courses);
              ReadFields(lines[k + 1]) == Some([r.id, r.name, r.email, r.course, r.profileImage])
    {
      var r := CsvRecordOf(students[k], courses);
      ReadEscapedLine([r.id, r.name, r.email, r.course, r.profileImage]);
    }
  }

  /** An escaped row holds no character, other than a quote or comma, that its fields lack. */
  lemma EscapedRowAvoids(r: CsvRecord, c: char)
    requires c != '"' && c != ','
    requires c !in r.id && c !in r.name && c !in r.email && c !in r.course && c !in r.profileImage
    ensures c !in EscapedRow(r)
  {
    var fields := [r.id, r.name, r.email, r.course, r.profileImage];
    var escaped := seq(5, i requires 0 <= i < 5 => EscapedField(fields[i]));
    forall i | 0 <= i < 5 ensures c !in escaped[i] {
      DoubledQuotesAvoid(fields[i], c);
    }
    JoinAvoids(escaped, ",", c);
  }

  lemma {:induction false} DoubledQuotesAvoid(s: string, c: char)
    requires c != '"' && c !in s
    ensures c !in DoubledQuotes(s)
  {
    if s != [] {
      DoubledQuotesAvoid(s[1..], c);
    }
  }

  // ------------------------------------------------------------------ JSON

  /** One element of the JSON export: the student's fields, the resolved course and the raw course id. */
  datatype JsonRecord = JsonRecord(id: string, name: string, email: string, course: string, courseId: int, profileImage: string)

  function JsonRecords(students: seq<Student>, courses: seq<Course>): seq<JsonRecord> {
    seq(|students|, i requires 0 <= i < |students| =>
      var s := students[i];
      JsonRecord(s.id, s.name, s.email, CourseLabel(courses, s.courseId, Unknown), s.courseId, s.profileImage))
  }

  /** The student a JSON record describes. */
  function StudentOf(r: JsonRecord): Student {
    Student(r.id, r.name, r.email, r.courseId, r.profileImage)
  }

  /**
   * One JSON record per student, in order; each gives back its student
   * exactly and names the same course as the CSV line for that student.
   */
  lemma JsonRecordsDescribeStudents(students: seq<Student>, courses: seq<Course>)
    ensures |JsonRecords(students, courses)| == |students|
    ensures forall k :: 0 <= k < |students| ==>
              StudentOf(JsonRecords(students, courses)[k]) == students[k] &&
              JsonRecords(students, courses)[k].course == CsvRecordOf(students[k], courses).course
  {
  }
}
