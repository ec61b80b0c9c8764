/** The list-editing helpers of the web client: the class list of the registration form,
    the grade list of the GPA calculator, the meeting-day checkboxes, `parseInt` on the
    credit-hours input, and the school name shown in the header. */
module ClientForms {
  import opened Results
  import opened Records
  import opened Strings
  import Seqs
  import Gpa

  // ----- Positional removal, shared by `removeClass` and `removeGrade` -----

  /** `list.filter((_, i) => i !== index)` */
  function RemoveIndex<T>(s: seq<T>, index: int): (r: seq<T>)
    ensures 0 <= index < |s| ==> r == s[..index] + s[index + 1..]
    ensures !(0 <= index < |s|) ==> r == s
  {
    if s == [] then []
    else
      var n := |s| - 1;
      var r := RemoveIndex(s[..n], index) + (if n != index then [s[n]] else []);
      assert s[..n] + [s[n]] == s;
      assert 0 <= index < n ==> s[..n][..index] == s[..index] && s[..n][index + 1..] + [s[n]] == s[index + 1..];
      r
  }

  // ----- The class list of the registration form -----

  /** The entry `addClass` appends. */
  const EmptyClass: ClassSchedule := ClassSchedule("", "", "", [], "")

  /** `addClass`: one empty class appended at the end. */
  function AddClass(classes: seq<ClassSchedule>): (r: seq<ClassSchedule>)
    ensures |r| == |classes| + 1
    ensures r[..|classes|] == classes && r[|classes|] == EmptyClass
  {
    classes + [EmptyClass]
  }

  /** `removeClass` */
  function RemoveClass(classes: seq<ClassSchedule>, index: int): seq<ClassSchedule> {
    RemoveIndex(classes, index)
  }

  /** The field names the form passes to `updateClass`. */
  datatype ClassField = Subject | Teacher | Period | Room | Days

  /** What the form stores: the text of an input, or the list of checked days. */
  datatype FieldValue = Text(text: string) | DayList(days: seq<string>)

  /** The form passes a list for `days` and text for every other field. */
  predicate Fits(field: ClassField, value: FieldValue) {
    field.Days? <==> value.DayList?
  }

  /** `cls[field]` */
  function FieldOf(c: ClassSchedule, field: ClassField): (v: FieldValue)
    ensures Fits(field, v)
  {
    match field
    case Subject => Text(c.subject)
    case Teacher => Text(c.teacher)
    case Period => Text(c.period)
    case Room => Text(c.room)
    case Days => DayList(c.days)
  }

  /** `cls[field] = value`: the field reads back as `value`, every other field as before. */
  function SetField(c: ClassSchedule, field: ClassField, value: FieldValue): (r: ClassSchedule)
    requires Fits(field, value)
    ensures FieldOf(r, field) == value
    ensures forall f :: f != field ==> FieldOf(r, f) == FieldOf(c, f)
  {
    match field
    case Subject => c.(subject := value.text)
    case Teacher => c.(teacher := value.text)
    case Period => c.(period := value.text)
    case Room => c.(room := value.text)
    case Days => c.(days := value.days)
  }

  /** `updateClass(index, field, value)`: copy the list, then assign into one entry. */
  method UpdateClass(classes: seq<ClassSchedule>, index: nat, field: ClassField, value: FieldValue)
    returns (updated: seq<ClassSchedule>)
    requires index < |classes| && Fits(field, value)
    ensures |updated| == |classes|
    ensures FieldOf(updated[index], field) == value
    ensures forall f :: f != field ==> FieldOf(updated[index], f) == FieldOf(classes[index], f)
    ensures forall i :: 0 <= i < |classes| && i != index ==> updated[i] == classes[i]
  {
    var copy := new ClassSchedule[|classes|](i requires 0 <= i < |classes| => classes[i]);
    copy[index] := SetField(copy[index], field, value);
    updated := copy[..];
  }

  /** Adding a class and removing the last entry gives back the list. */
  lemma RemoveAddedClass(classes: seq<ClassSchedule>)
    ensures RemoveClass(AddClass(classes), |classes|) == classes
  {
  }

  // ----- The meeting-day checkboxes -----

  /** `days.filter(d => d !== day)` */
  function WithoutDay(days: seq<string>, day: string): (r: seq<string>)
    ensures day !in r
    ensures multiset(r) == multiset(days)[day := 0]
  {
    if days == [] then []
    else
      var n := |days| - 1;
      assert days == days[..n] + [days[n]];
      WithoutDay(days[..n], day) + (if days[n] != day then [days[n]] else [])
  }

  /** The checkbox handler: checking appends the day, unchecking removes every occurrence. */
  function ToggleDay(days: seq<string>, day: string, checked: bool): (r: seq<string>)
    ensures checked ==> |r| == |days| + 1 && r[..|days|] == days && r[|days|] == day
    ensures !checked ==> day !in r && multiset(r) == multiset(days)[day := 0]
  {
    if checked then days + [day] else WithoutDay(days, day)
  }

  lemma {:induction false} WithoutAbsentDay(days: seq<string>, day: string)
    requires day !in days
    ensures WithoutDay(days, day) == days
  {
    if days != [] {
      var n := |days| - 1;
      var init := days[..n];
      assert days == init + [days[n]];
      assert days[n] != day && day !in init;
      assert WithoutDay(days, day) == WithoutDay(init, day) + [days[n]];
      WithoutAbsentDay(init, day);
    }
  }

  /** Checking a day that is not listed and unchecking it again gives back the list. */
  lemma CheckThenUncheck(days: seq<string>, day: string)
    requires day !in days
    ensures ToggleDay(ToggleDay(days, day, true), day, false) == days
  {
    var checked := days + [day];
    assert checked[..|days|] == days;
    WithoutAbsentDay(days, day);
  }

  /** Unchecking keeps the other days in their order: it distributes over concatenation. */
  lemma {:induction false} WithoutDayAppend(a: seq<string>, b: seq<string>, day: string)
    ensures WithoutDay(a + b, day) == WithoutDay(a, day) + WithoutDay(b, day)
  {
    if b != [] {
      var n := |b| - 1;
      assert (a + b)[..|a + b| - 1] == a + b[..n];
      WithoutDayAppend(a, b[..n], day);
    } else {
      assert a + b == a;
    }
  }

  // ----- The grade list of the GPA calculator -----

  /** A grade row; `creditHours` is `None` where `parseInt` gave `NaN`. */
  datatype Grade = Grade(letter: string, creditHours: Option<int>)

  /** The row `addGrade` appends. */
  const NewGrade: Grade := Grade("A", Some(3))

  /** `addGrade` */
  function AddGrade(grades: seq<Grade>): (r: seq<Grade>)
    ensures |r| == |grades| + 1
    ensures r[..|grades|] == grades && r[|grades|] == NewGrade
  {
    grades + [NewGrade]
  }

  /** `removeGrade` */
  function RemoveGrade(grades: seq<Grade>, index: int): seq<Grade> {
    RemoveIndex(grades, index)
  }

  datatype GradeField = Letter | CreditHours

  predicate IsSpace(ch: char) {
    ch == ' ' || ch == '\t' || ch == '\n' || ch == '\r' || ch == '\U{B}' || ch == '\U{C}'
  }

  /** Leading white space removed. */
  function TrimStart(s: string): (r: string)
    ensures |r| <= |s| && r == s[|s| - |r|..]
    ensures forall i :: 0 <= i < |s| - |r| ==> IsSpace(s[i])
    ensures r != [] ==> !IsSpace(r[0])
  {
    if s != [] && IsSpace(s[0]) then TrimStart(s[1..]) else s
  }

  /** The longest prefix of decimal digits. */
  function DigitPrefix(s: string): (r: string)
    ensures AllDigits(r) && |r| <= |s| && r == s[..|r|]
    ensures |r| < |s| ==> !IsDigit(s[|r|])
  {
    if s != [] && IsDigit(s[0]) then [s[0]] + DigitPrefix(s[1..]) else []
  }

  /** JavaScript's `parseInt(value)` on decimal text: skip leading white space, read an
      optional sign and then digits up to the first non-digit; `None` is `NaN`. */
  function ParseInt(s: string): (r: Option<int>)
    ensures r.None? <==> var t := TrimStart(s); DigitPrefix(if t != [] && (t[0] == '-' || t[0] == '+') then t[1..] else t) == []
  {
    var t := TrimStart(s);
    var negative := t != [] && t[0] == '-';
    var unsigned := if t != [] && (t[0] == '-' || t[0] == '+') then t[1..] else t;
    var digits := DigitPrefix(unsigned);
    if digits == [] then None
    else
      var magnitude: int := DecValue(digits);
      Some(if negative then -magnitude else magnitude)
  }

  lemma {:induction false} DigitPrefixOf(digits: string, rest: string)
    requires AllDigits(digits)
    requires rest == [] || !IsDigit(rest[0])
    ensures DigitPrefix(digits + rest) == digits
  {
    if digits != [] {
      assert (digits + rest)[1..] == digits[1..] + rest;
      DigitPrefixOf(digits[1..], rest);
      assert [digits[0]] + digits[1..] == digits;
    } else {
      assert digits + rest == rest;
    }
  }

  /** `parseInt` reads a numeral back to its number and ignores whatever follows the
      digits (as in "3.5" or "4 hours"). */
  lemma ParseIntReadsNumeral(n: nat, rest: string)
    requires rest == [] || !IsDigit(rest[0])
    ensures ParseInt(Dec(n) + rest) == Some(n)
  {
    DecValueOfDec(n);
    DigitPrefixOf(Dec(n), rest);
    var s := Dec(n) + rest;
    assert s[0] == Dec(n)[0] && IsDigit(s[0]);
    assert TrimStart(s) == s;
    assert s[0] != '-' && s[0] != '+';
    assert DigitPrefix(s) == Dec(n);
  }

  /** With a leading minus sign, `parseInt` reads the negated number. */
  lemma ParseIntReadsNegative(n: nat, rest: string)
    requires rest == [] || !IsDigit(rest[0])
    ensures ParseInt("-" + (Dec(n) + rest)) == Some(-(n as int))
  {
    var digits := Dec(n);
    DecValueOfDec(n);
    DigitPrefixOf(digits, rest);
    var s := digits + rest;
    var m := "-" + s;
    assert m[0] == '-' && m[1..] == s;
    NoLeadingSpace(m);
    assert DigitPrefix(m[1..]) == digits != [];
    assert DecValue(digits) == n;
  }

  lemma NoLeadingSpace(s: string)
    requires s != [] && !IsSpace(s[0])
    ensures TrimStart(s) == s
  {
  }

  /** An input holding only white space, such as a cleared one, is `NaN`. */
  lemma BlankInputIsNaN(s: string)
    requires forall i :: 0 <= i < |s| ==> IsSpace(s[i])
    ensures ParseInt(s) == None
  {
  }

  /** `updated[index][field] = field === 'credit_hours' ? parseInt(value) : value` */
  function SetGradeField(g: Grade, field: GradeField, value: string): (r: Grade)
    ensures field.Letter? ==> r.letter == value && r.creditHours == g.creditHours
    ensures field.CreditHours? ==> r.letter == g.letter && r.creditHours == ParseInt(value)
  {
    match field
    case Letter => g.(letter := value)
    case CreditHours => g.(creditHours := ParseInt(value))
  }

  /** `updateGrade(index, field, value)`: copy the list, then assign into one row. */
  method UpdateGrade(grades: seq<Grade>, index: nat, field: GradeField, value: string)
    returns (updated: seq<Grade>)
    requires index < |grades|
    ensures |updated| == |grades|
    ensures updated[index] == SetGradeField(grades[index], field, value)
    ensures forall i :: 0 <= i < |grades| && i != index ==> updated[i] == grades[i]
  {
    var copy := new Grade[|grades|](i requires 0 <= i < |grades| => grades[i]);
    copy[index] := SetGradeField(copy[index], field, value);
    updated := copy[..];
  }

  /** Typing a numeral into the credit-hours input stores that number. */
  lemma TypedHoursStored(g: Grade, n: nat)
    ensures SetGradeField(g, CreditHours, Dec(n)).creditHours == Some(n)
  {
    ParseIntReadsNumeral(n, "");
    assert Dec(n) + "" == Dec(n);
  }

  /** Adding a grade and removing the last row gives back the list. */
  lemma RemoveAddedGrade(grades: seq<Grade>)
    ensures RemoveGrade(AddGrade(grades), |grades|) == grades
  {
  }

  /** The JSON body `calculateGPA` sends for one row: `NaN` is serialised as `null`. */
  function GradeRequest(g: Grade): Gpa.GradeEntry {
    Gpa.GradeEntry(Some(g.letter), if g.creditHours.None? then Gpa.Null else Gpa.Hours(g.creditHours.value))
  }

  function GradeRequests(grades: seq<Grade>): (r: seq<Gpa.GradeEntry>)
    ensures |r| == |grades|
    ensures forall i :: 0 <= i < |grades| ==> r[i] == GradeRequest(grades[i])
  {
    seq(|grades|, i requires 0 <= i < |grades| => GradeRequest(grades[i]))
  }

  /** A row whose credit hours were cleared makes the whole calculation a server error. */
  lemma ClearedHoursFailCalculation(grades: seq<Grade>, i: nat)
    requires i < |grades| && grades[i].creditHours.None?
    ensures Gpa.Gpa(GradeRequests(grades)).Err?
  {
    assert !Gpa.WellFormed(GradeRequests(grades)[i]);
  }

  /** A list built by `addGrade` alone averages to an A. */
  lemma AddedGradesAverageA(grades: seq<Grade>)
    requires grades != [] && forall i :: 0 <= i < |grades| ==> grades[i] == NewGrade
    ensures Gpa.Gpa(GradeRequests(grades)) == Ok(4.0)
  {
    var req := GradeRequests(grades);
    HoursOfNewGrades(req);
    Gpa.UniformLetterGpa(req, "A");
  }

  lemma {:induction false} HoursOfNewGrades(req: seq<Gpa.GradeEntry>)
    requires forall i :: 0 <= i < |req| ==> req[i] == GradeRequest(NewGrade)
    ensures Gpa.AllWellFormed(req)
    ensures Gpa.TotalHours(req) == 3 * |req|
  {
    if req != [] {
      HoursOfNewGrades(req[..|req| - 1]);
    }
  }

  // ----- The school name in the header -----

  datatype School = School(id: string, name: string)

  /** The reply of `GET /api/schools`. */
  datatype SchoolDirectory = SchoolDirectory(highSchools: seq<School>, colleges: seq<School>)

  /** High schools for `school_type === 'high_school'`, colleges for anything else. */
  function SchoolList(directory: SchoolDirectory, schoolType: string): seq<School> {
    if schoolType == "high_school" then directory.highSchools else directory.colleges
  }

  /** `getCurrentSchoolName`: "" without a user; else the name of the first school of the
      user's list with the user's school id, or the school id itself when none has it. */
  function CurrentSchoolName(user: Option<User>, directory: SchoolDirectory): (r: string)
    ensures user.None? ==> r == ""
    ensures user.Some? && (forall j :: 0 <= j < |SchoolList(directory, user.value.schoolType)| ==>
                             SchoolList(directory, user.value.schoolType)[j].id != user.value.schoolId)
            ==> r == user.value.schoolId
    ensures user.Some? ==>
              forall k ::
                0 <= k < |SchoolList(directory, user.value.schoolType)|
                && SchoolList(directory, user.value.schoolType)[k].id == user.value.schoolId
                && (forall j :: 0 <= j < k ==> SchoolList(directory, user.value.schoolType)[j].id != user.value.schoolId)
                ==> r == SchoolList(directory, user.value.schoolType)[k].name
  {
    match user
    case None => ""
    case Some(u) =>
      var schools := SchoolList(directory, u.schoolType);
      match Seqs.FirstMatch(schools, (s: School) => s.id == u.schoolId)
      case None => u.schoolId
      case Some(k) => schools[k].name
  }
}
