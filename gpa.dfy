/** `POST /api/gpa-calculator`: the credit-weighted mean of the letter grades' points.
    Exact rational arithmetic stands for Python floats; the final `round(gpa, 2)` is not modelled. */
module Gpa {
  import opened Results

  /** The `credit_hours` key of a grade: missing, JSON `null`, or a whole number. */
  datatype CreditHours = Absent | Null | Hours(n: int)

  /** One grade of the request; `letter` is `None` when the key is missing. */
  datatype GradeEntry = GradeEntry(letter: Option<string>, creditHours: CreditHours)

  /** The `grade_points` table; any other letter earns 0. */
  function Points(letter: string): (p: real)
    ensures 0.0 <= p <= 4.0
    ensures letter == "A" ==> p == 4.0
    ensures letter == "B" ==> p == 3.0
    ensures letter == "C" ==> p == 2.0
    ensures letter == "D" ==> p == 1.0
    ensures letter == "F" ==> p == 0.0
    ensures letter !in ["A", "B", "C", "D", "F"] ==> p == 0.0
  {
    if letter == "A" then 4.0
    else if letter == "B" then 3.0
    else if letter == "C" then 2.0
    else if letter == "D" then 1.0
    else 0.0
  }

  /** `grade.get("credit_hours", 3)` for a grade whose hours are not `null`. */
  function HoursOf(h: CreditHours): int
    requires !h.Null?
  {
    if h.Absent? then 3 else h.n
  }

  /** A grade the loop can process: `grade["letter"]` exists and `points * hours` is defined. */
  predicate WellFormed(g: GradeEntry) {
    g.letter.Some? && !g.creditHours.Null?
  }

  predicate AllWellFormed(grades: seq<GradeEntry>) {
    forall i :: 0 <= i < |grades| ==> WellFormed(grades[i])
  }

  /** `total_points`: the sum of points times hours. */
  function TotalPoints(grades: seq<GradeEntry>): real
    requires AllWellFormed(grades)
  {
    if grades == [] then 0.0
    else
      var g := grades[|grades| - 1];
      TotalPoints(grades[..|grades| - 1]) + Points(g.letter.value) * HoursOf(g.creditHours) as real
  }

  /** `total_hours`: the sum of hours. */
  function TotalHours(grades: seq<GradeEntry>): int
    requires AllWellFormed(grades)
  {
    if grades == [] then 0
    else TotalHours(grades[..|grades| - 1]) + HoursOf(grades[|grades| - 1].creditHours)
  }

  /** The reply: a 500 when some grade lacks a letter or has `null` hours, else the
      weighted mean, or 0 when the hours do not add up to a positive total. */
  function Gpa(grades: seq<GradeEntry>): (r: Result<real>)
    ensures r.Err? <==> exists i :: 0 <= i < |grades| && !WellFormed(grades[i])
    ensures r.Err? ==> r.error == ServerError
  {
    if AllWellFormed(grades) then
      var hours := TotalHours(grades);
      Ok(if hours > 0 then TotalPoints(grades) / hours as real else 0.0)
    else
      Err(ServerError)
  }

  /** The handler's loop, accumulating points and hours grade by grade. */
  method CalculateGpa(grades: seq<GradeEntry>) returns (r: Result<real>)
    ensures r == Gpa(grades)
  {
    var totalPoints := 0.0;
    var totalHours := 0;
    var i := 0;
    while i < |grades|
      invariant 0 <= i <= |grades|
      invariant AllWellFormed(grades[..i])
      invariant totalPoints == TotalPoints(grades[..i])
      invariant totalHours == TotalHours(grades[..i])
    {
      var grade := grades[i];
      if grade.letter.None? || grade.creditHours.Null? {
        return Err(ServerError);
      }
      var points := Points(grade.letter.value);
      var hours := HoursOf(grade.creditHours);
      assert grades[..i + 1][..i] == grades[..i];
      totalPoints := totalPoints + points * hours as real;
      totalHours := totalHours + hours;
      i := i + 1;
    }
    assert grades[..i] == grades;
    r := Ok(if totalHours > 0 then totalPoints / totalHours as real else 0.0);
  }

  predicate NoNegativeHours(grades: seq<GradeEntry>) {
    forall i :: 0 <= i < |grades| && grades[i].creditHours.Hours? ==> grades[i].creditHours.n >= 0
  }

  lemma {:induction false} PointsWithinHours(grades: seq<GradeEntry>)
    requires AllWellFormed(grades) && NoNegativeHours(grades)
    ensures TotalHours(grades) >= 0
    ensures 0.0 <= TotalPoints(grades) <= 4.0 * TotalHours(grades) as real
  {
    if grades != [] {
      var prefix := grades[..|grades| - 1];
      var g := grades[|grades| - 1];
      assert AllWellFormed(prefix) && NoNegativeHours(prefix);
      PointsWithinHours(prefix);
      var p, h := Points(g.letter.value), HoursOf(g.creditHours) as real;
      assert h >= 0.0;
      assert 0.0 <= p * h <= 4.0 * h;
    }
  }

  /** With no negative hours, a well-formed request yields a GPA between 0 and 4. */
  lemma GpaInRange(grades: seq<GradeEntry>)
    requires AllWellFormed(grades) && NoNegativeHours(grades)
    ensures Gpa(grades).Ok?
    ensures 0.0 <= Gpa(grades).value <= 4.0
  {
    PointsWithinHours(grades);
    var h := TotalHours(grades);
    if h > 0 {
      QuotientInRange(TotalPoints(grades), h as real);
    }
  }

  lemma QuotientInRange(p: real, h: real)
    requires h > 0.0 && 0.0 <= p <= 4.0 * h
    ensures 0.0 <= p / h <= 4.0
  {
    var q := p / h;
    assert q * h == p;
    assert (4.0 - q) * h == 4.0 * h - p;
  }

  /** The guard on the division: when the hours do not add up to a positive total, as for
      an empty request or one with only zero-hour grades, the GPA is 0. */
  lemma ZeroHoursGpa(grades: seq<GradeEntry>)
    requires AllWellFormed(grades) && TotalHours(grades) <= 0
    ensures Gpa(grades) == Ok(0.0)
  {
  }

  /** Negative hours are not rejected, and then the result can leave [0, 4]. */
  lemma NegativeHoursLeaveRange()
    ensures Gpa([GradeEntry(Some("A"), Hours(5)), GradeEntry(Some("F"), Hours(-4))]) == Ok(20.0)
  {
    var grades := [GradeEntry(Some("A"), Hours(5)), GradeEntry(Some("F"), Hours(-4))];
    assert grades[..1] == [grades[0]];
    assert grades[..1][..0] == [];
    assert TotalHours(grades) == 1;
    assert TotalPoints(grades) == 20.0;
  }

  lemma {:induction false} UniformPoints(grades: seq<GradeEntry>, letter: string)
    requires AllWellFormed(grades)
    requires forall i :: 0 <= i < |grades| ==> grades[i].letter == Some(letter)
    ensures TotalPoints(grades) == Points(letter) * TotalHours(grades) as real
  {
    if grades != [] {
      var prefix := grades[..|grades| - 1];
      assert AllWellFormed(prefix);
      UniformPoints(prefix, letter);
    }
  }

  /** When every grade has the same letter and the hours are positive in total, the GPA
      is that letter's points. */
  lemma UniformLetterGpa(grades: seq<GradeEntry>, letter: string)
    requires AllWellFormed(grades) && TotalHours(grades) > 0
    requires forall i :: 0 <= i < |grades| ==> grades[i].letter == Some(letter)
    ensures Gpa(grades) == Ok(Points(letter))
  {
    UniformPoints(grades, letter);
    CancelFactor(Points(letter), TotalHours(grades) as real);
  }

  lemma CancelFactor(a: real, h: real)
    requires h > 0.0
    ensures a * h / h == a
  {
  }

  lemma {:induction false} AbsentCountsThreeTotals(grades: seq<GradeEntry>, i: nat)
    requires i < |grades| && AllWellFormed(grades) && grades[i].creditHours.Absent?
    ensures AllWellFormed(grades[i := grades[i].(creditHours := Hours(3))])
    ensures TotalHours(grades[i := grades[i].(creditHours := Hours(3))]) == TotalHours(grades)
    ensures TotalPoints(grades[i := grades[i].(creditHours := Hours(3))]) == TotalPoints(grades)
  {
    var grades' := grades[i := grades[i].(creditHours := Hours(3))];
    var n := |grades|;
    if i < n - 1 {
      assert grades'[..n - 1] == grades[..n - 1][i := grades[i].(creditHours := Hours(3))];
      AbsentCountsThreeTotals(grades[..n - 1], i);
    } else {
      assert grades'[..n - 1] == grades[..n - 1];
    }
  }

  /** A grade without `credit_hours` counts exactly as one with 3 hours. */
  lemma AbsentCountsThree(grades: seq<GradeEntry>, i: nat)
    requires i < |grades| && grades[i].creditHours.Absent?
    ensures Gpa(grades[i := grades[i].(creditHours := Hours(3))]) == Gpa(grades)
  {
    var grades' := grades[i := grades[i].(creditHours := Hours(3))];
    if AllWellFormed(grades) {
      AbsentCountsThreeTotals(grades, i);
    } else {
      var k :| 0 <= k < |grades| && !WellFormed(grades[k]);
      assert !WellFormed(grades'[k]);
    }
  }
}
