/**
  `calculate_weighted_average`: withdrawals and grades that do not parse as
  numbers are skipped; every other course adds its credit hours to the total
  and grade times credit hours to the weighted sum; the average is the
  weighted sum over the total, or 0 when the total is not positive.
 */
module Aggregation {
  import opened Numbers
  import opened Courses

  /** The triple `(total_credits, weighted_sum, average)`. */
  datatype Totals = Totals(totalCredits: real, weightedSum: real, average: real)

  /** A record takes part in the average: not a withdrawal and a numeric grade. */
  predicate Counts(r: CourseDict)
    ensures Counts(r) ==> r.grade != "TR" && r.grade != "W"
  {
    SentinelsAreNotNumeric();
    r.grade != "W" && IsNumeric(r.grade)
  }

  function CreditsOf(r: CourseDict): real {
    if Counts(r) then r.creditHours else 0.0
  }

  function PointsOf(r: CourseDict): real {
    if Counts(r) then NumericValue(r.grade) * r.creditHours else 0.0
  }

  function SumCredits(rows: seq<CourseDict>): real {
    if rows == [] then 0.0 else SumCredits(rows[..|rows| - 1]) + CreditsOf(rows[|rows| - 1])
  }

  function SumPoints(rows: seq<CourseDict>): real {
    if rows == [] then 0.0 else SumPoints(rows[..|rows| - 1]) + PointsOf(rows[|rows| - 1])
  }

  /** The guarded division. */
  function Average(totalCredits: real, weightedSum: real): (average: real)
    ensures totalCredits > 0.0 ==> average * totalCredits == weightedSum
    ensures totalCredits <= 0.0 ==> average == 0.0
  {
    if totalCredits > 0.0 then weightedSum / totalCredits else 0.0
  }

  /** The totals the program computes for a list of records. */
  function Summary(rows: seq<CourseDict>): (t: Totals)
    ensures t.totalCredits > 0.0 ==> t.average * t.totalCredits == t.weightedSum
    ensures t.totalCredits <= 0.0 ==> t.average == 0.0
  {
    var credits := SumCredits(rows);
    var points := SumPoints(rows);
    Totals(credits, points, Average(credits, points))
  }

  method CalculateWeightedAverage(courses: seq<Course>) returns (totals: Totals)
    ensures totals == Summary(Rows(courses))
  {
    ghost var rows := Rows(courses);
    var totalCredits := 0.0;
    var weightedSum := 0.0;
    for i := 0 to |courses|
      invariant totalCredits == SumCredits(rows[..i])
      invariant weightedSum == SumPoints(rows[..i])
    {
      assert rows[..i + 1] == rows[..i] + [rows[i]];
      SumsSnoc(rows[..i], rows[i]);
      totalCredits, weightedSum := AddShare(courses[i], totalCredits, weightedSum);
    }
    assert rows[..|courses|] == rows;
    var average := if totalCredits > 0.0 then weightedSum / totalCredits else 0.0;
    totals := Totals(totalCredits, weightedSum, average);
  }

  /** The body of the loop: a withdrawal or a non-numeric grade is skipped, any other course adds its shares. */
  method AddShare(course: Course, totalCredits: real, weightedSum: real) returns (credits: real, sum: real)
    ensures credits == totalCredits + CreditsOf(course.ToDict())
    ensures sum == weightedSum + PointsOf(course.ToDict())
  {
    credits, sum := totalCredits, weightedSum;
    if course.grade == "W" {
      return;
    }
    if !IsNumeric(course.grade) {
      return;
    }
    var grade := NumericValue(course.grade);
    CourseShare(course);
    credits := totalCredits + course.creditHours;
    sum := weightedSum + grade * course.creditHours;
  }

  /** A counted course's shares of the two sums, read off its fields. */
  lemma CourseShare(c: Course)
    requires c.grade != "W" && IsNumeric(c.grade)
    ensures CreditsOf(c.ToDict()) == c.creditHours
    ensures PointsOf(c.ToDict()) == NumericValue(c.grade) * c.creditHours
  {
    assert c.ToDict() == CourseDict(c.courseLabel, c.location, c.level, c.title, c.grade, c.creditHours);
  }

  // ---------------------------------------------------------------------
  // Properties of the totals

  /** One more record adds its share to each sum. */
  lemma SumsSnoc(rows: seq<CourseDict>, r: CourseDict)
    ensures SumCredits(rows + [r]) == SumCredits(rows) + CreditsOf(r)
    ensures SumPoints(rows + [r]) == SumPoints(rows) + PointsOf(r)
  {
    assert (rows + [r])[..|rows|] == rows;
  }

  /** The sums over a concatenation are the sums of the parts. */
  lemma {:induction false} SumsAppend(a: seq<CourseDict>, b: seq<CourseDict>)
    ensures SumCredits(a + b) == SumCredits(a) + SumCredits(b)
    ensures SumPoints(a + b) == SumPoints(a) + SumPoints(b)
  {
    if b != [] {
      var b', r := b[..|b| - 1], b[|b| - 1];
      assert b == b' + [r];
      assert a + b == (a + b') + [r];
      SumsAppend(a, b');
      SumsSnoc(a + b', r);
      SumsSnoc(b', r);
    } else {
      assert a + b == a;
    }
  }

  /** A withdrawal or a non-numeric grade adds nothing to either sum. */
  lemma ExcludedRowAddsNothing(rows: seq<CourseDict>, r: CourseDict)
    requires r.grade == "W" || !IsNumeric(r.grade)
    ensures Summary(rows + [r]) == Summary(rows)
  {
    SumsSnoc(rows, r);
  }

  /** A counted record adds its credit hours and its grade times its credit hours. */
  lemma CountedRowAdds(rows: seq<CourseDict>, r: CourseDict)
    requires r.grade != "W" && IsNumeric(r.grade)
    ensures SumCredits(rows + [r]) == SumCredits(rows) + r.creditHours
    ensures SumPoints(rows + [r]) == SumPoints(rows) + NumericValue(r.grade) * r.creditHours
  {
    SumsSnoc(rows, r);
    assert CreditsOf(r) == r.creditHours;
    assert PointsOf(r) == NumericValue(r.grade) * r.creditHours;
  }

  /** With no counted record, in particular for no records or only withdrawals, all three are 0. */
  lemma {:induction false} NothingCountedGivesZero(rows: seq<CourseDict>)
    requires forall i :: 0 <= i < |rows| ==> !Counts(rows[i])
    ensures Summary(rows) == Totals(0.0, 0.0, 0.0)
  {
    if rows != [] {
      var init, r := rows[..|rows| - 1], rows[|rows| - 1];
      assert rows == init + [r];
      SumsSnoc(init, r);
      NothingCountedGivesZero(init);
    }
  }

  /** The empty list and a list of withdrawals both give (0, 0, 0). */
  lemma EmptyAndWithdrawnGiveZero(rows: seq<CourseDict>)
    requires forall i :: 0 <= i < |rows| ==> rows[i].grade == "W"
    ensures Summary([]) == Totals(0.0, 0.0, 0.0)
    ensures Summary(rows) == Totals(0.0, 0.0, 0.0)
  {
    NothingCountedGivesZero(rows);
  }

  /** Two 3-credit courses graded 80 and 90, a transfer credit and a withdrawal: (6, 510, 85). */
  lemma Example()
    ensures Summary(ExampleRows()) == Totals(6.0, 510.0, 85.0)
  {
    ExampleSums();
    assert Average(6.0, 510.0) == 85.0;
  }

  function ExampleRows(): seq<CourseDict> {
    [ CourseDict("CMPT214", "USask - Main Campus", "UG", "Unix", "80", 3.0),
      CourseDict("MATH110", "USask - Main Campus", "UG", "Calculus", "90", 3.0),
      CourseDict("ENG110", "USask - Main Campus", "UG", "Literature", "TR", 3.0),
      CourseDict("HIST115", "USask - Main Campus", "UG", "History", "W", 3.0) ]
  }

  /** The example's credits and weighted sum, one course at a time. */
  lemma ExampleSums()
    ensures SumCredits(ExampleRows()) == 6.0 && SumPoints(ExampleRows()) == 510.0
  {
    var rows := ExampleRows();
    var a, b, c, d := rows[0], rows[1], rows[2], rows[3];
    ExampleGrades();
    SentinelsAreNotNumeric();
    CountedRowAdds([], a);
    assert [] + [a] == [a];
    CountedRowAdds([a], b);
    assert [a] + [b] == [a, b];
    SumsSnoc([a, b], c);
    assert [a, b] + [c] == [a, b, c];
    SumsSnoc([a, b, c], d);
    assert [a, b, c] + [d] == rows;
  }

  /** The grades "80" and "90" of the example parse as 80 and 90. */
  lemma ExampleGrades()
    ensures IsNumeric("80") && NumericValue("80") == 80.0
    ensures IsNumeric("90") && NumericValue("90") == 90.0
  {
    DigitRunValue("80");
    DigitRunValue("90");
    assert DigitsValue("80") == 80.0 by { assert "80"[..1] == "8" && "8"[..0] == ""; }
    assert DigitsValue("90") == 90.0 by { assert "90"[..1] == "9" && "9"[..0] == ""; }
  }
}
