/**
  The `Course` record of courses.py: a mutable dataclass with six fields,
  getters and setters, the pass test `is_passed` and the dictionary view
  `to_dict` that `Course(**d)` turns back into a course.
 */
module Courses {
  import opened Numbers

  /** The dict `to_dict()` returns: one entry per dataclass field. */
  datatype CourseDict = CourseDict(
    courseLabel: string,
    location: string,
    level: string,
    title: string,
    grade: string,
    creditHours: real)

  /** The default of `is_passed`'s `passing_grade`. */
  const DefaultPassingGrade: real := 50.0

  class Course {
    var courseLabel: string
    var location: string
    var level: string
    var title: string
    var grade: string        // a number as text, or "TR" (transfer) or "W" (withdrawal)
    var creditHours: real

    /** The dataclass constructor; `Course(**d)` is this constructor applied to `d`'s entries. */
    constructor (courseLabel: string, location: string, level: string, title: string, grade: string, creditHours: real)
      ensures ToDict() == CourseDict(courseLabel, location, level, title, grade, creditHours)
    {
      this.courseLabel := courseLabel;
      this.location := location;
      this.level := level;
      this.title := title;
      this.grade := grade;
      this.creditHours := creditHours;
    }

    /** `to_dict()`: the six fields under their own names. */
    function ToDict(): (d: CourseDict)
      reads this
      ensures d.courseLabel == courseLabel && d.location == location && d.level == level
      ensures d.title == title && d.grade == grade && d.creditHours == creditHours
    {
      CourseDict(courseLabel, location, level, title, grade, creditHours)
    }

    function GetLabel(): (r: string)
      reads this
      ensures r == ToDict().courseLabel
    {
      courseLabel
    }

    function GetLocation(): (r: string)
      reads this
      ensures r == ToDict().location
    {
      location
    }

    function GetLevel(): (r: string)
      reads this
      ensures r == ToDict().level
    {
      level
    }

    function GetTitle(): (r: string)
      reads this
      ensures r == ToDict().title
    {
      title
    }

    function GetGrade(): (r: string)
      reads this
      ensures r == ToDict().grade
    {
      grade
    }

    function GetCreditHours(): (r: real)
      reads this
      ensures r == ToDict().creditHours
    {
      creditHours
    }

    method SetLabel(courseLabel: string)
      modifies this
      ensures ToDict() == old(ToDict()).(courseLabel := courseLabel)
    {
      this.courseLabel := courseLabel;
    }

    method SetLocation(location: string)
      modifies this
      ensures ToDict() == old(ToDict()).(location := location)
    {
      this.location := location;
    }

    method SetLevel(level: string)
      modifies this
      ensures ToDict() == old(ToDict()).(level := level)
    {
      this.level := level;
    }

    method SetTitle(title: string)
      modifies this
      ensures ToDict() == old(ToDict()).(title := title)
    {
      this.title := title;
    }

    method SetGrade(grade: string)
      modifies this
      ensures ToDict() == old(ToDict()).(grade := grade)
    {
      this.grade := grade;
    }

    method SetCreditHours(creditHours: real)
      modifies this
      ensures ToDict() == old(ToDict()).(creditHours := creditHours)
    {
      this.creditHours := creditHours;
    }

    /**
      `is_passed(passing_grade)`: transfer credit and withdrawal never fail,
      a numeric grade passes when it reaches the threshold (inclusive), and
      any other grade fails.
     */
    function IsPassed(passingGrade: real := DefaultPassingGrade): (r: bool)
      reads this
      ensures grade == "TR" || grade == "W" ==> r
      ensures grade != "TR" && grade != "W" && IsNumeric(grade) ==> (r <==> NumericValue(grade) >= passingGrade)
      ensures grade != "TR" && grade != "W" && !IsNumeric(grade) ==> !r
    {
      if grade == "TR" || grade == "W" then true
      else if IsNumeric(grade) then NumericValue(grade) >= passingGrade
      else false
    }
  }

  /** Lowering the threshold never turns a pass into a fail. */
  lemma IsPassedMonotonic(c: Course, threshold: real, lower: real)
    requires lower <= threshold && c.IsPassed(threshold)
    ensures c.IsPassed(lower)
  {
  }

  /** With no threshold given, a numeric grade passes exactly when it is at least 50. */
  lemma IsPassedDefault(c: Course)
    requires c.grade != "TR" && c.grade != "W" && IsNumeric(c.grade)
    ensures c.IsPassed() <==> NumericValue(c.grade) >= 50.0
  {
  }

  /** A course graded 92 passes at the default threshold, and one graded 45 fails it. */
  lemma IsPassedExample(c: Course)
    ensures c.grade == "92" ==> c.IsPassed()
    ensures c.grade == "45" ==> !c.IsPassed()
  {
    DigitRunValue("92");
    DigitRunValue("45");
    assert DigitsValue("92") == 92.0 by { assert "92"[..1] == "9" && "9"[..0] == ""; }
    assert DigitsValue("45") == 45.0 by { assert "45"[..1] == "4" && "4"[..0] == ""; }
  }

  /** `Course(**c.to_dict())`: a new object equal to `c` field for field. */
  method Clone(c: Course) returns (copy: Course)
    ensures fresh(copy)
    ensures copy.ToDict() == c.ToDict()
  {
    var d := c.ToDict();
    copy := new Course(d.courseLabel, d.location, d.level, d.title, d.grade, d.creditHours);
  }

  /** No course object appears twice in the list. */
  predicate DistinctObjects(cs: seq<Course>) {
    forall i, j :: 0 <= i < j < |cs| ==> cs[i] != cs[j]
  }

  /** The field values of a list of courses. */
  function Rows(cs: seq<Course>): (rows: seq<CourseDict>)
    reads cs
    ensures |rows| == |cs|
    ensures forall i :: 0 <= i < |cs| ==> rows[i] == cs[i].ToDict()
  {
    seq(|cs|, i requires 0 <= i < |cs| reads cs => cs[i].ToDict())
  }

  /** The labels of a list of courses. */
  function Labels(cs: seq<Course>): (labels: seq<string>)
    reads cs
    ensures |labels| == |cs|
    ensures forall i :: 0 <= i < |cs| ==> labels[i] == cs[i].courseLabel
  {
    seq(|cs|, i requires 0 <= i < |cs| reads cs => cs[i].courseLabel)
  }

  /** The labels of a list of records. */
  function RowLabels(rows: seq<CourseDict>): (labels: seq<string>)
    ensures |labels| == |rows|
    ensures forall i :: 0 <= i < |rows| ==> labels[i] == rows[i].courseLabel
  {
    seq(|rows|, i requires 0 <= i < |rows| => rows[i].courseLabel)
  }

  /** One more course adds its record and its label at the end. */
  lemma RowsSnoc(cs: seq<Course>, c: Course)
    ensures Rows(cs + [c]) == Rows(cs) + [c.ToDict()]
    ensures Labels(cs + [c]) == Labels(cs) + [c.courseLabel]
  {
  }

  /** Courses whose records are `rows`, one by one, have `rows` as their records. */
  lemma RowsEqual(cs: seq<Course>, rows: seq<CourseDict>)
    requires |cs| == |rows|
    requires forall k :: 0 <= k < |cs| ==> cs[k].ToDict() == rows[k]
    ensures Rows(cs) == rows
  {
  }

  lemma RowLabelsOfRows(cs: seq<Course>)
    ensures RowLabels(Rows(cs)) == Labels(cs)
  {
  }
}
