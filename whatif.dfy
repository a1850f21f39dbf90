/**
  `check_updated_average`: the user types `label, grade`; every course with
  that label is replaced by a copy carrying the new grade, the others are
  kept, and the totals of the new list are computed. The prompt and the
  printing are not part of this model: the typed line is a parameter and
  what would be printed is the outcome.
 */
module WhatIf {
  import opened Text
  import opened Courses
  import opened Aggregation

  /** What `check_updated_average` ends with. */
  datatype UpdateOutcome =
    | Skipped                           // the stripped input is empty
    | InvalidFormat                     // not exactly two comma-separated parts
    | NotFound(courseLabel: string)     // no course has the label
    | Recomputed(totals: Totals)        // the totals of the updated list

  /** The records once every course labelled `l` has grade `g`. */
  function Regraded(rows: seq<CourseDict>, l: string, g: string): (r: seq<CourseDict>)
    ensures |r| == |rows|
    ensures forall i :: 0 <= i < |rows| && rows[i].courseLabel == l ==> r[i] == rows[i].(grade := g)
    ensures forall i :: 0 <= i < |rows| && rows[i].courseLabel != l ==> r[i] == rows[i]
  {
    if rows == [] then []
    else
      var last := rows[|rows| - 1];
      Regraded(rows[..|rows| - 1], l, g) + [if last.courseLabel == l then last.(grade := g) else last]
  }

  /**
    The loop of `check_updated_average`: a new course object for each course
    with the label, the same object for every other one, and whether the
    label was seen.
   */
  method RegradeAll(courses: seq<Course>, l: string, g: string) returns (updated: seq<Course>, found: bool)
    ensures Rows(updated) == Regraded(Rows(courses), l, g)
    ensures found <==> l in Labels(courses)
    ensures |updated| == |courses|
    ensures forall i :: 0 <= i < |courses| && courses[i].courseLabel != l ==> updated[i] == courses[i]
    ensures forall i :: 0 <= i < |courses| && courses[i].courseLabel == l ==> fresh(updated[i])
  {
    updated := [];
    found := false;
    for i := 0 to |courses|
      invariant |updated| == i
      invariant forall k :: 0 <= k < i && courses[k].courseLabel == l ==> updated[k].ToDict() == courses[k].ToDict().(grade := g)
      invariant forall k :: 0 <= k < i && courses[k].courseLabel != l ==> updated[k] == courses[k]
      invariant forall k :: 0 <= k < i && courses[k].courseLabel == l ==> fresh(updated[k])
      invariant found <==> exists k :: 0 <= k < i && courses[k].courseLabel == l
    {
      var course := courses[i];
      if course.courseLabel == l {
        var copy := RegradedCopy(course, g);
        updated := updated + [copy];
        found := true;
      } else {
        updated := updated + [course];
      }
    }
    RowsEqual(updated, Regraded(Rows(courses), l, g));
    assert found <==> l in Labels(courses) by {
      if l in Labels(courses) {
        var k :| 0 <= k < |courses| && Labels(courses)[k] == l;
        assert courses[k].courseLabel == l;
      }
    }
  }

  /** `Course(label=c.label, ..., grade=g, ...)`: a new course equal to `c` but for its grade. */
  method RegradedCopy(c: Course, g: string) returns (copy: Course)
    ensures fresh(copy)
    ensures copy.ToDict() == c.ToDict().(grade := g)
  {
    copy := new Course(c.courseLabel, c.location, c.level, c.title, g, c.creditHours);
  }

  /** The outcome of `check_updated_average` on the records `rows` and the typed line `userInput`. */
  function UpdatedAverage(rows: seq<CourseDict>, userInput: string): (outcome: UpdateOutcome)
    ensures outcome == Skipped <==> AllSpace(userInput)
    ensures outcome.NotFound? ==> outcome.courseLabel !in RowLabels(rows)
    ensures outcome.Recomputed? ==> |Fields(Strip(userInput), ',')| == 2
  {
    var input := Strip(userInput);
    if input == [] then Skipped
    else
      var parts := Fields(input, ',');
      if |parts| != 2 then InvalidFormat
      else if parts[0] !in RowLabels(rows) then NotFound(parts[0])
      else Recomputed(Summary(Regraded(rows, parts[0], parts[1])))
  }

  /** `check_updated_average(courses)` given the typed line; the input courses are left as they are. */
  method CheckUpdatedAverage(courses: seq<Course>, userInput: string) returns (outcome: UpdateOutcome)
    ensures outcome == UpdatedAverage(Rows(courses), userInput)
  {
    var input := Strip(userInput);
    if input == [] {
      return Skipped;
    }
    var parts := Fields(input, ',');
    if |parts| != 2 {
      return InvalidFormat;
    }
    var l, g := parts[0], parts[1];
    var updated, found := RegradeAll(courses, l, g);
    RowLabelsOfRows(courses);
    if !found {
      return NotFound(l);
    }
    var totals := CalculateWeightedAverage(updated);
    outcome := Recomputed(totals);
  }

  // ---------------------------------------------------------------------
  // Properties of the update

  /** A label no course has changes nothing. */
  lemma RegradedAbsent(rows: seq<CourseDict>, l: string, g: string)
    requires l !in RowLabels(rows)
    ensures Regraded(rows, l, g) == rows
  {
    forall i | 0 <= i < |rows| ensures Regraded(rows, l, g)[i] == rows[i] {
      assert RowLabels(rows)[i] == rows[i].courseLabel;
    }
  }

  /** The labels, and so the order of the courses, stay as they were. */
  lemma RegradedLabels(rows: seq<CourseDict>, l: string, g: string)
    ensures RowLabels(Regraded(rows, l, g)) == RowLabels(rows)
  {
    var r := Regraded(rows, l, g);
    forall i | 0 <= i < |rows| ensures RowLabels(r)[i] == RowLabels(rows)[i] {
      assert r[i].courseLabel == rows[i].courseLabel;
    }
  }

  /** Applying the same update twice is applying it once. */
  lemma RegradedIdempotent(rows: seq<CourseDict>, l: string, g: string)
    ensures Regraded(Regraded(rows, l, g), l, g) == Regraded(rows, l, g)
  {
    var once := Regraded(rows, l, g);
    var twice := Regraded(once, l, g);
    forall i | 0 <= i < |rows| ensures twice[i] == once[i] {
      assert once[i].courseLabel == rows[i].courseLabel;
    }
  }

  /** A second update of the same label overrides the first. */
  lemma RegradedTwice(rows: seq<CourseDict>, l: string, g: string, h: string)
    ensures Regraded(Regraded(rows, l, g), l, h) == Regraded(rows, l, h)
  {
    var once := Regraded(rows, l, g);
    var twice := Regraded(once, l, h);
    forall i | 0 <= i < |rows| ensures twice[i] == Regraded(rows, l, h)[i] {
      assert once[i].courseLabel == rows[i].courseLabel;
    }
  }

  /** Only a line of exactly two comma-separated parts naming a present label is recomputed. */
  lemma RecomputedIff(rows: seq<CourseDict>, userInput: string)
    ensures UpdatedAverage(rows, userInput).Recomputed? <==>
      var parts := Fields(Strip(userInput), ',');
      Strip(userInput) != [] && |parts| == 2 && parts[0] in RowLabels(rows)
  {
  }
}
