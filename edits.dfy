/**
  What each editing action of the main window does to the list of course
  records, and what the user is shown: the grade edit (`edit_grade`), the
  added course (`add_course`) and the deletion (`delete_course`), stated on
  records. The window's methods are proved against these functions.
 */
module Edits {
  import opened Text
  import opened Numbers
  import opened Dicts
  import opened Courses
  import opened Aggregation
  import opened WhatIf

  datatype Option<T> = None | Some(value: T)

  /** How an action ends. */
  datatype Outcome =
    | Changed     // the list of courses was changed
    | Ignored     // the action returned without a word: a cancelled dialog, an empty entry, an unknown label
    | Rejected    // a message box was shown and nothing changed

  /** The location, level and title of a course added by hand. */
  const TemporaryEstimate := "Temporary Estimate"

  // ---------------------------------------------------------------------
  // edit_grade

  /** The records once the first course labelled `l`, if any, has grade `g`. */
  function WithFirstGrade(rows: seq<CourseDict>, l: string, g: string): (r: seq<CourseDict>)
    ensures |r| == |rows|
  {
    var labels := RowLabels(rows);
    if l in labels then
      var j := FirstIndex(labels, l);
      rows[j := rows[j].(grade := g)]
    else rows
  }

  /** A grade edit keeps every label in its place. */
  lemma WithFirstGradeLabels(rows: seq<CourseDict>, l: string, g: string)
    ensures RowLabels(WithFirstGrade(rows, l, g)) == RowLabels(rows)
  {
    var r := WithFirstGrade(rows, l, g);
    forall i | 0 <= i < |rows| ensures RowLabels(r)[i] == RowLabels(rows)[i] {
      assert r[i].courseLabel == rows[i].courseLabel;
    }
  }

  /** The outcome of `edit_grade` on the row labelled `l`, given what the dialog returned. */
  function EditGradeOutcome(rows: seq<CourseDict>, l: string, ok: bool, entered: string): (outcome: Outcome)
    ensures l !in RowLabels(rows) ==> outcome == Ignored
  {
    GradeEntryOutcome(l in RowLabels(rows), ok, entered)
  }

  /** The checks of `edit_grade`: whether a course was found, the dialog was accepted, and the stripped entry is a non-empty number. */
  function GradeEntryOutcome(found: bool, ok: bool, entered: string): (outcome: Outcome)
    ensures !found || !ok || AllSpace(entered) ==> outcome == Ignored
    ensures outcome == Changed ==> IsNumeric(Strip(entered))
    ensures outcome == Rejected ==> found && ok && !IsNumeric(Strip(entered))
  {
    if !found then Ignored
    else if !ok || Strip(entered) == [] then Ignored
    else if !IsNumeric(Strip(entered)) then Rejected
    else Changed
  }

  /** The records after `edit_grade`. */
  function EditGradeRows(rows: seq<CourseDict>, l: string, ok: bool, entered: string): (r: seq<CourseDict>)
    ensures RowLabels(r) == RowLabels(rows)
  {
    WithFirstGradeLabels(rows, l, Strip(entered));
    if EditGradeOutcome(rows, l, ok, entered) == Changed then WithFirstGrade(rows, l, Strip(entered)) else rows
  }

  /**
    Only the first course with the label is edited: it gets the new grade
    and keeps its other fields, and every other course is left as it was.
   */
  lemma WithFirstGradeChangesFirstOnly(rows: seq<CourseDict>, l: string, g: string)
    requires l in RowLabels(rows)
    ensures var r := WithFirstGrade(rows, l, g);
      exists j ::
        && 0 <= j < |rows|
        && rows[j].courseLabel == l
        && (forall i :: 0 <= i < j ==> rows[i].courseLabel != l)
        && r[j] == rows[j].(grade := g)
        && (forall i :: 0 <= i < |rows| && i != j ==> r[i] == rows[i])
  {
    var j := FirstIndex(RowLabels(rows), l);
    assert rows[j].courseLabel == l;
    forall i | 0 <= i < j ensures rows[i].courseLabel != l {
      assert RowLabels(rows)[i] == rows[i].courseLabel;
    }
  }

  /** An unknown label, a cancelled dialog, a blank or a non-numeric entry leaves the records as they are. */
  lemma EditGradeUnchanged(rows: seq<CourseDict>, l: string, ok: bool, entered: string)
    requires l !in RowLabels(rows) || !ok || !IsNumeric(Strip(entered))
    ensures EditGradeRows(rows, l, ok, entered) == rows
    ensures EditGradeOutcome(rows, l, ok, entered) != Changed
  {
    if Strip(entered) == [] {
      assert !IsNumeric(Strip(entered));
    }
  }

  /** With no repeated label, editing the first match is the update `check_updated_average` makes. */
  lemma WithFirstGradeIsRegraded(rows: seq<CourseDict>, l: string, g: string)
    requires Distinct(RowLabels(rows))
    ensures WithFirstGrade(rows, l, g) == Regraded(rows, l, g)
  {
    var labels := RowLabels(rows);
    if l in labels {
      var j := FirstIndex(labels, l);
      forall i | 0 <= i < |rows| ensures WithFirstGrade(rows, l, g)[i] == Regraded(rows, l, g)[i] {
        if i != j {
          assert labels[i] != labels[j];
        }
      }
    } else {
      RegradedAbsent(rows, l, g);
    }
  }

  // ---------------------------------------------------------------------
  // add_course

  /** The record `add_course` builds from the stripped entry `LABEL,GRADE,CREDITS`, if the entry is valid. */
  function NewCourseEntry(input: string): (entry: Option<CourseDict>)
    ensures entry.Some? ==> IsNumeric(entry.value.grade)
    ensures entry.Some? ==> entry.value.location == entry.value.level == entry.value.title == TemporaryEstimate
  {
    var parts := Fields(input, ',');
    if |parts| != 3 || !IsNumeric(parts[1]) || !IsNumeric(parts[2]) then None
    else Some(CourseDict(parts[0], TemporaryEstimate, TemporaryEstimate, TemporaryEstimate, parts[1], NumericValue(parts[2])))
  }

  function AddCourseOutcome(ok: bool, text: string): (outcome: Outcome)
    ensures !ok || AllSpace(text) ==> outcome == Ignored
    ensures outcome == Changed ==> NewCourseEntry(Strip(text)).Some?
  {
    if !ok || Strip(text) == [] then Ignored
    else if NewCourseEntry(Strip(text)).None? then Rejected
    else Changed
  }

  /** The records after `add_course`: the new record is appended; the labels already there are not looked at. */
  function AddCourseRows(rows: seq<CourseDict>, ok: bool, text: string): (r: seq<CourseDict>)
    ensures rows <= r && |r| <= |rows| + 1
  {
    if AddCourseOutcome(ok, text) == Changed then rows + [NewCourseEntry(Strip(text)).value] else rows
  }

  /**
    An entry is accepted exactly when it has three comma-separated parts
    whose second and third are numbers; the record then carries those
    parts and "Temporary Estimate" as location, level and title.
   */
  lemma NewCourseEntryIff(input: string)
    ensures var parts := Fields(input, ',');
      NewCourseEntry(input).Some? <==> |parts| == 3 && IsNumeric(parts[1]) && IsNumeric(parts[2])
    ensures var parts := Fields(input, ',');
      NewCourseEntry(input).Some? ==>
        var r := NewCourseEntry(input).value;
        && r.courseLabel == parts[0] && r.grade == parts[1] && r.creditHours == NumericValue(parts[2])
        && r.location == TemporaryEstimate && r.level == TemporaryEstimate && r.title == TemporaryEstimate
        && IsNumeric(r.grade)
  {
  }

  /** Adding either appends exactly one record and keeps the earlier ones, or changes nothing. */
  lemma AddCourseAppends(rows: seq<CourseDict>, ok: bool, text: string)
    ensures var r := AddCourseRows(rows, ok, text);
      && (AddCourseOutcome(ok, text) == Changed ==>
            |r| == |rows| + 1 && r[..|rows|] == rows && r[|rows|] == NewCourseEntry(Strip(text)).value)
      && (AddCourseOutcome(ok, text) != Changed ==> r == rows)
  {
    if AddCourseOutcome(ok, text) == Changed {
      var r := AddCourseRows(rows, ok, text);
      assert r[..|rows|] == rows;
    }
  }

  // ---------------------------------------------------------------------
  // delete_course

  /** `[c for c in rows if c.label != l]`. */
  function WithoutLabel(rows: seq<CourseDict>, l: string): (r: seq<CourseDict>)
    ensures |r| <= |rows|
  {
    if rows == [] then []
    else
      var last := rows[|rows| - 1];
      WithoutLabel(rows[..|rows| - 1], l) + (if last.courseLabel != l then [last] else [])
  }

  /** One more record is kept unless it has the label. */
  lemma WithoutLabelSnoc(rows: seq<CourseDict>, r: CourseDict, l: string)
    ensures WithoutLabel(rows + [r], l) == WithoutLabel(rows, l) + (if r.courseLabel != l then [r] else [])
  {
    assert (rows + [r])[..|rows|] == rows;
  }

  /** No row selected: an information box. A refused confirmation: nothing. */
  function DeleteOutcome(selected: Option<string>, confirmed: bool): (outcome: Outcome)
    ensures outcome == Rejected <==> selected.None?
    ensures outcome == Changed ==> confirmed
  {
    if selected.None? then Rejected
    else if !confirmed then Ignored
    else Changed
  }

  function DeleteRows(rows: seq<CourseDict>, selected: Option<string>, confirmed: bool): (r: seq<CourseDict>)
    ensures |r| <= |rows|
    ensures DeleteOutcome(selected, confirmed) == Changed ==> selected.value !in RowLabels(r)
  {
    if DeleteOutcome(selected, confirmed) == Changed then
      WithoutLabelRemovesAll(rows, selected.value);
      WithoutLabel(rows, selected.value)
    else rows
  }

  /** A record survives the deletion exactly when it was there and has another label. */
  lemma {:induction false} WithoutLabelMembers(rows: seq<CourseDict>, l: string)
    ensures forall r :: r in WithoutLabel(rows, l) <==> r in rows && r.courseLabel != l
  {
    if rows != [] {
      var init, last := rows[..|rows| - 1], rows[|rows| - 1];
      WithoutLabelMembers(init, l);
      assert rows == init + [last];
    }
  }

  /** After the deletion no course has the label. */
  lemma WithoutLabelRemovesAll(rows: seq<CourseDict>, l: string)
    ensures l !in RowLabels(WithoutLabel(rows, l))
  {
    var r := WithoutLabel(rows, l);
    WithoutLabelMembers(rows, l);
    forall k | 0 <= k < |r| ensures RowLabels(r)[k] != l {
      assert r[k] in r;
    }
  }

  /** Deleting from a concatenation deletes from each part: the remaining courses keep their order. */
  lemma {:induction false} WithoutLabelAppend(a: seq<CourseDict>, b: seq<CourseDict>, l: string)
    ensures WithoutLabel(a + b, l) == WithoutLabel(a, l) + WithoutLabel(b, l)
  {
    if b == [] {
      assert a + b == a;
    } else {
      var init, last := b[..|b| - 1], b[|b| - 1];
      assert b == init + [last];
      assert a + b == (a + init) + [last];
      WithoutLabelAppend(a, init, l);
    }
  }

  /** Deleting a label no course has keeps the list as it is. */
  lemma {:induction false} WithoutLabelAbsent(rows: seq<CourseDict>, l: string)
    requires forall i :: 0 <= i < |rows| ==> rows[i].courseLabel != l
    ensures WithoutLabel(rows, l) == rows
  {
    if rows != [] {
      var init := rows[..|rows| - 1];
      WithoutLabelAbsent(init, l);
      assert rows == init + [rows[|rows| - 1]];
    }
  }

  /** For the totals, deleting a course is the same as withdrawing from it. */
  lemma {:induction false} DeleteIsWithdraw(rows: seq<CourseDict>, l: string)
    ensures Summary(WithoutLabel(rows, l)) == Summary(Regraded(rows, l, "W"))
  {
    if rows != [] {
      var init, last := rows[..|rows| - 1], rows[|rows| - 1];
      DeleteIsWithdraw(init, l);
      var kept := WithoutLabel(init, l);
      var withdrawn := Regraded(init, l, "W");
      assert Regraded(rows, l, "W") == withdrawn + [if last.courseLabel == l then last.(grade := "W") else last];
      if last.courseLabel == l {
        assert WithoutLabel(rows, l) == kept + [];
        assert kept + [] == kept;
        ExcludedRowAddsNothing(withdrawn, last.(grade := "W"));
      } else {
        SumsSnoc(kept, last);
        SumsSnoc(withdrawn, last);
      }
    }
  }

  // ---------------------------------------------------------------------
  // The window's actions

  /** What the user does to the window: each is one of its connected signals, with what the dialogs returned. */
  datatype Action =
    | EditGradeOf(courseLabel: string, ok: bool, entered: string)   // a double-clicked row: edit_grade
    | RestoreGrades                                                  // the restore button: restore_grades
    | AddCourse(ok: bool, text: string)                              // the add button: add_course
    | DeleteCourse(selected: Option<string>, confirmed: bool)        // the delete button: delete_course

  /** The records after the action, given the records of the snapshot. */
  function ActionRows(rows: seq<CourseDict>, snapshot: seq<CourseDict>, a: Action): (r: seq<CourseDict>)
    ensures a.EditGradeOf? ==> RowLabels(r) == RowLabels(rows)
    ensures a.AddCourse? ==> rows <= r
    ensures a.DeleteCourse? ==> |r| <= |rows|
  {
    match a
    case EditGradeOf(l, ok, entered) => EditGradeRows(rows, l, ok, entered)
    case RestoreGrades => snapshot
    case AddCourse(ok, text) => AddCourseRows(rows, ok, text)
    case DeleteCourse(selected, confirmed) => DeleteRows(rows, selected, confirmed)
  }

  /** What the user is shown after the action. */
  function ActionOutcome(rows: seq<CourseDict>, a: Action): (outcome: Outcome)
    ensures a.RestoreGrades? ==> outcome == Changed
    ensures a.EditGradeOf? && a.courseLabel !in RowLabels(rows) ==> outcome == Ignored
  {
    match a
    case EditGradeOf(l, ok, entered) => EditGradeOutcome(rows, l, ok, entered)
    case RestoreGrades => Changed
    case AddCourse(ok, text) => AddCourseOutcome(ok, text)
    case DeleteCourse(selected, confirmed) => DeleteOutcome(selected, confirmed)
  }

  /** An action either changes the records and says so, or leaves them as they were. */
  lemma ActionUnchangedUnlessChanged(rows: seq<CourseDict>, snapshot: seq<CourseDict>, a: Action)
    requires ActionOutcome(rows, a) != Changed
    ensures ActionRows(rows, snapshot, a) == rows
  {
  }
}
