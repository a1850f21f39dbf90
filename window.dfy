/**
  The working collection behind the main window: the courses shown in the
  table and the snapshot of the transcript's courses that "Restore Original
  Grades" goes back to. Only the effect of each action on the collection is
  modelled; the table, the dialogs and the message boxes are not. What a
  dialog returns, and which row is selected, are parameters.
 */
module Window {
  import opened Text
  import opened Numbers
  import opened Dicts
  import opened Courses
  import opened Deduplication
  import opened Aggregation
  import opened Edits

  class MainWindow {
    var courses: seq<Course>                    // self.courses
    var originalCourses: map<string, Course>    // self.original_courses: label -> Course
    var originalOrder: seq<string>              // the key order of self.original_courses

    /** Every key of the snapshot's order is a key of its dict, and each appears once. */
    ghost predicate SnapshotValid()
      reads this`originalOrder, this`originalCourses
    {
      && Distinct(originalOrder)
      && (forall l :: l in originalCourses <==> l in originalOrder)
    }

    /**
      The snapshot is well formed, no course object is listed twice, and the
      snapshot's course objects are not in the list.
     */
    ghost predicate Valid()
      reads this
    {
      && SnapshotValid()
      && DistinctObjects(courses)
      && (forall c :: c in courses ==> c !in originalCourses.Values)
    }

    /** The records shown in the table. */
    function Contents(): seq<CourseDict>
      reads this`courses, courses
    {
      Rows(courses)
    }

    /** The records of the snapshot, in its key order. */
    function Snapshot(): seq<CourseDict>
      requires SnapshotValid()
      reads this`originalOrder, this`originalCourses, originalCourses.Values
    {
      var values := ValuesInOrder(originalOrder, originalCourses);
      assert forall c :: c in values ==> c in originalCourses.Values;
      Rows(values)
    }

    /** `MainWindow(courses, original_courses)`, without its widgets. */
    constructor (courses: seq<Course>, originalCourses: map<string, Course>, originalOrder: seq<string>)
      requires Distinct(originalOrder) && (forall l :: l in originalCourses <==> l in originalOrder)
      requires DistinctObjects(courses) && (forall c :: c in courses ==> c !in originalCourses.Values)
      ensures Valid()
      ensures this.courses == courses && this.originalCourses == originalCourses && this.originalOrder == originalOrder
      ensures Contents() == Rows(courses) && Snapshot() == Rows(ValuesInOrder(originalOrder, originalCourses))
    {
      this.courses := courses;
      this.originalCourses := originalCourses;
      this.originalOrder := originalOrder;
    }

    /** `find_course_by_label`: the first course with the label, or `None`. */
    method FindCourseByLabel(l: string) returns (course: Course?)
      ensures course == null <==> l !in Labels(courses)
      ensures course != null ==> course == courses[FirstIndex(Labels(courses), l)]
    {
      for i := 0 to |courses|
        invariant forall k :: 0 <= k < i ==> courses[k].courseLabel != l
      {
        if courses[i].courseLabel == l {
          return courses[i];
        }
      }
      return null;
    }

    /**
      `edit_grade` on the row labelled `l`: `ok` and `entered` are what the
      dialog returned. The first course with the label is changed in place.
     */
    method EditGrade(l: string, ok: bool, entered: string) returns (outcome: Outcome)
      requires Valid()
      modifies courses
      ensures Valid()
      ensures outcome == EditGradeOutcome(old(Contents()), l, ok, entered)
      ensures Contents() == EditGradeRows(old(Contents()), l, ok, entered)
      ensures Snapshot() == old(Snapshot())
    {
      RowLabelsOfRows(courses);
      var course := FindCourseByLabel(l);
      outcome := GradeEntryOutcome(course != null, ok, entered);
      if outcome == Changed {
        SetFirstGrade(course, l, Strip(entered));
      }
    }

    /** The grade write of `edit_grade` on `c`, the first course labelled `l`. */
    method SetFirstGrade(c: Course, l: string, g: string)
      requires Valid() && l in Labels(courses) && c == courses[FirstIndex(Labels(courses), l)]
      modifies c
      ensures Valid()
      ensures Contents() == WithFirstGrade(old(Contents()), l, g)
      ensures Snapshot() == old(Snapshot())
    {
      ghost var rows := Contents();
      RowLabelsOfRows(courses);
      ghost var j := FirstIndex(Labels(courses), l);
      assert WithFirstGrade(rows, l, g) == rows[j := rows[j].(grade := g)];
      SetGrade(c, j, g);
    }

    /** `course.grade = g` on the course `c` at position `j`: its record gets the grade, the others stay as they were. */
    method SetGrade(c: Course, ghost j: nat, g: string)
      requires Valid() && j < |courses| && courses[j] == c
      modifies c
      ensures Valid()
      ensures Contents() == old(Contents())[j := old(Contents())[j].(grade := g)]
      ensures Snapshot() == old(Snapshot())
    {
      ghost var rows := Contents();
      assert c !in originalCourses.Values;
      c.grade := g;
      forall k | 0 <= k < |courses| ensures courses[k].ToDict() == rows[j := rows[j].(grade := g)][k] {
        if k != j {
          assert courses[k] != c;
        }
      }
      RowsEqual(courses, rows[j := rows[j].(grade := g)]);
    }

    /** `restore_grades`: a fresh copy of each snapshot course, in the snapshot's key order. */
    method RestoreGrades()
      requires Valid()
      modifies this`courses
      ensures Valid()
      ensures Contents() == Snapshot()
      ensures Snapshot() == old(Snapshot())
      ensures forall c :: c in courses ==> fresh(c)
    {
      var restored := CloneAll(ValuesInOrder(originalOrder, originalCourses));
      courses := restored;
    }

    /** `add_course`: `ok` and `text` are what the dialog returned. */
    method AddCourse(ok: bool, text: string) returns (outcome: Outcome)
      requires Valid()
      modifies this`courses
      ensures Valid()
      ensures outcome == AddCourseOutcome(ok, text)
      ensures Contents() == AddCourseRows(old(Contents()), ok, text)
      ensures Snapshot() == old(Snapshot())
      ensures forall c :: c in courses ==> c in old(courses) || fresh(c)
    {
      if !ok || Strip(text) == [] {
        assert AddCourseRows(Contents(), ok, text) == Contents();
        return Ignored;
      }
      var entry := NewCourseEntry(Strip(text));
      if entry.None? {
        assert AddCourseRows(Contents(), ok, text) == Contents();
        return Rejected;
      }
      assert AddCourseRows(Contents(), ok, text) == Contents() + [entry.value];
      AppendRecord(entry.value);
      return Changed;
    }

    /** `self.courses.append(Course(**r))`: a new course carrying `r` at the end of the list. */
    method AppendRecord(r: CourseDict)
      requires Valid()
      modifies this`courses
      ensures Valid()
      ensures Contents() == old(Contents()) + [r]
      ensures Snapshot() == old(Snapshot())
      ensures forall c :: c in courses ==> c in old(courses) || fresh(c)
    {
      ghost var snapshot, rows := Snapshot(), Contents();
      var course := new Course(r.courseLabel, r.location, r.level, r.title, r.grade, r.creditHours);
      assert course !in courses && course !in originalCourses.Values;
      assert Snapshot() == snapshot && Contents() == rows;
      RowsSnoc(courses, course);
      courses := courses + [course];
    }

    /**
      `delete_course`: `selected` is the label of the selected row, if a row
      is selected, and `confirmed` the answer to the confirmation box.
     */
    method DeleteCourse(selected: Option<string>, confirmed: bool) returns (outcome: Outcome)
      requires Valid()
      modifies this`courses
      ensures Valid()
      ensures outcome == DeleteOutcome(selected, confirmed)
      ensures Contents() == DeleteRows(old(Contents()), selected, confirmed)
      ensures Snapshot() == old(Snapshot())
      ensures forall c :: c in courses ==> c in old(courses)
    {
      if selected.None? {
        return Rejected;
      }
      if !confirmed {
        return Ignored;
      }
      KeepOthersRows(courses, selected.value);
      KeepOthersDistinct(courses, selected.value);
      courses := KeepOthers(courses, selected.value);
      return Changed;
    }

    /** The slot connected to the signal the action stands for. */
    method Handle(a: Action) returns (outcome: Outcome)
      requires Valid()
      modifies this`courses, courses
      ensures Valid()
      ensures outcome == ActionOutcome(old(Contents()), a)
      ensures Contents() == ActionRows(old(Contents()), old(Snapshot()), a)
      ensures Snapshot() == old(Snapshot())
      ensures forall c :: c in courses ==> c in old(courses) || fresh(c)
    {
      match a
      case EditGradeOf(l, ok, entered) =>
        outcome := EditGrade(l, ok, entered);
      case RestoreGrades =>
        RestoreGrades();
        outcome := Changed;
      case AddCourse(ok, text) =>
        outcome := AddCourse(ok, text);
      case DeleteCourse(selected, confirmed) =>
        outcome := DeleteCourse(selected, confirmed);
    }

    /** `update_summary`: the totals shown under the table. */
    method UpdateSummary() returns (totals: Totals)
      ensures totals == Summary(Contents())
    {
      totals := CalculateWeightedAverage(courses);
    }
  }

  /** `[Course(**c.to_dict()) for c in cs]`: a fresh copy of each course, in order. */
  method CloneAll(cs: seq<Course>) returns (copies: seq<Course>)
    ensures Rows(copies) == Rows(cs)
    ensures forall k :: 0 <= k < |copies| ==> fresh(copies[k])
    ensures DistinctObjects(copies)
  {
    copies := [];
    for i := 0 to |cs|
      invariant |copies| == i
      invariant forall k :: 0 <= k < i ==> copies[k].ToDict() == cs[k].ToDict()
      invariant forall k :: 0 <= k < i ==> fresh(copies[k])
      invariant DistinctObjects(copies)
    {
      var copy := Clone(cs[i]);
      copies := copies + [copy];
    }
    RowsEqual(copies, Rows(cs));
  }

  /** `[c for c in cs if c.label != l]`: the courses with another label, the same objects in the same order. */
  function KeepOthers(cs: seq<Course>, l: string): (kept: seq<Course>)
    reads cs
    ensures forall c :: c in kept ==> c in cs && c.courseLabel != l
  {
    if cs == [] then []
    else
      var last := cs[|cs| - 1];
      KeepOthers(cs[..|cs| - 1], l) + (if last.courseLabel != l then [last] else [])
  }

  /** The records of the courses kept are the records kept by the deletion. */
  lemma {:induction false} KeepOthersRows(cs: seq<Course>, l: string)
    ensures Rows(KeepOthers(cs, l)) == WithoutLabel(Rows(cs), l)
  {
    if cs != [] {
      var init := cs[..|cs| - 1];
      var last := cs[|cs| - 1];
      KeepOthersRows(init, l);
      assert cs == init + [last];
      RowsSnoc(init, last);
      assert Rows(cs) == Rows(init) + [last.ToDict()];
      WithoutLabelSnoc(Rows(init), last.ToDict(), l);
      if last.courseLabel != l {
        assert KeepOthers(cs, l) == KeepOthers(init, l) + [last];
        RowsSnoc(KeepOthers(init, l), last);
      } else {
        assert KeepOthers(cs, l) == KeepOthers(init, l);
      }
    }
  }

  /** No course object is kept twice when none was listed twice. */
  lemma {:induction false} KeepOthersDistinct(cs: seq<Course>, l: string)
    requires DistinctObjects(cs)
    ensures DistinctObjects(KeepOthers(cs, l))
  {
    if cs != [] {
      var init := cs[..|cs| - 1];
      var last := cs[|cs| - 1];
      KeepOthersDistinct(init, l);
      assert last !in init by {
        forall k | 0 <= k < |init| ensures init[k] != last {
          assert init[k] == cs[k];
        }
      }
    }
  }

  /**
    `{c.label: Course(**c.to_dict()) for c in unique}`: a fresh copy of each
    course under its label, the last one for a repeated label, the labels in
    first-seen order.
   */
  method BuildSnapshot(unique: seq<Course>) returns (table: map<string, Course>, order: seq<string>)
    ensures order == InsertionOrder(Labels(unique))
    ensures forall l :: l in table <==> l in order
    ensures Rows(ValuesInOrder(order, table)) == Rows(LastValues(Labels(unique), unique))
    ensures forall l :: l in table ==> fresh(table[l])
    ensures forall c :: c in unique ==> c !in table.Values
  {
    var copies := CloneAll(unique);
    table, order := AssignAll(Labels(unique), copies);
    DictOfValues(Labels(unique), copies, order, table);
    RowsOfLastValues(Labels(unique), copies, unique);
  }

  /**
    Lines 327-329 of the start-up: the snapshot is built from a list with no
    repeated label and the window is opened on that list, so the snapshot's
    records are the list's records.
   */
  method OpenWindow(unique: seq<Course>) returns (w: MainWindow)
    requires Distinct(Labels(unique))
    ensures fresh(w) && w.Valid()
    ensures w.courses == unique
    ensures w.Snapshot() == w.Contents()
  {
    var table, order := BuildSnapshot(unique);
    DistinctLabelsDistinctCourses(unique);
    assert LastValues(Labels(unique), unique) == unique by {
      DeduplicatedOfDistinct(unique);
    }
    ghost var records := Rows(unique);
    assert Rows(ValuesInOrder(order, table)) == records;
    w := new MainWindow(unique, table, order);
  }

  /**
    The start of the program once the transcript is parsed: the courses are
    deduplicated, the snapshot is built from the deduplicated list and the
    window is opened on that list.
   */
  method Launch(parsed: seq<Course>) returns (w: MainWindow)
    ensures fresh(w) && w.Valid()
    ensures w.courses == Deduplicated(parsed)
    ensures w.Snapshot() == w.Contents()
    ensures forall c :: c in w.courses ==> c in parsed
  {
    var unique := Deduplicate(parsed);
    DeduplicatedLabels(parsed);
    DeduplicatedCourses(parsed);
    w := OpenWindow(unique);
  }

  /**
    A run of the program: the window is opened on the parsed courses, the
    user performs the actions in turn, and then restores the grades. The
    result is the deduplicated transcript as parsed, whatever the actions
    did to the course objects.
   */
  method Session(parsed: seq<Course>, actions: seq<Action>) returns (w: MainWindow)
    modifies set c | c in parsed
    ensures fresh(w) && w.Valid()
    ensures w.Contents() == old(Rows(Deduplicated(parsed)))
  {
    w := Launch(parsed);
    ghost var snapshot := w.Snapshot();
    for i := 0 to |actions|
      invariant fresh(w) && w.Valid()
      invariant w.Snapshot() == snapshot
      invariant forall c :: c in w.courses ==> c in parsed || fresh(c)
    {
      var _ := w.Handle(actions[i]);
    }
    w.RestoreGrades();
  }
}
