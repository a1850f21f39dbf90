/**
  `deduplicate_courses`: a single pass that stores each course under its
  label in a dict, so that a later course with the same label replaces the
  earlier one, and returns the dict's values.
 */
module Deduplication {
  import opened Dicts
  import opened Courses

  /** What `deduplicate_courses(cs)` returns: one course per label, the last one, in first-seen order. */
  function Deduplicated(cs: seq<Course>): (unique: seq<Course>)
    reads cs
    ensures forall j :: 0 <= j < |unique| ==> unique[j] in cs
  {
    LastValues(Labels(cs), cs)
  }

  method Deduplicate(cs: seq<Course>) returns (unique: seq<Course>)
    ensures unique == Deduplicated(cs)
  {
    var table, order := AssignAll(Labels(cs), cs);   // unique[course.label] = course, in turn
    DictOfValues(Labels(cs), cs, order, table);
    unique := ValuesInOrder(order, table);
  }

  /** Course lists with the same labels and records, position by position, keep the same records. */
  lemma RowsOfLastValues(keys: seq<string>, a: seq<Course>, b: seq<Course>)
    requires |keys| == |a| == |b|
    requires forall k :: 0 <= k < |a| ==> a[k].ToDict() == b[k].ToDict()
    ensures Rows(LastValues(keys, a)) == Rows(LastValues(keys, b))
  {
  }

  // ---------------------------------------------------------------------
  // Properties of the deduplicated list

  /** Each course kept is the last course in the input with its label. */
  lemma DeduplicatedLastWins(cs: seq<Course>)
    ensures var unique := Deduplicated(cs);
      forall j :: 0 <= j < |unique| ==>
        unique[j].courseLabel in Labels(cs) &&
        unique[j] == cs[LastIndex(Labels(cs), unique[j].courseLabel)]
  {
  }

  /** The labels kept are those of the input, each once, in the order each was first seen. */
  lemma DeduplicatedLabels(cs: seq<Course>)
    ensures Labels(Deduplicated(cs)) == InsertionOrder(Labels(cs))
    ensures Distinct(Labels(Deduplicated(cs)))
    ensures forall l :: l in Labels(Deduplicated(cs)) <==> l in Labels(cs)
    ensures OrderedByFirstIndex(Labels(cs), Labels(Deduplicated(cs)))
  {
    var keys := Labels(cs);
    var order := InsertionOrder(keys);
    var unique := Deduplicated(cs);
    assert |Labels(unique)| == |order|;
    forall j | 0 <= j < |order| ensures Labels(unique)[j] == order[j] {
      assert unique[j] == cs[LastIndex(keys, order[j])];
    }
    InsertionOrderByFirstIndex(keys);
  }

  /** Courses with distinct labels are distinct objects. */
  lemma DistinctLabelsDistinctCourses(cs: seq<Course>)
    requires Distinct(Labels(cs))
    ensures DistinctObjects(cs)
  {
    forall i, j | 0 <= i < j < |cs| ensures cs[i] != cs[j] {
      assert Labels(cs)[i] != Labels(cs)[j];
    }
  }

  /** The result is made of input courses, pairwise distinct objects. */
  lemma DeduplicatedCourses(cs: seq<Course>)
    ensures forall c :: c in Deduplicated(cs) ==> c in cs
    ensures DistinctObjects(Deduplicated(cs))
  {
    DeduplicatedLabels(cs);
    DistinctLabelsDistinctCourses(Deduplicated(cs));
  }

  /** A list with no repeated label is kept as it is. */
  lemma DeduplicatedOfDistinct(cs: seq<Course>)
    requires Distinct(Labels(cs))
    ensures Deduplicated(cs) == cs
  {
    InsertionOrderOfDistinct(Labels(cs));
    forall j | 0 <= j < |cs| ensures Deduplicated(cs)[j] == cs[j] {
      LastIndexOfDistinct(Labels(cs), j);
    }
  }

  /** Deduplicating twice is deduplicating once. */
  lemma DeduplicatedIdempotent(cs: seq<Course>)
    ensures Deduplicated(Deduplicated(cs)) == Deduplicated(cs)
  {
    DeduplicatedLabels(cs);
    DeduplicatedOfDistinct(Deduplicated(cs));
  }
}
