# USask GPA Calculator: a Dafny model of its core

The program reads a University of Saskatchewan transcript and finds one
course entry per match of a regular expression. It turns each match into a
`Course` record (label, location, level, title, grade, credit hours) and
keeps only the last record for each label. It then computes the
credit-weighted average, skipping withdrawals (`W`) and grades that are not
numbers (such as `TR`). A Qt window shows the courses and lets the user
change a grade, add a course, delete a course, or restore the grades as
they were when the window opened. A text prompt does the same kind of
"what if" regrade over the whole list.

Modules, leaf first:

- `Text`: Python's `strip`, `split(sep)`, `split()`, `" ".join` and `in`
  on strings.
- `Numbers`: which strings `float()` accepts, and their values (decimal
  forms only; see "Left out").
- `Courses`: the `Course` dataclass of `courses.py`, as a class with six
  mutable fields. It has getters, setters, `is_passed` and `to_dict`.
  `CourseDict` is the value `to_dict()` returns. `Rows` gives the records of
  a list of course objects.
- `Dicts`: a Python dict built by successive assignments. Each key keeps
  the position of its first assignment and the value of its last.
- `Extraction`: `parse_courses`, given the regex matches.
- `Deduplication`: `deduplicate_courses`.
- `Aggregation`: `calculate_weighted_average`.
- `WhatIf`: the list update of `check_updated_average`.
- `Edits`: what each window action does to the list of records, as
  functions.
- `Window`: the `MainWindow` class. It holds the working list `courses` and
  the snapshot `originalCourses`, with the snapshot's key order kept
  separately as `originalOrder`. The module also has the start-up code and
  a whole session.

The window's methods are proved against the functions of `Edits`. For
example, `Contents() == EditGradeRows(old(Contents()), ...)`. The main
result is `Window.Session`: after any sequence of edits, additions and
deletions followed by a restore, the list holds exactly the records of the
deduplicated transcript, in their order. This holds even though the edits
change the parsed course objects in place. It holds because the snapshot
holds copies (calculation.py:327) and `restore_grades` copies them again
(calculation.py:242).

The field `label` is called `courseLabel`, because `label` is a keyword in
Dafny.

Three behaviours of the code a reader may not expect:

- `delete_course` removes every course with the selected label, not just
  the first (calculation.py:303).
- `edit_grade` checks that the stripped entry is numeric itself
  (calculation.py:228-233). It changes only the first course with the
  label, in place (calculation.py:214, 235), even when the double-clicked
  row is a later course with the same label.
- Restore reproduces the snapshot as a sequence, with its order, not only
  as a set.

## Model

| member | source | states |
|---|---|---|
| Text.Strip | calculation.py:255 | the result has no whitespace at either end; it is empty exactly when the input is all whitespace; it is the input with a whitespace-only run cut from each end |
| Text.SplitOn | calculation.py:257 | `split(",")` gives at least one part, and no part contains the separator |
| Text.JoinSplitOn | calculation.py:257 | joining the parts of a split with the separator gives back the text |
| Text.SplitOnJoin | calculation.py:257 | splitting a join of separator-free parts gives back the parts |
| Text.JoinWithEnds | calculation.py:47 | a join starts with its first part and ends with its last |
| Text.Fields | calculation.py:257 | `[part.strip() for part in s.split(",")]` has one field per part, at least one; no field holds a comma or starts or ends with whitespace |
| Text.TakeWord | calculation.py:47 | the longest whitespace-free prefix, followed by whitespace or the end of the text |
| Text.Words | calculation.py:47 | `split()` returns only non-empty words with no whitespace; with WordsSkipSpace, WordsTakeWord and WordsOfSpaced they are exactly the maximal whitespace-free runs |
| Text.WordsSkipSpace | calculation.py:47 | whitespace in front of a text adds no word |
| Text.WordsTakeWord | calculation.py:47 | a word followed by nothing or by whitespace is the first word of the split |
| Text.WordsOfSpaced | calculation.py:47 | words set apart by non-empty runs of any whitespace, with any whitespace before and after, split into exactly those words |
| Text.JoinWordsEnds | calculation.py:47 | a space-joined non-empty list of words starts and ends with a non-blank character |
| Text.JoinWordsNormalized | calculation.py:47 | `" ".join` of words has no blank at either end, no other whitespace than single spaces, and no two spaces in a row |
| Text.NonSpaceOfJoin | calculation.py:47 | the non-blank characters of `" ".join(ws)` are those of the words, in order |
| Text.NonSpaceOfWords | calculation.py:47 | the non-blank characters of a text are those of its `split()`, in order |
| Text.WordsOfJoin | calculation.py:47 | splitting `" ".join(ws)` gives back the words |
| Text.ContainsIff | calculation.py:45 | `p in s` holds exactly when `p` occurs at some position of `s` |
| Text.Contains | calculation.py:45 | `p in s` holds for the empty `p`, and only when `p` is no longer than `s` |
| Numbers.DigitRunValue | calculation.py:80 | a non-empty run of digits parses as a number; its value is that of the digits and below 10 to the number of digits |
| Numbers.DigitsValueBound | calculation.py:80 | the value of a run of n digits lies between 0 and 10 to the n, minus one |
| Numbers.DigitsValueWhole | calculation.py:49 | the value `float()` reads from a run of digits is a whole number |
| Numbers.FractionValueBound | calculation.py:49 | the digits after the point add a value in [0, 1) |
| Numbers.SentinelsAreNotNumeric | calculation.py:79-84 | `float("TR")` and `float("W")` both fail |
| Numbers.NumericChars | calculation.py:80 | a text `float()` accepts holds a digit, and nothing but digits, `.` and a leading sign |
| Numbers.NumericValue | calculation.py:80 | the value `float()` gives is negative only under a leading minus sign |
| Courses.Course.constructor | courses.py:10-17 | the new course's record holds exactly the six arguments |
| Courses.Course.ToDict | courses.py:80-89 | the record holds the course's six fields under their own names |
| Courses.Course.GetLabel | courses.py:19-21 | returns the label field |
| Courses.Course.GetLocation | courses.py:23-25 | returns the location field |
| Courses.Course.GetLevel | courses.py:27-29 | returns the level field |
| Courses.Course.GetTitle | courses.py:31-33 | returns the title field |
| Courses.Course.GetGrade | courses.py:35-37 | returns the grade field |
| Courses.Course.GetCreditHours | courses.py:39-41 | returns the credit-hours field |
| Courses.Course.SetLabel | courses.py:43-45 | the new record is the old one with only the label replaced |
| Courses.Course.SetLocation | courses.py:47-49 | the new record is the old one with only the location replaced |
| Courses.Course.SetLevel | courses.py:51-53 | the new record is the old one with only the level replaced |
| Courses.Course.SetTitle | courses.py:55-57 | the new record is the old one with only the title replaced |
| Courses.Course.SetGrade | courses.py:59-61 | the new record is the old one with only the grade replaced |
| Courses.Course.SetCreditHours | courses.py:63-65 | the new record is the old one with only the credit hours replaced |
| Courses.Course.IsPassed | courses.py:67-78 | `TR` and `W` pass at any threshold; a numeric grade passes exactly when it is at least the threshold, boundary included; any other grade fails; the threshold defaults to 50 |
| Courses.IsPassedMonotonic | courses.py:73-76 | a pass at one threshold is a pass at every lower threshold |
| Courses.IsPassedDefault | courses.py:67 | with no threshold given, a numeric grade passes exactly when it is at least 50 |
| Courses.IsPassedExample | courses.py:96-108 | a course graded 92 passes at the default threshold, and one graded 45 fails |
| Courses.Clone | courses.py:80-89 | `Course(**c.to_dict())` is a new object whose record equals `c`'s field for field |
| Dicts.InsertionOrder | calculation.py:66-69 | the keys of the built dict are distinct and are exactly the assigned keys |
| Dicts.InsertionOrderByFirstIndex | calculation.py:66-70 | the keys come out ordered by where each was first assigned |
| Dicts.InsertionOrderOfDistinct | calculation.py:66-69 | assigning distinct keys keeps them in assignment order |
| Dicts.LastIndexOfDistinct | calculation.py:66-69 | among distinct keys, each key's last assignment is its only one |
| Dicts.DictOfAssign | calculation.py:69 | one more assignment `d[k] = v` extends the dict as insertion order and last-value-wins require |
| Dicts.AssignAll | calculation.py:66-69 | the loop of assignments leaves the dict and key order that the assignments determine |
| Dicts.DictOfValues | calculation.py:70 | `list(d.values())` is, for each key in insertion order, the value of its last assignment |
| Dicts.LastValuesExample | calculation.py:66-70 | assigning A=1, B=2, A=3 leaves the values [3, 2] |
| Extraction.CreditTokenValue | calculation.py:49 | a `d.ddd` token parses to its units digit plus tenths, hundredths and thousandths, a value in [0, 10) |
| Extraction.CreditTokenIsNumeric | calculation.py:49 | `float()` accepts a `d.ddd` token |
| Extraction.LocationOf | calculation.py:45 | the location is one of the two sites, "Off-campus Site" or "USask - Main Campus" |
| Extraction.NormalizeTitle | calculation.py:47 | the normalised title is normalised and has the same words as the matched title |
| Extraction.NormalizeTitleSpaced | calculation.py:47 | every whitespace run between two words becomes one space, and those at the ends are dropped |
| Extraction.NormalizeTwoWords | calculation.py:47 | two words with any whitespace around them and a non-empty run between them give the words with one space between |
| Extraction.NewCourse | calculation.py:42-59 | a new course whose record is subject+code, the location for the span, the level, the normalised title, the grade and the parsed credits |
| Extraction.BuildRecord | calculation.py:42-49 | the record built from one match: label subject+code, a location from the match text, the level, the title with whitespace normalised, the grade token, and `float()` of the credit token (never negative, below 10) |
| Extraction.ParseCourses | calculation.py:40-62 | one newly allocated course per match, in match order, no object twice, each carrying the record built from its match |
| Extraction.LocationChoice | calculation.py:43-45 | the location is "Off-campus Site" exactly when "Off-campus" occurs in the span, and "USask - Main Campus" otherwise |
| Extraction.NormalizeTitleFacts | calculation.py:47 | the normalised title has no blank at either end, only single spaces, and the same non-blank characters in order; normalising twice is normalising once |
| Extraction.NormalizeSingleWord | calculation.py:47 | a title with no whitespace is kept as it is |
| Extraction.LabelShape | calculation.py:36-42 | the label is the 2-4 capital subject followed by the code, with no whitespace |
| Extraction.RecordShape | calculation.py:36-49 | every built record has one of the two locations, level UG or GR, a normalised title, a grade token (TR, W, or one to three digits whose value is a whole number from 0 to 999), and credits in [0, 10) |
| Extraction.GradeTokenValue | calculation.py:36 | a grade token is TR, W or one to three digits; a digit token reads as a whole number from 0 to 999 |
| Extraction.ExampleLineWellFormed | calculation.py:36 | the line `CMPT 214 ... Campus UG <title> 85 3.000` fits every token class of the pattern |
| Extraction.MainCampusExample | calculation.py:41-60 | that line, with no '-' in its filler or title, gives ("CMPT214", "USask - Main Campus", "UG", the normalised title, "85", 3.0), for any title, multi-word ones included |
| Extraction.OffCampusExample | calculation.py:43-47 | "Off-campus" anywhere in the line's filler gives location "Off-campus Site", with the normalised title |
| Extraction.NoOffCampusIn | calculation.py:45 | a span without '-' gets the main-campus location |
| Deduplication.Deduplicate | calculation.py:64-70 | the single dict pass returns the last course of each label, in first-seen order |
| Deduplication.Deduplicated | calculation.py:64-70 | every course of the result is a course of the input |
| Deduplication.RowsOfLastValues | calculation.py:327 | lists with the same records position by position keep the same records after the last-value-wins pass |
| Deduplication.DeduplicatedLastWins | calculation.py:67-69 | each course kept is the last input course with its label |
| Deduplication.DeduplicatedLabels | calculation.py:64-70 | the kept labels are pairwise distinct, are exactly the input's labels, and come in first-occurrence order |
| Deduplication.DistinctLabelsDistinctCourses | calculation.py:70 | courses with distinct labels are distinct objects |
| Deduplication.DeduplicatedCourses | calculation.py:70 | the result is made of input courses, each at most once |
| Deduplication.DeduplicatedOfDistinct | calculation.py:64-70 | a list without repeated labels is returned as it is |
| Deduplication.DeduplicatedIdempotent | calculation.py:64-70 | deduplicating twice is deduplicating once |
| Aggregation.CalculateWeightedAverage | calculation.py:72-86 | the loop returns the sum of credits and of grade times credits over the counted courses, and their guarded quotient |
| Aggregation.Counts | calculation.py:77-84 | a counted record is neither a transfer credit nor a withdrawal |
| Aggregation.Average | calculation.py:85 | with positive credits, the average times the credits is the weighted sum; otherwise the average is 0 |
| Aggregation.Summary | calculation.py:72-86 | the totals' average is the weighted sum over the credits when these are positive, and 0 otherwise |
| Aggregation.AddShare | calculation.py:77-84 | one pass of the loop adds that course's share to each running sum: nothing for a withdrawal or a non-numeric grade |
| Aggregation.CourseShare | calculation.py:80-82 | a counted course adds its credit hours and its grade times its credit hours |
| Aggregation.SumsSnoc | calculation.py:76-84 | one more record adds its share to each sum |
| Aggregation.SumsAppend | calculation.py:76-84 | the sums over a concatenation are the sums of the parts |
| Aggregation.ExcludedRowAddsNothing | calculation.py:77-84 | a `W` or non-numeric grade changes none of the three totals |
| Aggregation.CountedRowAdds | calculation.py:79-82 | a numeric, non-`W` record adds its credit hours to the credits and grade times credit hours to the weighted sum |
| Aggregation.NothingCountedGivesZero | calculation.py:85 | with no counted record the totals are (0, 0, 0): the division is guarded |
| Aggregation.EmptyAndWithdrawnGiveZero | calculation.py:85 | the empty list and a list of withdrawals both give (0, 0, 0) |
| Aggregation.Example | calculation.py:72-86 | 80 and 90 on 3 credits each, plus a TR and a W course, give (6, 510, 85) |
| Aggregation.ExampleSums | calculation.py:76-84 | that list has 6 credits and a weighted sum of 510 |
| WhatIf.Regraded | calculation.py:96-112 | same length; every course with the label gets the new grade and keeps its other fields; every other course is unchanged |
| WhatIf.RegradeAll | calculation.py:96-112 | the loop builds the regraded records, with a new object for each matching course and the same object for the others; `found` tells whether the label occurs |
| WhatIf.RegradedCopy | calculation.py:101-108 | a new course equal to the old one except for the grade |
| WhatIf.CheckUpdatedAverage | calculation.py:88-125 | an empty line is skipped; not exactly two parts is an invalid format; an absent label is reported; otherwise the totals of the regraded list; the input courses are untouched |
| WhatIf.UpdatedAverage | calculation.py:90-119 | an all-whitespace line is exactly the skipped case; a label reported missing is absent from the list; totals are recomputed only for a line of two comma parts |
| WhatIf.RegradedAbsent | calculation.py:114-116 | a label no course has changes nothing |
| WhatIf.RegradedLabels | calculation.py:98-112 | the labels, and so the order, stay the same |
| WhatIf.RegradedIdempotent | calculation.py:98-112 | applying the same update twice is applying it once |
| WhatIf.RegradedTwice | calculation.py:98-112 | a second update of the same label overrides the first |
| WhatIf.RecomputedIff | calculation.py:90-119 | totals are recomputed exactly when the stripped line is non-empty, has two parts, and names a present label |
| Edits.WithFirstGrade | calculation.py:214-235 | the list keeps its length |
| Edits.WithFirstGradeChangesFirstOnly | calculation.py:201-235 | only the first course with the label changes, and only its grade; every other course is unchanged |
| Edits.WithFirstGradeLabels | calculation.py:235 | a grade edit keeps every label in its place |
| Edits.GradeEntryOutcome | calculation.py:214-233 | no course, a cancelled dialog or a blank entry is ignored; a change needs a numeric stripped entry; a rejection is a non-numeric entry in an accepted dialog for a found course |
| Edits.EditGradeOutcome | calculation.py:214-216 | a label no course has is ignored |
| Edits.EditGradeRows | calculation.py:207-238 | the grade edit keeps every label in its place |
| Edits.EditGradeUnchanged | calculation.py:214-233 | an unknown label, a cancelled dialog, or a blank or non-numeric entry leaves the list unchanged and reports no change |
| Edits.WithFirstGradeIsRegraded | calculation.py:98-112 | with no repeated label, the grade edit is the update `check_updated_average` makes |
| Edits.NewCourseEntryIff | calculation.py:255-275 | an entry is accepted exactly when it has three comma parts with numeric grade and credits; the record then carries the label, grade and parsed credits, and "Temporary Estimate" three times |
| Edits.NewCourseEntry | calculation.py:255-275 | an accepted entry has a numeric grade and "Temporary Estimate" as location, level and title |
| Edits.AddCourseOutcome | calculation.py:246-266 | a cancelled dialog or a blank entry is ignored; a change needs a valid entry |
| Edits.AddCourseRows | calculation.py:246-278 | the earlier records stay in front and at most one record is added |
| Edits.AddCourseAppends | calculation.py:276 | on success exactly one record is appended: the earlier records are unchanged and the new one is the entry parsed from the stripped input (labels are not checked); otherwise nothing changes |
| Edits.WithoutLabel | calculation.py:303 | the filtered list is no longer than the original |
| Edits.WithoutLabelMembers | calculation.py:303 | a record is kept exactly when it was present and has another label |
| Edits.WithoutLabelRemovesAll | calculation.py:303 | after the deletion no course has the label |
| Edits.WithoutLabelAppend | calculation.py:303 | filtering a concatenation filters each part, so the kept courses keep their relative order |
| Edits.WithoutLabelAbsent | calculation.py:303 | deleting a label no course has keeps the list as it is |
| Edits.DeleteOutcome | calculation.py:280-300 | the information box is shown exactly when no row is selected; a change needs the confirmation |
| Edits.DeleteRows | calculation.py:280-307 | the list does not grow, and after a confirmed deletion no record has the label |
| Edits.DeleteIsWithdraw | calculation.py:303 | for the totals, deleting a course is the same as withdrawing from it |
| Edits.ActionUnchangedUnlessChanged | calculation.py:148-166 | every action that does not report a change leaves the list as it was |
| Edits.ActionRows | calculation.py:148-166 | a grade edit keeps the labels, an addition keeps the earlier records in front, a deletion does not grow the list |
| Edits.ActionOutcome | calculation.py:148-166 | a restore always changes the list; a grade edit of an absent label is ignored |
| Window.MainWindow.constructor | calculation.py:128-134 | the window holds the given list and snapshot; its records and snapshot records are those of the arguments |
| Window.MainWindow.FindCourseByLabel | calculation.py:201-205 | `None` exactly when no course has the label, otherwise the first course with it |
| Window.MainWindow.EditGrade | calculation.py:207-238 | the outcome and the new list are those of the grade-edit functions on the old list; the snapshot is unchanged |
| Window.MainWindow.SetFirstGrade | calculation.py:235 | writing the grade of the first course with the label gives the grade-edit records, and the snapshot is unchanged |
| Window.MainWindow.SetGrade | calculation.py:235 | the in-place write gives the course at that position its new grade and leaves every other record and the snapshot as they were |
| Window.MainWindow.RestoreGrades | calculation.py:240-244 | the list is a fresh copy of the snapshot's records in key order; the snapshot is unchanged |
| Window.MainWindow.AddCourse | calculation.py:246-278 | the outcome and the new list are those of the addition functions; the snapshot is unchanged |
| Window.MainWindow.AppendRecord | calculation.py:268-276 | a new course carrying the record is appended; the earlier ones are untouched |
| Window.MainWindow.DeleteCourse | calculation.py:280-307 | no selection is reported, a refusal changes nothing, a confirmation removes every course with the label; the snapshot is unchanged |
| Window.MainWindow.Handle | calculation.py:148-166 | each action runs its slot: the list becomes what the action's function gives and the snapshot is unchanged |
| Window.MainWindow.UpdateSummary | calculation.py:193-199 | the shown totals are those of the current records |
| Window.CloneAll | calculation.py:242 | one fresh, distinct copy per course, with equal records, in order |
| Window.KeepOthers | calculation.py:303 | the kept courses are listed courses without the label |
| Window.KeepOthersRows | calculation.py:303 | the records of the kept courses are exactly the records the deletion keeps |
| Window.KeepOthersDistinct | calculation.py:303 | no course object is kept twice when none was listed twice |
| Window.BuildSnapshot | calculation.py:327 | keys in first-seen order; the values are fresh copies whose records are last-value-wins over the list; no listed course is a snapshot value |
| Window.OpenWindow | calculation.py:327-329 | for a list with no repeated label, the new window's snapshot records equal its list's records |
| Window.Launch | calculation.py:324-329 | the window opens on the deduplicated courses, and its snapshot holds the same records |
| Window.Session | calculation.py:323-332 | after any actions followed by a restore, the list holds the records of the deduplicated transcript as parsed, whatever the edits did to those objects |

## Left out

- PDF reading (`read_pdf`, calculation.py:24-30) uses a foreign library and file I/O.
- The pattern engine is not modelled. `Extraction.ParseCourses` takes the matches of `finditer` as given, in text order; the model does not state that the spans are non-overlapping and leftmost.
- `Extraction.ParseCourses` requires only that each credit token has the form `d.ddd`. The other token classes (`Extraction.WellFormed`) are assumed only by the shape lemmas.
- `\d` and `\s` are read as the ASCII digits and as Python's whitespace set, with no other Unicode digits.
- `float()` is modelled for decimal forms only: an optional sign, digits, and at most one point. `nan`, `inf`, exponents, underscores and surrounding whitespace are not covered. `float()` accepts an entry such as `85,1e2,3`; the model rejects it.
- Floating-point rounding is not modelled: credit hours and totals are exact reals.
- The directory scan, `sys.exit` and the "no PDF" message (calculation.py:310-320) are I/O.
- `run_calculation.py` only installs packages and launches a process.
- Qt is not modelled: the layout, `populate_table`, the string formatting of `update_summary`, the dialogs, the message boxes and `table.removeRow`. The dialog results and the selected row's label are parameters; an outcome says what the user is shown.
- `Window.MainWindow.EditGrade` and `Window.MainWindow.DeleteCourse` take the label of the row instead of reading it from the table. The `label_item is None` branches (calculation.py:210, 287) have no counterpart.
- The prompt and the printing in `check_updated_average` (calculation.py:90, 115, 120-125) are I/O. The typed line is a parameter.
- The event loop `app.exec()` is modelled as `Window.Session` over a given list of actions.
- `Course.__str__` (courses.py:91-94) is formatting only.
- The second copy of the module (calculation.py:334-918) is not modelled. Under `__main__` it is never reached, and it calls `re.dotall` (calculation.py:430), which does not exist.
- `Window.MainWindow.constructor` requires the list and the snapshot to share no course object, and the key order to list each snapshot key once. `Window.OpenWindow` establishes both, as the start-up code does.
- `Window.OpenWindow` requires a list with no repeated label. `Window.Launch` calls it only on the deduplicated list, as calculation.py:327 does.
- No bound on the average is stated: grades are not limited to 0-100, so none follows from the source.
