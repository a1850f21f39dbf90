/**
  `parse_courses`: one course record per match of the transcript pattern

      subject \s+ code \s+ .*? (Campus|Site) \s+ level \s+ title \s+ grade \s+ credit_hours

  A match is given by the text of each of its pieces, in order; the pattern
  engine that finds the matches in the transcript text is not part of this
  model. `WellFormed` states what the pattern guarantees of every piece.
 */
module Extraction {
  import opened Text
  import opened Numbers
  import opened Courses
  import opened Dicts

  /** One match, split into its named groups and the text between them. */
  datatype Match = Match(
    subject: string,     // [A-Z]{2,4}
    gap1: string,        // \s+
    code: string,        // \d{3}|[A-Z]+
    gap2: string,        // \s+
    filler: string,      // .*? (any text, newlines included)
    marker: string,      // Campus|Site
    gap3: string,        // \s+
    level: string,       // UG|GR
    gap4: string,        // \s+
    title: string,       // .*?
    gap5: string,        // \s+
    grade: string,       // \d{1,3}|TR|W
    gap6: string,        // \s+
    creditHours: string, // \d\.\d{3}
    span: string)        // match.group(0)
  {
    /** The pieces of the match, one after the other. */
    function Pieces(): string {
      subject + gap1 + code + gap2 + filler + marker + gap3 + level + gap4 + title + gap5 + grade + gap6 + creditHours
    }
  }

  predicate IsGap(s: string) { |s| >= 1 && AllSpace(s) }

  predicate IsSubjectToken(s: string) { 2 <= |s| <= 4 && AllUpper(s) }

  predicate IsCodeToken(s: string) { (|s| == 3 && AllDigits(s)) || (|s| >= 1 && AllUpper(s)) }

  predicate IsMarkerToken(s: string) { s == "Campus" || s == "Site" }

  predicate IsLevelToken(s: string) { s == "UG" || s == "GR" }

  predicate IsGradeToken(s: string) { (1 <= |s| <= 3 && AllDigits(s)) || s == "TR" || s == "W" }

  predicate IsCreditToken(s: string) { |s| == 5 && IsDigit(s[0]) && s[1] == '.' && AllDigits(s[2..]) }

  /** Every piece of `m` belongs to the class its place in the pattern allows. */
  predicate WellFormed(m: Match) {
    && IsSubjectToken(m.subject) && IsGap(m.gap1) && IsCodeToken(m.code) && IsGap(m.gap2)
    && IsMarkerToken(m.marker) && IsGap(m.gap3) && IsLevelToken(m.level) && IsGap(m.gap4)
    && IsGap(m.gap5) && IsGradeToken(m.grade) && IsGap(m.gap6) && IsCreditToken(m.creditHours)
    && m.span == m.Pieces()
  }

  const OffCampusMarker := "Off-campus"
  const OffCampusSite := "Off-campus Site"
  const MainCampus := "USask - Main Campus"

  /** The location recorded for a matched span. */
  function LocationOf(span: string): (location: string)
    ensures location == OffCampusSite || location == MainCampus
  {
    if Contains(span, OffCampusMarker) then OffCampusSite else MainCampus
  }

  /** `" ".join(s.split())`. */
  function NormalizeTitle(s: string): (t: string)
    ensures IsNormalized(t)
    ensures Words(t) == Words(s)
  {
    var ws := Words(s);
    JoinWordsNormalized(ws);
    WordsOfJoin(ws);
    JoinWith(ws, ' ')
  }

  /** `float()` of a credit token `d.ddd`: the units digit plus tenths, hundredths and thousandths. */
  lemma CreditTokenValue(s: string)
    requires IsCreditToken(s)
    ensures IsNumeric(s)
    ensures NumericValue(s) ==
      DigitValue(s[0]) + DigitValue(s[2]) / 10.0 + DigitValue(s[3]) / 100.0 + DigitValue(s[4]) / 1000.0
    ensures 0.0 <= NumericValue(s) < 10.0
  {
    assert '.' in s;
    assert IndexOf(s, '.') == 1;
    assert s[..1] == [s[0]];
    assert DigitsValue(s[..1]) == DigitValue(s[0]) by {
      assert s[..1][..0] == [];
    }
    assert s[0] != '+' && s[0] != '-';
    var f := s[2..];
    assert s[4..][1..] == [];
    assert FractionValue(s[4..]) == DigitValue(s[4]) / 10.0;
    assert s[3..][1..] == s[4..];
    assert FractionValue(s[3..]) == (DigitValue(s[3]) + FractionValue(s[4..])) / 10.0;
    assert f[1..] == s[3..];
    assert FractionValue(f) == (DigitValue(s[2]) + FractionValue(s[3..])) / 10.0;
    FractionValueBound(f);
  }

  /** A credit token parses as a number. */
  lemma CreditTokenIsNumeric(s: string)
    requires IsCreditToken(s)
    ensures IsNumeric(s)
  {
    assert '.' in s;
    assert IndexOf(s, '.') == 1;
    assert s[..1] == [s[0]];
  }

  /** The record `parse_courses` builds from one match. */
  function BuildRecord(m: Match): (r: CourseDict)
    requires IsCreditToken(m.creditHours)
    ensures 0.0 <= r.creditHours < 10.0
  {
    CreditTokenValue(m.creditHours);
    CourseDict(
      m.subject + m.code,
      LocationOf(m.span),
      m.level,
      NormalizeTitle(m.title),
      m.grade,
      NumericValue(m.creditHours))
  }

  /** The body of `parse_courses`'s loop: a new course from one match. */
  method NewCourse(m: Match) returns (course: Course)
    requires IsCreditToken(m.creditHours)
    ensures fresh(course)
    ensures course.ToDict() == BuildRecord(m)
  {
    var courseLabel := m.subject + m.code;
    var location := LocationOf(m.span);
    var title := NormalizeTitle(m.title);
    CreditTokenIsNumeric(m.creditHours);
    var creditHours := NumericValue(m.creditHours);
    course := new Course(courseLabel, location, m.level, title, m.grade, creditHours);
  }

  /**
    `parse_courses` on the matches found in the transcript, in text order:
    one new course per match, carrying the record built from it.
   */
  method ParseCourses(matches: seq<Match>) returns (courses: seq<Course>)
    requires forall i :: 0 <= i < |matches| ==> IsCreditToken(matches[i].creditHours)
    ensures |courses| == |matches|
    ensures forall i :: 0 <= i < |courses| ==> courses[i].ToDict() == BuildRecord(matches[i])
    ensures DistinctObjects(courses)
    ensures forall c :: c in courses ==> fresh(c)
  {
    courses := [];
    for i := 0 to |matches|
      invariant |courses| == i
      invariant forall k :: 0 <= k < i ==> fresh(courses[k])
      invariant forall k :: 0 <= k < i ==> courses[k].ToDict() == BuildRecord(matches[k])
      invariant DistinctObjects(courses)
    {
      var course := NewCourse(matches[i]);
      courses := courses + [course];
    }
  }

  // ---------------------------------------------------------------------
  // What a built record is guaranteed to look like

  /** The location is the off-campus site exactly when "Off-campus" occurs in the span, else the main campus. */
  lemma LocationChoice(span: string)
    ensures LocationOf(span) == OffCampusSite <==> exists i :: OccursAt(span, OffCampusMarker, i)
    ensures LocationOf(span) == MainCampus <==> !exists i :: OccursAt(span, OffCampusMarker, i)
  {
    ContainsIff(span, OffCampusMarker);
  }

  /** The title normalisation: normalised, same non-blank characters in the same order, idempotent. */
  lemma NormalizeTitleFacts(s: string)
    ensures IsNormalized(NormalizeTitle(s))
    ensures NonSpace(NormalizeTitle(s)) == NonSpace(s)
    ensures NormalizeTitle(NormalizeTitle(s)) == NormalizeTitle(s)
  {
    var ws := Words(s);
    JoinWordsNormalized(ws);
    NonSpaceOfJoin(ws);
    NonSpaceOfWords(s);
    WordsOfJoin(ws);
  }

  /** A title with no blank at all is kept as it is. */
  lemma NormalizeSingleWord(w: string)
    requires IsWord(w)
    ensures NormalizeTitle(w) == w
  {
    TakeWordOf(w, []);
    assert w + [] == w;
    assert w[|w|..] == [];
    assert Words(w) == [w];
  }

  /** Every whitespace run between two words becomes one space, and those at the ends are dropped. */
  lemma NormalizeTitleSpaced(gaps: seq<string>, ws: seq<string>)
    requires AllWords(ws) && Gaps(gaps, |ws|)
    ensures NormalizeTitle(Spaced(gaps, ws)) == JoinWith(ws, ' ')
  {
    WordsOfSpaced(gaps, ws);
  }

  /** Two words with any whitespace around and between them come out with one space between them. */
  lemma NormalizeTwoWords(g0: string, w1: string, g1: string, w2: string, g2: string)
    requires IsWord(w1) && IsWord(w2)
    requires AllSpace(g0) && AllSpace(g1) && AllSpace(g2) && g1 != []
    ensures NormalizeTitle(g0 + w1 + g1 + w2 + g2) == w1 + " " + w2
  {
    var gaps, ws := [g0, g1, g2], [w1, w2];
    assert Spaced(gaps[2..], ws[2..]) == g2;
    assert Spaced(gaps, ws) == g0 + w1 + g1 + w2 + g2;
    NormalizeTitleSpaced(gaps, ws);
    assert JoinWith(ws[1..], ' ') == w2;
  }

  /** The label is the subject followed by the code: it starts with 2-4 capitals, and the rest is the code. */
  lemma LabelShape(m: Match)
    requires WellFormed(m)
    ensures var l := BuildRecord(m).courseLabel;
      && 3 <= |l|
      && AllUpper(l[..|m.subject|]) && l[..|m.subject|] == m.subject
      && l[|m.subject|..] == m.code
      && NoSpace(l)
  {
    var l := BuildRecord(m).courseLabel;
    assert l == m.subject + m.code;
    assert l[..|m.subject|] == m.subject;
    assert l[|m.subject|..] == m.code;
    forall i | 0 <= i < |l| ensures !IsSpace(l[i]) {
      if i < |m.subject| {
        assert l[i] == m.subject[i];
      } else {
        assert l[i] == m.code[i - |m.subject|];
      }
    }
  }

  /**
    Every record built from a match has a main-campus or off-campus-site
    location, a level UG or GR, a normalised title, a grade that is TR, W
    or a whole number from 0 to 999, and credit hours in [0, 10).
   */
  lemma RecordShape(m: Match)
    requires WellFormed(m)
    ensures var r := BuildRecord(m);
      && (r.location == OffCampusSite || r.location == MainCampus)
      && (r.level == "UG" || r.level == "GR")
      && IsNormalized(r.title)
      && IsGradeToken(r.grade)
      && (r.grade == "TR" || r.grade == "W" ||
          (IsNumeric(r.grade) && NumericValue(r.grade) == NumericValue(r.grade).Floor as real && 0.0 <= NumericValue(r.grade) <= 999.0))
      && 0.0 <= r.creditHours < 10.0
  {
    var r := BuildRecord(m);
    assert r.title == NormalizeTitle(m.title) && r.grade == m.grade && r.creditHours == NumericValue(m.creditHours);
    NormalizeTitleFacts(m.title);
    CreditTokenValue(m.creditHours);
    GradeTokenValue(m.grade);
  }

  /** A grade token is TR, W or one to three digits, whose value is a whole number from 0 to 999. */
  lemma GradeTokenValue(g: string)
    requires IsGradeToken(g)
    ensures g == "TR" || g == "W" || (1 <= |g| <= 3 && AllDigits(g))
    ensures g != "TR" && g != "W" ==>
      && IsNumeric(g) && NumericValue(g) == DigitsValue(g)
      && NumericValue(g) == NumericValue(g).Floor as real
      && 0.0 <= NumericValue(g) <= 999.0
  {
    if g != "TR" && g != "W" {
      DigitRunValue(g);
      DigitsValueWhole(g);
      assert Pow10(|g|) <= 1000.0 by {
        assert Pow10(1) == 10.0 && Pow10(2) == 100.0 && Pow10(3) == 1000.0;
      }
    }
  }

  /** A transcript line `CMPT 214 <filler>Campus UG <title> 85 3.000`. */
  function ExampleLine(filler: string, title: string): Match {
    var m := Match("CMPT", " ", "214", " ", filler, "Campus", " ", "UG", " ", title, " ", "85", " ", "3.000", "");
    m.(span := m.Pieces())
  }

  /** The example line matches the pattern whatever its filler and title. */
  lemma ExampleLineWellFormed(filler: string, title: string)
    ensures WellFormed(ExampleLine(filler, title))
  {
    ExampleTokens();
  }

  /** Without "Off-campus" in the line, the course is on the main campus and keeps the normalised title. */
  lemma MainCampusExample(filler: string, title: string)
    requires '-' !in filler && '-' !in title
    ensures BuildRecord(ExampleLine(filler, title)) ==
      CourseDict("CMPT214", MainCampus, "UG", NormalizeTitle(title), "85", 3.0)
  {
    var m := ExampleLine(filler, title);
    ExampleLineNoDash(filler, title);
    NoOffCampusIn(m.span);
    ExampleRecord(m, MainCampus);
  }

  lemma ExampleLineNoDash(filler: string, title: string)
    requires '-' !in filler && '-' !in title
    ensures '-' !in ExampleLine(filler, title).span
  {
    var tail := "Campus" + " " + "UG" + " " + title + " " + "85" + " " + "3.000";
    assert '-' !in tail;
    assert ExampleLine(filler, title).span == "CMPT" + " " + "214" + " " + filler + tail;
  }

  /** "Off-campus" anywhere in the line's filler makes the course an off-campus one. */
  lemma OffCampusExample(filler: string, i: nat, title: string)
    requires OccursAt(filler, OffCampusMarker, i)
    ensures BuildRecord(ExampleLine(filler, title)) ==
      CourseDict("CMPT214", OffCampusSite, "UG", NormalizeTitle(title), "85", 3.0)
  {
    var m := ExampleLine(filler, title);
    var pre := "CMPT" + " " + "214" + " ";
    var tail := "Campus" + " " + "UG" + " " + title + " " + "85" + " " + "3.000";
    assert m.span == pre + filler + tail;
    OccursWithin(pre, filler, tail, OffCampusMarker, i);
    LocationChoice(m.span);
    ExampleRecord(m, OffCampusSite);
  }

  /** The record of the example line, given the location its span gives. */
  lemma ExampleRecord(m: Match, location: string)
    requires m.subject == "CMPT" && m.code == "214" && m.level == "UG" && m.grade == "85" && m.creditHours == "3.000"
    requires LocationOf(m.span) == location
    ensures BuildRecord(m) == CourseDict("CMPT214", location, "UG", NormalizeTitle(m.title), "85", 3.0)
  {
    assert m.subject + m.code == "CMPT214";
    ExampleCredit();
  }

  lemma ExampleTokens()
    ensures IsGap(" ") && IsSubjectToken("CMPT") && IsCodeToken("214") && IsMarkerToken("Campus")
    ensures IsLevelToken("UG") && IsGradeToken("85") && IsCreditToken("3.000")
  {
    assert IsSpace(' ');
    assert "3.000"[2..] == "000";
  }

  lemma ExampleCredit()
    ensures IsNumeric("3.000") && NumericValue("3.000") == 3.0
  {
    CreditTokenValue("3.000");
  }

  /** A span with no '-' cannot contain "Off-campus". */
  lemma NoOffCampusIn(span: string)
    requires '-' !in span
    ensures LocationOf(span) == MainCampus
  {
    LocationChoice(span);
    forall i: nat ensures !OccursAt(span, OffCampusMarker, i) {
      if i + |OffCampusMarker| <= |span| {
        assert span[i + 3] != '-';
        assert span[i..i + |OffCampusMarker|][3] != OffCampusMarker[3];
      }
    }
  }
}
