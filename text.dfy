/**
  The Python string built-ins the calculator relies on, over `string`
  (= `seq<char>`): the whitespace class of `str.isspace` (which is also what
  `\s` matches in a `str` regular expression), `str.strip()`, `str.split()`
  with and without a separator, `sep.join(parts)` and the substring test
  `p in s`.
 */
module Text {

  /** `c.isspace()`: the Unicode whitespace characters Python strips and splits on. */
  predicate IsSpace(c: char) {
    || c == ' '
    || '\t' <= c <= '\r'
    || '\U{1C}' <= c <= '\U{1F}'
    || c == '\U{85}' || c == '\U{A0}' || c == '\U{1680}'
    || '\U{2000}' <= c <= '\U{200A}'
    || c == '\U{2028}' || c == '\U{2029}' || c == '\U{202F}' || c == '\U{205F}' || c == '\U{3000}'
  }

  /** `[0-9]` (the model reads `\d` as the ASCII digits only). */
  predicate IsDigit(c: char) { '0' <= c <= '9' }

  /** `[A-Z]` */
  predicate IsUpper(c: char) { 'A' <= c <= 'Z' }

  predicate NoSpace(s: string) { forall i :: 0 <= i < |s| ==> !IsSpace(s[i]) }

  predicate AllSpace(s: string) { forall i :: 0 <= i < |s| ==> IsSpace(s[i]) }

  predicate AllDigits(s: string) { forall i :: 0 <= i < |s| ==> IsDigit(s[i]) }

  predicate AllUpper(s: string) { forall i :: 0 <= i < |s| ==> IsUpper(s[i]) }

  /** Position of the first `c` in `s` (`s.index(c)`). */
  function IndexOf(s: string, c: char): (i: nat)
    requires c in s
    ensures i < |s| && s[i] == c
    ensures c !in s[..i]
  {
    if s[0] == c then 0
    else
      assert s == [s[0]] + s[1..];
      var j := IndexOf(s[1..], c);
      assert s[..1 + j] == [s[0]] + s[1..][..j];
      1 + j
  }

  // ---------------------------------------------------------------------
  // str.strip()

  /** The number of whitespace characters at the front of `s`. */
  function LeadingSpaces(s: string): (n: nat)
    ensures n <= |s| && AllSpace(s[..n])
    ensures n == |s| || !IsSpace(s[n])
  {
    if s != [] && IsSpace(s[0]) then
      var m := LeadingSpaces(s[1..]);
      var front, rest := s[..1 + m], s[1..][..m];
      assert forall k :: 1 <= k < 1 + m ==> front[k] == rest[k - 1];
      1 + m
    else 0
  }

  /** The number of whitespace characters at the back of `s`. */
  function TrailingSpaces(s: string): (n: nat)
    ensures n <= |s| && AllSpace(s[|s| - n..])
    ensures n == |s| || !IsSpace(s[|s| - n - 1])
  {
    if s != [] && IsSpace(s[|s| - 1]) then
      var init := s[..|s| - 1];
      var m := TrailingSpaces(init);
      var back, rest := s[|s| - 1 - m..], init[|init| - m..];
      assert forall k :: 0 <= k < m ==> back[k] == rest[k];
      1 + m
    else 0
  }

  /** `s.lstrip()` */
  function TrimStart(s: string): (r: string)
    ensures |r| <= |s| && r == s[|s| - |r|..]
    ensures AllSpace(s[..|s| - |r|])
    ensures r == [] || !IsSpace(r[0])
  {
    s[LeadingSpaces(s)..]
  }

  /** `s.rstrip()` */
  function TrimEnd(s: string): (r: string)
    ensures |r| <= |s| && r == s[..|r|]
    ensures AllSpace(s[|r|..])
    ensures r == [] || !IsSpace(r[|r| - 1])
  {
    s[..|s| - TrailingSpaces(s)]
  }

  /** `r` is what is left of `s` after cutting whitespace-only runs of
      length `i` off the front and `|s| - i - |r|` off the back. */
  predicate StripsTo(s: string, r: string, i: nat) {
    i + |r| <= |s| && r == s[i..i + |r|] && AllSpace(s[..i]) && AllSpace(s[i + |r|..])
  }

  /**
    `s.strip()`: the result is the slice of `s` left when the whitespace at
    both ends is cut off, so it is empty exactly when `s` is all whitespace.
   */
  function Strip(s: string): (r: string)
    ensures r == [] || (!IsSpace(r[0]) && !IsSpace(r[|r| - 1]))
    ensures r == [] <==> AllSpace(s)
    ensures exists i :: StripsTo(s, r, i)
  {
    var t := TrimStart(s);
    var r := TrimEnd(t);
    assert TrimmedBoth(s, t, r);
    StripFacts(s, t, r);
    r
  }

  /** What `TrimStart` and then `TrimEnd` promise, as facts about the slices. */
  predicate TrimmedBoth(s: string, t: string, r: string) {
    && |t| <= |s| && t == s[|s| - |t|..] && AllSpace(s[..|s| - |t|]) && (t == [] || !IsSpace(t[0]))
    && |r| <= |t| && r == t[..|r|] && AllSpace(t[|r|..])
  }

  lemma StripFacts(s: string, t: string, r: string)
    requires TrimmedBoth(s, t, r)
    ensures StripsTo(s, r, |s| - |t|)
    ensures r == [] <==> AllSpace(s)
  {
    StripSlice(s, t, r);
    StripEmpty(s, t, r);
  }

  lemma StripSlice(s: string, t: string, r: string)
    requires TrimmedBoth(s, t, r)
    ensures StripsTo(s, r, |s| - |t|)
  {
    var i := |s| - |t|;
    assert s[i..i + |r|] == t[..|r|];
    assert s[i + |r|..] == t[|r|..];
  }

  lemma StripEmpty(s: string, t: string, r: string)
    requires TrimmedBoth(s, t, r)
    ensures r == [] <==> AllSpace(s)
  {
    var i := |s| - |t|;
    if r == [] {
      assert t[|r|..] == t;
      assert s == s[..i] + t;
      AllSpaceConcat(s[..i], t);
    } else {
      assert r[0] == t[0] && t[0] == s[i];
    }
  }

  lemma {:induction false} AllSpaceConcat(a: string, b: string)
    requires AllSpace(a) && AllSpace(b)
    ensures AllSpace(a + b)
  {
  }

  // ---------------------------------------------------------------------
  // str.split(sep) and sep.join(parts)

  /** `s.split(sep)` for a one-character separator: never empty, no part holds `sep`. */
  function SplitOn(s: string, sep: char): (parts: seq<string>)
    ensures |parts| >= 1
    ensures forall i :: 0 <= i < |parts| ==> sep !in parts[i]
    decreases |s|
  {
    if sep !in s then [s]
    else
      var i := IndexOf(s, sep);
      [s[..i]] + SplitOn(s[i + 1..], sep)
  }

  /** `sep.join(parts)` for a one-character separator. */
  function JoinWith(parts: seq<string>, sep: char): string
  {
    if |parts| == 0 then ""
    else if |parts| == 1 then parts[0]
    else parts[0] + [sep] + JoinWith(parts[1..], sep)
  }

  /** `[part.strip() for part in s.split(sep)]`, the input splitting of the edit dialogs. */
  function Fields(s: string, sep: char): (fields: seq<string>)
    ensures |fields| == |SplitOn(s, sep)| >= 1
    ensures forall i :: 0 <= i < |fields| ==> sep !in fields[i]
    ensures forall i :: 0 <= i < |fields| ==> fields[i] == [] || (!IsSpace(fields[i][0]) && !IsSpace(fields[i][|fields[i]| - 1]))
  {
    var parts := SplitOn(s, sep);
    forall i | 0 <= i < |parts| ensures sep !in Strip(parts[i]) {
      StripKeepsOut(parts[i], sep);
    }
    seq(|parts|, i requires 0 <= i < |parts| => Strip(parts[i]))
  }

  /** A character absent from `s` is absent from `s.strip()`. */
  lemma StripKeepsOut(s: string, c: char)
    requires c !in s
    ensures c !in Strip(s)
  {
    var r := Strip(s);
    var i: nat :| StripsTo(s, r, i);
    forall k | 0 <= k < |r| ensures r[k] != c {
      assert r == s[i..i + |r|];
      assert r[k] == s[i + k];
    }
  }

  /** A join starts with its first part and ends with its last. */
  lemma {:induction false} JoinWithEnds(parts: seq<string>, sep: char)
    requires |parts| >= 1
    ensures var r := JoinWith(parts, sep); |parts[0]| <= |r| && r[..|parts[0]|] == parts[0]
    ensures var r, last := JoinWith(parts, sep), parts[|parts| - 1]; |last| <= |r| && r[|r| - |last|..] == last
  {
    if |parts| > 1 {
      var rest := JoinWith(parts[1..], sep);
      JoinWithEnds(parts[1..], sep);
      var r := parts[0] + [sep] + rest;
      assert JoinWith(parts, sep) == r;
      assert r[..|parts[0]|] == parts[0];
      assert parts[1..][|parts[1..]| - 1] == parts[|parts| - 1];
      assert r[|r| - |parts[|parts| - 1]|..] == rest[|rest| - |parts[|parts| - 1]|..];
    }
  }

  /** Joining the pieces of a split gives back the original text. */
  lemma {:induction false} JoinSplitOn(s: string, sep: char)
    ensures JoinWith(SplitOn(s, sep), sep) == s
    decreases |s|
  {
    if sep in s {
      var i := IndexOf(s, sep);
      var rest := SplitOn(s[i + 1..], sep);
      JoinSplitOn(s[i + 1..], sep);
      var parts := SplitOn(s, sep);
      assert parts == [s[..i]] + rest;
      assert |parts| >= 2 && parts[0] == s[..i] && parts[1..] == rest;
      assert JoinWith(parts, sep) == s[..i] + [sep] + JoinWith(rest, sep);
      assert s == s[..i] + [sep] + s[i + 1..];
    }
  }

  /** Splitting a join of separator-free pieces gives back the pieces. */
  lemma {:induction false} SplitOnJoin(parts: seq<string>, sep: char)
    requires |parts| >= 1
    requires forall i :: 0 <= i < |parts| ==> sep !in parts[i]
    ensures SplitOn(JoinWith(parts, sep), sep) == parts
  {
    if |parts| > 1 {
      var p := parts[0];
      var tail := JoinWith(parts[1..], sep);
      var s := p + [sep] + tail;
      assert JoinWith(parts, sep) == s;
      assert s[|p|] == sep;
      assert s[..|p|] == p;
      assert IndexOf(s, sep) == |p|;
      assert s[|p| + 1..] == tail;
      assert SplitOn(s, sep) == [p] + SplitOn(tail, sep);
      SplitOnJoin(parts[1..], sep);
      assert parts == [p] + parts[1..];
    }
  }

  // ---------------------------------------------------------------------
  // str.split() and " ".join(...)

  /** The longest prefix of `s` with no whitespace in it. */
  function TakeWord(s: string): (w: string)
    ensures |w| <= |s| && w == s[..|w|] && NoSpace(w)
    ensures |w| < |s| ==> IsSpace(s[|w|])
    ensures s != [] && !IsSpace(s[0]) ==> |w| >= 1
  {
    if s == [] || IsSpace(s[0]) then []
    else
      var w := TakeWord(s[1..]);
      assert [s[0]] + w == s[..1 + |w|];
      [s[0]] + w
  }

  predicate IsWord(w: string) { w != [] && NoSpace(w) }

  predicate AllWords(ws: seq<string>) { forall i :: 0 <= i < |ws| ==> IsWord(ws[i]) }

  /** `s.split()`: the maximal runs of non-whitespace characters, in order. */
  function Words(s: string): (ws: seq<string>)
    ensures AllWords(ws)
    decreases |s|
  {
    if s == [] then []
    else if IsSpace(s[0]) then Words(s[1..])
    else
      var w := TakeWord(s);
      [w] + Words(s[|w|..])
  }

  /** The characters of `s` that are not whitespace, in order. */
  function NonSpace(s: string): string
  {
    if s == [] then [] else (if IsSpace(s[0]) then [] else [s[0]]) + NonSpace(s[1..])
  }

  /** The concatenation of a list of strings (`"".join(ws)`). */
  function Concat(ws: seq<string>): string
  {
    if ws == [] then [] else ws[0] + Concat(ws[1..])
  }

  /**
    What `" ".join(ws)` promises for a list of words: no whitespace but the
    single space, none at either end, never two spaces in a row.
   */
  predicate IsNormalized(t: string) {
    && (forall i :: 0 <= i < |t| && IsSpace(t[i]) ==> t[i] == ' ')
    && (t != [] ==> t[0] != ' ' && t[|t| - 1] != ' ')
    && (forall i :: 0 <= i < |t| - 1 && t[i] == ' ' ==> t[i + 1] != ' ')
  }

  /** A space-joined list of words starts and ends with a non-whitespace character. */
  lemma {:induction false} JoinWordsEnds(ws: seq<string>)
    requires AllWords(ws) && |ws| >= 1
    ensures var t := JoinWith(ws, ' '); |t| >= 1 && !IsSpace(t[0]) && !IsSpace(t[|t| - 1])
  {
    if |ws| > 1 {
      JoinWordsEnds(ws[1..]);
      var t := JoinWith(ws[1..], ' ');
      assert JoinWith(ws, ' ') == ws[0] + [' '] + t;
      assert (ws[0] + [' '] + t)[0] == ws[0][0];
    }
  }

  /** `" ".join(ws)` of words is normalized. */
  lemma {:induction false} JoinWordsNormalized(ws: seq<string>)
    requires AllWords(ws)
    ensures IsNormalized(JoinWith(ws, ' '))
  {
    if |ws| == 1 {
      assert ws[0][0] == ws[0][0];
    } else if |ws| > 1 {
      var w := ws[0];
      var t := JoinWith(ws[1..], ' ');
      var j := w + [' '] + t;
      assert JoinWith(ws, ' ') == j;
      JoinWordsNormalized(ws[1..]);
      JoinWordsEnds(ws[1..]);
      forall i | 0 <= i < |j| && IsSpace(j[i]) ensures j[i] == ' ' {
        if i > |w| { assert j[i] == t[i - |w| - 1]; }
      }
      forall i | 0 <= i < |j| - 1 && j[i] == ' ' ensures j[i + 1] != ' ' {
        if i == |w| {
          assert j[i + 1] == t[0];
        } else {
          assert i > |w|;
          assert j[i] == t[i - |w| - 1] && j[i + 1] == t[i - |w|];
        }
      }
      assert j[|j| - 1] == t[|t| - 1];
    }
  }

  lemma {:induction false} NonSpaceConcat(a: string, b: string)
    ensures NonSpace(a + b) == NonSpace(a) + NonSpace(b)
    decreases |a|
  {
    if a != [] {
      assert (a + b)[1..] == a[1..] + b;
      NonSpaceConcat(a[1..], b);
    } else {
      assert a + b == b;
    }
  }

  lemma {:induction false} NonSpaceOfWord(w: string)
    requires NoSpace(w)
    ensures NonSpace(w) == w
  {
    if w != [] {
      NonSpaceOfWord(w[1..]);
    }
  }

  /** The non-whitespace characters of `" ".join(ws)` are those of the words, in order. */
  lemma {:induction false} NonSpaceOfJoin(ws: seq<string>)
    requires AllWords(ws)
    ensures NonSpace(JoinWith(ws, ' ')) == Concat(ws)
  {
    if |ws| == 1 {
      NonSpaceOfWord(ws[0]);
      assert Concat(ws) == ws[0] + Concat([]);
    } else if |ws| > 1 {
      var t := JoinWith(ws[1..], ' ');
      NonSpaceOfJoin(ws[1..]);
      NonSpaceConcat(ws[0] + [' '], t);
      NonSpaceConcat(ws[0], [' ']);
      NonSpaceOfWord(ws[0]);
      assert NonSpace([' ']) == [];
    }
  }

  /** The non-whitespace characters of `s` are those of `s.split()`, in order. */
  lemma {:induction false} NonSpaceOfWords(s: string)
    ensures NonSpace(s) == Concat(Words(s))
    decreases |s|
  {
    if s != [] {
      if IsSpace(s[0]) {
        NonSpaceOfWords(s[1..]);
      } else {
        var w := TakeWord(s);
        var rest := s[|w|..];
        assert s == w + rest;
        NonSpaceOfWords(rest);
        NonSpaceConcat(w, rest);
        NonSpaceOfWord(w);
        assert Words(s) == [w] + Words(rest);
      }
    }
  }

  /** A word followed by nothing or by whitespace is taken whole. */
  lemma {:induction false} TakeWordOf(w: string, t: string)
    requires NoSpace(w) && (t == [] || IsSpace(t[0]))
    ensures TakeWord(w + t) == w
  {
    if w != [] {
      assert (w + t)[1..] == w[1..] + t;
      TakeWordOf(w[1..], t);
    } else {
      assert w + t == t;
    }
  }

  /** Splitting `" ".join(ws)` gives back the words. */
  lemma {:induction false} WordsOfJoin(ws: seq<string>)
    requires AllWords(ws)
    ensures Words(JoinWith(ws, ' ')) == ws
  {
    if |ws| == 1 {
      var w := ws[0];
      TakeWordOf(w, []);
      assert w + [] == w;
      assert w[|w|..] == [];
    } else if |ws| > 1 {
      var w := ws[0];
      var t := JoinWith(ws[1..], ' ');
      var s := w + ([' '] + t);
      assert JoinWith(ws, ' ') == s;
      TakeWordOf(w, [' '] + t);
      assert s[|w|..] == [' '] + t;
      assert ([' '] + t)[1..] == t;
      WordsOfJoin(ws[1..]);
    }
  }

  /** Whitespace in front of `t` adds no word. */
  lemma {:induction false} WordsSkipSpace(g: string, t: string)
    requires AllSpace(g)
    ensures Words(g + t) == Words(t)
    decreases |g|
  {
    if g == [] {
      assert g + t == t;
    } else {
      assert (g + t)[1..] == g[1..] + t;
      WordsSkipSpace(g[1..], t);
    }
  }

  /** A word followed by nothing or by whitespace is the first word. */
  lemma WordsTakeWord(w: string, t: string)
    requires IsWord(w) && (t == [] || IsSpace(t[0]))
    ensures Words(w + t) == [w] + Words(t)
  {
    TakeWordOf(w, t);
    assert (w + t)[0] == w[0];
    assert (w + t)[|w|..] == t;
  }

  /** `gaps[0] + ws[0] + gaps[1] + ... + ws[n - 1] + gaps[n]`. */
  function Spaced(gaps: seq<string>, ws: seq<string>): (s: string)
    requires |gaps| == |ws| + 1
  {
    if ws == [] then gaps[0] else gaps[0] + ws[0] + Spaced(gaps[1..], ws[1..])
  }

  /** Whitespace gaps around and between `n` words; those between two words are non-empty. */
  predicate Gaps(gaps: seq<string>, n: nat) {
    && |gaps| == n + 1
    && (forall i :: 0 <= i < |gaps| ==> AllSpace(gaps[i]))
    && (forall i :: 0 < i < n ==> gaps[i] != [])
  }

  /** `s.split()` of words set apart by whitespace runs of any kind and length is those words. */
  lemma {:induction false} WordsOfSpaced(gaps: seq<string>, ws: seq<string>)
    requires AllWords(ws) && Gaps(gaps, |ws|)
    ensures Words(Spaced(gaps, ws)) == ws
  {
    if ws == [] {
      WordsSkipSpace(gaps[0], []);
      assert gaps[0] + [] == gaps[0];
    } else {
      var t := Spaced(gaps[1..], ws[1..]);
      assert Gaps(gaps[1..], |ws[1..]|) by {
        forall i | 0 < i < |ws[1..]| ensures gaps[1..][i] != [] {
          assert gaps[1..][i] == gaps[i + 1];
        }
      }
      WordsOfSpaced(gaps[1..], ws[1..]);
      if ws[1..] != [] {
        assert gaps[1] != [];
        assert t[0] == gaps[1][0];
      } else {
        assert t == gaps[1];
      }
      WordsTakeWord(ws[0], t);
      assert gaps[0] + ws[0] + t == gaps[0] + (ws[0] + t);
      WordsSkipSpace(gaps[0], ws[0] + t);
    }
  }

  /** `p` occurs in `s` starting at position `i`. */
  predicate OccursAt(s: string, p: string, i: nat) {
    i + |p| <= |s| && s[i..i + |p|] == p
  }

  /** An occurrence in `s` is an occurrence in any text that has `s` in it. */
  lemma OccursWithin(pre: string, s: string, post: string, p: string, i: nat)
    requires OccursAt(s, p, i)
    ensures OccursAt(pre + s + post, p, |pre| + i)
  {
    var t := pre + s + post;
    assert t[|pre| + i..|pre| + i + |p|] == s[i..i + |p|];
  }

  /** `p in s`, scanning from the left as Python does. */
  function Contains(s: string, p: string): (r: bool)
    ensures r ==> |p| <= |s|
    ensures p == [] ==> r
    decreases |s|
  {
    if |p| > |s| then false
    else if s[..|p|] == p then true
    else Contains(s[1..], p)
  }

  /** `p in s` holds exactly when `p` occurs at some position of `s`. */
  lemma {:induction false} ContainsIff(s: string, p: string)
    ensures Contains(s, p) <==> exists i :: OccursAt(s, p, i)
    decreases |s|
  {
    if |p| > |s| {
    } else if s[..|p|] == p {
      assert OccursAt(s, p, 0);
    } else {
      ContainsIff(s[1..], p);
      if Contains(s[1..], p) {
        var i: nat :| OccursAt(s[1..], p, i);
        assert s[i + 1..i + 1 + |p|] == s[1..][i..i + |p|];
        assert OccursAt(s, p, i + 1);
      }
      if exists i :: OccursAt(s, p, i) {
        var i: nat :| OccursAt(s, p, i);
        assert i != 0;
        assert s[1..][i - 1..i - 1 + |p|] == s[i..i + |p|];
        assert OccursAt(s[1..], p, i - 1);
      }
    }
  }
}
