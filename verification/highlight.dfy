/**
 The `HighlightText` component: it splits a label at every case-insensitive,
 left-to-right, non-overlapping occurrence of the highlight string (the
 `split` of a string by the regular expression `(highlight)` with flags `gi`)
 and marks each part as matched (rendered bold) or plain, deciding which is
 which by calling `test` on the same global regular expression.

 The highlight is treated as a literal: the component's callers are required
 to pass a string with no regular-expression metacharacters, so the pattern
 `(highlight)` matches exactly the case-insensitive occurrences of it.
 */
module Highlight {
  import opened Options
  import opened Strings

  /** One rendered piece of the label: plain text, or a `<b>` run. */
  datatype Segment = Segment(value: string, matched: bool)

  /** Canonical form of a character under a non-unicode `i` regular
      expression, restricted to ASCII: lower-case letters are upper-cased. */
  function Canon(c: char): char {
    if 'a' <= c <= 'z' then (c as int - 32) as char else c
  }

  /** The two strings are equal up to ASCII case. */
  predicate SameFold(a: string, b: string) {
    |a| == |b| && forall i :: 0 <= i < |a| ==> Canon(a[i]) == Canon(b[i])
  }

  /** Characters with a meaning of their own inside a regular expression. */
  predicate IsMeta(c: char) {
    c in "\\^$.|?*+()[]{}"
  }

  /** A highlight that the pattern `(highlight)` reads literally. */
  predicate IsLiteral(h: string) {
    forall i :: 0 <= i < |h| ==> !IsMeta(h[i])
  }

  /** `h` occurs in `s`, up to case, starting at position `i`. */
  predicate MatchesAt(s: string, h: string, i: int) {
    0 <= i && i + |h| <= |s| && SameFold(s[i..i + |h|], h)
  }

  /** `h` occurs nowhere in `s`, up to case. */
  predicate NoOccurrence(s: string, h: string) {
    forall j :: 0 <= j <= |s| ==> !MatchesAt(s, h, j)
  }

  /** The text of each segment, in order. */
  function Values(segs: seq<Segment>): (r: seq<string>)
    ensures |r| == |segs|
    ensures forall k :: 0 <= k < |segs| ==> r[k] == segs[k].value
  {
    seq(|segs|, k requires 0 <= k < |segs| => segs[k].value)
  }

  /** The leftmost occurrence of `h` in `s` at or after `from`: the search a
      global regular expression performs from its `lastIndex`. */
  function FindFrom(s: string, h: string, from: nat): (r: Option<nat>)
    decreases |s| - from
    ensures r.Some? ==> from <= r.value && MatchesAt(s, h, r.value)
    ensures r.Some? ==> forall j :: from <= j < r.value ==> !MatchesAt(s, h, j)
    ensures r.None? ==> forall j :: from <= j ==> !MatchesAt(s, h, j)
  {
    if from + |h| > |s| then None
    else if MatchesAt(s, h, from) then Some(from)
    else FindFrom(s, h, from + 1)
  }

  /** An occurrence inside a prefix of `s` is an occurrence in `s`. */
  lemma MatchInPrefix(s: string, n: nat, h: string, j: int)
    requires n <= |s|
    requires MatchesAt(s[..n], h, j)
    ensures MatchesAt(s, h, j)
  {
    assert s[..n][j..j + |h|] == s[j..j + |h|];
  }

  lemma ConcatCons2(u: string, m: string, rest: seq<string>)
    ensures Concat([u, m] + rest) == u + m + Concat(rest)
  {
    assert ([u, m] + rest)[1..] == [m] + rest;
    assert ([m] + rest)[1..] == rest;
  }

  /** The parts a split of `s` by `h` must have: an odd number of them,
      concatenating back to `s`, every odd-indexed part an occurrence of `h`
      and no even-indexed part holding one. */
  predicate SplitShape(s: string, h: string, r: seq<string>) {
    && |r| % 2 == 1
    && Concat(r) == s
    && (forall k :: 0 <= k < |r| && k % 2 == 1 ==> SameFold(r[k], h))
    && (forall k :: 0 <= k < |r| && k % 2 == 0 ==> NoOccurrence(r[k], h))
  }

  /** Cutting `s` at its first occurrence `i` of `h` in front of a well-shaped
      split of the rest gives a well-shaped split of `s`. */
  lemma ShapeCons(s: string, h: string, i: nat, rest: seq<string>)
    requires |h| > 0 && MatchesAt(s, h, i)
    requires forall j :: 0 <= j < i ==> !MatchesAt(s, h, j)
    requires SplitShape(s[i + |h|..], h, rest)
    ensures SplitShape(s, h, [s[..i], s[i..i + |h|]] + rest)
  {
    var u, m := s[..i], s[i..i + |h|];
    var r := [u, m] + rest;
    assert NoOccurrence(u, h) by {
      forall j | 0 <= j <= |u| && MatchesAt(u, h, j) ensures false {
        MatchInPrefix(s, i, h, j);
      }
    }
    ConcatCons2(u, m, rest);
    assert s == u + m + s[i + |h|..];
    forall k | 2 <= k < |r| ensures r[k] == rest[k - 2] { }
  }

  /** `text.split(/(h)/gi)`: the text before the first occurrence, the
      occurrence itself (the captured group), then the split of the rest; a
      text without an occurrence is its own single part. */
  function Split(s: string, h: string): (r: seq<string>)
    requires |h| > 0
    decreases |s|
    ensures |r| % 2 == 1
    ensures Concat(r) == s
    ensures forall k :: 0 <= k < |r| && k % 2 == 1 ==> SameFold(r[k], h)
    ensures forall k :: 0 <= k < |r| && k % 2 == 0 ==> NoOccurrence(r[k], h)
  {
    match FindFrom(s, h, 0)
    case None =>
      assert Concat([s]) == s + Concat([]);
      [s]
    case Some(i) =>
      var rest := Split(s[i + |h|..], h);
      ShapeCons(s, h, i, rest);
      [s[..i], s[i..i + |h|]] + rest
  }

  /** A reference description of the split, independent of how it is
      computed: the parts rebuild `s`, alternate plain / occurrence, and no
      occurrence of `h` in the text begins inside a plain part, so every
      occurrence part is the leftmost one not consumed by an earlier one. */
  predicate LeftmostSplit(s: string, h: string, p: seq<string>) {
    && |p| % 2 == 1
    && Concat(p) == s
    && (forall k :: 0 <= k < |p| && k % 2 == 1 ==> SameFold(p[k], h))
    && (forall k, j :: 0 <= k < |p| && k % 2 == 0 && 0 <= j < |p[k]| ==>
          !MatchesAt(Concat(p[k..]), h, j))
  }

  /** The computed split meets the reference description. */
  lemma {:induction false} SplitIsLeftmost(s: string, h: string)
    requires |h| > 0
    ensures LeftmostSplit(s, h, Split(s, h))
    decreases |s|
  {
    var p := Split(s, h);
    match FindFrom(s, h, 0)
    case None =>
      assert p == [s] && p[0..] == p;
    case Some(i) =>
      var rest := s[i + |h|..];
      var r := Split(rest, h);
      SplitIsLeftmost(rest, h);
      assert p == [s[..i], s[i..i + |h|]] + r;
      assert p[0..] == p;
      forall k | 2 <= k < |p| ensures p[k] == r[k - 2] && p[k..] == r[k - 2..] { }
  }

  /** A sequence of parts meeting the reference description is the computed
      split: the description pins the split down completely. */
  lemma {:induction false} LeftmostSplitUnique(s: string, h: string, p: seq<string>)
    requires |h| > 0
    requires LeftmostSplit(s, h, p)
    ensures p == Split(s, h)
    decreases |p|
  {
    assert p[0..] == p;
    if |p| == 1 {
      assert p[1..] == [] && Concat(p) == p[0] + Concat(p[1..]);
      assert Concat(p[1..]) == "";
      assert p[0] + "" == p[0] && p == [p[0]];
      assert p == [s];
      match FindFrom(s, h, 0)
      case None =>
      case Some(i) =>
        assert false;
    } else {
      var u, m, r := p[0], p[1], p[2..];
      assert p == [u, m] + r;
      ConcatCons2(u, m, r);
      var i := |u|;
      assert s[..i] == u && s[i..i + |h|] == m && s[i + |h|..] == Concat(r);
      assert MatchesAt(s, h, i);
      match FindFrom(s, h, 0)
      case None =>
        assert false;
      case Some(f) =>
        assert f == i by {
          if f < i {
            assert false;
          }
        }
        forall k | 0 <= k < |r| ensures r[k] == p[k + 2] && r[k..] == p[k + 2..] { }
        assert LeftmostSplit(Concat(r), h, r);
        LeftmostSplitUnique(Concat(r), h, r);
    }
  }

  /** Both directions: a split meets the reference description exactly when
      it is the computed one. */
  lemma SplitCharacterized(s: string, h: string, p: seq<string>)
    requires |h| > 0
    ensures LeftmostSplit(s, h, p) <==> p == Split(s, h)
  {
    if LeftmostSplit(s, h, p) {
      LeftmostSplitUnique(s, h, p);
    } else {
      SplitIsLeftmost(s, h);
    }
  }

  /** `regex.test(s)` for the global regular expression `(h)`/`gi` whose
      `lastIndex` is `lastIndex`: the answer and the new `lastIndex`. A start
      beyond the end, or no occurrence from it on, fails and resets
      `lastIndex` to 0; a success leaves it just past the occurrence. */
  function RegexTest(h: string, s: string, lastIndex: nat): (r: (bool, nat))
    ensures r.0 <==> lastIndex <= |s| && exists j :: lastIndex <= j && MatchesAt(s, h, j)
    ensures !r.0 ==> r.1 == 0
    ensures r.0 ==> lastIndex + |h| <= r.1 <= |s|
    ensures r.0 ==> MatchesAt(s, h, r.1 - |h|)
    ensures r.0 ==> forall j :: lastIndex <= j < r.1 - |h| ==> !MatchesAt(s, h, j)
  {
    if lastIndex > |s| then (false, 0)
    else match FindFrom(s, h, lastIndex)
      case None => (false, 0)
      case Some(m) => (true, m + |h|)
  }

  /** The rendering loop: each part, in order, goes through `test` on the one shared
      regular expression, which carries its `lastIndex` from one test to the
      next. */
  function Classify(h: string, parts: seq<string>, lastIndex: nat): (r: seq<Segment>)
    ensures Values(r) == parts
    decreases |parts|
  {
    if parts == [] then []
    else
      var t := RegexTest(h, parts[0], lastIndex);
      [Segment(parts[0], t.0)] + Classify(h, parts[1..], t.1)
  }

  /** The parts marked by position: odd-indexed parts are the matched ones. */
  function ByParity(parts: seq<string>): (r: seq<Segment>)
    ensures |r| == |parts|
    ensures forall k :: 0 <= k < |r| ==> r[k] == Segment(parts[k], k % 2 == 1)
  {
    seq(|parts|, k requires 0 <= k < |parts| => Segment(parts[k], k % 2 == 1))
  }

  /** A plain part fails the test whatever `lastIndex` it meets, and resets it. */
  lemma PlainPartFails(h: string, u: string, lastIndex: nat)
    requires NoOccurrence(u, h)
    ensures RegexTest(h, u, lastIndex) == (false, 0)
  {
  }

  /** An occurrence part passes the test from `lastIndex` 0. */
  lemma MatchedPartPasses(h: string, m: string)
    requires |h| > 0 && SameFold(m, h)
    ensures RegexTest(h, m, 0) == (true, |h|)
  {
    assert m[0..|h|] == m;
    assert MatchesAt(m, h, 0);
  }

  /** Classifying a plain part followed by an occurrence part. */
  lemma ClassifyCons2(h: string, u: string, m: string, r: seq<string>, lastIndex: nat)
    requires RegexTest(h, u, lastIndex) == (false, 0)
    requires RegexTest(h, m, 0) == (true, |h|)
    ensures Classify(h, [u, m] + r, lastIndex)
         == [Segment(u, false), Segment(m, true)] + Classify(h, r, |h|)
  {
    assert ([u, m] + r)[1..] == [m] + r;
    assert ([m] + r)[1..] == r;
  }

  lemma ByParityCons2(u: string, m: string, r: seq<string>)
    ensures ByParity([u, m] + r) == [Segment(u, false), Segment(m, true)] + ByParity(r)
  {
    var a, b := ByParity([u, m] + r), [Segment(u, false), Segment(m, true)] + ByParity(r);
    assert |a| == |b|;
    forall k | 0 <= k < |a| ensures a[k] == b[k] {
      if k >= 2 {
        assert ([u, m] + r)[k] == r[k - 2];
      }
    }
  }

  /** The stateful `test` calls classify the parts of a split exactly by
      position, whatever `lastIndex` the first call meets: every occurrence
      part follows a plain part whose failed test reset `lastIndex` to 0. */
  lemma {:induction false} ClassifyIsParity(s: string, h: string, lastIndex: nat)
    requires |h| > 0
    ensures Classify(h, Split(s, h), lastIndex) == ByParity(Split(s, h))
    decreases |s|
  {
    match FindFrom(s, h, 0)
    case None =>
      assert Split(s, h) == [s];
      PlainPartFails(h, s, lastIndex);
      assert Classify(h, [s], lastIndex) == [Segment(s, false)] + Classify(h, [], 0);
    case Some(i) =>
      var u, m, rest := s[..i], s[i..i + |h|], s[i + |h|..];
      var r := Split(rest, h);
      assert Split(s, h) == [u, m] + r;
      assert NoOccurrence(u, h) && SameFold(m, h) by {
        assert Split(s, h)[0] == u && Split(s, h)[1] == m;
      }
      PlainPartFails(h, u, lastIndex);
      MatchedPartPasses(h, m);
      ClassifyIsParity(rest, h, |h|);
      ClassifyCons2(h, u, m, r, lastIndex);
      ByParityCons2(u, m, r);
  }

  /** The rendered label: a single plain segment when there is no highlight
      (absent or empty), otherwise the split of the text with each part
      classified by the shared regular expression's `test`. */
  function HighlightText(text: string, highlight: Option<string>): (r: seq<Segment>)
    requires highlight.Some? ==> IsLiteral(highlight.value)
    ensures highlight.None? || highlight.value == "" ==> r == [Segment(text, false)]
    ensures Concat(Values(r)) == text
    ensures |r| % 2 == 1
    ensures forall k :: 0 <= k < |r| ==> (r[k].matched <==> k % 2 == 1)
    ensures highlight.Some? ==>
      forall k :: 0 <= k < |r| && r[k].matched ==> SameFold(r[k].value, highlight.value)
    ensures highlight.Some? && highlight.value != "" ==>
      forall k :: 0 <= k < |r| && !r[k].matched ==> NoOccurrence(r[k].value, highlight.value)
    ensures highlight.Some? && highlight.value != "" ==>
      LeftmostSplit(text, highlight.value, Values(r))
  {
    if highlight.None? || highlight.value == "" then
      assert Concat([text]) == text + Concat([]);
      [Segment(text, false)]
    else
      var h := highlight.value;
      ClassifyIsParity(text, h, 0);
      SplitIsLeftmost(text, h);
      Classify(h, Split(text, h), 0)
  }

  /** The label renders as one plain segment equal to the text exactly when
      there is no highlight or the highlight occurs nowhere in the text. */
  lemma SingleSegmentIffNoOccurrence(text: string, highlight: Option<string>)
    requires highlight.Some? ==> IsLiteral(highlight.value)
    ensures HighlightText(text, highlight) == [Segment(text, false)]
        <==> highlight.None? || highlight.value == "" || NoOccurrence(text, highlight.value)
  {
    if highlight.Some? && highlight.value != "" {
      var h := highlight.value;
      var r := HighlightText(text, highlight);
      if NoOccurrence(text, h) {
        match FindFrom(text, h, 0)
        case None =>
          assert Split(text, h) == [text];
          ClassifyIsParity(text, h, 0);
        case Some(i) =>
          assert false;
      }
    }
  }

  /** A text none of whose characters folds to the highlight's first one
      holds no occurrence of it. */
  lemma FirstCharAbsent(s: string, h: string)
    requires |h| > 0
    requires forall i :: 0 <= i < |s| ==> Canon(s[i]) != Canon(h[0])
    ensures NoOccurrence(s, h)
  {
    forall j | 0 <= j <= |s| - |h| ensures !MatchesAt(s, h, j) {
      assert s[j..j + |h|][0] == s[j];
    }
  }

  /** A label with no occurrence of the typed text: "Another Random" under
      the highlight "Fake" has no highlighted segment. */
  lemma AnotherRandomHasNoHighlight()
    ensures HighlightText("Another Random", Some("Fake")) == [Segment("Another Random", false)]
  {
    var s, h := "Another Random", "Fake";
    FirstCharAbsent(s, h);
    SingleSegmentIffNoOccurrence(s, Some(h));
  }

  /** The split behind the "Fake 1" example. */
  lemma Fake1Split(h: string)
    requires h == "Fake" || h == "fake"
    ensures Split("Fake 1", h) == ["", "Fake", " 1"]
  {
    var p := ["", "Fake", " 1"];
    ConcatCons2("", "Fake", [" 1"]);
    assert Concat([" 1"]) == " 1" + Concat([]);
    assert p[2..] == [" 1"];
    assert LeftmostSplit("Fake 1", h, p);
    LeftmostSplitUnique("Fake 1", h, p);
  }

  /** Matching ignores case: "Fake 1" under the highlight "Fake" or "fake"
      renders an empty plain part, the bold "Fake" in the label's own case,
      and the plain " 1". */
  lemma Fake1IsHighlighted(h: string)
    requires h == "Fake" || h == "fake"
    ensures HighlightText("Fake 1", Some(h))
         == [Segment("", false), Segment("Fake", true), Segment(" 1", false)]
  {
    Fake1Split(h);
    ClassifyIsParity("Fake 1", h, 0);
  }
}
