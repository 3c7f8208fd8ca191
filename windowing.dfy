/** The heading-windowing heuristic of `_extract_rough` (scripts/scrape.py), from the
    serialised `<body>` markup onwards: find every match of the case-insensitive
    pattern `<h(?:2|3|4)>\s*ingredients`, fail when there is none, and cut two
    windows of at most `width` characters, one ending before the first heading
    and one starting at the last heading. */
module Windowing {
  import opened Text

  /** The default window width of `_extract_rough`. */
  const DefaultWidth: nat := 2500

  /** The word the heading must begin with. */
  const Word := "ingredients"

  /** Python's `\s` on the ASCII range: tab, line feed, vertical tab, form feed,
      carriage return, the four separators U+001C..U+001F and space. */
  predicate IsSpace(c: char)
    ensures IsSpace(c) ==> c <= ' ' && c != '<'
    ensures c == ' ' || c == '\t' || c == '\n' || c == '\r' ==> IsSpace(c)
  {
    ('\t' <= c <= '\r') || ('\U{1C}' <= c <= ' ')
  }

  /** ASCII lower-casing: the folding `re.IGNORECASE` applies to the pattern's letters. */
  function LowerAscii(c: char): (r: char)
    ensures 'A' <= c <= 'Z' ==> 'a' <= r <= 'z' && r as int == c as int + 32
    ensures !('A' <= c <= 'Z') ==> r == c
  {
    if 'A' <= c <= 'Z' then (c as int + 32) as char else c
  }

  /** The word in upper case: under `re.IGNORECASE` each letter of the pattern
      matches its lower-case or its upper-case form. */
  const WordUpper := "INGREDIENTS"

  /** `c` is the lower-case letter `lower` or its upper-case form `upper`. */
  predicate EitherCase(c: char, lower: char, upper: char)
  {
    c == lower || c == upper
  }

  /** `<h2>`, `<h3>` or `<h4>` (the `h` in either case) starts at offset `i`. */
  predicate OpenTagAt(s: string, i: nat)
  {
    i + 4 <= |s| && s[i] == '<' && EitherCase(s[i + 1], 'h', 'H') && '2' <= s[i + 2] <= '4' && s[i + 3] == '>'
  }

  /** The word `ingredients`, in any case, starts at offset `j`. */
  predicate WordAt(s: string, j: nat)
  {
    j + |Word| <= |s| && forall k :: 0 <= k < |Word| ==> EitherCase(s[j + k], Word[k], WordUpper[k])
  }

  /** The length of the longest run of whitespace starting at offset `j`: what the
      greedy `\s*` consumes. */
  function SpaceRun(s: string, j: nat): (n: nat)
    requires j <= |s|
    decreases |s| - j
    ensures j + n <= |s|
    ensures forall m :: j <= m < j + n ==> IsSpace(s[m])
    ensures j + n == |s| || !IsSpace(s[j + n])
  {
    if j == |s| || !IsSpace(s[j]) then 0 else 1 + SpaceRun(s, j + 1)
  }

  /** A whitespace run followed by a non-space (or the end) is the longest run. */
  lemma SpaceRunUnique(s: string, j: nat, n: nat)
    requires j + n <= |s|
    requires forall m :: j <= m < j + n ==> IsSpace(s[m])
    requires j + n == |s| || !IsSpace(s[j + n])
    ensures SpaceRun(s, j) == n
  {
  }

  /** The heading pattern matches at offset `i`. */
  predicate MatchesAt(s: string, i: nat)
    ensures MatchesAt(s, i) ==> i + 4 + |Word| <= |s| && s[i] == '<'
  {
    OpenTagAt(s, i) && WordAt(s, i + 4 + SpaceRun(s, i + 4))
  }

  /** The length of the match at `i`: the tag, the whitespace run and the word. */
  function MatchLen(s: string, i: nat): (n: nat)
    requires MatchesAt(s, i)
    ensures i + n <= |s|
    ensures n >= 4 + |Word|
  {
    4 + SpaceRun(s, i + 4) + |Word|
  }

  /** The regular expression read literally: the tag, then SOME run of whitespace
      (any length `k`), then the word. */
  ghost predicate RegexMatchesAt(s: string, i: nat)
  {
    exists k: nat :: RegexMatchesWith(s, i, k)
  }

  ghost predicate RegexMatchesWith(s: string, i: nat, k: nat)
  {
    && OpenTagAt(s, i)
    && i + 4 + k <= |s|
    && (forall m :: i + 4 <= m < i + 4 + k ==> IsSpace(s[m]))
    && WordAt(s, i + 4 + k)
  }

  /** Taking the longest whitespace run loses no match: no letter of the word is
      whitespace, so a backtracking regex engine could not succeed with a shorter
      run either. */
  lemma MatchesAtIffRegex(s: string, i: nat)
    ensures MatchesAt(s, i) <==> RegexMatchesAt(s, i)
  {
    if MatchesAt(s, i) {
      assert RegexMatchesWith(s, i, SpaceRun(s, i + 4));
    }
    if RegexMatchesAt(s, i) {
      var k: nat :| RegexMatchesWith(s, i, k);
      assert EitherCase(s[i + 4 + k + 0], Word[0], WordUpper[0]);
      SpaceRunUnique(s, i + 4, k);
    }
  }

  /** No character of a match after its first is `<`. */
  lemma MatchBodyHasNoOpen(s: string, i: nat, j: nat)
    requires MatchesAt(s, i)
    requires i < j < i + MatchLen(s, i)
    ensures s[j] != '<'
  {
    var w := i + 4 + SpaceRun(s, i + 4);
    if w <= j {
      assert EitherCase(s[w + (j - w)], Word[j - w], WordUpper[j - w]);
    }
  }

  /** Matches never overlap: none starts inside another. */
  lemma NoMatchInside(s: string, i: nat)
    requires MatchesAt(s, i)
    ensures forall j :: i < j < i + MatchLen(s, i) ==> !MatchesAt(s, j)
  {
    forall j | i < j < i + MatchLen(s, i)
      ensures !MatchesAt(s, j)
    {
      MatchBodyHasNoOpen(s, i, j);
    }
  }

  /** `re.finditer` from offset `pos`: scan for the leftmost match, report its
      start, and resume scanning at its end. */
  function FindIter(s: string, pos: nat): (r: seq<nat>)
    decreases |s| - pos
    ensures forall k :: 0 <= k < |r| ==> pos <= r[k] < |s|
  {
    if pos >= |s| then []
    else if MatchesAt(s, pos) then [pos] + FindIter(s, pos + MatchLen(s, pos))
    else FindIter(s, pos + 1)
  }

  /** Because matches never overlap, the non-overlapping scan loses none: it
      reports exactly the offsets where the pattern matches, in increasing order. */
  lemma FindIterExact(s: string, pos: nat)
    ensures var r := FindIter(s, pos);
      && (forall k :: 0 <= k < |r| ==> MatchesAt(s, r[k]))
      && (forall i :: pos <= i < |s| && MatchesAt(s, i) ==> i in r)
      && (forall k, l :: 0 <= k < l < |r| ==> r[k] < r[l])
  {
    FindIterSound(s, pos);
    FindIterComplete(s, pos);
    FindIterIncreasing(s, pos);
  }

  /** Every reported offset is a match. */
  lemma {:induction false} FindIterSound(s: string, pos: nat)
    decreases |s| - pos
    ensures forall k :: 0 <= k < |FindIter(s, pos)| ==> MatchesAt(s, FindIter(s, pos)[k])
  {
    if pos < |s| {
      if MatchesAt(s, pos) {
        FindIterSound(s, pos + MatchLen(s, pos));
      } else {
        FindIterSound(s, pos + 1);
      }
    }
  }

  /** Every match at or after `pos` is reported. */
  lemma {:induction false} FindIterComplete(s: string, pos: nat)
    decreases |s| - pos
    ensures forall i :: pos <= i < |s| && MatchesAt(s, i) ==> i in FindIter(s, pos)
  {
    if pos < |s| {
      if MatchesAt(s, pos) {
        NoMatchInside(s, pos);
        FindIterComplete(s, pos + MatchLen(s, pos));
      } else {
        FindIterComplete(s, pos + 1);
      }
    }
  }

  /** The reported offsets increase strictly. */
  lemma {:induction false} FindIterIncreasing(s: string, pos: nat)
    decreases |s| - pos
    ensures forall k, l :: 0 <= k < l < |FindIter(s, pos)| ==> FindIter(s, pos)[k] < FindIter(s, pos)[l]
  {
    if pos < |s| {
      if MatchesAt(s, pos) {
        FindIterIncreasing(s, pos + MatchLen(s, pos));
      } else {
        FindIterIncreasing(s, pos + 1);
      }
    }
  }

  /** The two windows of `ExtractedHtml`. */
  datatype ExtractedHtml = ExtractedHtml(withIngredients: string, beforeIngredients: string)

  /** `_extract_rough` either returns the windows or raises "This site does not
      seem to have ingredients". */
  datatype Extraction = Extracted(windows: ExtractedHtml) | NoIngredients

  /** The two slices `_extract_rough` returns, for the first and the last heading
      offsets: `html[:min(first, width)]` and `html[last:last + width]`. */
  function Windows(html: string, width: nat, first: nat, last: nat): (w: ExtractedHtml)
    ensures w.beforeIngredients <= html
    ensures |w.beforeIngredients| <= width && |w.withIngredients| <= width
  {
    ExtractedHtml(
      withIngredients := Slice(html, last, last + width),
      beforeIngredients := Slice(html, 0, Min(first, width)))
  }

  /** Both slices start inside the markup, so neither is clamped at its start. */
  lemma WindowsWithin(html: string, width: nat, first: nat, last: nat)
    requires first <= |html| && last <= |html|
    ensures Windows(html, width, first, last) == ExtractedHtml(
              withIngredients := html[last..Min(last + width, |html|)],
              beforeIngredients := html[..Min(first, width)])
  {
    SliceWithin(html, last, last + width);
    SliceWithin(html, 0, Min(first, width));
  }

  /** `_extract_rough` from the serialised body markup `html` on: when it
      succeeds, the before-ingredients window is a prefix of the markup and
      neither window is longer than `width`. */
  function ExtractRough(html: string, width: nat := DefaultWidth): (r: Extraction)
    ensures r.Extracted? ==>
      && r.windows.beforeIngredients <= html
      && |r.windows.beforeIngredients| <= width
      && |r.windows.withIngredients| <= width
  {
    var headings := FindIter(html, 0);
    if |headings| < 1 then NoIngredients
    else Extracted(Windows(html, width, headings[0], headings[|headings| - 1]))
  }

  /** Extraction fails exactly when no offset of the markup matches the heading pattern. */
  lemma NoHeadingFails(html: string, width: nat)
    ensures ExtractRough(html, width).NoIngredients? <==> forall i :: 0 <= i < |html| ==> !MatchesAt(html, i)
  {
    var headings := FindIter(html, 0);
    FindIterSound(html, 0);
    FindIterComplete(html, 0);
    if |headings| > 0 {
      assert MatchesAt(html, headings[0]) && headings[0] < |html|;
    } else {
      forall i | 0 <= i < |html|
        ensures !MatchesAt(html, i)
      {
      }
    }
  }

  /** A page without a `<body>` serialises to the text `None`, which holds no
      heading, so extraction fails on it. */
  lemma MissingBodyFails(width: nat)
    ensures ExtractRough("None", width).NoIngredients?
  {
    NoHeadingFails("None", width);
  }

  /** No heading starts inside the before-ingredients window, and the window is
      cut either at `width` or at the first heading. */
  lemma BeforeWindowHasNoHeading(html: string, width: nat)
    requires ExtractRough(html, width).Extracted?
    ensures var before := ExtractRough(html, width).windows.beforeIngredients;
      && (forall i :: 0 <= i < |before| ==> !MatchesAt(html, i))
      && (|before| == width || MatchesAt(html, |before|))
  {
    var headings := FindIter(html, 0);
    FindIterComplete(html, 0);
    FindIterSound(html, 0);
    FindIterIncreasing(html, 0);
    ExtractFromHeadings(html, width, headings);
    var first := headings[0];
    assert MatchesAt(html, first);
    forall i | 0 <= i < first
      ensures !MatchesAt(html, i)
    {
    }
  }

  /** With `first` the least and `last` the greatest offset where the pattern
      matches, the windows are `html[..min(first, width)]` and
      `html[last..min(last + width, |html|)]`, and `first <= last`. */
  lemma ExtractWindows(html: string, width: nat, first: nat, last: nat)
    requires MatchesAt(html, first) && forall i :: 0 <= i < first ==> !MatchesAt(html, i)
    requires MatchesAt(html, last) && forall i :: last < i < |html| ==> !MatchesAt(html, i)
    ensures first <= last
    ensures ExtractRough(html, width) == Extracted(ExtractedHtml(
              withIngredients := html[last..Min(last + width, |html|)],
              beforeIngredients := html[..Min(first, width)]))
  {
    var headings := FindIter(html, 0);
    FirstHeading(html, headings, first);
    LastHeading(html, headings, last);
    ExtractFromHeadings(html, width, headings);
  }

  /** `_extract_rough` slices at the first and the last offset `finditer` reports. */
  lemma ExtractFromHeadings(html: string, width: nat, headings: seq<nat>)
    requires headings == FindIter(html, 0) && |headings| > 0
    ensures headings[0] < |html| && headings[|headings| - 1] < |html|
    ensures ExtractRough(html, width) == Extracted(ExtractedHtml(
              withIngredients := html[headings[|headings| - 1]..Min(headings[|headings| - 1] + width, |html|)],
              beforeIngredients := html[..Min(headings[0], width)]))
  {
    WindowsWithin(html, width, headings[0], headings[|headings| - 1]);
  }

  /** The first offset `finditer` reports is the least match. */
  lemma FirstHeading(html: string, headings: seq<nat>, first: nat)
    requires headings == FindIter(html, 0)
    requires MatchesAt(html, first) && forall i :: 0 <= i < first ==> !MatchesAt(html, i)
    ensures |headings| > 0 && headings[0] == first
  {
    FindIterComplete(html, 0);
    FindIterSound(html, 0);
    FindIterIncreasing(html, 0);
    assert first in headings;
    var k :| 0 <= k < |headings| && headings[k] == first;
    assert headings[0] <= first;
    assert MatchesAt(html, headings[0]);
  }

  /** The last offset `finditer` reports is the greatest match. */
  lemma LastHeading(html: string, headings: seq<nat>, last: nat)
    requires headings == FindIter(html, 0)
    requires MatchesAt(html, last) && forall i :: last < i < |html| ==> !MatchesAt(html, i)
    ensures |headings| > 0 && headings[|headings| - 1] == last
  {
    FindIterComplete(html, 0);
    FindIterSound(html, 0);
    FindIterIncreasing(html, 0);
    assert last in headings;
    var k :| 0 <= k < |headings| && headings[k] == last;
    var l := headings[|headings| - 1];
    assert last <= l;
    assert MatchesAt(html, l) && l < |html|;
  }

  /** With a single heading both windows are anchored at its offset. */
  lemma SingleHeading(html: string, width: nat, p: nat)
    requires MatchesAt(html, p)
    requires forall i :: 0 <= i < |html| && i != p ==> !MatchesAt(html, i)
    ensures ExtractRough(html, width) == Extracted(ExtractedHtml(
              withIngredients := html[p..Min(p + width, |html|)],
              beforeIngredients := html[..Min(p, width)]))
  {
    ExtractWindows(html, width, p, p);
  }

  /** A match survives cutting a window around it: the window that starts at the
      match and holds all of it matches at its own offset 0. */
  lemma MatchInWindow(s: string, i: nat, e: nat)
    requires MatchesAt(s, i)
    requires i + MatchLen(s, i) <= e <= |s|
    ensures MatchesAt(s[i..e], 0) && MatchLen(s[i..e], 0) == MatchLen(s, i)
  {
    var t := s[i..e];
    var n := SpaceRun(s, i + 4);
    assert forall m :: 4 <= m < 4 + n ==> t[m] == s[i + m];
    assert t[4 + n] == s[i + 4 + n];
    SpaceRunUnique(t, 4, n);
    assert forall m :: 4 + n <= m < 4 + n + |Word| ==> t[m] == s[i + m];
    assert forall k :: 0 <= k < |Word| ==> EitherCase(t[4 + n + k], Word[k], WordUpper[k]) by {
      forall k | 0 <= k < |Word|
        ensures EitherCase(t[4 + n + k], Word[k], WordUpper[k])
      {
        assert t[4 + n + k] == s[i + 4 + n + k];
      }
    }
  }

  /** When the width covers the last heading's match, the with-ingredients window
      begins with that heading. */
  lemma WithWindowStartsWithHeading(html: string, width: nat, last: nat)
    requires MatchesAt(html, last) && forall i :: last < i < |html| ==> !MatchesAt(html, i)
    requires width >= MatchLen(html, last)
    ensures ExtractRough(html, width).Extracted?
    ensures MatchesAt(ExtractRough(html, width).windows.withIngredients, 0)
  {
    var headings := FindIter(html, 0);
    LastHeading(html, headings, last);
    ExtractFromHeadings(html, width, headings);
    MatchInWindow(html, last, Min(last + width, |html|));
  }

  /** `s` and `t` are the same text up to ASCII case. */
  predicate SameUpToCase(s: string, t: string)
  {
    |s| == |t| && forall k {:trigger LowerAscii(s[k])} :: 0 <= k < |s| ==> LowerAscii(s[k]) == LowerAscii(t[k])
  }

  /** Folding changes no character but the letters `A`..`Z`. */
  lemma FoldPreserves(c: char, d: char)
    requires LowerAscii(c) == LowerAscii(d)
    ensures c == '<' <==> d == '<'
    ensures c == '>' <==> d == '>'
    ensures ('2' <= c <= '4') <==> ('2' <= d <= '4')
    ensures IsSpace(c) <==> IsSpace(d)
  {
  }

  /** Folding maps both cases of a letter to the same character and nothing else to it. */
  lemma FoldLetter(c: char, d: char, lower: char, upper: char)
    requires LowerAscii(c) == LowerAscii(d)
    requires 'a' <= lower <= 'z' && upper as int == lower as int - 32
    ensures EitherCase(c, lower, upper) <==> EitherCase(d, lower, upper)
  {
  }

  /** `WordUpper` is `Word` letter by letter in upper case. */
  lemma WordCases()
    ensures |WordUpper| == |Word|
    ensures forall k :: 0 <= k < |Word| ==> 'a' <= Word[k] <= 'z' && WordUpper[k] as int == Word[k] as int - 32
  {
  }

  /** The whitespace run is the same in texts that differ only in case. */
  lemma SpaceRunUpToCase(s: string, t: string, j: nat)
    requires SameUpToCase(s, t) && j <= |s|
    ensures SpaceRun(s, j) == SpaceRun(t, j)
  {
    var n := SpaceRun(s, j);
    forall m | j <= m < j + n
      ensures IsSpace(t[m])
    {
      FoldPreserves(s[m], t[m]);
    }
    if j + n < |s| {
      FoldPreserves(s[j + n], t[j + n]);
    }
    SpaceRunUnique(t, j, n);
  }

  /** Matching ignores case: texts that differ only in ASCII case match the
      heading pattern at the same offsets. */
  lemma MatchUpToCase(s: string, t: string, i: nat)
    requires SameUpToCase(s, t)
    ensures MatchesAt(s, i) <==> MatchesAt(t, i)
  {
    if i + 4 <= |s| {
      OpenTagUpToCase(s, t, i);
      SpaceRunUpToCase(s, t, i + 4);
      WordAtUpToCase(s, t, i + 4 + SpaceRun(s, i + 4));
      SameParts(s, t, i);
    }
  }

  /** Two texts whose tag, whitespace run and word agree at `i` agree on a match at `i`. */
  lemma SameParts(s: string, t: string, i: nat)
    requires i + 4 <= |s| && i + 4 <= |t|
    requires OpenTagAt(s, i) <==> OpenTagAt(t, i)
    requires SpaceRun(s, i + 4) == SpaceRun(t, i + 4)
    requires WordAt(s, i + 4 + SpaceRun(s, i + 4)) <==> WordAt(t, i + 4 + SpaceRun(s, i + 4))
    ensures MatchesAt(s, i) <==> MatchesAt(t, i)
  {
  }

  lemma OpenTagUpToCase(s: string, t: string, i: nat)
    requires SameUpToCase(s, t) && i + 4 <= |s|
    ensures OpenTagAt(s, i) <==> OpenTagAt(t, i)
  {
    FoldPreserves(s[i], t[i]);
    FoldPreserves(s[i + 2], t[i + 2]);
    FoldPreserves(s[i + 3], t[i + 3]);
    FoldLetter(s[i + 1], t[i + 1], 'h', 'H');
  }

  lemma WordAtUpToCase(s: string, t: string, j: nat)
    requires SameUpToCase(s, t)
    ensures WordAt(s, j) <==> WordAt(t, j)
  {
    if j + |Word| <= |s| {
      WordCases();
      forall k | 0 <= k < |Word|
        ensures EitherCase(s[j + k], Word[k], WordUpper[k]) <==> EitherCase(t[j + k], Word[k], WordUpper[k])
      {
        FoldLetter(s[j + k], t[j + k], Word[k], WordUpper[k]);
      }
    }
  }

  /** ASCII lower-casing of a whole string. */
  function LowerAll(s: string): (r: string)
    ensures SameUpToCase(s, r)
  {
    seq(|s|, k requires 0 <= k < |s| => LowerAscii(s[k]))
  }

  /** In particular, lower-casing the markup changes no match. */
  lemma MatchIgnoresCase(s: string, i: nat)
    ensures MatchesAt(s, i) <==> MatchesAt(LowerAll(s), i)
  {
    MatchUpToCase(s, LowerAll(s), i);
  }

  /** Any run of whitespace and any case: `<H3>`, tab, newline, space, `Ingredients`. */
  lemma MixedCaseAndSpacesMatch()
    ensures MatchesAt("<H3>\t\n Ingredients", 0)
  {
    var s := "<H3>\t\n Ingredients";
    SpaceRunUnique(s, 4, 3);
  }

  /** The match stops after the word, so trailing text does not matter. */
  lemma TrailingTextMatches()
    ensures MatchesAt("<h2>ingredients list", 0)
  {
    var s := "<h2>ingredients list";
    SpaceRunUnique(s, 4, 0);
    assert WordAt(s, 4);
  }

  /** By MatchUpToCase the upper-case spelling matches as well. */
  lemma UpperCaseWordMatches()
    ensures MatchesAt("<H2>INGREDIENTS LIST", 0)
  {
    var lower, upper := "<h2>ingredients list", "<H2>INGREDIENTS LIST";
    TrailingTextMatches();
    assert SameUpToCase(lower, upper) by {
      forall k | 0 <= k < |lower|
        ensures LowerAscii(lower[k]) == LowerAscii(upper[k])
      {
      }
    }
    MatchUpToCase(lower, upper, 0);
  }

  /** Heading levels outside 2..4 never match. */
  lemma OtherLevelsDoNotMatch(s: string, i: nat)
    requires i + 3 <= |s| && s[i] == '<' && EitherCase(s[i + 1], 'h', 'H') && !('2' <= s[i + 2] <= '4')
    ensures !MatchesAt(s, i)
  {
  }

  /** A heading whose text does not begin with the letter `i` straight after the
      whitespace does not match: neither the greedy matcher nor the literal regex
      accepts it. */
  lemma OtherTextDoesNotMatch(s: string, i: nat)
    requires OpenTagAt(s, i)
    requires var j := i + 4 + SpaceRun(s, i + 4); j == |s| || !EitherCase(s[j], 'i', 'I')
    ensures !MatchesAt(s, i) && !RegexMatchesAt(s, i)
  {
    WordStartsWithI(s, i + 4 + SpaceRun(s, i + 4));
    MatchesAtIffRegex(s, i);
  }

  /** The word begins with `i` in either case. */
  lemma WordStartsWithI(s: string, j: nat)
    ensures WordAt(s, j) ==> j < |s| && EitherCase(s[j], 'i', 'I')
  {
    if WordAt(s, j) {
      assert EitherCase(s[j + 0], Word[0], WordUpper[0]);
    }
  }

  /** Two headings that do not match: another word comes first, or the word is cut short. */
  lemma OtherTextExamples()
    ensures !MatchesAt("<h2>The ingredients", 0)
    ensures !MatchesAt("<h2>Ingredient", 0)
  {
    var s := "<h2>The ingredients";
    SpaceRunUnique(s, 4, 0);
    assert !EitherCase(s[4], Word[0], WordUpper[0]);
  }
}
