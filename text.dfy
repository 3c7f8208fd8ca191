/** String operations the scraper relies on, with the semantics Python gives them:
    slicing `s[start:stop]`, `s.replace(",", "")`, `sep.join(xs)`, and (as an
    independent reference for the joined ingredient list) `s.find(sep)` and
    `s.split(sep)`. Strings are sequences of Unicode scalar values. */
module Text {

  function Min(a: int, b: int): (r: int)
    ensures r <= a && r <= b && (r == a || r == b)
  {
    if a <= b then a else b
  }

  /** Python's `s[start:stop]` for non-negative bounds: both ends are clamped to
      the length of `s`, and a slice whose end is at or before its start is empty,
      so slicing never fails. */
  function Slice(s: string, start: nat, stop: nat): (r: string)
    ensures |r| == if Min(stop, |s|) <= start then 0 else Min(stop, |s|) - start
    ensures forall k :: 0 <= k < |r| ==> r[k] == s[start + k]
  {
    var lo := Min(start, |s|);
    var hi := Min(stop, |s|);
    if hi <= lo then [] else s[lo..hi]
  }

  /** A slice that starts inside the string is the sub-sequence up to the clamped end. */
  lemma SliceWithin(s: string, start: nat, stop: nat)
    requires start <= |s| && start <= stop
    ensures Slice(s, start, stop) == s[start..Min(stop, |s|)]
  {
  }

  /** `s.replace(",", "")`: `s` with every comma removed. */
  function StripCommas(s: string): (r: string)
    ensures ',' !in r
    ensures |r| <= |s|
    ensures r == s <==> ',' !in s
  {
    if s == [] then []
    else (if s[0] == ',' then [] else [s[0]]) + StripCommas(s[1..])
  }

  /** Removing commas keeps every other character, with its multiplicity. */
  lemma {:induction false} StripCommasMultiset(s: string)
    ensures multiset(StripCommas(s)) == multiset(s)[',' := 0]
    ensures |StripCommas(s)| == |s| - multiset(s)[',']
  {
    if s != [] {
      StripCommasMultiset(s[1..]);
      assert s == [s[0]] + s[1..];
      assert multiset(s) == multiset([s[0]]) + multiset(s[1..]);
    }
  }

  /** Removing commas works piecewise, so the characters that remain keep their order. */
  lemma {:induction false} StripCommasConcat(a: string, b: string)
    ensures StripCommas(a + b) == StripCommas(a) + StripCommas(b)
  {
    if a == [] {
      assert a + b == b;
    } else {
      assert (a + b)[0] == a[0];
      assert (a + b)[1..] == a[1..] + b;
      StripCommasConcat(a[1..], b);
    }
  }

  /** `list(map(lambda r: r.replace(",", ""), xs))`. */
  function StripAll(xs: seq<string>): (r: seq<string>)
    ensures |r| == |xs|
    ensures forall i :: 0 <= i < |r| ==> ',' !in r[i] && r[i] == StripCommas(xs[i])
    ensures (forall i :: 0 <= i < |xs| ==> ',' !in xs[i]) ==> r == xs
  {
    seq(|xs|, i requires 0 <= i < |xs| => StripCommas(xs[i]))
  }

  /** `sep.join(xs)`. Joining comma-free strings with ", " leaves exactly one
      comma per separator. */
  function Join(sep: string, xs: seq<string>): (r: string)
    ensures |xs| == 0 ==> r == ""
    ensures sep == ", " && |xs| > 0 && (forall i :: 0 <= i < |xs| ==> ',' !in xs[i])
            ==> multiset(r)[','] == |xs| - 1
  {
    if |xs| == 0 then ""
    else if |xs| == 1 then xs[0]
    else xs[0] + sep + Join(sep, xs[1..])
  }

  predicate OccursAt(s: string, sep: string, k: nat)
  {
    k + |sep| <= |s| && s[k..k + |sep|] == sep
  }

  /** `s.find(sep, i)`: the least offset at or after `i` where `sep` occurs, or -1. */
  function FindFrom(s: string, sep: string, i: nat): (r: int)
    requires |sep| > 0
    decreases |s| - i
    ensures r == -1 || (i <= r && OccursAt(s, sep, r))
    ensures r == -1 ==> forall k :: i <= k ==> !OccursAt(s, sep, k)
    ensures r != -1 ==> forall k :: i <= k < r ==> !OccursAt(s, sep, k)
  {
    if i + |sep| > |s| then -1
    else if s[i..i + |sep|] == sep then i
    else FindFrom(s, sep, i + 1)
  }

  /** `s.split(sep)` for a non-empty separator. */
  function Split(s: string, sep: string): (r: seq<string>)
    requires |sep| > 0
    decreases |s|
    ensures |r| >= 1
    ensures FindFrom(s, sep, 0) == -1 <==> r == [s]
  {
    var k := FindFrom(s, sep, 0);
    if k < 0 then [s] else [s[..k]] + Split(s[k + |sep|..], sep)
  }

  /** The first ", " in `a + ", " + rest` is the one after `a` when `a` has no comma. */
  lemma FirstSeparator(a: string, rest: string)
    requires ',' !in a
    ensures FindFrom(a + ", " + rest, ", ", 0) == |a|
  {
    var s := a + ", " + rest;
    assert s[|a|..|a| + 2] == ", ";
    assert OccursAt(s, ", ", |a|);
    forall k | 0 <= k < |a|
      ensures !OccursAt(s, ", ", k)
    {
      assert s[k..k + 2][0] == s[k] == a[k];
    }
  }

  /** A comma-free string holds no ", ". */
  lemma NoSeparator(a: string)
    requires ',' !in a
    ensures FindFrom(a, ", ", 0) == -1
  {
    forall k | 0 <= k && k + 2 <= |a|
      ensures !OccursAt(a, ", ", k)
    {
      assert a[k..k + 2][0] == a[k];
    }
  }

  /** Splitting `a + ", " + rest` cuts off exactly `a` when `a` has no comma. */
  lemma SplitAtFirst(a: string, rest: string)
    requires ',' !in a
    ensures Split(a + ", " + rest, ", ") == [a] + Split(rest, ", ")
  {
    var s := a + ", " + rest;
    FirstSeparator(a, rest);
    assert s[..|a|] == a;
    assert s[|a| + 2..] == rest;
  }

  /** Because every comma was stripped from the ingredients, splitting the
      ", "-joined target gives the ingredient list back. */
  lemma {:induction false} SplitJoin(xs: seq<string>)
    requires |xs| > 0
    requires forall i :: 0 <= i < |xs| ==> ',' !in xs[i]
    ensures Split(Join(", ", xs), ", ") == xs
  {
    if |xs| == 1 {
      NoSeparator(xs[0]);
    } else {
      var rest := Join(", ", xs[1..]);
      assert Join(", ", xs) == xs[0] + ", " + rest;
      SplitAtFirst(xs[0], rest);
      SplitJoin(xs[1..]);
      assert xs == [xs[0]] + xs[1..];
    }
  }
}
