/**
 The split pattern of the translator backend,
 `([a-zA-Z\s]+|[一-鿿。？！，、；：“”‘’（）《》]+)`, and Python's `re.split`
 with it. Because the pattern has one capturing group, `re.split` returns
 the unmatched gap before every match, the match itself, and the gap after
 the last match. Dropping the empty strings from that list leaves exactly
 the maximal runs of three character classes, which concatenate back to the
 input.
 */
module Segmentation {
  import opened Text

  /** Latin: the first alternative `[a-zA-Z\s]`; Han: the second one;
      Other: characters neither alternative matches (digits, ASCII
      punctuation, other scripts). */
  datatype CharClass = Latin | Han | Other

  function ClassOf(c: char): (k: CharClass)
    ensures k == Latin <==> IsAsciiLetter(c) || IsSpace(c)
    ensures k == Han <==> IsIdeograph(c) || IsCjkMark(c)
  {
    if IsAsciiLetter(c) || IsSpace(c) then Latin
    else if IsIdeograph(c) || IsCjkMark(c) then Han
    else Other
  }

  /** Every character of `r` is of one class. */
  ghost predicate IsUniform(r: string) {
    forall i :: 0 <= i < |r| ==> ClassOf(r[i]) == ClassOf(r[0])
  }

  /** Length of the longest prefix of `s` whose characters share the class of
      `s[0]`: what the greedy `+` of either alternative consumes. */
  function RunLength(s: string): (n: nat)
    requires s != []
    ensures 1 <= n <= |s|
    ensures forall i :: 0 <= i < n ==> ClassOf(s[i]) == ClassOf(s[0])
    ensures n < |s| ==> ClassOf(s[n]) != ClassOf(s[0])
  {
    if |s| == 1 || ClassOf(s[1]) != ClassOf(s[0]) then 1 else 1 + RunLength(s[1..])
  }

  /** The three conditions above determine the run length. */
  lemma RunLengthIs(s: string, n: nat)
    requires 1 <= n <= |s|
    requires forall i :: 0 <= i < n ==> ClassOf(s[i]) == ClassOf(s[0])
    requires n < |s| ==> ClassOf(s[n]) != ClassOf(s[0])
    ensures RunLength(s) == n
  {
  }

  /** The maximal single-class runs of `s`, left to right. */
  function Runs(s: string): seq<string>
    decreases |s|
  {
    if s == [] then [] else
      var n := RunLength(s);
      [s[..n]] + Runs(s[n..])
  }

  /** `rs` cuts `s` into non-empty single-class pieces, and no two
      neighbouring pieces share a class. */
  ghost predicate IsMaximalRuns(s: string, rs: seq<string>) {
    && Concat(rs) == s
    && (forall k :: 0 <= k < |rs| ==> rs[k] != [] && IsUniform(rs[k]))
    && (forall k :: 0 < k < |rs| ==> ClassOf(rs[k - 1][0]) != ClassOf(rs[k][0]))
  }

  /** Lossless partition into maximal runs. */
  lemma {:induction false} RunsAreMaximal(s: string)
    ensures IsMaximalRuns(s, Runs(s))
    decreases |s|
  {
    if s != [] {
      var n := RunLength(s);
      var rest := Runs(s[n..]);
      RunsAreMaximal(s[n..]);
      assert Runs(s) == [s[..n]] + rest;
      assert s == s[..n] + s[n..];
      assert ([s[..n]] + rest)[1..] == rest;
      if rest != [] {
        assert s[n..] != [];
        assert rest[0] == s[n..][..RunLength(s[n..])];
        assert rest[0][0] == s[n];
      }
      forall k | 0 < k < |Runs(s)|
        ensures ClassOf(Runs(s)[k - 1][0]) != ClassOf(Runs(s)[k][0])
      {
        if k > 1 {
          assert Runs(s)[k - 1] == rest[k - 2] && Runs(s)[k] == rest[k - 1];
        }
      }
    }
  }

  /** A partition into maximal runs is unique: `Runs` is the only one. */
  lemma {:induction false} MaximalRunsUnique(s: string, rs: seq<string>)
    requires IsMaximalRuns(s, rs)
    ensures rs == Runs(s)
    decreases |rs|
  {
    if rs != [] {
      var r0 := rs[0];
      var n := |r0|;
      var tail := rs[1..];
      assert s == r0 + Concat(tail);
      assert s[..n] == r0;
      assert forall i :: 0 <= i < n ==> s[i] == r0[i];
      if n < |s| {
        assert tail != [];
        assert Concat(tail) == tail[0] + Concat(tail[1..]);
        assert s[n] == tail[0][0] == rs[1][0];
      }
      RunLengthIs(s, n);
      assert s[n..] == Concat(tail);
      forall k | 0 < k < |tail|
        ensures ClassOf(tail[k - 1][0]) != ClassOf(tail[k][0])
      {
        assert tail[k - 1] == rs[k] && tail[k] == rs[k + 1];
      }
      assert IsMaximalRuns(s[n..], tail);
      MaximalRunsUnique(s[n..], tail);
    }
  }

  /** A single-class string whose class differs from the last character of
      `s` becomes one more run when appended to `s`. */
  lemma RunsAppendRun(s: string, t: string)
    requires t != [] && IsUniform(t)
    requires s == [] || ClassOf(s[|s| - 1]) != ClassOf(t[0])
    ensures Runs(s + t) == Runs(s) + [t]
  {
    var rs := Runs(s);
    RunsAreMaximal(s);
    var ext := rs + [t];
    ConcatAppend(rs, [t]);
    assert Concat([t]) == t + Concat([]);
    if rs != [] {
      var last := rs[|rs| - 1];
      ConcatLast(rs);
      assert ClassOf(last[|last| - 1]) == ClassOf(last[0]);
      assert ClassOf(ext[|rs| - 1][0]) != ClassOf(ext[|rs|][0]);
    }
    forall k | 0 < k < |ext|
      ensures ClassOf(ext[k - 1][0]) != ClassOf(ext[k][0])
    {
      if k < |rs| {
        assert ext[k - 1] == rs[k - 1] && ext[k] == rs[k];
      }
    }
    assert IsMaximalRuns(s + t, ext);
    MaximalRunsUnique(s + t, ext);
  }

  /** `re.split` continued from the rest `s` of the input, with `gap` the
      unmatched text seen since the last match. */
  function SplitFrom(gap: string, s: string): seq<string>
    decreases |s|
  {
    if s == [] then [gap]
    else if ClassOf(s[0]) == Other then SplitFrom(gap + [s[0]], s[1..])
    else
      var n := RunLength(s);
      [gap, s[..n]] + SplitFrom([], s[n..])
  }

  /** `split_pattern.split(text)`: gaps and matches, alternately. */
  function RegexSplit(text: string): seq<string> {
    SplitFrom([], text)
  }

  /** Gaps sit at even positions and hold only Other characters; matches sit
      at odd positions and are non-empty single-class Latin or Han runs. */
  ghost predicate IsSplitShape(parts: seq<string>) {
    && |parts| % 2 == 1
    && (forall k :: 0 <= k < |parts| && k % 2 == 0 ==>
          forall i :: 0 <= i < |parts[k]| ==> ClassOf(parts[k][i]) == Other)
    && (forall k :: 0 <= k < |parts| && k % 2 == 1 ==>
          parts[k] != [] && IsUniform(parts[k]) && ClassOf(parts[k][0]) != Other)
  }

  lemma {:induction false} SplitFromShape(gap: string, s: string)
    requires forall i :: 0 <= i < |gap| ==> ClassOf(gap[i]) == Other
    ensures IsSplitShape(SplitFrom(gap, s))
    decreases |s|
  {
    if s == [] {
    } else if ClassOf(s[0]) == Other {
      SplitFromShape(gap + [s[0]], s[1..]);
    } else {
      var n := RunLength(s);
      var rest := SplitFrom([], s[n..]);
      SplitFromShape([], s[n..]);
      var parts := [gap, s[..n]] + rest;
      forall k | 0 <= k < |parts| && k % 2 == 0
        ensures forall i :: 0 <= i < |parts[k]| ==> ClassOf(parts[k][i]) == Other
      {
        if k >= 2 { assert parts[k] == rest[k - 2]; }
      }
      forall k | 0 <= k < |parts| && k % 2 == 1
        ensures parts[k] != [] && IsUniform(parts[k]) && ClassOf(parts[k][0]) != Other
      {
        if k >= 2 { assert parts[k] == rest[k - 2]; }
      }
    }
  }

  /** The list with its empty strings removed (`if seg == "": continue`). */
  function NonEmpty(ss: seq<string>): (r: seq<string>)
    ensures forall k :: 0 <= k < |r| ==> r[k] != []
    ensures Concat(r) == Concat(ss)
  {
    if ss == [] then []
    else if ss[0] == [] then NonEmpty(ss[1..])
    else [ss[0]] + NonEmpty(ss[1..])
  }

  lemma {:induction false} NonEmptyAppend(a: seq<string>, b: seq<string>)
    ensures NonEmpty(a + b) == NonEmpty(a) + NonEmpty(b)
  {
    if a == [] {
      assert a + b == b;
    } else {
      assert (a + b)[1..] == a[1..] + b;
      NonEmptyAppend(a[1..], b);
    }
  }

  /** All characters of a non-empty gap are Other, so the gap is a whole run. */
  lemma GapRunLength(gap: string, s: string)
    requires gap != []
    requires forall i :: 0 <= i < |gap| ==> ClassOf(gap[i]) == Other
    requires s == [] || ClassOf(s[0]) != Other
    ensures RunLength(gap + s) == |gap|
  {
    var t := gap + s;
    assert forall i :: 0 <= i < |gap| ==> t[i] == gap[i];
    if |gap| < |t| { assert t[|gap|] == s[0]; }
    RunLengthIs(t, |gap|);
  }

  /** A gap in front of a match (or of the end) is a run of its own. */
  lemma GapRuns(gap: string, s: string)
    requires forall i :: 0 <= i < |gap| ==> ClassOf(gap[i]) == Other
    requires s == [] || ClassOf(s[0]) != Other
    ensures Runs(gap + s) == NonEmpty([gap]) + Runs(s)
  {
    if gap == [] {
      assert gap + s == s;
    } else {
      GapRunLength(gap, s);
      var t := gap + s;
      assert t[..|gap|] == gap && t[|gap|..] == s;
    }
  }

  lemma NonEmptyMatch(gap: string, m: string, rest: seq<string>, runs: seq<string>)
    requires m != [] && NonEmpty(rest) == runs
    ensures NonEmpty([gap, m] + rest) == NonEmpty([gap]) + ([m] + runs)
  {
    NonEmptyAppend([gap, m], rest);
    NonEmptyAppend([gap], [m]);
    assert [gap, m] == [gap] + [m];
    assert NonEmpty([m]) == [m];
  }

  lemma SplitFromAtMatch(gap: string, s: string)
    requires s != [] && ClassOf(s[0]) != Other
    ensures SplitFrom(gap, s) == [gap, s[..RunLength(s)]] + SplitFrom([], s[RunLength(s)..])
  {
  }

  lemma RunsUnfold(s: string)
    requires s != []
    ensures Runs(s) == [s[..RunLength(s)]] + Runs(s[RunLength(s)..])
  {
  }

  /** One step of `NonEmptySplitFrom` at the start of a match. */
  lemma MatchStep(gap: string, s: string)
    requires forall i :: 0 <= i < |gap| ==> ClassOf(gap[i]) == Other
    requires s != [] && ClassOf(s[0]) != Other
    requires NonEmpty(SplitFrom([], s[RunLength(s)..])) == Runs(s[RunLength(s)..])
    ensures NonEmpty(SplitFrom(gap, s)) == Runs(gap + s)
  {
    var n := RunLength(s);
    SplitFromAtMatch(gap, s);
    NonEmptyMatch(gap, s[..n], SplitFrom([], s[n..]), Runs(s[n..]));
    RunsUnfold(s);
    GapRuns(gap, s);
  }

  lemma {:induction false} NonEmptySplitFrom(gap: string, s: string)
    requires forall i :: 0 <= i < |gap| ==> ClassOf(gap[i]) == Other
    ensures NonEmpty(SplitFrom(gap, s)) == Runs(gap + s)
    decreases |s|
  {
    if s == [] {
      GapRuns(gap, s);
      assert NonEmpty([gap]) + Runs(s) == NonEmpty([gap]);
    } else if ClassOf(s[0]) == Other {
      NonEmptySplitFrom(gap + [s[0]], s[1..]);
      assert (gap + [s[0]]) + s[1..] == gap + s;
    } else {
      var n := RunLength(s);
      NonEmptySplitFrom([], s[n..]);
      assert [] + s[n..] == s[n..];
      MatchStep(gap, s);
    }
  }

  /** `re.split` with a capturing group loses nothing: its parts alternate
      between gaps and matches and concatenate to the input. */
  lemma RegexSplitShape(text: string)
    ensures IsSplitShape(RegexSplit(text))
    ensures Concat(RegexSplit(text)) == text
  {
    SplitFromShape([], text);
    SplitSegmentsAreRuns(text);
  }

  /** What the segment loop sees: the maximal runs of the input, for every
      input, including characters of neither alternative. */
  lemma SplitSegmentsAreRuns(text: string)
    ensures NonEmpty(RegexSplit(text)) == Runs(text)
    ensures IsMaximalRuns(text, NonEmpty(RegexSplit(text)))
  {
    NonEmptySplitFrom([], text);
    assert [] + text == text;
    RunsAreMaximal(text);
  }
}
