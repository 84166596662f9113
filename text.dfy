/**
 Characters and strings as Python's `str` and `re` modules see them, to the
 extent the translator backend depends on them: the whitespace set, the ASCII
 letters, the CJK ideograph block and the full-width marks of the split
 pattern, whitespace trimming, and concatenation of a list of strings.
 */
module Text {

  /** A character for which Python's `str.isspace()` holds. The regex class
      `\s` on `str` patterns, `str.strip()` and `str.rstrip()` use this same set. */
  predicate IsSpace(c: char) {
    var n := c as int;
    (0x09 <= n <= 0x0D) || (0x1C <= n <= 0x20) || n == 0x85 || n == 0xA0 || n == 0x1680
    || (0x2000 <= n <= 0x200A) || n == 0x2028 || n == 0x2029 || n == 0x202F
    || n == 0x205F || n == 0x3000
  }

  /** `[a-zA-Z]` */
  predicate IsAsciiLetter(c: char) {
    'a' <= c <= 'z' || 'A' <= c <= 'Z'
  }

  /** An ASCII character other than a letter: digits, punctuation, controls. */
  predicate IsAsciiNonLetter(c: char) {
    c as int < 0x80 && !IsAsciiLetter(c)
  }

  /** `[一-鿿]`, the CJK Unified Ideographs block. */
  predicate IsIdeograph(c: char) {
    0x4E00 <= c as int <= 0x9FFF
  }

  /** The fifteen full-width marks listed in the split pattern:
      。？！，、；：“”‘’（）《》 */
  predicate IsCjkMark(c: char) {
    var n := c as int;
    n == 0x3002 || n == 0xFF1F || n == 0xFF01 || n == 0xFF0C || n == 0x3001
    || n == 0xFF1B || n == 0xFF1A || n == 0x201C || n == 0x201D || n == 0x2018
    || n == 0x2019 || n == 0xFF08 || n == 0xFF09 || n == 0x300A || n == 0x300B
  }

  predicate AllSpace(s: string) {
    forall i :: 0 <= i < |s| ==> IsSpace(s[i])
  }

  /** `s.lstrip()`: the longest suffix of `s` that does not start with whitespace. */
  function LStrip(s: string): (r: string)
    ensures |r| <= |s| && r == s[|s| - |r|..]
    ensures AllSpace(s[..|s| - |r|])
    ensures r == [] || !IsSpace(r[0])
  {
    if s != [] && IsSpace(s[0]) then LStrip(s[1..]) else s
  }

  /** `s.rstrip()`: the longest prefix of `s` that does not end with whitespace. */
  function RStrip(s: string): (r: string)
    ensures |r| <= |s| && r == s[..|r|]
    ensures AllSpace(s[|r|..])
    ensures r == [] || !IsSpace(r[|r| - 1])
  {
    if s != [] && IsSpace(s[|s| - 1]) then RStrip(s[..|s| - 1]) else s
  }

  /** Whitespace appended to a string is what `rstrip` removes first. */
  lemma {:induction false} RStripAppendSpace(a: string, ws: string)
    requires AllSpace(ws)
    ensures RStrip(a + ws) == RStrip(a)
    decreases |ws|
  {
    if ws != [] {
      var t := a + ws;
      assert t[..|t| - 1] == a + ws[..|ws| - 1];
      assert IsSpace(t[|t| - 1]);
      RStripAppendSpace(a, ws[..|ws| - 1]);
    } else {
      assert a + ws == a;
    }
  }

  /** `s.strip()` */
  function Strip(s: string): (r: string)
    ensures r == [] <==> AllSpace(s)
    ensures (forall i :: 0 <= i < |s| ==> !IsSpace(s[i])) ==> r == s
    ensures |r| <= |s|
  {
    var l := LStrip(s);
    assert s == s[..|s| - |l|] + l;
    RStrip(l)
  }

  /** `"".join(ss)` for a list of strings. */
  function Concat(ss: seq<string>): string {
    if ss == [] then [] else ss[0] + Concat(ss[1..])
  }

  lemma {:induction false} ConcatAppend(a: seq<string>, b: seq<string>)
    ensures Concat(a + b) == Concat(a) + Concat(b)
  {
    if a == [] {
      assert a + b == b;
    } else {
      assert (a + b)[1..] == a[1..] + b;
      ConcatAppend(a[1..], b);
    }
  }

  /** The last character of a concatenation of non-empty strings is the last
      character of the last string. */
  lemma {:induction false} ConcatLast(ss: seq<string>)
    requires ss != [] && ss[|ss| - 1] != []
    ensures |Concat(ss)| > 0
    ensures Concat(ss)[|Concat(ss)| - 1] == ss[|ss| - 1][|ss[|ss| - 1]| - 1]
  {
    var init := ss[..|ss| - 1];
    var last := ss[|ss| - 1];
    assert ss == init + [last];
    ConcatAppend(init, [last]);
    assert Concat([last]) == last + Concat([]);
  }

  /** Decimal digits of `n`, as `%zd` formats it. */
  function NatToString(n: nat): (r: string)
    ensures r != []
    ensures forall i :: 0 <= i < |r| ==> '0' <= r[i] <= '9'
  {
    var d := [(('0' as int) + n % 10) as char];
    if n < 10 then d else NatToString(n / 10) + d
  }
}
