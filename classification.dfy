/**
 The two language tests of the translator backend: `detect_language` on the
 whole input and `is_chunk_language` on one segment. Python's `str.isalpha`
 is a parameter `alpha`; `IsAlphaTable` records what is known of it.
 */
module Classification {
  import opened Text
  import opened Segmentation

  /** What `str.isalpha` is known to do on the characters that matter here:
      ASCII letters and CJK ideographs are alphabetic (category Lu, Ll or Lo);
      whitespace, the other ASCII characters and the full-width marks are not.
      U+9FFD–U+9FFF are ideographs from Unicode 14 (Python 3.11) on; earlier
      Pythons, where they are unassigned, fall outside this table. */
  ghost predicate IsAlphaTable(alpha: char -> bool) {
    && (forall c :: IsAsciiLetter(c) ==> alpha(c))
    && (forall c :: IsIdeograph(c) ==> alpha(c))
    && (forall c :: IsSpace(c) ==> !alpha(c))
    && (forall c :: IsAsciiNonLetter(c) ==> !alpha(c))
    && (forall c :: IsCjkMark(c) ==> !alpha(c))
  }

  /** `re.search(r'[一-鿿]', s)` and `any('一' <= c <= '鿿' for c in s)`. */
  function HasIdeograph(s: string): (r: bool)
    ensures r <==> exists i :: 0 <= i < |s| && IsIdeograph(s[i])
  {
    if s == [] then false else IsIdeograph(s[0]) || HasIdeograph(s[1..])
  }

  /** `detect_language`: a presence test for one ideograph, not a majority test. */
  function DetectLanguage(text: string): (lang: string)
    ensures lang == "zh" <==> exists i :: 0 <= i < |text| && IsIdeograph(text[i])
    ensures lang == "zh" || lang == "en"
  {
    if HasIdeograph(text) then "zh" else "en"
  }

  /** `sum(1 for c in s if c.isalpha())` */
  function CountAlpha(s: string, alpha: char -> bool): (n: nat)
    ensures n <= |s|
    ensures n == 0 <==> forall i :: 0 <= i < |s| ==> !alpha(s[i])
    ensures n == |s| <==> forall i :: 0 <= i < |s| ==> alpha(s[i])
  {
    if s == [] then 0
    else (if alpha(s[0]) then 1 else 0) + CountAlpha(s[1..], alpha)
  }

  /** `is_chunk_language`. The `en` test `letters > len(s.strip()) * 0.5`
      is stated without floating point as `2 * letters > |strip(s)|`. */
  function IsChunkLanguage(seg: string, lang: string, alpha: char -> bool): (r: bool)
    ensures lang == "zh" ==> (r <==> exists i :: 0 <= i < |seg| && IsIdeograph(seg[i]))
    ensures lang == "en" && r ==> exists i :: 0 <= i < |seg| && alpha(seg[i])
    ensures lang != "zh" && lang != "en" ==> !r
  {
    if lang == "zh" then HasIdeograph(seg)
    else if lang == "en" then 2 * CountAlpha(seg, alpha) > |Strip(seg)|
    else false
  }

  /** Under `en`, a segment with no alphabetic character is never English;
      in particular a whitespace-only segment is not. */
  lemma NoLettersNotEnglish(seg: string, alpha: char -> bool)
    requires IsAlphaTable(alpha)
    requires forall i :: 0 <= i < |seg| ==> IsSpace(seg[i]) || IsAsciiNonLetter(seg[i]) || IsCjkMark(seg[i])
    ensures !IsChunkLanguage(seg, "en", alpha)
  {
  }

  /** A segment of alphabetic characters only (whitespace is never one) is
      English: `str.isalpha` is true of CJK ideographs, so a run such as
      "苹果" counts as English under `en` and is sent to the engine. */
  lemma AllLettersEnglish(seg: string, alpha: char -> bool)
    requires IsAlphaTable(alpha)
    requires seg != []
    requires forall i :: 0 <= i < |seg| ==> alpha(seg[i])
    ensures IsChunkLanguage(seg, "en", alpha)
  {
  }

  lemma IdeographRunEnglish(seg: string, alpha: char -> bool)
    requires IsAlphaTable(alpha)
    requires seg != []
    requires forall i :: 0 <= i < |seg| ==> IsIdeograph(seg[i])
    ensures IsChunkLanguage(seg, "en", alpha)
  {
    AllLettersEnglish(seg, alpha);
  }

  /** Number of ASCII letters in `s`. */
  function AsciiLetterCount(s: string): (n: nat)
    ensures n <= |s|
  {
    if s == [] then 0
    else (if IsAsciiLetter(s[0]) then 1 else 0) + AsciiLetterCount(s[1..])
  }

  /** On a run of the first alternative `[a-zA-Z\s]+`, `str.isalpha` counts
      exactly the ASCII letters. */
  lemma {:induction false} LatinRunLetters(seg: string, alpha: char -> bool)
    requires IsAlphaTable(alpha)
    requires forall i :: 0 <= i < |seg| ==> ClassOf(seg[i]) == Latin
    ensures CountAlpha(seg, alpha) == AsciiLetterCount(seg)
  {
    if seg != [] {
      assert IsAsciiLetter(seg[0]) || IsSpace(seg[0]);
      LatinRunLetters(seg[1..], alpha);
    }
  }

  /** Under `zh` only Han runs holding an ideograph are Chinese: a Latin run
      (English words, whitespace) and an Other run (digits, ASCII
      punctuation) never are, and neither is a run of full-width marks alone. */
  lemma ZhChunksAreHanRuns(text: string, k: nat, alpha: char -> bool)
    requires k < |Runs(text)|
    ensures IsChunkLanguage(Runs(text)[k], "zh", alpha) ==> ClassOf(Runs(text)[k][0]) == Han
  {
    RunsAreMaximal(text);
    var seg := Runs(text)[k];
    if IsChunkLanguage(seg, "zh", alpha) {
      var i :| 0 <= i < |seg| && IsIdeograph(seg[i]);
      assert ClassOf(seg[i]) == Han;
    }
  }
}
