/**
 Worked examples of the translator backend on concrete inputs: language
 resolution of mixed and English-only text, and the mixed sentence
 "I love 苹果 very much" translated from English, where each of its three
 segments, the Chinese one included, counts as English and so goes to the
 engine (`Backend.PipelineJoinsReplies` then gives the result).
 */
module Scenarios {
  import opened Text
  import opened Segmentation
  import opened Classification
  import opened Backend

  /** `auto`/`auto` on mixed text translates from zh to en. */
  lemma MixedTextResolution()
    ensures Resolve("auto", "auto", "你好 hello") == ("zh", "en")
  {
    assert IsIdeograph("你好 hello"[0]);
  }

  /** `auto`/`auto` on English text translates from en to zh. */
  lemma EnglishTextResolution()
    ensures Resolve("auto", "auto", "hello there") == ("en", "zh")
  {
    var t := "hello there";
    assert forall i :: 0 <= i < |t| ==> t[i] as int < 0x80;
  }

  const Sentence: string := "I love 苹果 very much"

  /** The sentence falls into three segments; the spaces stay with the words. */
  lemma SentenceSegments()
    ensures Segments(Sentence) == ["I love ", "苹果", " very much"]
  {
    var rs := ["I love ", "苹果", " very much"];
    assert Concat(rs) == Sentence;
    assert IsUniform(rs[0]) && IsUniform(rs[1]) && IsUniform(rs[2]);
    assert IsMaximalRuns(Sentence, rs);
    MaximalRunsUnique(Sentence, rs);
    SplitSegmentsAreRuns(Sentence);
  }

  /** 5 letters against a stripped length of 6. */
  lemma FirstSegmentEnglish(alpha: char -> bool)
    requires IsAlphaTable(alpha)
    ensures IsChunkLanguage("I love ", "en", alpha)
  {
    LatinRunLetters("I love ", alpha);
    assert AsciiLetterCount("I love ") == 5;
    assert |Strip("I love ")| == 6;
  }

  /** Ideographs are alphabetic, so the Chinese run also counts as English. */
  lemma SecondSegmentEnglish(alpha: char -> bool)
    requires IsAlphaTable(alpha)
    ensures IsChunkLanguage("苹果", "en", alpha)
  {
    IdeographRunEnglish("苹果", alpha);
  }

  /** 8 letters against a stripped length of 9. */
  lemma ThirdSegmentEnglish(alpha: char -> bool)
    requires IsAlphaTable(alpha)
    ensures IsChunkLanguage(" very much", "en", alpha)
  {
    LatinRunLetters(" very much", alpha);
    assert AsciiLetterCount(" very much") == 8;
    ThirdSegmentStripped();
  }

  lemma ThirdSegmentStripped()
    ensures |Strip(" very much")| == 9
  {
    var s := " very much";
    assert IsSpace(s[0]) && s[1..] == "very much";
    assert !IsSpace("very much"[0]);
    assert LStrip(s) == "very much";
    assert !IsSpace("very much"[8]);
  }

  /** A letter outside ASCII matches neither alternative, so "café" splits
      into "caf" and "é". */
  lemma AccentedWordSegments()
    ensures Segments("café") == ["caf", "é"]
  {
    var rs := ["caf", "é"];
    assert Concat(rs) == "café";
    assert IsUniform(rs[0]) && IsUniform(rs[1]);
    assert IsMaximalRuns("café", rs);
    MaximalRunsUnique("café", rs);
    SplitSegmentsAreRuns("café");
  }

  /** One alphabetic character against a stripped length of 1. */
  lemma AccentEnglish(alpha: char -> bool)
    requires IsAlphaTable(alpha) && alpha('é')
    ensures IsChunkLanguage("é", "en", alpha)
  {
    AllLettersEnglish("é", alpha);
  }

  /** `str.isalpha` holds of "é", so under `en` the unmatched run is English
      and goes to the engine on its own. */
  lemma AccentedLetterSentAlone(alpha: char -> bool)
    requires IsAlphaTable(alpha) && alpha('é')
    ensures Segments("café") == ["caf", "é"]
    ensures IsSourceSegment("café", 1, "en", alpha)
  {
    AccentedWordSegments();
    AccentEnglish(alpha);
  }
}
