/**
 The text pipeline of `TranslatorBackend`: the per-segment loop of
 `_mixed_language_split_and_translate`, `"".join` and `rstrip`, and the
 boundary `translate` with its early exits, language resolution and fallback
 chain. The translation engine `_do_translate` is a parameter; the readiness
 flag `is_ready` is a field of the backend object.
 */
module Backend {
  import opened Text
  import opened Segmentation
  import opened Classification

  /** A Python value coming back from the engine: a `str`, or an object of
      some other type (named for the `TypeError` that `"".join` raises). */
  datatype Value = Str(text: string) | NonStr(typeName: string)

  /** A call that returns, or raises an exception whose `str()` is `error`. */
  datatype Result<T> = Success(value: T) | Failure(error: string)

  /** `_do_translate(text, src, tgt)` */
  type Engine = (string, string, string) -> Result<Value>

  const NotReadyMessage: string := "模型尚未加载完毕，请稍候..."
  const ErrorPrefix: string := "翻译出错: "
  const ErrorSeparator: string := " 或 "

  /** The segments the loop acts on: the split with empty strings skipped. */
  function Segments(text: string): seq<string> {
    NonEmpty(RegexSplit(text))
  }

  function TextOf(v: Value): string {
    if v.Str? then v.text else []
  }

  function Texts(vs: seq<Value>): (ss: seq<string>)
    ensures |ss| == |vs|
  {
    seq(|vs|, k requires 0 <= k < |vs| => TextOf(vs[k]))
  }

  /** Index of the first item that is not a string, or `|vs|` if there is none. */
  function FirstNonStr(vs: seq<Value>): (k: nat)
    ensures k <= |vs|
    ensures forall j :: 0 <= j < k ==> vs[j].Str?
    ensures k < |vs| ==> vs[k].NonStr?
  {
    if vs == [] then 0 else if vs[0].NonStr? then 0 else 1 + FirstNonStr(vs[1..])
  }

  /** The message of the `TypeError` raised by `str.join`. CPython's `%.80s`
      truncates the type name to 80 UTF-8 bytes; this takes 80 characters,
      which is the same for the ASCII names Python types carry. */
  function JoinError(k: nat, typeName: string): string {
    var shown := if |typeName| <= 80 then typeName else typeName[..80];
    "sequence item " + NatToString(k) + ": expected str instance, " + shown + " found"
  }

  /** `"".join(vs)`: the concatenation when every item is a string, otherwise
      a `TypeError` naming the first item that is not. */
  function Join(vs: seq<Value>): (r: Result<string>)
    ensures r.Success? <==> forall k :: 0 <= k < |vs| ==> vs[k].Str?
    ensures r.Success? ==> r.value == Concat(Texts(vs))
    ensures r.Failure? ==>
      exists k :: 0 <= k < |vs| && vs[k].NonStr? && (forall j :: 0 <= j < k ==> vs[j].Str?)
                  && r.error == JoinError(k, vs[k].typeName)
  {
    var k := FirstNonStr(vs);
    if k == |vs| then Success(Concat(Texts(vs))) else Failure(JoinError(k, vs[k].typeName))
  }

  /** What one segment contributes to `translated_segments`. */
  function SegmentOutput(seg: string, src: string, tgt: string, engine: Engine, alpha: char -> bool): Value {
    if IsChunkLanguage(seg, src, alpha) then
      match engine(seg, src, tgt)
      case Success(v) => v
      case Failure(_) => Str(seg)
    else Str(seg)
  }

  /** A source segment contributes what the engine returns for it. */
  lemma SourceSegmentOutput(seg: string, src: string, tgt: string, engine: Engine, alpha: char -> bool, v: Value)
    requires IsChunkLanguage(seg, src, alpha) && engine(seg, src, tgt) == Success(v)
    ensures SegmentOutput(seg, src, tgt, engine, alpha) == v
  {
  }

  function Outputs(segs: seq<string>, src: string, tgt: string, engine: Engine, alpha: char -> bool): (vs: seq<Value>)
    ensures |vs| == |segs|
  {
    seq(|segs|, k requires 0 <= k < |segs| => SegmentOutput(segs[k], src, tgt, engine, alpha))
  }

  lemma OutputsAppend(segs: seq<string>, seg: string, src: string, tgt: string, engine: Engine, alpha: char -> bool)
    ensures Outputs(segs + [seg], src, tgt, engine, alpha)
         == Outputs(segs, src, tgt, engine, alpha) + [SegmentOutput(seg, src, tgt, engine, alpha)]
  {
  }

  /** One pass of the segment loop: an empty part is skipped, any other
      part adds its output. */
  lemma LoopStep(parts: seq<string>, seg: string, src: string, tgt: string, engine: Engine, alpha: char -> bool)
    ensures Outputs(NonEmpty(parts + [seg]), src, tgt, engine, alpha)
         == if seg == [] then Outputs(NonEmpty(parts), src, tgt, engine, alpha)
            else Outputs(NonEmpty(parts), src, tgt, engine, alpha) + [SegmentOutput(seg, src, tgt, engine, alpha)]
  {
    NonEmptyAppend(parts, [seg]);
    assert NonEmpty([seg]) == if seg == [] then [] else [seg];
    if seg != [] {
      OutputsAppend(NonEmpty(parts), seg, src, tgt, engine, alpha);
    } else {
      assert NonEmpty(parts) + [] == NonEmpty(parts);
    }
  }

  /** `_mixed_language_split_and_translate(text, src, tgt)` as a value: the
      joined per-segment outputs with trailing whitespace removed, or the
      exception `"".join` raises. */
  function Pipeline(text: string, src: string, tgt: string, engine: Engine, alpha: char -> bool): (r: Result<string>)
    ensures r.Success? ==> r.value == [] || !IsSpace(r.value[|r.value| - 1])
  {
    match Join(Outputs(Segments(text), src, tgt, engine, alpha))
    case Success(s) => Success(RStrip(s))
    case Failure(e) => Failure(e)
  }

  /** A source segment is one the loop hands to the engine. */
  ghost predicate IsSourceSegment(text: string, k: int, src: string, alpha: char -> bool) {
    0 <= k < |Segments(text)| && IsChunkLanguage(Segments(text)[k], src, alpha)
  }

  /** An engine that fails, or gives a segment back unchanged, leaves the
      text as it was apart from trailing whitespace: every segment, including
      digits, punctuation, leading and inner whitespace, is kept verbatim. */
  lemma {:induction false} PipelineWithoutTranslation(text: string, src: string, tgt: string, engine: Engine, alpha: char -> bool)
    requires forall s :: engine(s, src, tgt).Failure? || engine(s, src, tgt) == Success(Str(s))
    ensures Pipeline(text, src, tgt, engine, alpha) == Success(RStrip(text))
  {
    var segs := Segments(text);
    var outs := Outputs(segs, src, tgt, engine, alpha);
    assert forall k :: 0 <= k < |segs| ==> outs[k] == Str(segs[k]);
    assert Texts(outs) == segs;
    RegexSplitShape(text);
    assert Concat(segs) == text;
  }

  /** With an engine that, on each segment it is given, returns a string or
      raises, the result is the concatenation, in order, of its replies, of the
      segments whose call raised and of the untouched segments, stripped at the
      end only. */
  lemma {:induction false} PipelineJoinsReplies(text: string, src: string, tgt: string, engine: Engine, alpha: char -> bool, pieces: seq<string>)
    requires |pieces| == |Segments(text)|
    requires forall k :: 0 <= k < |pieces| ==>
      if IsSourceSegment(text, k, src, alpha)
      then engine(Segments(text)[k], src, tgt) == Success(Str(pieces[k]))
        || (engine(Segments(text)[k], src, tgt).Failure? && pieces[k] == Segments(text)[k])
      else pieces[k] == Segments(text)[k]
    ensures Pipeline(text, src, tgt, engine, alpha) == Success(RStrip(Concat(pieces)))
  {
    var segs := Segments(text);
    var outs := Outputs(segs, src, tgt, engine, alpha);
    forall k | 0 <= k < |segs| ensures outs[k] == Str(pieces[k]) {
      if IsChunkLanguage(segs[k], src, alpha) {
        assert IsSourceSegment(text, k, src, alpha);
      }
    }
    assert Texts(outs) == pieces;
  }

  /** The pipeline raises exactly when the engine returns a non-string for
      some segment it is given. */
  lemma PipelineFailsIff(text: string, src: string, tgt: string, engine: Engine, alpha: char -> bool)
    ensures Pipeline(text, src, tgt, engine, alpha).Failure? <==>
      exists k :: IsSourceSegment(text, k, src, alpha)
        && engine(Segments(text)[k], src, tgt).Success?
        && engine(Segments(text)[k], src, tgt).value.NonStr?
  {
    var segs := Segments(text);
    var outs := Outputs(segs, src, tgt, engine, alpha);
    assert forall k :: 0 <= k < |segs| ==> outs[k] == SegmentOutput(segs[k], src, tgt, engine, alpha);
  }

  /** Per-segment isolation: a segment whose engine call fails is kept as it
      is, and so is any segment that is not in the source language; what the
      engine does on other inputs does not affect it. */
  lemma SegmentKeptUnlessTranslated(text: string, k: nat, src: string, tgt: string, engine: Engine, alpha: char -> bool)
    requires k < |Segments(text)|
    requires !IsSourceSegment(text, k, src, alpha) || engine(Segments(text)[k], src, tgt).Failure?
    ensures Outputs(Segments(text), src, tgt, engine, alpha)[k] == Str(Segments(text)[k])
  {
  }

  /** The engine is consulted only on source segments: two engines that
      agree there give the same pipeline result. */
  lemma PipelineOnlyConsultsSourceSegments(text: string, src: string, tgt: string, e1: Engine, e2: Engine, alpha: char -> bool)
    requires forall k :: IsSourceSegment(text, k, src, alpha) ==>
      e1(Segments(text)[k], src, tgt) == e2(Segments(text)[k], src, tgt)
    ensures Pipeline(text, src, tgt, e1, alpha) == Pipeline(text, src, tgt, e2, alpha)
  {
    var segs := Segments(text);
    var o1 := Outputs(segs, src, tgt, e1, alpha);
    var o2 := Outputs(segs, src, tgt, e2, alpha);
    forall k | 0 <= k < |segs| ensures o1[k] == o2[k] {
      if IsChunkLanguage(segs[k], src, alpha) {
        assert IsSourceSegment(text, k, src, alpha);
      }
    }
    assert o1 == o2;
  }

  /** Under `zh`, no segment without an ideograph reaches the engine: English
      words, whitespace, digits and punctuation are never translated, so
      engines that differ only on such strings give the same result. */
  lemma ZhSendsOnlyIdeographSegments(text: string, tgt: string, e1: Engine, e2: Engine, alpha: char -> bool)
    requires forall s :: HasIdeograph(s) ==> e1(s, "zh", tgt) == e2(s, "zh", tgt)
    ensures Pipeline(text, "zh", tgt, e1, alpha) == Pipeline(text, "zh", tgt, e2, alpha)
  {
    forall k | IsSourceSegment(text, k, "zh", alpha)
      ensures e1(Segments(text)[k], "zh", tgt) == e2(Segments(text)[k], "zh", tgt)
    {
      assert HasIdeograph(Segments(text)[k]);
    }
    PipelineOnlyConsultsSourceSegments(text, "zh", tgt, e1, e2, alpha);
  }

  /** Joining one more string extends the joined text, or keeps the error. */
  lemma JoinAppendStr(vs: seq<Value>, w: string)
    ensures Join(vs + [Str(w)]) == match Join(vs)
      case Success(c) => Success(c + w)
      case Failure(e) => Failure(e)
  {
    var ext := vs + [Str(w)];
    var k := FirstNonStr(vs);
    var k' := FirstNonStr(ext);
    if k < |vs| {
      assert ext[k] == vs[k];
      assert k' == k;
    } else {
      assert k' == |ext|;
      assert Texts(ext) == Texts(vs) + [w];
      ConcatAppend(Texts(vs), [w]);
      assert [w][1..] == [];
      assert Concat([w]) == w;
    }
  }

  /** Whitespace after a character outside the Latin class, such as the
      newline a text box appends after Chinese text, becomes a segment of its
      own that is never translated and is then stripped: the result is the
      same as without it. */
  lemma TrailingWhitespaceIgnored(text: string, ws: string, src: string, tgt: string, engine: Engine, alpha: char -> bool)
    requires IsAlphaTable(alpha)
    requires ws != [] && AllSpace(ws)
    requires text == [] || ClassOf(text[|text| - 1]) != Latin
    ensures Pipeline(text + ws, src, tgt, engine, alpha) == Pipeline(text, src, tgt, engine, alpha)
  {
    SplitSegmentsAreRuns(text);
    SplitSegmentsAreRuns(text + ws);
    assert forall i :: 0 <= i < |ws| ==> ClassOf(ws[i]) == Latin;
    RunsAppendRun(text, ws);
    assert !IsChunkLanguage(ws, src, alpha) by {
      if src == "en" {
        NoLettersNotEnglish(ws, alpha);
      } else if src == "zh" {
        assert forall i :: 0 <= i < |ws| ==> !IsIdeograph(ws[i]);
      }
    }
    var segs := Segments(text);
    OutputsAppend(segs, ws, src, tgt, engine, alpha);
    var outs := Outputs(segs, src, tgt, engine, alpha);
    JoinAppendStr(outs, ws);
    if Join(outs).Success? {
      RStripAppendSpace(Join(outs).value, ws);
    }
  }

  /** Resolution of the `auto` modes. An `auto` source is the detected
      language; an `auto` target is the complement of the source, so it never
      equals it. */
  function Resolve(fromMode: string, toMode: string, text: string): (p: (string, string))
    ensures fromMode == "auto" ==> (p.0 == "zh" <==> exists i :: 0 <= i < |text| && IsIdeograph(text[i]))
    ensures fromMode == "auto" ==> p.0 == "zh" || p.0 == "en"
    ensures fromMode != "auto" ==> p.0 == fromMode
    ensures toMode == "auto" ==> p.1 != p.0 && (p.1 == "en" <==> p.0 == "zh") && (p.1 == "zh" || p.1 == "en")
    ensures toMode != "auto" ==> p.1 == toMode
  {
    var src := if fromMode == "auto" then DetectLanguage(text) else fromMode;
    var tgt := if toMode == "auto" then (if src == "zh" then "en" else "zh") else toMode;
    (src, tgt)
  }

  /** What `translate(text, from_mode, to_mode)` returns, given the state of
      `is_ready`, the engine and `str.isalpha`. */
  function TranslationOf(ready: bool, text: string, fromMode: string, toMode: string, engine: Engine, alpha: char -> bool): Value {
    if Strip(text) == [] then Str(text)
    else if !ready then Str(NotReadyMessage)
    else
      var (src, tgt) := Resolve(fromMode, toMode, text);
      if src == tgt then Str(text)
      else match Pipeline(text, src, tgt, engine, alpha)
        case Success(s) => Str(s)
        case Failure(e1) =>
          match engine(text, src, tgt)
          case Success(v) => v
          case Failure(e2) => Str(ErrorPrefix + e1 + ErrorSeparator + e2)
  }

  /** Empty or whitespace-only input comes back unchanged, not stripped, and
      before readiness is looked at. */
  lemma BlankInputUnchanged(ready: bool, text: string, fromMode: string, toMode: string, engine: Engine, alpha: char -> bool)
    requires AllSpace(text)
    ensures TranslationOf(ready, text, fromMode, toMode, engine, alpha) == Str(text)
  {
  }

  /** Before the models are ready, other input gets the fixed notice, whatever
      the engine would do. */
  lemma NotReadyNotice(text: string, fromMode: string, toMode: string, engine: Engine, alpha: char -> bool)
    requires !AllSpace(text)
    ensures TranslationOf(false, text, fromMode, toMode, engine, alpha) == Str(NotReadyMessage)
  {
  }

  /** When the resolved languages coincide the original text is returned, with
      no trailing whitespace removed. */
  lemma SameLanguageUnchanged(text: string, fromMode: string, toMode: string, engine: Engine, alpha: char -> bool)
    requires Resolve(fromMode, toMode, text).0 == Resolve(fromMode, toMode, text).1
    ensures TranslationOf(true, text, fromMode, toMode, engine, alpha) == Str(text)
  {
  }

  /** `translate` never raises, and gives back something other than a string
      only when the pipeline raised and the whole-text fallback call then
      returned that non-string. */
  lemma NonStringOnlyFromFallback(ready: bool, text: string, fromMode: string, toMode: string, engine: Engine, alpha: char -> bool)
    ensures var r := TranslationOf(ready, text, fromMode, toMode, engine, alpha);
      var (src, tgt) := Resolve(fromMode, toMode, text);
      r.NonStr? ==>
        ready && src != tgt && Pipeline(text, src, tgt, engine, alpha).Failure?
        && engine(text, src, tgt) == Success(r)
  {
  }

  /** When the pipeline raises and the whole-text fallback call returns, its
      value is the answer, whether a string or not. */
  lemma FallbackAnswersWhenPipelineRaises(text: string, fromMode: string, toMode: string, engine: Engine, alpha: char -> bool, v: Value)
    requires !AllSpace(text)
    requires var (src, tgt) := Resolve(fromMode, toMode, text);
      src != tgt && Pipeline(text, src, tgt, engine, alpha).Failure? && engine(text, src, tgt) == Success(v)
    ensures TranslationOf(true, text, fromMode, toMode, engine, alpha) == v
  {
  }

  /** When both the pipeline and the fallback call raise, the two messages
      are reported together. */
  lemma BothFailuresReported(text: string, fromMode: string, toMode: string, engine: Engine, alpha: char -> bool, e1: string, e2: string)
    requires !AllSpace(text)
    requires var (src, tgt) := Resolve(fromMode, toMode, text);
      src != tgt && Pipeline(text, src, tgt, engine, alpha) == Failure(e1) && engine(text, src, tgt) == Failure(e2)
    ensures TranslationOf(true, text, fromMode, toMode, engine, alpha) == Str("翻译出错: " + e1 + " 或 " + e2)
  {
  }

  /** With an engine that only ever returns strings or raises, the fallback is
      never taken: the result is the pipeline's. */
  lemma StringEngineNeverFallsBack(text: string, fromMode: string, toMode: string, engine: Engine, alpha: char -> bool)
    requires forall s, a, b :: engine(s, a, b).Success? ==> engine(s, a, b).value.Str?
    requires !AllSpace(text)
    requires Resolve(fromMode, toMode, text).0 != Resolve(fromMode, toMode, text).1
    ensures var (src, tgt) := Resolve(fromMode, toMode, text);
      Pipeline(text, src, tgt, engine, alpha).Success?
      && TranslationOf(true, text, fromMode, toMode, engine, alpha) == Str(Pipeline(text, src, tgt, engine, alpha).value)
  {
    var (src, tgt) := Resolve(fromMode, toMode, text);
    PipelineFailsIff(text, src, tgt, engine, alpha);
  }

  /** With an engine that fails on everything, or gives its input back, a
      ready backend returns the input with trailing whitespace removed. */
  lemma TranslationWithoutEngineIsRStrip(text: string, fromMode: string, toMode: string, engine: Engine, alpha: char -> bool)
    requires forall s, a, b :: engine(s, a, b).Failure? || engine(s, a, b) == Success(Str(s))
    requires !AllSpace(text)
    requires Resolve(fromMode, toMode, text).0 != Resolve(fromMode, toMode, text).1
    ensures TranslationOf(true, text, fromMode, toMode, engine, alpha) == Str(RStrip(text))
  {
    var (src, tgt) := Resolve(fromMode, toMode, text);
    PipelineWithoutTranslation(text, src, tgt, engine, alpha);
  }

  /** The backend object. Only `is_ready` is state; the split pattern is the
      constant `RegexSplit`. */
  class TranslatorBackend {
    var isReady: bool

    constructor ()
      ensures !isReady
    {
      isReady := false;
    }

    /** The effect of `check_and_install_models` on the backend. Both of its
        paths, the one that finds both pairs installed and the one that
        downloads, end by setting the flag; an exception anywhere on the way
        (`raised`) is caught and leaves the flag as it was. The download path
        sets it even when the package index offered no matching package. */
    method CheckAndInstallModels(alreadyInstalled: bool, raised: bool)
      modifies this
      ensures isReady == (old(isReady) || !raised)
    {
      if raised {
        return;
      }
      if alreadyInstalled {
        isReady := true;
        return;
      }
      isReady := true;
    }

    method Translate(text: string, fromMode: string, toMode: string, engine: Engine, alpha: char -> bool) returns (r: Value)
      ensures r == TranslationOf(isReady, text, fromMode, toMode, engine, alpha)
    {
      if Strip(text) == [] {
        return Str(text);
      }
      if !isReady {
        return Str(NotReadyMessage);
      }
      var langs := Resolve(fromMode, toMode, text);
      var src, tgt := langs.0, langs.1;
      if src == tgt {
        return Str(text);
      }
      var attempt := MixedLanguageSplitAndTranslate(text, src, tgt, engine, alpha);
      match attempt {
        case Success(s) =>
          r := Str(s);
        case Failure(e) =>
          match engine(text, src, tgt) {
            case Success(v) =>
              r := v;
            case Failure(eFallback) =>
              r := Str(ErrorPrefix + e + ErrorSeparator + eFallback);
          }
      }
    }

    /** The body of the segment loop for a non-empty segment: translate it
        if it is in the source language, keeping it when the engine raises.
        The statement-by-statement twin of the function `SegmentOutput`. */
    method TranslateSegment(seg: string, src: string, tgt: string, engine: Engine, alpha: char -> bool)
      returns (out: Value)
      ensures out == SegmentOutput(seg, src, tgt, engine, alpha)
    {
      var isSource := IsChunkLanguage(seg, src, alpha);
      if isSource {
        match engine(seg, src, tgt) {
          case Success(trans) =>
            out := trans;
          case Failure(_) =>
            out := Str(seg);
        }
      } else {
        out := Str(seg);
      }
    }

    method MixedLanguageSplitAndTranslate(text: string, src: string, tgt: string, engine: Engine, alpha: char -> bool)
      returns (r: Result<string>)
      ensures r == Pipeline(text, src, tgt, engine, alpha)
    {
      var segments := RegexSplit(text);
      var translated: seq<Value> := [];
      for i := 0 to |segments|
        invariant translated == Outputs(NonEmpty(segments[..i]), src, tgt, engine, alpha)
      {
        var seg := segments[i];
        assert segments[..i + 1] == segments[..i] + [seg];
        LoopStep(segments[..i], seg, src, tgt, engine, alpha);
        if seg == [] {
          continue;
        }
        var out := TranslateSegment(seg, src, tgt, engine, alpha);
        translated := translated + [out];
      }
      assert segments[..|segments|] == segments;
      match Join(translated) {
        case Success(joined) =>
          r := Success(RStrip(joined));
        case Failure(e) =>
          r := Failure(e);
      }
    }
  }
}
