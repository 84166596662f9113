# Offline translator backend, in Dafny

This project models the text core of `TranslatorBackend` in the offline
Chinese–English translator (`main.py`). The backend takes a text and two modes
(`auto`, `zh` or `en`) and works out the source and target languages. It cuts
the text into segments with one regular expression and sends only the
source-language segments to the offline engine. Every other segment is kept
verbatim. The pieces are then joined and trailing whitespace is removed.

Modules:

- `Text` (`text.dfy`) covers the character classes the code relies on:
  - Python's `str.isspace` set, which `\s`, `strip` and `rstrip` share
  - `[a-zA-Z]`
  - the ideograph block U+4E00–U+9FFF
  - the fifteen full-width marks of the split pattern
  - `lstrip`, `rstrip`, `strip` and `"".join` on strings
- `Segmentation` (`segmentation.dfy`) covers `split_pattern.split` with its
  capturing group. Cutting the text into maximal runs of one character class
  is the reference definition. There are three classes:
  - *Latin*: ASCII letters and whitespace
  - *Han*: ideographs and the full-width marks
  - *Other*: everything else
- `Classification` (`classification.dfy`) covers `detect_language` and
  `is_chunk_language`. Python's `str.isalpha` is a parameter `alpha`.
  `IsAlphaTable` records what Unicode fixes about it on the characters that
  matter here.
- `Backend` (`backend.dfy`) covers:
  - the per-segment loop
  - `"".join`, which raises `TypeError` on a non-string item
  - the `translate` boundary: its early exits, `auto` resolution and the
    exception fallback chain
  - the `TranslatorBackend` class with its `isReady` field

  The engine `_do_translate` is a parameter of type
  `(text, src, tgt) -> Result<Value>`. It may return a string, return a value
  of another type, or raise.
- `Scenarios` (`scenarios.dfy`) works through concrete inputs.

Points about the code's behaviour worth knowing:

- Characters of neither alternative of the pattern (digits, ASCII punctuation,
  letters outside ASCII, other scripts) are not dropped: `re.split` returns
  them as the gaps between matches (`PipelineWithoutTranslation`). Digits and
  ASCII punctuation are never source segments (`NoLettersNotEnglish`). Under
  `en`, though, an unmatched run of letters from another script counts as
  English, because `str.isalpha` holds of it, and goes to the engine as a
  segment of its own: "café" is sent as "caf" and "é"
  (`AccentedLetterSentAlone`).
- The pattern lists fifteen full-width marks: 。？！，、；：“”‘’（）《》.
- `str.isalpha` is true of CJK ideographs. So when the source is `en`, a run
  such as "苹果" counts as English and goes to the engine
  (`IdeographRunEnglish`, `SecondSegmentEnglish`).

## Model

| member | source | states |
|---|---|---|
| Text.IsSpace | main.py:36 | no contract of its own: the exact set of characters for which `str.isspace` holds, shared by `\s`, `strip` and `rstrip`; `ClassOf`, `LStrip`, `RStrip` and `Strip` state what follows from it |
| Text.LStrip | main.py:89 | the result is the suffix left after removing leading whitespace, and it does not start with whitespace |
| Text.RStrip | main.py:156 | the result is the prefix left after removing trailing whitespace, and it does not end with whitespace |
| Text.Strip | main.py:94 | `strip` is empty exactly when the text is whitespace only; a text without whitespace is unchanged |
| Text.RStripAppendSpace | main.py:154-156 | whitespace appended to a text does not change its `rstrip` |
| Segmentation.ClassOf | main.py:36 | a character is in the first alternative iff it is an ASCII letter or whitespace, and in the second iff it is an ideograph or one of the fifteen marks |
| Segmentation.RunLength | main.py:36 | the greedy `+` takes a non-empty single-class prefix and stops at the first character of another class |
| Segmentation.RunsAreMaximal | main.py:36 | the runs of a text concatenate back to it, each is non-empty and single-class, and neighbouring runs differ in class |
| Segmentation.MaximalRunsUnique | main.py:36 | any cut into non-empty single-class pieces whose neighbours differ in class is the cut into runs |
| Segmentation.RunsAppendRun | main.py:36 | appending a single-class string whose class differs from the last character adds exactly one run |
| Segmentation.RegexSplit | main.py:129 | no contract of its own: `split_pattern.split(text)`, computed by `SplitFrom`; its properties are stated by `RegexSplitShape` and `SplitSegmentsAreRuns` |
| Segmentation.RegexSplitShape | main.py:129 | `re.split` returns gaps and matches alternately: an odd-length list whose gaps hold only unmatched characters and whose matches are non-empty single-class runs of a pattern alternative; the list concatenates back to the text |
| Segmentation.NonEmpty | main.py:134-135 | skipping empty strings leaves non-empty pieces with the same concatenation |
| Segmentation.SplitSegmentsAreRuns | main.py:129-135 | the segments the loop acts on are exactly the maximal runs of the text: no character lost, none reordered |
| Classification.HasIdeograph | main.py:85 | the search succeeds iff some character is in U+4E00–U+9FFF |
| Classification.DetectLanguage | main.py:76-80 | the result is `zh` iff the text holds an ideograph, and `en` otherwise |
| Classification.CountAlpha | main.py:87 | the letter count is at most the length, zero iff no character is alphabetic, and the length iff all are |
| Classification.IsChunkLanguage | main.py:82-90 | under `zh` the segment qualifies iff it holds an ideograph; under `en` it qualifies only if it holds an alphabetic character; under any other code it never does |
| Classification.NoLettersNotEnglish | main.py:86-89 | a segment of whitespace, digits, ASCII punctuation or full-width marks is never English |
| Classification.AllLettersEnglish | main.py:86-89 | a non-empty segment made only of alphabetic characters is English |
| Classification.IdeographRunEnglish | main.py:86-89 | a non-empty run of ideographs counts as English under `en` |
| Classification.LatinRunLetters | main.py:87 | on a run of the first alternative, `isalpha` counts exactly the ASCII letters |
| Classification.ZhChunksAreHanRuns | main.py:84-85 | under `zh` only runs of the second alternative can qualify; Latin and unmatched runs never do |
| Backend.JoinError | main.py:152 | no contract of its own: the `TypeError` message `sequence item k: expected str instance, T found`; `Join` states when it is produced and for which item |
| Backend.Join | main.py:152 | the join succeeds iff every item is a string, giving their concatenation; otherwise it raises the `TypeError` naming the first non-string item |
| Backend.JoinAppendStr | main.py:152 | joining one more string appends it to the result, or keeps the same error |
| Backend.SegmentOutput | main.py:138-150 | no contract of its own: one segment's contribution to `translated_segments`; stated by `SourceSegmentOutput`, `SegmentKeptUnlessTranslated` and `TranslateSegment` |
| Backend.SourceSegmentOutput | main.py:140-144 | a source segment contributes exactly what the engine returned for it |
| Backend.SegmentKeptUnlessTranslated | main.py:138-150 | a segment that is not in the source language, or whose engine call raised, is kept verbatim |
| Backend.LoopStep | main.py:132-150 | one loop pass skips an empty part and otherwise appends that segment's output |
| Backend.Pipeline | main.py:124-156 | a successful result never ends in whitespace |
| Backend.PipelineWithoutTranslation | main.py:129-156 | with an engine that raises or echoes its input, the result is the text minus trailing whitespace: every segment, including digits, punctuation and inner whitespace, survives in order |
| Backend.PipelineJoinsReplies | main.py:129-156 | with an engine that returns a string or raises on each source segment, the result is the in-order concatenation of the replies, the segments whose call raised and the untouched segments, `rstrip`ped |
| Backend.PipelineFailsIff | main.py:140-152 | the pipeline raises iff the engine returned a non-string for some source segment |
| Backend.PipelineOnlyConsultsSourceSegments | main.py:138-150 | engines that agree on the source segments give the same result |
| Backend.ZhSendsOnlyIdeographSegments | main.py:138-143 | under `zh` the engine is never given a segment without an ideograph |
| Backend.TrailingWhitespaceIgnored | main.py:154-156 | whitespace after a non-Latin last character, such as the text box's final newline after Chinese, does not change the result; the lemma does not cover whitespace after a Latin character, which joins the last run, and that run goes to the engine only when it is a source segment |
| Backend.Resolve | main.py:100-109 | an `auto` source is `zh` iff the text holds an ideograph, else `en`; an `auto` target is the other language and never equals the source; explicit modes pass through |
| Backend.TranslationOf | main.py:92-122 | no contract of its own: the value `translate` returns; stated by `BlankInputUnchanged`, `NotReadyNotice`, `SameLanguageUnchanged`, `NonStringOnlyFromFallback`, `FallbackAnswersWhenPipelineRaises`, `BothFailuresReported`, `StringEngineNeverFallsBack`, `TranslationWithoutEngineIsRStrip` and the method `Translate` |
| Backend.BlankInputUnchanged | main.py:94-95 | empty or whitespace-only input comes back unchanged, whatever the readiness |
| Backend.NotReadyNotice | main.py:96-97 | before the models are ready, any other input gets the fixed notice |
| Backend.SameLanguageUnchanged | main.py:111-112 | when source and target coincide, the text comes back unstripped |
| Backend.NonStringOnlyFromFallback | main.py:99-122 | `translate` never raises; it returns a non-string only when the pipeline raised and the whole-text fallback returned that value |
| Backend.FallbackAnswersWhenPipelineRaises | main.py:117-120 | when the pipeline raises and the whole-text call returns, `translate` returns that call's value |
| Backend.BothFailuresReported | main.py:117-122 | when the pipeline and the fallback both raise, the result is the error prefix with both messages joined by " 或 " |
| Backend.StringEngineNeverFallsBack | main.py:115-120 | an engine that returns only strings or raises never triggers the fallback |
| Backend.TranslationWithoutEngineIsRStrip | main.py:92-156 | with an engine that raises or echoes its input, a ready backend returns the input without trailing whitespace |
| Backend.TranslatorBackend.constructor | main.py:32-33 | a new backend is not ready |
| Backend.TranslatorBackend.CheckAndInstallModels | main.py:38-67 | the backend becomes ready iff the check or the installation completes without an exception; once ready it stays ready |
| Backend.TranslatorBackend.Translate | main.py:92-122 | the method returns `TranslationOf` of the current readiness and inputs, the function the lemmas above are about |
| Backend.TranslatorBackend.TranslateSegment | main.py:138-150 | one segment's contribution: the engine's reply for a source segment, the segment itself otherwise or on an exception |
| Backend.TranslatorBackend.MixedLanguageSplitAndTranslate | main.py:124-156 | the loop over the split computes `Pipeline`, the function whose properties are proved above |
| Scenarios.MixedTextResolution | main.py:101-109 | `auto`/`auto` on "你好 hello" translates from `zh` to `en` |
| Scenarios.EnglishTextResolution | main.py:101-109 | `auto`/`auto` on "hello there" translates from `en` to `zh` |
| Scenarios.SentenceSegments | main.py:129-135 | "I love 苹果 very much" falls into "I love ", "苹果" and " very much" |
| Scenarios.FirstSegmentEnglish | main.py:86-89 | "I love " is English: 5 letters against a stripped length of 6 |
| Scenarios.SecondSegmentEnglish | main.py:86-89 | "苹果" is English under `en` |
| Scenarios.ThirdSegmentEnglish | main.py:86-89 | " very much" is English: 8 letters against a stripped length of 9 |
| Scenarios.AccentedWordSegments | main.py:129-135 | "café" falls into "caf" and "é" |
| Scenarios.AccentEnglish | main.py:86-89 | "é" is English under `en` when `isalpha` holds of it |
| Scenarios.AccentedLetterSentAlone | main.py:129-143 | "café" splits into "caf" and "é", and under `en` the unmatched "é" is a source segment sent to the engine alone |

## Left out

- The GUI (`App`, the clipboard, the widgets and the worker threads): interface code outside the backend.
- `_do_translate` and the Argos engine: a foreign library, modelled as an arbitrary engine parameter that returns a string, returns another value, or raises.
- `suppress_stderr`: it only redirects a stream and changes no result.
- `model_installed` and the package download and installation: they are I/O. `CheckAndInstallModels` receives their outcome as parameters, and the status callback messages are not modelled.
- `str.isalpha` outside ASCII letters, whitespace, ASCII non-letters, ideographs and the fifteen marks: the full Unicode letter table is not modelled. The model leaves `alpha` free elsewhere.
- Classification.IsChunkLanguage: the `en` threshold `letters > len(strip) * 0.5` uses a float, stated exactly as `2 * letters > |strip|`, which is the same test for every length.
- The Python type of a non-string engine reply: only its name is kept, for the `TypeError` message, which follows CPython's `str.join` format, except that the name is cut at 80 characters where CPython cuts at 80 UTF-8 bytes; the two agree on ASCII names.
- Unicode versions: U+9FFD–U+9FFF count as alphabetic ideographs, as in Python 3.11 and later (Unicode 14).
- Backend.Pipeline: its own contract states only the stripped end. The segment-by-segment content is stated by `PipelineWithoutTranslation`, by `PipelineJoinsReplies` (which includes segments whose engine call raises) and by `PipelineFailsIff`.
- Concurrency between the loader thread setting `is_ready` and a translation reading it is not modelled: each call sees one value of the flag.
