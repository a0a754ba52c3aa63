/**
 * `transcribe_video`, `burn_subtitles` and `process_video` of app/pipeline.py.
 * Whisper's segments are the contents of an array that the code updates in place
 * (`seg["original_text"] = ...`, `seg["text"] = ...`); Gemini is the reply oracle of
 * the Translation module; how the ffmpeg run ends is an input (`Encoding`).
 */
module Pipeline {
  import opened Wrappers
  import opened Text
  import opened Srt
  import opened Translation

  // ---------------------------------------------------------------------------
  // File names
  // ---------------------------------------------------------------------------

  /** The index of the last `c` in `s`, or -1. */
  function RFind(s: string, c: char): (i: int)
    ensures -1 <= i < |s|
    ensures i >= 0 ==> s[i] == c
    ensures forall k :: i < k < |s| ==> s[k] != c
    decreases |s|
  {
    if s == [] then -1
    else if s[|s| - 1] == c then |s| - 1
    else RFind(s[..|s| - 1], c)
  }

  /** `PurePath(name).stem` for a bare file name: everything before the last dot, unless
      that dot opens the name or ends it. */
  function Stem(name: string): string {
    var i := RFind(name, '.');
    if 0 < i < |name| - 1 then name[..i] else name
  }

  /** The stem of `base.ext` is `base` when `base` is not empty and `ext` is a non-empty
      extension without dots; a name without dots is its own stem. */
  lemma StemOfName(base: string, ext: string)
    requires base != [] && ext != [] && '.' !in ext
    ensures Stem(base + "." + ext) == base
    ensures '.' !in base ==> Stem(base) == base
  {
    var name := base + "." + ext;
    assert name[|base|] == '.';
    var i := RFind(name, '.');
    assert forall k :: |base| < k < |name| ==> name[k] == ext[k - |base| - 1];
    assert i == |base|;
    assert name[..|base|] == base;
    if '.' !in base {
      assert RFind(base, '.') == -1;
    }
  }

  /** `f"{video_path.stem}.{lang}.srt"`. */
  function SrtName(stem: string, lang: string): string {
    stem + "." + lang + ".srt"
  }

  /** `f"{video_path.stem}.{target_lang}_burned.mp4"`. */
  function BurnedName(stem: string, lang: string): string {
    stem + "." + lang + "_burned.mp4"
  }

  /** Both outputs of a video start with `<stem>.<lang>`, and they never collide. */
  lemma OutputNames(stem: string, lang: string)
    ensures var base := stem + "." + lang;
      && SrtName(stem, lang) == base + ".srt"
      && BurnedName(stem, lang) == base + "_burned.mp4"
    ensures SrtName(stem, lang) != BurnedName(stem, lang)
  {
    var s, b := SrtName(stem, lang), BurnedName(stem, lang);
    assert s[|s| - 1] == 't';
    assert b[|b| - 1] == '4';
  }

  // ---------------------------------------------------------------------------
  // transcribe_video
  // ---------------------------------------------------------------------------

  /** `[seg["text"] for seg in segments]`. */
  function Texts(segs: seq<Segment>): (texts: seq<string>)
    ensures |texts| == |segs|
    ensures forall i :: 0 <= i < |segs| ==> texts[i] == segs[i].text
  {
    seq(|segs|, i requires 0 <= i < |segs| => segs[i].text)
  }

  /** `not segments or not any(seg["text"].strip() for seg in segments)`. */
  predicate AllBlank(segs: seq<Segment>) {
    forall i :: 0 <= i < |segs| ==> Strip(segs[i].text) == ""
  }

  /** Every segment after `seg["original_text"] = seg["text"]`. */
  function Snapshot(segs: seq<Segment>): seq<Segment> {
    seq(|segs|, i requires 0 <= i < |segs| => segs[i].(originalText := Some(segs[i].text)))
  }

  /** The list after the padding loop: missing lines taken from the original texts. */
  function Padded(cleaned: seq<string>, texts: seq<string>): seq<string> {
    if |cleaned| < |texts| then cleaned + texts[|cleaned|..] else cleaned
  }

  /** The text each segment receives from `zip(segments, cleaned_all)` after padding. */
  function Aligned(texts: seq<string>, cleaned: seq<string>): seq<string> {
    Padded(cleaned, texts)[..|texts|]
  }

  /** Alignment is by position only: segment i gets recovered line i when there is one and
      keeps its original text otherwise; lines beyond the last segment are ignored. */
  lemma AlignedAt(texts: seq<string>, cleaned: seq<string>)
    ensures |Aligned(texts, cleaned)| == |texts|
    ensures forall i :: 0 <= i < |texts| ==>
      Aligned(texts, cleaned)[i] == if i < |cleaned| then cleaned[i] else texts[i]
  {
  }

  /** The segments after the assignment loop `seg["text"] = tr`. */
  function Retext(segs: seq<Segment>, texts: seq<string>): seq<Segment>
    requires |texts| == |segs|
  {
    seq(|segs|, i requires 0 <= i < |segs| => segs[i].(text := texts[i]))
  }

  /** The segments after a translation that recovered `cleaned`. */
  function TranslatedSegments(segs: seq<Segment>, cleaned: seq<string>): seq<Segment> {
    AlignedAt(Texts(segs), cleaned);
    Retext(Snapshot(segs), Aligned(Texts(segs), cleaned))
  }

  /** Translation keeps the number, order and times of the segments, records each original
      text in `originalText`, and gives segment i line i or, past the recovered lines, its
      original text. */
  lemma TranslatedSegmentsShape(segs: seq<Segment>, cleaned: seq<string>)
    ensures var r := TranslatedSegments(segs, cleaned);
      && |r| == |segs|
      && forall i :: 0 <= i < |segs| ==>
        && r[i].start == segs[i].start && r[i].end == segs[i].end
        && r[i].originalText == Some(segs[i].text)
        && r[i].text == if i < |cleaned| then cleaned[i] else segs[i].text
  {
    AlignedAt(Texts(segs), cleaned);
  }

  /** The texts of the translated segments, which `process_video` joins into its
      transcript: the recovered lines aligned to the segments. */
  lemma TranslatedTexts(segs: seq<Segment>, cleaned: seq<string>)
    ensures Texts(TranslatedSegments(segs, cleaned)) == Aligned(Texts(segs), cleaned)
  {
    TranslatedSegmentsShape(segs, cleaned);
    AlignedAt(Texts(segs), cleaned);
  }

  /** What `transcribe_video` returns: the `.srt` file's name and contents and the Gemini
      requests made; or the error that stopped translation, with the requests made. */
  datatype Transcription =
    | Transcribed(srtName: string, srt: string, requests: seq<Request>)
    | TranslationError(message: string, requests: seq<Request>)

  /** `for seg in segments: seg["original_text"] = seg["text"]`. */
  method RecordOriginals(segs: array<Segment>)
    modifies segs
    ensures segs[..] == Snapshot(old(segs[..]))
  {
    ghost var original := segs[..];
    for i := 0 to segs.Length
      invariant forall k :: 0 <= k < i ==> segs[k] == Snapshot(original)[k]
      invariant forall k :: i <= k < segs.Length ==> segs[k] == original[k]
    {
      segs[i] := segs[i].(originalText := Some(segs[i].text));
    }
  }

  /** `while len(cleaned_all) < len(segments): cleaned_all.append(segments[len(cleaned_all)]["text"])`. */
  method PadCleaned(segs: array<Segment>, cleaned: seq<string>) returns (padded: seq<string>)
    ensures padded == Padded(cleaned, Texts(segs[..]))
  {
    ghost var texts := Texts(segs[..]);
    padded := cleaned;
    while |padded| < segs.Length
      invariant |cleaned| <= |padded|
      invariant |cleaned| < |texts| ==> |padded| <= |texts| && padded == cleaned + texts[|cleaned|..|padded|]
      invariant |cleaned| >= |texts| ==> padded == cleaned
      decreases segs.Length - |padded|
    {
      padded := padded + [segs[|padded|].text];
    }
    if |cleaned| < |texts| {
      assert texts[|cleaned|..|padded|] == texts[|cleaned|..];
    }
  }

  /** `for seg, tr in zip(segments, cleaned_all): seg["text"] = tr`. */
  method AssignTexts(segs: array<Segment>, cleaned: seq<string>)
    requires |cleaned| >= segs.Length
    modifies segs
    ensures segs[..] == Retext(old(segs[..]), cleaned[..segs.Length])
  {
    ghost var before := segs[..];
    for i := 0 to segs.Length
      invariant forall k :: 0 <= k < i ==> segs[k] == before[k].(text := cleaned[k])
      invariant forall k :: i <= k < segs.Length ==> segs[k] == before[k]
    {
      segs[i] := segs[i].(text := cleaned[i]);
    }
  }

  /** `transcribe_video` after Whisper: skip translation when every text is blank;
      otherwise record the original texts, translate chunk by chunk, pad a short result
      with original texts, assign by position and write the `.srt` file. */
  method TranscribeVideo(segs: array<Segment>, stem: string, targetLang: string, replies: seq<Reply>)
    returns (r: Transcription)
    modifies segs
    ensures AllBlank(old(segs[..])) ==>
      && segs[..] == old(segs[..])
      && r == Transcribed(SrtName(stem, targetLang), SrtDocument(segs[..]), [])
    ensures !AllBlank(old(segs[..])) ==>
      var o := RunChunks(Chunks(Texts(old(segs[..]))), LangName(targetLang), replies, 0);
      && (o.Failed? ==> segs[..] == Snapshot(old(segs[..])) && r == TranslationError(o.message, o.requests))
      && (o.Translated? ==>
            && segs[..] == TranslatedSegments(old(segs[..]), o.cleaned)
            && r == Transcribed(SrtName(stem, targetLang), SrtDocument(segs[..]), o.requests))
  {
    if AllBlank(segs[..]) {
      var srt := WriteSrt(segs[..]);
      return Transcribed(SrtName(stem, targetLang), srt, []);
    }
    ghost var original := segs[..];
    var texts := Texts(segs[..]);
    RecordOriginals(segs);
    var o := TranslateTexts(texts, LangName(targetLang), replies);
    if o.Failed? {
      return TranslationError(o.message, o.requests);
    }
    assert Texts(segs[..]) == texts;
    var cleaned := PadCleaned(segs, o.cleaned);
    AssignTexts(segs, cleaned);
    assert segs[..] == TranslatedSegments(original, o.cleaned);
    var srt := WriteSrt(segs[..]);
    return Transcribed(SrtName(stem, targetLang), srt, o.requests);
  }

  /** When Gemini answers every chunk's first request faithfully with one well-formed
      translation per text, every segment ends up with its own translation. */
  lemma FaithfulTranslation(segs: seq<Segment>, translations: seq<seq<string>>, targetLang: string, replies: seq<Reply>)
    requires |translations| == |Chunks(Texts(segs))|
    requires forall j :: 0 <= j < |translations| ==> |translations[j]| == |Chunks(Texts(segs))[j]|
    requires AllWellFormed(translations)
    requires AnsweredFaithfully(replies, 0, translations)
    ensures var o := RunChunks(Chunks(Texts(segs)), LangName(targetLang), replies, 0);
      && o.Translated?
      && |o.requests| == |Chunks(Texts(segs))|
      && o.cleaned == Flatten(translations)
      && |Flatten(translations)| == |segs|
      && forall i :: 0 <= i < |segs| ==> TranslatedSegments(segs, o.cleaned)[i].text == Flatten(translations)[i]
  {
    var chunks := Chunks(Texts(segs));
    FaithfulRun(chunks, translations, LangName(targetLang), replies, 0);
    ChunksPartition(Texts(segs));
    FlattenLength(chunks, translations);
    var o := RunChunks(chunks, LangName(targetLang), replies, 0);
    TranslatedSegmentsShape(segs, o.cleaned);
  }

  lemma {:induction false} FlattenLength(chunks: seq<seq<string>>, translations: seq<seq<string>>)
    requires |translations| == |chunks|
    requires forall j :: 0 <= j < |chunks| ==> |translations[j]| == |chunks[j]|
    ensures |Flatten(translations)| == |Flatten(chunks)|
    decreases |chunks|
  {
    if chunks != [] {
      FlattenLength(chunks[1..], translations[1..]);
    }
  }

  // ---------------------------------------------------------------------------
  // burn_subtitles and process_video
  // ---------------------------------------------------------------------------

  /** How the ffmpeg run ends: it succeeds; it raises `ffmpeg.Error`, whose diagnostic is
      its decoded stderr (or its own text when stderr is empty); or something else raises,
      such as a missing ffmpeg binary, with the given message. */
  datatype Encoding = Encoded | FfmpegFailed(diagnostic: string) | Crashed(message: string)

  /** `burn_subtitles`: the name of the burned video, or the text of the exception that
      escapes it (`str(e)`). Only `ffmpeg.Error` is rewrapped as a `RuntimeError`; any
      other exception passes through unchanged. */
  function BurnSubtitles(stem: string, lang: string, encoding: Encoding): (r: Result<string, string>)
    ensures r.Success? <==> encoding.Encoded?
    ensures r.Success? ==> r.value == BurnedName(stem, lang)
    ensures encoding.FfmpegFailed? ==> r == Failure("ffmpeg error:\n" + encoding.diagnostic + "\n")
    ensures encoding.Crashed? ==> r == Failure(encoding.message)
  {
    match encoding
    case Encoded => Success(BurnedName(stem, lang))
    case FfmpegFailed(d) => Failure("ffmpeg error:\n" + d + "\n")
    case Crashed(m) => Failure(m)
  }

  /** The exceptions `process_video` lets escape: `FileNotFoundError`, `RuntimeError`,
      `ValueError`, or another exception raised while encoding. */
  datatype ProcessError =
    | FileNotFound(path: string)
    | Runtime(message: string)
    | BadMode(message: string)
    | Raised(message: string)

  /** What `process_video` returns besides the segments: the burned video's name and the
      transcript. */
  datatype Processed = Processed(outName: string, transcript: string)

  /** Whether `transcribe_video` raises for these segments: translation is attempted and
      a chunk fails twice. */
  predicate TranslationFails(segs: seq<Segment>, targetLang: string, replies: seq<Reply>) {
    !AllBlank(segs) && RunChunks(Chunks(Texts(segs)), LangName(targetLang), replies, 0).Failed?
  }

  /** `process_video`: a missing video is rejected before anything else; then the video is
      transcribed (and translated); only then is the mode checked, so a mode other than
      `"sub"` fails after translation; last the subtitles are burned. */
  method ProcessVideo(videoName: string, videoExists: bool, segs: array<Segment>, mode: string,
                      targetLang: string, replies: seq<Reply>, encoding: Encoding)
    returns (r: Result<Processed, ProcessError>)
    modifies segs
    ensures !videoExists ==> r == Failure(FileNotFound(videoName)) && segs[..] == old(segs[..])
    ensures videoExists && AllBlank(old(segs[..])) ==> segs[..] == old(segs[..])
    ensures videoExists && !AllBlank(old(segs[..])) ==>
      var o := RunChunks(Chunks(Texts(old(segs[..]))), LangName(targetLang), replies, 0);
      && (o.Failed? ==> segs[..] == Snapshot(old(segs[..])))
      && (o.Translated? ==> segs[..] == TranslatedSegments(old(segs[..]), o.cleaned))
    ensures videoExists && TranslationFails(old(segs[..]), targetLang, replies) ==>
      r == Failure(Runtime(RunChunks(Chunks(Texts(old(segs[..]))), LangName(targetLang), replies, 0).message))
    ensures videoExists && !TranslationFails(old(segs[..]), targetLang, replies) && mode != "sub" ==>
      r == Failure(BadMode("mode must be 'sub' or 'dub'"))
    ensures videoExists && !TranslationFails(old(segs[..]), targetLang, replies) && mode == "sub" ==>
      r == match encoding
           case Encoded => Success(Processed(BurnedName(Stem(videoName), targetLang), Join(Texts(segs[..]), " ")))
           case FfmpegFailed(d) => Failure(Runtime("ffmpeg error:\n" + d + "\n"))
           case Crashed(m) => Failure(Raised(m))
  {
    if !videoExists {
      return Failure(FileNotFound(videoName));
    }
    var stem := Stem(videoName);
    var t := TranscribeVideo(segs, stem, targetLang, replies);
    if t.TranslationError? {
      return Failure(Runtime(t.message));
    }
    var transcript := Join(Texts(segs[..]), " ");
    if mode == "sub" {
      var burned := BurnSubtitles(stem, targetLang, encoding);
      if burned.Failure? {
        return Failure(if encoding.FfmpegFailed? then Runtime(burned.error) else Raised(burned.error));
      }
      return Success(Processed(burned.value, transcript));
    } else {
      return Failure(BadMode("mode must be 'sub' or 'dub'"));
    }
  }
}
