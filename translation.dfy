/**
 * The translation step of `transcribe_video` (app/pipeline.py): the segment texts
 * are sent to Gemini in chunks of at most 80 numbered lines, each reply is split
 * into its non-blank lines, and a leading `N.` token is stripped from every line.
 * A chunk whose request fails or comes back empty is retried once with a simpler
 * prompt; when the retry fails too, translation stops with an error.
 *
 * Gemini itself is an oracle: `replies[j]` is what the j-th request returns.
 */
module Translation {
  import opened Text

  // ---------------------------------------------------------------------------
  // Chunking (`for start in range(0, len(texts), chunk_size)`, chunk_size = 80)
  // ---------------------------------------------------------------------------

  /** The consecutive slices `texts[start:start + 80]` for start = 0, 80, 160, ... */
  function Chunks(texts: seq<string>): seq<seq<string>>
    decreases |texts|
  {
    if texts == [] then []
    else if |texts| <= 80 then [texts]
    else [texts[..80]] + Chunks(texts[80..])
  }

  /** The chunks written one after another. */
  function Flatten(chunks: seq<seq<string>>): seq<string>
    decreases |chunks|
  {
    if chunks == [] then [] else chunks[0] + Flatten(chunks[1..])
  }

  function Min(a: int, b: int): int {
    if a <= b then a else b
  }

  /** Chunking loses and reorders nothing, and every chunk holds 1 to 80 texts. */
  lemma {:induction false} ChunksPartition(texts: seq<string>)
    ensures Flatten(Chunks(texts)) == texts
    ensures forall j :: 0 <= j < |Chunks(texts)| ==> 1 <= |Chunks(texts)[j]| <= 80
    decreases |texts|
  {
    if |texts| > 80 {
      ChunksPartition(texts[80..]);
      assert texts[..80] + texts[80..] == texts;
      var rest := Chunks(texts[80..]);
      assert Chunks(texts) == [texts[..80]] + rest;
      assert Chunks(texts)[1..] == rest;
    }
  }

  /** Chunk j is exactly `texts[80 * j : 80 * j + 80]`, and there are ceil(n / 80) chunks. */
  lemma {:induction false} ChunkAt(texts: seq<string>, j: nat)
    requires j < |Chunks(texts)|
    ensures 80 * j < |texts|
    ensures Chunks(texts)[j] == texts[80 * j .. Min(80 * j + 80, |texts|)]
    decreases j
  {
    if j > 0 {
      assert |texts| > 80;
      var tail := texts[80..];
      assert Chunks(texts)[j] == Chunks(tail)[j - 1];
      ChunkAt(tail, j - 1);
      var lo, hi := 80 * (j - 1), Min(80 * (j - 1) + 80, |tail|);
      assert |tail| == |texts| - 80;
      assert 80 + lo == 80 * j;
      assert 80 + hi == Min(80 * j + 80, |texts|);
      assert tail[lo..hi] == texts[80 + lo .. 80 + hi];
    }
  }

  lemma {:induction false} ChunkCount(texts: seq<string>)
    ensures |Chunks(texts)| == (|texts| + 79) / 80
    decreases |texts|
  {
    if |texts| > 80 {
      ChunkCount(texts[80..]);
    }
  }

  // ---------------------------------------------------------------------------
  // The request: numbered lines and the two prompts
  // ---------------------------------------------------------------------------

  /** `f"{idx+1}. {t}"` for the text numbered k. */
  function NumberedLine(k: nat, t: string): string {
    Decimal(k) + ". " + t
  }

  /** The texts of a chunk numbered from 1. */
  function NumberedLines(chunk: seq<string>): seq<string> {
    seq(|chunk|, i requires 0 <= i < |chunk| => NumberedLine(i + 1, chunk[i]))
  }

  /** `"\n".join(...)`: the numbered block placed in both prompts. */
  function Numbered(chunk: seq<string>): string {
    Join(NumberedLines(chunk), "\n")
  }

  lemma NumberedLineFree(k: nat, t: string, c: char)
    requires !IsDigit(c) && c != '.' && c != ' ' && c !in t
    ensures c !in NumberedLine(k, t)
  {
    DigitsFree(Decimal(k), c);
  }

  /** The numbered block has one line per text of the chunk, line i reading
      `"{i+1}. {text}"`, provided no text contains a line break. */
  lemma NumberedSplit(chunk: seq<string>)
    requires |chunk| >= 1
    requires forall i :: 0 <= i < |chunk| ==> '\n' !in chunk[i]
    ensures Split(Numbered(chunk), '\n') == NumberedLines(chunk)
    ensures forall i :: 0 <= i < |chunk| ==> Split(Numbered(chunk), '\n')[i] == NumberedLine(i + 1, chunk[i])
  {
    var lines := NumberedLines(chunk);
    forall i | 0 <= i < |lines| ensures '\n' !in lines[i] {
      NumberedLineFree(i + 1, chunk[i], '\n');
    }
    SplitJoin(lines, '\n');
  }

  /** A request sent to Gemini: the first attempt for a chunk or its single retry, each
      naming the target language and carrying the numbered block. */
  datatype Request =
    | Primary(langName: string, numbered: string)
    | Fallback(langName: string, numbered: string)

  /** The prompt text of a request. */
  function PromptText(r: Request): string {
    match r
    case Primary(langName, numbered) =>
      "Translate the following subtitles into " + langName + ".\n"
      + "Keep the original numbering, one line per subtitle, and output nothing else.\n"
      + "Ensure the translation is natural and contextually appropriate.\n\n"
      + numbered
    case Fallback(langName, numbered) =>
      "Translate these Japanese subtitles to " + langName + ":\n" + numbered
  }

  /** Both prompts end with the numbered block of the chunk. */
  lemma PromptEndsWithBlock(r: Request)
    ensures |r.numbered| <= |PromptText(r)|
    ensures PromptText(r)[|PromptText(r)| - |r.numbered|..] == r.numbered
  {
    var head := match r
      case Primary(langName, _) =>
        "Translate the following subtitles into " + langName + ".\n"
        + "Keep the original numbering, one line per subtitle, and output nothing else.\n"
        + "Ensure the translation is natural and contextually appropriate.\n\n"
      case Fallback(langName, _) =>
        "Translate these Japanese subtitles to " + langName + ":\n";
    assert PromptText(r) == head + r.numbered;
  }

  /** The retry never repeats the first prompt. */
  lemma PromptsDiffer(langName: string, numbered: string)
    ensures PromptText(Primary(langName, numbered)) != PromptText(Fallback(langName, numbered))
  {
    var p, f := PromptText(Primary(langName, numbered)), PromptText(Fallback(langName, numbered));
    assert p[13] == ' ';
    assert f[13] == 's';
  }

  /** `LANGUAGE_NAMES`. */
  const LanguageNames: map<string, string> := map[
    "en" := "English", "ur" := "Urdu", "hi" := "Hindi", "ar" := "Arabic",
    "fr" := "French", "es" := "Spanish", "de" := "German", "it" := "Italian",
    "pt" := "Portuguese", "ru" := "Russian", "ja" := "Japanese", "ko" := "Korean",
    "zh" := "Chinese"]

  /** `LANGUAGE_NAMES.get(code, code)`: the name used in the prompts. */
  function LangName(code: string): (name: string)
    ensures code in LanguageNames ==> name == LanguageNames[code]
    ensures code !in LanguageNames ==> name == code
  {
    if code in LanguageNames then LanguageNames[code] else code
  }

  // ---------------------------------------------------------------------------
  // Reading a reply
  // ---------------------------------------------------------------------------

  /** `[ln.strip() for ln in pieces if ln.strip()]`. */
  function KeepLines(pieces: seq<string>): (lines: seq<string>)
    ensures |lines| <= |pieces|
    ensures forall i :: 0 <= i < |lines| ==> lines[i] != "" && Strip(lines[i]) == lines[i]
    decreases |pieces|
  {
    if pieces == [] then []
    else
      var rest := KeepLines(pieces[1..]);
      var s := Strip(pieces[0]);
      StripIdempotent(pieces[0]);
      if s != "" then [s] + rest else rest
  }

  /** The lines recovered from a reply text. */
  function ParseLines(text: string): seq<string> {
    KeepLines(Split(text, '\n'))
  }

  /** A line that is neither empty nor padded with whitespace. */
  predicate Trimmed(ln: string) {
    ln != "" && Strip(ln) == ln
  }

  lemma {:induction false} KeepTrimmed(lines: seq<string>)
    requires forall i :: 0 <= i < |lines| ==> Trimmed(lines[i])
    ensures KeepLines(lines) == lines
    decreases |lines|
  {
    if lines != [] {
      assert Trimmed(lines[0]);
      KeepTrimmed(lines[1..]);
      assert lines == [lines[0]] + lines[1..];
    }
  }

  /** Blank pieces between lines are dropped: a reply whose lines are trimmed and joined
      by line breaks reads back as exactly those lines, in order. */
  lemma ParseLinesJoin(lines: seq<string>)
    requires forall i :: 0 <= i < |lines| ==> Trimmed(lines[i]) && '\n' !in lines[i]
    ensures ParseLines(Join(lines, "\n")) == lines
  {
    if lines == [] {
      assert Split("", '\n') == [""];
      assert Strip("") == "";
    } else {
      SplitJoin(lines, '\n');
      KeepTrimmed(lines);
    }
  }

  lemma {:induction false} KeepLinesAppend(p: seq<string>, q: seq<string>)
    ensures KeepLines(p + q) == KeepLines(p) + KeepLines(q)
    decreases |p|
  {
    if p == [] {
      assert p + q == q;
    } else {
      assert (p + q)[0] == p[0];
      assert (p + q)[1..] == p[1..] + q;
      KeepLinesAppend(p[1..], q);
    }
  }

  /** A reply is read line by line: the lines of `a + "\n" + b` are those of `a` followed
      by those of `b`. */
  lemma ParseLinesAppend(a: string, b: string)
    ensures ParseLines(a + "\n" + b) == ParseLines(a) + ParseLines(b)
  {
    SplitAppend(a, '\n', b);
    KeepLinesAppend(Split(a, '\n'), Split(b, '\n'));
  }

  /** A blank line contributes nothing. */
  lemma ParseBlankLine(a: string)
    requires '\n' !in a && IsBlank(a)
    ensures ParseLines(a) == []
  {
    assert IndexOf(a, '\n') == |a|;
    StripEmptyIffBlank(a);
  }

  // ---------------------------------------------------------------------------
  // Stripping a leading number
  // ---------------------------------------------------------------------------

  /** `ln.split(" ")[0].rstrip(".").isdigit()`: the first token is a number, possibly
      followed by dots. */
  predicate NumberToken(ln: string) {
    IsDigits(RStripChar(Split(ln, ' ')[0], '.'))
  }

  /** Drop a leading `N.` token: the remaining `" "`-separated tokens joined by `" "`. */
  function StripNumber(ln: string): string {
    if NumberToken(ln) then Join(Split(ln, ' ')[1..], " ") else ln
  }

  /** A numbered line loses its first token and exactly one space after it; a line
      without a space is emptied; any other line is left unchanged. */
  lemma StripNumberSpec(ln: string)
    ensures var i := IndexOf(ln, ' ');
      StripNumber(ln)
        == if !IsDigits(RStripChar(ln[..i], '.')) then ln
           else if i < |ln| then ln[i + 1..]
           else ""
  {
    SplitHead(ln, ' ');
  }

  /** Stripping undoes the numbering of the request: `"k. text"` gives back `text`. */
  lemma StripNumbered(k: nat, t: string)
    ensures StripNumber(NumberedLine(k, t)) == t
  {
    var d := Decimal(k);
    var ln := NumberedLine(k, t);
    assert ' ' !in d + "." by {
      DigitsFree(d, ' ');
    }
    assert ln == (d + ".") + [' '] + t;
    IndexOfAfter(d + ".", ' ', t);
    assert ln[..|d| + 1] == d + ".";
    assert RStripChar(d + ".", '.') == d by {
      assert (d + ".")[..|d|] == d;
    }
    StripNumberSpec(ln);
    assert ln[|d| + 2..] == t;
  }

  /** `"5"` becomes the empty line. */
  lemma StripNumberBare()
    ensures StripNumber("5") == ""
  {
    StripNumberSpec("5");
    assert IndexOf("5", ' ') == 1;
    assert RStripChar("5", '.') == "5";
  }

  /** `"1.  x"` keeps the second space: `" x"`. */
  lemma StripNumberDoubleSpace()
    ensures StripNumber("1.  x") == " x"
  {
    assert Decimal(1) == "1";
    assert NumberedLine(1, " x") == "1.  x";
    StripNumbered(1, " x");
  }

  /** A line whose first token does not start with a digit is kept as it is. */
  lemma StripNumberWord(w: string, rest: string)
    requires w != [] && ' ' !in w && !IsDigit(w[0])
    ensures StripNumber(w + " " + rest) == w + " " + rest
  {
    var ln := w + " " + rest;
    IndexOfAfter(w, ' ', rest);
    StripNumberSpec(ln);
    assert ln[..|w|] == w;
    var r := RStripChar(w, '.');
    if r != [] {
      assert r[0] == w[0];
    }
  }

  /** The cleaned lines of one reply, in order. */
  function CleanAll(lines: seq<string>): (cleaned: seq<string>)
    ensures |cleaned| == |lines|
  {
    seq(|lines|, i requires 0 <= i < |lines| => StripNumber(lines[i]))
  }

  // ---------------------------------------------------------------------------
  // The requests of one chunk: one attempt, at most one retry
  // ---------------------------------------------------------------------------

  /** What one `generate_content` call gives: a response whose `.text` is `text`, or a
      raised API error carrying its message. */
  datatype Reply = Response(text: string) | ApiError(message: string)

  /** The reply to the request numbered `call`; requests beyond the listed replies fail. */
  function ReplyAt(replies: seq<Reply>, call: nat): Reply {
    if call < |replies| then replies[call] else ApiError("")
  }

  /** A reply the code goes on with: a response with non-empty text. */
  predicate Usable(r: Reply) {
    r.Response? && r.text != ""
  }

  /** `str(e)` for the exception the first attempt ended with. */
  function ErrorText(r: Reply): string {
    if r.ApiError? then r.message else "Empty response from Gemini"
  }

  /** How one chunk ends: the lines read from a reply, or the error that stops translation;
      either way with the requests sent for it, in order. */
  datatype ChunkResult =
    | ChunkLines(lines: seq<string>, requests: seq<Request>)
    | ChunkFailed(message: string, requests: seq<Request>)

  /** The `try`/`except` around the Gemini calls for one chunk, whose first request is
      number `call`. */
  function TranslateChunk(chunk: seq<string>, langName: string, replies: seq<Reply>, call: nat): ChunkResult {
    var numbered := Numbered(chunk);
    var first := ReplyAt(replies, call);
    var primary := Primary(langName, numbered);
    if Usable(first) then ChunkLines(ParseLines(first.text), [primary])
    else
      var second := ReplyAt(replies, call + 1);
      var fallback := Fallback(langName, numbered);
      if Usable(second) then ChunkLines(ParseLines(second.text), [primary, fallback])
      else ChunkFailed("Gemini translation failed: " + ErrorText(first), [primary, fallback])
  }

  /** One chunk gets exactly one request when that succeeds and exactly one retry, with the
      simpler prompt, when it does not; it fails only when both replies are unusable, and
      then reports the first attempt's error. */
  lemma ExactlyOneRetry(chunk: seq<string>, langName: string, replies: seq<Reply>, call: nat)
    ensures var r := TranslateChunk(chunk, langName, replies, call);
      var numbered := Numbered(chunk);
      && r.requests[0] == Primary(langName, numbered)
      && (|r.requests| == 1 <==> Usable(ReplyAt(replies, call)))
      && (|r.requests| == 2 <==> !Usable(ReplyAt(replies, call)))
      && (|r.requests| == 2 ==> r.requests[1] == Fallback(langName, numbered))
      && (r.ChunkFailed? <==> !Usable(ReplyAt(replies, call)) && !Usable(ReplyAt(replies, call + 1)))
      && (r.ChunkFailed? ==> r.message == "Gemini translation failed: " + ErrorText(ReplyAt(replies, call)))
  {
  }

  // ---------------------------------------------------------------------------
  // All chunks
  // ---------------------------------------------------------------------------

  /** The result of translating every chunk: the cleaned lines, or the error that stopped
      it; either way with every request sent, in order. */
  datatype Outcome =
    | Translated(cleaned: seq<string>, requests: seq<Request>)
    | Failed(message: string, requests: seq<Request>)

  /** An outcome of later chunks, preceded by what earlier chunks produced. */
  function Prepend(cleaned: seq<string>, requests: seq<Request>, o: Outcome): Outcome {
    match o
    case Translated(c, p) => Translated(cleaned + c, requests + p)
    case Failed(m, p) => Failed(m, requests + p)
  }

  /** The chunk loop of `transcribe_video`, the first request being number `call`. */
  function RunChunks(chunks: seq<seq<string>>, langName: string, replies: seq<Reply>, call: nat): Outcome
    decreases |chunks|
  {
    if chunks == [] then Translated([], [])
    else match TranslateChunk(chunks[0], langName, replies, call)
      case ChunkFailed(m, p) => Failed(m, p)
      case ChunkLines(lines, p) => Prepend(CleanAll(lines), p, RunChunks(chunks[1..], langName, replies, call + |p|))
  }

  /** Every chunk costs one or two requests. */
  lemma {:induction false} RequestCount(chunks: seq<seq<string>>, langName: string, replies: seq<Reply>, call: nat)
    ensures var o := RunChunks(chunks, langName, replies, call);
      o.Translated? ==> |chunks| <= |o.requests| <= 2 * |chunks|
    ensures var o := RunChunks(chunks, langName, replies, call);
      o.Failed? ==> 2 <= |o.requests| <= 2 * |chunks|
    decreases |chunks|
  {
    if chunks != [] {
      var r := TranslateChunk(chunks[0], langName, replies, call);
      RequestsPerChunk(chunks[0], langName, replies, call);
      RequestCount(chunks[1..], langName, replies, call + |r.requests|);
      match r
      case ChunkFailed(m, p) =>
        assert RunChunks(chunks, langName, replies, call) == Failed(m, p);
      case ChunkLines(lines, p) =>
        assert RunChunks(chunks, langName, replies, call)
          == Prepend(CleanAll(lines), p, RunChunks(chunks[1..], langName, replies, call + |p|));
    }
  }

  /** The request count of one chunk, as the chunk loop uses it. */
  lemma RequestsPerChunk(chunk: seq<string>, langName: string, replies: seq<Reply>, call: nat)
    ensures var r := TranslateChunk(chunk, langName, replies, call);
      1 <= |r.requests| <= 2 && (r.ChunkFailed? ==> |r.requests| == 2)
  {
    ExactlyOneRetry(chunk, langName, replies, call);
  }

  /** Once a chunk fails nothing after it is requested: chunks appended after a failing
      run change neither the error nor the requests sent. */
  lemma {:induction false} FailureStops(chunks: seq<seq<string>>, more: seq<seq<string>>, langName: string, replies: seq<Reply>, call: nat)
    requires RunChunks(chunks, langName, replies, call).Failed?
    ensures RunChunks(chunks + more, langName, replies, call) == RunChunks(chunks, langName, replies, call)
    decreases |chunks|
  {
    assert (chunks + more)[0] == chunks[0];
    var r := TranslateChunk(chunks[0], langName, replies, call);
    if r.ChunkLines? {
      assert (chunks + more)[1..] == chunks[1..] + more;
      FailureStops(chunks[1..], more, langName, replies, call + |r.requests|);
    }
  }

  /** A well-formed translation: a single line, not empty and not ending in whitespace. */
  predicate WellFormed(t: string) {
    t != "" && '\n' !in t && !IsSpace(t[|t| - 1])
  }

  /** The reply Gemini gives when it follows the instructions: the translations of a
      chunk, numbered from 1, one per line. */
  function FaithfulReply(translations: seq<string>): Reply {
    Response(Numbered(translations))
  }

  lemma NumberedTrimmed(k: nat, t: string)
    requires WellFormed(t)
    ensures Trimmed(NumberedLine(k, t)) && '\n' !in NumberedLine(k, t)
  {
    var ln := NumberedLine(k, t);
    NumberedLineFree(k, t, '\n');
    assert ln[0] == Decimal(k)[0];
    assert ln[|ln| - 1] == t[|t| - 1];
    StripTrimmed(ln);
  }

  /** A faithful reply to a chunk reads back as exactly its translations. */
  lemma FaithfulChunk(translations: seq<string>)
    requires |translations| >= 1
    requires forall i :: 0 <= i < |translations| ==> WellFormed(translations[i])
    ensures Usable(FaithfulReply(translations))
    ensures CleanAll(ParseLines(FaithfulReply(translations).text)) == translations
  {
    var lines := NumberedLines(translations);
    forall i | 0 <= i < |lines| ensures Trimmed(lines[i]) && '\n' !in lines[i] {
      NumberedTrimmed(i + 1, translations[i]);
    }
    ParseLinesJoin(lines);
    assert Numbered(translations) != "" by {
      if |lines| > 1 {
        JoinCons(lines[0], lines[1..], "\n");
        assert lines == [lines[0]] + lines[1..];
      }
      assert |lines[0]| > 0;
    }
    forall i | 0 <= i < |lines| ensures StripNumber(lines[i]) == translations[i] {
      StripNumbered(i + 1, translations[i]);
    }
  }

  /** Requests `call`, `call + 1`, ... are answered faithfully with `translations[0]`,
      `translations[1]`, ... */
  predicate AnsweredFaithfully(replies: seq<Reply>, call: nat, translations: seq<seq<string>>) {
    && call + |translations| <= |replies|
    && forall j :: 0 <= j < |translations| ==> replies[call + j] == FaithfulReply(translations[j])
  }

  /** Every text of every chunk's translation is well formed, and no chunk is empty. */
  predicate AllWellFormed(translations: seq<seq<string>>) {
    forall j :: 0 <= j < |translations| ==>
      (|translations[j]| >= 1 && forall i :: 0 <= i < |translations[j]| ==> WellFormed(translations[j][i]))
  }

  lemma FaithfulStep(chunks: seq<seq<string>>, translations: seq<seq<string>>, langName: string, replies: seq<Reply>, call: nat)
    requires |translations| == |chunks| >= 1
    requires AllWellFormed(translations)
    requires AnsweredFaithfully(replies, call, translations)
    ensures AllWellFormed(translations[1..])
    ensures AnsweredFaithfully(replies, call + 1, translations[1..])
    ensures RunChunks(chunks, langName, replies, call)
      == Prepend(translations[0], [Primary(langName, Numbered(chunks[0]))], RunChunks(chunks[1..], langName, replies, call + 1))
  {
    assert replies[call + 0] == FaithfulReply(translations[0]);
    FaithfulChunk(translations[0]);
    var tail := translations[1..];
    forall j | 0 <= j < |tail| ensures replies[call + 1 + j] == FaithfulReply(tail[j]) {
      assert replies[call + (j + 1)] == FaithfulReply(translations[j + 1]);
    }
  }

  /** When every first request is answered faithfully, each chunk costs one request and
      the cleaned lines are exactly the translations, in order. */
  lemma {:induction false} FaithfulRun(chunks: seq<seq<string>>, translations: seq<seq<string>>, langName: string, replies: seq<Reply>, call: nat)
    requires |translations| == |chunks|
    requires AllWellFormed(translations)
    requires AnsweredFaithfully(replies, call, translations)
    ensures RunChunks(chunks, langName, replies, call).Translated?
    ensures RunChunks(chunks, langName, replies, call).cleaned == Flatten(translations)
    ensures |RunChunks(chunks, langName, replies, call).requests| == |chunks|
    decreases |chunks|
  {
    if chunks != [] {
      FaithfulStep(chunks, translations, langName, replies, call);
      FaithfulRun(chunks[1..], translations[1..], langName, replies, call + 1);
    }
  }

  // ---------------------------------------------------------------------------
  // The loop itself
  // ---------------------------------------------------------------------------

  /** The texts from `start` on (none once `start` has passed the end). */
  function From(texts: seq<string>, start: nat): seq<string> {
    if start < |texts| then texts[start..] else []
  }

  /** The chunks from `start` on are the slice at `start` followed by those from `start + 80`. */
  lemma ChunksFrom(texts: seq<string>, start: nat)
    requires start < |texts|
    ensures Chunks(From(texts, start))
      == [texts[start .. Min(start + 80, |texts|)]] + Chunks(From(texts, start + 80))
  {
    var rest := texts[start..];
    if |rest| > 80 {
      assert rest[..80] == texts[start .. start + 80];
      assert rest[80..] == texts[start + 80..];
    } else {
      assert texts[start .. |texts|] == rest;
      assert From(texts, start + 80) == [];
    }
  }

  lemma PrependPrepend(c1: seq<string>, r1: seq<Request>, c2: seq<string>, r2: seq<Request>, o: Outcome)
    ensures Prepend(c1, r1, Prepend(c2, r2, o)) == Prepend(c1 + c2, r1 + r2, o)
  {
    match o
    case Translated(c, p) =>
      assert c1 + (c2 + c) == (c1 + c2) + c;
      assert r1 + (r2 + p) == (r1 + r2) + p;
    case Failed(m, p) =>
      assert r1 + (r2 + p) == (r1 + r2) + p;
  }

  /** One step of the chunk loop when the chunk yields lines. */
  lemma LoopStep(texts: seq<string>, start: nat, langName: string, replies: seq<Reply>,
                 cleaned: seq<string>, requests: seq<Request>, lines: seq<string>, sent: seq<Request>)
    requires start < |texts|
    requires TranslateChunk(texts[start .. Min(start + 80, |texts|)], langName, replies, |requests|) == ChunkLines(lines, sent)
    ensures Prepend(cleaned, requests, RunChunks(Chunks(From(texts, start)), langName, replies, |requests|))
      == Prepend(cleaned + CleanAll(lines), requests + sent, RunChunks(Chunks(From(texts, start + 80)), langName, replies, |requests + sent|))
  {
    ChunksFrom(texts, start);
    var chunks := Chunks(From(texts, start));
    assert chunks[1..] == Chunks(From(texts, start + 80));
    PrependPrepend(cleaned, requests, CleanAll(lines), sent,
      RunChunks(Chunks(From(texts, start + 80)), langName, replies, |requests| + |sent|));
  }

  /** One step of the chunk loop when the chunk fails: the loop ends with that error. */
  lemma LoopFail(texts: seq<string>, start: nat, langName: string, replies: seq<Reply>,
                 cleaned: seq<string>, requests: seq<Request>, message: string, sent: seq<Request>)
    requires start < |texts|
    requires TranslateChunk(texts[start .. Min(start + 80, |texts|)], langName, replies, |requests|) == ChunkFailed(message, sent)
    ensures Prepend(cleaned, requests, RunChunks(Chunks(From(texts, start)), langName, replies, |requests|))
      == Failed(message, requests + sent)
  {
    ChunksFrom(texts, start);
  }

  /** `for ln in lines: cleaned_all.append(...)`: each line with its number stripped. */
  method CleanLines(lines: seq<string>) returns (cleaned: seq<string>)
    ensures cleaned == CleanAll(lines)
  {
    cleaned := [];
    for k := 0 to |lines|
      invariant cleaned == CleanAll(lines[..k])
    {
      assert CleanAll(lines[..k + 1]) == CleanAll(lines[..k]) + [StripNumber(lines[k])];
      cleaned := cleaned + [StripNumber(lines[k])];
    }
    assert lines[..|lines|] == lines;
  }

  /** One chunk of the loop: the numbered request, and the simpler retry only when the
      first reply is unusable. The lines come from the last reply received; a failure
      reports the first attempt's error. */
  method TranslateOne(chunk: seq<string>, langName: string, replies: seq<Reply>, call: nat)
    returns (r: ChunkResult)
    ensures r == TranslateChunk(chunk, langName, replies, call)
    ensures 1 <= |r.requests| <= 2 && r.requests[0] == Primary(langName, Numbered(chunk))
    ensures |r.requests| == 1 <==> Usable(ReplyAt(replies, call))
    ensures |r.requests| == 2 ==> r.requests[1] == Fallback(langName, Numbered(chunk))
    ensures r.ChunkFailed? <==> !Usable(ReplyAt(replies, call)) && !Usable(ReplyAt(replies, call + 1))
    ensures r.ChunkFailed? ==> r.message == "Gemini translation failed: " + ErrorText(ReplyAt(replies, call))
    ensures r.ChunkLines? ==> r.lines == ParseLines(ReplyAt(replies, call + |r.requests| - 1).text)
  {
    var numbered := Numbered(chunk);
    var sent := [Primary(langName, numbered)];
    var first := ReplyAt(replies, call);
    if Usable(first) {
      return ChunkLines(ParseLines(first.text), sent);
    }
    var second := ReplyAt(replies, call + 1);
    sent := sent + [Fallback(langName, numbered)];
    if Usable(second) {
      return ChunkLines(ParseLines(second.text), sent);
    }
    return ChunkFailed("Gemini translation failed: " + ErrorText(first), sent);
  }

  /** The chunk loop of `transcribe_video`: chunks of 80 texts, one request per chunk and
      one retry when it fails, the lines of each reply cleaned and appended in order. */
  method TranslateTexts(texts: seq<string>, langName: string, replies: seq<Reply>) returns (o: Outcome)
    ensures o == RunChunks(Chunks(texts), langName, replies, 0)
  {
    var cleaned: seq<string> := [];
    var requests: seq<Request> := [];
    var start := 0;
    assert From(texts, 0) == texts by {
      if texts != [] {
        assert texts[0..] == texts;
      }
    }
    while start < |texts|
      invariant RunChunks(Chunks(texts), langName, replies, 0)
        == Prepend(cleaned, requests, RunChunks(Chunks(From(texts, start)), langName, replies, |requests|))
      decreases |texts| - start
    {
      var chunk := texts[start .. Min(start + 80, |texts|)];
      var r := TranslateOne(chunk, langName, replies, |requests|);
      if r.ChunkFailed? {
        LoopFail(texts, start, langName, replies, cleaned, requests, r.message, r.requests);
        return Failed(r.message, requests + r.requests);
      }
      LoopStep(texts, start, langName, replies, cleaned, requests, r.lines, r.requests);
      var more := CleanLines(r.lines);
      cleaned := cleaned + more;
      requests := requests + r.requests;
      start := start + 80;
    }
    o := Translated(cleaned, requests);
  }
}
