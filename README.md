# Subtitle Birth: VideoComm, modelled in Dafny

Subtitle Birth turns an uploaded video into a subtitled one. Whisper recognises the
speech as timed segments. Gemini then translates the segment texts, in chunks of 80
numbered lines with one simpler retry per chunk. The code recovers the translated lines
from each reply, strips their numbers and assigns them back to the segments by position,
padding with the original texts when lines are missing. It writes a SubRip (`.srt`)
file and has ffmpeg burn it into `<stem>.<lang>_burned.mp4`. The web server keeps
one record per upload in the in-memory `JOBS` registry. A record is created in state
`"burning"` when the upload is transcribed, and a background burn moves it to `"done"`
or `"error"`.

The Dafny modules follow the program:

- `Text` holds the Python string operations the code relies on: `strip`, `split`,
  `join`, `rstrip(".")`, `isdigit` and zero-padded decimal formatting.
- `Srt` holds `_srt_time` and `_write_srt`, plus a reader for the same format used to
  state the round trips.
- `Translation` holds the chunk loop of `transcribe_video`. It covers chunking,
  numbering, both prompts, the retry, reading replies and stripping numbers. Gemini is a
  list of replies indexed by request number.
- `Pipeline` holds `transcribe_video` with its in-place updates of the segment array,
  the output names, `burn_subtitles` and `process_video`.
- `Jobs` holds the `JOBS` registry as a class with `Upload`, `RunBurn` and `JobStatus`.
  `RunBurn` is a background burn that runs later.

Times are whole milliseconds. Gemini replies are `Response(text)` or
`ApiError(message)`. Requests past the end of the reply list fail with an empty
message. An ffmpeg run is summed up by how it ends: success, an `ffmpeg.Error` with
its diagnostic, or another exception with its message.

## Model

| member | source | states |
|---|---|---|
| Srt.ClockOf | app/pipeline.py:36-37 | the hour, minute, second and millisecond fields recombine to the exact millisecond count, with minutes and seconds below 60 and milliseconds below 1000 |
| Srt.PaddedFields | app/pipeline.py:37 | each `:02d`/`:03d` field is a digit string of the format's width (hours at least two digits, possibly more) that reads back as its clock field |
| Srt.SrtTimeRoundTrip | app/pipeline.py:34-37 | every rendered `HH:MM:SS,mmm` timestamp parses back to the millisecond count it came from |
| Srt.SrtTimeInjective | app/pipeline.py:34-37 | two different millisecond counts never render to the same timestamp |
| Srt.BlocksAppend | app/pipeline.py:42-45 | writing one more segment appends its block, numbered after the others, and changes nothing before it |
| Srt.WriteSrt | app/pipeline.py:40-46 | the loop writes exactly the document of the segments: blocks numbered from 1, in segment order |
| Srt.CuesOfAt | app/pipeline.py:42-45 | cue i of the expected reading has number `first + i` and segment i's times and stripped text |
| Srt.TimeRangeRoundTrip | app/pipeline.py:44 | the `start --> end` line of a segment parses back to its two exact times |
| Srt.BlocksRoundTrip | app/pipeline.py:42-45 | consecutive blocks of single-line segments parse back to one cue per segment, numbered consecutively |
| Srt.SrtDocumentRoundTrip | app/pipeline.py:40-46 | reading the written file gives one cue per segment, cue i numbered i + 1 with segment i's times and stripped text |
| Text.StripShape | app/pipeline.py:44 | `strip()` keeps exactly the part between leading and trailing whitespace, and that part neither starts nor ends with whitespace |
| Text.StripEmptyIffBlank | app/pipeline.py:84 | a text strips to the empty string if and only if it is entirely whitespace |
| Text.StripIdempotent | app/pipeline.py:117 | stripping twice is stripping once |
| Text.SplitJoin | app/pipeline.py:104 | splitting a join of separator-free pieces at the separator gives the pieces back |
| Text.JoinSplit | app/pipeline.py:117 | joining the pieces of a split with the same separator gives the text back |
| Text.SplitAppend | app/pipeline.py:117 | splitting `a + sep + b` splits `a` and `b` separately and concatenates the pieces |
| Text.DecimalValue | app/pipeline.py:104 | the decimal rendering of a number reads back as that number |
| Text.PaddedValue | app/pipeline.py:37 | a zero-padded rendering is all digits and reads back as the number |
| Translation.ChunksPartition | app/pipeline.py:100-103 | the chunks concatenate back to the texts, in order, and each holds 1 to 80 texts |
| Translation.ChunkAt | app/pipeline.py:102-103 | chunk j is exactly the slice `texts[80j : 80j + 80]` |
| Translation.ChunkCount | app/pipeline.py:102 | there are ceil(n / 80) chunks |
| Translation.NumberedSplit | app/pipeline.py:104 | the numbered block has one line per text, line i reading `"{i+1}. {text}"`, when no text holds a line break |
| Translation.LangName | app/pipeline.py:50-64 | a known code maps to its language name from the 13-entry table; any other code is used as is |
| Translation.KeepLines | app/pipeline.py:117 | the kept lines are no more than the pieces, and each is non-empty and already stripped |
| Translation.ParseLinesJoin | app/pipeline.py:117 | a reply made of trimmed lines joined by line breaks reads back as exactly those lines |
| Translation.ParseLinesAppend | app/pipeline.py:117 | the lines of `a + "\n" + b` are the lines of `a` followed by those of `b` |
| Translation.ParseBlankLine | app/pipeline.py:117 | a blank line contributes no line |
| Translation.StripNumberSpec | app/pipeline.py:136-140 | when the first space-separated token, without trailing dots, is a number, the line loses that token and one space (a line without a space becomes empty); otherwise the line is kept |
| Translation.StripNumbered | app/pipeline.py:136-140 | stripping undoes the numbering: `"k. text"` gives back `text` exactly |
| Translation.StripNumberBare | app/pipeline.py:137-138 | a line that is only a number becomes the empty line |
| Translation.StripNumberDoubleSpace | app/pipeline.py:137-138 | only one space is removed: `"1.  x"` becomes `" x"` |
| Translation.StripNumberWord | app/pipeline.py:139-140 | a line whose first token does not start with a digit or a dot is kept unchanged |
| Translation.ExactlyOneRetry | app/pipeline.py:113-133 | each chunk sends the full prompt first. The simpler retry is sent if and only if the first reply is unusable (an error or empty text). The chunk fails if and only if both replies are unusable, and then reports `"Gemini translation failed: "` plus the first attempt's error |
| Translation.TranslateOne | app/pipeline.py:113-133 | the full prompt is sent first. The simpler retry is sent if and only if the first reply is unusable. The lines are read from the last reply received. The chunk fails if and only if both replies are unusable, with `"Gemini translation failed: "` plus the first attempt's error |
| Translation.PromptEndsWithBlock | app/pipeline.py:106-124 | both prompts end with the chunk's numbered block |
| Translation.PromptsDiffer | app/pipeline.py:106-124 | the retry prompt is never the first prompt again |
| Translation.RequestCount | app/pipeline.py:102-133 | a completed translation costs between one and two requests per chunk; a failed one at least two and at most two per chunk |
| Translation.FailureStops | app/pipeline.py:131-133 | once a chunk fails nothing after it is requested: later chunks change neither the error nor the requests |
| Translation.FaithfulChunk | app/pipeline.py:104-140 | a reply that answers a chunk with its well-formed translations, numbered one per line, is usable and cleans to exactly those translations |
| Translation.FaithfulRun | app/pipeline.py:99-140 | when every first request is answered faithfully, translation succeeds with one request per chunk and the cleaned lines are all translations in order |
| Translation.CleanLines | app/pipeline.py:136-140 | the loop appends every line, number stripped, in order |
| Translation.TranslateTexts | app/pipeline.py:99-140 | the chunk loop computes exactly the outcome of running the chunks in order: the cleaned lines and requests of all chunks, or the first failing chunk's error |
| Pipeline.StemOfName | app/pipeline.py:161 | the stem of `base.ext` is `base` when the extension is non-empty and has no dot; a name without dots is its own stem |
| Pipeline.OutputNames | app/pipeline.py:153-161 | both outputs start with `<stem>.<lang>` and end `.srt` and `_burned.mp4`, so they never collide |
| Pipeline.AlignedAt | app/pipeline.py:142-150 | segment i receives recovered line i when there is one and keeps its original text otherwise; surplus lines are ignored |
| Pipeline.TranslatedSegmentsShape | app/pipeline.py:96-150 | translation keeps the number, order and times of the segments, records each original text, and gives segment i line i or its original text |
| Pipeline.RecordOriginals | app/pipeline.py:96-97 | every segment of the array gets `originalText` set to its current text and nothing else changes |
| Pipeline.PadCleaned | app/pipeline.py:146-147 | a short list of lines is completed with the original texts of the segments it misses; a long enough list is unchanged |
| Pipeline.AssignTexts | app/pipeline.py:149-150 | segment i of the array gets text i, and nothing else changes |
| Pipeline.TranscribeVideo | app/pipeline.py:84-156 | when every text is blank, nothing is requested and the segments are written unchanged. When a chunk fails, the error is raised with the originals already recorded. Otherwise the segments get their aligned translations and the `.srt` file holds exactly them |
| Pipeline.TranslatedTexts | app/pipeline.py:142-150 | the texts of the translated segments are the recovered lines aligned to the segments by position |
| Pipeline.FaithfulTranslation | app/pipeline.py:99-150 | with faithful replies, using one request per chunk, the recovered lines are exactly the translations in order, one per segment, and segment i gets translation i |
| Pipeline.BurnSubtitles | app/pipeline.py:159-186 | the burn succeeds if and only if ffmpeg does, naming `<stem>.<lang>_burned.mp4`. An `ffmpeg.Error` becomes `"ffmpeg error:\n" + diagnostic + "\n"`; any other exception keeps its own message |
| Pipeline.ProcessVideo | app/pipeline.py:230-254 | a missing video is rejected first, leaving the segments as they are. A translation failure comes next, with the originals recorded. A mode other than `"sub"` is rejected only after transcription. Otherwise the segments hold their aligned translations (or are unchanged when all blank), and the result is the burn's outcome with the space-joined segment texts as the transcript. An `ffmpeg.Error` surfaces as a `RuntimeError`; any other encoding exception passes through |
| Jobs.NewJob | app/main.py:49-51 | a new record is burning, has no output and no error, and holds the line-joined transcript |
| Jobs.Finished | app/main.py:23-28 | a successful burn marks the record done with the output name; a failed burn marks it error with the message; the transcript is kept |
| Jobs.Lifecycle | app/main.py:23-51 | a record is created well shaped, and one burn takes it to a well-shaped final state |
| Jobs.EvolvesTransitive | app/main.py:19-64 | over any sequence of operations no record disappears and a finished record never changes again |
| Jobs.UploadOutputName | app/main.py:38 | an upload `base.ext` for language `lang` burns to `<job id>_<base>.<lang>_burned.mp4` |
| Jobs.Registry.constructor | app/main.py:19 | the registry starts empty with no burn scheduled |
| Jobs.Registry.Upload | app/main.py:32-56 | a non-video is rejected with 400 and a transcription error with 500, in both cases leaving the registry unchanged. Otherwise a burning record with the transcript is added under the fresh id and its burn is scheduled. Records are kept well shaped, with a burn scheduled exactly for the burning ones |
| Jobs.Registry.RunBurn | app/main.py:23-28 | the scheduled burn finishes its record as done, or as error with `str(e)` of whichever exception escaped the burn; it leaves all other records alone and unschedules itself |
| Jobs.Registry.JobStatus | app/main.py:59-64 | a known id gives its stored record, an unknown one 404 `"job not found"` |

## Left out

- Whisper is not modelled: the segments it returns are the input, with times already
  converted to whole milliseconds. `int(float(seconds or 0) * 1000)` and its floating
  point rounding are not modelled.
- Pipeline.ProcessVideo: exceptions raised by Whisper itself are not modelled, because
  transcription starts from given segments. Only the translation failure is modelled.
- Jobs.Registry.Upload: it takes the outcome of `transcribe_video` (segments or error
  message) as a parameter instead of calling `TranscribeVideo`. Copying the upload to
  disk is not modelled.
- The Gemini client is a list of replies indexed by request number. A request beyond
  the list fails with an empty message. Network behaviour, token limits and the content
  of translations are not modelled.
- An exception raised while reading `resp.text` is treated like an API error.
- ffmpeg's filter, codec and quality options are not modelled. Only how its run ends
  is: success, `ffmpeg.Error` with its diagnostic, or another exception with its message.
  The choice between decoded stderr and `str(e)` for the diagnostic is part of that input.
- `burn_subtitles`'s `srt_path` argument is not modelled, because it affects only the
  ffmpeg command line.
- File writes, `mkdir`, existence checks and path directories are not modelled.
  `Stem` works on the bare file name, and `process_video` receives whether the video
  exists as a flag.
- The FastAPI routing, `BackgroundTasks` scheduling and concurrency are not modelled.
  A scheduled burn runs when `RunBurn` is called for its id.
- `uuid4()` is not modelled. Its freshness is the precondition `jobId !in jobs`.
- The `print` logging is not modelled.
- The `/download` route, the HTML front end and static mounts are not modelled.
- The commented-out dubbing code (`dub_audio`) is not modelled.
- `str.isdigit` is restricted to ASCII digits, and `str.strip` to the whitespace
  characters listed in `Text.IsSpace`.
- Srt.SrtDocumentRoundTrip: the round trip is proved only for segments whose stripped
  text is a single line. A text with a line break produces a block that SubRip readers
  take as several lines.
