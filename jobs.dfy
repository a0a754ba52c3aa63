/**
 * The `JOBS` registry of app/main.py: `upload_video` creates a record in state
 * `"burning"` and schedules one background burn for it, `_background_burn` ends the
 * record in `"done"` or `"error"`, and `job_status` reads it back.
 *
 * The content of the upload, Whisper and Gemini are summed up by the outcome of
 * `transcribe_video` (its segments or its error message); ffmpeg by how its run
 * ends (`Pipeline.Encoding`). A scheduled burn runs as a later call of `RunBurn`.
 */
module Jobs {
  import opened Wrappers
  import opened Text
  import opened Srt
  import Pipeline

  /** The `"status"` key: `"burning"`, `"done"` or `"error"`. */
  datatype Status = Burning | Done | Error

  /** A `JOBS` record. `output` is the `"output"` key (`None` until a burn succeeds);
      `error` is the `"error"` key, absent (`None`) until a burn fails. */
  datatype Job = Job(status: Status, transcript: string, output: Option<string>, error: Option<string>)

  /** The arguments a background burn was scheduled with: the stored upload's file name
      and the target language. */
  datatype BurnTask = BurnTask(videoName: string, lang: string)

  /** An `HTTPException`: status code and detail. */
  datatype HttpError = HttpError(code: nat, detail: string)

  /** `file.content_type and file.content_type.startswith("video")`. */
  predicate IsVideoType(contentType: Option<string>) {
    contentType.Some? && |contentType.value| >= 5 && contentType.value[..5] == "video"
  }

  /** A freshly created record: `{"status": "burning", "transcript": ..., "output": None}`. */
  function NewJob(segments: seq<Segment>): (job: Job)
    ensures job.status == Burning && job.output == None && job.error == None
    ensures job.transcript == Join(Pipeline.Texts(segments), "\n")
  {
    Job(Burning, Join(Pipeline.Texts(segments), "\n"), None, None)
  }

  /** The one `JOBS[job_id].update(...)` a burn makes. */
  function Finished(job: Job, burn: Result<string, string>): (after: Job)
    ensures after.transcript == job.transcript
    ensures burn.Success? ==> after.status == Done && after.output == Some(burn.value) && after.error == job.error
    ensures burn.Failure? ==> after.status == Error && after.error == Some(burn.error) && after.output == job.output
  {
    match burn
    case Success(name) => job.(status := Done, output := Some(name))
    case Failure(e) => job.(status := Error, error := Some(e))
  }

  /** The shapes a record can have: burning with neither output nor error, done with an
      output and no error, or failed with an error and no output. */
  predicate WellShaped(job: Job) {
    match job.status
    case Burning => job.output.None? && job.error.None?
    case Done => job.output.Some? && job.error.None?
    case Error => job.output.None? && job.error.Some?
  }

  /** A record only ever moves from `"burning"` to a final state; a final record stays as
      it is. */
  predicate Evolves(before: Job, after: Job) {
    before == after || (before.status == Burning && after.status != Burning && after.transcript == before.transcript)
  }

  /** No record disappears and each one evolves. */
  predicate RegistryEvolves(before: map<string, Job>, after: map<string, Job>) {
    forall id :: id in before ==> id in after && Evolves(before[id], after[id])
  }

  /** Creation gives a well-shaped record, and a burn takes a burning record to a
      well-shaped final one. */
  lemma Lifecycle(segments: seq<Segment>, burn: Result<string, string>)
    ensures WellShaped(NewJob(segments))
    ensures WellShaped(Finished(NewJob(segments), burn))
    ensures Evolves(NewJob(segments), Finished(NewJob(segments), burn))
    ensures Finished(NewJob(segments), burn).status != Burning
  {
  }

  /** Evolution composes: over any run of operations a final record never changes again. */
  lemma EvolvesTransitive(a: map<string, Job>, b: map<string, Job>, c: map<string, Job>)
    requires RegistryEvolves(a, b) && RegistryEvolves(b, c)
    ensures RegistryEvolves(a, c)
    ensures forall id :: id in a && a[id].status != Burning ==> c[id] == a[id]
  {
    forall id | id in a ensures id in c && Evolves(a[id], c[id]) {
      assert Evolves(a[id], b[id]) && Evolves(b[id], c[id]);
    }
  }

  /** An uploaded `base.ext` burned into language `lang` is stored as
      `<job id>_<base>.<lang>_burned.mp4`: the extension is replaced, the id prefix kept. */
  lemma UploadOutputName(jobId: string, base: string, ext: string, lang: string)
    requires ext != [] && '.' !in ext
    ensures Pipeline.BurnSubtitles(Pipeline.Stem(jobId + "_" + (base + "." + ext)), lang, Pipeline.Encoded)
      == Success(jobId + "_" + base + "." + lang + "_burned.mp4")
  {
    assert jobId + "_" + (base + "." + ext) == (jobId + "_" + base) + "." + ext;
    Pipeline.StemOfName(jobId + "_" + base, ext);
  }

  /** The module-level `JOBS` dict, together with the burns scheduled and not yet run. */
  class Registry {
    var jobs: map<string, Job>
    var scheduled: map<string, BurnTask>

    /** Every record is well shaped, and a record is burning exactly when its burn is
        still scheduled. */
    ghost predicate Valid()
      reads this
    {
      && (forall id :: id in scheduled ==> id in jobs)
      && (forall id :: id in jobs ==> WellShaped(jobs[id]) && (jobs[id].status == Burning <==> id in scheduled))
    }

    constructor()
      ensures jobs == map[] && scheduled == map[]
      ensures Valid()
    {
      jobs := map[];
      scheduled := map[];
    }

    /** `upload_video`: reject anything but a video with 400; with 500 when transcription
        raises; otherwise record a burning job holding the transcript and schedule its
        burn. The job id (`uuid4()`) is fresh. */
    method Upload(jobId: string, contentType: Option<string>, filename: string, lang: string,
                  transcription: Result<seq<Segment>, string>)
      returns (r: Result<string, HttpError>)
      requires Valid()
      requires jobId !in jobs
      modifies this
      ensures Valid()
      ensures RegistryEvolves(old(jobs), jobs)
      ensures !IsVideoType(contentType) ==>
        r == Failure(HttpError(400, "Please upload a video file")) && jobs == old(jobs) && scheduled == old(scheduled)
      ensures IsVideoType(contentType) && transcription.Failure? ==>
        && r == Failure(HttpError(500, "Transcription failed: " + transcription.error))
        && jobs == old(jobs) && scheduled == old(scheduled)
      ensures IsVideoType(contentType) && transcription.Success? ==>
        && r == Success(jobId)
        && jobs == old(jobs)[jobId := NewJob(transcription.value)]
        && scheduled == old(scheduled)[jobId := BurnTask(jobId + "_" + filename, lang)]
    {
      if !(contentType.Some? && contentType.value != "" && |contentType.value| >= 5 && contentType.value[..5] == "video") {
        return Failure(HttpError(400, "Please upload a video file"));
      }
      var inputName := jobId + "_" + filename;
      if transcription.Failure? {
        return Failure(HttpError(500, "Transcription failed: " + transcription.error));
      }
      var transcript := Join(Pipeline.Texts(transcription.value), "\n");
      jobs := jobs[jobId := Job(Burning, transcript, None, None)];
      scheduled := scheduled[jobId := BurnTask(inputName, lang)];
      return Success(jobId);
    }

    /** `_background_burn` for a scheduled job: burn the subtitles and record either
        `"done"` with the output file's name or `"error"` with the message; the burn is
        then no longer scheduled. */
    method RunBurn(jobId: string, encoding: Pipeline.Encoding)
      requires Valid()
      requires jobId in scheduled
      modifies this
      ensures Valid()
      ensures RegistryEvolves(old(jobs), jobs)
      ensures var task := old(scheduled)[jobId];
        jobs == old(jobs)[jobId := Finished(old(jobs)[jobId],
          Pipeline.BurnSubtitles(Pipeline.Stem(task.videoName), task.lang, encoding))]
      ensures scheduled == old(scheduled) - {jobId}
    {
      var task := scheduled[jobId];
      var burn := Pipeline.BurnSubtitles(Pipeline.Stem(task.videoName), task.lang, encoding);
      match burn {
        case Success(outName) =>
          jobs := jobs[jobId := jobs[jobId].(status := Done, output := Some(outName))];
        case Failure(message) =>
          jobs := jobs[jobId := jobs[jobId].(status := Error, error := Some(message))];
      }
      scheduled := scheduled - {jobId};
    }

    /** `job_status`: the stored record, or 404 for an unknown id. */
    method JobStatus(jobId: string) returns (r: Result<Job, HttpError>)
      ensures jobId in jobs ==> r == Success(jobs[jobId])
      ensures jobId !in jobs ==> r == Failure(HttpError(404, "job not found"))
    {
      if jobId !in jobs {
        return Failure(HttpError(404, "job not found"));
      }
      return Success(jobs[jobId]);
    }
  }
}
