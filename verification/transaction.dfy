/**
 The re-encoding transaction (`main`): move the original aside as a backup,
 transcode the backup into a temporary file, verify and tag that file, move it
 over the original and delete the backup. Any failure runs the handler, which
 puts the backup back over the original when the backup exists, deletes the
 temporary file when it exists, and re-raises.

 The filesystem is a map from paths to media files; every outside effect (the
 encoder's result, the probe's output, refusals by the operating system or the
 tagging library) is a field of `Env`.
 */
module Transaction {
  import opened Results
  import Bytes
  import Encode
  import Tags
  import Probe

  type Path = string

  /** A media file as far as the transaction can tell: its encoded streams and its tag map, if it has one. */
  datatype Media = Media(streams: seq<Bytes.byte>, tags: Option<Tags.TagMap>)

  type FileSystem = map<Path, Media>

  /** The two paths `main` is given; the backup path is derived from the original. */
  datatype Paths = Paths(original: Path, temp: Path) {
    function Backup(): Path {
      original + ".bak"
    }

    /** The temporary file is neither the original nor its backup. */
    predicate Distinct() {
      temp != original && temp != Backup()
    }

    function Touched(): set<Path> {
      {original, temp, Backup()}
    }
  }

  /** The backup path never coincides with the original. */
  lemma BackupIsElsewhere(p: Paths)
    ensures p.Backup() != p.original
  {
    assert |p.Backup()| == |p.original| + 4;
  }

  /** Every path outside `touched` is present in `after` exactly when in `before`, with the same content. */
  ghost predicate UnchangedExcept(before: FileSystem, after: FileSystem, touched: set<Path>) {
    forall q :: q !in touched ==> (q in before <==> q in after) && (q in before ==> after[q] == before[q])
  }

  // ---------------------------------------------------------------------------
  // Operating-system calls

  /** Why an operating-system call fails. */
  datatype OsReason = NotFound | AlreadyExists | Refused

  /**
   `os.rename`: fails when the source is missing, when the destination already
   exists, or when the system refuses; otherwise the content moves from the
   source path to the destination path.
   */
  function Rename(fs: FileSystem, src: Path, dst: Path, refused: bool): (r: Result<FileSystem, OsReason>)
    requires src != dst
    ensures r.Err? <==> src !in fs || dst in fs || refused
    ensures r.Err? ==> (r.error == NotFound <==> src !in fs) && (r.error == AlreadyExists <==> src in fs && dst in fs)
    ensures r.Ok? ==> src !in r.value && dst in r.value && r.value[dst] == fs[src]
    ensures r.Ok? ==> UnchangedExcept(fs, r.value, {src, dst})
  {
    if src !in fs then Err(NotFound)
    else if dst in fs then Err(AlreadyExists)
    else if refused then Err(Refused)
    else Ok((fs - {src})[dst := fs[src]])
  }

  /**
   `os.replace`: like a rename, except that an existing destination is
   overwritten.
   */
  function Replace(fs: FileSystem, src: Path, dst: Path, refused: bool): (r: Result<FileSystem, OsReason>)
    requires src != dst
    ensures r.Err? <==> src !in fs || refused
    ensures r.Err? ==> (r.error == NotFound <==> src !in fs)
    ensures r.Ok? ==> src !in r.value && dst in r.value && r.value[dst] == fs[src]
    ensures r.Ok? ==> UnchangedExcept(fs, r.value, {src, dst})
  {
    if src !in fs then Err(NotFound)
    else if refused then Err(Refused)
    else Ok((fs - {src})[dst := fs[src]])
  }

  /** `os.remove`: fails when the path is missing or the system refuses; otherwise the path disappears. */
  function Remove(fs: FileSystem, path: Path, refused: bool): (r: Result<FileSystem, OsReason>)
    ensures r.Err? <==> path !in fs || refused
    ensures r.Err? ==> (r.error == NotFound <==> path !in fs)
    ensures r.Ok? ==> path !in r.value && UnchangedExcept(fs, r.value, {path})
  {
    if path !in fs then Err(NotFound)
    else if refused then Err(Refused)
    else Ok(fs - {path})
  }

  // ---------------------------------------------------------------------------
  // The outside world

  /** What the encoder did: wrote its output, or failed, possibly leaving a partial output behind. */
  datatype Encoding = Encoded(output: Media) | EncodeFailed(partial: Option<Media>)

  /** The outcome of every call the transaction makes to something it does not control. */
  datatype Env = Env(
    renameRefused: bool,
    encoding: Encoding,
    probeStdout: Option<string>,
    tagRefused: bool,
    replaceRefused: bool,
    removeRefused: bool,
    restoreRefused: bool,
    cleanupRefused: bool)

  /** The operating-system calls of `main`, named by their role. */
  datatype OsCall = RenameToBackup | ReplaceOriginal | RemoveBackup | RestoreOriginal | RemoveTemp

  /** The exceptions that can leave `main`. */
  datatype Failure =
    | OsFailed(call: OsCall, reason: OsReason)
    | TranscodeFailed
    | ProbeFailed
    | VerifyFailed(mismatch: Probe.CheckError)
    | TagFailed

  // ---------------------------------------------------------------------------
  // The protected block

  /** The steps of the protected block, in order. */
  datatype Stage = BackUp | Transcode | Verify | TagOutput | Commit | DiscardBackup

  const Stages: seq<Stage> := [BackUp, Transcode, Verify, TagOutput, Commit, DiscardBackup]

  /**
   The probe ran and the check accepts what it printed. `None` stands for a
   probe that could not be run or whose output could not be decoded.
   */
  predicate ProbeAccepts(probeStdout: Option<string>) {
    probeStdout.Some? && Probe.Check(probeStdout.value).Ok?
  }

  /** The filesystem after a step, and the exception it raised, if any. */
  datatype Attempt = Attempt(fs: FileSystem, raised: Option<Failure>)

  /** A file after `update_metadata`: same streams, tag map merged with the fixed entries. */
  function Tagged(m: Media): (r: Media)
    ensures r.streams == m.streams && r.tags.Some?
    ensures Tags.FixedKeys <= r.tags.value.Keys
  {
    m.(tags := Some(Tags.UpdateMetadata(m.tags)))
  }

  /** One step of the protected block; only the three paths of the transaction are ever touched. */
  function Perform(stage: Stage, fs: FileSystem, p: Paths, env: Env): (a: Attempt)
    requires p.Distinct()
    ensures UnchangedExcept(fs, a.fs, p.Touched())
    ensures stage == Verify ==> a.fs == fs && (a.raised.None? <==> ProbeAccepts(env.probeStdout))
    ensures stage == Verify && env.probeStdout.None? ==> a.raised == Some(ProbeFailed)
  {
    BackupIsElsewhere(p);
    match stage
    case BackUp =>
      (match Rename(fs, p.original, p.Backup(), env.renameRefused)
       case Err(e) => Attempt(fs, Some(OsFailed(RenameToBackup, e)))
       case Ok(fs') => Attempt(fs', None))
    case Transcode =>
      (match env.encoding
       case Encoded(out) => Attempt(fs[p.temp := out], None)
       case EncodeFailed(None) => Attempt(fs, Some(TranscodeFailed))
       case EncodeFailed(Some(partial)) => Attempt(fs[p.temp := partial], Some(TranscodeFailed)))
    case Verify =>
      (match env.probeStdout
       case None => Attempt(fs, Some(ProbeFailed))
       case Some(out) =>
         (match Probe.Check(out)
          case Err(e) => Attempt(fs, Some(VerifyFailed(e)))
          case Ok(_) => Attempt(fs, None)))
    case TagOutput =>
      if p.temp !in fs || env.tagRefused then Attempt(fs, Some(TagFailed))
      else Attempt(fs[p.temp := Tagged(fs[p.temp])], None)
    case Commit =>
      (match Replace(fs, p.temp, p.original, env.replaceRefused)
       case Err(e) => Attempt(fs, Some(OsFailed(ReplaceOriginal, e)))
       case Ok(fs') => Attempt(fs', None))
    case DiscardBackup =>
      (match Remove(fs, p.Backup(), env.removeRefused)
       case Err(e) => Attempt(fs, Some(OsFailed(RemoveBackup, e)))
       case Ok(fs') => Attempt(fs', None))
  }

  /** Continue after an attempt: once an exception is raised, the remaining steps are skipped. */
  function Then(a: Attempt, stage: Stage, p: Paths, env: Env): Attempt
    requires p.Distinct()
  {
    if a.raised.Some? then a else Perform(stage, a.fs, p, env)
  }

  /** Run the steps in order from an attempt, stopping at the first that raises. */
  function RunStages(stages: seq<Stage>, a: Attempt, p: Paths, env: Env): (b: Attempt)
    requires p.Distinct()
    ensures a.raised.Some? ==> b == a
    ensures UnchangedExcept(a.fs, b.fs, p.Touched())
  {
    if |stages| == 0 then a else RunStages(stages[1..], Then(a, stages[0], p, env), p, env)
  }

  /** The protected block of `main`. */
  function Body(fs: FileSystem, p: Paths, env: Env): (a: Attempt)
    requires p.Distinct()
    ensures UnchangedExcept(fs, a.fs, p.Touched())
  {
    RunStages(Stages, Attempt(fs, None), p, env)
  }

  /** The protected block written out step by step. */
  lemma BodySteps(fs: FileSystem, p: Paths, env: Env)
    requires p.Distinct()
    ensures Body(fs, p, env)
         == Then(Then(Then(Then(Then(Perform(BackUp, fs, p, env), Transcode, p, env), Verify, p, env),
                           TagOutput, p, env), Commit, p, env), DiscardBackup, p, env)
  {
    var s := Stages;
    var a0 := Attempt(fs, None);
    var a1 := Then(a0, BackUp, p, env);
    var a2 := Then(a1, Transcode, p, env);
    var a3 := Then(a2, Verify, p, env);
    var a4 := Then(a3, TagOutput, p, env);
    var a5 := Then(a4, Commit, p, env);
    var a6 := Then(a5, DiscardBackup, p, env);
    assert RunStages(s, a0, p, env) == RunStages(s[1..], a1, p, env);
    assert RunStages(s[1..], a1, p, env) == RunStages(s[2..], a2, p, env);
    assert RunStages(s[2..], a2, p, env) == RunStages(s[3..], a3, p, env);
    assert RunStages(s[3..], a3, p, env) == RunStages(s[4..], a4, p, env);
    assert RunStages(s[4..], a4, p, env) == RunStages(s[5..], a5, p, env);
    assert RunStages(s[5..], a5, p, env) == RunStages(s[6..], a6, p, env);
  }

  // ---------------------------------------------------------------------------
  // The handler

  /**
   The `except` block: put the backup back over the original when the backup
   exists, then delete the temporary file when it exists. A call that fails
   ends the handler at once with its own exception.
   */
  function Rollback(fs: FileSystem, p: Paths, env: Env): (a: Attempt)
    requires p.Distinct()
    ensures UnchangedExcept(fs, a.fs, p.Touched())
    ensures a.raised.None? <==> (p.Backup() in fs ==> !env.restoreRefused) && (p.temp in fs ==> !env.cleanupRefused)
    ensures a.raised.None? ==> p.Backup() !in a.fs && p.temp !in a.fs
    ensures a.raised.None? && p.Backup() in fs ==> p.original in a.fs && a.fs[p.original] == fs[p.Backup()]
    ensures a.raised.None? && p.Backup() !in fs ==>
      (p.original in a.fs <==> p.original in fs) && (p.original in fs ==> a.fs[p.original] == fs[p.original])
    ensures a.raised == Some(OsFailed(RestoreOriginal, Refused)) <==> p.Backup() in fs && env.restoreRefused
    ensures a.raised == Some(OsFailed(RestoreOriginal, Refused)) ==> a.fs == fs
    ensures a.raised.Some? && a.raised != Some(OsFailed(RestoreOriginal, Refused)) ==>
      && a.raised == Some(OsFailed(RemoveTemp, Refused))
      && p.temp in fs && env.cleanupRefused
      && p.temp in a.fs && a.fs[p.temp] == fs[p.temp] && p.Backup() !in a.fs
      && (p.Backup() in fs ==> p.original in a.fs && a.fs[p.original] == fs[p.Backup()])
      && (p.Backup() !in fs ==> a.fs == fs)
  {
    BackupIsElsewhere(p);
    if p.Backup() in fs then
      match Replace(fs, p.Backup(), p.original, env.restoreRefused)
      case Err(e) => Attempt(fs, Some(OsFailed(RestoreOriginal, e)))
      case Ok(restored) => CleanUp(restored, p, env)
    else CleanUp(fs, p, env)
  }

  /** The handler's second guarded call: delete the temporary file when it exists. */
  function CleanUp(fs: FileSystem, p: Paths, env: Env): (a: Attempt)
    ensures a.raised.None? <==> p.temp in fs ==> !env.cleanupRefused
    ensures a.raised.Some? ==> a.raised.value == OsFailed(RemoveTemp, Refused) && a.fs == fs
    ensures a.raised.None? ==> p.temp !in a.fs && UnchangedExcept(fs, a.fs, {p.temp})
  {
    if p.temp in fs then
      match Remove(fs, p.temp, env.cleanupRefused)
      case Err(e) => Attempt(fs, Some(OsFailed(RemoveTemp, e)))
      case Ok(cleaned) => Attempt(cleaned, None)
    else Attempt(fs, None)
  }

  // ---------------------------------------------------------------------------
  // The whole of `main`

  /**
   How `main` ends: normally, or with an exception. When the handler itself
   fails, its exception is the one that propagates and the exception being
   handled becomes its context.
   */
  datatype Outcome = Completed | Raised(error: Failure, context: Option<Failure>)

  datatype Run = Run(fs: FileSystem, outcome: Outcome)

  /** `main`: the protected block, and the handler when the block raises. */
  function Main(fs: FileSystem, p: Paths, env: Env): (run: Run)
    requires p.Distinct()
    ensures UnchangedExcept(fs, run.fs, p.Touched())
    ensures run.outcome.Raised? && run.outcome.context.None? ==> p.Backup() !in run.fs && p.temp !in run.fs
  {
    var body := Body(fs, p, env);
    match body.raised
    case None => Run(body.fs, Completed)
    case Some(failure) =>
      var handled := Rollback(body.fs, p, env);
      match handled.raised
      case None => Run(handled.fs, Raised(failure, None))
      case Some(secondary) => Run(handled.fs, Raised(secondary, Some(failure)))
  }

  /** The conditions under which every step of the protected block succeeds. */
  predicate Proceeds(fs: FileSystem, p: Paths, env: Env) {
    && p.original in fs && p.Backup() !in fs && !env.renameRefused
    && env.encoding.Encoded?
    && ProbeAccepts(env.probeStdout)
    && !env.tagRefused && !env.replaceRefused && !env.removeRefused
  }

  /**
   When every step succeeds, the protected block leaves the tagged output of the
   encoder at the original path and neither the backup nor the temporary file.
   */
  lemma SuccessfulBody(fs: FileSystem, p: Paths, env: Env)
    requires p.Distinct() && Proceeds(fs, p, env)
    ensures Body(fs, p, env) == Attempt((fs - {p.temp})[p.original := Tagged(env.encoding.output)], None)
  {
    BackupIsElsewhere(p);
    BodySteps(fs, p, env);
    var out := env.encoding.output;
    var fs1 := (fs - {p.original})[p.Backup() := fs[p.original]];
    var a1 := Perform(BackUp, fs, p, env);
    assert a1 == Attempt(fs1, None);
    var fs2 := fs1[p.temp := out];
    var a2 := Then(a1, Transcode, p, env);
    assert a2 == Attempt(fs2, None);
    var a3 := Then(a2, Verify, p, env);
    assert a3 == a2;
    var fs4 := fs2[p.temp := Tagged(out)];
    var a4 := Then(a3, TagOutput, p, env);
    assert a4 == Attempt(fs4, None) by {
      TagStep(fs2, p, env);
    }
    var fs5 := (fs4 - {p.temp})[p.original := Tagged(out)];
    var a5 := Then(a4, Commit, p, env);
    assert a5 == Attempt(fs5, None) by {
      CommitStep(fs4, p, env);
    }
    var a6 := Then(a5, DiscardBackup, p, env);
    assert a6 == Attempt(fs5 - {p.Backup()}, None) by {
      DiscardStep(fs5, p, env);
    }
    SuccessfulState(fs, p, out);
  }

  /** The tagging step when the temporary file exists and the library accepts it. */
  lemma TagStep(fs: FileSystem, p: Paths, env: Env)
    requires p.Distinct() && p.temp in fs && !env.tagRefused
    ensures Perform(TagOutput, fs, p, env) == Attempt(fs[p.temp := Tagged(fs[p.temp])], None)
    ensures Perform(Stages[3], fs, p, env) == Perform(TagOutput, fs, p, env)
  {
    StagesInOrder();
  }

  /** The commit step when the temporary file exists and the system accepts the replacement. */
  lemma CommitStep(fs: FileSystem, p: Paths, env: Env)
    requires p.Distinct() && p.temp in fs && !env.replaceRefused
    ensures Perform(Commit, fs, p, env) == Attempt((fs - {p.temp})[p.original := fs[p.temp]], None)
  {
  }

  /** The last step when the backup exists and the system accepts its removal. */
  lemma DiscardStep(fs: FileSystem, p: Paths, env: Env)
    requires p.Distinct() && p.Backup() in fs && !env.removeRefused
    ensures Perform(DiscardBackup, fs, p, env) == Attempt(fs - {p.Backup()}, None)
  {
  }

  /** The map bookkeeping of a successful run. */
  lemma SuccessfulState(fs: FileSystem, p: Paths, out: Media)
    requires p.Distinct() && p.original in fs && p.Backup() !in fs
    ensures var moved := (fs - {p.original})[p.Backup() := fs[p.original]][p.temp := out][p.temp := Tagged(out)];
      ((moved - {p.temp})[p.original := Tagged(out)]) - {p.Backup()} == (fs - {p.temp})[p.original := Tagged(out)]
  {
    BackupIsElsewhere(p);
  }

  /** `main` completes exactly when every step succeeds. */
  lemma CompletesExactly(fs: FileSystem, p: Paths, env: Env)
    requires p.Distinct()
    ensures Main(fs, p, env).outcome.Completed? <==> Proceeds(fs, p, env)
  {
    if Proceeds(fs, p, env) {
      SuccessfulBody(fs, p, env);
    } else {
      SomeStepRaises(fs, p, env);
    }
  }

  /** When any of the conditions fails, some step of the protected block raises. */
  lemma SomeStepRaises(fs: FileSystem, p: Paths, env: Env)
    requires p.Distinct() && !Proceeds(fs, p, env)
    ensures Body(fs, p, env).raised.Some?
  {
    BackupIsElsewhere(p);
    BodySteps(fs, p, env);
  }

  /**
   A completed run leaves the tagged output of the encoder at the original path
   and neither the backup nor the temporary file; nothing else changes.
   */
  lemma CompletedRun(fs: FileSystem, p: Paths, env: Env)
    requires p.Distinct() && Main(fs, p, env).outcome.Completed?
    ensures env.encoding.Encoded?
    ensures Main(fs, p, env).fs == (fs - {p.temp})[p.original := Tagged(env.encoding.output)]
    ensures p.Backup() !in Main(fs, p, env).fs && p.temp !in Main(fs, p, env).fs
  {
    CompletesExactly(fs, p, env);
    SuccessfulBody(fs, p, env);
    BackupIsElsewhere(p);
  }

  // ---------------------------------------------------------------------------
  // Failure and recovery

  /** Everything outside the transaction's paths is as in `fs`, and the backup holds the original's content. */
  ghost predicate BackedUp(fs: FileSystem, p: Paths, s: FileSystem) {
    && p.original in fs && p.Backup() in s && s[p.Backup()] == fs[p.original]
    && UnchangedExcept(fs, s, p.Touched())
  }

  /** No step but a successful removal of the backup disturbs the backup. */
  lemma StageKeepsBackup(stage: Stage, fs: FileSystem, s: FileSystem, p: Paths, env: Env)
    requires p.Distinct() && BackedUp(fs, p, s)
    requires stage != DiscardBackup || Perform(stage, s, p, env).raised.Some?
    ensures BackedUp(fs, p, Perform(stage, s, p, env).fs)
  {
    BackupIsElsewhere(p);
  }

  /** When the backup was made and a later step raised, the backup is intact at the handler. */
  lemma RaisedAfterBackup(fs: FileSystem, p: Paths, env: Env)
    requires p.Distinct() && Perform(BackUp, fs, p, env).raised.None?
    requires Body(fs, p, env).raised.Some?
    ensures BackedUp(fs, p, Body(fs, p, env).fs)
  {
    BackupIsElsewhere(p);
    BodySteps(fs, p, env);
    var a1 := Perform(BackUp, fs, p, env);
    var a2 := Then(a1, Transcode, p, env);
    var a3 := Then(a2, Verify, p, env);
    var a4 := Then(a3, TagOutput, p, env);
    var a5 := Then(a4, Commit, p, env);
    StageKeepsBackup(Transcode, fs, a1.fs, p, env);
    if a2.raised.None? {
      StageKeepsBackup(Verify, fs, a2.fs, p, env);
      if a3.raised.None? {
        StageKeepsBackup(TagOutput, fs, a3.fs, p, env);
        if a4.raised.None? {
          StageKeepsBackup(Commit, fs, a4.fs, p, env);
          if a5.raised.None? {
            StageKeepsBackup(DiscardBackup, fs, a5.fs, p, env);
          }
        }
      }
    }
  }

  /**
   From a state where the backup holds the original's content, a handler
   whose own calls succeed brings back exactly the filesystem before the run,
   less the temporary file.
   */
  lemma RollbackRestores(fs: FileSystem, p: Paths, s: FileSystem, env: Env)
    requires p.Distinct() && p.Backup() !in fs && BackedUp(fs, p, s)
    requires !env.restoreRefused && !env.cleanupRefused
    ensures Rollback(s, p, env) == Attempt(fs - {p.temp}, None)
  {
    BackupIsElsewhere(p);
    var r := Rollback(s, p, env).fs;
    assert forall q :: q in r <==> q in fs - {p.temp};
  }

  /**
   From a state where the backup holds the original's content, a handler whose
   restore succeeds but whose deletion of the temporary file is refused brings
   back the filesystem before the run, except that the temporary file is left
   with its current content.
   */
  lemma RollbackKeepsTemp(fs: FileSystem, p: Paths, s: FileSystem, env: Env)
    requires p.Distinct() && p.Backup() !in fs && BackedUp(fs, p, s)
    requires p.temp in s && !env.restoreRefused && env.cleanupRefused
    ensures Rollback(s, p, env) == Attempt(fs[p.temp := s[p.temp]], Some(OsFailed(RemoveTemp, Refused)))
  {
    BackupIsElsewhere(p);
    var r := Rollback(s, p, env).fs;
    assert forall q :: q in r <==> q in fs[p.temp := s[p.temp]];
  }

  /** When the backup was never made, a handler whose calls succeed only deletes the temporary file. */
  lemma RollbackWithoutBackup(fs: FileSystem, p: Paths, env: Env)
    requires p.Distinct() && p.Backup() !in fs
    requires !env.cleanupRefused
    ensures Rollback(fs, p, env) == Attempt(fs - {p.temp}, None)
  {
    var r := Rollback(fs, p, env).fs;
    assert forall q :: q in r <==> q in fs - {p.temp};
  }

  /**
   Whatever step fails (the backup, the encoder, the probe, the tagger, the
   replacement of the original or even the removal of the backup after the
   commit), when no backup existed beforehand and the handler's own calls
   succeed, `main` re-raises that step's exception and leaves the filesystem as
   it was before the run, less the temporary file.
   */
  lemma FailureRestoresOriginal(fs: FileSystem, p: Paths, env: Env)
    requires p.Distinct() && p.Backup() !in fs
    requires !env.restoreRefused && !env.cleanupRefused
    requires Main(fs, p, env).outcome.Raised?
    ensures Body(fs, p, env).raised.Some?
    ensures Main(fs, p, env) == Run(fs - {p.temp}, Raised(Body(fs, p, env).raised.value, None))
  {
    var body := Body(fs, p, env);
    if Perform(BackUp, fs, p, env).raised.None? {
      RaisedAfterBackup(fs, p, env);
      RollbackRestores(fs, p, body.fs, env);
    } else {
      BodySteps(fs, p, env);
      RollbackWithoutBackup(fs, p, env);
    }
  }

  /**
   When deleting the temporary file is refused in the handler (and no backup
   existed beforehand), the original is still put back, the temporary file
   stays behind with whatever the failed step left in it, and the refusal
   propagates with the step's exception as its context.
   */
  lemma CleanupFailureKeepsTemp(fs: FileSystem, p: Paths, env: Env)
    requires p.Distinct() && p.Backup() !in fs && !env.restoreRefused && env.cleanupRefused
    requires Body(fs, p, env).raised.Some? && p.temp in Body(fs, p, env).fs
    ensures Main(fs, p, env)
         == Run(fs[p.temp := Body(fs, p, env).fs[p.temp]],
                Raised(OsFailed(RemoveTemp, Refused), Some(Body(fs, p, env).raised.value)))
  {
    var body := Body(fs, p, env);
    if Perform(BackUp, fs, p, env).raised.None? {
      RaisedAfterBackup(fs, p, env);
      RollbackKeepsTemp(fs, p, body.fs, env);
    } else {
      BodySteps(fs, p, env);
      assert fs[p.temp := fs[p.temp]] == fs;
    }
  }

  /**
   A stale backup left by an earlier run makes the first rename fail, and the
   handler then overwrites the untouched original with that stale backup.
   */
  lemma StaleBackupOverwritesOriginal(fs: FileSystem, p: Paths, env: Env)
    requires p.Distinct() && p.original in fs && p.Backup() in fs
    requires !env.restoreRefused && !env.cleanupRefused
    ensures Main(fs, p, env)
         == Run(((fs - {p.Backup()})[p.original := fs[p.Backup()]]) - {p.temp},
                Raised(OsFailed(RenameToBackup, AlreadyExists), None))
  {
    BackupIsElsewhere(p);
    BodySteps(fs, p, env);
    var r := Rollback(fs, p, env).fs;
    assert forall q :: q in r <==> q in ((fs - {p.Backup()})[p.original := fs[p.Backup()]]) - {p.temp};
  }

  /** The state after the first `n` steps. */
  function Through(n: nat, fs: FileSystem, p: Paths, env: Env): Attempt
    requires p.Distinct() && n <= |Stages|
  {
    RunStages(Stages[..n], Attempt(fs, None), p, env)
  }

  /** Running two lists of steps one after the other is running their concatenation. */
  lemma {:induction false} RunStagesAppend(first: seq<Stage>, second: seq<Stage>, a: Attempt, p: Paths, env: Env)
    requires p.Distinct()
    ensures RunStages(first + second, a, p, env) == RunStages(second, RunStages(first, a, p, env), p, env)
  {
    if |first| == 0 {
      assert first + second == second;
    } else {
      assert (first + second)[1..] == first[1..] + second;
      assert (first + second)[0] == first[0];
      RunStagesAppend(first[1..], second, Then(a, first[0], p, env), p, env);
    }
  }

  /** One more step after the first `n`. */
  lemma ThroughStep(n: nat, fs: FileSystem, p: Paths, env: Env)
    requires p.Distinct() && n < |Stages|
    ensures Through(n + 1, fs, p, env) == Then(Through(n, fs, p, env), Stages[n], p, env)
  {
    assert Stages[..n + 1] == Stages[..n] + [Stages[n]];
    RunStagesAppend(Stages[..n], [Stages[n]], Attempt(fs, None), p, env);
  }

  /**
   When step `n` is the first to raise and the handler succeeds, `main`
   re-raises that step's exception with the original back in place.
   */
  lemma StageFailureRollsBack(n: nat, fs: FileSystem, p: Paths, env: Env, s: FileSystem, failure: Failure)
    requires p.Distinct() && p.Backup() !in fs && !env.restoreRefused && !env.cleanupRefused
    requires n < |Stages| && Through(n, fs, p, env) == Attempt(s, None)
    requires Perform(Stages[n], s, p, env).raised == Some(failure)
    ensures Main(fs, p, env) == Run(fs - {p.temp}, Raised(failure, None))
  {
    ReportsFirstFailure(n, fs, p, env);
    StepFrom(n, fs, p, env, s);
    RaisedStops(n + 1, fs, p, env);
    FailureRestoresOriginal(fs, p, env);
  }

  /** Once the first `n` steps have raised, the protected block ends there. */
  lemma RaisedStops(n: nat, fs: FileSystem, p: Paths, env: Env)
    requires p.Distinct() && n <= |Stages| && Through(n, fs, p, env).raised.Some?
    ensures Body(fs, p, env) == Through(n, fs, p, env)
  {
    assert Stages == Stages[..n] + Stages[n..];
    RunStagesAppend(Stages[..n], Stages[n..], Attempt(fs, None), p, env);
  }

  /**
   The exception `main` reports comes from the first step that raises: as the
   exception re-raised when the handler succeeds, as the context of the
   handler's own exception otherwise.
   */
  lemma ReportsFirstFailure(n: nat, fs: FileSystem, p: Paths, env: Env)
    requires p.Distinct() && n < |Stages|
    requires Through(n, fs, p, env).raised.None?
    requires Perform(Stages[n], Through(n, fs, p, env).fs, p, env).raised.Some?
    ensures var failure := Perform(Stages[n], Through(n, fs, p, env).fs, p, env).raised.value;
      || Main(fs, p, env).outcome == Raised(failure, None)
      || (Main(fs, p, env).outcome.Raised? && Main(fs, p, env).outcome.context == Some(failure))
  {
    ThroughStep(n, fs, p, env);
    assert Stages == Stages[..n + 1] + Stages[n + 1..];
    RunStagesAppend(Stages[..n + 1], Stages[n + 1..], Attempt(fs, None), p, env);
  }

  /** The backup and the encoder succeed: the original is in the backup and the output in the temporary file. */
  lemma ReachesTranscoded(fs: FileSystem, p: Paths, env: Env)
    requires p.Distinct() && p.original in fs && p.Backup() !in fs && !env.renameRefused && env.encoding.Encoded?
    ensures Through(2, fs, p, env)
         == Attempt((fs - {p.original})[p.Backup() := fs[p.original]][p.temp := env.encoding.output], None)
  {
    var fs1 := (fs - {p.original})[p.Backup() := fs[p.original]];
    assert Through(0, fs, p, env) == Attempt(fs, None);
    StepFrom(0, fs, p, env, fs);
    BackUpStep(fs, p, env);
    StepFrom(1, fs, p, env, fs1);
  }

  /** The steps up to tagging succeed, leaving the original in the backup and the tagged output in the temporary file. */
  lemma ReachesTagged(fs: FileSystem, p: Paths, env: Env)
    requires p.Distinct() && p.original in fs && p.Backup() !in fs && !env.renameRefused
    requires env.encoding.Encoded? && ProbeAccepts(env.probeStdout) && !env.tagRefused
    ensures var transcoded := (fs - {p.original})[p.Backup() := fs[p.original]][p.temp := env.encoding.output];
      Through(4, fs, p, env) == Attempt(transcoded[p.temp := Tagged(env.encoding.output)], None)
  {
    var fs2 := (fs - {p.original})[p.Backup() := fs[p.original]][p.temp := env.encoding.output];
    ReachesTranscoded(fs, p, env);
    StagesInOrder();
    StepFrom(2, fs, p, env, fs2);
    TagFrom(fs, p, env, fs2);
  }

  /** The tagging step after the first three, when these left the temporary file in place. */
  lemma TagFrom(fs: FileSystem, p: Paths, env: Env, s: FileSystem)
    requires p.Distinct() && Through(3, fs, p, env) == Attempt(s, None) && p.temp in s && !env.tagRefused
    ensures Through(4, fs, p, env) == Attempt(s[p.temp := Tagged(s[p.temp])], None)
  {
    StepFrom(3, fs, p, env, s);
    TagStep(s, p, env);
  }

  /** One more step after the first `n`, when these left the filesystem `s` and raised nothing. */
  lemma StepFrom(n: nat, fs: FileSystem, p: Paths, env: Env, s: FileSystem)
    requires p.Distinct() && n < |Stages| && Through(n, fs, p, env) == Attempt(s, None)
    ensures Through(n + 1, fs, p, env) == Perform(Stages[n], s, p, env)
  {
    ThroughStep(n, fs, p, env);
  }

  /** The backup step when the original exists, the backup does not, and the system accepts the rename. */
  lemma BackUpStep(fs: FileSystem, p: Paths, env: Env)
    requires p.Distinct() && p.original in fs && p.Backup() !in fs && !env.renameRefused
    ensures Perform(BackUp, fs, p, env) == Attempt((fs - {p.original})[p.Backup() := fs[p.original]], None)
  {
    BackupIsElsewhere(p);
  }

  /** The verification step when the checker rejects the probe output. */
  lemma VerifyStep(fs: FileSystem, p: Paths, env: Env, rejection: Probe.CheckError)
    requires p.Distinct() && env.probeStdout.Some? && Probe.Check(env.probeStdout.value) == Err(rejection)
    ensures Perform(Stages[2], fs, p, env) == Attempt(fs, Some(VerifyFailed(rejection)))
  {
    StagesInOrder();
  }

  /** The verification step when the probe could not be run. */
  lemma ProbeStep(fs: FileSystem, p: Paths, env: Env)
    requires p.Distinct() && env.probeStdout.None?
    ensures Perform(Stages[2], fs, p, env) == Attempt(fs, Some(ProbeFailed))
  {
    StagesInOrder();
  }

  /**
   The commands behind the transcoding and verification steps name the
   transaction's own paths: the encoder reads the backup and writes the
   temporary file with the intended settings, and the probe reads the
   temporary file.
   */
  lemma StepCommands(p: Paths)
    requires !Encode.IsOptionName(p.temp)
    ensures Encode.Parse(Encode.EncodeCommand(p.Backup(), p.temp)[1..]) == Some(Encode.Settings(p.Backup(), p.temp))
    ensures Probe.ProbeCommand(p.temp)[|Probe.ProbeCommand(p.temp)| - 1] == p.temp
  {
    Encode.CommandParses(p.Backup(), p.temp);
  }

  /** The steps of the protected block, by position. */
  lemma StagesInOrder()
    ensures |Stages| == 6
    ensures Stages[0] == BackUp && Stages[1] == Transcode && Stages[2] == Verify
    ensures Stages[3] == TagOutput && Stages[4] == Commit && Stages[5] == DiscardBackup
  {
  }

  /**
   Between the replacement of the original and the removal of the backup, the
   original path already holds the tagged output while the backup still holds
   the old content: both copies are on disk.
   */
  lemma CommitWindow(fs: FileSystem, p: Paths, env: Env)
    requires p.Distinct() && p.original in fs && p.Backup() !in fs && !env.renameRefused
    requires env.encoding.Encoded? && ProbeAccepts(env.probeStdout) && !env.tagRefused && !env.replaceRefused
    ensures var a := Through(5, fs, p, env);
      && a.raised.None?
      && p.original in a.fs && a.fs[p.original] == Tagged(env.encoding.output)
      && p.Backup() in a.fs && a.fs[p.Backup()] == fs[p.original]
      && p.temp !in a.fs
  {
    BackupIsElsewhere(p);
    ReachesTagged(fs, p, env);
    ThroughStep(4, fs, p, env);
    CommitStep(Through(4, fs, p, env).fs, p, env);
  }

  /**
   When removing the backup fails after the commit, the handler moves the old
   content back over the committed file: the tagged output is lost.
   */
  lemma RemoveFailureRevertsCommit(fs: FileSystem, p: Paths, env: Env)
    requires p.Distinct() && p.original in fs && p.Backup() !in fs && !env.renameRefused
    requires env.encoding.Encoded? && ProbeAccepts(env.probeStdout) && !env.tagRefused && !env.replaceRefused
    requires env.removeRefused && !env.restoreRefused && !env.cleanupRefused
    ensures var committed := Through(5, fs, p, env).fs;
      p.original in committed && committed[p.original] == Tagged(env.encoding.output)
    ensures Main(fs, p, env) == Run(fs - {p.temp}, Raised(OsFailed(RemoveBackup, Refused), None))
  {
    CommitWindow(fs, p, env);
    ThroughStep(5, fs, p, env);
    assert Stages[..6] == Stages;
    FailureRestoresOriginal(fs, p, env);
  }

  /** A refused replacement of the original still has the handler restore the backup and delete the output. */
  lemma ReplaceFailureStillRollsBack(fs: FileSystem, p: Paths, env: Env)
    requires p.Distinct() && p.original in fs && p.Backup() !in fs && !env.renameRefused
    requires env.encoding.Encoded? && ProbeAccepts(env.probeStdout) && !env.tagRefused
    requires env.replaceRefused && !env.restoreRefused && !env.cleanupRefused
    ensures Main(fs, p, env) == Run(fs - {p.temp}, Raised(OsFailed(ReplaceOriginal, Refused), None))
  {
    ReachesTagged(fs, p, env);
    ReportsFirstFailure(4, fs, p, env);
    FailureRestoresOriginal(fs, p, env);
  }

  /**
   When restoring the backup is refused, the handler stops there: the backup
   keeps the original's content, and the refusal propagates with the step's
   exception as its context.
   */
  lemma RestoreFailureKeepsBackup(fs: FileSystem, p: Paths, env: Env)
    requires p.Distinct() && Perform(BackUp, fs, p, env).raised.None?
    requires Body(fs, p, env).raised.Some? && env.restoreRefused
    ensures Main(fs, p, env)
         == Run(Body(fs, p, env).fs, Raised(OsFailed(RestoreOriginal, Refused), Some(Body(fs, p, env).raised.value)))
    ensures p.Backup() in Main(fs, p, env).fs && Main(fs, p, env).fs[p.Backup()] == fs[p.original]
  {
    RaisedAfterBackup(fs, p, env);
  }

  /**
   Rerunning the handler after it failed part-way, with its calls now
   succeeding, ends exactly where a single successful run of the handler would.
   */
  lemma RollbackRetry(s: FileSystem, p: Paths, first: Env, second: Env)
    requires p.Distinct() && !second.restoreRefused && !second.cleanupRefused
    ensures Rollback(Rollback(s, p, first).fs, p, second) == Rollback(s, p, second)
  {
    BackupIsElsewhere(p);
    var once := Rollback(s, p, second).fs;
    var twice := Rollback(Rollback(s, p, first).fs, p, second).fs;
    assert forall q :: q in twice <==> q in once;
  }

  /**
   The handler is idempotent: after it has succeeded, neither guarded path
   exists, so running it again calls nothing and changes nothing.
   */
  lemma RollbackIdempotent(s: FileSystem, p: Paths, env: Env, again: Env)
    requires p.Distinct() && Rollback(s, p, env).raised.None?
    ensures Rollback(Rollback(s, p, env).fs, p, again) == Attempt(Rollback(s, p, env).fs, None)
  {
  }

  /**
   The probe's exit status is never looked at: when it prints nothing at all,
   the output counts as verified and the transaction commits.
   */
  lemma SilentProbeCommits(fs: FileSystem, p: Paths, env: Env)
    requires p.Distinct() && p.original in fs && p.Backup() !in fs && !env.renameRefused
    requires env.encoding.Encoded? && env.probeStdout == Some("")
    requires !env.tagRefused && !env.replaceRefused && !env.removeRefused
    ensures Main(fs, p, env).outcome.Completed?
  {
    Probe.EmptyOutputPasses();
    CompletesExactly(fs, p, env);
  }

  /**
   An encoder that fails, whether or not it leaves a partial output behind,
   makes `main` re-raise its failure with the original back in place and
   neither the backup nor the temporary file left.
   */
  lemma TranscodeFailureRollsBack(fs: FileSystem, p: Paths, env: Env)
    requires p.Distinct() && p.original in fs && p.Backup() !in fs && !env.renameRefused
    requires env.encoding.EncodeFailed? && !env.restoreRefused && !env.cleanupRefused
    ensures Main(fs, p, env) == Run(fs - {p.temp}, Raised(TranscodeFailed, None))
  {
    var fs1 := (fs - {p.original})[p.Backup() := fs[p.original]];
    assert Through(0, fs, p, env) == Attempt(fs, None);
    StepFrom(0, fs, p, env, fs);
    BackUpStep(fs, p, env);
    StagesInOrder();
    StageFailureRollsBack(1, fs, p, env, fs1, TranscodeFailed);
  }

  /**
   A probe output the verifier rejects makes `main` re-raise that rejection,
   unchanged, with the original back in place (see `Probe.PixelFormatScenario`
   for a rejected 4:2:0 8-bit output).
   */
  lemma VerifyFailureRollsBack(fs: FileSystem, p: Paths, env: Env, rejection: Probe.CheckError)
    requires p.Distinct() && p.original in fs && p.Backup() !in fs && !env.renameRefused
    requires env.encoding.Encoded? && !env.restoreRefused && !env.cleanupRefused
    requires env.probeStdout.Some? && Probe.Check(env.probeStdout.value) == Err(rejection)
    ensures Main(fs, p, env) == Run(fs - {p.temp}, Raised(VerifyFailed(rejection), None))
  {
    var fs2 := (fs - {p.original})[p.Backup() := fs[p.original]][p.temp := env.encoding.output];
    ReachesTranscoded(fs, p, env);
    StepFrom(2, fs, p, env, fs2);
    VerifyStep(fs2, p, env, rejection);
    StageFailureRollsBack(2, fs, p, env, fs2, VerifyFailed(rejection));
  }

  /**
   A probe that cannot be run, or whose output cannot be decoded, raises out of
   the verification step like a rejection does: `main` re-raises it with the
   original back in place.
   */
  lemma ProbeFailureRollsBack(fs: FileSystem, p: Paths, env: Env)
    requires p.Distinct() && p.original in fs && p.Backup() !in fs && !env.renameRefused
    requires env.encoding.Encoded? && !env.restoreRefused && !env.cleanupRefused
    requires env.probeStdout.None?
    ensures Main(fs, p, env) == Run(fs - {p.temp}, Raised(ProbeFailed, None))
  {
    var fs2 := (fs - {p.original})[p.Backup() := fs[p.original]][p.temp := env.encoding.output];
    ReachesTranscoded(fs, p, env);
    StepFrom(2, fs, p, env, fs2);
    ProbeStep(fs2, p, env);
    StageFailureRollsBack(2, fs, p, env, fs2, ProbeFailed);
  }

  /**
   A tagging failure after a verified encode makes `main` re-raise it with
   the original back in place and the untagged output deleted.
   */
  lemma TagFailureRollsBack(fs: FileSystem, p: Paths, env: Env)
    requires p.Distinct() && p.original in fs && p.Backup() !in fs && !env.renameRefused
    requires env.encoding.Encoded? && ProbeAccepts(env.probeStdout) && env.tagRefused
    requires !env.restoreRefused && !env.cleanupRefused
    ensures Main(fs, p, env) == Run(fs - {p.temp}, Raised(TagFailed, None))
  {
    var fs2 := (fs - {p.original})[p.Backup() := fs[p.original]][p.temp := env.encoding.output];
    ReachesTranscoded(fs, p, env);
    StepFrom(2, fs, p, env, fs2);
    StagesInOrder();
    StageFailureRollsBack(3, fs, p, env, fs2, TagFailed);
  }
}
