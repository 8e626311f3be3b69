# Re-encode Video: a Dafny model of `tools.py`

`tools.py` re-encodes one camera file to HEVC 4:2:2 10-bit with BT.709 colour,
checks the result with `ffprobe`, writes four MP4 tags and swaps the result in
for the original. A backup and a rollback handler protect the swap. This
project models the parts of that script that make decisions and proves what
they guarantee:

- **`Encode`**: the `ffmpeg` argument vector of `reencode_video`. The model
  reads it back the way the encoder reads options, and proves that the
  encoder is asked for exactly the profile that the verifier later demands.
  `Transaction.StepCommands` ties this command and the probe's command to the
  paths `main` passes them: the backup as input, the temporary file as output
  and as the file probed.
- **`Probe`**: `verify_encoding`. This covers the `ffprobe` argument vector
  and the check applied to the probe's standard output: `split('\n')`, then
  `strip()` and `split('=')` on each line, then the comparison with the
  expected table. The Python string operations are in `Text`.
- **`Tags`**: `update_metadata`. The tag mapping is merged with four fixed
  entries. One of them is the `bytes.fromhex` colour-profile payload; `Bytes`
  models `bytes.fromhex` and its inverse.
- **`Transaction`**: `main`. It is a state machine over a filesystem that maps
  paths to media files. It involves three paths: the original, the temporary
  output, and the original with `.bak` appended. Every effect that the script
  cannot control is a field of `Env`, so each of these failures can be chosen
  freely:
  - a rename, replace or remove refused by the operating system;
  - the encoder failing, with or without a partial output;
  - any probe output, or a probe that cannot be run or whose output cannot be
    decoded;
  - the tagging library failing;
  - the handler's own calls failing.

The handler's comment (tools.py:107) says it restores the original state on
error. The lemmas state what the code actually does, including where it falls
short of that:

- A failed `os.replace` of the original sends control to the handler, which
  restores the backup and deletes the output
  (`Transaction.ReplaceFailureStillRollsBack`).
- A failed `os.remove` of the backup after the commit also sends control to
  the handler. The handler moves the backup over the committed file, so the
  tagged output is lost (`Transaction.RemoveFailureRevertsCommit`).
- When a `.bak` from an earlier run exists, the first rename fails, and the
  handler then overwrites the untouched original with that stale backup. The
  original state is not restored here
  (`Transaction.StaleBackupOverwritesOriginal`).
- The original and the backup are both on disk between the replace and the
  remove (`Transaction.CommitWindow`).
- The probe's exit status is never looked at, and parameters missing from its
  output are not required. An empty output therefore passes, and the file is
  committed (`Probe.EmptyOutputPasses`, `Transaction.SilentProbeCommits`).
- A line with more than one `=` raises an unpacking error, not a verification
  mismatch (`Probe.LineError`).
- When a call in the handler fails, the caller sees the handler's own
  exception, with the step's exception only as its context. A refused restore
  also skips the deletion of the temporary file
  (`Transaction.RestoreFailureKeepsBackup`). A refused deletion of the
  temporary file leaves that file behind even though the original is back
  (`Transaction.CleanupFailureKeepsTemp`).

## Model

| member | source | states |
|---|---|---|
| Text.Strip | tools.py:58 | `str.strip()` returns the middle of the line between an all-white-space prefix and an all-white-space suffix, and that middle neither starts nor ends with white space; the count of each non-space character is unchanged |
| Text.StripSlice | tools.py:58 | trimming the left and then the right end leaves a part of the line framed by white space on both sides |
| Text.Split | tools.py:56 | `str.split(sep)` gives one piece more than there are separators, no piece contains the separator, and joining the pieces with the separator gives the input back |
| Text.SplitJoin | tools.py:56 | splitting undoes joining whenever no piece contains the separator |
| Bytes.FromHex | tools.py:76 | on success, `bytes.fromhex` gives one byte for every two characters that are not white space; any character that is neither white space nor a hexadecimal digit makes it fail |
| Bytes.FromHexToHex | tools.py:76 | `bytes.fromhex` reads the upper-case hexadecimal rendering of any byte string back to that byte string |
| Bytes.ToHexFromHex | tools.py:76 | every even-length string of upper-case hexadecimal digits is accepted by `bytes.fromhex`, and rendering the bytes gives the string back |
| Encode.EncodeCommand | tools.py:7-21 | the encoder's argument vector has 23 items, begins with `ffmpeg` and ends with the output path |
| Encode.Parse | tools.py:7-21 | whatever the encoder reads from a command line writes back out as that same command line, and every item read is an option, the switch or an output in the shape the reader expects |
| Encode.ParseUnparse | tools.py:7-21 | reading undoes writing: any list of well-shaped options, switches and outputs, written out as a command line, reads back as that list |
| Encode.CommandParses | tools.py:7-21 | for every input path and every output path that does not look like an option, the encoder reads the vector as exactly the intended settings in order: ten valued options, the `-y` switch, then the output |
| Encode.OptionValue | tools.py:9-18 | the value the encoder uses for an option is one given to that option in the command; when none is found, the option was never given |
| Encode.LastOptionWins | tools.py:9-18 | an option given at one position and never again afterwards takes that value |
| Encode.CodecMatchesProfile | tools.py:10 | the video encoder requested is `libx265`, whose stream codec is the `hevc` that the verifier expects (tools.py:33) |
| Encode.PixelFormatMatchesProfile | tools.py:11 | the pixel format requested is the one the verifier expects (tools.py:34) |
| Encode.PrimariesMatchProfile | tools.py:12 | the colour primaries requested are the ones the verifier expects (tools.py:36) |
| Encode.TransferMatchesProfile | tools.py:13 | the transfer characteristic requested is the one the verifier expects (tools.py:37) |
| Encode.ColourSpaceMatchesProfile | tools.py:14 | the colour space requested is the one the verifier expects (tools.py:35) |
| Probe.ProbeCommand | tools.py:40-47 | the probe's argument vector has ten items, begins with `ffprobe` and ends with the file's path |
| Probe.ProbeAsksForTrackedFields | tools.py:44 | the `-show_entries` argument requests exactly the keys of the expected table, each once |
| Probe.LineError | tools.py:57-60 | a line without `=` never raises; a line with `=` raises an unpacking error exactly when it has two or more `=`; a line with exactly one `=` splits into a key and a value and raises exactly what that pair raises; a mismatch names a tracked key with its literal value and its expected value, and `key=value` is the stripped line |
| Probe.PiecesOfLine | tools.py:58 | a stripped line splits on `=` into exactly two pieces exactly when the line has a single `=`, and the two pieces rebuild the stripped line around it |
| Probe.Check | tools.py:49-60 | the probe output passes exactly when none of its lines (split on newlines) raises; otherwise the error is the one raised by a line all of whose predecessors are silent, that is, by the first line that raises |
| Probe.FirstRaise | tools.py:56-60 | the loop passes exactly when no line raises; otherwise the error it reports is raised by some line, and every earlier line is silent |
| Probe.FirstRaiseReportsFirst | tools.py:56-60 | when several lines raise, the error reported is the first one's |
| Probe.SilentItemIrrelevant | tools.py:56-60 | inserting a line that does not raise anywhere in the output never changes the verdict |
| Probe.IgnoredLineIrrelevant | tools.py:57-59 | lines without `=`, and single-`=` lines whose key is not tracked, can be added anywhere without changing the verdict |
| Probe.EmptyOutputPasses | tools.py:49-56 | an empty probe output passes the check |
| Probe.EntryLineError | tools.py:58-60 | the line of a well-formed `key=value` entry raises exactly when the entry does not conform, and then it raises the mismatch of that key, its literal value and its expected value |
| Probe.ReportLines | tools.py:56 | splitting a probe report on newlines gives its entries' lines in order, followed by one empty piece |
| Probe.ReportLineErrors | tools.py:56-60 | each line of a well-formed report raises exactly when its entry does not conform; the final empty piece is silent |
| Probe.ReportAccepted | tools.py:56-60 | a well-formed report passes exactly when every entry in it conforms; tracked parameters missing from it are not required |
| Probe.ReportFirstMismatch | tools.py:56-60 | a report fails on its first non-conforming entry and quotes that entry's literal value and the expected one |
| Probe.PixelFormatScenario | tools.py:59-60 | a report of `pix_fmt=yuv420p` followed by a wrong colour space fails with the mismatch `(pix_fmt, yuv420p, yuv422p10le)` |
| Tags.ColorProfileRendering | tools.py:76 | the payload bytes `nclx`, six 1-bytes and a 0-byte render as the hexadecimal text in the source |
| Tags.ColorProfileDecodes | tools.py:76 | `bytes.fromhex` of the hexadecimal text in the source is the colour-profile payload |
| Tags.ColorProfileIsNclx | tools.py:76 | the payload is eleven bytes long and starts with the ASCII letters `nclx` |
| Tags.FixedTags | tools.py:71-76 | the tagger writes exactly four keys: `©too` with the tool text, and three free-form entries with payloads `4:2:2`, `10` and the colour profile |
| Tags.UpdateMetadata | tools.py:66-76 | the updated mapping has the old keys (none when the file had no tags) plus the four fixed keys, and each fixed key holds its fixed value |
| Tags.UpdateWritesFixedKeepsRest | tools.py:66-76 | after the update, the keys are the old keys plus the four fixed ones; the fixed keys hold the fixed values, and every other key keeps its old value |
| Tags.UpdateIsUnion | tools.py:66-76 | the update is the union of the old mapping and the fixed entries, and the fixed entries win on conflict |
| Tags.MissingTagsAreEmpty | tools.py:67-68 | a file without tags ends up with the same tags as a file with an empty tag mapping: exactly the fixed entries |
| Tags.UpdateIdempotent | tools.py:70-76 | tagging an already tagged file changes nothing |
| Transaction.Rename | tools.py:88 | the rename fails exactly when the source is missing, the destination exists, or the system refuses; on success the content moves, and nothing else changes |
| Transaction.Replace | tools.py:103 | the replace fails exactly when the source is missing or the system refuses; on success the content moves over any existing destination, and nothing else changes |
| Transaction.Remove | tools.py:104 | the remove fails exactly when the path is missing or the system refuses; on success only that path disappears |
| Transaction.Tagged | tools.py:99 | tagging a file keeps its streams and leaves it with a tag mapping that holds the four fixed keys |
| Transaction.Perform | tools.py:88-104 | no step touches any path but the original, the temporary file and the backup; verification changes nothing, raises exactly unless the probe ran and the check accepts its output, and raises `ProbeFailed` when the probe could not run |
| Transaction.Body | tools.py:85-104 | the protected block never touches a path other than the original, the temporary file and the backup |
| Transaction.RunStages | tools.py:85-104 | once a step has raised, the remaining steps change nothing; paths outside the transaction are never touched |
| Transaction.Rollback | tools.py:106-113 | the handler succeeds exactly when the restore and the deletion that it needs are accepted; on success neither the backup nor the temporary file is left, and the original holds the backup's content; a refused restore stops it with nothing changed; any other failure is a refused deletion of an existing temporary file, which then stays with its content while the backup is already back over the original (or, without a backup, nothing changed) |
| Transaction.CleanUp | tools.py:112-113 | the handler's deletion of the temporary file fails only when the system refuses it, and otherwise leaves no temporary file and changes nothing else |
| Transaction.Main | tools.py:85-114 | a run never touches paths outside the transaction, and when it re-raises a step's exception it leaves neither the backup nor the temporary file |
| Transaction.SuccessfulBody | tools.py:88-104 | when every step succeeds, the original path holds the tagged encoder output and neither the backup nor the temporary file remains |
| Transaction.CompletesExactly | tools.py:85-104 | a run completes exactly when the original exists, there is no stale backup, the encoder succeeds, the check passes, and the system and the tagging library accept every call |
| Transaction.SomeStepRaises | tools.py:85-104 | when any of those conditions fails, some step raises |
| Transaction.CompletedRun | tools.py:85-104 | after a completed run, the original path holds the tagged encoder output, neither the backup nor the temporary file remains, and nothing else changed |
| Transaction.StageKeepsBackup | tools.py:92-104 | no step except a successful removal of the backup disturbs the backup |
| Transaction.RaisedAfterBackup | tools.py:88-106 | when a step after the backup raises, the backup still holds the original's content when the handler starts |
| Transaction.RollbackRestores | tools.py:109-113 | starting from a state where the backup holds the original's content, a handler whose calls succeed brings back the filesystem from before the run, less the temporary file |
| Transaction.RollbackKeepsTemp | tools.py:109-113 | starting from a state where the backup holds the original's content, a handler whose deletion is refused brings back the filesystem from before the run except that the temporary file stays with its content |
| Transaction.RollbackWithoutBackup | tools.py:109-113 | when there is no backup, a handler whose calls succeed only deletes the temporary file |
| Transaction.FailureRestoresOriginal | tools.py:85-114 | whatever step fails, if there was no backup before the run and the handler's calls succeed, the run re-raises that step's exception and leaves the filesystem as it was before, less the temporary file |
| Transaction.StaleBackupOverwritesOriginal | tools.py:83-111 | when a backup already exists, the first rename fails and the handler overwrites the original with the stale backup |
| Transaction.ReportsFirstFailure | tools.py:106-114 | the exception of the first step that raises is either re-raised, or carried as the context of the handler's own exception |
| Transaction.StageFailureRollsBack | tools.py:106-114 | when step `n` is the first to raise and the handler's calls succeed, the run re-raises that step's exception with the original back in place |
| Transaction.StepCommands | tools.py:92-95 | the encoder's command, for a temporary path that does not look like an option, reads as the intended settings with the backup as input and the temporary file as output; the probe's command ends with the temporary file |
| Transaction.CommitWindow | tools.py:103-104 | after the replace and before the remove, the original path holds the tagged output while the backup still holds the old content |
| Transaction.RemoveFailureRevertsCommit | tools.py:103-111 | when the backup cannot be removed after the commit, the handler moves it back over the committed file, and the run ends as if the commit had never happened |
| Transaction.ReplaceFailureStillRollsBack | tools.py:103-113 | a refused replace of the original still makes the handler restore the backup and delete the output |
| Transaction.RestoreFailureKeepsBackup | tools.py:109-114 | a refused restore stops the handler before it deletes anything: the filesystem stays as the failed step left it, with the original's content in the backup, and the refusal propagates with the step's exception as its context |
| Transaction.CleanupFailureKeepsTemp | tools.py:106-114 | a refused deletion of the temporary file in the handler still puts the original back but leaves the temporary file as the failed step left it, and the refusal propagates with the step's exception as its context |
| Transaction.RollbackRetry | tools.py:109-113 | rerunning the handler after a partial failure, with its calls now accepted, ends exactly where a single successful run of the handler would |
| Transaction.RollbackIdempotent | tools.py:109-113 | after the handler has succeeded, running it again calls nothing and changes nothing |
| Transaction.SilentProbeCommits | tools.py:95 | when the probe prints nothing and every other call succeeds, the run completes and commits |
| Transaction.TranscodeFailureRollsBack | tools.py:92-114 | an encoder failure, with or without a partial output, is re-raised with the original back in place and neither the backup nor the temporary file left |
| Transaction.VerifyFailureRollsBack | tools.py:95-114 | a rejected probe output is re-raised as that exact rejection, with the original back in place and neither the backup nor the temporary file left |
| Transaction.ProbeFailureRollsBack | tools.py:95-114 | a probe that cannot be run, or whose output cannot be decoded (the call at tools.py:49), is re-raised with the original back in place and neither the backup nor the temporary file left |
| Transaction.TagFailureRollsBack | tools.py:99-114 | a tagging failure is re-raised with the original back in place and neither the backup nor the temporary file left |

## Left out

- Running `ffmpeg` and `ffprobe` (tools.py:24, tools.py:49) is not modelled. The encoder's result and the probe's standard output are parameters (`Env.encoding`, `Env.probeStdout`). `reencode_video` turns a non-zero exit status into `TranscodeFailed`. A probe that cannot be started or whose output is not valid text is `Env.probeStdout == None`; which of Python's exceptions it raises is not distinguished (`ProbeFailed`).
- The diagnostic `print` calls and the decoding of the encoder's `stderr` are not modelled, because they have no effect on files or on the outcome.
- Reading and saving the MP4 container with `mutagen` (tools.py:64, tools.py:78) is not modelled. A file's tag mapping is part of its `Media` value, and `video.save()` is treated as all-or-nothing. Any failure of the library is the single flag `Env.tagRefused`.
- Tags.TagValue only distinguishes text lists from free-form byte lists. The other MP4 value kinds never occur in what the tagger writes.
- Tags.TagValue does not model the data-format flag that `mutagen` stores with every free-form value. tools.py:72-76 builds each `MP4FreeForm` without a `dataformat`, so `mutagen`'s default, UTF-8 text, applies to all three free-form values. That includes the binary 11-byte colour profile, which is therefore flagged as text. `FreeForms` records only the bytes.
- Transaction.Rename fails when the destination exists. This is how `os.rename` behaves on Windows; on POSIX it silently overwrites, and the stale-backup outcome differs there.
- The fixed file names in `main` (tools.py:81-82) and the `__main__` guard are left out. The original and temporary paths are parameters, and the backup path is derived as in tools.py:83.
- Exceptions outside `Exception` (such as `KeyboardInterrupt`) are not modelled. They bypass the handler.
- Encode.Parse reads only the option shapes this command uses: `-y` stands alone, every other dash-led argument takes one value, and anything else is an output path. It is not a general `ffmpeg` command-line parser.
- Tags.UpdateMetadata: its contract gives the keys and the fixed values only. That every other key keeps its value is stated separately by `Tags.UpdateWritesFixedKeepsRest`, so that the quantifier does not weigh on every proof that tags a file.
- Transaction.Tagged: its contract gives the streams and the presence of the fixed keys only. The full merged mapping is the one `Tags.UpdateMetadata` computes; restating it on every tagged file slows the transaction proofs.
- Transaction.Body: its contract is only the frame condition. Its outcomes are stated by `Transaction.SuccessfulBody`, `Transaction.SomeStepRaises`, `Transaction.RaisedAfterBackup` and `Transaction.FailureRestoresOriginal`.
- Text.IsSpace models `str.isspace()` on single code points. Python's `str` is a sequence of code points, and so is Dafny's `string` here.
