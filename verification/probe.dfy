/**
 The verifier (`verify_encoding`): the probe command it runs and the check it
 applies to the probe's standard output. The probe itself is not run; its
 output is the argument of `Check`.
 */
module Probe {
  import opened Results
  import Text

  /** The stream parameters a compliant output must report, and their required values. */
  const Expected: map<string, string> := map[
    "codec_name" := "hevc",
    "pix_fmt" := "yuv422p10le",
    "color_space" := "bt709",
    "color_primaries" := "bt709",
    "color_transfer" := "bt709"
  ]

  /** The entries requested from the probe, in the order of its `-show_entries` argument. */
  const ProbeFields: seq<string> := ["codec_name", "pix_fmt", "color_space", "color_primaries", "color_transfer"]

  /** The expected profile, field by field. */
  lemma ExpectedValues()
    ensures Expected["codec_name"] == "hevc" && Expected["pix_fmt"] == "yuv422p10le"
    ensures Expected["color_space"] == "bt709" && Expected["color_primaries"] == "bt709"
    ensures Expected["color_transfer"] == "bt709"
  {
  }

  /** The probe's argument vector: first video stream only, plain `key=value` lines. */
  function ProbeCommand(path: string): (cmd: seq<string>)
    ensures |cmd| == 10 && cmd[0] == "ffprobe" && cmd[9] == path
  {
    ["ffprobe", "-v", "error", "-select_streams", "v:0",
     "-show_entries", "stream=" + Text.Join(ProbeFields, ','),
     "-of", "default=noprint_wrappers=1", path]
  }

  /** The probe is asked for exactly the tracked parameters, and for each of them once. */
  lemma ProbeAsksForTrackedFields(path: string)
    ensures ProbeCommand(path)[5] == "-show_entries"
    ensures var entries := ProbeCommand(path)[6];
      |entries| >= 7 && entries[..7] == "stream=" && Text.Split(entries[7..], ',') == ProbeFields
    ensures forall f :: f in ProbeFields <==> f in Expected
    ensures forall i, j :: 0 <= i < j < |ProbeFields| ==> ProbeFields[i] != ProbeFields[j]
  {
    var entries := ProbeCommand(path)[6];
    assert entries[7..] == Text.Join(ProbeFields, ',');
    Text.SplitJoin(ProbeFields, ',');
  }

  /** Why the checker raises: a tracked parameter with the wrong value, or a line that does not unpack into two pieces. */
  datatype CheckError =
    | Mismatch(key: string, actual: string, expected: string)
    | Unpack(pieces: nat)

  /**
   What one line of probe output raises, if anything: lines without `=` are
   skipped; the others are stripped and split on `=`, must give exactly a key
   and a value, and the value must be the expected one when the key is tracked.
   */
  function LineError(line: string): (e: Option<CheckError>)
    ensures '=' !in line ==> e.None?
    ensures '=' in line ==> (e.Some? && e.value.Unpack? <==> Text.Count(line, '=') >= 2)
    ensures Text.Count(line, '=') == 1 ==>
      var parts := Text.Split(Text.Strip(line), '=');
      |parts| == 2 && e == PairError(parts[0], parts[1])
    ensures e.Some? && e.value.Mismatch? ==>
      && e.value.key + "=" + e.value.actual == Text.Strip(line)
      && e.value.key in Expected
      && e.value.expected == Expected[e.value.key]
      && e.value.actual != e.value.expected
  {
    if '=' !in line then None
    else
      var parts := Text.Split(Text.Strip(line), '=');
      PiecesOfLine(line);
      if |parts| != 2 then Some(Unpack(|parts|))
      else
        PairError(parts[0], parts[1])
  }

  /** What a well-formed `key=value` pair raises: a mismatch when the key is tracked and the value is not the expected one. */
  function PairError(key: string, value: string): (e: Option<CheckError>)
    ensures e.Some? <==> key in Expected && Expected[key] != value
    ensures e.Some? ==> e.value == Mismatch(key, value, Expected[key])
  {
    if key in Expected && Expected[key] != value then Some(Mismatch(key, value, Expected[key]))
    else None
  }

  /** A stripped line with `=` splits into exactly two pieces when it has a single `=`, and they rebuild it. */
  lemma PiecesOfLine(line: string)
    requires '=' in line
    ensures Text.Count(line, '=') >= 1
    ensures var parts := Text.Split(Text.Strip(line), '=');
      && (|parts| == 2 <==> Text.Count(line, '=') == 1)
      && (|parts| == 2 ==> parts[0] + "=" + parts[1] == Text.Strip(line))
  {
    Text.CountPositive(line, '=');
    var stripped := Text.Strip(line);
    assert Text.Count(stripped, '=') == Text.Count(line, '=') by {
      assert !Text.IsSpace('=');
    }
    var parts := Text.Split(stripped, '=');
    assert |parts| == Text.Count(line, '=') + 1;
    if |parts| == 2 {
      Text.JoinPair(parts, '=');
    }
  }

  /** A line without `=` never raises. */
  lemma NoEqualsSilent(line: string)
    requires '=' !in line
    ensures LineError(line).None?
  {
  }

  /**
   The checking loop: walk the items in order and stop at the first one for
   which `raises` yields an error.
   */
  function FirstRaise<T, E(==)>(items: seq<T>, raises: T -> Option<E>): (r: Result<(), E>)
    ensures r.Ok? <==> forall i :: 0 <= i < |items| ==> raises(items[i]).None?
    ensures r.Err? ==> exists i :: 0 <= i < |items| && raises(items[i]) == Some(r.error)
                                 && forall j :: 0 <= j < i ==> raises(items[j]).None?
  {
    if |items| == 0 then Ok(())
    else match raises(items[0])
      case Some(e) => Err(e)
      case None =>
        var r := FirstRaise(items[1..], raises);
        assert forall i :: 1 <= i < |items| ==> items[i] == items[1..][i - 1];
        if r.Err? then
          var i :| 0 <= i < |items[1..]| && raises(items[1..][i]) == Some(r.error)
                   && forall j :: 0 <= j < i ==> raises(items[1..][j]).None?;
          assert raises(items[i + 1]) == Some(r.error);
          r
        else r
  }

  /** When several items raise, the error reported is the first one's. */
  lemma FirstRaiseReportsFirst<T, E>(items: seq<T>, raises: T -> Option<E>, i: nat)
    requires i < |items| && raises(items[i]).Some?
    requires forall j :: 0 <= j < i ==> raises(items[j]).None?
    ensures FirstRaise(items, raises) == Err(raises(items[i]).value)
  {
    var r := FirstRaise(items, raises);
    var k :| 0 <= k < |items| && raises(items[k]) == Some(r.error)
             && forall j :: 0 <= j < k ==> raises(items[j]).None?;
  }

  /**
   When every item but the last raises exactly where `ok` is false and the last
   never raises, the loop passes exactly when `ok` holds throughout.
   */
  lemma LastSilent<T, E>(items: seq<T>, raises: T -> Option<E>, ok: seq<bool>)
    requires |items| == |ok| + 1 && raises(items[|ok|]).None?
    requires forall i :: 0 <= i < |ok| ==> (raises(items[i]).None? <==> ok[i])
    ensures FirstRaise(items, raises).Ok? <==> forall i :: 0 <= i < |ok| ==> ok[i]
  {
    if forall i :: 0 <= i < |ok| ==> ok[i] {
      assert forall i :: 0 <= i < |items| ==> raises(items[i]).None?;
    } else {
      var i :| 0 <= i < |ok| && !ok[i];
      assert raises(items[i]).Some?;
    }
  }

  /** Items that never raise can be inserted anywhere without changing the outcome. */
  lemma {:induction false} SilentItemIrrelevant<T, E>(before: seq<T>, item: T, after: seq<T>, raises: T -> Option<E>)
    requires raises(item).None?
    ensures FirstRaise(before + [item] + after, raises) == FirstRaise(before + after, raises)
    decreases |before|
  {
    if |before| == 0 {
      assert before + [item] + after == [item] + after;
      assert ([item] + after)[1..] == after;
      assert before + after == after;
    } else {
      SilentItemIrrelevant(before[1..], item, after, raises);
      assert (before + [item] + after)[1..] == before[1..] + [item] + after;
      assert (before + after)[1..] == before[1..] + after;
      assert (before + [item] + after)[0] == before[0] == (before + after)[0];
    }
  }

  /**
   `verify_encoding` applied to the probe's standard output (its exit status is
   never looked at): the output passes exactly when none of its lines raises,
   and otherwise fails with the error of the first line that raises.
   */
  function Check(stdout: string): (r: Result<(), CheckError>)
    ensures var lines := Text.Split(stdout, '\n');
      && (r.Ok? <==> forall i :: 0 <= i < |lines| ==> LineError(lines[i]).None?)
      && (r.Err? ==> exists i :: 0 <= i < |lines| && LineError(lines[i]) == Some(r.error)
                                && forall j :: 0 <= j < i ==> LineError(lines[j]).None?)
  {
    CheckLines(stdout);
    FirstRaise(Text.Split(stdout, '\n'), LineError)
  }

  /** The checking loop over the lines of `stdout`, stated line by line. */
  lemma CheckLines(stdout: string)
    ensures var lines := Text.Split(stdout, '\n');
      var r := FirstRaise(lines, LineError);
      && (r.Ok? <==> forall i :: 0 <= i < |lines| ==> LineError(lines[i]).None?)
      && (r.Err? ==> exists i :: 0 <= i < |lines| && LineError(lines[i]) == Some(r.error)
                                && forall j :: 0 <= j < i ==> LineError(lines[j]).None?)
  {
    FirstRaiseLines(Text.Split(stdout, '\n'));
  }

  /** `FirstRaise`'s contract with `LineError` in the place of the generic test. */
  lemma FirstRaiseLines(lines: seq<string>)
    ensures var r := FirstRaise(lines, LineError);
      && (r.Ok? <==> forall i :: 0 <= i < |lines| ==> LineError(lines[i]).None?)
      && (r.Err? ==> exists i :: 0 <= i < |lines| && LineError(lines[i]) == Some(r.error)
                                && forall j :: 0 <= j < i ==> LineError(lines[j]).None?)
  {
  }

  /** A line is ignored when it has no `=` or when its single `=` follows a key that is not tracked. */
  predicate Ignored(line: string) {
    '=' !in line || (Text.Count(line, '=') == 1 && Text.Split(Text.Strip(line), '=')[0] !in Expected)
  }

  /** Ignored lines can be inserted anywhere in the probe output without changing the verdict. */
  lemma IgnoredLineIrrelevant(before: seq<string>, line: string, after: seq<string>)
    requires Ignored(line)
    ensures FirstRaise(before + [line] + after, LineError) == FirstRaise(before + after, LineError)
  {
    SilentItemIrrelevant(before, line, after, LineError);
  }

  /** Empty probe output (for instance when the probe failed) passes: no parameter is required to appear. */
  lemma EmptyOutputPasses()
    ensures Check("") == Ok(())
  {
    assert Text.Split("", '\n') == [""];
  }

  /** A `key=value` entry exactly as the probe's default writer prints it. */
  predicate PlainEntry(entry: (string, string)) {
    && '=' !in entry.0 && '=' !in entry.1
    && '\n' !in entry.0 && '\n' !in entry.1
    && (|entry.0| > 0 ==> !Text.IsSpace(entry.0[0]))
    && (|entry.1| > 0 ==> !Text.IsSpace(entry.1[|entry.1| - 1]))
  }

  /** The probe's output for a list of entries: one `key=value` line each, each ended by a newline. */
  function Report(entries: seq<(string, string)>): string {
    if |entries| == 0 then ""
    else entries[0].0 + "=" + entries[0].1 + "\n" + Report(entries[1..])
  }

  /** An entry satisfies the expected profile: untracked, or carrying the expected value. */
  predicate Conforms(entry: (string, string)) {
    entry.0 in Expected ==> Expected[entry.0] == entry.1
  }

  /** A plain entry's line raises exactly when the entry does not conform, and then names its key and value. */
  lemma EntryLineError(entry: (string, string))
    requires PlainEntry(entry)
    ensures LineError(entry.0 + "=" + entry.1)
         == if Conforms(entry) then None else Some(Mismatch(entry.0, entry.1, Expected[entry.0]))
  {
    PlainLine(entry);
    TwoPieces(entry.0 + "=" + entry.1, entry.0, entry.1);
    PairConforms(entry);
  }

  /** A pair raises exactly when it does not conform. */
  lemma PairConforms(entry: (string, string))
    ensures PairError(entry.0, entry.1)
         == if Conforms(entry) then None else Some(Mismatch(entry.0, entry.1, Expected[entry.0]))
  {
  }

  /** A line that strips and splits into exactly a key and a value raises what that pair raises. */
  lemma TwoPieces(line: string, key: string, value: string)
    requires '=' in line && Text.Split(Text.Strip(line), '=') == [key, value]
    ensures LineError(line) == PairError(key, value)
  {
  }

  /** A plain entry's line has an `=`, survives stripping, and splits back into the key and the value. */
  lemma PlainLine(entry: (string, string))
    requires PlainEntry(entry)
    ensures var line := entry.0 + "=" + entry.1;
      && '=' in line && Text.Strip(line) == line && Text.Split(line, '=') == [entry.0, entry.1]
  {
    var (key, value) := entry;
    var line := key + "=" + value;
    assert Text.Split(line, '=') == [key, value] by {
      Text.JoinTwo(key, value, '=');
      Text.SplitJoin([key, value], '=');
    }
    assert Text.Strip(line) == line by {
      assert line[0] == if |key| > 0 then key[0] else '=';
      assert line[|line| - 1] == if |value| > 0 then value[|value| - 1] else '=';
      Text.StripUnchanged(line);
    }
    assert line[|key|] == '=';
  }

  /** The lines of a report are its entries' lines followed by the empty piece after the last newline. */
  lemma {:induction false} ReportLines(entries: seq<(string, string)>)
    requires forall i :: 0 <= i < |entries| ==> PlainEntry(entries[i])
    ensures var lines := Text.Split(Report(entries), '\n');
      && |lines| == |entries| + 1
      && lines[|entries|] == ""
      && forall i :: 0 <= i < |entries| ==> lines[i] == entries[i].0 + "=" + entries[i].1
  {
    if |entries| == 0 {
      assert Text.Split("", '\n') == [""];
    } else {
      var e := entries[0];
      ReportLines(entries[1..]);
      assert Report(entries) == (e.0 + "=" + e.1) + ['\n'] + Report(entries[1..]);
      Text.SplitCons(e.0 + "=" + e.1, '\n', Report(entries[1..]));
    }
  }

  /** What each line of a well-formed report raises: nothing for a conforming entry or the final empty piece, the entry's mismatch otherwise. */
  lemma ReportLineErrors(entries: seq<(string, string)>)
    requires forall i :: 0 <= i < |entries| ==> PlainEntry(entries[i])
    ensures var lines := Text.Split(Report(entries), '\n');
      && |lines| == |entries| + 1
      && lines[|entries|] == ""
      && forall i :: 0 <= i < |entries| ==>
           LineError(lines[i]) == if Conforms(entries[i]) then None
                                  else Some(Mismatch(entries[i].0, entries[i].1, Expected[entries[i].0]))
  {
    ReportLines(entries);
    var lines := Text.Split(Report(entries), '\n');
    forall i | 0 <= i < |entries|
      ensures LineError(lines[i]) == if Conforms(entries[i]) then None
                                     else Some(Mismatch(entries[i].0, entries[i].1, Expected[entries[i].0]))
    {
      EntryLineError(entries[i]);
    }
  }

  /** A well-formed report passes exactly when every entry conforms; absent parameters are not required. */
  lemma ReportAccepted(entries: seq<(string, string)>)
    requires forall i :: 0 <= i < |entries| ==> PlainEntry(entries[i])
    ensures Check(Report(entries)).Ok? <==> forall i :: 0 <= i < |entries| ==> Conforms(entries[i])
  {
    ReportLineErrors(entries);
    LinesAccepted(Text.Split(Report(entries), '\n'), entries);
  }

  /** The step of `ReportAccepted` that only concerns the per-line verdicts. */
  lemma LinesAccepted(lines: seq<string>, entries: seq<(string, string)>)
    requires |lines| == |entries| + 1 && lines[|entries|] == ""
    requires forall i :: 0 <= i < |entries| ==> (LineError(lines[i]).None? <==> Conforms(entries[i]))
    ensures FirstRaise(lines, LineError).Ok? <==> forall i :: 0 <= i < |entries| ==> Conforms(entries[i])
  {
    NoEqualsSilent(lines[|entries|]);
    var ok := seq(|entries|, i requires 0 <= i < |entries| => Conforms(entries[i]));
    LastSilent(lines, LineError, ok);
  }

  /** A report with non-conforming entries fails on the first of them, quoting its literal value and the expected one. */
  lemma ReportFirstMismatch(entries: seq<(string, string)>, i: nat)
    requires forall k :: 0 <= k < |entries| ==> PlainEntry(entries[k])
    requires i < |entries| && !Conforms(entries[i])
    requires forall j :: 0 <= j < i ==> Conforms(entries[j])
    ensures Check(Report(entries)) == Err(Mismatch(entries[i].0, entries[i].1, Expected[entries[i].0]))
  {
    ReportLineErrors(entries);
    var lines := Text.Split(Report(entries), '\n');
    FirstRaiseReportsFirst(lines, LineError, i);
  }

  /** A 4:2:0 8-bit output is rejected on its pixel format, even though a later line is wrong too. */
  lemma PixelFormatScenario(entries: seq<(string, string)>)
    requires entries == [("codec_name", "hevc"), ("pix_fmt", "yuv420p"), ("color_space", "bt601")]
    ensures Check(Report(entries)) == Err(Mismatch("pix_fmt", "yuv420p", "yuv422p10le"))
  {
    assert PlainEntry(entries[0]) && PlainEntry(entries[1]) && PlainEntry(entries[2]);
    ExpectedValues();
    assert Expected[entries[1].0] == "yuv422p10le";
    ReportFirstMismatch(entries, 1);
  }
}
