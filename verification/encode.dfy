/**
 The transcoder invocation (`reencode_video`): the encoder's argument vector,
 read back the way the encoder reads it, and its agreement with the profile
 the verifier later checks. Running the encoder is outside the model.
 */
module Encode {
  import opened Results
  import Probe

  /** The encoder's argument vector for one input and one output path. */
  function EncodeCommand(input: string, output: string): (cmd: seq<string>)
    ensures |cmd| == 23 && cmd[0] == "ffmpeg" && cmd[|cmd| - 1] == output
  {
    ["ffmpeg",
     "-i", input,
     "-c:v", "libx265",
     "-pix_fmt", "yuv422p10le",
     "-color_primaries", "bt709",
     "-color_trc", "bt709",
     "-colorspace", "bt709",
     "-crf", "23",
     "-c:a", "aac",
     "-b:a", "192k",
     "-movflags", "+faststart",
     "-y",
     output]
  }

  /** One item of an encoder command line. */
  datatype Arg = Opt(name: string, value: string) | Switch(name: string) | Output(path: string)

  /** An argument the encoder reads as an option name: a dash followed by at least one character. */
  predicate IsOptionName(arg: string) {
    |arg| > 1 && arg[0] == '-'
  }

  /** The encoder's options that take no value (among those used here). */
  predicate IsSwitch(arg: string) {
    arg == "-y"
  }

  /**
   How the encoder reads an argument vector (program name removed): a switch
   stands alone, any other option name takes the next argument as its value,
   and anything else is an output path. A trailing option without a value is
   an error.
   */
  function Parse(args: seq<string>): (r: Option<seq<Arg>>)
    ensures r.Some? ==> Unparse(r.value) == args && forall i :: 0 <= i < |r.value| ==> Readable(r.value[i])
  {
    if |args| == 0 then Some([])
    else if IsSwitch(args[0]) then
      match Parse(args[1..])
      case None => None
      case Some(rest) =>
        UnparseCons(Switch(args[0]), rest);
        Some([Switch(args[0])] + rest)
    else if IsOptionName(args[0]) then
      if |args| < 2 then None
      else match Parse(args[2..])
        case None => None
        case Some(rest) =>
          UnparseCons(Opt(args[0], args[1]), rest);
          assert args == [args[0], args[1]] + args[2..];
          Some([Opt(args[0], args[1])] + rest)
    else
      match Parse(args[1..])
      case None => None
      case Some(rest) =>
        UnparseCons(Output(args[0]), rest);
        Some([Output(args[0])] + rest)
  }

  /** The words an item occupies on the command line. */
  function Words(a: Arg): seq<string> {
    match a
    case Opt(name, value) => [name, value]
    case Switch(name) => [name]
    case Output(path) => [path]
  }

  /** An item as the encoder would read it back: options look like options, outputs do not. */
  predicate Readable(a: Arg) {
    match a
    case Opt(name, _) => IsOptionName(name) && !IsSwitch(name)
    case Switch(name) => IsSwitch(name)
    case Output(path) => !IsOptionName(path)
  }

  /** Writing a list of items out as a command line. */
  function Unparse(items: seq<Arg>): seq<string> {
    if |items| == 0 then [] else Words(items[0]) + Unparse(items[1..])
  }

  /** Writing out an item in front of others puts its words in front. */
  lemma UnparseCons(a: Arg, rest: seq<Arg>)
    ensures Unparse([a] + rest) == Words(a) + Unparse(rest)
  {
    assert ([a] + rest)[1..] == rest;
  }

  /**
   Reading undoes writing: every list of readable items, written out as a
   command line, reads back as that list.
   */
  lemma {:induction false} ParseUnparse(items: seq<Arg>)
    requires forall i :: 0 <= i < |items| ==> Readable(items[i])
    ensures Parse(Unparse(items)) == Some(items)
  {
    if |items| > 0 {
      ParseUnparse(items[1..]);
      var rest := Unparse(items[1..]);
      assert Unparse(items) == Words(items[0]) + rest;
      assert items == [items[0]] + items[1..];
      match items[0]
      case Opt(name, value) =>
        assert IsOptionName("-y");
        ParseOption(name, value, rest, items[1..]);
      case Switch(name) =>
        ParseSwitch(name, rest, items[1..]);
      case Output(path) =>
        ParseOutput(path, rest, items[1..]);
    }
  }

  /** The settings the encoder is given, in command-line order. */
  function Settings(input: string, output: string): seq<Arg> {
    [Opt("-i", input),
     Opt("-c:v", "libx265"),
     Opt("-pix_fmt", "yuv422p10le"),
     Opt("-color_primaries", "bt709"),
     Opt("-color_trc", "bt709"),
     Opt("-colorspace", "bt709"),
     Opt("-crf", "23"),
     Opt("-c:a", "aac"),
     Opt("-b:a", "192k"),
     Opt("-movflags", "+faststart"),
     Switch("-y"),
     Output(output)]
  }

  /**
   Whatever the two paths are, the encoder reads the command as exactly the
   intended settings, as long as the output path does not itself look like an
   option.
   */
  lemma CommandParses(input: string, output: string)
    requires !IsOptionName(output)
    ensures Parse(EncodeCommand(input, output)[1..]) == Some(Settings(input, output))
  {
    assert IsOptionName("-y");
    var t: seq<string>, p: seq<Arg> := [], [];
    ParseOutput(output, t, p);
    t, p := [output] + t, [Output(output)] + p;
    ParseSwitch("-y", t, p);
    t, p := ["-y"] + t, [Switch("-y")] + p;
    ParseOption("-movflags", "+faststart", t, p);
    t, p := ["-movflags", "+faststart"] + t, [Opt("-movflags", "+faststart")] + p;
    ParseOption("-b:a", "192k", t, p);
    t, p := ["-b:a", "192k"] + t, [Opt("-b:a", "192k")] + p;
    ParseOption("-c:a", "aac", t, p);
    t, p := ["-c:a", "aac"] + t, [Opt("-c:a", "aac")] + p;
    ParseOption("-crf", "23", t, p);
    t, p := ["-crf", "23"] + t, [Opt("-crf", "23")] + p;
    ParseOption("-colorspace", "bt709", t, p);
    t, p := ["-colorspace", "bt709"] + t, [Opt("-colorspace", "bt709")] + p;
    ParseOption("-color_trc", "bt709", t, p);
    t, p := ["-color_trc", "bt709"] + t, [Opt("-color_trc", "bt709")] + p;
    ParseOption("-color_primaries", "bt709", t, p);
    t, p := ["-color_primaries", "bt709"] + t, [Opt("-color_primaries", "bt709")] + p;
    ParseOption("-pix_fmt", "yuv422p10le", t, p);
    t, p := ["-pix_fmt", "yuv422p10le"] + t, [Opt("-pix_fmt", "yuv422p10le")] + p;
    ParseOption("-c:v", "libx265", t, p);
    t, p := ["-c:v", "libx265"] + t, [Opt("-c:v", "libx265")] + p;
    ParseOption("-i", input, t, p);
    t, p := ["-i", input] + t, [Opt("-i", input)] + p;
    CommandSpelledOut(input, output);
    SettingsSpelledOut(input, output);
  }

  /** The command's arguments, spelled out as the reading lemmas build them. */
  lemma CommandSpelledOut(input: string, output: string)
    ensures EncodeCommand(input, output)[1..] == ["-i", input] + (["-c:v", "libx265"] + (["-pix_fmt", "yuv422p10le"] + (["-color_primaries", "bt709"] + (["-color_trc", "bt709"] + (["-colorspace", "bt709"] + (["-crf", "23"] + (["-c:a", "aac"] + (["-b:a", "192k"] + (["-movflags", "+faststart"] + (["-y"] + ([output] + [])))))))))))
  {
  }

  /** The settings, spelled out as the reading lemmas build them. */
  lemma SettingsSpelledOut(input: string, output: string)
    ensures Settings(input, output) == [Opt("-i", input)] + ([Opt("-c:v", "libx265")] + ([Opt("-pix_fmt", "yuv422p10le")] + ([Opt("-color_primaries", "bt709")] + ([Opt("-color_trc", "bt709")] + ([Opt("-colorspace", "bt709")] + ([Opt("-crf", "23")] + ([Opt("-c:a", "aac")] + ([Opt("-b:a", "192k")] + ([Opt("-movflags", "+faststart")] + ([Switch("-y")] + ([Output(output)] + [])))))))))))
  {
  }

  /** One step of reading: a switch followed by a readable remainder. */
  lemma ParseSwitch(name: string, rest: seq<string>, parsed: seq<Arg>)
    requires IsSwitch(name) && Parse(rest) == Some(parsed)
    ensures Parse([name] + rest) == Some([Switch(name)] + parsed)
  {
    assert ([name] + rest)[1..] == rest;
  }

  /** One step of reading: an output path followed by a readable remainder. */
  lemma ParseOutput(path: string, rest: seq<string>, parsed: seq<Arg>)
    requires !IsOptionName(path) && Parse(rest) == Some(parsed)
    ensures Parse([path] + rest) == Some([Output(path)] + parsed)
  {
    assert IsOptionName("-y");
    assert ([path] + rest)[1..] == rest;
  }

  /** One step of reading: a valued option followed by a readable remainder. */
  lemma ParseOption(name: string, value: string, rest: seq<string>, parsed: seq<Arg>)
    requires IsOptionName(name) && !IsSwitch(name) && Parse(rest) == Some(parsed)
    ensures Parse([name, value] + rest) == Some([Opt(name, value)] + parsed)
  {
    assert ([name, value] + rest)[2..] == rest;
  }

  /** The value given to option `name`, the last one winning as in the encoder. */
  function OptionValue(settings: seq<Arg>, name: string): (v: Option<string>)
    ensures v.Some? ==> exists i :: 0 <= i < |settings| && settings[i] == Opt(name, v.value)
    ensures v.None? ==> forall i :: 0 <= i < |settings| ==> !(settings[i].Opt? && settings[i].name == name)
  {
    if |settings| == 0 then None
    else match OptionValue(settings[1..], name)
      case Some(v) =>
        assert settings[1..][0] == settings[1];
        var i :| 0 <= i < |settings[1..]| && settings[1..][i] == Opt(name, v);
        assert settings[i + 1] == Opt(name, v);
        Some(v)
      case None =>
        assert forall i :: 1 <= i < |settings| ==> settings[i] == settings[1..][i - 1];
        if settings[0].Opt? && settings[0].name == name then Some(settings[0].value) else None
  }

  /** An option given at position `i` and never again afterwards determines its value. */
  lemma {:induction false} LastOptionWins(settings: seq<Arg>, i: nat, name: string, value: string)
    requires i < |settings| && settings[i] == Opt(name, value)
    requires forall j :: i < j < |settings| ==> !(settings[j].Opt? && settings[j].name == name)
    ensures OptionValue(settings, name) == Some(value)
  {
    var tail := settings[1..];
    if i == 0 {
      assert forall j :: 0 <= j < |tail| ==> tail[j] == settings[j + 1];
    } else {
      assert tail[i - 1] == settings[i];
      assert forall j :: i - 1 < j < |tail| ==> tail[j] == settings[j + 1];
      LastOptionWins(tail, i - 1, name, value);
    }
  }

  /** The stream codec name the verifier sees for each video encoder used here. */
  const CodecOfEncoder: map<string, string> := map["libx265" := "hevc"]

  /** The video encoder selected produces the codec the verifier expects. */
  lemma CodecMatchesProfile(input: string, output: string)
    ensures OptionValue(Settings(input, output), "-c:v") == Some("libx265")
    ensures CodecOfEncoder["libx265"] == Probe.Expected["codec_name"]
  {
    LastOptionWins(Settings(input, output), 1, "-c:v", "libx265");
    Probe.ExpectedValues();
  }

  /** The pixel format requested is the one the verifier expects. */
  lemma PixelFormatMatchesProfile(input: string, output: string)
    ensures OptionValue(Settings(input, output), "-pix_fmt") == Some(Probe.Expected["pix_fmt"])
  {
    LastOptionWins(Settings(input, output), 2, "-pix_fmt", "yuv422p10le");
    Probe.ExpectedValues();
  }

  /** The colour primaries requested are the ones the verifier expects. */
  lemma PrimariesMatchProfile(input: string, output: string)
    ensures OptionValue(Settings(input, output), "-color_primaries") == Some(Probe.Expected["color_primaries"])
  {
    LastOptionWins(Settings(input, output), 3, "-color_primaries", "bt709");
    Probe.ExpectedValues();
  }

  /** The transfer characteristic requested is the one the verifier expects. */
  lemma TransferMatchesProfile(input: string, output: string)
    ensures OptionValue(Settings(input, output), "-color_trc") == Some(Probe.Expected["color_transfer"])
  {
    LastOptionWins(Settings(input, output), 4, "-color_trc", "bt709");
    Probe.ExpectedValues();
  }

  /** The colour space requested is the one the verifier expects. */
  lemma ColourSpaceMatchesProfile(input: string, output: string)
    ensures OptionValue(Settings(input, output), "-colorspace") == Some(Probe.Expected["color_space"])
  {
    LastOptionWins(Settings(input, output), 5, "-colorspace", "bt709");
    Probe.ExpectedValues();
  }
}
