/**
 * Merging the raw recordings (`mux_files_with_ffmpeg` in VideoRecorder.py):
 * check that the video, the audio and the timestamp list exist, derive the
 * true frame rate from the timestamps, run ffmpeg with that rate applied to the
 * video input, and remove the three temporary files when ffmpeg succeeds. The
 * encoder run itself is an outcome given as a parameter, and so is the
 * float-to-text conversion of the rate.
 */
module Muxer {
  import opened Wrappers
  import opened Storage

  /** What `subprocess.run(command, check=True, ...)` came to. */
  datatype EncoderResult = ExitedZero | ExitedNonZero(stdout: string, stderr: string) | ExecutableMissing

  datatype MuxOutcome =
    | MissingSource
    | TimestampsUnreadable
    | NoTimestamps
    | DegenerateTimestamps
    | Muxed
    | EncoderFailed(stdout: string, stderr: string)
      /** FileNotFoundError: ffmpeg missing, or a temporary file gone before its removal. */
    | FileNotFound

  datatype RateError = ZeroDivisionError | DegenerateLog

  /** Seconds between the first and the last timestamp. */
  function Span(ts: seq<real>): real
    requires |ts| >= 1
  {
    ts[|ts| - 1] - ts[0]
  }

  /**
   * The rate exactly as the code computes it, `len(timestamps) / video_duration`,
   * once the list is known to be non-empty: a zero span raises ZeroDivisionError
   * and a negative span gives a negative rate.
   */
  function RateAsWritten(ts: seq<real>): (r: Result<real, RateError>)
    requires |ts| >= 1
    ensures r.Err? <==> Span(ts) == 0.0
    ensures r.Ok? ==> r.value * Span(ts) == |ts| as real
  {
    if Span(ts) == 0.0 then Err(ZeroDivisionError) else Ok(|ts| as real / Span(ts))
  }

  /** A recording with one frame passes the emptiness check and then divides by zero. */
  lemma SingleTimestampDividesByZero(t: real)
    ensures RateAsWritten([t]) == Err(ZeroDivisionError)
  {
  }

  /** Two frames whose clock went backwards give ffmpeg a negative rate. */
  lemma BackwardClockGivesNegativeRate()
    ensures RateAsWritten([1.0, 0.5]) == Ok(-4.0)
  {
  }

  /**
   * The corrected frame rate: frames per second of recorded time, defined
   * only for at least two timestamps spanning a positive time.
   */
  function CorrectedRate(ts: seq<real>): (r: Result<real, RateError>)
    ensures r.Ok? <==> |ts| >= 2 && ts[|ts| - 1] - ts[0] > 0.0
    ensures r.Ok? ==> r.value > 0.0 && r.value * Span(ts) == |ts| as real
    ensures r.Err? ==> r.error == DegenerateLog
  {
    if |ts| < 2 || Span(ts) <= 0.0 then Err(DegenerateLog) else Ok(|ts| as real / Span(ts))
  }

  /** Where the code's rate is meaningful, the corrected rate is the same number. */
  lemma CorrectedRateAgreesWithCode(ts: seq<real>)
    requires |ts| >= 2 && Span(ts) > 0.0
    ensures CorrectedRate(ts) == RateAsWritten(ts)
  {
  }

  /** Playing the frames at the corrected rate lasts exactly as long as the recording did. */
  lemma PlaybackLastsTheRecordedSpan(ts: seq<real>)
    requires CorrectedRate(ts).Ok?
    ensures |ts| as real / CorrectedRate(ts).value == Span(ts)
  {
    var rate := CorrectedRate(ts).value;
    assert rate * Span(ts) == |ts| as real;
  }

  /** 280 frames over 9.6 seconds give 175/6 (about 29.17) frames per second, not the nominal 30. */
  lemma RateOfAShortSession(ts: seq<real>)
    requires |ts| == 280 && Span(ts) == 9.6
    ensures CorrectedRate(ts) == Ok(175.0 / 6.0)
  {
  }

  /** The encoding settings after the two inputs, as the program lists them. */
  const EncodingOptions: seq<string> :=
    ["-map", "0:v:0", "-map", "1:a:0", "-c:v", "libx264", "-crf", "23", "-preset", "veryfast",
     "-c:a", "aac", "-b:a", "192k", "-pix_fmt", "yuv420p", "-shortest", "-y"]

  /**
   * The ffmpeg command line; `rate` is the text of the corrected rate. ffmpeg
   * reads it as the video input with the rate, the audio input with no option,
   * and the encoding settings for the output.
   */
  function MuxCommand(rate: string, videoPath: string, audioPath: string, outputPath: string): (cmd: seq<string>)
    ensures ReadCommand(cmd) ==
      Some(Invocation([Input(["-r", rate], videoPath), Input([], audioPath)], EncodingOptions, outputPath))
  {
    EncodingOptionsOpenNoInput();
    ReadTwoInputCommand(rate, videoPath, audioPath, EncodingOptions, outputPath);
    ["ffmpeg"] + InputArgs(rate, videoPath, audioPath) + EncodingOptions + [outputPath]
  }

  /** The rate and the two inputs, in the order the program lists them. */
  function InputArgs(rate: string, videoPath: string, audioPath: string): seq<string> {
    ["-r", rate, "-i", videoPath, "-i", audioPath]
  }

  /** One input as ffmpeg reads it: the options given before its `-i`, and its path. */
  datatype Input = Input(options: seq<string>, path: string)

  datatype Invocation = Invocation(inputs: seq<Input>, outputOptions: seq<string>, output: string)

  /** The options of the command that take no value. */
  predicate IsSwitch(option: string) {
    option == "-shortest" || option == "-y"
  }

  /**
   * ffmpeg's reading of its arguments: options collect until an `-i` closes
   * them into that input; whatever is left after the last input belongs to
   * the output. A global switch such as `-y` acts wherever it stands, so
   * collecting it with the output's options only records that it opens no input.
   */
  function GroupArgs(args: seq<string>, pending: seq<string>, inputs: seq<Input>): Option<(seq<Input>, seq<string>)>
    decreases |args|
  {
    if args == [] then Some((inputs, pending))
    else if args[0] == "-i" then
      if |args| < 2 then None else GroupArgs(args[2..], [], inputs + [Input(pending, args[1])])
    else if IsSwitch(args[0]) then GroupArgs(args[1..], pending + [args[0]], inputs)
    else if |args| < 2 then None
    else GroupArgs(args[2..], pending + args[..2], inputs)
  }

  /** How ffmpeg reads a whole command line: program, options and inputs, then the output path. */
  function ReadCommand(cmd: seq<string>): Option<Invocation> {
    if |cmd| < 2 || cmd[0] != "ffmpeg" then None
    else match GroupArgs(cmd[1..|cmd| - 1], [], [])
      case None => None
      case Some((inputs, options)) => Some(Invocation(inputs, options, cmd[|cmd| - 1]))
  }

  lemma GroupInput(path: string, rest: seq<string>, pending: seq<string>, inputs: seq<Input>)
    ensures GroupArgs(["-i", path] + rest, pending, inputs) == GroupArgs(rest, [], inputs + [Input(pending, path)])
  {
    assert (["-i", path] + rest)[2..] == rest;
  }

  lemma GroupOption(option: string, value: string, rest: seq<string>, pending: seq<string>, inputs: seq<Input>)
    requires option != "-i" && !IsSwitch(option)
    ensures GroupArgs([option, value] + rest, pending, inputs) == GroupArgs(rest, pending + [option, value], inputs)
  {
    assert ([option, value] + rest)[2..] == rest;
    assert ([option, value] + rest)[..2] == [option, value];
  }

  /** Arguments made only of options, none of them `-i`: they open no input. */
  predicate OutputOptionsOnly(args: seq<string>)
    decreases |args|
  {
    if args == [] then true
    else if IsSwitch(args[0]) then OutputOptionsOnly(args[1..])
    else |args| >= 2 && args[0] != "-i" && OutputOptionsOnly(args[2..])
  }

  /** Options that open no input all end up with the output. */
  lemma {:induction false} OutputOptionsGoToOutput(args: seq<string>, pending: seq<string>, inputs: seq<Input>)
    requires OutputOptionsOnly(args)
    ensures GroupArgs(args, pending, inputs) == Some((inputs, pending + args))
    decreases |args|
  {
    if args == [] {
      assert pending + args == pending;
    } else if IsSwitch(args[0]) {
      OutputOptionsGoToOutput(args[1..], pending + [args[0]], inputs);
      assert pending + [args[0]] + args[1..] == pending + args;
    } else {
      OutputOptionsGoToOutput(args[2..], pending + args[..2], inputs);
      assert pending + args[..2] + args[2..] == pending + args;
    }
  }

  lemma OptionPairOpensNoInput(option: string, value: string, rest: seq<string>)
    requires option != "-i" && !IsSwitch(option) && OutputOptionsOnly(rest)
    ensures OutputOptionsOnly([option, value] + rest)
  {
    assert ([option, value] + rest)[2..] == rest;
  }

  lemma SwitchOpensNoInput(option: string, rest: seq<string>)
    requires IsSwitch(option) && OutputOptionsOnly(rest)
    ensures OutputOptionsOnly([option] + rest)
  {
    assert ([option] + rest)[1..] == rest;
  }

  lemma LastSettingsOpenNoInput()
    ensures OutputOptionsOnly(EncodingOptions[12..])
  {
    var o := EncodingOptions;
    assert o[18..] == [];
    SwitchOpensNoInput(o[17], o[18..]);
    assert o[17..] == [o[17]] + o[18..];
    SwitchOpensNoInput(o[16], o[17..]);
    assert o[16..] == [o[16]] + o[17..];
    OptionPairOpensNoInput(o[14], o[15], o[16..]);
    assert o[14..] == [o[14], o[15]] + o[16..];
    OptionPairOpensNoInput(o[12], o[13], o[14..]);
    assert o[12..] == [o[12], o[13]] + o[14..];
  }

  lemma MiddleSettingsOpenNoInput()
    ensures OutputOptionsOnly(EncodingOptions[6..])
  {
    var o := EncodingOptions;
    LastSettingsOpenNoInput();
    OptionPairOpensNoInput(o[10], o[11], o[12..]);
    assert o[10..] == [o[10], o[11]] + o[12..];
    OptionPairOpensNoInput(o[8], o[9], o[10..]);
    assert o[8..] == [o[8], o[9]] + o[10..];
    OptionPairOpensNoInput(o[6], o[7], o[8..]);
    assert o[6..] == [o[6], o[7]] + o[8..];
  }

  /** None of the encoding settings is an `-i`: they open no further input. */
  lemma EncodingOptionsOpenNoInput()
    ensures OutputOptionsOnly(EncodingOptions)
  {
    var o := EncodingOptions;
    MiddleSettingsOpenNoInput();
    OptionPairOpensNoInput(o[4], o[5], o[6..]);
    assert o[4..] == [o[4], o[5]] + o[6..];
    OptionPairOpensNoInput(o[2], o[3], o[4..]);
    assert o[2..] == [o[2], o[3]] + o[4..];
    OptionPairOpensNoInput(o[0], o[1], o[2..]);
    assert o == [o[0], o[1]] + o[2..];
  }

  /** Any command of the muxer's shape whose output options open no input. */
  lemma ReadTwoInputCommand(rate: string, videoPath: string, audioPath: string, options: seq<string>, outputPath: string)
    requires OutputOptionsOnly(options)
    ensures ReadCommand(["ffmpeg"] + InputArgs(rate, videoPath, audioPath) + options + [outputPath]) ==
      Some(Invocation([Input(["-r", rate], videoPath), Input([], audioPath)], options, outputPath))
  {
    var inputs := [Input(["-r", rate], videoPath), Input([], audioPath)];
    InputsComeFirst(rate, videoPath, audioPath, options);
    OutputOptionsGoToOutput(options, [], inputs);
    assert [] + options == options;
    var args := InputArgs(rate, videoPath, audioPath) + options;
    assert ["ffmpeg"] + InputArgs(rate, videoPath, audioPath) + options + [outputPath] == ["ffmpeg"] + args + [outputPath];
    ReadCommandParts(args, outputPath);
  }

  lemma ReadCommandParts(args: seq<string>, outputPath: string)
    ensures ReadCommand(["ffmpeg"] + args + [outputPath]) ==
      match GroupArgs(args, [], [])
      case None => None
      case Some((inputs, options)) => Some(Invocation(inputs, options, outputPath))
  {
    var cmd := ["ffmpeg"] + args + [outputPath];
    assert cmd[1..|cmd| - 1] == args;
  }

  lemma InputsComeFirst(rate: string, videoPath: string, audioPath: string, rest: seq<string>)
    ensures GroupArgs(InputArgs(rate, videoPath, audioPath) + rest, [], []) ==
      GroupArgs(rest, [], [Input(["-r", rate], videoPath), Input([], audioPath)])
  {
    var video, audio := Input(["-r", rate], videoPath), Input([], audioPath);
    var afterVideo := ["-i", audioPath] + rest;
    var afterRate := ["-i", videoPath] + afterVideo;
    assert InputArgs(rate, videoPath, audioPath) + rest == ["-r", rate] + afterRate;
    GroupOption("-r", rate, afterRate, [], []);
    assert [] + ["-r", rate] == ["-r", rate];
    GroupInput(videoPath, afterVideo, ["-r", rate], []);
    assert [] + [video] == [video];
    GroupInput(audioPath, rest, [], [video]);
    assert [video] + [audio] == [video, audio];
  }

  /** `os.remove` on each path in turn, stopping at the first one that is missing. */
  function RemoveInOrder(files: map<string, Content>, paths: seq<string>): (r: (map<string, Content>, bool))
    ensures r.0.Keys <= files.Keys
  {
    if paths == [] then (files, true)
    else if paths[0] !in files then (files, false)
    else RemoveInOrder(files - {paths[0]}, paths[1..])
  }

  /** One removal step, in the terms of `Disk.Remove`. */
  lemma RemoveStep(files: map<string, Content>, paths: seq<string>)
    requires paths != []
    ensures paths[0] in files ==> RemoveInOrder(files, paths) == RemoveInOrder(files - {paths[0]}, paths[1..])
    ensures paths[0] !in files ==> RemoveInOrder(files, paths) == (files - {paths[0]}, false)
  {
    if paths[0] !in files {
      assert files - {paths[0]} == files;
    }
  }

  /** Removal touches no file outside the list. */
  lemma {:induction false} RemoveInOrderKeepsOthers(files: map<string, Content>, paths: seq<string>, p: string)
    requires p in files && p !in paths
    ensures p in RemoveInOrder(files, paths).0 && RemoveInOrder(files, paths).0[p] == files[p]
    decreases |paths|
  {
    if paths != [] && paths[0] in files {
      assert paths == [paths[0]] + paths[1..];
      RemoveInOrderKeepsOthers(files - {paths[0]}, paths[1..], p);
    }
  }

  /** Removing distinct files that all exist removes exactly those files. */
  lemma {:induction false} RemoveDistinctPresent(files: map<string, Content>, paths: seq<string>)
    requires forall i :: 0 <= i < |paths| ==> paths[i] in files
    requires forall i, j :: 0 <= i < j < |paths| ==> paths[i] != paths[j]
    ensures RemoveInOrder(files, paths) == (files - set p | p in paths, true)
  {
    if paths != [] {
      var rest := files - {paths[0]};
      forall i | 0 <= i < |paths[1..]| ensures paths[1..][i] in rest {
        assert paths[1..][i] == paths[i + 1] != paths[0];
      }
      RemoveDistinctPresent(rest, paths[1..]);
      assert RemoveInOrder(files, paths) == RemoveInOrder(rest, paths[1..]);
      assert (set p | p in paths) == {paths[0]} + (set p | p in paths[1..]);
      assert rest - (set p | p in paths[1..]) == files - (set p | p in paths);
    } else {
      assert (set p | p in paths) == {};
      assert files - {} == files;
    }
  }

  /**
   * The whole muxing step on the file map: its outcome, the command given to
   * ffmpeg (None when ffmpeg is not started), and the files afterwards.
   */
  function MuxFiles(files: map<string, Content>, videoPath: string, audioPath: string, outputPath: string,
                    timestampPath: string, showRate: real -> string, encoder: EncoderResult)
    : (r: (MuxOutcome, Option<seq<string>>, map<string, Content>))
    // ffmpeg is not started exactly when one of the four guards returns early
    ensures r.1.None? <==> r.0 in {MissingSource, TimestampsUnreadable, NoTimestamps, DegenerateTimestamps}
    ensures r.0 == Muxed ==> r.1.Some? && encoder == ExitedZero
    // no file appears except the output
    ensures r.2.Keys <= files.Keys + {outputPath}
  {
    if videoPath !in files || audioPath !in files || timestampPath !in files then (MissingSource, None, files)
    else if !files[timestampPath].TimestampFile? then (TimestampsUnreadable, None, files)
    else
      var ts := files[timestampPath].times;
      if ts == [] then (NoTimestamps, None, files)
      else if CorrectedRate(ts).Err? then (DegenerateTimestamps, None, files)
      else
        var command := MuxCommand(showRate(CorrectedRate(ts).value), videoPath, audioPath, outputPath);
        match encoder
        case ExitedZero =>
          var (after, removed) :=
            RemoveInOrder(files[outputPath := EncodedFile(command)], [videoPath, audioPath, timestampPath]);
          (if removed then Muxed else FileNotFound, Some(command), after)
        case ExitedNonZero(out, err) => (EncoderFailed(out, err), Some(command), files)
        case ExecutableMissing => (FileNotFound, Some(command), files)
  }

  method MuxFilesWithFfmpeg(disk: Disk, videoPath: string, audioPath: string, outputPath: string,
                            timestampPath: string, showRate: real -> string, encoder: EncoderResult)
    returns (outcome: MuxOutcome, command: Option<seq<string>>)
    modifies disk
    ensures (outcome, command, disk.files) ==
      MuxFiles(old(disk.files), videoPath, audioPath, outputPath, timestampPath, showRate, encoder)
  {
    if videoPath !in disk.files || audioPath !in disk.files || timestampPath !in disk.files {
      return MissingSource, None;
    }
    if !disk.files[timestampPath].TimestampFile? {
      return TimestampsUnreadable, None;
    }
    var timestamps := disk.files[timestampPath].times;
    if timestamps == [] {
      return NoTimestamps, None;
    }
    var rate := CorrectedRate(timestamps);
    if rate.Err? {
      return DegenerateTimestamps, None;
    }
    var cmd := MuxCommand(showRate(rate.value), videoPath, audioPath, outputPath);
    command := Some(cmd);
    match encoder {
      case ExitedZero =>
        disk.Write(outputPath, EncodedFile(cmd));
        ghost var remaining := [videoPath, audioPath, timestampPath];
        ghost var expected := RemoveInOrder(disk.files, remaining);
        RemoveStep(disk.files, remaining);
        var ok := disk.Remove(videoPath);
        remaining := remaining[1..];
        if ok {
          RemoveStep(disk.files, remaining);
          ok := disk.Remove(audioPath);
          remaining := remaining[1..];
          if ok {
            RemoveStep(disk.files, remaining);
            ok := disk.Remove(timestampPath);
            remaining := remaining[1..];
            assert remaining == [];
          }
        }
        assert (disk.files, ok) == expected;
        outcome := if ok then Muxed else FileNotFound;
      case ExitedNonZero(out, err) =>
        outcome := EncoderFailed(out, err);
      case ExecutableMissing =>
        outcome := FileNotFound;
    }
  }

  /**
   * ffmpeg is started only when the video, the audio and a readable timestamp
   * list exist and the list has at least two entries spanning a positive time;
   * it then gets the corrected rate.
   */
  lemma EncoderRunsOnlyOnCompleteInputs(files: map<string, Content>, videoPath: string, audioPath: string,
                                        outputPath: string, timestampPath: string, showRate: real -> string,
                                        encoder: EncoderResult)
    ensures var (_, command, _) := MuxFiles(files, videoPath, audioPath, outputPath, timestampPath, showRate, encoder);
      command.Some? ==>
        videoPath in files && audioPath in files && timestampPath in files &&
        files[timestampPath].TimestampFile? &&
        var ts := files[timestampPath].times;
        CorrectedRate(ts).Ok? &&
        command.value == MuxCommand(showRate(CorrectedRate(ts).value), videoPath, audioPath, outputPath)
  {
  }

  /** When ffmpeg is not started, or fails, or cannot be found, every file stays as it was. */
  lemma FailureKeepsAllFiles(files: map<string, Content>, videoPath: string, audioPath: string,
                             outputPath: string, timestampPath: string, showRate: real -> string,
                             encoder: EncoderResult)
    ensures var (_, command, after) := MuxFiles(files, videoPath, audioPath, outputPath, timestampPath, showRate, encoder);
      (command.None? || !encoder.ExitedZero?) ==> after == files
  {
  }

  /**
   * On success with three distinct temporary files, exactly those three are
   * removed and the output file is present.
   */
  lemma SuccessRemovesExactlyTheTemporaries(files: map<string, Content>, videoPath: string, audioPath: string,
                                            outputPath: string, timestampPath: string, showRate: real -> string)
    requires videoPath != audioPath && videoPath != timestampPath && audioPath != timestampPath
    requires MuxFiles(files, videoPath, audioPath, outputPath, timestampPath, showRate, ExitedZero).1.Some?
    ensures var (outcome, command, after) := MuxFiles(files, videoPath, audioPath, outputPath, timestampPath, showRate, ExitedZero);
      outcome == Muxed &&
      after == files[outputPath := EncodedFile(command.value)] - {videoPath, audioPath, timestampPath}
  {
    var command := MuxFiles(files, videoPath, audioPath, outputPath, timestampPath, showRate, ExitedZero).1.value;
    var written := files[outputPath := EncodedFile(command)];
    var paths := [videoPath, audioPath, timestampPath];
    RemoveDistinctPresent(written, paths);
    assert (set p | p in paths) == {videoPath, audioPath, timestampPath};
  }

  /**
   * Muxing changes no file other than the output and the three temporaries,
   * so an earlier recording under another name survives it.
   */
  lemma MuxingKeepsOtherFiles(files: map<string, Content>, videoPath: string, audioPath: string,
                              outputPath: string, timestampPath: string, showRate: real -> string,
                              encoder: EncoderResult, p: string)
    requires p in files && p !in {videoPath, audioPath, timestampPath, outputPath}
    ensures var after := MuxFiles(files, videoPath, audioPath, outputPath, timestampPath, showRate, encoder).2;
      p in after && after[p] == files[p]
  {
    var (_, command, _) := MuxFiles(files, videoPath, audioPath, outputPath, timestampPath, showRate, encoder);
    if command.Some? && encoder.ExitedZero? {
      var written := files[outputPath := EncodedFile(command.value)];
      RemoveInOrderKeepsOthers(written, [videoPath, audioPath, timestampPath], p);
    }
  }
}
