# VideoRecorder in Dafny

A model of the core of VideoRecorder, a screen and system-audio recorder. The user picks a screen
rectangle in a translucent window. Two threads then capture it:

- the video thread grabs frames and notes the clock instant of each one;
- the audio thread pulls fixed-size blocks from the loopback device of the default speaker.

When the user stops the recording, the program does three things:

- it picks an output name that no existing file has;
- it derives the true frame rate from the timestamp list;
- it runs ffmpeg with that rate on the video input, then removes the three temporary files.

The modules follow the program's parts:

| module | models |
|---|---|
| `Wrappers` | `Option` and `Result` |
| `Text` | `str.strip()`, `str.lower()` and the substring test `a in b` on ASCII |
| `Decimal` | `str(n)` and `int(s)` |
| `Loopback` | the screen recorder's `find_loopback_device`; it has no fallback |
| `AudioRecorder` | the stand-alone recorder's `find_loopback_device`, with its `best_match` fallback; a method with a loop, proved against a reference function |
| `FileNames` | `os.path.splitext` and `get_next_available_filename`; a method with the source's `while True` loop |
| `Geometry` | reading Tk's `"WxH+X+Y"` into the capture region, and the 100-pixel clamp of the resize handle |
| `Storage` | the working directory as a `Disk` class: a map from file name to content, with `Write` and `Remove` |
| `VideoCapture` | `record_video`: a `VideoWriter` class and the capture loop as a method |
| `AudioCapture` | `record_audio`: the `StopFlag` class (`threading.Event`) and the block loop as a method |
| `Muxer` | `mux_files_with_ffmpeg`: the input guards, the rate, the command line (and how ffmpeg reads it), the encoder outcome and the cleanup |
| `Session` | the `__main__` tail: unique output name, then muxing |

Things outside the program become parameters:

- the clock and grab results of each capture pass;
- the audio blocks pulled;
- whether the recorder opens;
- whether the JSON dump succeeds;
- ffmpeg's outcome;
- the float-to-text conversion of the rate.

The stop flag is the end of the sequence of passes: the passes given are those before the loop saw the flag set.

Some of the program's behaviour is easy to misread. The model follows the code:

- The screen recorder's device search has no substring fallback. Only the stand-alone recorder's does.
- A failing audio pull ends the capture. It sets the stop flag and writes nothing; it is not skipped.
- A timestamp list with one entry, or with a span that is zero or negative, is not rejected by the code. See Findings.
- The corrected rate is used by the muxing model.
- An `os.remove` that finds its file gone raises FileNotFoundError. The handler meant for a missing ffmpeg catches it. The model reports this as `FileNotFound` and leaves the files after the failed removal as they are.

## Model

| member | source | states |
|---|---|---|
| Text.TrimStartRemovesLeadingSpace | VideoRecorder/VideoRecorder.py:129 | `strip()` drops a prefix made only of whitespace, and all of it: what remains does not start with whitespace |
| Text.TrimEndRemovesTrailingSpace | VideoRecorder/VideoRecorder.py:133 | `strip()` drops a suffix made only of whitespace, and all of it: what remains does not end with whitespace |
| Text.ContainsIffOccurs | VideoRecorder/VideoRecorder.py:137 | the substring test `Contains` (the left-to-right scan standing for `in`) holds exactly when the needle occurs at some offset of the name |
| Text.ContainsGivesOffset | VideoRecorder/VideoRecorder.py:137 | a successful substring test names an offset where the needle occurs |
| Text.OccursImpliesContains | VideoRecorder/VideoRecorder.py:137 | an occurrence at any offset makes the substring test succeed |
| Text.NormalisedNameIsClean | VideoRecorder/VideoRecorder.py:129-133 | `Normalise` (`strip().lower()`) gives a name no longer than the original, with no whitespace at either end and no upper-case ASCII letter |
| Text.NormaliseIsIdempotent | VideoRecorder/VideoRecorder.py:129-133 | normalising a normalised name changes nothing |
| Text.ContainsSelf | VideoRecorder/AudioRecorder.py:35-39 | a name contains itself, so an exact match is also a substring match |
| Decimal.NatToString | VideoRecorder/VideoRecorder.py:326 | the printed counter is a non-empty run of digits with no leading zero |
| Decimal.DigitsValueOfNatToString | VideoRecorder/VideoRecorder.py:326 | the printed counter reads back as the counter |
| Decimal.NatToStringInjective | VideoRecorder/VideoRecorder.py:326 | different counters print differently |
| Decimal.ParseInt | VideoRecorder/VideoRecorder.py:269-272 | `int()` accepts exactly an optional sign followed by at least one digit |
| Decimal.ParseIntOfIntToString | VideoRecorder/VideoRecorder.py:269-272 | `int(str(i)) == i` for every integer |
| Loopback.FindFrom | VideoRecorder/VideoRecorder.py:132-142 | the scan from a position returns the first preferred device from there on, or None when none from there on is preferred |
| Loopback.FindLoopbackDevice | VideoRecorder/VideoRecorder.py:123-142 | the result is the first device in list order whose normalised name equals the normalised speaker name, or contains it together with "monitor" or "mix"; None if and only if no device is such; no fallback |
| Loopback.ExactMatchIsFound | VideoRecorder/VideoRecorder.py:136-138 | a device with the speaker's exact normalised name guarantees a result at or before it |
| Loopback.ExactNameListedFirstWins | VideoRecorder/VideoRecorder.py:132-138 | with the exact name listed before its monitor device, the exact name is chosen |
| AudioRecorder.LastContaining | VideoRecorder/AudioRecorder.py:39-44 | `best_match` after the first n devices: the last of them whose name contains the speaker name, or None when none does |
| AudioRecorder.FindLoopbackDevice | VideoRecorder/AudioRecorder.py:15-47 | the loop returns the reference choice: the first preferred device, else the last plain substring match; any result contains the speaker name; None if and only if no name contains it |
| AudioRecorder.PreferredContains | VideoRecorder/AudioRecorder.py:34-42 | every device returned at once (exact or marker match) contains the speaker name |
| AudioRecorder.FirstPreferredWins | VideoRecorder/AudioRecorder.py:31-42 | priority is per device in list order: the first preferred device is returned, so an earlier monitor/mix device beats a later exact match and an earlier exact match beats a later monitor device |
| AudioRecorder.LastPlainMatchWins | VideoRecorder/AudioRecorder.py:38-47 | with no preferred device, the last device whose name contains the speaker name is returned |
| AudioRecorder.FallbackNoneIff | VideoRecorder/AudioRecorder.py:29-47 | the result is None exactly when no device name contains the speaker name |
| AudioRecorder.FallbackExtendsSearch | VideoRecorder/AudioRecorder.py:31-47 | whenever the screen recorder's search finds a device, both searches return it; otherwise the fallback's result is a plain, unpreferred substring match |
| FileNames.LastDot | VideoRecorder/VideoRecorder.py:318 | the position of the last dot, or -1 when there is none |
| FileNames.SplitExt | VideoRecorder/VideoRecorder.py:318 | `splitext` splits the name into stem + extension; the extension starts at the last dot and holds no other dot; it is non-empty exactly when a non-dot character comes before some dot |
| FileNames.Candidate | VideoRecorder/VideoRecorder.py:325-326 | the k-th alternative name is never the base name and is longer than it by the underscore and the digits of k |
| FileNames.CandidateInjective | VideoRecorder/VideoRecorder.py:326 | different counters give different names |
| FileNames.GetNextAvailableFilename | VideoRecorder/VideoRecorder.py:304-333 | the result is not an existing name; it is the base name when that is free, otherwise `stem_k + ext` for the smallest k >= 1 that is free; the loop ends because each try eliminates one existing name |
| FileNames.NextAvailableIsUnique | VideoRecorder/VideoRecorder.py:306-333 | that specification admits exactly one name |
| FileNames.SplitOutputName | VideoRecorder/VideoRecorder.py:317-318 | "output.mp4" splits into "output" and ".mp4" |
| FileNames.OutputExample | VideoRecorder/VideoRecorder.py:306-333 | with "output.mp4" and "output_1.mp4" present the answer is "output_2.mp4" and nothing else |
| Geometry.Split | VideoRecorder/VideoRecorder.py:268 | `split` always yields at least one piece |
| Geometry.SplitPiece | VideoRecorder/VideoRecorder.py:268-272 | a text without the separator splits into itself |
| Geometry.SplitAtSeparator | VideoRecorder/VideoRecorder.py:268-272 | splitting at the first separator yields the text before it followed by the pieces of the rest |
| Geometry.ParseGeometry | VideoRecorder/VideoRecorder.py:267-274 | a region comes out exactly when there is a part after the 'x', that part has at least three '+' fields, and all four fields are integers; width is read from W, height from H, left from X and top from Y; an unreadable width is a ValueError whatever follows |
| Geometry.ParseFormattedGeometry | VideoRecorder/VideoRecorder.py:267-274 | reading Tk's "WxH+X+Y" of a window gives width W, height H, left X and top Y (top from the Y field, left from the X field) |
| Geometry.SizeWithoutPositionFails | VideoRecorder/VideoRecorder.py:267-271 | a geometry with a size but no position raises IndexError |
| Geometry.ResizeDimension | VideoRecorder/VideoRecorder.py:386-387 | the new dimension is at least 100 and at least start + delta, and is one of the two |
| Geometry.Resize | VideoRecorder/VideoRecorder.py:383-388 | the resized window is at least 100 by 100 |
| Geometry.ResizeFollowsCursor | VideoRecorder/VideoRecorder.py:384-388 | while start + delta >= 100 in both directions, the size is exactly start + delta |
| Geometry.ResizedWindowGivesRegion | VideoRecorder/VideoRecorder.py:383-388 | a window sized by the handle is read back as a region of the same size, at least 100 by 100, at its position |
| Storage.Disk.Write | VideoRecorder/VideoRecorder.py:192 | writing a file creates or replaces that file and changes no other |
| Storage.Disk.Remove | VideoRecorder/VideoRecorder.py:108-110 | `os.remove` deletes the file; it reports failure exactly when the file is absent |
| VideoCapture.VideoWriter.Write | VideoRecorder/VideoRecorder.py:232 | the writer holds the earlier frames followed by the new one |
| VideoCapture.WrittenFrames | VideoRecorder/VideoRecorder.py:228-232 | at most one frame is written per pass; its lemmas below give which ones |
| VideoCapture.RecordedTimes | VideoRecorder/VideoRecorder.py:221-233 | at most one timestamp is appended per pass; its lemmas below give which ones, in what order |
| VideoCapture.OneTimestampPerFrame | VideoRecorder/VideoRecorder.py:228-233 | the number of timestamps equals the number of frames written |
| VideoCapture.RecordedTimesAppend | VideoRecorder/VideoRecorder.py:221-233 | the record of a run is the record of its first part followed by the record of the rest: nothing is reordered |
| VideoCapture.FailedGrabsRecordNothing | VideoRecorder/VideoRecorder.py:228-237 | passes whose grab fails write no frame and append no timestamp |
| VideoCapture.TimesAreStartsOfGrabs | VideoRecorder/VideoRecorder.py:222-233 | every timestamp is the start instant of a pass whose grab succeeded |
| VideoCapture.GrabbedPasses | VideoRecorder/VideoRecorder.py:228-233 | the positions of the passes whose grab succeeded: each is such a pass, every such pass is listed, in increasing order |
| VideoCapture.FramesAndTimesInLockstep | VideoRecorder/VideoRecorder.py:221-233 | frames and timestamps are written in lockstep: the k-th timestamp is the start instant and the k-th frame the grabbed frame of the same pass, the k-th successful one, and every successful pass contributes both |
| VideoCapture.TimesFollowTheClock | VideoRecorder/VideoRecorder.py:221-233 | if the clock never goes back, the timestamps are in ascending order |
| VideoCapture.RecordVideo | VideoRecorder/VideoRecorder.py:200-257 | the timestamps are the start instants of the successful grabs, in order (none without a region); the video file holds exactly the grabbed frames and is written only when a region exists; the timestamp file holds the list and is written only when the dump succeeds; nothing else changes |
| AudioCapture.StopFlag.Set | VideoRecorder/VideoRecorder.py:163 | setting the stop flag leaves it set |
| AudioCapture.Concat | VideoRecorder/VideoRecorder.py:190-191 | `np.concatenate` holds every block: no block is longer than the result, and the block that arrived last ends it |
| AudioCapture.ConcatLength | VideoRecorder/VideoRecorder.py:190-192 | the written audio is as long as all blocks together |
| AudioCapture.BlockAtArrivalOffset | VideoRecorder/VideoRecorder.py:178-191 | block k sits in the written audio right after the blocks that arrived before it |
| AudioCapture.RecordAudio | VideoRecorder/VideoRecorder.py:146-195 | no device exactly when the device search finds none; no device, a recorder that does not open, or a failing pull sets the stop flag and writes nothing; nothing is recorded or saved unless the recorder opened; no block writes nothing; otherwise the collected chunks are the pulled blocks, one per pull in arrival order, and the audio file holds their concatenation |
| Muxer.RateAsWritten | VideoRecorder/VideoRecorder.py:71-78 | the rate as written fails exactly when the span is zero; otherwise rate * span == count, whatever the span's sign |
| Muxer.SingleTimestampDividesByZero | VideoRecorder/VideoRecorder.py:55-78 | a list of one timestamp passes the emptiness check and then divides by zero |
| Muxer.BackwardClockGivesNegativeRate | VideoRecorder/VideoRecorder.py:71-78 | two timestamps going back in time give the rate -4.0 |
| Muxer.CorrectedRate | VideoRecorder/VideoRecorder.py:71-78 | the rate exists exactly for at least two timestamps spanning a positive time; it is then positive and rate * span == count |
| Muxer.CorrectedRateAgreesWithCode | VideoRecorder/VideoRecorder.py:78 | where the code's rate is meaningful, the corrected rate is the same number |
| Muxer.PlaybackLastsTheRecordedSpan | VideoRecorder/VideoRecorder.py:75-78 | count / rate == span: played at that rate, the frames last as long as the recording did |
| Muxer.RateOfAShortSession | VideoRecorder/VideoRecorder.py:71-78 | 280 frames over 9.6 seconds give 175/6 (about 29.17) frames per second |
| Muxer.InputsComeFirst | VideoRecorder/VideoRecorder.py:84-88 | ffmpeg reads `-r rate -i video -i audio` as two inputs, the rate belonging to the video input |
| Muxer.OutputOptionsGoToOutput | VideoRecorder/VideoRecorder.py:89-100 | options with no `-i` among them all apply to the output |
| Muxer.EncodingOptionsOpenNoInput | VideoRecorder/VideoRecorder.py:89-100 | none of the encoding settings opens an input |
| Muxer.ReadTwoInputCommand | VideoRecorder/VideoRecorder.py:84-101 | a command of the muxer's shape is read as two inputs, with its settings and the output path going to the output |
| Muxer.MuxCommand | VideoRecorder/VideoRecorder.py:84-101 | ffmpeg reads the command as two inputs and an output: `-r <rate>` precedes the first `-i`, so the rate applies to the video input only; the audio input gets no options; the stream maps, codecs and `-shortest` apply to the output, and the global `-y` opens no input |
| Muxer.RemoveInOrder | VideoRecorder/VideoRecorder.py:108-110 | the removals only ever take files away |
| Muxer.RemoveInOrderKeepsOthers | VideoRecorder/VideoRecorder.py:108-110 | a file not in the removal list keeps its content |
| Muxer.RemoveDistinctPresent | VideoRecorder/VideoRecorder.py:108-110 | removing distinct present files succeeds and removes exactly those files |
| Muxer.MuxFiles | VideoRecorder/VideoRecorder.py:39-119 | the reference function of the muxing step: ffmpeg is not started exactly when one of the code's three guards (missing file, unreadable timestamp file, empty list) returns early, or the degenerate-list check the model adds fires; Muxed needs a started ffmpeg that exited with status zero; no file appears except the output |
| Muxer.MuxFilesWithFfmpeg | VideoRecorder/VideoRecorder.py:39-119 | the outcome, the command and the files afterwards are those of the reference function, whose properties are the lemmas below |
| Muxer.EncoderRunsOnlyOnCompleteInputs | VideoRecorder/VideoRecorder.py:43-57 | ffmpeg is started only when video, audio and a readable timestamp list exist and the list has a corrected rate; its command then carries that rate |
| Muxer.FailureKeepsAllFiles | VideoRecorder/VideoRecorder.py:39-119 | when ffmpeg is not started, fails, or is missing, every file stays as it was |
| Muxer.SuccessRemovesExactlyTheTemporaries | VideoRecorder/VideoRecorder.py:104-111 | on success with three distinct temporary files the outcome is Muxed, the output file is written and exactly the three temporaries are removed |
| Muxer.MuxingKeepsOtherFiles | VideoRecorder/VideoRecorder.py:104-111 | muxing changes no file other than the output and the three temporaries |
| Session.FinishSession | VideoRecorder/VideoRecorder.py:395-402 | the output name did not exist before: it is "output.mp4" when that is free, and otherwise "output_k.mp4" for the least k >= 1 whose name is free (a name `FileNames.NextAvailableIsUnique` shows to be unique); a successful run adds that file and removes exactly the temporaries; every earlier file other than the temporaries survives unchanged |

## Left out

- The Tk GUI itself is not modelled: the window, dragging, buttons, transparency and `mainloop`. Only the geometry read and the resize clamp are kept.
- Threads, the start barrier and the 500 ms delay before the window closes are not modelled. Each thread is modelled as a run up to the pass that sees the stop flag.
- Frame pacing (`time.sleep` to hit 30 fps, and the 0.1 s sleeps) is left out. It changes timing, not which frames or timestamps are recorded.
- mss, OpenCV, soundcard, soundfile and numpy are given as parameters: the grab results, the audio blocks and whether the recorder opens. Pixel contents, the colour conversion, the codec and the sample rate are not modelled.
- All printed diagnostics are left out, including the stdout and stderr text ffmpeg returns. That text is carried in the outcome.
- Float arithmetic is modelled with exact reals. `f"{corrected_fps}"` is a parameter (`showRate`).
- Muxer.MuxFilesWithFfmpeg: reading the timestamp file is modelled by the file's content. Any content other than a timestamp list stands for a JSON load that fails. The JSON format itself is not modelled.
- Muxer.MuxFilesWithFfmpeg: on success, the output file's content is the command that made it. The encoded media is not modelled. On an ffmpeg failure, any partial output ffmpeg may leave is not modelled.
- Muxer.MuxFiles: the model uses the corrected rate, so a degenerate timestamp list gives `DegenerateTimestamps`. The code as written raises an uncaught ZeroDivisionError, or passes a negative rate; see Findings.
- Muxer.MuxFilesWithFfmpeg: follows `Muxer.MuxFiles`, so it has the same degenerate-list deviation.
- VideoCapture.RecordVideo: the video file appears as a whole at the end. OpenCV's incremental writes on disk are not modelled. A failed JSON dump is modelled as writing no timestamp file, although a partial file may remain.
- AudioCapture.RecordAudio: any exception inside the `try` is one failing pull or a recorder that does not open. `sc.default_speaker()` failing is not modelled separately.
- Text.Normalise: `strip()` and `lower()` are modelled for ASCII only. Unicode whitespace and case mapping are not modelled.
- Decimal.ParseInt: `int()` is modelled on ASCII digits with an optional sign. The surrounding whitespace and digit-group underscores that Python also accepts are not modelled.
- FileNames.SplitExt: names are plain file names without directory separators, which is what the program passes.
- `record_system_audio` and the `__main__` block of AudioRecorder.py (fixed ten-second recording) are not part of this model. Only that file's device search is.
- The file system is a finite map from name to content. Permissions, races between the existence check and the removals, and other processes are not modelled.

## Findings

| source | as written | input that shows it | evidently intended | confidence | as-written member | corrected member |
|---|---|---|---|---|---|---|
| VideoRecorder/VideoRecorder.py:55-78 | only an empty list is rejected; then `len / (last - first)` is computed outside any `try` | one timestamp `[t]`: ZeroDivisionError ends the program before muxing; `[1.0, 0.5]`: ffmpeg gets `-r -4.0` | derive a rate only from at least two timestamps spanning a positive time; otherwise report and skip muxing | not executed | Muxer.SingleTimestampDividesByZero | Muxer.CorrectedRate |
