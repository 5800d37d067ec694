/**
 * The end of a session (the `__main__` block of VideoRecorder.py): once the
 * window is closed, pick an output name no existing file has, and mux the
 * raw recordings into it.
 */
module Session {
  import opened Wrappers
  import opened Storage
  import opened FileNames
  import opened VideoCapture
  import opened AudioCapture
  import opened Muxer

  /** The preferred name of the merged recording. */
  const OutputFilename := "output.mp4"

  method FinishSession(disk: Disk, showRate: real -> string, encoder: EncoderResult)
    returns (outputName: string, outcome: MuxOutcome, command: Option<seq<string>>)
    modifies disk
    ensures outputName !in old(disk.files)
    ensures OutputFilename !in old(disk.files) ==> outputName == OutputFilename
    // otherwise it is output_k.mp4 for the least k >= 1 that is free
    ensures IsNextAvailable(OutputFilename, old(disk.files).Keys, outputName)
    ensures (outcome, command, disk.files) ==
      MuxFiles(old(disk.files), VideoFilename, AudioFilename, outputName, TimestampFilename, showRate, encoder)
    // a successful session adds the new recording, drops the temporaries and overwrites nothing
    ensures outcome == Muxed ==>
      command.Some? &&
      disk.files == old(disk.files)[outputName := EncodedFile(command.value)] - {VideoFilename, AudioFilename, TimestampFilename}
    ensures forall p :: p in old(disk.files) && p !in {VideoFilename, AudioFilename, TimestampFilename} ==>
      p in disk.files && disk.files[p] == old(disk.files)[p]
  {
    ghost var before := disk.files;
    outputName := GetNextAvailableFilename(OutputFilename, disk.files.Keys);
    outcome, command := MuxFilesWithFfmpeg(disk, VideoFilename, AudioFilename, outputName, TimestampFilename, showRate, encoder);
    if outcome == Muxed {
      SuccessRemovesExactlyTheTemporaries(before, VideoFilename, AudioFilename, outputName, TimestampFilename, showRate);
    }
    forall p | p in before && p !in {VideoFilename, AudioFilename, TimestampFilename}
      ensures p in disk.files && disk.files[p] == before[p]
    {
      MuxingKeepsOtherFiles(before, VideoFilename, AudioFilename, outputName, TimestampFilename, showRate, encoder, p);
    }
  }
}
