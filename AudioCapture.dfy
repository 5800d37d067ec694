/**
 * The audio side of a recording (`record_audio` in VideoRecorder.py): look up
 * the loopback device for the default speaker, open a block recorder on it,
 * pull blocks until the stop flag is seen, then write their concatenation.
 * No device, a recorder that cannot be opened, or a failing pull sets the stop
 * flag (stopping the video side too) and writes nothing; no block at all
 * writes nothing either.
 *
 * The pulls up to the point where the stop flag is seen are given as a
 * sequence of outcomes of `mic_recorder.record()`.
 */
module AudioCapture {
  import opened Wrappers
  import opened Storage
  import Loopback

  const AudioFilename := "aufnahme.wav"
  /** The outcome of one `record()` call on the open recorder. */
  datatype Pull = Block(frames: seq<AudioFrame>) | PullFailed

  datatype AudioStatus = DeviceNotFound | CaptureFailed | NothingRecorded | Saved

  /** The process-wide `stop_recording` event; once set it is never cleared. */
  class StopFlag {
    var isSet: bool

    constructor ()
      ensures !isSet
    {
      isSet := false;
    }

    method Set()
      modifies this
      ensures isSet
    {
      isSet := true;
    }
  }

  /** `np.concatenate(blocks, axis=0)`: the blocks' frames, block after block. */
  function Concat(blocks: seq<seq<AudioFrame>>): (audio: seq<AudioFrame>)
    ensures forall k :: 0 <= k < |blocks| ==> |blocks[k]| <= |audio|
    // the block that arrived last ends the audio
    ensures blocks != [] ==>
      (|blocks[|blocks| - 1]| <= |audio| && audio[|audio| - |blocks[|blocks| - 1]|..] == blocks[|blocks| - 1])
  {
    if blocks == [] then [] else Concat(blocks[..|blocks| - 1]) + blocks[|blocks| - 1]
  }

  function TotalLength(blocks: seq<seq<AudioFrame>>): nat {
    if blocks == [] then 0 else TotalLength(blocks[..|blocks| - 1]) + |blocks[|blocks| - 1]|
  }

  /** The written audio is exactly as long as all blocks together. */
  lemma {:induction false} ConcatLength(blocks: seq<seq<AudioFrame>>)
    ensures |Concat(blocks)| == TotalLength(blocks)
  {
    if blocks != [] {
      ConcatLength(blocks[..|blocks| - 1]);
    }
  }

  /** Block k sits in the written audio right after the blocks that arrived before it. */
  lemma {:induction false} BlockAtArrivalOffset(blocks: seq<seq<AudioFrame>>, k: nat)
    requires k < |blocks|
    ensures TotalLength(blocks[..k + 1]) == TotalLength(blocks[..k]) + |blocks[k]| <= |Concat(blocks)|
    ensures Concat(blocks)[TotalLength(blocks[..k])..TotalLength(blocks[..k + 1])] == blocks[k]
  {
    var init := blocks[..|blocks| - 1];
    assert blocks[..k + 1][..k] == blocks[..k];
    ConcatLength(blocks);
    ConcatLength(init);
    if k == |blocks| - 1 {
      assert blocks[..k] == init;
      assert blocks[..k + 1] == blocks;
    } else {
      BlockAtArrivalOffset(init, k);
      assert init[..k] == blocks[..k];
      assert init[..k + 1] == blocks[..k + 1];
      var lo, hi := TotalLength(blocks[..k]), TotalLength(blocks[..k + 1]);
      assert Concat(blocks)[lo..hi] == Concat(init)[lo..hi];
    }
  }

  /** The blocks delivered by a run of pulls, in arrival order. */
  function Blocks(pulls: seq<Pull>): seq<seq<AudioFrame>>
    requires forall j :: 0 <= j < |pulls| ==> pulls[j].Block?
    ensures |Blocks(pulls)| == |pulls|
    ensures forall j :: 0 <= j < |pulls| ==> Blocks(pulls)[j] == pulls[j].frames
  {
    seq(|pulls|, j requires 0 <= j < |pulls| => pulls[j].frames)
  }

  predicate AllBlocks(pulls: seq<Pull>) {
    forall j :: 0 <= j < |pulls| ==> pulls[j].Block?
  }

  /**
   * The audio thread after the start rendezvous. `speakerName` is the default
   * speaker's name, `mics` the names of all recording devices (loopbacks
   * included), `recorderOpens` whether opening the block recorder succeeds.
   */
  method RecordAudio(disk: Disk, stop: StopFlag, speakerName: string, mics: seq<string>,
                     recorderOpens: bool, pulls: seq<Pull>) returns (status: AudioStatus)
    modifies disk, stop
    ensures status == DeviceNotFound <==> Loopback.FindLoopbackDevice(speakerName, mics).None?
    ensures status in {DeviceNotFound, CaptureFailed} ==> stop.isSet && disk.files == old(disk.files)
    ensures status == CaptureFailed ==>
      !recorderOpens || (!old(stop.isSet) && !AllBlocks(pulls))
    // a recorder that cannot be opened always ends in the exception handler
    ensures status in {NothingRecorded, Saved} ==> recorderOpens
    ensures status == NothingRecorded ==>
      stop.isSet == old(stop.isSet) && disk.files == old(disk.files) && (old(stop.isSet) || pulls == [])
    ensures status == Saved ==>
      !old(stop.isSet) && pulls != [] && AllBlocks(pulls) && stop.isSet == old(stop.isSet) &&
      disk.files == old(disk.files)[AudioFilename := AudioFile(Concat(Blocks(pulls)))]
    ensures status != DeviceNotFound && recorderOpens && !old(stop.isSet) && AllBlocks(pulls) ==>
      status == (if pulls == [] then NothingRecorded else Saved)
  {
    var device := Loopback.FindLoopbackDevice(speakerName, mics);
    if device.None? {
      stop.Set();
      return DeviceNotFound;
    }
    if !recorderOpens {
      stop.Set();
      return CaptureFailed;
    }
    var chunks: seq<seq<AudioFrame>> := [];
    var i := 0;
    while !stop.isSet && i < |pulls|
      invariant 0 <= i <= |pulls|
      invariant stop.isSet == old(stop.isSet)
      invariant i > 0 ==> !old(stop.isSet)
      invariant AllBlocks(pulls[..i]) && chunks == Blocks(pulls[..i])
      invariant disk.files == old(disk.files)
    {
      match pulls[i] {
        case PullFailed =>
          stop.Set();
          return CaptureFailed;
        case Block(frames) =>
          chunks := chunks + [frames];
          assert pulls[..i + 1] == pulls[..i] + [pulls[i]];
      }
      i := i + 1;
    }
    if chunks == [] {
      return NothingRecorded;
    }
    assert pulls[..i] == pulls;
    disk.Write(AudioFilename, AudioFile(Concat(chunks)));
    return Saved;
  }
}
