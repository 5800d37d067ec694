/**
 * The video side of a recording (`record_video` in VideoRecorder.py): each
 * pass of the loop notes the clock, grabs the capture region, writes the frame
 * and appends the noted instant to the timestamp list. A failed grab writes
 * nothing and appends nothing. When the stop flag is seen the writer is
 * released and the timestamp list is saved.
 *
 * The passes up to the one that sees the stop flag are given as a sequence of
 * iterations: the clock value at the start of each and what its grab returned.
 */
module VideoCapture {
  import opened Wrappers
  import opened Storage
  import opened Geometry

  const VideoFilename := "aufnahme.avi"
  const TimestampFilename := "timestamps.json"

  /** What `sct.grab` (with the colour conversion and the write) came to in one pass. */
  datatype Grab = Grabbed(frame: Frame) | GrabFailed

  /** One pass of the capture loop: `time.time()` at its start and its grab. */
  datatype Iteration = Iteration(start: real, grab: Grab)

  /** The `cv2.VideoWriter`: the frames written so far. */
  class VideoWriter {
    var frames: seq<Frame>

    constructor ()
      ensures frames == []
    {
      frames := [];
    }

    method Write(frame: Frame)
      modifies this
      ensures frames == old(frames) + [frame]
    {
      frames := frames + [frame];
    }
  }

  /** The frames written by the passes, in order. */
  function WrittenFrames(its: seq<Iteration>): (frames: seq<Frame>)
    ensures |frames| <= |its|
  {
    if its == [] then []
    else
      var last := its[|its| - 1];
      WrittenFrames(its[..|its| - 1]) + (if last.grab.Grabbed? then [last.grab.frame] else [])
  }

  /** The timestamps appended by the passes, in order. */
  function RecordedTimes(its: seq<Iteration>): (times: seq<real>)
    ensures |times| <= |its|
  {
    if its == [] then []
    else
      var last := its[|its| - 1];
      RecordedTimes(its[..|its| - 1]) + (if last.grab.Grabbed? then [last.start] else [])
  }

  /** A timestamp is appended exactly when a frame is written, so the two counts agree. */
  lemma {:induction false} OneTimestampPerFrame(its: seq<Iteration>)
    ensures |RecordedTimes(its)| == |WrittenFrames(its)|
  {
    if its != [] {
      OneTimestampPerFrame(its[..|its| - 1]);
    }
  }

  /** The record of a longer run extends that of its first part: nothing is reordered. */
  lemma {:induction false} RecordedTimesAppend(a: seq<Iteration>, b: seq<Iteration>)
    ensures RecordedTimes(a + b) == RecordedTimes(a) + RecordedTimes(b)
    ensures WrittenFrames(a + b) == WrittenFrames(a) + WrittenFrames(b)
    decreases |b|
  {
    if b == [] {
      assert a + b == a;
    } else {
      assert (a + b)[..|a + b| - 1] == a + b[..|b| - 1];
      RecordedTimesAppend(a, b[..|b| - 1]);
    }
  }

  /** Failed grabs leave no trace. */
  lemma {:induction false} FailedGrabsRecordNothing(its: seq<Iteration>)
    requires forall j :: 0 <= j < |its| ==> its[j].grab.GrabFailed?
    ensures RecordedTimes(its) == [] && WrittenFrames(its) == []
  {
    if its != [] {
      FailedGrabsRecordNothing(its[..|its| - 1]);
    }
  }

  ghost predicate NonDecreasing(s: seq<real>) {
    forall i, j :: 0 <= i < j < |s| ==> s[i] <= s[j]
  }

  /** Every timestamp is the start instant of a pass whose grab succeeded. */
  lemma {:induction false} TimesAreStartsOfGrabs(its: seq<Iteration>, k: nat)
    requires k < |RecordedTimes(its)|
    ensures exists j :: 0 <= j < |its| && its[j].grab.Grabbed? && its[j].start == RecordedTimes(its)[k]
  {
    var init := its[..|its| - 1];
    if k < |RecordedTimes(init)| {
      TimesAreStartsOfGrabs(init, k);
      var j :| 0 <= j < |init| && init[j].grab.Grabbed? && init[j].start == RecordedTimes(init)[k];
      assert its[j] == init[j];
    } else {
      assert its[|its| - 1].start == RecordedTimes(its)[k];
    }
  }

  /** The positions of the passes whose grab succeeded, in order. */
  function GrabbedPasses(its: seq<Iteration>): (ps: seq<nat>)
    ensures forall k :: 0 <= k < |ps| ==> ps[k] < |its| && its[ps[k]].grab.Grabbed?
    ensures forall j :: 0 <= j < |its| && its[j].grab.Grabbed? ==> j in ps
    ensures forall k, l :: 0 <= k < l < |ps| ==> ps[k] < ps[l]
  {
    if its == [] then []
    else
      var init := its[..|its| - 1];
      GrabbedPasses(init) + (if its[|its| - 1].grab.Grabbed? then [|its| - 1] else [])
  }

  /**
   * Frames and timestamps are written in lockstep: the k-th timestamp and the
   * k-th frame come from the same pass, the k-th successful one.
   */
  lemma {:induction false} FramesAndTimesInLockstep(its: seq<Iteration>)
    ensures |RecordedTimes(its)| == |GrabbedPasses(its)| && |WrittenFrames(its)| == |GrabbedPasses(its)|
    ensures forall k :: 0 <= k < |GrabbedPasses(its)| ==>
      RecordedTimes(its)[k] == its[GrabbedPasses(its)[k]].start &&
      WrittenFrames(its)[k] == its[GrabbedPasses(its)[k]].grab.frame
  {
    if its != [] {
      var init, last := its[..|its| - 1], its[|its| - 1];
      FramesAndTimesInLockstep(init);
      var ps, before := GrabbedPasses(its), GrabbedPasses(init);
      var times, frames := RecordedTimes(its), WrittenFrames(its);
      forall k | 0 <= k < |ps|
        ensures times[k] == its[ps[k]].start && frames[k] == its[ps[k]].grab.frame
      {
        if k < |before| {
          assert ps[k] == before[k] && its[before[k]] == init[before[k]];
          assert times[k] == RecordedTimes(init)[k] && frames[k] == WrittenFrames(init)[k];
        } else {
          assert ps[k] == |its| - 1;
        }
      }
    }
  }

  /** When the clock never goes back, the timestamp list is in ascending order. */
  lemma {:induction false} TimesFollowTheClock(its: seq<Iteration>)
    requires forall i, j :: 0 <= i < j < |its| ==> its[i].start <= its[j].start
    ensures NonDecreasing(RecordedTimes(its))
  {
    if its != [] {
      var init := its[..|its| - 1];
      TimesFollowTheClock(init);
      forall k | 0 <= k < |RecordedTimes(init)|
        ensures RecordedTimes(init)[k] <= its[|its| - 1].start
      {
        TimesAreStartsOfGrabs(init, k);
      }
    }
  }

  /**
   * The capture loop. `region` is `monitor_area` (None before a region was
   * chosen); `dumpSucceeds` says whether saving the timestamp list worked.
   */
  method RecordVideo(disk: Disk, region: Option<Region>, its: seq<Iteration>, dumpSucceeds: bool)
    returns (timestamps: seq<real>)
    modifies disk
    ensures timestamps == if region.Some? then RecordedTimes(its) else []
    ensures var video := if region.Some? then old(disk.files)[VideoFilename := VideoFile(WrittenFrames(its))]
                         else old(disk.files);
      disk.files == if dumpSucceeds then video[TimestampFilename := TimestampFile(timestamps)] else video
  {
    var writer: VideoWriter? := null;
    if region.Some? {
      writer := new VideoWriter();
    }
    timestamps := [];
    for i := 0 to |its|
      invariant region.Some? <==> writer != null
      invariant writer != null ==> fresh(writer)
      invariant writer != null ==> writer.frames == WrittenFrames(its[..i]) && timestamps == RecordedTimes(its[..i])
      invariant region.None? ==> timestamps == []
      invariant disk.files == old(disk.files)
    {
      assert its[..i + 1][..i] == its[..i];
      if region.None? {
        continue;
      }
      match its[i].grab {
        case Grabbed(frame) =>
          writer.Write(frame);
          timestamps := timestamps + [its[i].start];
        case GrabFailed =>
      }
    }
    assert its[..|its|] == its;
    if writer != null {
      disk.Write(VideoFilename, VideoFile(writer.frames));
    }
    if dumpSucceeds {
      disk.Write(TimestampFilename, TimestampFile(timestamps));
    }
  }
}
