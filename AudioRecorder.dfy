/**
 * The loopback-device search of the stand-alone audio recorder
 * (`find_loopback_device` in AudioRecorder.py). Like the screen recorder's
 * search it returns the first preferred device at once, but it also remembers
 * the last device whose name merely contains the speaker name (`best_match`)
 * and returns that when no device is preferred.
 */
module AudioRecorder {
  import opened Wrappers
  import opened Text
  import Loopback

  /** Index of the last of the first `n` devices whose normalised name contains `speaker`. */
  function LastContaining(speaker: string, mics: seq<string>, n: nat): (r: Option<nat>)
    requires n <= |mics|
    ensures r.Some? ==> r.value < n && Contains(Normalise(mics[r.value]), speaker)
    ensures r.Some? ==> forall j :: r.value < j < n ==> !Contains(Normalise(mics[j]), speaker)
    ensures r.None? ==> forall j :: 0 <= j < n ==> !Contains(Normalise(mics[j]), speaker)
  {
    if n == 0 then None
    else if Contains(Normalise(mics[n - 1]), speaker) then Some(n - 1)
    else LastContaining(speaker, mics, n - 1)
  }

  /** The reference choice: the first preferred device, else the last plain substring match. */
  function FallbackChoice(speakerName: string, mics: seq<string>): Option<nat> {
    match Loopback.FindLoopbackDevice(speakerName, mics)
    case Some(i) => Some(i)
    case None => LastContaining(Normalise(speakerName), mics, |mics|)
  }

  /** A preferred device always contains the speaker name. */
  lemma PreferredContains(micName: string, speaker: string)
    requires Loopback.IsPreferred(micName, speaker)
    ensures Contains(micName, speaker)
  {
    if micName == speaker {
      ContainsSelf(speaker);
    }
  }

  method FindLoopbackDevice(speakerName: string, mics: seq<string>) returns (r: Option<nat>)
    ensures r == FallbackChoice(speakerName, mics)
    ensures r.Some? ==> r.value < |mics| && Contains(Normalise(mics[r.value]), Normalise(speakerName))
    ensures r.None? <==> forall j :: 0 <= j < |mics| ==> !Contains(Normalise(mics[j]), Normalise(speakerName))
  {
    var speaker := Normalise(speakerName);
    var bestMatch: Option<nat> := None;
    for i := 0 to |mics|
      invariant forall j :: 0 <= j < i ==> !Loopback.IsPreferred(Normalise(mics[j]), speaker)
      invariant bestMatch == LastContaining(speaker, mics, i)
    {
      var micName := Normalise(mics[i]);
      if micName == speaker {
        ContainsSelf(speaker);
        return Some(i);
      }
      if Contains(micName, speaker) {
        if Contains(micName, "monitor") || Contains(micName, "mix") {
          return Some(i);
        }
        bestMatch := Some(i);
      }
    }
    if bestMatch.None? {
      forall j | 0 <= j < |mics|
        ensures !Contains(Normalise(mics[j]), speaker)
      {
      }
    }
    return bestMatch;
  }

  /**
   * Priority is decided per device in list order: the first preferred device
   * wins, whether it is an exact match or a marker match, over every later one.
   */
  lemma FirstPreferredWins(speakerName: string, mics: seq<string>, i: nat)
    requires i < |mics| && Loopback.IsPreferred(Normalise(mics[i]), Normalise(speakerName))
    requires forall j :: 0 <= j < i ==> !Loopback.IsPreferred(Normalise(mics[j]), Normalise(speakerName))
    ensures FallbackChoice(speakerName, mics) == Some(i)
  {
    var r := Loopback.FindLoopbackDevice(speakerName, mics);
    assert r.Some?;
    assert r.value == i;
  }

  /** Without a preferred device, the last device that contains the speaker name is chosen. */
  lemma LastPlainMatchWins(speakerName: string, mics: seq<string>, i: nat)
    requires forall j :: 0 <= j < |mics| ==> !Loopback.IsPreferred(Normalise(mics[j]), Normalise(speakerName))
    requires i < |mics| && Contains(Normalise(mics[i]), Normalise(speakerName))
    requires forall j :: i < j < |mics| ==> !Contains(Normalise(mics[j]), Normalise(speakerName))
    ensures FallbackChoice(speakerName, mics) == Some(i)
  {
  }

  /** The result is None exactly when no device name contains the speaker name. */
  lemma FallbackNoneIff(speakerName: string, mics: seq<string>)
    ensures FallbackChoice(speakerName, mics).None? <==>
      forall j :: 0 <= j < |mics| ==> !Contains(Normalise(mics[j]), Normalise(speakerName))
  {
    var r := Loopback.FindLoopbackDevice(speakerName, mics);
    if r.Some? {
      PreferredContains(Normalise(mics[r.value]), Normalise(speakerName));
    }
  }

  /** Both searches agree whenever the screen recorder's search finds a device. */
  lemma FallbackExtendsSearch(speakerName: string, mics: seq<string>)
    ensures Loopback.FindLoopbackDevice(speakerName, mics).Some? ==>
      FallbackChoice(speakerName, mics) == Loopback.FindLoopbackDevice(speakerName, mics)
    ensures Loopback.FindLoopbackDevice(speakerName, mics).None? && FallbackChoice(speakerName, mics).Some? ==>
      var i := FallbackChoice(speakerName, mics).value;
      i < |mics| && Contains(Normalise(mics[i]), Normalise(speakerName)) &&
      !Loopback.IsPreferred(Normalise(mics[i]), Normalise(speakerName))
  {
  }
}
