/**
 * The loopback-device search of the screen recorder (`find_loopback_device`
 * in VideoRecorder.py): the first device, in list order, whose normalised
 * name equals the normalised speaker name, or contains it together with the
 * marker "monitor" or "mix". There is no fallback. Devices are given by their
 * names; the result is an index into the list.
 */
module Loopback {
  import opened Wrappers
  import opened Text

  /** A candidate the search takes at once; both names already normalised. */
  predicate IsPreferred(micName: string, speaker: string) {
    micName == speaker ||
    (Contains(micName, speaker) && (Contains(micName, "monitor") || Contains(micName, "mix")))
  }

  /** The scan from position `i` onwards. */
  function FindFrom(speaker: string, mics: seq<string>, i: nat): (r: Option<nat>)
    requires i <= |mics|
    ensures r.Some? ==> i <= r.value < |mics| && IsPreferred(Normalise(mics[r.value]), speaker)
    ensures r.Some? ==> forall j :: i <= j < r.value ==> !IsPreferred(Normalise(mics[j]), speaker)
    ensures r.None? ==> forall j :: i <= j < |mics| ==> !IsPreferred(Normalise(mics[j]), speaker)
    decreases |mics| - i
  {
    if i == |mics| then None
    else if IsPreferred(Normalise(mics[i]), speaker) then Some(i)
    else FindFrom(speaker, mics, i + 1)
  }

  /** The index of the first preferred device, or None when there is none. */
  function FindLoopbackDevice(speakerName: string, mics: seq<string>): (r: Option<nat>)
    ensures r.Some? ==> r.value < |mics| && IsPreferred(Normalise(mics[r.value]), Normalise(speakerName))
    ensures r.Some? ==> forall j :: 0 <= j < r.value ==> !IsPreferred(Normalise(mics[j]), Normalise(speakerName))
    ensures r.None? <==> forall j :: 0 <= j < |mics| ==> !IsPreferred(Normalise(mics[j]), Normalise(speakerName))
  {
    FindFrom(Normalise(speakerName), mics, 0)
  }

  /** Any device whose normalised name equals the speaker's is found, unless an earlier device is preferred. */
  lemma ExactMatchIsFound(speakerName: string, mics: seq<string>, i: nat)
    requires i < |mics| && Normalise(mics[i]) == Normalise(speakerName)
    ensures FindLoopbackDevice(speakerName, mics).Some?
    ensures FindLoopbackDevice(speakerName, mics).value <= i
  {
    assert IsPreferred(Normalise(mics[i]), Normalise(speakerName));
  }

  /**
   * With the default speaker "Speakers (Realtek)" and the devices
   * "Speakers (Realtek)" and "Speakers (Realtek) [Monitor]", the exact name,
   * listed first, is chosen.
   */
  lemma ExactNameListedFirstWins()
    ensures FindLoopbackDevice("Speakers (Realtek)", ["Speakers (Realtek)", "Speakers (Realtek) [Monitor]"]) == Some(0)
  {
    ExactMatchIsFound("Speakers (Realtek)", ["Speakers (Realtek)", "Speakers (Realtek) [Monitor]"], 0);
  }
}
