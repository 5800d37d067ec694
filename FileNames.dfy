/**
 * Choosing the output file name (`get_next_available_filename` in
 * VideoRecorder.py): the base name when it is free, otherwise the first free
 * name of the form `<stem>_<k><ext>` for k = 1, 2, ... The file system is the
 * finite set of names that exist.
 */
module FileNames {
  import opened Decimal

  /** Position of the last '.' in `s`, or -1 (Python's `s.rfind('.')`). */
  function LastDot(s: string): (r: int)
    ensures -1 <= r < |s|
    ensures r >= 0 ==> s[r] == '.'
    ensures forall k :: r < k < |s| ==> s[k] != '.'
  {
    if s == [] then -1
    else if s[|s| - 1] == '.' then |s| - 1
    else LastDot(s[..|s| - 1])
  }

  /**
   * Python's `os.path.splitext` on a name without directory separators: the
   * extension runs from the last '.' to the end, provided some character
   * before that dot is not a dot itself (leading dots do not start one).
   */
  function SplitExt(p: string): (r: (string, string))
    ensures r.0 + r.1 == p
    ensures r.1 != [] ==> r.1[0] == '.' && forall k :: 1 <= k < |r.1| ==> r.1[k] != '.'
    ensures r.1 != [] <==> exists i, j :: 0 <= i < j < |p| && p[i] != '.' && p[j] == '.'
  {
    var dot := LastDot(p);
    if dot >= 0 && exists i :: 0 <= i < dot && p[i] != '.' then
      assert p[..dot] + p[dot..] == p;
      (p[..dot], p[dot..])
    else
      (p, "")
  }

  /** The k-th alternative to `base`: `f"{name}_{counter}{ext}"`. */
  function Candidate(base: string, k: nat): (r: string)
    ensures r != base
    ensures |r| == |base| + 1 + |NatToString(k)|
  {
    var (name, ext) := SplitExt(base);
    name + "_" + NatToString(k) + ext
  }

  /** Different counters give different names. */
  lemma CandidateInjective(base: string, j: nat, k: nat)
    requires Candidate(base, j) == Candidate(base, k)
    ensures j == k
  {
    var (name, ext) := SplitExt(base);
    var a, b := Candidate(base, j), Candidate(base, k);
    var lo := |name| + 1;
    assert |NatToString(j)| == |a| - lo - |ext| == |NatToString(k)|;
    assert a[lo..|a| - |ext|] == NatToString(j);
    assert b[lo..|b| - |ext|] == NatToString(k);
    NatToStringInjective(j, k);
  }

  /**
   * What the function promises: a name that does not exist; the base name
   * itself when it is free; otherwise the candidate with the smallest
   * counter k >= 1 that is free.
   */
  ghost predicate IsNextAvailable(base: string, existing: set<string>, r: string) {
    r !in existing &&
    (base !in existing ==> r == base) &&
    (base in existing ==>
      exists k: nat :: k >= 1 && r == Candidate(base, k) &&
        forall j: nat :: 1 <= j < k ==> Candidate(base, j) in existing)
  }

  method GetNextAvailableFilename(base: string, existing: set<string>) returns (r: string)
    ensures r !in existing
    ensures base !in existing ==> r == base
    ensures base in existing ==>
      exists k: nat :: k >= 1 && r == Candidate(base, k) &&
        forall j: nat :: 1 <= j < k ==> Candidate(base, j) in existing
  {
    if base !in existing {
      return base;
    }
    var (name, ext) := SplitExt(base);
    var counter: nat := 1;
    ghost var tried: set<string> := {};
    while true
      invariant counter >= 1
      invariant tried <= existing
      invariant forall j: nat :: 1 <= j < counter ==> Candidate(base, j) in existing
      invariant forall x :: x in tried ==> exists j: nat :: 1 <= j < counter && x == Candidate(base, j)
      decreases existing - tried
    {
      var newFilename := name + "_" + NatToString(counter) + ext;
      assert newFilename == Candidate(base, counter);
      if newFilename !in existing {
        return newFilename;
      }
      if newFilename in tried {
        var j: nat :| 1 <= j < counter && newFilename == Candidate(base, j);
        CandidateInjective(base, j, counter);
        assert false;
      }
      tried := tried + {newFilename};
      counter := counter + 1;
    }
  }

  /** The specification determines the name: two names that both meet it are equal. */
  lemma NextAvailableIsUnique(base: string, existing: set<string>, r1: string, r2: string)
    requires IsNextAvailable(base, existing, r1) && IsNextAvailable(base, existing, r2)
    ensures r1 == r2
  {
    if base in existing {
      var k1: nat :| k1 >= 1 && r1 == Candidate(base, k1) &&
        forall j: nat :: 1 <= j < k1 ==> Candidate(base, j) in existing;
      var k2: nat :| k2 >= 1 && r2 == Candidate(base, k2) &&
        forall j: nat :: 1 <= j < k2 ==> Candidate(base, j) in existing;
      assert k1 == k2 by {
        if k1 < k2 {
          assert false;
        } else if k2 < k1 {
          assert false;
        }
      }
    }
  }

  /** "output.mp4" splits into "output" and ".mp4". */
  lemma SplitOutputName()
    ensures SplitExt("output.mp4") == ("output", ".mp4")
  {
    var p := "output.mp4";
    assert LastDot(p) == 6 by {
      assert p[9] != '.' && p[8] != '.' && p[7] != '.' && p[6] == '.';
    }
    assert p[0] != '.';
    assert p[..6] == "output" && p[6..] == ".mp4";
  }

  /** With "output.mp4" and "output_1.mp4" taken, the next name is "output_2.mp4". */
  lemma OutputExample(r: string)
    ensures IsNextAvailable("output.mp4", {"output.mp4", "output_1.mp4"}, r) <==> r == "output_2.mp4"
  {
    var existing := {"output.mp4", "output_1.mp4"};
    SplitOutputName();
    assert Candidate("output.mp4", 1) == "output_1.mp4";
    assert Candidate("output.mp4", 2) == "output_2.mp4";
    assert IsNextAvailable("output.mp4", existing, "output_2.mp4") by {
      assert forall j: nat :: 1 <= j < 2 ==> Candidate("output.mp4", j) in existing;
    }
    if IsNextAvailable("output.mp4", existing, r) {
      NextAvailableIsUnique("output.mp4", existing, r, "output_2.mp4");
    }
  }
}
