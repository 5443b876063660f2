/** The two-phase window detector of m21_cpr.py: wallpaper first, then the dark window. */
module Detector {
  import opened Wrappers

  /** Mean luma of a probe; None when the screenshot could not be read. */
  type Probe = Option<real>

  predicate Bright(p: Probe) {
    p.Some? && p.value > 80.0
  }

  predicate Dark(p: Probe) {
    p.Some? && p.value < 70.0
  }

  /** Probe `i` is dark and comes after a bright one. */
  ghost predicate Opened(probes: seq<Probe>, i: nat)
    requires i < |probes|
  {
    Dark(probes[i]) && exists j :: 0 <= j < i && Bright(probes[j])
  }

  /** The first probe at which the window is open, or none within the probes taken. */
  method WaitForWindow(probes: seq<Probe>) returns (r: Option<nat>)
    ensures r.Some? ==> r.value < |probes| && Opened(probes, r.value)
                        && forall i :: 0 <= i < r.value ==> !Opened(probes, i)
    ensures r.None? ==> forall i :: 0 <= i < |probes| ==> !Opened(probes, i)
  {
    var desktopUp := false;
    for i := 0 to |probes|
      invariant desktopUp <==> exists j :: 0 <= j < i && Bright(probes[j])
      invariant forall j :: 0 <= j < i ==> !Opened(probes, j)
    {
      var luma := probes[i];
      if luma.Some? {
        if !desktopUp {
          if luma.value > 80.0 {
            desktopUp := true;
          }
        } else if luma.value < 70.0 {
          return Some(i);
        }
      }
    }
    return None;
  }

  /** With `p` in between, the window opens at the same probes as without it, and not at `p`. */
  ghost predicate Skipped(before: seq<Probe>, p: Probe, after: seq<Probe>) {
    && !Opened(before + [p] + after, |before|)
    && forall i :: 0 <= i < |before| + |after| ==>
         (Opened(before + after, i) <==> Opened(before + [p] + after, if i < |before| then i else i + 1))
  }

  /** The probes that never matter are those that cannot be read and those from 70 to 80. */
  lemma SkippedIff(p: Probe)
    ensures (forall before, after :: Skipped(before, p, after)) <==> p.None? || 70.0 <= p.value <= 80.0
  {
    if p.None? || 70.0 <= p.value <= 80.0 {
      forall before, after ensures Skipped(before, p, after) {
        NeutralIsSkipped(before, p, after);
      }
    } else if p.value < 70.0 {
      var before := [Some(90.0)];
      assert Bright((before + [p] + [])[0]) && Opened(before + [p] + [], 1);
      assert !Skipped(before, p, []);
    } else {
      var after: seq<Probe> := [Some(0.0)];
      assert Bright(([] + [p] + after)[0]) && Opened([] + [p] + after, 1) && !Opened([] + after, 0);
      assert !Skipped([], p, after);
    }
  }

  lemma NeutralIsSkipped(before: seq<Probe>, p: Probe, after: seq<Probe>)
    requires p.None? || 70.0 <= p.value <= 80.0
    ensures Skipped(before, p, after)
  {
    var a, b := before + after, before + [p] + after;
    assert forall j :: 0 <= j < |a| ==> b[if j < |before| then j else j + 1] == a[j];
    forall i | 0 <= i < |a| ensures Opened(a, i) <==> Opened(b, if i < |before| then i else i + 1) {
      var i' := if i < |before| then i else i + 1;
      if Opened(a, i) {
        var j :| 0 <= j < i && Bright(a[j]);
        assert Bright(b[if j < |before| then j else j + 1]);
      }
      if Opened(b, i') {
        var j :| 0 <= j < i' && Bright(b[j]);
        assert Bright(a[if j < |before| then j else j - 1]);
      }
    }
  }
}
