/**
 Counter windows bracketed by MARK and ENDMARK lines in one stream (`phase_windows` and the
 deltas of `drm_report`).
 */
module Windows {
  import opened Wrappers
  import opened Stats

  /** A line of the serial log, by what the scan takes it for. */
  datatype Line = Stat(rec: Rec) | Mark(name: Name) | EndMark(name: Name) | Other

  datatype Window = Window(name: Name, a: Option<Rec>, b: Option<Rec>)

  /** A statistics line counts as a sample only if it carries the tick. */
  predicate IsSample(line: Line) {
    line.Stat? && TICK in line.rec
  }

  // ---- Where a window lies in the stream ----

  /** How the region of a window ends: at its ENDMARK, at another MARK, or not yet. */
  datatype Fate = Closed | Cut | Open

  /** The region after `mark` and before `stop`, its first sample, and the last sample before `stop`. */
  datatype Span = Span(mark: nat, stop: nat, fate: Fate, first: Option<nat>, last: Option<nat>)

  ghost predicate NoSample(lines: seq<Line>, i: nat, j: nat)
    requires j <= |lines|
  {
    forall k :: i <= k < j ==> !IsSample(lines[k])
  }

  ghost predicate FirstSample(lines: seq<Line>, i: nat, j: nat, first: Option<nat>)
    requires j <= |lines|
  {
    match first
    case None => NoSample(lines, i, j)
    case Some(f) => i <= f < j && IsSample(lines[f]) && NoSample(lines, i, f)
  }

  ghost predicate LastSample(lines: seq<Line>, j: nat, last: Option<nat>)
    requires j <= |lines|
  {
    match last
    case None => NoSample(lines, 0, j)
    case Some(l) => l < j && IsSample(lines[l]) && NoSample(lines, l + 1, j)
  }

  ghost function RecAt(lines: seq<Line>, i: Option<nat>): Option<Rec> {
    if i.Some? && i.value < |lines| && IsSample(lines[i.value]) then Some(lines[i.value].rec) else None
  }

  /** `s` is where window `w` lies, and `w` holds the samples found there. */
  ghost predicate Placed(lines: seq<Line>, w: Window, s: Span) {
    && s.mark < s.stop <= |lines| && lines[s.mark] == Mark(w.name)
    && (forall k :: s.mark < k < s.stop ==> !lines[k].Mark? && lines[k] != EndMark(w.name))
    && FirstSample(lines, s.mark + 1, s.stop, s.first) && w.a == RecAt(lines, s.first)
    && match s.fate
       case Closed => s.stop < |lines| && lines[s.stop] == EndMark(w.name)
                      && LastSample(lines, s.stop, s.last) && w.b == RecAt(lines, s.last)
       case Cut => s.stop < |lines| && lines[s.stop].Mark? && w.b == None
       case Open => w.b == None
  }

  /** Every window is in place, and each region ends before the next one starts. */
  ghost predicate AllPlaced(lines: seq<Line>, out: seq<Window>, spans: seq<Span>)
    decreases |out|
  {
    var z := |out| - 1;
    && |spans| == |out|
    && (out != [] ==>
          && Placed(lines, out[z], spans[z])
          && (z > 0 ==> spans[z - 1].stop <= spans[z].mark)
          && AllPlaced(lines, out[..z], spans[..z]))
  }

  lemma {:induction false} PlacedAt(lines: seq<Line>, out: seq<Window>, spans: seq<Span>, k: nat)
    requires AllPlaced(lines, out, spans) && k < |out|
    ensures Placed(lines, out[k], spans[k])
    ensures k + 1 < |out| ==> spans[k].stop <= spans[k + 1].mark
    decreases |out|
  {
    var z := |out| - 1;
    if k < z {
      PlacedAt(lines, out[..z], spans[..z], k);
    }
  }

  /** Every mark before `n` opened a window. */
  ghost predicate AllMarks(lines: seq<Line>, n: nat, spans: seq<Span>)
    requires n <= |lines|
  {
    forall i :: 0 <= i < n && lines[i].Mark? ==> exists k :: 0 <= k < |spans| && spans[k].mark == i
  }

  /** Only the current window is still open, and it reaches to line `n`. */
  ghost predicate OpenAt(n: nat, spans: seq<Span>, cur: bool) {
    && (forall k :: 0 <= k < |spans| ==> spans[k].stop <= n)
    && (forall k :: 0 <= k < |spans| - 1 ==> spans[k].fate != Open)
    && (if cur then |spans| > 0 && spans[|spans| - 1].fate == Open && spans[|spans| - 1].stop == n
        else |spans| > 0 ==> spans[|spans| - 1].fate == Closed)
  }

  ghost predicate LastIs(lines: seq<Line>, n: nat, last: Option<Rec>, lastAt: Option<nat>)
    requires n <= |lines|
  {
    LastSample(lines, n, lastAt) && last == RecAt(lines, lastAt)
  }

  /** State of the scan after `n` lines. */
  ghost predicate Scanned(lines: seq<Line>, n: nat, out: seq<Window>, spans: seq<Span>, cur: bool)
    requires n <= |lines|
  {
    AllPlaced(lines, out, spans) && AllMarks(lines, n, spans) && OpenAt(n, spans, cur)
  }

  /** The open window's span after one more line that neither marks nor ends it. */
  ghost function Longer(s: Span, line: Line): Span {
    s.(stop := s.stop + 1, first := if s.first.None? && IsSample(line) then Some(s.stop) else s.first)
  }

  function Filled(w: Window, line: Line): Window {
    if w.a.None? && IsSample(line) then w.(a := Some(line.rec)) else w
  }

  lemma PlacedLonger(lines: seq<Line>, w: Window, s: Span)
    requires Placed(lines, w, s) && s.fate == Open && s.stop < |lines|
    requires !lines[s.stop].Mark? && lines[s.stop] != EndMark(w.name)
    ensures Placed(lines, Filled(w, lines[s.stop]), Longer(s, lines[s.stop]))
  {
  }

  lemma LastNext(lines: seq<Line>, n: nat, last: Option<Rec>, lastAt: Option<nat>)
    requires n < |lines| && LastIs(lines, n, last, lastAt)
    ensures var line := lines[n];
            if IsSample(line) then LastIs(lines, n + 1, Some(line.rec), Some(n)) else LastIs(lines, n + 1, last, lastAt)
  {
  }

  /** Updating the last window keeps the others in place. */
  lemma PlacedUpdate(lines: seq<Line>, out: seq<Window>, spans: seq<Span>, w: Window, s: Span)
    requires AllPlaced(lines, out, spans) && out != [] && Placed(lines, w, s) && s.mark == spans[|out| - 1].mark
    ensures AllPlaced(lines, out[|out| - 1 := w], spans[|out| - 1 := s])
  {
    var z := |out| - 1;
    assert out[z := w][..z] == out[..z] && spans[z := s][..z] == spans[..z];
  }

  lemma PlacedAppend(lines: seq<Line>, out: seq<Window>, spans: seq<Span>, w: Window, s: Span)
    requires AllPlaced(lines, out, spans) && Placed(lines, w, s)
    requires spans != [] ==> spans[|spans| - 1].stop <= s.mark
    ensures AllPlaced(lines, out + [w], spans + [s])
  {
    assert (out + [w])[..|out|] == out && (spans + [s])[..|out|] == spans;
  }

  /** Marks are still accounted for when spans keep theirs. */
  lemma MarksKept(lines: seq<Line>, n: nat, spans: seq<Span>, spans': seq<Span>)
    requires n < |lines| && !lines[n].Mark? && AllMarks(lines, n, spans)
    requires |spans'| == |spans| && forall k :: 0 <= k < |spans| ==> spans'[k].mark == spans[k].mark
    ensures AllMarks(lines, n + 1, spans')
  {
    forall i | 0 <= i < n + 1 && lines[i].Mark? ensures exists k :: 0 <= k < |spans'| && spans'[k].mark == i {
      var k :| 0 <= k < |spans| && spans[k].mark == i;
      assert spans'[k].mark == i;
    }
  }

  /** The current window takes in one more line. */
  lemma LinePlaced(lines: seq<Line>, n: nat, out: seq<Window>, spans: seq<Span>)
    requires n < |lines| && Scanned(lines, n, out, spans, true)
    requires !lines[n].Mark? && lines[n] != EndMark(out[|out| - 1].name)
    ensures var line, z := lines[n], |out| - 1;
            AllPlaced(lines, out[z := Filled(out[z], line)], spans[z := Longer(spans[z], line)])
  {
    var line, z := lines[n], |out| - 1;
    assert Placed(lines, out[z], spans[z]);
    PlacedLonger(lines, out[z], spans[z]);
    PlacedUpdate(lines, out, spans, Filled(out[z], line), Longer(spans[z], line));
  }

  lemma OpenLine(n: nat, spans: seq<Span>, line: Line)
    requires OpenAt(n, spans, true)
    ensures OpenAt(n + 1, spans[|spans| - 1 := Longer(spans[|spans| - 1], line)], true)
  {
  }

  /** A line that is no mark and does not end the current window. */
  lemma ScanLine(lines: seq<Line>, n: nat, out: seq<Window>, spans: seq<Span>, cur: bool)
    requires n < |lines| && Scanned(lines, n, out, spans, cur)
    requires !lines[n].Mark? && (cur ==> lines[n] != EndMark(out[|out| - 1].name))
    ensures var line, z := lines[n], |out| - 1;
            if cur then Scanned(lines, n + 1, out[z := Filled(out[z], line)], spans[z := Longer(spans[z], line)], cur)
            else Scanned(lines, n + 1, out, spans, cur)
  {
    if cur {
      LinePlaced(lines, n, out, spans);
      OpenLine(n, spans, lines[n]);
      MarksKept(lines, n, spans, spans[|out| - 1 := Longer(spans[|out| - 1], lines[n])]);
    } else {
      MarksKept(lines, n, spans, spans);
    }
  }

  /** The spans once a new mark cuts the current window short. */
  ghost function Ended(spans: seq<Span>, cur: bool): seq<Span>
    requires cur ==> spans != []
  {
    if cur then spans[|spans| - 1 := spans[|spans| - 1].(fate := Cut)] else spans
  }

  lemma EndedPlaced(lines: seq<Line>, n: nat, out: seq<Window>, spans: seq<Span>, cur: bool)
    requires n < |lines| && Scanned(lines, n, out, spans, cur) && lines[n].Mark?
    ensures AllPlaced(lines, out, Ended(spans, cur))
  {
    if cur {
      var z := |out| - 1;
      assert Placed(lines, out[z], spans[z]);
      PlacedUpdate(lines, out, spans, out[z], spans[z].(fate := Cut));
      assert out[z := out[z]] == out;
    }
  }

  lemma MarksMore(lines: seq<Line>, n: nat, spans: seq<Span>, cur: bool, s: Span)
    requires n < |lines| && AllMarks(lines, n, spans) && s.mark == n && (cur ==> spans != [])
    ensures AllMarks(lines, n + 1, Ended(spans, cur) + [s])
  {
    var spans' := Ended(spans, cur) + [s];
    forall i | 0 <= i < n + 1 && lines[i].Mark? ensures exists k :: 0 <= k < |spans'| && spans'[k].mark == i {
      if i < n {
        var k :| 0 <= k < |spans| && spans[k].mark == i;
        assert spans'[k].mark == i;
      } else {
        assert spans'[|spans|].mark == i;
      }
    }
  }

  lemma ScanMark(lines: seq<Line>, n: nat, out: seq<Window>, spans: seq<Span>, cur: bool)
    requires n < |lines| && Scanned(lines, n, out, spans, cur) && lines[n].Mark?
    ensures Scanned(lines, n + 1, out + [Window(lines[n].name, None, None)],
                    Ended(spans, cur) + [Span(n, n + 1, Open, None, None)], true)
  {
    MarkPlaced(lines, n, out, spans, cur);
    var s := Span(n, n + 1, Open, None, None);
    MarksMore(lines, n, spans, cur, s);
    OpenMark(n, spans, cur, s);
  }

  lemma MarkPlaced(lines: seq<Line>, n: nat, out: seq<Window>, spans: seq<Span>, cur: bool)
    requires n < |lines| && Scanned(lines, n, out, spans, cur) && lines[n].Mark?
    ensures AllPlaced(lines, out + [Window(lines[n].name, None, None)],
                      Ended(spans, cur) + [Span(n, n + 1, Open, None, None)])
  {
    EndedPlaced(lines, n, out, spans, cur);
    NewPlaced(lines, n);
    PlacedAppend(lines, out, Ended(spans, cur), Window(lines[n].name, None, None), Span(n, n + 1, Open, None, None));
  }

  lemma NewPlaced(lines: seq<Line>, n: nat)
    requires n < |lines| && lines[n].Mark?
    ensures Placed(lines, Window(lines[n].name, None, None), Span(n, n + 1, Open, None, None))
  {
  }

  lemma OpenMark(n: nat, spans: seq<Span>, cur: bool, s: Span)
    requires OpenAt(n, spans, cur) && s.fate == Open && s.stop == n + 1
    ensures OpenAt(n + 1, Ended(spans, cur) + [s], true)
  {
  }

  lemma PlacedClosed(lines: seq<Line>, w: Window, s: Span, last: Option<Rec>, lastAt: Option<nat>)
    requires Placed(lines, w, s) && s.stop < |lines| && lines[s.stop] == EndMark(w.name)
    requires LastIs(lines, s.stop, last, lastAt)
    ensures Placed(lines, w.(b := last), Shut(s, lastAt))
  {
  }

  ghost function Shut(s: Span, lastAt: Option<nat>): Span {
    s.(fate := Closed, last := lastAt)
  }

  lemma EndPlaced(lines: seq<Line>, n: nat, out: seq<Window>, spans: seq<Span>, last: Option<Rec>, lastAt: Option<nat>)
    requires n < |lines| && Scanned(lines, n, out, spans, true) && LastIs(lines, n, last, lastAt)
    requires lines[n] == EndMark(out[|out| - 1].name)
    ensures var z := |out| - 1; AllPlaced(lines, out[z := out[z].(b := last)], spans[z := Shut(spans[z], lastAt)])
  {
    var z := |out| - 1;
    assert Placed(lines, out[z], spans[z]);
    PlacedClosed(lines, out[z], spans[z], last, lastAt);
    PlacedUpdate(lines, out, spans, out[z].(b := last), Shut(spans[z], lastAt));
  }

  lemma OpenEnd(n: nat, spans: seq<Span>, lastAt: Option<nat>)
    requires OpenAt(n, spans, true)
    ensures OpenAt(n + 1, spans[|spans| - 1 := Shut(spans[|spans| - 1], lastAt)], false)
  {
  }

  lemma ScanEnd(lines: seq<Line>, n: nat, out: seq<Window>, spans: seq<Span>, last: Option<Rec>, lastAt: Option<nat>)
    requires n < |lines| && Scanned(lines, n, out, spans, true) && LastIs(lines, n, last, lastAt)
    requires lines[n] == EndMark(out[|out| - 1].name)
    ensures var z := |out| - 1;
            Scanned(lines, n + 1, out[z := out[z].(b := last)], spans[z := Shut(spans[z], lastAt)], false)
  {
    EndPlaced(lines, n, out, spans, last, lastAt);
    OpenEnd(n, spans, lastAt);
    MarksKept(lines, n, spans, spans[|out| - 1 := Shut(spans[|out| - 1], lastAt)]);
  }

  /**
   Scan the lines. Every mark opens a window, and each window holds the first sample after
   its mark and, once its end mark is met before any other mark, the last sample before that.
   */
  method PhaseWindows(lines: seq<Line>) returns (out: seq<Window>)
    ensures exists spans, cur :: Scanned(lines, |lines|, out, spans, cur)
  {
    var cur, last := false, None;
    ghost var lastAt: Option<nat> := None;
    out := [];
    ghost var spans: seq<Span> := [];
    for n := 0 to |lines|
      invariant Scanned(lines, n, out, spans, cur) && LastIs(lines, n, last, lastAt)
    {
      var line := lines[n];
      LastNext(lines, n, last, lastAt);
      if line.Mark? {
        ScanMark(lines, n, out, spans, cur);
        spans := Ended(spans, cur) + [Span(n, n + 1, Open, None, None)];
        cur, out := true, out + [Window(line.name, None, None)];
      } else if line.EndMark? && cur && out[|out| - 1].name == line.name {
        ScanEnd(lines, n, out, spans, last, lastAt);
        spans := spans[|out| - 1 := Shut(spans[|out| - 1], lastAt)];
        out, cur := out[|out| - 1 := out[|out| - 1].(b := last)], false;
      } else {
        ScanLine(lines, n, out, spans, cur);
        if cur {
          spans := spans[|out| - 1 := Longer(spans[|out| - 1], line)];
          out := out[|out| - 1 := Filled(out[|out| - 1], line)];
        }
        if IsSample(line) {
          last, lastAt := Some(line.rec), Some(n);
        }
      }
    }
  }

  // ---- Deltas ----

  /** The windows that get a row: both samples there, and the tick advanced between them. */
  predicate HasRow(w: Window) {
    w.a.Some? && w.b.Some? && Get(w.b.value, TICK) > Get(w.a.value, TICK)
  }

  function Delta(w: Window, field: Name): int {
    if HasRow(w) then Get(w.b.value, field) - Get(w.a.value, field) else 0
  }

  function Sum(out: seq<Window>, field: Name): int {
    if out == [] then 0 else Sum(out[..|out| - 1], field) + Delta(out[|out| - 1], field)
  }

  /** The counter never goes back from one sample to a later one. */
  ghost predicate NonDecreasing(lines: seq<Line>, field: Name) {
    forall i, j :: 0 <= i < j < |lines| && IsSample(lines[i]) && IsSample(lines[j]) ==>
      Get(lines[i].rec, field) <= Get(lines[j].rec, field)
  }

  /** A window with a row is closed, and its two samples lie inside it in order. */
  lemma RowIsInside(lines: seq<Line>, w: Window, s: Span)
    requires Placed(lines, w, s) && HasRow(w)
    ensures s.fate == Closed && s.first.Some? && s.last.Some?
    ensures s.mark < s.first.value <= s.last.value < s.stop
    ensures IsSample(lines[s.first.value]) && IsSample(lines[s.last.value])
    ensures w.a == Some(lines[s.first.value].rec) && w.b == Some(lines[s.last.value].rec)
  {
  }

  /** The tick advances from one sample of the window to a later one. */
  ghost predicate TickAdvances(lines: seq<Line>, s: Span) {
    exists i, j :: s.mark < i < j < s.stop && j < |lines| && IsSample(lines[i]) && IsSample(lines[j])
                   && lines[i].rec[TICK] < lines[j].rec[TICK]
  }

  lemma RowAdvances(lines: seq<Line>, w: Window, s: Span)
    requires Placed(lines, w, s) && HasRow(w)
    ensures s.fate == Closed && TickAdvances(lines, s)
  {
    RowIsInside(lines, w, s);
    hide Placed;
    var i, j := s.first.value, s.last.value;
    assert i < j && lines[i].rec[TICK] < lines[j].rec[TICK];
  }

  lemma AdvanceHasRow(lines: seq<Line>, w: Window, s: Span, i: nat, j: nat)
    requires Placed(lines, w, s) && NonDecreasing(lines, TICK) && s.fate == Closed && s.mark < i < j < s.stop
    requires IsSample(lines[i]) && IsSample(lines[j]) && lines[i].rec[TICK] < lines[j].rec[TICK]
    ensures HasRow(w)
  {
    var f, l := s.first.value, s.last.value;
    assert f <= i && j <= l && IsSample(lines[f]) && IsSample(lines[l]);
    assert w.a == Some(lines[f].rec) && w.b == Some(lines[l].rec);
    assert Get(lines[f].rec, TICK) <= Get(lines[i].rec, TICK) && Get(lines[j].rec, TICK) <= Get(lines[l].rec, TICK);
  }

  /** Where ticks never go back, a window has a row exactly when it is closed and the tick advances in it. */
  lemma RowIff(lines: seq<Line>, w: Window, s: Span)
    requires Placed(lines, w, s) && NonDecreasing(lines, TICK)
    ensures HasRow(w) <==> s.fate == Closed && TickAdvances(lines, s)
  {
    if HasRow(w) {
      RowAdvances(lines, w, s);
    }
    if s.fate == Closed && TickAdvances(lines, s) {
      var i, j :| s.mark < i < j < s.stop && j < |lines| && IsSample(lines[i]) && IsSample(lines[j])
                  && lines[i].rec[TICK] < lines[j].rec[TICK];
      AdvanceHasRow(lines, w, s, i, j);
    }
  }

  lemma DeltaNonNegative(lines: seq<Line>, w: Window, s: Span, field: Name)
    requires Placed(lines, w, s) && NonDecreasing(lines, field)
    ensures Delta(w, field) >= 0
  {
    if HasRow(w) {
      RowIsInside(lines, w, s);
    }
  }

  /** The sum of the first deltas is at most the counter's advance up to the last sample used. */
  lemma {:induction false} SumUpTo(lines: seq<Line>, out: seq<Window>, spans: seq<Span>, field: Name,
                                   f: nat, n: nat, l: nat)
    requires AllPlaced(lines, out, spans) && NonDecreasing(lines, field)
    requires f < n <= |lines| && IsSample(lines[f]) && NoSample(lines, 0, f)
    requires f <= l < |lines| && IsSample(lines[l]) && NoSample(lines, l + 1, n)
    requires spans != [] ==> spans[|spans| - 1].stop <= n
    ensures 0 <= Sum(out, field) <= Get(lines[l].rec, field) - Get(lines[f].rec, field)
    decreases |out|
  {
    if out != [] {
      var z := |out| - 1;
      DeltaNonNegative(lines, out[z], spans[z], field);
      if HasRow(out[z]) {
        var first := RowInRange(lines, out[z], spans[z], field, f, n, l);
        SumUpTo(lines, out[..z], spans[..z], field, f, first + 1, first);
      } else {
        SumUpTo(lines, out[..z], spans[..z], field, f, n, l);
      }
    }
  }

  /** A reported window starts at a sample not before the first, and advances no further than the last. */
  lemma RowInRange(lines: seq<Line>, w: Window, s: Span, field: Name, f: nat, n: nat, l: nat) returns (first: nat)
    requires Placed(lines, w, s) && NonDecreasing(lines, field) && HasRow(w) && s.stop <= n <= |lines|
    requires f < n && IsSample(lines[f]) && NoSample(lines, 0, f)
    requires f <= l < |lines| && IsSample(lines[l]) && NoSample(lines, l + 1, n)
    ensures f <= first < |lines| && s.mark < first && IsSample(lines[first])
    ensures Delta(w, field) <= Get(lines[l].rec, field) - Get(lines[first].rec, field)
  {
    RowIsInside(lines, w, s);
    first := s.first.value;
    assert f <= first && s.last.value <= l;
  }

  lemma {:induction false} NoSampleNoRow(lines: seq<Line>, out: seq<Window>, spans: seq<Span>, field: Name)
    requires AllPlaced(lines, out, spans) && NoSample(lines, 0, |lines|)
    ensures Sum(out, field) == 0
    decreases |out|
  {
    if out != [] {
      var z := |out| - 1;
      assert Placed(lines, out[z], spans[z]);
      NoSampleNoRow(lines, out[..z], spans[..z], field);
    }
  }

  /**
   With counters that never go back, every phase's delta is non-negative and all of them
   together never exceed the advance of the whole stream, because the windows are disjoint.
   */
  lemma DeltasWithinAdvance(lines: seq<Line>, out: seq<Window>, spans: seq<Span>, field: Name,
                            first: Option<nat>, last: Option<nat>)
    requires AllPlaced(lines, out, spans) && NonDecreasing(lines, field)
    requires FirstSample(lines, 0, |lines|, first) && LastSample(lines, |lines|, last)
    ensures forall k :: 0 <= k < |out| ==> Delta(out[k], field) >= 0
    ensures 0 <= Sum(out, field)
    ensures match first
            case None => Sum(out, field) == 0
            case Some(f) =>
              last.Some? && Sum(out, field) <= Get(lines[last.value].rec, field) - Get(lines[f].rec, field)
  {
    forall k | 0 <= k < |out| ensures Delta(out[k], field) >= 0 {
      PlacedAt(lines, out, spans, k);
      DeltaNonNegative(lines, out[k], spans[k], field);
    }
    if first.None? {
      NoSampleNoRow(lines, out, spans, field);
    } else {
      assert out != [] ==> Placed(lines, out[|out| - 1], spans[|out| - 1]);
      SumUpTo(lines, out, spans, field, first.value, |lines|, last.value);
    }
  }
}
