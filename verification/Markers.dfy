/** Sequence-numbered completion markers (`run` of m13_cosmic_config.py). */
module Markers {
  import opened Wrappers
  import opened Bytes
  import opened Serial
  import opened Patterns

  const DASH: byte := 45
  /** The text "M13-". */
  const M13: seq<byte> := [77, 49, 51, 45]
  /** The text "-DONE". */
  const DONE: seq<byte> := [45, 68, 79, 78, 69]
  /** The text "; echo ". */
  const ECHO: seq<byte> := [59, 32, 101, 99, 104, 111, 32]
  /** The text "$?". */
  const STATUS: seq<byte> := [36, 63]

  lemma TextsOfMarkers()
    ensures Says(M13, "M13-") && Says(DONE, "-DONE") && Says(ECHO, "; echo ") && Says(STATUS, "$?")
  {}

  lemma SampleTail()
    ensures Tail(7) == [45, 55, 45, 68, 79, 78, 69]
  {}

  lemma SampleMarker()
    ensures Says(DoneText(1, 7), "M13-1-7-DONE")
  {
    SampleTail();
    hide Tail;
    assert DoneText(1, 7) == [77, 49, 51, 45, 49, 45, 55, 45, 68, 79, 78, 69];
  }

  lemma SampleCommand()
    ensures Says(Typed([], 7), "; echo M13-$?-7-DONE")
  {
    SampleTail();
    hide Tail, Show;
    assert Typed([], 7) == [59, 32, 101, 99, 104, 111, 32, 77, 49, 51, 45, 36, 63, 45, 55, 45, 68, 79, 78, 69];
  }

  function Tail(n: nat): seq<byte> {
    [DASH] + Show(10, n) + DONE
  }

  /** The pattern M13-(\d+)-n-DONE at the start of a text. */
  function MarkerHere(s: seq<byte>, n: nat): (r: Option<nat>)
    ensures r.Some? ==> r.value <= |s|
  {
    if !(M13 <= s) then None
    else
      var d := Lead(s[4..]);
      if d >= 1 && Tail(n) <= s[4 + d..] then Some(4 + d + |Tail(n)|) else None
  }

  function Marker(n: nat): Here {
    s => MarkerHere(s, n)
  }

  /** The exit status in the first marker numbered `n` of a text. */
  function StatusIn(t: seq<byte>, n: nat): Option<nat> {
    match Leftmost(Marker(n), t, 0)
    case None => None
    case Some(hit) => Some(StatusAt(t[hit.start..]))
  }

  function StatusAt(s: seq<byte>): nat {
    if |s| < 4 then 0 else Value(10, s[4..4 + Lead(s[4..])])
  }

  // ---- A marker, once read, is not changed by what follows ----

  lemma MarkerBytes(s: seq<byte>, n: nat)
    requires MarkerHere(s, n).Some?
    ensures MatchAnchored(s, MarkerHere(s, n).value, M13[0], 0)
  {
    var d, tail := Lead(s[4..]), Tail(n);
    var len := MarkerHere(s, n).value;
    forall j | 0 < j < len ensures s[j] != M13[0] {
      if j < 4 {
        assert s[j] == M13[j];
      } else if j < 4 + d {
        assert s[j] == s[4..][..d][j - 4];
      } else {
        assert s[j] == s[4 + d..][j - 4 - d] == tail[j - 4 - d];
        TailBytes(n, j - 4 - d);
      }
    }
  }

  lemma TailBytes(n: nat, k: nat)
    requires k < |Tail(n)|
    ensures Tail(n)[k] != M13[0]
  {
    var d := Show(10, n);
    if 0 < k <= |d| {
      assert Tail(n)[k] == d[k - 1] && IsDigit(10, d[k - 1]);
    } else if k > |d| {
      assert Tail(n)[k] == DONE[k - 1 - |d|];
    }
  }

  lemma MarkerLocal(s: seq<byte>, t: seq<byte>, n: nat)
    requires MarkerHere(s + t, n).Some? && MarkerHere(s + t, n).value <= |s|
    ensures MarkerHere(s, n).Some?
  {
    var u := s + t;
    var d := Lead(u[4..]);
    assert M13 <= s;
    assert u[4..][..d] == s[4..][..d];
    assert s[4..] == s[4..][..d] + s[4 + d..];
    assert u[4 + d..] == s[4 + d..] + t;
    assert s[4 + d] == u[4 + d];
    LeadOf(s[4..][..d], s[4 + d..]);
    assert Tail(n) <= s[4 + d..];
  }

  lemma MarkerKept(s: seq<byte>, t: seq<byte>, n: nat)
    requires MarkerHere(s, n).Some?
    ensures MarkerHere(s + t, n) == MarkerHere(s, n)
  {
    DropKept(s, t, 4);
    SpanKept(Decimal, s[4..], t);
    DropKept(s, t, 4 + Lead(s[4..]));
  }

  lemma MarkerAnchored(n: nat)
    ensures Anchored(Marker(n), M13[0], 0)
  {
    forall s | Marker(n)(s).Some? ensures MatchAnchored(s, Marker(n)(s).value, M13[0], 0) {
      MarkerBytes(s, n);
    }
    forall s, t ensures Local(Marker(n), s, t) {
      if MarkerHere(s + t, n).Some? && MarkerHere(s + t, n).value <= |s| {
        MarkerLocal(s, t, n);
      }
    }
  }

  /** The wait for a marker reads the same status however the stream is cut. */
  lemma MarkerReadsAreChunkIndependent(n: nat)
    ensures Sound(Searching(Marker(n))) && ChunkIndependent(Searching(Marker(n)))
  {
    var search := Searching(Marker(n));
    MarkerAnchored(n);
    forall t ensures search(t).Some? ==> search(t).value.start <= search(t).value.end <= |t| {
      LeftmostIsFirst(Marker(n), t, 0);
    }
    forall s, t ensures Extends(search, s, t) {
      if search(s).Some? {
        LeftmostIsFirst(Marker(n), s, 0);
        MarkerKept(s[search(s).value.start..], t, n);
        ExtendsIffMatchDoes(Marker(n), M13[0], 0, s, t);
      }
    }
    ChunkIndependentIff(search);
  }

  // ---- Redraws and other markers ----

  /**
   A stretch of the console up to a carriage return or newline. The line editor draws the input
   line again after every few bytes it is sent, each time behind a carriage return, so the
   console holds the typed text cut short at any point.
   */
  datatype Line =
    | Redraw(cmd: seq<byte>, n: nat, shown: nat, end: End) // the first `shown` bytes of the typed line
    | Done(status: nat, n: nat, end: End)                  // the marker another command printed
    | Output(text: seq<byte>, end: End)

  datatype End = Return | Newline

  function EndByte(end: End): byte {
    if end == Return then 13 else NEWLINE
  }

  ghost predicate Quiet(text: seq<byte>) {
    forall i :: 0 <= i <= |text| ==> !(M13 <= text[i..])
  }

  /** "M13-" may occur, but no digit follows it. */
  ghost predicate Unexpanded(text: seq<byte>) {
    forall i :: 0 <= i <= |text| && M13 <= text[i..] ==> i + 4 < |text| ==> !IsDigit(10, text[i + 4])
  }

  function DoneText(status: nat, n: nat): seq<byte> {
    M13 + Show(10, status) + Tail(n)
  }

  /** The line as it is typed, prompt and command first, with the status not yet expanded. */
  function Typed(cmd: seq<byte>, n: nat): seq<byte> {
    cmd + ECHO + (M13 + STATUS + Tail(n))
  }

  function Text(line: Line): seq<byte> {
    match line
    case Redraw(cmd, n, shown, _) => if shown < |Typed(cmd, n)| then Typed(cmd, n)[..shown] else Typed(cmd, n)
    case Done(status, n, _) => DoneText(status, n)
    case Output(text, _) => text
  }

  function Noise(lines: seq<Line>): seq<byte> {
    if lines == [] then [] else Text(lines[0]) + [EndByte(lines[0].end)] + Noise(lines[1..])
  }

  /** The command does not hold "M13-", output never a digit behind it, and no other command used number `n`. */
  ghost predicate Harmless(line: Line, n: nat) {
    match line
    case Redraw(cmd, _, _, _) => Quiet(cmd)
    case Done(_, m, _) => m != n
    case Output(text, _) => Unexpanded(text)
  }

  lemma UnexpandedThen(x: seq<byte>, end: End, rest: seq<byte>, j: nat, n: nat)
    requires Unexpanded(x) && j <= |x|
    ensures MarkerHere((x + [EndByte(end)] + rest)[j..], n) == None
  {
    var s := (x + [EndByte(end)] + rest)[j..];
    assert s[|x| - j] == EndByte(end);
    if |x| - j < 4 {
      assert M13[|x| - j] != EndByte(end);
    } else if M13 <= s {
      assert x[j..][..4] == s[..4];
      assert s[4..][0] == if j + 4 < |x| then x[j + 4] else EndByte(end);
    }
  }

  lemma NotAnM(s: seq<byte>, j: nat, n: nat)
    requires j < |s| && s[j] != M13[0]
    ensures MarkerHere(s[j..], n) == None
  {
    assert s[j..][0] == s[j];
  }

  /** "M13-" occurs in the typed line only where the marker is, with a dollar sign behind it. */
  lemma TypedIsUnexpanded(cmd: seq<byte>, n: nat)
    requires Quiet(cmd)
    ensures Unexpanded(Typed(cmd, n))
  {
    var t, m := Typed(cmd, n), |cmd| + 7;
    forall i | 0 <= i <= |t| && M13 <= t[i..] && i + 4 < |t| ensures !IsDigit(10, t[i + 4]) {
      assert t[i] == M13[0] && t[i + 1] == M13[1] && t[i + 2] == M13[2] && t[i + 3] == M13[3];
      if i < |cmd| {
        CommandHoldsNone(cmd, n, i);
      } else if i > m {
        TypedTailBytes(cmd, n, i);
      } else if i == m {
        assert t[i + 4] == STATUS[0];
      }
    }
  }

  lemma CommandHoldsNone(cmd: seq<byte>, n: nat, i: nat)
    requires Quiet(cmd) && i < |cmd|
    ensures !(M13 <= Typed(cmd, n)[i..])
  {
    var t := Typed(cmd, n);
    if i + 4 <= |cmd| {
      assert cmd[i..][..4] == t[i..][..4];
      assert !(M13 <= cmd[i..]);
    } else {
      assert t[i..][|cmd| - i] == ECHO[0] != M13[|cmd| - i];
    }
  }

  lemma TypedTailBytes(cmd: seq<byte>, n: nat, i: nat)
    requires |cmd| + 7 < i < |Typed(cmd, n)|
    ensures Typed(cmd, n)[i] != M13[0]
  {
    var k := i - |cmd| - 7;
    if k < 4 {
      assert Typed(cmd, n)[i] == M13[k];
    } else if k < 6 {
      assert Typed(cmd, n)[i] == STATUS[k - 4];
    } else {
      assert Typed(cmd, n)[i] == Tail(n)[k - 6];
      TailBytes(n, k - 6);
    }
  }

  lemma CutIsUnexpanded(text: seq<byte>, shown: nat)
    requires Unexpanded(text) && shown <= |text|
    ensures Unexpanded(text[..shown])
  {
    forall i | 0 <= i <= shown && M13 <= text[..shown][i..] && i + 4 < shown
      ensures !IsDigit(10, text[..shown][i + 4])
    {
      assert text[..shown][i..] <= text[i..];
    }
  }

  lemma RedrawNoMatch(line: Line, rest: seq<byte>, j: nat, n: nat)
    requires line.Redraw? && Harmless(line, n) && j <= |Text(line)|
    ensures MarkerHere((Text(line) + [EndByte(line.end)] + rest)[j..], n) == None
  {
    TypedIsUnexpanded(line.cmd, line.n);
    if line.shown < |Typed(line.cmd, line.n)| {
      CutIsUnexpanded(Typed(line.cmd, line.n), line.shown);
    }
    UnexpandedThen(Text(line), line.end, rest, j, n);
  }

  /** Two numbers printed before the same non-digit text are equal. */
  lemma TailDetermines(m: nat, n: nat, rest: seq<byte>)
    requires Tail(n) <= Tail(m) + rest
    ensures m == n
  {
    var a, b, u := Show(10, m), Show(10, n), Tail(m) + rest;
    var rest' := u[|Tail(n)|..];
    assert u == Tail(n) + rest';
    TailPieces(m, rest);
    TailPieces(n, rest');
    LeadOf(a, DONE + rest);
    LeadOf(b, DONE + rest');
    assert a == u[1..][..Lead(u[1..])] == b;
    ShowInjective(10, m, n);
  }

  lemma TailPieces(m: nat, rest: seq<byte>)
    ensures (Tail(m) + rest)[1..] == Show(10, m) + (DONE + rest)
  {}

  lemma DoneHere(status: nat, m: nat, rest: seq<byte>, n: nat)
    ensures var s := DoneText(status, m) + rest;
            && (m == n ==> MarkerHere(s, n) == Some(|DoneText(status, m)|) && StatusAt(s) == status)
            && (m != n ==> MarkerHere(s, n) == None)
  {
    var d, s := Show(10, status), DoneText(status, m) + rest;
    DonePieces(d, Tail(m), rest);
    LeadOf(d, Tail(m) + rest);
    ValueOfShow(10, status);
    if Tail(n) <= Tail(m) + rest {
      TailDetermines(m, n, rest);
    }
  }

  lemma DonePieces(d: seq<byte>, tail: seq<byte>, rest: seq<byte>)
    ensures var s := M13 + d + tail + rest;
            && M13 <= s && s[4..] == d + (tail + rest) && s[4..4 + |d|] == d && s[4 + |d|..] == tail + rest
  {
    Assoc(M13, d, tail);
    Assoc(M13, d + tail, rest);
    Assoc(d, tail, rest);
    DropPast(M13, d + (tail + rest), 0);
    DropPast(M13 + d, tail + rest, 0);
    Middle(M13, d, tail + rest);
  }

  lemma DoneBytes(status: nat, m: nat, j: nat)
    requires 0 < j < |DoneText(status, m)|
    ensures DoneText(status, m)[j] != M13[0]
  {
    var d := Show(10, status);
    if 4 <= j < 4 + |d| {
      assert DoneText(status, m)[j] == d[j - 4] && IsDigit(10, d[j - 4]);
    } else if 4 + |d| <= j {
      assert DoneText(status, m)[j] == Tail(m)[j - 4 - |d|];
      TailBytes(m, j - 4 - |d|);
    }
  }

  lemma DoneNoMatch(line: Line, rest: seq<byte>, j: nat, n: nat)
    requires line.Done? && Harmless(line, n) && j <= |Text(line)|
    ensures MarkerHere((Text(line) + [EndByte(line.end)] + rest)[j..], n) == None
  {
    var d, end := DoneText(line.status, line.n), [EndByte(line.end)];
    Assoc(d, end, rest);
    var s := d + (end + rest);
    if j == 0 {
      DoneHere(line.status, line.n, end + rest, n);
      assert s[0..] == s;
    } else {
      if j < |d| {
        DoneBytes(line.status, line.n, j);
        assert s[j] == d[j];
      } else {
        assert s[j] == EndByte(line.end);
      }
      NotAnM(s, j, n);
    }
  }

  lemma LineNoMatch(line: Line, rest: seq<byte>, j: nat, n: nat)
    requires Harmless(line, n) && j <= |Text(line)|
    ensures MarkerHere((Text(line) + [EndByte(line.end)] + rest)[j..], n) == None
  {
    match line
    case Redraw(_, _, _, _) => RedrawNoMatch(line, rest, j, n);
    case Done(_, _, _) => DoneNoMatch(line, rest, j, n);
    case Output(text, end) => UnexpandedThen(text, end, rest, j, n);
  }

  lemma {:induction false} NoiseNoMatch(lines: seq<Line>, rest: seq<byte>, j: nat, n: nat)
    requires forall i :: 0 <= i < |lines| ==> Harmless(lines[i], n)
    requires j < |Noise(lines)|
    ensures MarkerHere((Noise(lines) + rest)[j..], n) == None
  {
    var line, more := Text(lines[0]) + [EndByte(lines[0].end)], Noise(lines[1..]);
    var u := more + rest;
    assert Noise(lines) + rest == line + u by {
      Assoc(line, more, rest);
    }
    if j <= |Text(lines[0])| {
      LineNoMatch(lines[0], u, j, n);
    } else {
      NoiseNoMatch(lines[1..], rest, j - |line|, n);
      assert (line + u)[j..] == u[j - |line|..] by {
        DropPast(line, u, j - |line|);
      }
    }
  }

  /** Output that ends without a newline, right before a marker. */
  lemma UnexpandedBeforeMarker(x: seq<byte>, status: nat, m: nat, rest: seq<byte>, j: nat, n: nat)
    requires Unexpanded(x) && j < |x|
    ensures MarkerHere((x + (DoneText(status, m) + rest))[j..], n) == None
  {
    var s := (x + (DoneText(status, m) + rest))[j..];
    assert s[|x| - j] == DoneText(status, m)[0] == M13[0];
    if |x| - j < 4 {
      assert M13[|x| - j] != M13[0];
    } else if M13 <= s {
      assert x[j..][..4] == s[..4];
      assert s[4..][0] == if j + 4 < |x| then x[j + 4] else M13[0];
    }
  }

  lemma NoneInNoise(lines: seq<Line>, rest: seq<byte>, n: nat)
    requires forall i :: 0 <= i < |lines| ==> Harmless(lines[i], n)
    ensures NoneBefore(Marker(n), Noise(lines) + rest, 0, |Noise(lines)|)
  {
    forall j | 0 <= j < |Noise(lines)| ensures Marker(n)((Noise(lines) + rest)[j..]) == None {
      NoiseNoMatch(lines, rest, j, n);
    }
  }

  lemma NoneBeforeOwn(lines: seq<Line>, x: seq<byte>, n: nat, status: nat, rest: seq<byte>)
    requires (forall i :: 0 <= i < |lines| ==> Harmless(lines[i], n)) && Unexpanded(x)
    ensures NoneBefore(Marker(n), Noise(lines) + (x + (DoneText(status, n) + rest)), 0, |Noise(lines)| + |x|)
  {
    var noise, u := Noise(lines), x + (DoneText(status, n) + rest);
    NoneInNoise(lines, u, n);
    forall j | 0 <= j < |noise| + |x| ensures Marker(n)((noise + u)[j..]) == None {
      if |noise| <= j {
        NoneInOutput(noise, x, n, status, rest, j);
      }
    }
  }

  lemma NoneInOutput(noise: seq<byte>, x: seq<byte>, n: nat, status: nat, rest: seq<byte>, j: nat)
    requires Unexpanded(x) && |noise| <= j < |noise| + |x|
    ensures MarkerHere((noise + (x + (DoneText(status, n) + rest)))[j..], n) == None
  {
    hide MarkerHere, DoneText, Unexpanded;
    DropPast(noise, x + (DoneText(status, n) + rest), j - |noise|);
    UnexpandedBeforeMarker(x, status, n, rest, j - |noise|, n);
  }

  /**
   The status comes from this attempt or not at all: redraws, other output and the markers of
   other attempts never match, and the attempt's own marker is found behind any amount of them
   and behind output `x` that has no newline at its end.
   */
  lemma StatusIsOwn(lines: seq<Line>, x: seq<byte>, n: nat, status: nat, rest: seq<byte>)
    requires (forall i :: 0 <= i < |lines| ==> Harmless(lines[i], n)) && Unexpanded(x)
    ensures StatusIn(Noise(lines), n) == None
    ensures StatusIn(Noise(lines) + (x + (DoneText(status, n) + rest)), n) == Some(status)
  {
    NoiseHasNone(lines, n);
    NoneBeforeOwn(lines, x, n, status, rest);
    OwnIsFound(Noise(lines), x, n, status, rest);
  }

  lemma NoiseHasNone(lines: seq<Line>, n: nat)
    requires forall i :: 0 <= i < |lines| ==> Harmless(lines[i], n)
    ensures StatusIn(Noise(lines), n) == None
  {
    var noise := Noise(lines);
    NoneInNoise(lines, [], n);
    assert noise + [] == noise && noise[|noise|..] == [];
    LeftmostIsFirst(Marker(n), noise, 0);
  }

  lemma OwnIsFound(noise: seq<byte>, x: seq<byte>, n: nat, status: nat, rest: seq<byte>)
    requires NoneBefore(Marker(n), noise + (x + (DoneText(status, n) + rest)), 0, |noise| + |x|)
    ensures StatusIn(noise + (x + (DoneText(status, n) + rest)), n) == Some(status)
  {
    var own := DoneText(status, n) + rest;
    var t, i := noise + (x + own), |noise| + |x|;
    DropPast(noise, x + own, |x|);
    DropPast(x, own, 0);
    assert own[0..] == own && t[i..] == own;
    DoneHere(status, n, rest, n);
    LeftmostFinds(Marker(n), t, 0, i);
  }

  // ---- Running a command ----

  lemma StatusKept(s: seq<byte>, more: seq<byte>, n: nat)
    requires MarkerHere(s, n).Some?
    ensures StatusAt(s + more) == StatusAt(s)
  {
    DropKept(s, more, 4);
    SpanKept(Decimal, s[4..], more);
    SliceKept(s, more, 4, 4 + Lead(s[4..]));
  }

  lemma MarkerFound(t: seq<byte>, n: nat, hit: Hit)
    requires Leftmost(Marker(n), t, 0) == Some(hit)
    ensures hit.start <= hit.end <= |t| && MarkerHere(t[hit.start..], n) == Some(hit.end - hit.start)
  {
    LeftmostHit(Marker(n), t, hit);
    assert Marker(n)(t[hit.start..]) == MarkerHere(t[hit.start..], n);
  }

  /** The status read from the consumed text is that of the whole stream. */
  lemma StatusFromPrefix(text: seq<byte>, more: seq<byte>, hit: Hit, n: nat)
    requires hit.end == |text| && Leftmost(Marker(n), text + more, 0) == Some(hit)
    ensures hit.start <= |text| && StatusIn(text + more, n) == Some(StatusAt(text[hit.start..]))
  {
    MarkerFound(text + more, n, hit);
    var s := text[hit.start..];
    DropKept(text, more, hit.start);
    MarkerLocal(s, more, n);
    StatusKept(s, more, n);
  }

  lemma Regroup(text: seq<byte>, buf: seq<byte>, pending: seq<byte>, all: seq<byte>)
    requires [] + text + buf + pending == [] + all
    ensures text + (buf + pending) == all
  {
    assert [] + text + buf + pending == text + (buf + pending);
    assert [] + all == all;
  }

  lemma MarkerRead(n: nat, waits: seq<seq<seq<byte>>>)
    ensures Sound(Searching(Marker(n)))
    ensures ReadHit(Searching(Marker(n)), [], waits) == Leftmost(Marker(n), Arrived(waits), 0)
  {
    MarkerReadsAreChunkIndependent(n);
    assert [] + Arrived(waits) == Arrived(waits);
  }

  class Runner {
    const con: Console
    /** The last sequence number used. */
    var number: nat

    constructor (con: Console)
      ensures this.con == con && number == 0
    {
      this.con, number := con, 0;
    }

    /** One attempt: a fresh number, a cleared buffer, then the wait for the marker. */
    method Attempt(settle: seq<seq<byte>>, waits: seq<seq<seq<byte>>>) returns (status: Option<nat>)
      requires con.Valid()
      modifies this, con
      ensures con.Valid() && number == old(number) + 1
      ensures status == StatusIn(Arrived(waits), number)
    {
      number := number + 1;
      con.Pump(settle);
      con.Send();
      MarkerRead(number, waits);
      var m, text, pending := con.ReadUntil(Searching(Marker(number)), waits);
      if m.None? {
        return None;
      }
      Regroup(text, con.buf, pending, Arrived(waits));
      StatusFromPrefix(text, con.buf + pending, m.value, number);
      status := Some(StatusAt(text[m.value.start..]));
    }

    /**
     Run a command with one retry. `settle` is what arrives before the command is typed,
     `waits` what arrives while waiting for the marker, per attempt.
     */
    method Run(settle: seq<seq<seq<byte>>>, waits: seq<seq<seq<seq<byte>>>>) returns (status: Option<nat>)
      requires con.Valid() && |settle| == |waits| == 2
      modifies this, con
      ensures con.Valid()
      ensures var first := StatusIn(Arrived(waits[0]), old(number) + 1);
              && status == (if first.Some? then first else StatusIn(Arrived(waits[1]), old(number) + 2))
              && number == old(number) + (if first.Some? then 1 else 2)
    {
      hide StatusIn;
      ghost var first := StatusIn(Arrived(waits[0]), number + 1);
      ghost var second := StatusIn(Arrived(waits[1]), number + 2);
      for attempt := 0 to 2
        invariant con.Valid() && number == old(number) + attempt
        invariant attempt > 0 ==> first == None
        invariant attempt > 1 ==> second == None
      {
        status := Attempt(settle[attempt], waits[attempt]);
        if status.Some? {
          return;
        }
      }
      return None;
    }
  }
}
