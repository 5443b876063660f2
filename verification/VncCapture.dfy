/**
 A whole screen capture (`vnc_capture` of m9_vkcap_a64.py): request a full update, wait for it, and
 ask again until every pixel has been seen or time is up.

 Time is a budget: `patience[i]` is how many messages request i waits for. A silence between two
 messages ends a wait, so it is a small budget; a silence inside a message raises, so it is the
 end of what the server sends.
 */
module VncCapture {
  import opened Wrappers
  import opened Bytes
  import opened Grid
  import opened Framebuffer
  import opened Rfb

  /** What a conforming server sends: well-formed messages, rectangles on the screen. */
  ghost predicate Conforms(m: Message, w: nat, h: nat) {
    MessageOk(m) && (m.Update? ==> forall j :: 0 <= j < |m.rects| ==> m.rects[j].Inside(w, h))
  }

  ghost predicate SentOk(sent: seq<Message>, w: nat, h: nat) {
    forall i :: 0 <= i < |sent| ==> Conforms(sent[i], w, h)
  }

  /** The stream breaks off here: at the end of a message, or inside one. */
  ghost predicate TailOk(part: seq<byte>, w: nat, h: nat) {
    part == [] || exists m :: Conforms(m, w, h) && CutShort(part, m)
  }

  // ---- Rectangles on the screen ----

  lemma {:induction false} EncodedRectsInside(rects: seq<Rect>, rest: seq<byte>, w: nat, h: nat)
    requires forall i :: 0 <= i < |rects| ==> RectOk(rects[i]) && rects[i].Inside(w, h)
    ensures RectsInside(EncodeRects(rects) + rest, |rects|, w, h)
  {
    if rects != [] {
      var tail := EncodeRects(rects[1..]) + rest;
      Assoc(EncodeRect(rects[0]), EncodeRects(rects[1..]), rest);
      EncodedRectsInside(rects[1..], rest, w, h);
      OneMoreInside(rects[0], tail, |rects|, w, h);
    }
  }

  lemma OneMoreInside(r: Rect, rest: seq<byte>, n: nat, w: nat, h: nat)
    requires n > 0 && RectOk(r) && r.Inside(w, h) && RectsInside(rest, n - 1, w, h)
    ensures RectsInside(EncodeRect(r) + rest, n, w, h)
  {
    ParseEncodedRect(r, rest);
  }

  lemma UpdateInside(pad: byte, n: nat, body: seq<byte>, w: nat, h: nat)
    requires n < TWO16 && RectsInside(body, n, w, h)
    ensures NextInside([0, pad] + E16(n) + body, w, h)
  {
    var s := [0, pad] + E16(n) + body;
    assert s[2..4] == E16(n);
    assert s[4..] == body;
  }

  lemma NotAnUpdate(m: Message, rest: seq<byte>)
    requires MessageOk(m) && !m.Update?
    ensures Encode(m) != [] && (Encode(m) + rest)[0] != 0
  {}

  lemma EncodedInside(m: Message, rest: seq<byte>, w: nat, h: nat)
    requires Conforms(m, w, h)
    ensures Encode(m) != [] && NextInside(Encode(m) + rest, w, h)
  {
    if m.Update? {
      EncodedRectsInside(m.rects, rest, w, h);
      UpdateInside(m.pad, |m.rects|, EncodeRects(m.rects) + rest, w, h);
      assert Encode(m) + rest == [0, m.pad] + E16(|m.rects|) + (EncodeRects(m.rects) + rest);
    } else {
      NotAnUpdate(m, rest);
    }
  }

  lemma {:induction false} FewerRectsInside(s: seq<byte>, t: seq<byte>, n: nat, w: nat, h: nat)
    requires RectsInside(s + t, n, w, h)
    ensures RectsInside(s, n, w, h)
    decreases n
  {
    if n > 0 && ParseRect(s).Ok? {
      RectStands(s, t);
      FewerRectsInside(ParseRect(s).value.1, t, n - 1, w, h);
    }
  }

  lemma CutShortInside(part: seq<byte>, m: Message, w: nat, h: nat)
    requires Conforms(m, w, h) && CutShort(part, m)
    ensures NextInside(part, w, h)
  {
    var missing := Encode(m)[|part|..];
    assert Encode(m) + [] == part + missing;
    EncodedInside(m, [], w, h);
    if |part| >= 4 {
      assert (part + missing)[2..4] == part[2..4] && (part + missing)[4..] == part[4..] + missing;
      if part[0] == 0 {
        FewerRectsInside(part[4..], missing, U16(part[2..4]), w, h);
      }
    }
  }

  // ---- How far a capture gets ----

  ghost predicate Full(rects: seq<Rect>, w: nat, h: nat) {
    forall p :: InGrid(p, w, h) ==> Covered(rects, p)
  }

  /** Message `j - 1` is an update, and with it the screen is complete. */
  ghost predicate Completes(sent: seq<Message>, j: nat, w: nat, h: nat) {
    0 < j <= |sent| && sent[j - 1].Update? && Full(RectsOf(sent[..j]), w, h)
  }

  /** Where a wait from message `k` on ends: behind the first update, out of patience, or out of messages. */
  ghost function WaitEnd(sent: seq<Message>, k: nat, turns: nat): (j: nat)
    requires k <= |sent|
    ensures k <= j <= |sent|
    decreases turns
  {
    if turns == 0 || k == |sent| then k
    else if sent[k].Update? then k + 1
    else WaitEnd(sent, k + 1, turns - 1)
  }

  /** The wait runs into the end of a stream that is `broken`: closed, or cut inside a message. */
  ghost predicate WaitFails(sent: seq<Message>, k: nat, turns: nat, broken: bool)
    requires k <= |sent|
    decreases turns
  {
    turns > 0 && if k == |sent| then broken else !sent[k].Update? && WaitFails(sent, k + 1, turns - 1, broken)
  }

  datatype Outcome = Failed | Stopped(k: nat)

  /** Where the requests, one for each budget, get from message `k` on. */
  ghost function Run(sent: seq<Message>, k: nat, patience: seq<nat>, w: nat, h: nat, broken: bool): (o: Outcome)
    requires k <= |sent|
    ensures o.Stopped? ==> k <= o.k <= |sent|
    decreases |patience|
  {
    if patience == [] then Stopped(k)
    else if WaitFails(sent, k, patience[0], broken) then Failed
    else
      var j := WaitEnd(sent, k, patience[0]);
      if Full(RectsOf(sent[..j]), w, h) then Stopped(j) else Run(sent, j, patience[1..], w, h, broken)
  }

  lemma {:induction false} WaitMeaning(sent: seq<Message>, k: nat, turns: nat, broken: bool)
    requires k <= |sent|
    ensures var j := WaitEnd(sent, k, turns);
            && (forall i :: k <= i < j - 1 ==> !sent[i].Update?)
            && ((k < j && sent[j - 1].Update?) || j - k == turns || j == |sent|)
            && (WaitFails(sent, k, turns, broken) <==>
                  broken && j == |sent| && j - k < turns && !(k < j && sent[j - 1].Update?))
    decreases turns
  {
    if turns > 0 && k < |sent| && !sent[k].Update? {
      WaitMeaning(sent, k + 1, turns - 1, broken);
    }
  }

  /** A capture never reads past the update that completes the screen. */
  lemma {:induction false} RunStopsAtCompletion(sent: seq<Message>, k: nat, patience: seq<nat>,
                                                w: nat, h: nat, broken: bool)
    requires k <= |sent| && forall i: nat :: i <= k ==> !Completes(sent, i, w, h)
    ensures match Run(sent, k, patience, w, h, broken)
            case Stopped(j) => forall i: nat :: i < j ==> !Completes(sent, i, w, h)
            case Failed => forall i: nat :: !Completes(sent, i, w, h)
    decreases |patience|
  {
    if patience != [] {
      var j := WaitEnd(sent, k, patience[0]);
      WaitMeaning(sent, k, patience[0], broken);
      forall i: nat | i < j ensures !Completes(sent, i, w, h) {
        assert k < i ==> !sent[i - 1].Update?;
      }
      if !WaitFails(sent, k, patience[0], broken) && !Full(RectsOf(sent[..j]), w, h) {
        RunStopsAtCompletion(sent, j, patience[1..], w, h, broken);
      }
    }
  }

  ghost function Updates(sent: seq<Message>, k: nat): nat
    requires k <= |sent|
    decreases |sent| - k
  {
    if k == |sent| then 0 else (if sent[k].Update? then 1 else 0) + Updates(sent, k + 1)
  }

  /** A wait that outlasts the messages ends behind the next update, if there is one. */
  lemma {:induction false} WaitsForUpdate(sent: seq<Message>, k: nat, turns: nat)
    requires k <= |sent| && turns > |sent| - k
    ensures var j := WaitEnd(sent, k, turns);
            if Updates(sent, k) == 0 then j == |sent| && (k < j ==> !sent[j - 1].Update?)
            else k < j && sent[j - 1].Update? && Updates(sent, j) == Updates(sent, k) - 1
    decreases turns
  {
    if k < |sent| && !sent[k].Update? {
      WaitsForUpdate(sent, k + 1, turns - 1);
    }
  }

  lemma {:induction false} DrainedRun(sent: seq<Message>, patience: seq<nat>, w: nat, h: nat)
    ensures Run(sent, |sent|, patience, w, h, false) == Stopped(|sent|)
    decreases |patience|
  {
    if patience != [] {
      DrainedRun(sent, patience[1..], w, h);
    }
  }

  /**
   With budgets that outlast the stream and one more of them than there are updates, the capture
   stops exactly at the update that completes the screen if there is one. Otherwise it fails if the
   stream breaks off, and has read all of it if not.
   */
  lemma {:induction false} GenerousRun(sent: seq<Message>, k: nat, patience: seq<nat>, w: nat, h: nat, broken: bool)
    requires k <= |sent| && forall i: nat :: i <= k ==> !Completes(sent, i, w, h)
    requires |patience| > Updates(sent, k) && forall i :: 0 <= i < |patience| ==> patience[i] > |sent|
    ensures var o := Run(sent, k, patience, w, h, broken);
            if exists j :: Completes(sent, j, w, h) then o.Stopped? && Completes(sent, o.k, w, h)
            else o == if broken then Failed else Stopped(|sent|)
    decreases |patience|
  {
    var j := WaitEnd(sent, k, patience[0]);
    WaitsForUpdate(sent, k, patience[0]);
    WaitMeaning(sent, k, patience[0], broken);
    forall i: nat | i < j ensures !Completes(sent, i, w, h) {
      assert k < i ==> !sent[i - 1].Update?;
    }
    if Updates(sent, k) == 0 {
      assert forall i: nat :: !Completes(sent, i, w, h);
      DrainedRun(sent, patience[1..], w, h);
    } else if !Completes(sent, j, w, h) {
      GenerousRun(sent, j, patience[1..], w, h, broken);
    }
  }

  // ---- The capture ----

  /** The next message of a conforming stream, while a whole one is left of it. */
  lemma NextOf(sent: seq<Message>, part: seq<byte>, k: nat, w: nat, h: nat)
    requires SentOk(sent, w, h) && k < |sent|
    ensures var s := EncodeAll(sent[k..]) + part;
            && s != [] && NextInside(s, w, h)
            && Parse(s) == Ok((sent[k], EncodeAll(sent[k + 1..]) + part))
    ensures RectsOf(sent[..k + 1]) == RectsOf(sent[..k]) + RectsOf([sent[k]])
  {
    var rest := EncodeAll(sent[k + 1..]);
    assert sent[k..][1..] == sent[k + 1..];
    Assoc(Encode(sent[k]), rest, part);
    ParseEncoded(sent[k], rest + part);
    EncodedInside(sent[k], rest + part, w, h);
    RectsOfNext(sent, k);
  }

  lemma RectsOfNext(sent: seq<Message>, k: nat)
    requires k < |sent|
    ensures RectsOf(sent[..k + 1]) == RectsOf(sent[..k]) + RectsOf([sent[k]])
  {
    assert sent[..k + 1][..k] == sent[..k];
    assert RectsOf([sent[k]][..0]) == [];
  }

  /**
   The screen shows the first `k` messages sent, and the others are still to come, then `part`. The
   messages are named by a cut of `sent`, so that loops carry this without unfolding the encoding;
   `SyncedIff` says it with slices.
   */
  ghost predicate Synced(s: Socket, screen: Screen, sent: seq<Message>, part: seq<byte>, k: nat)
    reads s, screen, screen.fb, screen.seen
  {
    && screen.Valid() && SentOk(sent, screen.w, screen.h) && TailOk(part, screen.w, screen.h) && k <= |sent|
    && forall past, rest :: sent == past + rest && |past| == k && SentOk(rest, screen.w, screen.h) ==>
         screen.drawn == RectsOf(past) && s.incoming == EncodeAll(rest) + part
  }

  lemma SyncedIff(s: Socket, screen: Screen, sent: seq<Message>, part: seq<byte>, k: nat)
    requires screen.Valid() && SentOk(sent, screen.w, screen.h) && TailOk(part, screen.w, screen.h) && k <= |sent|
    ensures Synced(s, screen, sent, part, k) <==>
            screen.drawn == RectsOf(sent[..k]) && s.incoming == EncodeAll(sent[k..]) + part
  {
    assert sent == sent[..k] + sent[k..];
    forall past: seq<Message>, rest: seq<Message> | sent == past + rest && |past| == k
      ensures past == sent[..k] && rest == sent[k..]
    {}
  }

  lemma AtTheEnd(s: Socket, screen: Screen, sent: seq<Message>, part: seq<byte>, k: nat)
    requires Synced(s, screen, sent, part, k)
    ensures k == |sent| ==> s.incoming == part
    ensures k < |sent| ==> s.incoming != []
  {
    SyncedIff(s, screen, sent, part, k);
    if k < |sent| {
      NextOf(sent, part, k, screen.w, screen.h);
    } else {
      assert sent[k..] == [] && [] + part == part;
    }
  }

  /** Handle the next message; there is one exactly while a whole one is left. */
  method OneMessage(s: Socket, screen: Screen, ghost sent: seq<Message>, ghost part: seq<byte>, ghost k: nat)
    returns (r: Result<bool, Error>)
    requires Synced(s, screen, sent, part, k) && s.incoming != []
    modifies s, screen, screen.fb, screen.seen
    ensures k < |sent| ==> r == Ok(sent[k].Update?) && Synced(s, screen, sent, part, k + 1)
    ensures k == |sent| ==> r == Err(Short)
  {
    AtTheEnd(s, screen, sent, part, k);
    if k < |sent| {
      SyncedIff(s, screen, sent, part, k);
      NextOf(sent, part, k, screen.w, screen.h);
    } else {
      ghost var m :| Conforms(m, screen.w, screen.h) && CutShort(part, m);
      CutShortIsShort(part, m);
      CutShortInside(part, m, screen.w, screen.h);
    }
    r := HandleMessage(s, screen);
    if k < |sent| {
      SyncedIff(s, screen, sent, part, k + 1);
    }
  }

  /** The stream is at an end that is an error: closed, or inside a message. */
  ghost predicate Broken(s: Socket, part: seq<byte>) {
    s.closed || part != []
  }

  /** One turn of the inner loop: nothing when the first byte does not come in time. */
  method Turn(s: Socket, screen: Screen, ghost sent: seq<Message>, ghost part: seq<byte>, ghost k: nat)
    returns (r: Option<Result<bool, Error>>)
    requires Synced(s, screen, sent, part, k)
    modifies s, screen, screen.fb, screen.seen
    ensures k < |sent| ==> r == Some(Ok(sent[k].Update?)) && Synced(s, screen, sent, part, k + 1)
    ensures k == |sent| && Broken(s, part) ==> r == Some(Err(Short))
    ensures k == |sent| && !Broken(s, part) ==> r == None && Synced(s, screen, sent, part, k)
  {
    AtTheEnd(s, screen, sent, part, k);
    if s.incoming == [] {
      // Nothing arrives: an end of file is an error, a timeout ends this wait.
      return if s.closed then Some(Err(Short)) else None;
    }
    var res := OneMessage(s, screen, sent, part, k);
    return Some(res);
  }

  /** Handle messages until an update, a timeout or the deadline; the end of a broken stream is an error. */
  method AwaitUpdate(s: Socket, screen: Screen, turns: nat,
                     ghost sent: seq<Message>, ghost part: seq<byte>, ghost k0: nat)
    returns (r: Result<(), Error>, ghost k: nat)
    requires Synced(s, screen, sent, part, k0)
    modifies s, screen, screen.fb, screen.seen
    ensures r.Err? <==> WaitFails(sent, k0, turns, Broken(s, part))
    ensures r.Ok? ==> k == WaitEnd(sent, k0, turns) && Synced(s, screen, sent, part, k)
  {
    k := k0;
    for turn := 0 to turns
      invariant Synced(s, screen, sent, part, k)
      invariant WaitEnd(sent, k, turns - turn) == WaitEnd(sent, k0, turns)
      invariant WaitFails(sent, k, turns - turn, Broken(s, part)) == WaitFails(sent, k0, turns, Broken(s, part))
    {
      var update := Turn(s, screen, sent, part, k);
      match update
      case None => return Ok(()), k;
      case Some(Err(e)) => return Err(e), k;
      case Some(Ok(true)) => return Ok(()), k + 1;
      case Some(Ok(false)) => k := k + 1;
    }
    r := Ok(());
  }

  /** One request: wait for an update, then count what is still uncovered. */
  method Round(s: Socket, screen: Screen, turns: nat, ghost sent: seq<Message>, ghost part: seq<byte>, ghost k0: nat)
    returns (r: Result<nat, Error>, ghost k: nat)
    requires Synced(s, screen, sent, part, k0)
    modifies s, screen, screen.fb, screen.seen
    ensures r.Err? <==> WaitFails(sent, k0, turns, Broken(s, part))
    ensures r.Ok? ==> k == WaitEnd(sent, k0, turns) && Synced(s, screen, sent, part, k)
    ensures r.Ok? ==> r.value == screen.w * screen.h - |Union(screen.drawn, screen.w, screen.h)|
    ensures r.Ok? ==> (r.value == 0 <==> Full(RectsOf(sent[..k]), screen.w, screen.h))
  {
    var got;
    got, k := AwaitUpdate(s, screen, turns, sent, part, k0);
    if got.Err? {
      return Err(got.error), k;
    }
    SyncedIff(s, screen, sent, part, k);
    var n := screen.Uncovered();
    r := Ok(n);
  }

  lemma RunStep(sent: seq<Message>, k: nat, patience: seq<nat>, i: nat, w: nat, h: nat, broken: bool)
    requires k <= |sent| && i < |patience|
    ensures Run(sent, k, patience[i..], w, h, broken)
         == if WaitFails(sent, k, patience[i], broken) then Failed
            else var j := WaitEnd(sent, k, patience[i]);
                 if Full(RectsOf(sent[..j]), w, h) then Stopped(j) else Run(sent, j, patience[i + 1..], w, h, broken)
  {
    assert patience[i..][0] == patience[i] && patience[i..][1..] == patience[i + 1..];
  }

  /**
   Capture a frame from a server that sends the messages `sent` and then breaks off, perhaps inside
   a message. However the transport cuts the stream, the capture fails or stops exactly where `Run`
   says; when it stops, the screen shows exactly the rectangles read, the rest of the stream is
   untouched, and the count is of the pixels no rectangle covered.
   */
  method Capture(s: Socket, screen: Screen, patience: seq<nat>, ghost sent: seq<Message>, ghost part: seq<byte>)
    returns (r: Result<nat, Error>)
    requires screen.Valid() && screen.drawn == []
    requires SentOk(sent, screen.w, screen.h) && TailOk(part, screen.w, screen.h)
    requires s.incoming == EncodeAll(sent) + part
    modifies s, screen, screen.fb, screen.seen
    ensures match Run(sent, 0, patience, screen.w, screen.h, Broken(s, part))
            case Failed => r.Err?
            case Stopped(k) =>
              && r.Ok? && r.value == screen.w * screen.h - |Union(screen.drawn, screen.w, screen.h)|
              && screen.Valid() && screen.drawn == RectsOf(sent[..k])
              && s.incoming == EncodeAll(sent[k..]) + part
  {
    ghost var k := 0;
    ghost var broken := Broken(s, part);
    assert sent[0..] == sent && patience[0..] == patience;
    SyncedIff(s, screen, sent, part, 0);
    for round := 0 to |patience|
      invariant Synced(s, screen, sent, part, k)
      invariant Run(sent, k, patience[round..], screen.w, screen.h, broken)
             == Run(sent, 0, patience, screen.w, screen.h, broken)
    {
      RunStep(sent, k, patience, round, screen.w, screen.h, broken);
      r, k := Round(s, screen, patience[round], sent, part, k);
      if r.Err? {
        return;
      }
      if r.value == 0 {
        SyncedIff(s, screen, sent, part, k);
        return;
      }
    }
    SyncedIff(s, screen, sent, part, k);
    var uncovered := screen.Uncovered();
    r := Ok(uncovered);
  }
}
