/**
 From the server's messages to the verdict: a capture holds what the server sent, so a PASS says
 that the server sent two frames, each of them whole, with the predicted colours in them.
 */
module Evidence {
  import opened Wrappers
  import opened Bytes
  import opened Grid
  import opened Framebuffer
  import opened Rfb
  import opened Verdict
  import VncCapture

  /** The frame is what the rectangles show, and `miss` counts the positions that none of them covers. */
  ghost predicate TakenFrom(cap: Capture, rects: seq<Rect>) {
    && AllWellSized(rects) && |cap.fb| == cap.w * cap.h * 4
    && (forall j :: 0 <= j < |cap.fb| ==> cap.fb[j] == Shown(rects, PixelOf(j, cap.w), j % 4))
    && cap.miss == cap.w * cap.h - |Union(rects, cap.w, cap.h)|
  }

  /** `vnc_capture` of a screen of known size: the frame returned is taken from the messages read. */
  method Take(s: Socket, w: nat, h: nat, patience: seq<nat>, ghost sent: seq<Message>, ghost part: seq<byte>)
    returns (r: Result<Capture, Error>)
    requires VncCapture.SentOk(sent, w, h) && VncCapture.TailOk(part, w, h)
    requires s.incoming == EncodeAll(sent) + part
    modifies s
    ensures match VncCapture.Run(sent, 0, patience, w, h, VncCapture.Broken(s, part))
            case Failed => r.Err?
            case Stopped(k) => r.Ok? && r.value.w == w && r.value.h == h && TakenFrom(r.value, RectsOf(sent[..k]))
  {
    var screen := new Screen(w, h);
    var miss := VncCapture.Capture(s, screen, patience, sent, part);
    match miss
    case Err(e) => r := Err(e);
    case Ok(n) => r := Ok(Capture(w, h, screen.fb[..], n));
  }

  /** Rectangle `i` is the last one drawn over `p`. */
  ghost predicate DrawnBy(rects: seq<Rect>, i: nat, p: Pos) {
    i < |rects| && rects[i].Covers(p) && forall j :: i < j < |rects| ==> !rects[j].Covers(p)
  }

  lemma {:induction false} SomeDraws(rects: seq<Rect>, p: Pos) returns (i: nat)
    requires Covered(rects, p)
    ensures DrawnBy(rects, i, p)
  {
    var z := |rects| - 1;
    if rects[z].Covers(p) {
      i := z;
    } else {
      var k :| 0 <= k < |rects| && rects[k].Covers(p);
      assert rects[..z][k].Covers(p);
      i := SomeDraws(rects[..z], p);
    }
  }

  /** The last rectangle over `p` gives it the colour, up to 2 in each channel. */
  ghost predicate SentAs(rects: seq<Rect>, p: Pos, c: Rgb) {
    exists i: nat :: DrawnBy(rects, i, p) && Gives(rects[i], p, c)
  }

  ghost predicate Gives(r: Rect, p: Pos, c: Rgb) {
    && r.WellSized() && r.Covers(p)
    && -2 <= DataAt(r, p, 0) - c.blue <= 2 && -2 <= DataAt(r, p, 1) - c.green <= 2 && -2 <= DataAt(r, p, 2) - c.red <= 2
  }

  lemma PixelBytes(p: Pos, w: nat, h: nat, c: nat)
    requires InGrid(p, w, h) && c < 4
    ensures var j := ByteOf(p, w) + c; j < w * h * 4 && PixelOf(j, w) == p && j % 4 == c
  {
    IndexBound(p, w, h);
    assert (ByteOf(p, w) + c) / 4 == Index(p, w);
  }

  lemma CapturedByte(cap: Capture, rects: seq<Rect>, i: nat, p: Pos, c: nat)
    requires TakenFrom(cap, rects) && InGrid(p, cap.w, cap.h) && DrawnBy(rects, i, p) && c < 4
    ensures ByteOf(p, cap.w) + c < |cap.fb| && cap.fb[ByteOf(p, cap.w) + c] == DataAt(rects[i], p, c)
  {
    PixelBytes(p, cap.w, cap.h, c);
    ShownIsLast(rects, i, p, c);
  }

  lemma GivesIff(cap: Capture, rects: seq<Rect>, i: nat, p: Pos, c: Rgb)
    requires TakenFrom(cap, rects) && InGrid(p, cap.w, cap.h) && DrawnBy(rects, i, p)
    ensures CloseTo(cap.fb, ByteOf(p, cap.w), c) <==> Gives(rects[i], p, c)
  {
    CapturedByte(cap, rects, i, p, 0);
    CapturedByte(cap, rects, i, p, 1);
    CapturedByte(cap, rects, i, p, 2);
    CapturedByte(cap, rects, i, p, 3);
    hide ByteOf, DataAt, Shown, Union;
  }

  /** A position of a capture has a colour exactly when the server sent it that. */
  lemma ColouredIsSent(cap: Capture, rects: seq<Rect>, p: Pos, c: Rgb)
    requires TakenFrom(cap, rects) && InGrid(p, cap.w, cap.h) && Covered(rects, p)
    ensures p in Coloured(cap, c) <==> SentAs(rects, p, c)
  {
    hide CloseTo, Gives, ByteOf, TakenFrom, Coloured;
    forall i: nat | DrawnBy(rects, i, p) ensures CloseTo(cap.fb, ByteOf(p, cap.w), c) <==> Gives(rects[i], p, c) {
      GivesIff(cap, rects, i, p, c);
    }
    var i := SomeDraws(rects, p);
    ColouredIff(cap, c, p);
  }

  /** A capture with nothing missing is of a whole frame. */
  lemma NothingMissing(cap: Capture, rects: seq<Rect>)
    requires TakenFrom(cap, rects)
    ensures cap.miss == 0 <==> VncCapture.Full(rects, cap.w, cap.h)
  {
    UnionSize(rects, cap.w, cap.h);
  }

  /** The positions of `b` that were sent as `c` the first time and as `d` the second. */
  ghost function SentBoth(b: Box, rs: seq<Rect>, qs: seq<Rect>, c: Rgb, d: Rgb): set<Pos> {
    set p | p in Cells(b) && SentAs(rs, p, c) && SentAs(qs, p, d)
  }

  /**
   A PASS on captures taken from the rectangles `rs` and `qs`: the server drew every pixel of both
   frames, and in one box it sent at least nine tenths of the pixels in the first colour and
   then in the second.
   */
  lemma PassIsSent(control: Capture, first: Hold, second: Hold, c: Rgb, d: Rgb, rs: seq<Rect>, qs: seq<Rect>)
    requires control.Valid() && TakenFrom(first.cap, rs) && TakenFrom(second.cap, qs)
    requires first.rgb == c.Packed() && second.rgb == d.Packed() && Passes(control, first, second)
    ensures VncCapture.Full(rs, first.cap.w, first.cap.h) && VncCapture.Full(qs, second.cap.w, second.cap.h)
    ensures exists b :: |Cells(b)| > 0 && 10 * |SentBoth(b, rs, qs, c, d)| >= 9 * |Cells(b)|
  {
    PassesIff(control, first, second, c, d);
    NothingMissing(first.cap, rs);
    NothingMissing(second.cap, qs);
    var s, t := Coloured(first.cap, c), Coloured(second.cap, d);
    var b :| Tight(b, s) && Tight(b, t);
    BoxNotEmpty(b, s);
    SolidBox(b, s);
    SolidBox(b, t);
    Pigeonhole(s, t, Cells(b));
    forall p | p in s * t ensures p in SentBoth(b, rs, qs, c, d) {
      ColouredIff(first.cap, c, p);
      ColouredIff(second.cap, d, p);
      ColouredIsSent(first.cap, rs, p, c);
      ColouredIsSent(second.cap, qs, p, d);
    }
    SubsetSize(s * t, SentBoth(b, rs, qs, c, d));
  }

  lemma SolidBox(b: Box, hits: set<Pos>)
    requires Tight(b, hits) && Solid(hits)
    ensures 20 * |hits| >= 19 * |Cells(b)| && hits <= Cells(b)
  {
    hide Tight, Cells;
    var a :| Tight(a, hits) && 20 * |Cells(a) - hits| <= |Cells(a)|;
    TightIsUnique(a, b, hits);
    RestOfBox(b, hits);
  }
}
