/**
 The RFB client of `vnc_capture`: server messages (sections 7.6.1 to 7.6.4 of RFC 6143)
 read from a socket that may deliver the stream in pieces of any size.
 */
module Rfb {
  import opened Wrappers
  import opened Bytes
  import opened Grid
  import opened Framebuffer

  /** Short: the stream ended, or fell silent past the timeout, inside a message. */
  datatype Error = Short | BadEncoding(encoding: int) | BadType(mtype: byte)

  datatype Message =
    | Update(pad: byte, rects: seq<Rect>)
    | ColourMap(head: seq<byte>, colours: seq<byte>)
    | Bell
    | CutText(pads: seq<byte>, text: seq<byte>)

  // ---- Wire format ----

  const TWO16: nat := 0x1_0000
  const TWO32: nat := 0x1_0000_0000

  function E16(n: nat): (s: seq<byte>)
    requires n < TWO16
    ensures |s| == 2 && U16(s) == n
  {
    [n / 256, n % 256]
  }

  function E32(n: nat): (s: seq<byte>)
    requires n < TWO32
    ensures |s| == 4 && U32(s) == n
  {
    var hi, lo := E16(n / TWO16), E16(n % TWO16);
    assert (hi + lo)[..2] == hi && (hi + lo)[2..] == lo;
    hi + lo
  }

  function U16(s: seq<byte>): (n: nat)
    requires |s| == 2
    ensures n < TWO16
  {
    (s[0] as int) * 256 + s[1]
  }

  function U32(s: seq<byte>): (n: nat)
    requires |s| == 4
    ensures n < TWO32
  {
    U16(s[..2]) * TWO16 + U16(s[2..])
  }

  /** Two's complement. */
  function I32(s: seq<byte>): int
    requires |s| == 4
  {
    if U32(s) < TWO32 / 2 then U32(s) else U32(s) - TWO32
  }

  /** Strings of one length, compared at the first byte that differs. */
  ghost predicate Less(s: seq<byte>, t: seq<byte>)
    requires |s| == |t|
  {
    s != [] && (s[0] < t[0] || (s[0] == t[0] && Less(s[1..], t[1..])))
  }

  lemma LessOfTwo(s: seq<byte>, t: seq<byte>)
    requires |s| == |t| == 2
    ensures Less(s, t) <==> s[0] < t[0] || (s[0] == t[0] && s[1] < t[1])
  {
    assert Less(s[1..], t[1..]) <==> s[1] < t[1];
  }

  /** The wire is big-endian: numbers are ordered as their bytes are, which leaves no other reading. */
  lemma U16Order(s: seq<byte>, t: seq<byte>)
    requires |s| == |t| == 2
    ensures U16(s) < U16(t) <==> Less(s, t)
    ensures U16([0, s[1]]) == s[1]
  {
    LessOfTwo(s, t);
  }

  lemma {:induction false} LessByHalves(a: seq<byte>, b: seq<byte>, c: seq<byte>, d: seq<byte>)
    requires |a| == |c| && |b| == |d|
    ensures Less(a + b, c + d) <==> Less(a, c) || (a == c && Less(b, d))
  {
    if a == [] {
      assert a + b == b && c + d == d;
    } else {
      assert (a + b)[1..] == a[1..] + b && (c + d)[1..] == c[1..] + d;
      LessByHalves(a[1..], b, c[1..], d);
      assert a == [a[0]] + a[1..] && c == [c[0]] + c[1..];
    }
  }

  lemma U16Injective(s: seq<byte>, t: seq<byte>)
    requires |s| == |t| == 2
    ensures U16(s) == U16(t) <==> s == t
  {}

  lemma U32Order(s: seq<byte>, t: seq<byte>)
    requires |s| == |t| == 4
    ensures U32(s) < U32(t) <==> Less(s, t)
    ensures U32([0, 0, 0, s[3]]) == s[3]
  {
    U16Order(s[..2], t[..2]);
    U16Order(s[2..], t[2..]);
    U16Injective(s[..2], t[..2]);
    LessByHalves(s[..2], s[2..], t[..2], t[2..]);
    assert s == s[..2] + s[2..] && t == t[..2] + t[2..];
    var z: seq<byte> := [0, 0, 0, s[3]];
    assert z[..2] == [0, 0] && z[2..] == [0, s[3]];
  }

  /** The one signed number with the bits of the unsigned one; zero only for four zero bytes. */
  lemma I32Is(s: seq<byte>)
    requires |s| == 4
    ensures -0x8000_0000 <= I32(s) < 0x8000_0000 && (I32(s) == U32(s) || I32(s) + TWO32 == U32(s))
    ensures I32(s) == 0 <==> s == [0, 0, 0, 0]
  {
    U16Injective(s[..2], [0, 0]);
    U16Injective(s[2..], [0, 0]);
    assert s == s[..2] + s[2..];
  }

  ghost predicate RectOk(r: Rect) {
    r.WellSized() && r.x < TWO16 && r.y < TWO16 && r.w < TWO16 && r.h < TWO16
  }

  ghost predicate MessageOk(m: Message) {
    match m
    case Update(_, rects) => |rects| < TWO16 && forall i :: 0 <= i < |rects| ==> RectOk(rects[i])
    case ColourMap(head, colours) => |head| == 3 && |colours| % 6 == 0 && |colours| / 6 < TWO16
    case Bell => true
    case CutText(pads, text) => |pads| == 3 && |text| < TWO32
  }

  ghost function EncodeRect(r: Rect): seq<byte>
    requires RectOk(r)
  {
    E16(r.x) + E16(r.y) + E16(r.w) + E16(r.h) + E32(0) + r.data
  }

  ghost function EncodeRects(rects: seq<Rect>): seq<byte>
    requires forall i :: 0 <= i < |rects| ==> RectOk(rects[i])
  {
    if rects == [] then [] else EncodeRect(rects[0]) + EncodeRects(rects[1..])
  }

  ghost function Encode(m: Message): seq<byte>
    requires MessageOk(m)
  {
    match m
    case Update(pad, rects) => [0, pad] + E16(|rects|) + EncodeRects(rects)
    case ColourMap(head, colours) => [1] + head + E16(|colours| / 6) + colours
    case Bell => [2]
    case CutText(pads, text) => [3] + pads + E32(|text|) + text
  }

  ghost function EncodeAll(ms: seq<Message>): seq<byte>
    requires forall i :: 0 <= i < |ms| ==> MessageOk(ms[i])
  {
    if ms == [] then [] else Encode(ms[0]) + EncodeAll(ms[1..])
  }

  // ---- What the reader makes of a byte string ----

  /** Four bytes for each pixel. */
  ghost function RawSize(w: nat, h: nat): nat {
    w * h * 4
  }

  ghost function ParseRect(s: seq<byte>): Result<(Rect, seq<byte>), Error> {
    if |s| < 12 then Err(Short)
    else if I32(s[8..12]) != 0 then Err(BadEncoding(I32(s[8..12])))
    else
      var w, h := U16(s[4..6]), U16(s[6..8]);
      RectFrom(s, U16(s[..2]), U16(s[2..4]), w, h, RawSize(w, h))
  }

  /** The rectangle whose `n` bytes of data follow the header. */
  ghost function RectFrom(s: seq<byte>, x: nat, y: nat, w: nat, h: nat, n: nat): Result<(Rect, seq<byte>), Error> {
    if |s| < 12 + n then Err(Short) else Ok((Rect(x, y, w, h, s[12..12 + n]), s[12 + n..]))
  }

  ghost function ParseRects(s: seq<byte>, n: nat): Result<(seq<Rect>, seq<byte>), Error>
    decreases n
  {
    if n == 0 then Ok(([], s))
    else match ParseRect(s)
      case Err(e) => Err(e)
      case Ok((r, rest)) =>
        match ParseRects(rest, n - 1)
        case Err(e) => Err(e)
        case Ok((rs, rest')) => Ok(([r] + rs, rest'))
  }

  ghost function Parse(s: seq<byte>): Result<(Message, seq<byte>), Error> {
    if s == [] then Err(Short)
    else if s[0] == 0 then
      if |s| < 4 then Err(Short)
      else match ParseRects(s[4..], U16(s[2..4]))
        case Err(e) => Err(e)
        case Ok((rs, rest)) => Ok((Update(s[1], rs), rest))
    else if s[0] == 1 then
      if |s| < 6 then Err(Short)
      else
        var n := U16(s[4..6]) * 6;
        if |s| - 6 < n then Err(Short) else Ok((ColourMap(s[1..4], s[6..6 + n]), s[6 + n..]))
    else if s[0] == 2 then Ok((Bell, s[1..]))
    else if s[0] == 3 then
      if |s| < 8 then Err(Short)
      else
        var n := U32(s[4..8]);
        if |s| - 8 < n then Err(Short) else Ok((CutText(s[1..4], s[8..8 + n]), s[8 + n..]))
    else Err(BadType(s[0]))
  }

  // ---- The same, byte by byte ----

  /** The bytes of rectangle `r` stand at `o`: position and size big-endian, Raw encoding, data. */
  ghost predicate RectAt(s: seq<byte>, o: nat, r: Rect) {
    && r.WellSized() && o + 12 + |r.data| <= |s|
    && r.x == 256 * (s[o] as int) + s[o + 1] && r.y == 256 * (s[o + 2] as int) + s[o + 3]
    && r.w == 256 * (s[o + 4] as int) + s[o + 5] && r.h == 256 * (s[o + 6] as int) + s[o + 7]
    && s[o + 8] == s[o + 9] == s[o + 10] == s[o + 11] == 0
    && s[o + 12..o + 12 + |r.data|] == r.data
  }

  /** The rectangles stand one behind the other from `o` on. */
  ghost predicate RectsLie(s: seq<byte>, o: nat, rects: seq<Rect>)
    decreases |rects|
  {
    rects == [] || (RectAt(s, o, rects[0]) && RectsLie(s, o + 12 + |rects[0].data|, rects[1..]))
  }

  /** Where they end. */
  ghost function RectsEnd(o: nat, rects: seq<Rect>): nat
    decreases |rects|
  {
    if rects == [] then o else RectsEnd(o + 12 + |rects[0].data|, rects[1..])
  }

  /** The stream begins with an update of these rectangles. */
  ghost predicate UpdateLies(s: seq<byte>, rects: seq<Rect>) {
    |s| >= 4 && s[0] == 0 && |rects| == 256 * (s[2] as int) + s[3] && RectsLie(s, 4, rects)
  }

  /** The numbers of the header that stands at `o`. */
  lemma HeaderAt(s: seq<byte>, o: nat)
    requires o + 12 <= |s|
    ensures var t := s[o..];
            && U16(t[..2]) == 256 * (s[o] as int) + s[o + 1] && U16(t[2..4]) == 256 * (s[o + 2] as int) + s[o + 3]
            && U16(t[4..6]) == 256 * (s[o + 4] as int) + s[o + 5] && U16(t[6..8]) == 256 * (s[o + 6] as int) + s[o + 7]
            && (I32(t[8..12]) == 0 <==> s[o + 8] == s[o + 9] == s[o + 10] == s[o + 11] == 0)
  {
    var t := s[o..];
    I32Is(t[8..12]);
    assert t[8..12] == [s[o + 8], s[o + 9], s[o + 10], s[o + 11]];
  }

  lemma DataAfter(s: seq<byte>, o: nat, n: nat)
    requires o + 12 + n <= |s|
    ensures s[o..][12..12 + n] == s[o + 12..o + 12 + n] && s[o..][12 + n..] == s[o + 12 + n..]
  {}

  lemma RectFromIff(s: seq<byte>, o: nat, x: nat, y: nat, w: nat, h: nat, n: nat, r: Rect)
    requires o + 12 <= |s|
    ensures RectFrom(s[o..], x, y, w, h, n).Ok? && RectFrom(s[o..], x, y, w, h, n).value.0 == r <==>
            && r.x == x && r.y == y && r.w == w && r.h == h && |r.data| == n
            && o + 12 + n <= |s| && s[o + 12..o + 12 + n] == r.data
    ensures o + 12 + n <= |s| ==> RectFrom(s[o..], x, y, w, h, n).Ok?
                                  && RectFrom(s[o..], x, y, w, h, n).value.1 == s[o + 12 + n..]
  {
    if o + 12 + n <= |s| {
      DataAfter(s, o, n);
    }
  }

  lemma SizeOf(r: Rect, w: nat, h: nat)
    requires r.w == w && r.h == h
    ensures r.WellSized() <==> |r.data| == RawSize(w, h)
  {}

  lemma RectIff(s: seq<byte>, o: nat, r: Rect)
    requires o <= |s|
    ensures RectAt(s, o, r) <==> ParseRect(s[o..]).Ok? && ParseRect(s[o..]).value.0 == r
    ensures RectAt(s, o, r) ==> ParseRect(s[o..]) == Ok((r, s[o + 12 + |r.data|..]))
  {
    if o + 12 <= |s| {
      HeaderAt(s, o);
      var t := s[o..];
      var w, h := U16(t[4..6]), U16(t[6..8]);
      if r.w == w && r.h == h {
        SizeOf(r, w, h);
      }
      hide U16, I32, RectFrom, Rect.WellSized, RawSize;
      RectFromIff(s, o, U16(t[..2]), U16(t[2..4]), w, h, RawSize(w, h), r);
    }
  }

  lemma {:induction false} RectsIff(s: seq<byte>, o: nat, rects: seq<Rect>)
    requires o <= |s|
    ensures RectsLie(s, o, rects) <==> ParseRects(s[o..], |rects|).Ok? && ParseRects(s[o..], |rects|).value.0 == rects
    ensures RectsLie(s, o, rects) ==>
              RectsEnd(o, rects) <= |s| && ParseRects(s[o..], |rects|) == Ok((rects, s[RectsEnd(o, rects)..]))
    decreases |rects|
  {
    hide RectAt, ParseRect;
    if rects != [] {
      var first, rest := rects[0], rects[1..];
      RectIff(s, o, first);
      FirstOf(s[o..], rects);
      if RectAt(s, o, first) {
        RectFits(s, o, first);
        RectsIff(s, o + 12 + |first.data|, rest);
      }
    }
  }

  lemma RectFits(s: seq<byte>, o: nat, r: Rect)
    requires RectAt(s, o, r)
    ensures o + 12 + |r.data| <= |s|
  {}

  lemma FirstOf(s: seq<byte>, rects: seq<Rect>)
    requires rects != []
    ensures ParseRects(s, |rects|).Ok? && ParseRects(s, |rects|).value.0 == rects <==>
            && ParseRect(s).Ok? && ParseRect(s).value.0 == rects[0]
            && ParseRects(ParseRect(s).value.1, |rects| - 1).Ok?
            && ParseRects(ParseRect(s).value.1, |rects| - 1).value.0 == rects[1..]
    ensures ParseRect(s).Ok? && ParseRects(s, |rects|).Ok? ==>
              ParseRects(s, |rects|).value.1 == ParseRects(ParseRect(s).value.1, |rects| - 1).value.1
  {
    hide ParseRect;
    assert rects == [rects[0]] + rects[1..];
  }

  /** The reader takes a string for an update of `rects` exactly when their bytes stand there, and reads just those. */
  lemma UpdateIff(s: seq<byte>, rects: seq<Rect>)
    requires |s| >= 4 && s[0] == 0
    ensures UpdateLies(s, rects) <==> Parse(s).Ok? && Parse(s).value.0 == Update(s[1], rects)
    ensures UpdateLies(s, rects) ==> RectsEnd(4, rects) <= |s| && Parse(s).value.1 == s[RectsEnd(4, rects)..]
  {
    assert U16(s[2..4]) == 256 * (s[2] as int) + s[3];
    RectsIff(s, 4, rects);
    if Parse(s).Ok? {
      ParsedCount(s[4..], U16(s[2..4]));
    }
  }

  /** The stream begins with a colour map, a bell or a cut text of `n` bytes in all. */
  ghost predicate BodyLies(s: seq<byte>, n: nat) {
    && 0 < n <= |s|
    && match s[0]
       case 1 => |s| >= 6 && n == 6 + 6 * (256 * (s[4] as int) + s[5])
       case 2 => n == 1
       case 3 =>
         && |s| >= 8
         && n == 8 + 0x100_0000 * (s[4] as int) + 0x1_0000 * (s[5] as int) + 0x100 * (s[6] as int) + s[7]
       case _ => false
  }

  lemma BodyIsRead(s: seq<byte>, n: nat)
    requires BodyLies(s, n)
    ensures Parse(s).Ok? && !Parse(s).value.0.Update? && Parse(s).value.1 == s[n..]
  {
    if s[0] == 1 {
      assert U16(s[4..6]) == 256 * (s[4] as int) + s[5];
    } else if s[0] == 3 {
      var t := s[4..8];
      assert U16(t[..2]) == 256 * (s[4] as int) + s[5] && U16(t[2..]) == 256 * (s[6] as int) + s[7];
    }
  }

  /** What the bytes of a stream say about its first message. */
  lemma RawMeaning(s: seq<byte>)
    ensures forall rects :: UpdateLies(s, rects) ==>
              RectsEnd(4, rects) <= |s| && Parse(s) == Ok((Update(s[1], rects), s[RectsEnd(4, rects)..]))
    ensures forall n: nat :: BodyLies(s, n) ==>
              Parse(s).Ok? && !Parse(s).value.0.Update? && Parse(s).value.1 == s[n..]
  {
    forall rects | UpdateLies(s, rects)
      ensures RectsEnd(4, rects) <= |s| && Parse(s) == Ok((Update(s[1], rects), s[RectsEnd(4, rects)..]))
    {
      UpdateIff(s, rects);
    }
    forall n: nat | BodyLies(s, n) ensures Parse(s).Ok? && !Parse(s).value.0.Update? && Parse(s).value.1 == s[n..] {
      BodyIsRead(s, n);
    }
  }

  lemma {:induction false} ParsedCount(s: seq<byte>, n: nat)
    ensures ParseRects(s, n).Ok? ==> |ParseRects(s, n).value.0| == n
    decreases n
  {
    if n > 0 && ParseRect(s).Ok? {
      ParsedCount(ParseRect(s).value.1, n - 1);
    }
  }

  // ---- Framing ----

  lemma ParseEncodedRect(r: Rect, rest: seq<byte>)
    requires RectOk(r)
    ensures ParseRect(EncodeRect(r) + rest) == Ok((r, rest))
  {
    var x, y, w, h, e := E16(r.x), E16(r.y), E16(r.w), E16(r.h), E32(0);
    var head := x + y + w + h + e;
    var s := head + r.data + rest;
    HeadPieces(x, y, w, h, e);
    Middle(head, r.data, rest);
    assert s[..12] == head;
    assert s[..2] == head[..2] && s[2..4] == head[2..4] && s[4..6] == head[4..6];
    assert s[6..8] == head[6..8] && s[8..12] == head[8..12];
  }

  lemma HeadPieces(x: seq<byte>, y: seq<byte>, w: seq<byte>, h: seq<byte>, e: seq<byte>)
    requires |x| == |y| == |w| == |h| == 2 && |e| == 4
    ensures var head := x + y + w + h + e;
            && |head| == 12 && head[..2] == x && head[2..4] == y && head[4..6] == w && head[6..8] == h
            && head[8..12] == e
  {}

  lemma {:induction false} ParseEncodedRects(rects: seq<Rect>, rest: seq<byte>)
    requires forall i :: 0 <= i < |rects| ==> RectOk(rects[i])
    ensures ParseRects(EncodeRects(rects) + rest, |rects|) == Ok((rects, rest))
  {
    if rects != [] {
      var tail := EncodeRects(rects[1..]);
      assert EncodeRects(rects) + rest == EncodeRect(rects[0]) + (tail + rest);
      ParseEncodedRect(rects[0], tail + rest);
      ParseEncodedRects(rects[1..], rest);
      assert [rects[0]] + rects[1..] == rects;
    } else {
      assert EncodeRects(rects) + rest == rest;
    }
  }

  lemma ParseUpdate(pad: byte, n: nat, body: seq<byte>, rects: seq<Rect>, rest: seq<byte>)
    requires n < TWO16 && ParseRects(body, n) == Ok((rects, rest))
    ensures Parse([0, pad] + E16(n) + body) == Ok((Update(pad, rects), rest))
  {
    var s := [0, pad] + E16(n) + body;
    assert s[2..4] == E16(n);
    assert s[4..] == body;
  }

  lemma ParseEncodedUpdate(m: Message, rest: seq<byte>)
    requires MessageOk(m) && m.Update?
    ensures Parse(Encode(m) + rest) == Ok((m, rest))
  {
    ParseEncodedRects(m.rects, rest);
    ParseUpdate(m.pad, |m.rects|, EncodeRects(m.rects) + rest, m.rects, rest);
    assert Encode(m) + rest == [0, m.pad] + E16(|m.rects|) + (EncodeRects(m.rects) + rest);
  }

  lemma ParseEncodedColourMap(m: Message, rest: seq<byte>)
    requires MessageOk(m) && m.ColourMap?
    ensures Parse(Encode(m) + rest) == Ok((m, rest))
  {
    var s, n := Encode(m) + rest, |m.colours|;
    assert s[1..4] == m.head;
    assert s[4..6] == E16(n / 6);
    assert s[6..6 + n] == m.colours;
    assert s[6 + n..] == rest;
  }

  lemma ParseEncodedCutText(m: Message, rest: seq<byte>)
    requires MessageOk(m) && m.CutText?
    ensures Parse(Encode(m) + rest) == Ok((m, rest))
  {
    var s, n := Encode(m) + rest, |m.text|;
    assert s[1..4] == m.pads;
    assert s[4..8] == E32(n);
    assert s[8..8 + n] == m.text;
    assert s[8 + n..] == rest;
  }

  /** Whatever follows it on the stream, a message is read back whole and nothing more is consumed. */
  lemma ParseEncoded(m: Message, rest: seq<byte>)
    requires MessageOk(m)
    ensures Parse(Encode(m) + rest) == Ok((m, rest))
  {
    match m
    case Update(_, _) => ParseEncodedUpdate(m, rest);
    case ColourMap(_, _) => ParseEncodedColourMap(m, rest);
    case Bell => assert (Encode(m) + rest)[1..] == rest;
    case CutText(_, _) => ParseEncodedCutText(m, rest);
  }

  /** Reading `ms` from `s` one after another leaves `rest`. */
  ghost predicate ParsesTo(s: seq<byte>, ms: seq<Message>, rest: seq<byte>)
    decreases |ms|
  {
    if ms == [] then s == rest
    else match Parse(s)
      case Err(_) => false
      case Ok((m, s')) => m == ms[0] && ParsesTo(s', ms[1..], rest)
  }

  lemma FirstIsKept(sent: seq<Message>, got: seq<Message>, rest: seq<byte>)
    requires forall i :: 0 <= i < |sent| ==> MessageOk(sent[i])
    requires got != [] && ParsesTo(EncodeAll(sent), got, rest)
    ensures sent != [] && got[0] == sent[0] && ParsesTo(EncodeAll(sent[1..]), got[1..], rest)
  {
    if sent != [] {
      ParseEncoded(sent[0], EncodeAll(sent[1..]));
    }
  }

  /**
   A stream of well-formed messages never loses framing: any number of messages read from it
   are the first messages that were sent, and what is left encodes the others.
   */
  lemma {:induction false} FramingIsKept(sent: seq<Message>, got: seq<Message>, rest: seq<byte>)
    requires forall i :: 0 <= i < |sent| ==> MessageOk(sent[i])
    requires ParsesTo(EncodeAll(sent), got, rest)
    ensures got <= sent && rest == EncodeAll(sent[|got|..])
    decreases |got|
  {
    if got == [] {
      assert sent[0..] == sent;
    } else {
      FirstIsKept(sent, got, rest);
      FramingIsKept(sent[1..], got[1..], rest);
      assert sent[1..][|got| - 1..] == sent[|got|..];
    }
  }

  // ---- A message cut short ----

  /** The same result with `t` behind what is left. */
  ghost function Before<T>(r: Result<(T, seq<byte>), Error>, t: seq<byte>): Result<(T, seq<byte>), Error> {
    match r
    case Err(e) => Err(e)
    case Ok((x, rest)) => Ok((x, rest + t))
  }

  lemma RectStands(s: seq<byte>, t: seq<byte>)
    requires ParseRect(s) != Err(Short)
    ensures ParseRect(s + t) == Before(ParseRect(s), t)
  {
    hide U16, I32, RectFrom, RawSize;
    RectHeadStands(s, t);
    var w, h := U16(s[4..6]), U16(s[6..8]);
    RectFromStands(s, t, U16(s[..2]), U16(s[2..4]), w, h, RawSize(w, h));
  }

  lemma RectFromStands(s: seq<byte>, t: seq<byte>, x: nat, y: nat, w: nat, h: nat, n: nat)
    requires |s| >= 12
    ensures RectFrom(s, x, y, w, h, n) != Err(Short) ==>
              RectFrom(s + t, x, y, w, h, n) == Before(RectFrom(s, x, y, w, h, n), t)
  {
    if 12 + n <= |s| {
      SliceKept(s, t, 12, 12 + n);
      DropKept(s, t, 12 + n);
    }
  }

  lemma RectHeadStands(s: seq<byte>, t: seq<byte>)
    requires |s| >= 12
    ensures var u := s + t;
            u[..2] == s[..2] && u[2..4] == s[2..4] && u[4..6] == s[4..6] && u[6..8] == s[6..8] && u[8..12] == s[8..12]
  {
    SliceKept(s, t, 0, 2);
    SliceKept(s, t, 2, 4);
    SliceKept(s, t, 4, 6);
    SliceKept(s, t, 6, 8);
    SliceKept(s, t, 8, 12);
  }

  lemma {:induction false} RectsStand(s: seq<byte>, n: nat, t: seq<byte>)
    requires ParseRects(s, n) != Err(Short)
    ensures ParseRects(s + t, n) == Before(ParseRects(s, n), t)
    decreases n
  {
    if n > 0 {
      RectStands(s, t);
      match ParseRect(s)
      case Err(_) =>
      case Ok((_, rest)) => RectsStand(rest, n - 1, t);
    }
  }

  /** Only too little data is a verdict that more data can change. */
  lemma ParseStands(s: seq<byte>, t: seq<byte>)
    requires Parse(s) != Err(Short)
    ensures Parse(s + t) == Before(Parse(s), t)
  {
    if s[0] == 0 {
      RectsStand(s[4..], U16(s[2..4]), t);
      SliceKept(s, t, 2, 4);
      DropKept(s, t, 4);
    } else if s[0] == 1 {
      SliceKept(s, t, 1, 4);
      SliceKept(s, t, 4, 6);
      BodyStands(s, t, 6, U16(s[4..6]) * 6);
    } else if s[0] == 2 {
      DropKept(s, t, 1);
    } else if s[0] == 3 {
      SliceKept(s, t, 1, 4);
      SliceKept(s, t, 4, 8);
      BodyStands(s, t, 8, U32(s[4..8]));
    }
  }

  lemma BodyStands(s: seq<byte>, t: seq<byte>, from: nat, n: nat)
    requires from + n <= |s|
    ensures (s + t)[from..from + n] == s[from..from + n] && (s + t)[from + n..] == s[from + n..] + t
  {
    SliceKept(s, t, from, from + n);
    DropKept(s, t, from + n);
  }

  /** `part` is a well-formed message of which some bytes at the end are missing. */
  ghost predicate CutShort(part: seq<byte>, m: Message) {
    MessageOk(m) && part <= Encode(m) && |part| < |Encode(m)|
  }

  /** A message cut short anywhere is never taken for a message. */
  lemma CutShortIsShort(part: seq<byte>, m: Message)
    requires CutShort(part, m)
    ensures Parse(part) == Err(Short)
  {
    var missing := Encode(m)[|part|..];
    assert Encode(m) == part + missing && Encode(m) + [] == Encode(m);
    ParseEncoded(m, []);
    if Parse(part) != Err(Short) {
      ParseStands(part, missing);
    }
  }

  // ---- Reading from the socket ----

  /** A connection whose transport cuts the stream as it likes. */
  class Socket {
    /** Bytes the server has sent that have not been received. */
    var incoming: seq<byte>
    /** Where the transport will cut next; any values are possible. */
    var cuts: seq<nat>
    /** The server has closed its end, so running dry is an end of file and not a timeout. */
    const closed: bool

    constructor (incoming: seq<byte>, cuts: seq<nat>, closed: bool)
      ensures this.incoming == incoming && this.closed == closed
    {
      this.incoming, this.cuts, this.closed := incoming, cuts, closed;
    }

    /** At most `max` bytes, and at least one while any are left. */
    method Recv(max: nat) returns (chunk: seq<byte>)
      requires max > 0
      modifies this
      ensures chunk + incoming == old(incoming) && |chunk| <= max
      ensures chunk == [] <==> old(incoming) == []
    {
      var n := if cuts == [] || cuts[0] == 0 then 1 else cuts[0];
      n := if n > max then max else n;
      n := if n > |incoming| then |incoming| else n;
      cuts := if cuts == [] then [] else cuts[1..];
      chunk, incoming := incoming[..n], incoming[n..];
    }
  }

  /** Exactly the next `n` bytes, however they are cut up on the way. */
  method RecvAll(s: Socket, n: nat) returns (r: Result<seq<byte>, Error>)
    modifies s
    ensures |old(s.incoming)| >= n ==> r == Ok(old(s.incoming)[..n]) && s.incoming == old(s.incoming)[n..]
    ensures |old(s.incoming)| < n ==> r == Err(Short)
  {
    var out: seq<byte> := [];
    while |out| < n
      invariant |out| <= n && out + s.incoming == old(s.incoming)
    {
      var chunk := s.Recv(n - |out|);
      if chunk == [] {
        return Err(Short);
      }
      out := out + chunk;
    }
    return Ok(out);
  }

  lemma TakeThenDrop(s: seq<byte>, k: nat, n: nat)
    requires k + n <= |s|
    ensures s[k..][..n] == s[k..k + n] && s[k..][n..] == s[k + n..]
  {}

  method ReadRect(s: Socket) returns (r: Result<Rect, Error>)
    modifies s
    ensures match ParseRect(old(s.incoming))
            case Ok((rect, rest)) => r == Ok(rect) && s.incoming == rest
            case Err(e) => r == Err(e)
  {
    var hdr := RecvAll(s, 12);
    if hdr.Err? {
      return Err(hdr.error);
    }
    var b := hdr.value;
    ghost var sent := old(s.incoming);
    hide U16, I32;
    assert sent == b + sent[12..];
    RectHeadStands(b, sent[12..]);
    var enc := I32(b[8..12]);
    if enc != 0 {
      return Err(BadEncoding(enc));
    }
    var w, h := U16(b[4..6]), U16(b[6..8]);
    var data := RecvAll(s, w * h * 4);
    if data.Err? {
      return Err(data.error);
    }
    TakeThenDrop(sent, 12, w * h * 4);
    return Ok(Rect(U16(b[..2]), U16(b[2..4]), w, h, data.value));
  }

  /** The next `n` rectangles on the stream lie on the screen, as the protocol demands. */
  ghost predicate RectsInside(s: seq<byte>, n: nat, w: nat, h: nat)
    decreases n
  {
    n == 0 ||
    match ParseRect(s)
    case Err(_) => true
    case Ok((r, rest)) => r.Inside(w, h) && RectsInside(rest, n - 1, w, h)
  }

  ghost predicate NextInside(s: seq<byte>, w: nat, h: nat) {
    |s| >= 4 && s[0] == 0 ==> RectsInside(s[4..], U16(s[2..4]), w, h)
  }

  ghost function Prefixed(rs: seq<Rect>, res: Result<(seq<Rect>, seq<byte>), Error>)
    : Result<(seq<Rect>, seq<byte>), Error>
  {
    match res
    case Err(e) => Err(e)
    case Ok((qs, rest)) => Ok((rs + qs, rest))
  }

  lemma PrefixedByNone(res: Result<(seq<Rect>, seq<byte>), Error>)
    ensures Prefixed([], res) == res
  {
    match res
    case Err(_) =>
    case Ok((qs, _)) => assert [] + qs == qs;
  }

  lemma ParsedIsWellSized(s: seq<byte>)
    ensures match ParseRect(s) case Err(_) => true case Ok((r, _)) => r.WellSized()
  {}

  lemma ParseRectsStep(done: seq<Rect>, s: seq<byte>, n: nat)
    requires n > 0
    ensures match ParseRect(s)
            case Err(e) => Prefixed(done, ParseRects(s, n)) == Err(e)
            case Ok((r, rest)) =>
              && r.WellSized()
              && Prefixed(done, ParseRects(s, n)) == Prefixed(done + [r], ParseRects(rest, n - 1))
  {
    ParsedIsWellSized(s);
    match ParseRect(s)
    case Err(_) =>
    case Ok((r, rest)) =>
      match ParseRects(rest, n - 1)
      case Err(_) =>
      case Ok((rs, _)) => assert done + ([r] + rs) == (done + [r]) + rs;
  }

  /** Read `n` rectangles, drawing each as it arrives. */
  method ReadRects(s: Socket, screen: Screen, n: nat) returns (r: Result<(), Error>)
    requires screen.Valid() && RectsInside(s.incoming, n, screen.w, screen.h)
    modifies s, screen, screen.fb, screen.seen
    ensures screen.Valid()
    ensures match ParseRects(old(s.incoming), n)
            case Ok((rects, rest)) => r == Ok(()) && s.incoming == rest && screen.drawn == old(screen.drawn) + rects
            case Err(e) => r == Err(e)
  {
    ghost var done := [];
    PrefixedByNone(ParseRects(s.incoming, n));
    for k := 0 to n
      invariant screen.Valid() && screen.drawn == old(screen.drawn) + done
      invariant RectsInside(s.incoming, n - k, screen.w, screen.h)
      invariant ParseRects(old(s.incoming), n) == Prefixed(done, ParseRects(s.incoming, n - k))
    {
      ParseRectsStep(done, s.incoming, n - k);
      var rect := ReadRect(s);
      if rect.Err? {
        return Err(rect.error);
      }
      screen.Blit(rect.value);
      done := done + [rect.value];
    }
    return Ok(());
  }

  /** One turn of the inner loop: read a message, draw it if it is an update, and say whether it was. */
  method HandleMessage(s: Socket, screen: Screen) returns (r: Result<bool, Error>)
    requires screen.Valid() && NextInside(s.incoming, screen.w, screen.h)
    modifies s, screen, screen.fb, screen.seen
    ensures screen.Valid()
    ensures match Parse(old(s.incoming))
            case Ok((m, rest)) =>
              && r == Ok(m.Update?) && s.incoming == rest
              && screen.drawn == old(screen.drawn) + RectsOf([m])
            case Err(e) => r == Err(e)
    ensures forall rects :: UpdateLies(old(s.incoming), rects) ==>
              && r == Ok(true) && RectsEnd(4, rects) <= |old(s.incoming)|
              && s.incoming == old(s.incoming)[RectsEnd(4, rects)..]
              && screen.drawn == old(screen.drawn) + rects
    ensures forall n: nat :: BodyLies(old(s.incoming), n) ==> r == Ok(false) && s.incoming == old(s.incoming)[n..]
    ensures old(s.incoming) != [] && old(s.incoming)[0] > 3 ==> r == Err(BadType(old(s.incoming)[0]))
  {
    ghost var sent := s.incoming;
    RawMeaning(sent);
    hide UpdateLies, BodyLies, RectsEnd, U16, U32, ParseRects, NextInside;
    var b := RecvAll(s, 1);
    if b.Err? {
      return Err(b.error);
    }
    var mtype := b.value[0];
    if mtype == 0 {
      r := ReadUpdate(s, screen, sent);
    } else if mtype == 1 {
      r := SkipColourMap(s, sent);
    } else if mtype == 2 {
      r := Ok(false);
    } else if mtype == 3 {
      r := SkipCutText(s, sent);
    } else {
      r := Err(BadType(mtype));
    }
  }

  method ReadUpdate(s: Socket, screen: Screen, ghost sent: seq<byte>) returns (r: Result<bool, Error>)
    requires sent != [] && sent[0] == 0 && s.incoming == sent[1..]
    requires screen.Valid() && NextInside(sent, screen.w, screen.h)
    modifies s, screen, screen.fb, screen.seen
    ensures screen.Valid()
    ensures match Parse(sent)
            case Ok((m, rest)) =>
              && r == Ok(true) && s.incoming == rest && m.Update? && screen.drawn == old(screen.drawn) + m.rects
            case Err(e) => r == Err(e)
  {
    hide U16, U32;
    var pad := RecvAll(s, 1);
    if pad.Err? {
      return Err(pad.error);
    }
    var n := RecvAll(s, 2);
    if n.Err? {
      return Err(n.error);
    }
    assert n.value == sent[2..4] && s.incoming == sent[4..];
    var res := ReadRects(s, screen, U16(n.value));
    if res.Err? {
      return Err(res.error);
    }
    return Ok(true);
  }

  method SkipColourMap(s: Socket, ghost sent: seq<byte>) returns (r: Result<bool, Error>)
    requires sent != [] && sent[0] == 1 && s.incoming == sent[1..]
    modifies s
    ensures match Parse(sent)
            case Ok((m, rest)) => r == Ok(false) && s.incoming == rest && m.ColourMap?
            case Err(e) => r == Err(e)
  {
    var head := RecvAll(s, 3);
    if head.Err? {
      return Err(head.error);
    }
    var n := RecvAll(s, 2);
    if n.Err? {
      return Err(n.error);
    }
    assert n.value == sent[4..6] && s.incoming == sent[6..];
    var body := RecvAll(s, U16(n.value) * 6);
    if body.Err? {
      return Err(body.error);
    }
    return Ok(false);
  }

  method SkipCutText(s: Socket, ghost sent: seq<byte>) returns (r: Result<bool, Error>)
    requires sent != [] && sent[0] == 3 && s.incoming == sent[1..]
    modifies s
    ensures match Parse(sent)
            case Ok((m, rest)) => r == Ok(false) && s.incoming == rest && m.CutText?
            case Err(e) => r == Err(e)
  {
    var pads := RecvAll(s, 3);
    if pads.Err? {
      return Err(pads.error);
    }
    var n := RecvAll(s, 4);
    if n.Err? {
      return Err(n.error);
    }
    assert n.value == sent[4..8] && s.incoming == sent[8..];
    var body := RecvAll(s, U32(n.value));
    if body.Err? {
      return Err(body.error);
    }
    return Ok(false);
  }

  /** All rectangles of the updates among `ms`, in order. */
  ghost function RectsOf(ms: seq<Message>): seq<Rect> {
    if ms == [] then []
    else RectsOf(ms[..|ms| - 1]) + match ms[|ms| - 1]
                                   case Update(_, rects) => rects
                                   case _ => []
  }
}
