/** Pixels of a captured frame and the search for a predicted colour (`pixels`, `find_colour`). */
module Colour {
  import opened Wrappers
  import opened Bytes
  import opened Grid

  /** Per-channel slack of the colour search. */
  const TOL: nat := 2

  function Red(p: nat): nat {
    p / 0x1_0000 % 256
  }

  function Green(p: nat): nat {
    p / 0x100 % 256
  }

  function Blue(p: nat): nat {
    p % 256
  }

  /** The little-endian word at pixel `i`, without its top byte. */
  function Pixel(fb: seq<byte>, i: nat): nat
    requires 4 * i + 4 <= |fb|
  {
    Word(fb[4 * i], fb[4 * i + 1], fb[4 * i + 2], fb[4 * i + 3]) % 0x100_0000
  }

  function Word(b0: int, b1: int, b2: int, b3: int): int {
    b0 + 0x100 * b1 + 0x1_0000 * b2 + 0x100_0000 * b3
  }

  lemma WordBytes(b0: byte, b1: byte, b2: byte, b3: byte)
    ensures Word(b0, b1, b2, b3) % 0x100_0000 == b0 + 0x100 * (b1 as int) + 0x1_0000 * (b2 as int)
  {}

  lemma ChannelsOf(b0: byte, b1: byte, b2: byte)
    ensures var p := b0 + 0x100 * (b1 as int) + 0x1_0000 * (b2 as int);
            Red(p) == b2 && Green(p) == b1 && Blue(p) == b0
  {
    var p := b0 + 0x100 * (b1 as int) + 0x1_0000 * (b2 as int);
    assert p / 0x1_0000 == b2;
    assert p / 0x100 == b1 + 0x100 * (b2 as int);
  }

  function Pixels(w: nat, h: nat, fb: seq<byte>): seq<nat>
    requires |fb| == w * h * 4
  {
    seq(w * h, i requires 0 <= i < w * h => Pixel(fb, i))
  }

  /** The frame is stored blue, green, red, unused. */
  lemma PixelChannels(fb: seq<byte>, i: nat)
    requires 4 * i + 4 <= |fb|
    ensures var p := Pixel(fb, i);
            p < 0x100_0000 && Red(p) == fb[4 * i + 2] && Green(p) == fb[4 * i + 1] && Blue(p) == fb[4 * i]
  {
    WordBytes(fb[4 * i], fb[4 * i + 1], fb[4 * i + 2], fb[4 * i + 3]);
    ChannelsOf(fb[4 * i], fb[4 * i + 1], fb[4 * i + 2]);
  }

  predicate Near(a: nat, b: nat, tol: nat) {
    b - tol <= a <= b + tol
  }

  predicate Match(p: nat, target: nat, tol: nat) {
    && Near(Red(p), Red(target), tol)
    && Near(Green(p), Green(target), tol)
    && Near(Blue(p), Blue(target), tol)
  }

  function At(w: nat, h: nat, px: seq<nat>, p: Pos): nat
    requires |px| == w * h && InGrid(p, w, h)
  {
    IndexBound(p, w, h);
    px[Index(p, w)]
  }

  /** The positions whose pixel is within `tol` of `target` in every channel. */
  ghost function Hits(w: nat, h: nat, px: seq<nat>, target: nat, tol: nat): set<Pos>
    requires |px| == w * h
  {
    set x, y | 0 <= x < w && 0 <= y < h && Match(At(w, h, px, Pos(x, y)), target, tol) :: Pos(x, y)
  }

  ghost function ExactHits(w: nat, h: nat, px: seq<nat>, target: nat): set<Pos>
    requires |px| == w * h
  {
    set x, y | 0 <= x < w && 0 <= y < h && At(w, h, px, Pos(x, y)) == target :: Pos(x, y)
  }

  /** Count the matching pixels and find the smallest box around them. */
  method FindColour(w: nat, h: nat, px: seq<nat>, target: nat, tol: nat)
    returns (n: nat, exact: nat, box: Option<Box>)
    requires |px| == w * h
    ensures n == |Hits(w, h, px, target, tol)|
    ensures exact == |ExactHits(w, h, px, target)| <= n
    ensures box.None? <==> n == 0
    ensures box.Some? ==> Tight(box.value, Hits(w, h, px, target, tol))
  {
    var ext := Extent(w, h, -1, -1);
    n, exact := 0, 0;
    for i := 0 to |px|
      invariant Tallied(w, h, px, target, tol, i, n, exact, ext)
    {
      var p := Locate(i, w, h);
      TallyStep(w, h, px, target, tol, i, n, exact, ext, p);
      if Match(px[i], target, tol) {
        n := n + 1;
        if px[i] == target {
          exact := exact + 1;
        }
        ext := ext.Grow(p);
      }
    }
    TallyDone(w, h, px, target, tol, n, exact, ext);
    box := if n == 0 then None else Some(Box(ext.minx, ext.miny, ext.maxx, ext.maxy));
  }

  /** The counters and bounds after the first `i` pixels. */
  ghost predicate Tallied(w: nat, h: nat, px: seq<nat>, target: nat, tol: nat,
                          i: nat, n: nat, exact: nat, ext: Extent)
    requires i <= |px|
  {
    FlagsBounded(NearFlags(px, target, tol), w, h, i, n, ext) && exact == |Marked(SameFlags(px, target)[..i], w, h)|
  }

  /** The number and extent of the positions marked by the first `i` flags. */
  ghost predicate FlagsBounded(flags: seq<bool>, w: nat, h: nat, i: nat, n: nat, ext: Extent)
    requires i <= |flags|
  {
    n == |Marked(flags[..i], w, h)| && ext.Bounds(Marked(flags[..i], w, h), w, h)
  }

  lemma FlagStep(flags: seq<bool>, w: nat, h: nat, i: nat, n: nat, ext: Extent, p: Pos)
    requires i < |flags| && InGrid(p, w, h) && Index(p, w) == i && FlagsBounded(flags, w, h, i, n, ext)
    ensures if flags[i] then FlagsBounded(flags, w, h, i + 1, n + 1, ext.Grow(p))
            else FlagsBounded(flags, w, h, i + 1, n, ext)
  {
    var s := Marked(flags[..i], w, h);
    MarkedNext(flags, i, w, h, p);
    ext.Grows(s, w, h, p);
    assert s + {} == s;
  }

  lemma TallyStep(w: nat, h: nat, px: seq<nat>, target: nat, tol: nat,
                  i: nat, n: nat, exact: nat, ext: Extent, p: Pos)
    requires i < |px| && InGrid(p, w, h) && Index(p, w) == i
    requires Tallied(w, h, px, target, tol, i, n, exact, ext)
    ensures px[i] == target ==> Match(px[i], target, tol)
    ensures var m := Match(px[i], target, tol);
            Tallied(w, h, px, target, tol, i + 1, if m then n + 1 else n,
                    if px[i] == target then exact + 1 else exact, if m then ext.Grow(p) else ext)
  {
    FlagStep(NearFlags(px, target, tol), w, h, i, n, ext, p);
    MarkedNext(SameFlags(px, target), i, w, h, p);
  }

  lemma TallyDone(w: nat, h: nat, px: seq<nat>, target: nat, tol: nat, n: nat, exact: nat, ext: Extent)
    requires |px| == w * h && Tallied(w, h, px, target, tol, |px|, n, exact, ext)
    ensures n == |Hits(w, h, px, target, tol)|
    ensures exact == |ExactHits(w, h, px, target)| <= n
    ensures ext.Bounds(Hits(w, h, px, target, tol), w, h)
  {
    var near, same := NearFlags(px, target, tol), SameFlags(px, target);
    assert near[..|px|] == near && same[..|px|] == same;
    MarkedIsHits(w, h, px, target, tol);
  }

  ghost function NearFlags(px: seq<nat>, target: nat, tol: nat): seq<bool> {
    seq(|px|, i requires 0 <= i < |px| => Match(px[i], target, tol))
  }

  ghost function SameFlags(px: seq<nat>, target: nat): seq<bool> {
    seq(|px|, i requires 0 <= i < |px| => px[i] == target)
  }

  lemma MarkedIsHits(w: nat, h: nat, px: seq<nat>, target: nat, tol: nat)
    requires |px| == w * h
    ensures Marked(NearFlags(px, target, tol), w, h) == Hits(w, h, px, target, tol)
    ensures Marked(SameFlags(px, target), w, h) == ExactHits(w, h, px, target)
    ensures |ExactHits(w, h, px, target)| <= |Hits(w, h, px, target, tol)|
  {
    forall p | InGrid(p, w, h) ensures Index(p, w) < |px| {
      IndexBound(p, w, h);
    }
    SubsetSize(ExactHits(w, h, px, target), Hits(w, h, px, target, tol));
  }

  /**
   A search's count never exceeds its box, and fills it exactly when every pixel of the box
   matches.
   */
  lemma HitsFillBox(w: nat, h: nat, px: seq<nat>, target: nat, tol: nat, b: Box)
    requires |px| == w * h && Tight(b, Hits(w, h, px, target, tol))
    ensures b.x1 < w && b.y1 < h
    ensures |Hits(w, h, px, target, tol)| <= b.Width() * b.Height() == |Cells(b)|
    ensures |Hits(w, h, px, target, tol)| == b.Width() * b.Height() <==>
            forall p :: b.Contains(p) ==> InGrid(p, w, h) && Match(At(w, h, px, p), target, tol)
  {
    var hits := Hits(w, h, px, target, tol);
    TightArea(b, hits);
    var r :| r in hits && r.x == b.x1;
    var u :| u in hits && u.y == b.y1;
    assert forall p :: p in hits <==> InGrid(p, w, h) && Match(At(w, h, px, p), target, tol);
  }
}
