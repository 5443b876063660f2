/** The difference box of m17_census.py, which looks at every fourth row and column only. */
module Sampled {
  import opened Wrappers
  import opened Bytes
  import opened Grid

  /** Both coordinates start at 2^30 before the first difference. */
  const FAR: nat := 0x4000_0000

  datatype Found = Found(box: Box, n: nat)

  /** The three bytes from `k` on, or as many of them as there are. */
  function Slice3(s: seq<byte>, k: nat): seq<byte> {
    s[Min(k, |s|)..Min(k + 3, |s|)]
  }

  predicate Differ(a: seq<byte>, b: seq<byte>, w: nat, p: Pos) {
    Slice3(a, 3 * Index(p, w)) != Slice3(b, 3 * Index(p, w))
  }

  function ByteAt(s: seq<byte>, k: nat): Option<byte> {
    if k < |s| then Some(s[k]) else None
  }

  /** Two pixels differ when any of their three bytes does, and also when one image ends before the other. */
  lemma DifferIff(a: seq<byte>, b: seq<byte>, w: nat, p: Pos)
    ensures var k := 3 * Index(p, w);
            Differ(a, b, w, p) <==>
            || ByteAt(a, k) != ByteAt(b, k)
            || ByteAt(a, k + 1) != ByteAt(b, k + 1)
            || ByteAt(a, k + 2) != ByteAt(b, k + 2)
  {
    SliceDiffers(a, b, 3 * Index(p, w));
  }

  lemma SliceDiffers(a: seq<byte>, b: seq<byte>, k: nat)
    ensures Slice3(a, k) == Slice3(b, k) <==>
            && ByteAt(a, k) == ByteAt(b, k)
            && ByteAt(a, k + 1) == ByteAt(b, k + 1)
            && ByteAt(a, k + 2) == ByteAt(b, k + 2)
  {
    var s, t := Slice3(a, k), Slice3(b, k);
    assert ByteAt(a, k) == ByteAt(s, 0) && ByteAt(a, k + 1) == ByteAt(s, 1) && ByteAt(a, k + 2) == ByteAt(s, 2);
    assert ByteAt(b, k) == ByteAt(t, 0) && ByteAt(b, k + 1) == ByteAt(t, 1) && ByteAt(b, k + 2) == ByteAt(t, 2);
  }

  /** All differing pixels. */
  ghost function Diffs(a: seq<byte>, b: seq<byte>, w: nat, h: nat): set<Pos> {
    set x, y | 0 <= x < w && 0 <= y < h && Differ(a, b, w, Pos(x, y)) :: Pos(x, y)
  }

  predicate OnLattice(p: Pos) {
    p.x % 4 == 0 && p.y % 4 == 0
  }

  /** The differing pixels that are looked at. */
  ghost function Samples(a: seq<byte>, b: seq<byte>, w: nat, h: nat): set<Pos> {
    set p | p in Diffs(a, b, w, h) && OnLattice(p)
  }

  /** A set of lattice positions of a w by h image. */
  ghost predicate Lattice(s: set<Pos>, w: nat, h: nat) {
    forall p :: p in s ==> InGrid(p, w, h) && OnLattice(p)
  }

  lemma SamplesLattice(a: seq<byte>, b: seq<byte>, w: nat, h: nat)
    ensures Lattice(Samples(a, b, w, h), w, h)
    ensures forall p :: InGrid(p, w, h) && OnLattice(p) ==> (p in Samples(a, b, w, h) <==> Differ(a, b, w, p))
  {}

  /** Minima that start at `FAR` never rise above it. */
  function Capped(b: Box): Box {
    Box(Min(FAR, b.x0), Min(FAR, b.y0), b.x1, b.y1)
  }

  function CappedExtent(ext: Extent): Extent {
    Extent(Min(FAR, ext.minx), Min(FAR, ext.miny), ext.maxx, ext.maxy)
  }

  /** Count and capped extent of what a scan of a w by h image has met before (x, y). */
  ghost predicate Scanned(s: set<Pos>, w: nat, h: nat, x: nat, y: nat, n: nat, ext: Extent) {
    exists wide :: CappedExtent(wide) == ext && Counted(s, Max(w, FAR), Max(h, FAR), x, y, n, wide)
  }

  lemma LatticeStarts(s: set<Pos>, w: nat, h: nat)
    ensures Scanned(s, w, h, 0, 0, 0, Extent(FAR, FAR, -1, -1))
  {
    ScanStarts(s, Max(w, FAR), Max(h, FAR));
    assert CappedExtent(Extent(Max(w, FAR), Max(h, FAR), -1, -1)) == Extent(FAR, FAR, -1, -1);
  }

  /** Four columns on. */
  lemma LatticeStep(s: set<Pos>, w: nat, h: nat, x: nat, y: nat, n: nat, ext: Extent)
    requires Lattice(s, w, h) && x < w && y < h && x % 4 == 0 && Scanned(s, w, h, x, y, n, ext)
    ensures if Pos(x, y) in s then Scanned(s, w, h, x + 4, y, n + 1, ext.Grow(Pos(x, y)))
            else Scanned(s, w, h, x + 4, y, n, ext)
  {
    hide Counted;
    var wide :| CappedExtent(wide) == ext && Counted(s, Max(w, FAR), Max(h, FAR), x, y, n, wide);
    CountStep(s, Max(w, FAR), Max(h, FAR), x, y, 4, n, wide);
    assert CappedExtent(wide.Grow(Pos(x, y))) == ext.Grow(Pos(x, y));
  }

  /** Four rows on. */
  lemma LatticeRow(s: set<Pos>, w: nat, h: nat, x: nat, y: nat, n: nat, ext: Extent)
    requires Lattice(s, w, h) && w <= x && y % 4 == 0 && Scanned(s, w, h, x, y, n, ext)
    ensures Scanned(s, w, h, 0, y + 4, n, ext)
  {
    var wide :| CappedExtent(wide) == ext && Counted(s, Max(w, FAR), Max(h, FAR), x, y, n, wide);
    RowDone(s, x, y, 4);
  }

  /** The count and capped box reported for the positions of `s`; nothing exactly when there are none. */
  ghost predicate Reported(s: set<Pos>, r: Option<Found>) {
    && (r.None? <==> s == {})
    && (r.Some? ==> r.value.n == |s| && exists b :: Tight(b, s) && r.value.box == Capped(b))
  }

  function Report(n: nat, ext: Extent): Option<Found> {
    if n == 0 || ext.minx < 0 || ext.miny < 0 || ext.maxx < 0 || ext.maxy < 0 then None
    else Some(Found(Box(ext.minx, ext.miny, ext.maxx, ext.maxy), n))
  }

  lemma SamplesEnd(a: seq<byte>, b: seq<byte>, w: nat, h: nat, y: nat, n: nat, ext: Extent)
    requires h <= y && Scanned(Samples(a, b, w, h), w, h, 0, y, n, ext)
    ensures Reported(Samples(a, b, w, h), Report(n, ext))
  {
    hide Counted, Tight;
    var s := Samples(a, b, w, h);
    var wide :| CappedExtent(wide) == ext && Counted(s, Max(w, FAR), Max(h, FAR), 0, y, n, wide);
    ScanEnds(s, Max(w, FAR), Max(h, FAR), y, n, wide);
    if n > 0 {
      var b := Box(wide.minx, wide.miny, wide.maxx, wide.maxy);
      assert Tight(b, s) && Report(n, ext).value.box == Capped(b);
    }
  }

  lemma FourOn(x: nat)
    requires x % 4 == 0
    ensures (x + 4) % 4 == 0
  {}

  /** One row of the scan. */
  method ScanRow(a: seq<byte>, b: seq<byte>, w: nat, h: nat, y: nat, n0: nat, ext0: Extent)
    returns (n: nat, ext: Extent)
    requires y < h && y % 4 == 0 && Scanned(Samples(a, b, w, h), w, h, 0, y, n0, ext0)
    ensures Scanned(Samples(a, b, w, h), w, h, 0, y + 4, n, ext)
  {
    ghost var s := Samples(a, b, w, h);
    SamplesLattice(a, b, w, h);
    n, ext := n0, ext0;
    var x := 0;
    while x < w
      invariant 0 <= x && x % 4 == 0 && Scanned(s, w, h, x, y, n, ext)
    {
      LatticeStep(s, w, h, x, y, n, ext);
      var p := Pos(x, y);
      assert p in s <==> Differ(a, b, w, p);
      if Differ(a, b, w, p) {
        n, ext := n + 1, ext.Grow(p);
      }
      FourOn(x);
      x := x + 4;
    }
    LatticeRow(s, w, h, x, y, n, ext);
  }

  /** Count and bounding box of the differences that are looked at. */
  method DiffBox(a: seq<byte>, b: seq<byte>, w: nat, h: nat) returns (r: Option<Found>)
    ensures Reported(Samples(a, b, w, h), r)
  {
    var n: nat, ext := 0, Extent(FAR, FAR, -1, -1);
    var y := 0;
    LatticeStarts(Samples(a, b, w, h), w, h);
    while y < h
      invariant 0 <= y && y % 4 == 0 && Scanned(Samples(a, b, w, h), w, h, 0, y, n, ext)
    {
      n, ext := ScanRow(a, b, w, h, y, n, ext);
      FourOn(y);
      y := y + 4;
    }
    SamplesEnd(a, b, w, h, y, n, ext);
    r := Report(n, ext);
  }

  /** The sampled box lies inside the true one. */
  lemma SampledBoxIsInside(a: seq<byte>, b: seq<byte>, w: nat, h: nat, sampled: Box, whole: Box)
    requires Tight(sampled, Samples(a, b, w, h)) && Tight(whole, Diffs(a, b, w, h))
    ensures whole.x0 <= sampled.x0 && whole.y0 <= sampled.y0 && sampled.x1 <= whole.x1 && sampled.y1 <= whole.y1
  {
    TightIsLeast(sampled, Samples(a, b, w, h), whole);
    TightArea(sampled, Samples(a, b, w, h));
    assert sampled.Contains(Pos(sampled.x0, sampled.y0)) && sampled.Contains(Pos(sampled.x1, sampled.y1));
  }

  /** When nothing is found, every 4x4 window of the image holds a pixel that did not change. */
  lemma NoneMeansHoles(a: seq<byte>, b: seq<byte>, w: nat, h: nat, x: nat, y: nat) returns (p: Pos)
    requires Samples(a, b, w, h) == {} && x + 4 <= w && y + 4 <= h
    ensures x <= p.x < x + 4 && y <= p.y < y + 4 && !Differ(a, b, w, p)
  {
    p := Pos((x + 3) / 4 * 4, (y + 3) / 4 * 4);
    assert p !in Samples(a, b, w, h);
  }

  /** Changing the first byte of pixel `i` changes that pixel and no other. */
  lemma OneByteApart(a: seq<byte>, i: nat, j: nat)
    requires 3 * i < |a| && a[3 * i] != 1
    ensures Slice3(a, 3 * j) != Slice3(a[3 * i := 1], 3 * j) <==> i == j
  {
    var b := a[3 * i := 1];
    if i == j {
      assert Slice3(b, 3 * i)[0] == 1 && Slice3(a, 3 * i)[0] == a[3 * i];
    } else {
      assert Slice3(a, 3 * j) == Slice3(b, 3 * j);
    }
  }

  /** Two images that differ in the one pixel `p`. */
  lemma OnePixelApart(w: nat, h: nat, p: Pos) returns (a: seq<byte>, b: seq<byte>)
    requires InGrid(p, w, h)
    ensures Diffs(a, b, w, h) == {p}
  {
    hide Index, Slice3;
    IndexBound(p, w, h);
    a := seq(3 * (w * h), _ => 0);
    b := a[3 * Index(p, w) := 1];
    forall q | InGrid(q, w, h) ensures Differ(a, b, w, q) <==> q == p {
      OneByteApart(a, Index(p, w), Index(q, w));
      if Index(p, w) == Index(q, w) {
        IndexInjective(p, q, w, h);
      }
    }
  }

  lemma AllOnLattice(a: seq<byte>, b: seq<byte>, w: nat, h: nat)
    requires w == 0 || h == 0 || (w == 1 && h == 1)
    ensures Diffs(a, b, w, h) == Samples(a, b, w, h)
  {}

  lemma OffLatticeIsUnseen(a: seq<byte>, b: seq<byte>, w: nat, h: nat, p: Pos)
    requires Diffs(a, b, w, h) == {p} && !OnLattice(p)
    ensures Samples(a, b, w, h) == {}
  {}

  /** Finding nothing means that nothing changed exactly for images without a pixel off the lattice. */
  lemma NoneMeansEqualIff(w: nat, h: nat)
    ensures (forall a, b :: Samples(a, b, w, h) == {} ==> Diffs(a, b, w, h) == {}) <==>
            w == 0 || h == 0 || (w == 1 && h == 1)
  {
    if w == 0 || h == 0 || (w == 1 && h == 1) {
      forall a, b ensures Diffs(a, b, w, h) == Samples(a, b, w, h) {
        AllOnLattice(a, b, w, h);
      }
    } else {
      var p := if w > 1 then Pos(1, 0) else Pos(0, 1);
      var a, b := OnePixelApart(w, h, p);
      OffLatticeIsUnseen(a, b, w, h, p);
      assert p in Diffs(a, b, w, h);
    }
  }

  lemma LatticeIsNear(s: set<Pos>, w: nat, h: nat, b: Box)
    requires Lattice(s, w, h) && (w == 0 || h == 0 || (w <= FAR + 4 && h <= FAR + 4)) && Tight(b, s)
    ensures Capped(b) == b
  {
    var l :| l in s && l.x == b.x0;
    var d :| d in s && d.y == b.y0;
    assert InGrid(l, w, h) && OnLattice(l) && InGrid(d, w, h) && OnLattice(d);
  }

  /** The minima are those of the differences exactly for images without a lattice position past `FAR`. */
  lemma BoxIsTightIff(w: nat, h: nat)
    ensures (forall a, b, box :: Tight(box, Samples(a, b, w, h)) ==> Capped(box) == box) <==>
            w == 0 || h == 0 || (w <= 0x4000_0004 && h <= 0x4000_0004)
  {
    if w == 0 || h == 0 || (w <= FAR + 4 && h <= FAR + 4) {
      forall a, b, box | Tight(box, Samples(a, b, w, h)) ensures Capped(box) == box {
        SamplesLattice(a, b, w, h);
        LatticeIsNear(Samples(a, b, w, h), w, h, box);
      }
    } else {
      var p := if w > FAR + 4 then Pos(FAR + 4, 0) else Pos(0, FAR + 4);
      var a, b := OnePixelApart(w, h, p);
      assert p in Diffs(a, b, w, h) && OnLattice(p);
      assert Samples(a, b, w, h) == {p};
      assert p in Samples(a, b, w, h);
      var box := Box(p.x, p.y, p.x, p.y);
      assert Tight(box, Samples(a, b, w, h)) && Capped(box) != box;
    }
  }
}
