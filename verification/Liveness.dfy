/**
 What changed between frames, with the self-repainting region left out (`dbox` and the
 liveness hull of m12_analyze.py; `diff`, `changed_box` and `learn_liveness` of m12_caps.py).
 */
module Liveness {
  import opened Wrappers
  import opened Grid
  import Colour

  datatype Frame = Frame(w: nat, h: nat, px: seq<nat>) {
    ghost predicate Valid() {
      |px| == w * h
    }

    function At(p: Pos): nat
      requires Valid() && InGrid(p, w, h)
    {
      Colour.At(w, h, px, p)
    }

    predicate SameShape(f: Frame) {
      w == f.w && h == f.h
    }
  }

  /** The positions that differ between two frames of one shape. */
  ghost function Changed(a: Frame, b: Frame): set<Pos>
    requires a.Valid() && b.Valid() && a.SameShape(b)
  {
    set x, y | 0 <= x < a.w && 0 <= y < a.h && a.At(Pos(x, y)) != b.At(Pos(x, y)) :: Pos(x, y)
  }

  predicate Excluded(exclude: Option<Box>, p: Pos) {
    exclude.Some? && exclude.value.Contains(p)
  }

  ghost function Outside(s: set<Pos>, exclude: Option<Box>): set<Pos> {
    set p | p in s && !Excluded(exclude, p)
  }

  /** `box` is the bounding box reported for `s`. */
  ghost predicate BoxOf(s: set<Pos>, box: Option<Box>) {
    (box.None? <==> s == {}) && (box.Some? ==> Tight(box.value, s))
  }

  // ---- Masks ----

  ghost function Set(mask: array2<bool>): set<Pos>
    reads mask
  {
    set x, y | 0 <= x < mask.Length1 && 0 <= y < mask.Length0 && mask[y, x] :: Pos(x, y)
  }

  /** The mask of differing pixels. */
  method Differences(a: Frame, b: Frame) returns (mask: array2<bool>)
    requires a.Valid() && b.Valid() && a.SameShape(b)
    ensures fresh(mask) && mask.Length0 == a.h && mask.Length1 == a.w && Set(mask) == Changed(a, b)
  {
    mask := new bool[a.h, a.w]((_, _) => false);
    for y := 0 to a.h
      invariant forall p :: InGrid(p, a.w, a.h) && p.y < y ==> mask[p.y, p.x] == (a.At(p) != b.At(p))
    {
      for x := 0 to a.w
        invariant forall p :: InGrid(p, a.w, a.h) && (p.y < y || (p.y == y && p.x < x)) ==>
                    mask[p.y, p.x] == (a.At(p) != b.At(p))
      {
        mask[y, x] := a.At(Pos(x, y)) != b.At(Pos(x, y));
      }
    }
  }

  /** Clear the part of the mask inside a box; the box may reach past the frame. */
  method Clear(mask: array2<bool>, box: Box)
    modifies mask
    ensures Set(mask) == Outside(old(Set(mask)), Some(box))
  {
    var yEnd := Min(box.y1 + 1, mask.Length0);
    var xEnd := Min(box.x1 + 1, mask.Length1);
    var y := box.y0;
    while y < yEnd
      invariant box.y0 <= y
      invariant forall p :: InGrid(p, mask.Length1, mask.Length0) ==>
                  mask[p.y, p.x] == (old(mask[p.y, p.x]) && !(box.Contains(p) && p.y < y))
    {
      var x := box.x0;
      while x < xEnd
        invariant box.x0 <= x
        invariant forall p :: InGrid(p, mask.Length1, mask.Length0) ==>
                    mask[p.y, p.x] == (old(mask[p.y, p.x]) && !(box.Contains(p) && (p.y < y || (p.y == y && p.x < x))))
      {
        mask[y, x] := false;
        x := x + 1;
      }
      y := y + 1;
    }
    forall p ensures p in Set(mask) <==> p in Outside(old(Set(mask)), Some(box)) {
      if InGrid(p, mask.Length1, mask.Length0) {
        assert mask[p.y, p.x] == (old(mask[p.y, p.x]) && !(box.Contains(p) && p.y < y));
      }
    }
  }

  /** Count the set flags and find the smallest box around them. */
  method Measure(mask: array2<bool>) returns (n: nat, box: Option<Box>)
    ensures n == |Set(mask)| && BoxOf(Set(mask), box)
  {
    var w, h := mask.Length1, mask.Length0;
    var ext := Extent(w, h, -1, -1);
    ghost var s := Set(mask);
    n := 0;
    ScanStarts(s, w, h);
    for y := 0 to h
      invariant Counted(s, w, h, 0, y, n, ext)
    {
      for x := 0 to w
        invariant Counted(s, w, h, x, y, n, ext)
      {
        DenseStep(s, w, h, x, y, n, ext);
        if mask[y, x] {
          n := n + 1;
          ext := ext.Grow(Pos(x, y));
        }
      }
      DenseRow(s, w, h, y, n, ext);
    }
    ScanEnds(s, w, h, h, n, ext);
    box := if n == 0 then None else Some(Box(ext.minx, ext.miny, ext.maxx, ext.maxy));
  }

  /** Count and bounding box of the changes outside an excluded box. */
  method DBox(a: Frame, b: Frame, exclude: Option<Box>) returns (n: nat, box: Option<Box>)
    requires a.Valid() && b.Valid() && a.SameShape(b)
    ensures n == |Outside(Changed(a, b), exclude)| && BoxOf(Outside(Changed(a, b), exclude), box)
  {
    var mask := Differences(a, b);
    if exclude.Some? {
      Clear(mask, exclude.value);
    } else {
      assert Outside(Set(mask), exclude) == Set(mask);
    }
    n, box := Measure(mask);
  }

  /** numpy refuses the minimum of nothing. */
  datatype EmptyMinimum = EmptyMinimum

  ghost predicate Comparable(a: Option<Frame>, b: Option<Frame>) {
    a.Some? && b.Some? && a.value.SameShape(b.value)
  }

  ghost predicate FrameOk(a: Option<Frame>) {
    a.Some? ==> a.value.Valid()
  }

  /** What comparing two captures finds; nothing if one is missing or the shapes differ. */
  ghost function Compared(a: Option<Frame>, b: Option<Frame>): set<Pos>
    requires FrameOk(a) && FrameOk(b)
  {
    if Comparable(a, b) then Changed(a.value, b.value) else {}
  }

  /** Where something appeared, unless fewer than `minPx` pixels changed or there is nothing to compare. */
  method ChangedBox(a: Option<Frame>, b: Option<Frame>, exclude: Option<Box>, minPx: nat)
    returns (r: Result<(Option<Box>, nat), EmptyMinimum>)
    requires FrameOk(a) && FrameOk(b)
    ensures !Comparable(a, b) ==> r == Ok((None, 0))
    ensures Comparable(a, b) ==>
              var s := Outside(Compared(a, b), exclude);
              && (r.Err? <==> minPx == 0 && s == {})
              && (r.Ok? ==> && r.value.1 == |s| && (r.value.0.Some? <==> |s| >= minPx)
                            && (r.value.0.Some? ==> Tight(r.value.0.value, s)))
  {
    if a.None? || b.None? || !a.value.SameShape(b.value) {
      return Ok((None, 0));
    }
    var n, box := DBox(a.value, b.value, exclude);
    if n < minPx {
      return Ok((None, n));
    }
    if n == 0 {
      return Err(EmptyMinimum);
    }
    return Ok((box, n));
  }

  // ---- The liveness region ----

  /** The smallest box around both. */
  function Hull(b: Option<Box>, c: Option<Box>): Option<Box> {
    if b.None? then c
    else if c.None? then b
    else Some(Box(Min(b.value.x0, c.value.x0), Min(b.value.y0, c.value.y0),
                  Max(b.value.x1, c.value.x1), Max(b.value.y1, c.value.y1)))
  }

  lemma HullIsTight(s: set<Pos>, t: set<Pos>, b: Option<Box>, c: Option<Box>)
    requires BoxOf(s, b) && BoxOf(t, c)
    ensures BoxOf(s + t, Hull(b, c))
  {
    if b.None? {
      assert s + t == t;
    } else if c.None? {
      assert s + t == s;
    } else {
      var l :| l in s && l.x == b.value.x0;
      var r :| r in s && r.x == b.value.x1;
      var d :| d in s && d.y == b.value.y0;
      var u :| u in s && u.y == b.value.y1;
      var l' :| l' in t && l'.x == c.value.x0;
      var r' :| r' in t && r'.x == c.value.x1;
      var d' :| d' in t && d'.y == c.value.y0;
      var u' :| u' in t && u'.y == c.value.y1;
      TightOfParts(s + t, Hull(b, c).value, l, l', r, r', d, d', u, u');
    }
  }

  lemma TightOfParts(s: set<Pos>, b: Box, l: Pos, l': Pos, r: Pos, r': Pos, d: Pos, d': Pos, u: Pos, u': Pos)
    requires {l, l', r, r', d, d', u, u'} <= s
    requires forall p :: p in s ==> b.Contains(p)
    requires (l.x == b.x0 || l'.x == b.x0) && (r.x == b.x1 || r'.x == b.x1)
    requires (d.y == b.y0 || d'.y == b.y0) && (u.y == b.y1 || u'.y == b.y1)
    ensures Tight(b, s)
  {
    assert l in s && l' in s && r in s && r' in s && d in s && d' in s && u in s && u' in s;
  }

  /** `diff`: count and box of all changes, if there is anything to compare. */
  method Diff(a: Option<Frame>, b: Option<Frame>) returns (r: Option<(nat, Option<Box>)>)
    requires FrameOk(a) && FrameOk(b)
    ensures r.Some? <==> Comparable(a, b)
    ensures r.Some? ==> r.value.0 == |Compared(a, b)| && BoxOf(Compared(a, b), r.value.1)
  {
    if a.None? || b.None? || !a.value.SameShape(b.value) {
      return None;
    }
    var n, box := DBox(a.value, b.value, None);
    assert Outside(Compared(a, b), None) == Compared(a, b);
    return Some((n, box));
  }

  function BoxIn(d: Option<(nat, Option<Box>)>): Option<Box> {
    if d.Some? then d.value.1 else None
  }

  /**
   `r` is the region learned from three idle frames, with `live` the region so far: the box of what
   the comparisons find, or `live` when a frame is missing or they find nothing.
   */
  ghost predicate Learned(a: Option<Frame>, b: Option<Frame>, c: Option<Frame>, live: Option<Box>, r: Option<Box>)
    requires FrameOk(a) && FrameOk(b) && FrameOk(c)
  {
    var s := Compared(a, b) + Compared(b, c);
    if a.None? || b.None? || c.None? || s == {} then r == live else BoxOf(s, r)
  }

  /**
   Learn the liveness region from three idle frames. It stays what it was when one is missing and
   when the comparisons, of which those between different shapes are skipped, find nothing.
   */
  method LearnLiveness(a: Option<Frame>, b: Option<Frame>, c: Option<Frame>, live: Option<Box>) returns (r: Option<Box>)
    requires FrameOk(a) && FrameOk(b) && FrameOk(c)
    ensures Learned(a, b, c, live, r)
  {
    if a.None? || b.None? || c.None? {
      return live;
    }
    var ab := Diff(a, b);
    var bc := Diff(b, c);
    HullIsTight(Compared(a, b), Compared(b, c), BoxIn(ab), BoxIn(bc));
    r := if Hull(BoxIn(ab), BoxIn(bc)).None? then live else Hull(BoxIn(ab), BoxIn(bc));
  }

  /** No two of the frames that can be compared differ outside `r`. */
  ghost predicate AgreeOutside(a: Option<Frame>, b: Option<Frame>, c: Option<Frame>, r: Option<Box>)
    requires FrameOk(a) && FrameOk(b) && FrameOk(c)
  {
    Outside(Compared(a, b), r) == Outside(Compared(b, c), r) == Outside(Compared(a, c), r) == {}
  }

  /**
   With the region learned from three idle frames left out, no two of the three differ: the
   region also covers what changed between the first and the last. This holds of frames that are
   all there, unless the middle one has another shape than both others.
   */
  lemma IdleFramesAgreeOutside(a: Option<Frame>, b: Option<Frame>, c: Option<Frame>, live: Option<Box>, r: Option<Box>)
    requires FrameOk(a) && FrameOk(b) && FrameOk(c) && a.Some? && b.Some? && c.Some?
    requires Learned(a, b, c, live, r) && (Comparable(a, b) || !Comparable(a, c))
    ensures AgreeOutside(a, b, c, r)
  {
    forall p | p in Compared(a, b) || p in Compared(b, c) ensures Excluded(r, p) {
      assert p in Compared(a, b) + Compared(b, c);
    }
    if Comparable(a, b) && Comparable(a, c) {
      forall p | p in Compared(a, c) ensures Excluded(r, p) {
        assert p in Compared(a, b) || p in Compared(b, c);
      }
    }
  }

  // ---- For which shapes the idle frames always agree ----

  /** Width and height. */
  type Shape = (nat, nat)

  /** The frame is there exactly if `shape` is, and has that shape. */
  ghost predicate Shaped(a: Option<Frame>, shape: Option<Shape>) {
    match a
    case None => shape == None
    case Some(f) => f.Valid() && shape == Some((f.w, f.h))
  }

  /** Whatever the frames of these shapes show, they agree outside what is learned from them. */
  ghost predicate AlwaysAgree(sa: Option<Shape>, sb: Option<Shape>, sc: Option<Shape>, live: Option<Box>) {
    forall a, b, c, r :: Shaped(a, sa) && Shaped(b, sb) && Shaped(c, sc) && Learned(a, b, c, live, r) ==>
                           AgreeOutside(a, b, c, r)
  }

  /** Two frames of these shapes that are both there and can be compared. */
  predicate Alike(sa: Option<Shape>, sb: Option<Shape>) {
    sa.Some? && sa == sb
  }

  /** Every position of a frame of that shape lies in `live`. */
  ghost predicate AllExcluded(shape: Option<Shape>, live: Option<Box>) {
    shape.Some? ==> forall p :: InGrid(p, shape.value.0, shape.value.1) ==> Excluded(live, p)
  }

  /**
   Nothing is compared that could tell the frames apart: a frame is missing, or the middle one has
   another shape than both others. Then the old region has to cover whatever could differ.
   */
  ghost predicate Blind(sa: Option<Shape>, sb: Option<Shape>, sc: Option<Shape>, live: Option<Box>) {
    if sa.Some? && sb.Some? && sc.Some? then sa == sc && sa != sb && !AllExcluded(sa, live)
    else
      || (Alike(sa, sb) && !AllExcluded(sa, live))
      || (Alike(sb, sc) && !AllExcluded(sb, live))
      || (Alike(sa, sc) && !AllExcluded(sa, live))
  }

  /** Two frames of a shape that differ at `p`. */
  lemma ApartAt(w: nat, h: nat, p: Pos) returns (x: Option<Frame>, y: Option<Frame>)
    requires InGrid(p, w, h)
    ensures Shaped(x, Some((w, h))) && Shaped(y, Some((w, h))) && FrameOk(x) && FrameOk(y)
    ensures p in Compared(x, y)
  {
    IndexBound(p, w, h);
    var px := seq(w * h, _ => 0);
    var f, g := Frame(w, h, px), Frame(w, h, px[Index(p, w) := 1]);
    x, y := Some(f), Some(g);
    assert f.At(p) == 0 && g.At(p) == 1;
    assert Pos(p.x, p.y) == p;
  }

  /** A frame of a shape, if there is to be one. */
  lemma SomeFrame(shape: Option<Shape>) returns (x: Option<Frame>)
    ensures Shaped(x, shape) && FrameOk(x)
  {
    x := match shape
         case None => None
         case Some((w, h)) => Some(Frame(w, h, seq(w * h, _ => 0)));
  }

  lemma Uncovered(shape: Option<Shape>, live: Option<Box>) returns (x: Option<Frame>, y: Option<Frame>)
    requires shape.Some? && !AllExcluded(shape, live)
    ensures Shaped(x, shape) && Shaped(y, shape) && FrameOk(x) && FrameOk(y)
    ensures Outside(Compared(x, y), live) != {}
  {
    var p :| InGrid(p, shape.value.0, shape.value.1) && !Excluded(live, p);
    x, y := ApartAt(shape.value.0, shape.value.1, p);
    assert p in Outside(Compared(x, y), live);
  }

  lemma BlindDiffer(sa: Option<Shape>, sb: Option<Shape>, sc: Option<Shape>, live: Option<Box>)
    returns (a: Option<Frame>, b: Option<Frame>, c: Option<Frame>)
    requires Blind(sa, sb, sc, live)
    ensures Shaped(a, sa) && Shaped(b, sb) && Shaped(c, sc) && FrameOk(a) && FrameOk(b) && FrameOk(c)
    ensures Learned(a, b, c, live, live) && !AgreeOutside(a, b, c, live)
  {
    if Alike(sa, sc) && !AllExcluded(sa, live) {
      a, c := Uncovered(sa, live);
      b := SomeFrame(sb);
    } else if Alike(sa, sb) && !AllExcluded(sa, live) {
      a, b := Uncovered(sa, live);
      c := SomeFrame(sc);
    } else {
      b, c := Uncovered(sb, live);
      a := SomeFrame(sa);
    }
  }

  lemma NothingOutside(shape: Option<Shape>, a: Option<Frame>, b: Option<Frame>, live: Option<Box>)
    requires FrameOk(a) && FrameOk(b) && Shaped(a, shape) && AllExcluded(shape, live)
    ensures Outside(Compared(a, b), live) == {}
  {}

  lemma SightedAgree(sa: Option<Shape>, sb: Option<Shape>, sc: Option<Shape>, live: Option<Box>,
                     a: Option<Frame>, b: Option<Frame>, c: Option<Frame>, r: Option<Box>)
    requires !Blind(sa, sb, sc, live) && Shaped(a, sa) && Shaped(b, sb) && Shaped(c, sc)
    requires Learned(a, b, c, live, r)
    ensures AgreeOutside(a, b, c, r)
  {
    if a.Some? && b.Some? && c.Some? && (Comparable(a, b) || !Comparable(a, c)) {
      IdleFramesAgreeOutside(a, b, c, live, r);
    } else {
      assert r == live;
      if Comparable(a, b) {
        NothingOutside(sa, a, b, live);
      }
      if Comparable(b, c) {
        NothingOutside(sb, b, c, live);
      }
      if Comparable(a, c) {
        NothingOutside(sa, a, c, live);
      }
    }
  }

  /**
   Exactly for which shapes, missing frames included, and which region so far, three idle frames
   always agree outside the region learned from them.
   */
  lemma AlwaysAgreeIff(sa: Option<Shape>, sb: Option<Shape>, sc: Option<Shape>, live: Option<Box>)
    ensures AlwaysAgree(sa, sb, sc, live) <==> !Blind(sa, sb, sc, live)
  {
    if Blind(sa, sb, sc, live) {
      var a, b, c := BlindDiffer(sa, sb, sc, live);
    } else {
      forall a, b, c, r | Shaped(a, sa) && Shaped(b, sb) && Shaped(c, sc) && Learned(a, b, c, live, r)
        ensures AgreeOutside(a, b, c, r)
      {
        SightedAgree(sa, sb, sc, live, a, b, c, r);
      }
    }
  }

  lemma SinglePixels(u: nat, v: nat)
    requires u != v
    ensures Frame(1, 1, [u]).Valid() && Frame(1, 1, [v]).Valid()
    ensures Pos(0, 0) in Outside(Compared(Some(Frame(1, 1, [u])), Some(Frame(1, 1, [v]))), None)
  {
    var x, y := Frame(1, 1, [u]), Frame(1, 1, [v]);
    assert Index(Pos(0, 0), 1) == 0;
    assert x.At(Pos(0, 0)) == u && y.At(Pos(0, 0)) == v;
  }

  /** A middle frame of another shape: no region is learned, and the first and last frame differ. */
  lemma OddMiddleLearnsNothing()
    ensures var x, y, z := Some(Frame(1, 1, [0])), Some(Frame(2, 1, [0, 0])), Some(Frame(1, 1, [1]));
            && FrameOk(x) && FrameOk(y) && FrameOk(z)
            && Learned(x, y, z, None, None) && Outside(Compared(x, z), None) != {}
  {
    SinglePixels(0, 1);
    assert Compared(Some(Frame(1, 1, [0])), Some(Frame(2, 1, [0, 0]))) == {};
    assert Compared(Some(Frame(2, 1, [0, 0])), Some(Frame(1, 1, [1]))) == {};
  }

  /** A missing frame: no region is learned, and the two that are there differ. */
  lemma MissingFrameLearnsNothing()
    ensures var x, y := Some(Frame(1, 1, [0])), Some(Frame(1, 1, [1]));
            && FrameOk(x) && FrameOk(y)
            && Learned(x, y, None, None, None) && Outside(Compared(x, y), None) != {}
  {
    SinglePixels(0, 1);
  }
}
