/** Pixel positions, row-major indices and bounding boxes. */
module Grid {

  datatype Pos = Pos(x: nat, y: nat)

  /** A box with both corners included. */
  datatype Box = Box(x0: nat, y0: nat, x1: nat, y1: nat) {
    predicate Contains(p: Pos) {
      x0 <= p.x <= x1 && y0 <= p.y <= y1
    }

    function Width(): int {
      x1 - x0 + 1
    }

    function Height(): int {
      y1 - y0 + 1
    }
  }

  predicate InGrid(p: Pos, w: nat, h: nat) {
    p.x < w && p.y < h
  }

  function Index(p: Pos, w: nat): nat {
    p.y * w + p.x
  }

  function PosOf(i: nat, w: nat): Pos
    requires w > 0
  {
    Pos(i % w, i / w)
  }

  // ---- Row-major order ----

  lemma DivModUnique(q: nat, w: nat, r: nat)
    requires r < w
    ensures (q * w + r) / w == q && (q * w + r) % w == r
  {
    var n := q * w + r;
    var d := q - n / w;
    assert n == (n / w) * w + n % w;
    assert d * w == n % w - r by {
      assert d * w == q * w - (n / w) * w;
    }
    NoMultipleBetween(d, w, n % w - r);
  }

  lemma NoMultipleBetween(d: int, w: nat, r: int)
    requires d * w == r && 0 - w < r < w
    ensures d == 0
  {}

  lemma MulMono(a: nat, b: nat, w: nat)
    requires a <= b
    ensures a * w <= b * w
    ensures (a + 1) * w == a * w + w && b * w == w * b
  {}

  lemma IndexBound(p: Pos, w: nat, h: nat)
    requires InGrid(p, w, h)
    ensures Index(p, w) < w * h
    ensures PosOf(Index(p, w), w) == p
  {
    MulMono(p.y + 1, h, w);
    DivModUnique(p.y, w, p.x);
  }

  lemma PosOfBound(i: nat, w: nat, h: nat)
    requires i < w * h
    ensures w > 0 && InGrid(PosOf(i, w), w, h) && Index(PosOf(i, w), w) == i
  {
    assert w > 0;
    assert i == (i / w) * w + i % w;
    if i / w >= h {
      MulMono(h, i / w, w);
    }
  }

  /** The indices of one stretch of a row are consecutive, and no other index falls among them. */
  lemma RowStretch(w: nat, x: nat, n: nat, y: nat, i: nat)
    requires x + n <= w && w > 0
    ensures y * w + x <= i < y * w + x + n <==> PosOf(i, w).y == y && x <= PosOf(i, w).x < x + n
  {
    if y * w + x <= i < y * w + x + n {
      DivModUnique(y, w, i - y * w);
    }
    if i / w == y {
      assert i == y * w + i % w;
    }
  }

  // ---- Counting ----

  function Cells(b: Box): set<Pos> {
    set x, y | b.x0 <= x <= b.x1 && b.y0 <= y <= b.y1 :: Pos(x, y)
  }

  function Row(x0: nat, n: nat, y: nat): set<Pos> {
    set x | x0 <= x < x0 + n :: Pos(x, y)
  }

  lemma {:induction false} RowCount(x0: nat, n: nat, y: nat)
    ensures |Row(x0, n, y)| == n
  {
    if n != 0 {
      RowCount(x0, n - 1, y);
      var last := Pos(x0 + n - 1, y);
      forall p ensures p in Row(x0, n, y) <==> p in Row(x0, n - 1, y) || p == last {
      }
      assert Row(x0, n, y) == Row(x0, n - 1, y) + {last};
      assert last !in Row(x0, n - 1, y);
    }
  }

  lemma TopRow(b: Box)
    requires b.x0 <= b.x1 && b.y0 < b.y1
    ensures Cells(b) == Cells(b.(y1 := b.y1 - 1)) + Row(b.x0, b.x1 - b.x0 + 1, b.y1)
    ensures Cells(b.(y1 := b.y1 - 1)) !! Row(b.x0, b.x1 - b.x0 + 1, b.y1)
  {}

  lemma OneMore(w: int, h: int)
    ensures w * (h + 1) == w * h + w
  {}

  lemma {:induction false} CellsCount(b: Box)
    requires b.x0 <= b.x1 && b.y0 <= b.y1
    ensures |Cells(b)| == b.Width() * b.Height()
    decreases b.y1
  {
    var top := Row(b.x0, b.x1 - b.x0 + 1, b.y1);
    RowCount(b.x0, b.x1 - b.x0 + 1, b.y1);
    if b.y0 == b.y1 {
      assert Cells(b) == top;
    } else {
      var lower := b.(y1 := b.y1 - 1);
      CellsCount(lower);
      TopRow(b);
      OneMore(b.Width(), lower.Height());
    }
  }

  lemma SubsetSize<T>(a: set<T>, b: set<T>)
    requires a <= b
    ensures |a| <= |b| && (|a| == |b| <==> a == b)
  {
    assert b == a + (b - a);
  }

  // ---- Positions picked out by flags ----

  /** The positions of a grid whose flag is set, flags in row-major order; the last ones may be missing. */
  ghost function Marked(flags: seq<bool>, w: nat, h: nat): set<Pos> {
    set x, y | 0 <= x < w && 0 <= y < h && Index(Pos(x, y), w) < |flags| && flags[Index(Pos(x, y), w)] :: Pos(x, y)
  }

  lemma IndexInjective(p: Pos, q: Pos, w: nat, h: nat)
    requires InGrid(p, w, h) && InGrid(q, w, h) && Index(p, w) == Index(q, w)
    ensures p == q
  {
    IndexBound(p, w, h);
    IndexBound(q, w, h);
  }

  lemma MarkedNext(flags: seq<bool>, i: nat, w: nat, h: nat, p: Pos)
    requires i < |flags| && InGrid(p, w, h) && Index(p, w) == i
    ensures Marked(flags[..i + 1], w, h) == Marked(flags[..i], w, h) + if flags[i] then {p} else {}
    ensures |Marked(flags[..i + 1], w, h)| == |Marked(flags[..i], w, h)| + if flags[i] then 1 else 0
  {
    forall q ensures q in Marked(flags[..i + 1], w, h) <==> q in Marked(flags[..i], w, h) || (flags[i] && q == p) {
      if InGrid(q, w, h) && Index(q, w) == i {
        IndexInjective(p, q, w, h);
      }
    }
    assert p !in Marked(flags[..i], w, h);
  }

  /** The source's divmod: the position of index `i`. */
  method Locate(i: nat, w: nat, h: nat) returns (p: Pos)
    requires i < w * h
    ensures InGrid(p, w, h) && Index(p, w) == i
  {
    PosOfBound(i, w, h);
    p := Pos(i % w, i / w);
  }

  // ---- Bounding boxes ----

  /** `b` is the smallest box that contains all of `s`. */
  ghost predicate Tight(b: Box, s: set<Pos>) {
    && (forall p :: p in s ==> b.Contains(p))
    && (exists p :: p in s && p.x == b.x0)
    && (exists p :: p in s && p.x == b.x1)
    && (exists p :: p in s && p.y == b.y0)
    && (exists p :: p in s && p.y == b.y1)
  }

  /** Any box around `s` contains the tight one. */
  lemma TightIsLeast(b: Box, s: set<Pos>, c: Box)
    requires Tight(b, s) && forall p :: p in s ==> c.Contains(p)
    ensures forall p :: b.Contains(p) ==> c.Contains(p)
  {
    var l :| l in s && l.x == b.x0;
    var r :| r in s && r.x == b.x1;
    var t :| t in s && t.y == b.y0;
    var u :| u in s && u.y == b.y1;
    assert c.Contains(l) && c.Contains(r) && c.Contains(t) && c.Contains(u);
  }

  /** A set with tight box `b` fills at most the box, and all of it exactly when it is the box. */
  lemma TightArea(b: Box, s: set<Pos>)
    requires Tight(b, s)
    ensures b.Width() >= 1 && b.Height() >= 1
    ensures |s| <= b.Width() * b.Height() == |Cells(b)|
    ensures |s| == b.Width() * b.Height() <==> forall p :: b.Contains(p) ==> p in s
  {
    CellsCount(b);
    assert s <= Cells(b);
    SubsetSize(s, Cells(b));
  }

  function Min(a: int, b: int): int {
    if a < b then a else b
  }

  function Max(a: int, b: int): int {
    if a > b then a else b
  }

  /** Widening the running minima and maxima by one more position keeps the box tight. */
  lemma TightGrows(b: Box, s: set<Pos>, p: Pos)
    requires Tight(b, s)
    ensures Tight(Box(Min(b.x0, p.x), Min(b.y0, p.y), Max(b.x1, p.x), Max(b.y1, p.y)), s + {p})
  {
    var t, c := s + {p}, Box(Min(b.x0, p.x), Min(b.y0, p.y), Max(b.x1, p.x), Max(b.y1, p.y));
    var l :| l in s && l.x == b.x0;
    var r :| r in s && r.x == b.x1;
    var d :| d in s && d.y == b.y0;
    var u :| u in s && u.y == b.y1;
    assert l in t && r in t && d in t && u in t && p in t;
    assert l.x == c.x0 || p.x == c.x0;
    assert r.x == c.x1 || p.x == c.x1;
    assert d.y == c.y0 || p.y == c.y0;
    assert u.y == c.y1 || p.y == c.y1;
  }

  /** Running minima and maxima over the positions of `s`, started at (w, h) and (-1, -1). */
  datatype Extent = Extent(minx: int, miny: int, maxx: int, maxy: int) {
    function Grow(p: Pos): Extent {
      Extent(Min(minx, p.x), Min(miny, p.y), Max(maxx, p.x), Max(maxy, p.y))
    }

    ghost predicate Bounds(s: set<Pos>, w: nat, h: nat) {
      if s == {} then this == Extent(w, h, -1, -1)
      else minx >= 0 && miny >= 0 && maxx >= 0 && maxy >= 0 && Tight(Box(minx, miny, maxx, maxy), s)
    }

    lemma Grows(s: set<Pos>, w: nat, h: nat, p: Pos)
      requires Bounds(s, w, h) && InGrid(p, w, h)
      ensures Grow(p).Bounds(s + {p}, w, h)
    {
      assert p in s + {p};
      if s != {} {
        TightGrows(Box(minx, miny, maxx, maxy), s, p);
      }
    }
  }

  // ---- Scanning row by row ----

  /** The positions of `s` that come before (x, y) in row-major order. */
  ghost function Before(s: set<Pos>, x: nat, y: nat): set<Pos> {
    set p | p in s && (p.y < y || (p.y == y && p.x < x))
  }

  /** Count and extent of what a scan started at (w, h) has met before (x, y). */
  ghost predicate Counted(s: set<Pos>, w: nat, h: nat, x: nat, y: nat, n: nat, ext: Extent) {
    n == |Before(s, x, y)| && ext.Bounds(Before(s, x, y), w, h)
  }

  /** `step` columns on, only the one position looked at can have been added. */
  lemma CountStep(s: set<Pos>, w: nat, h: nat, x: nat, y: nat, step: nat, n: nat, ext: Extent)
    requires x < w && y < h && step > 0 && Counted(s, w, h, x, y, n, ext)
    requires forall p :: p in s && p.y == y && x < p.x ==> x + step <= p.x
    ensures if Pos(x, y) in s then Counted(s, w, h, x + step, y, n + 1, ext.Grow(Pos(x, y)))
            else Counted(s, w, h, x + step, y, n, ext)
  {
    var t := Before(s, x, y);
    forall p ensures p in Before(s, x + step, y) <==> p in t || (p in s && p == Pos(x, y)) {
    }
    assert Before(s, x + step, y) == if Pos(x, y) in s then t + {Pos(x, y)} else t;
    assert Pos(x, y) !in t;
    ext.Grows(t, w, h, Pos(x, y));
  }

  lemma RowDone(s: set<Pos>, x: nat, y: nat, step: nat)
    requires step > 0 && forall p :: p in s ==> p.x < x && (y < p.y ==> y + step <= p.y)
    ensures Before(s, x, y) == Before(s, 0, y + step)
  {}

  lemma ScanStarts(s: set<Pos>, w: nat, h: nat)
    ensures Counted(s, w, h, 0, 0, 0, Extent(w, h, -1, -1))
  {
    assert Before(s, 0, 0) == {};
  }

  /** What a scan reports at its end: the count and, unless that is zero, the tight box. */
  lemma ScanEnds(s: set<Pos>, w: nat, h: nat, y: nat, n: nat, ext: Extent)
    requires Counted(s, w, h, 0, y, n, ext) && forall p :: p in s ==> p.y < y
    ensures n == |s| && (n == 0 <==> s == {})
    ensures n > 0 ==> ext.minx >= 0 && ext.miny >= 0 && ext.maxx >= 0 && ext.maxy >= 0
                      && Tight(Box(ext.minx, ext.miny, ext.maxx, ext.maxy), s)
  {
    assert Before(s, 0, y) == s;
  }

  /** A scan of every column and row. */
  lemma DenseStep(s: set<Pos>, w: nat, h: nat, x: nat, y: nat, n: nat, ext: Extent)
    requires x < w && y < h && Counted(s, w, h, x, y, n, ext)
    ensures if Pos(x, y) in s then Counted(s, w, h, x + 1, y, n + 1, ext.Grow(Pos(x, y)))
            else Counted(s, w, h, x + 1, y, n, ext)
  {
    CountStep(s, w, h, x, y, 1, n, ext);
  }

  lemma DenseRow(s: set<Pos>, w: nat, h: nat, y: nat, n: nat, ext: Extent)
    requires Counted(s, w, h, w, y, n, ext) && forall p :: p in s ==> p.x < w
    ensures Counted(s, w, h, 0, y + 1, n, ext)
  {
    RowDone(s, w, y, 1);
  }

  lemma TightIsUnique(b: Box, c: Box, s: set<Pos>)
    requires Tight(b, s) && Tight(c, s)
    ensures b == c
  {
    TightIsLeast(b, s, c);
    TightIsLeast(c, s, b);
    TightArea(b, s);
    TightArea(c, s);
    assert b.Contains(Pos(b.x0, b.y0)) && b.Contains(Pos(b.x1, b.y1));
    assert c.Contains(Pos(c.x0, c.y0)) && c.Contains(Pos(c.x1, c.y1));
  }
}
