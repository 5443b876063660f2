/** Assembling Raw rectangles into a framebuffer (the inner loops of `vnc_capture`). */
module Framebuffer {
  import opened Bytes
  import opened Grid

  /** A Raw rectangle: four bytes per pixel, row by row. */
  datatype Rect = Rect(x: nat, y: nat, w: nat, h: nat, data: seq<byte>) {
    ghost predicate WellSized() {
      |data| == w * h * 4
    }

    predicate Covers(p: Pos) {
      x <= p.x < x + w && y <= p.y < y + h
    }

    ghost predicate Inside(fw: nat, fh: nat) {
      x + w <= fw && y + h <= fh
    }
  }

  /** Byte `c` of the pixel that rectangle `r` puts at `p`. */
  ghost function DataAt(r: Rect, p: Pos, c: nat): byte
    requires r.WellSized() && r.Covers(p) && c < 4
  {
    IndexBound(Pos(p.x - r.x, p.y - r.y), r.w, r.h);
    r.data[Index(Pos(p.x - r.x, p.y - r.y), r.w) * 4 + c]
  }

  ghost predicate AllWellSized(rects: seq<Rect>) {
    forall i :: 0 <= i < |rects| ==> rects[i].WellSized()
  }

  /** What the screen shows at `p` after the rectangles, drawn in order over zeros. */
  ghost function Shown(rects: seq<Rect>, p: Pos, c: nat): byte
    requires AllWellSized(rects) && c < 4
  {
    if rects == [] then 0
    else
      var last := rects[|rects| - 1];
      if last.Covers(p) then DataAt(last, p, c) else Shown(rects[..|rects| - 1], p, c)
  }

  ghost predicate Covered(rects: seq<Rect>, p: Pos) {
    exists i :: 0 <= i < |rects| && rects[i].Covers(p)
  }

  /** The screen shows the last rectangle that covers a position. */
  lemma {:induction false} ShownIsLast(rects: seq<Rect>, i: nat, p: Pos, c: nat)
    requires AllWellSized(rects) && c < 4 && i < |rects|
    requires rects[i].Covers(p) && forall j :: i < j < |rects| ==> !rects[j].Covers(p)
    ensures Shown(rects, p, c) == DataAt(rects[i], p, c)
  {
    if i < |rects| - 1 {
      ShownIsLast(rects[..|rects| - 1], i, p, c);
    }
  }

  /** The pixel that byte `j` of a framebuffer of width `w` belongs to. */
  function PixelOf(j: nat, w: nat): Pos {
    if w == 0 then Pos(0, 0) else PosOf(j / 4, w)
  }

  /** The bytes of one row of a rectangle, in the framebuffer and in the rectangle's data. */
  lemma RowBytes(w: nat, r: Rect, row: nat, j: nat)
    requires w > 0 && r.x + r.w <= w && row < r.h
    ensures var dst, p := ((r.y + row) * w + r.x) * 4, PixelOf(j, w);
            && (dst <= j < dst + r.w * 4 <==> p.y == r.y + row && r.x <= p.x < r.x + r.w)
            && (dst <= j < dst + r.w * 4 ==>
                 row * r.w * 4 + (j - dst) == Index(Pos(p.x - r.x, p.y - r.y), r.w) * 4 + j % 4)
  {
    RowStretch(w, r.x, r.w, r.y + row, j / 4);
    var p := PosOf(j / 4, w);
    DivMod(j / 4, w);
  }

  /** Where row `row` of `r` begins in its data. */
  function RowSource(r: Rect, row: nat): nat {
    row * r.w * 4
  }

  /** Where it begins in the framebuffer. */
  function RowTarget(w: nat, r: Rect, row: nat): nat {
    ((r.y + row) * w + r.x) * 4
  }

  lemma RowFits(w: nat, h: nat, r: Rect, row: nat)
    requires r.Inside(w, h) && r.WellSized() && row < r.h
    ensures RowTarget(w, r, row) + r.w * 4 <= w * h * 4
    ensures RowSource(r, row) + r.w * 4 <= |r.data|
  {
    MulMono(r.y + row + 1, h, w);
    MulMono(r.y + row, r.y + row, w);
    MulMono(row + 1, r.h, r.w);
    MulMono(row, row, r.w);
  }

  /** Byte `j` of the framebuffer after `n` bytes of data from `src` on were copied to `dst`. */
  lemma CopiedByte(w: nat, h: nat, r: Rect, row: nat, src: nat, dst: nat, n: nat, j: nat)
    requires w > 0 && r.WellSized() && r.Inside(w, h) && row < r.h && j < w * h * 4
    requires src == row * r.w * 4 && dst == ((r.y + row) * w + r.x) * 4 && n == r.w * 4 && src + n <= |r.data|
    ensures OnRow(r, row, PixelOf(j, w)) <==> dst <= j < dst + n
    ensures dst <= j < dst + n ==> DataAt(r, PixelOf(j, w), j % 4) == r.data[src + (j - dst)]
  {
    RowBytes(w, r, row, j);
  }

  predicate OnRow(r: Rect, row: nat, p: Pos) {
    p.y == r.y + row && r.x <= p.x < r.x + r.w
  }

  /** `p` is in the first `rows` rows of `r`. */
  predicate InRows(r: Rect, rows: nat, p: Pos) {
    r.y <= p.y < r.y + rows && r.x <= p.x < r.x + r.w
  }

  /** All positions of the screen that some rectangle covers. */
  ghost function Union(rects: seq<Rect>, w: nat, h: nat): set<Pos> {
    set x, y | 0 <= x < w && 0 <= y < h && Covered(rects, Pos(x, y)) :: Pos(x, y)
  }

  function Trues(bs: seq<bool>): nat {
    if bs == [] then 0 else Trues(bs[..|bs| - 1]) + (if bs[|bs| - 1] then 1 else 0)
  }

  /** Counting the flags counts the pixels they stand for. */
  lemma {:induction false} TruesCounts(bs: seq<bool>, w: nat, h: nat)
    requires |bs| <= w * h
    ensures Trues(bs) == |Marked(bs, w, h)|
  {
    var n := |bs|;
    if n > 0 {
      TruesCounts(bs[..n - 1], w, h);
      PosOfBound(n - 1, w, h);
      MarkedNext(bs, n - 1, w, h, PosOf(n - 1, w));
      assert bs[..n] == bs;
    }
  }

  lemma MarkedIsUnion(bs: seq<bool>, rects: seq<Rect>, w: nat, h: nat)
    requires |bs| == w * h
    requires forall i :: 0 <= i < |bs| ==> bs[i] == Covered(rects, PixelOf(4 * i, w))
    ensures Marked(bs, w, h) == Union(rects, w, h)
  {
    forall p | InGrid(p, w, h) ensures Index(p, w) < |bs| && PixelOf(4 * Index(p, w), w) == p {
      IndexBound(p, w, h);
    }
  }

  lemma UnionSize(rects: seq<Rect>, w: nat, h: nat)
    ensures |Union(rects, w, h)| <= w * h
    ensures |Union(rects, w, h)| == w * h <==> forall p :: InGrid(p, w, h) ==> Covered(rects, p)
  {
    if w == 0 || h == 0 {
      assert Union(rects, w, h) == {};
    } else {
      var screen := Box(0, 0, w - 1, h - 1);
      CellsCount(screen);
      SubsetSize(Union(rects, w, h), Cells(screen));
      assert forall p :: p in Cells(screen) <==> InGrid(p, w, h);
      assert forall p :: p in Union(rects, w, h) <==> InGrid(p, w, h) && Covered(rects, p);
    }
  }

  lemma CoveredAppend(rects: seq<Rect>, r: Rect, p: Pos)
    ensures Covered(rects + [r], p) <==> Covered(rects, p) || r.Covers(p)
  {
    var longer := rects + [r];
    if Covered(rects, p) {
      var i :| 0 <= i < |rects| && rects[i].Covers(p);
      assert longer[i].Covers(p);
    }
    assert longer[|rects|] == r;
  }

  /** A row copied into the buffer is the row painted. */
  lemma RowPainted(w: nat, h: nat, r: Rect, row: nat, before: seq<byte>, after: seq<byte>, src: nat, dst: nat, n: nat)
    requires r.WellSized() && r.Inside(w, h) && row < r.h && |before| == |after| == w * h * 4
    requires src == RowSource(r, row) && dst == RowTarget(w, r, row) && n == r.w * 4 && src + n <= |r.data|
    requires forall j :: 0 <= j < |after| ==>
               after[j] == if dst <= j < dst + n then r.data[src..src + n][j - dst] else before[j]
    ensures forall j :: 0 <= j < |after| ==>
              after[j] == if OnRow(r, row, PixelOf(j, w)) then DataAt(r, PixelOf(j, w), j % 4) else before[j]
  {
    forall j | 0 <= j < |after|
      ensures after[j] == if OnRow(r, row, PixelOf(j, w)) then DataAt(r, PixelOf(j, w), j % 4) else before[j]
    {
      SomeWidth(w, h, j);
      CopiedByte(w, h, r, row, src, dst, n, j);
    }
  }

  lemma SomeWidth(w: nat, h: nat, j: nat)
    requires j < w * h * 4
    ensures w > 0
  {}

  /** Overwrite part of a buffer. */
  method Copy(fb: array<byte>, dst: nat, data: seq<byte>)
    requires dst + |data| <= fb.Length
    modifies fb
    ensures forall j :: 0 <= j < fb.Length ==>
              fb[j] == if dst <= j < dst + |data| then data[j - dst] else old(fb[j])
  {
    forall k | 0 <= k < |data| {
      fb[dst + k] := data[k];
    }
    forall j | 0 <= j < fb.Length ensures fb[j] == if dst <= j < dst + |data| then data[j - dst] else old(fb[j]) {
      assert dst <= j < dst + |data| ==> fb[dst + (j - dst)] == data[j - dst];
    }
  }

  class Screen {
    const w: nat
    const h: nat
    const fb: array<byte>
    const seen: array<bool>
    var rects: nat

    /** Every rectangle drawn so far, in order. */
    ghost var drawn: seq<Rect>

    ghost predicate Valid()
      reads this, fb, seen
    {
      && fb.Length == w * h * 4 && seen.Length == w * h
      && rects == |drawn| && AllWellSized(drawn)
      && (forall j :: 0 <= j < fb.Length ==> fb[j] == Shown(drawn, PixelOf(j, w), j % 4))
      && (forall i :: 0 <= i < seen.Length ==> seen[i] == Covered(drawn, PixelOf(4 * i, w)))
    }

    constructor (w: nat, h: nat)
      ensures Valid() && drawn == [] && this.w == w && this.h == h
      ensures fresh(fb) && fresh(seen)
    {
      this.w, this.h := w, h;
      fb := new byte[w * h * 4](_ => 0);
      seen := new bool[w * h](_ => false);
      rects := 0;
      drawn := [];
    }

    /** Copy one row of `r` into the framebuffer. */
    method PaintRow(r: Rect, row: nat)
      requires fb.Length == w * h * 4
      requires r.WellSized() && r.Inside(w, h) && row < r.h
      modifies fb
      ensures forall j :: 0 <= j < fb.Length ==>
                fb[j] == if OnRow(r, row, PixelOf(j, w)) then DataAt(r, PixelOf(j, w), j % 4) else old(fb[j])
    {
      hide OnRow, DataAt, PixelOf, RowSource, RowTarget;
      RowFits(w, h, r, row);
      var src, dst, n := RowSource(r, row), RowTarget(w, r, row), r.w * 4;
      Copy(fb, dst, r.data[src..src + n]);
      RowPainted(w, h, r, row, old(fb[..]), fb[..], src, dst, n);
      assert forall j :: 0 <= j < fb.Length ==> fb[..][j] == fb[j] && old(fb[..])[j] == old(fb[j]);
    }

    /** Mark the pixels of one row of `r` as seen. */
    method MarkRow(r: Rect, row: nat)
      requires seen.Length == w * h
      requires r.WellSized() && r.Inside(w, h) && row < r.h
      modifies seen
      ensures forall i :: 0 <= i < seen.Length ==> seen[i] == (old(seen[i]) || OnRow(r, row, PixelOf(4 * i, w)))
    {
      RowFits(w, h, r, row);
      var first := (r.y + row) * w + r.x;
      for col := 0 to r.w
        invariant forall i :: 0 <= i < seen.Length ==> seen[i] == (old(seen[i]) || first <= i < first + col)
      {
        seen[first + col] := true;
      }
      forall i | 0 <= i < seen.Length ensures seen[i] == (old(seen[i]) || OnRow(r, row, PixelOf(4 * i, w))) {
        RowBytes(w, r, row, 4 * i);
      }
    }

    /** Draw one rectangle. */
    method Blit(r: Rect)
      requires Valid() && r.WellSized() && r.Inside(w, h)
      modifies this, fb, seen
      ensures Valid() && drawn == old(drawn) + [r]
    {
      var row := 0;
      while row < r.h
        invariant 0 <= row <= r.h && rects == old(rects) && drawn == old(drawn)
        invariant forall j :: 0 <= j < fb.Length ==>
                    fb[j] == if InRows(r, row, PixelOf(j, w)) then DataAt(r, PixelOf(j, w), j % 4) else old(fb[j])
        invariant forall i :: 0 <= i < seen.Length ==>
                    seen[i] == (old(seen[i]) || InRows(r, row, PixelOf(4 * i, w)))
      {
        PaintRow(r, row);
        MarkRow(r, row);
        row := row + 1;
      }
      drawn := drawn + [r];
      rects := rects + 1;
      assert drawn[..|drawn| - 1] == old(drawn);
      forall p ensures Covered(drawn, p) <==> Covered(old(drawn), p) || r.Covers(p) {
        CoveredAppend(old(drawn), r, p);
      }
    }

    /** The number of pixels no rectangle has covered; zero exactly when every pixel is covered. */
    method Uncovered() returns (n: nat)
      requires Valid()
      ensures n == w * h - |Union(drawn, w, h)|
      ensures n == 0 <==> forall p :: InGrid(p, w, h) ==> Covered(drawn, p)
    {
      TruesCounts(seen[..], w, h);
      MarkedIsUnion(seen[..], drawn, w, h);
      UnionSize(drawn, w, h);
      var sum := 0;
      for i := 0 to seen.Length
        invariant sum == Trues(seen[..i])
      {
        assert seen[..i + 1][..i] == seen[..i];
        sum := sum + if seen[i] then 1 else 0;
      }
      assert seen[..seen.Length] == seen[..];
      n := seen.Length - sum;
    }
  }
}
