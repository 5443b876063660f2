/**
 The two-phase verdict: a rectangle on the screen showed one predicted colour and then
 another. Ratios are compared by cross-multiplication.
 */
module Verdict {
  import opened Wrappers
  import opened Bytes
  import opened Grid
  import opened Colour

  /** A captured frame and the number of its pixels that no rectangle covered. */
  datatype Capture = Capture(w: nat, h: nat, fb: seq<byte>, miss: nat) {
    ghost predicate Valid() {
      |fb| == w * h * 4
    }

    ghost function Shows(rgb: nat): set<Pos>
      requires Valid()
    {
      Hits(w, h, Pixels(w, h, fb), rgb, TOL)
    }

    ghost function At(p: Pos): nat
      requires Valid() && InGrid(p, w, h)
    {
      Colour.At(w, h, Pixels(w, h, fb), p)
    }
  }

  /** The frame scored for one hold, with the client's predicted colour and swapchain area. */
  datatype Hold = Hold(area: nat, rgb: nat, cap: Capture)

  /** The five criteria of one phase against the control frame. */
  ghost predicate PhaseOk(control: Capture, hold: Hold)
    requires control.Valid() && hold.cap.Valid()
  {
    var hits := hold.cap.Shows(hold.rgb);
    && hold.area != 0 && 10 * |hits| >= 9 * hold.area
    && (exists b :: Tight(b, hits) && 20 * |hits| >= 19 * |Cells(b)|)
    && control.Shows(hold.rgb) == {}
    && hold.cap.fb != control.fb
    && hold.cap.miss == 0
  }

  ghost predicate Passes(control: Capture, first: Hold, second: Hold)
    requires control.Valid() && first.cap.Valid() && second.cap.Valid()
  {
    && PhaseOk(control, first) && PhaseOk(control, second)
    && exists b :: ShareBox(first, second, b)
  }

  /** `bbox` is the reported box of the hold's predicted colour. */
  ghost predicate BoxFor(hold: Hold, bbox: Option<Box>)
    requires hold.cap.Valid()
  {
    var hits := hold.cap.Shows(hold.rgb);
    (bbox.None? <==> hits == {}) && (bbox.Some? ==> Tight(bbox.value, hits))
  }

  /** What is printed for one phase. */
  ghost predicate Scored(control: Capture, hold: Hold, ok: bool, bbox: Option<Box>)
    requires control.Valid() && hold.cap.Valid()
  {
    (ok <==> PhaseOk(control, hold)) && BoxFor(hold, bbox)
  }

  /** Score one phase: the criteria, and the box both phases must share. */
  method Score(control: Capture, hold: Hold) returns (ok: bool, bbox: Option<Box>)
    requires control.Valid() && hold.cap.Valid()
    ensures Scored(control, hold, ok, bbox)
  {
    var w, h, fb := hold.cap.w, hold.cap.h, hold.cap.fb;
    var n, exact, box := FindColour(w, h, Pixels(w, h, fb), hold.rgb, TOL);
    bbox := box;
    var fill := false;
    if box.Some? {
      HitsFillBox(w, h, Pixels(w, h, fb), hold.rgb, TOL, box.value);
      fill := 20 * n >= 19 * (box.value.Width() * box.value.Height());
      SameFill(hold.cap.Shows(hold.rgb), box.value);
    }
    var nA, _, _ := FindColour(control.w, control.h, Pixels(control.w, control.h, control.fb), hold.rgb, TOL);
    ok := hold.area != 0 && 10 * n >= 9 * hold.area && fill && nA == 0 && fb != control.fb && hold.cap.miss == 0;
  }

  lemma SameFill(hits: set<Pos>, b: Box)
    requires Tight(b, hits)
    ensures (exists c :: Tight(c, hits) && 20 * |hits| >= 19 * |Cells(c)|) <==> 20 * |hits| >= 19 * |Cells(b)|
  {
    if c :| Tight(c, hits) && 20 * |hits| >= 19 * |Cells(c)| {
      TightIsUnique(b, c, hits);
    }
  }

  /** Each result stands for the hold of its position. */
  ghost predicate EachIs<T>(fits: (nat, T) -> bool, results: seq<T>) {
    forall j :: 0 <= j < |results| ==> fits(j, results[j])
  }

  lemma EachMore<T>(fits: (nat, T) -> bool, results: seq<T>, r: T)
    requires EachIs(fits, results) && fits(|results|, r)
    ensures EachIs(fits, results + [r])
  {}

  ghost predicate ScoredAt(control: Capture, holds: seq<Hold>, j: nat, r: (bool, Option<Box>)) {
    control.Valid() && j < |holds| && holds[j].cap.Valid() && Scored(control, holds[j], r.0, r.1)
  }

  ghost predicate AllGood(results: seq<(bool, Option<Box>)>) {
    forall i :: 0 <= i < |results| ==> results[i].0
  }

  lemma AllGoodMore(results: seq<(bool, Option<Box>)>, r: (bool, Option<Box>))
    ensures AllGood(results + [r]) <==> AllGood(results) && r.0
  {
    assert (results + [r])[|results|] == r;
    assert forall i :: 0 <= i < |results| ==> (results + [r])[i] == results[i];
  }

  /** The overall verdict over the holds that were captured. */
  method Judge(control: Capture, holds: seq<Hold>) returns (ok: bool)
    requires control.Valid() && forall i :: 0 <= i < |holds| ==> holds[i].cap.Valid()
    ensures ok <==> |holds| == 2 && Passes(control, holds[0], holds[1])
  {
    ok := holds != [];
    var results: seq<(bool, Option<Box>)> := [];
    ghost var fits := (j: nat, r: (bool, Option<Box>)) => ScoredAt(control, holds, j, r);
    for i := 0 to |holds|
      invariant |results| == i && EachIs(fits, results)
      invariant ok <==> holds != [] && AllGood(results)
    {
      var good, box := Score(control, holds[i]);
      ok := ok && good;
      AllGoodMore(results, (good, box));
      EachMore(fits, results, (good, box));
      results := results + [(good, box)];
    }
    if |holds| != 2 {
      return false;
    }
    assert fits(0, results[0]) && fits(1, results[1]);
    BothGood(results);
    BothScored(control, holds[0], holds[1], results[0], results[1]);
    ok := ok && results[0].1 != None && results[0].1 == results[1].1;
  }

  lemma BothGood(results: seq<(bool, Option<Box>)>)
    requires |results| == 2
    ensures AllGood(results) <==> results[0].0 && results[1].0
  {}

  lemma BothScored(control: Capture, first: Hold, second: Hold, a: (bool, Option<Box>), b: (bool, Option<Box>))
    requires control.Valid() && first.cap.Valid() && second.cap.Valid()
    requires Scored(control, first, a.0, a.1) && Scored(control, second, b.0, b.1)
    ensures a.0 && b.0 && a.1 != None && a.1 == b.1 <==> Passes(control, first, second)
  {
    SharedBox(first, second, a.1, b.1);
  }

  ghost predicate ShareBox(first: Hold, second: Hold, b: Box)
    requires first.cap.Valid() && second.cap.Valid()
  {
    Tight(b, first.cap.Shows(first.rgb)) && Tight(b, second.cap.Shows(second.rgb))
  }

  lemma SharedBox(first: Hold, second: Hold, a: Option<Box>, b: Option<Box>)
    requires first.cap.Valid() && second.cap.Valid() && BoxFor(first, a) && BoxFor(second, b)
    ensures (exists c :: ShareBox(first, second, c)) <==> a.Some? && a == b
  {
    if c :| ShareBox(first, second, c) {
      var s, t := first.cap.Shows(first.rgb), second.cap.Shows(second.rgb);
      var p :| p in s && p.x == c.x0;
      var q :| q in t && q.x == c.x0;
      TightIsUnique(a.value, c, s);
      TightIsUnique(b.value, c, t);
    }
    if a.Some? && a == b {
      assert ShareBox(first, second, a.value);
    }
  }

  // ---- The criteria on the bytes of the frames ----

  /** A colour by its channels. */
  datatype Rgb = Rgb(red: byte, green: byte, blue: byte) {
    function Packed(): nat {
      0x1_0000 * (red as int) + 0x100 * (green as int) + blue
    }
  }

  /** Where the pixel at `p` begins in a frame of width `w`. */
  ghost function ByteOf(p: Pos, w: nat): nat {
    4 * (p.y * w + p.x)
  }

  /** The pixel at byte `k` differs from `c` by at most 2 in each channel; blue comes first. */
  ghost predicate CloseTo(fb: seq<byte>, k: nat, c: Rgb) {
    && k + 4 <= |fb|
    && -2 <= fb[k] - c.blue <= 2 && -2 <= fb[k + 1] - c.green <= 2 && -2 <= fb[k + 2] - c.red <= 2
  }

  ghost function Positions(w: nat, h: nat): set<Pos> {
    set x, y | 0 <= x < w && 0 <= y < h :: Pos(x, y)
  }

  lemma PositionsAre(w: nat, h: nat, p: Pos)
    ensures p in Positions(w, h) <==> InGrid(p, w, h)
  {
    assert p == Pos(p.x, p.y);
  }

  /** The positions of the frame that have the colour. */
  ghost function Coloured(cap: Capture, c: Rgb): set<Pos> {
    set p | p in Positions(cap.w, cap.h) && CloseTo(cap.fb, ByteOf(p, cap.w), c)
  }

  lemma ColouredIff(cap: Capture, c: Rgb, p: Pos)
    ensures p in Coloured(cap, c) <==> InGrid(p, cap.w, cap.h) && CloseTo(cap.fb, ByteOf(p, cap.w), c)
  {
    PositionsAre(cap.w, cap.h, p);
  }

  /** All but a twentieth of the box around `hits` is in it. */
  ghost predicate Solid(hits: set<Pos>) {
    exists b :: Tight(b, hits) && 20 * |Cells(b) - hits| <= |Cells(b)|
  }

  ghost predicate Absent(cap: Capture, c: Rgb) {
    forall p :: InGrid(p, cap.w, cap.h) ==> !CloseTo(cap.fb, ByteOf(p, cap.w), c)
  }

  ghost predicate BytesDiffer(a: seq<byte>, b: seq<byte>) {
    |a| != |b| || exists k :: 0 <= k < |b| && a[k] != b[k]
  }

  /**
   A phase as it should be: at least nine tenths of the window's area have the colour, they form
   a solid rectangle, the control frame has the colour nowhere and is not the same frame, and no
   pixel went uncovered.
   */
  ghost predicate Painted(control: Capture, hold: Hold, c: Rgb) {
    && hold.area > 0 && 10 * (hold.area - |Coloured(hold.cap, c)|) <= hold.area
    && Solid(Coloured(hold.cap, c))
    && Absent(control, c)
    && BytesDiffer(hold.cap.fb, control.fb)
    && hold.cap.miss == 0
  }

  lemma PixelAt(cap: Capture, p: Pos)
    requires cap.Valid() && InGrid(p, cap.w, cap.h)
    ensures ByteOf(p, cap.w) + 4 <= |cap.fb|
    ensures var q, k := cap.At(p), ByteOf(p, cap.w);
            Red(q) == cap.fb[k + 2] && Green(q) == cap.fb[k + 1] && Blue(q) == cap.fb[k]
  {
    hide Pixel, Red, Green, Blue;
    IndexBound(p, cap.w, cap.h);
    PixelChannels(cap.fb, Index(p, cap.w));
  }

  lemma MatchIsClose(cap: Capture, c: Rgb, p: Pos)
    requires cap.Valid() && InGrid(p, cap.w, cap.h)
    ensures Match(cap.At(p), c.Packed(), TOL) <==> CloseTo(cap.fb, ByteOf(p, cap.w), c)
  {
    ChannelsOf(c.blue, c.green, c.red);
    hide Red, Green, Blue, ByteOf, Capture.At;
    PixelAt(cap, p);
  }

  lemma ShowsIsColoured(cap: Capture, c: Rgb)
    requires cap.Valid()
    ensures cap.Shows(c.Packed()) == Coloured(cap, c)
  {
    hide Match, CloseTo, ByteOf, Coloured;
    forall p ensures p in cap.Shows(c.Packed()) <==> p in Coloured(cap, c) {
      ColouredIff(cap, c, p);
      assert p == Pos(p.x, p.y);
      if InGrid(p, cap.w, cap.h) {
        MatchIsClose(cap, c, p);
      }
    }
  }

  lemma SolidIff(hits: set<Pos>)
    ensures Solid(hits) <==> exists b :: Tight(b, hits) && 20 * |hits| >= 19 * |Cells(b)|
  {
    forall b | Tight(b, hits) ensures 20 * |hits| >= 19 * |Cells(b)| <==> 20 * |Cells(b) - hits| <= |Cells(b)| {
      RestOfBox(b, hits);
    }
  }

  lemma RestOfBox(b: Box, hits: set<Pos>)
    requires Tight(b, hits)
    ensures hits <= Cells(b) && |Cells(b) - hits| == |Cells(b)| - |hits|
  {
    assert hits <= Cells(b);
    assert hits * Cells(b) == hits;
  }

  lemma AbsentIff(cap: Capture, c: Rgb)
    ensures Coloured(cap, c) == {} <==> Absent(cap, c)
  {
    hide CloseTo, ByteOf, Coloured;
    forall p ensures p in Coloured(cap, c) <==> InGrid(p, cap.w, cap.h) && CloseTo(cap.fb, ByteOf(p, cap.w), c) {
      ColouredIff(cap, c, p);
    }
  }

  /** The score of a phase means just that. */
  lemma PhaseOkIff(control: Capture, hold: Hold, c: Rgb)
    requires control.Valid() && hold.cap.Valid() && hold.rgb == c.Packed()
    ensures PhaseOk(control, hold) <==> Painted(control, hold, c)
  {
    hide Coloured, Solid, Absent, Tight, Cells, Hits;
    ShowsIsColoured(hold.cap, c);
    ShowsIsColoured(control, c);
    SolidIff(Coloured(hold.cap, c));
    AbsentIff(control, c);
    assert BytesDiffer(hold.cap.fb, control.fb) <==> hold.cap.fb != control.fb;
  }

  /** PASS, for all frames and predicted colours: both phases painted, and one box around both. */
  lemma PassesIff(control: Capture, first: Hold, second: Hold, c: Rgb, d: Rgb)
    requires control.Valid() && first.cap.Valid() && second.cap.Valid()
    requires first.rgb == c.Packed() && second.rgb == d.Packed()
    ensures Passes(control, first, second) <==>
            && Painted(control, first, c) && Painted(control, second, d)
            && exists b :: Tight(b, Coloured(first.cap, c)) && Tight(b, Coloured(second.cap, d))
  {
    PhaseOkIff(control, first, c);
    PhaseOkIff(control, second, d);
    ShowsIsColoured(first.cap, c);
    ShowsIsColoured(second.cap, d);
    forall b ensures ShareBox(first, second, b) <==>
                     Tight(b, Coloured(first.cap, c)) && Tight(b, Coloured(second.cap, d)) {
    }
  }

  /** A frame that has a colour differs from every frame without it, whatever the shapes. */
  lemma AbsentDiffers(control: Capture, cap: Capture, c: Rgb, p: Pos)
    requires control.Valid() && cap.Valid() && Absent(control, c)
    requires InGrid(p, cap.w, cap.h) && CloseTo(cap.fb, ByteOf(p, cap.w), c)
    ensures cap.fb != control.fb
  {
    IndexBound(p, cap.w, cap.h);
    var i := Index(p, cap.w);
    if |cap.fb| == |control.fb| {
      PosOfBound(i, control.w, control.h);
      assert ByteOf(PosOf(i, control.w), control.w) == ByteOf(p, cap.w) == 4 * i;
      assert !CloseTo(control.fb, 4 * i, c);
    }
  }

  /** The frame shows the colour in the box and nowhere else. */
  ghost predicate BoxShown(cap: Capture, c: Rgb, b: Box) {
    forall p :: InGrid(p, cap.w, cap.h) && CloseTo(cap.fb, ByteOf(p, cap.w), c) <==> b.Contains(p)
  }

  lemma WholeBox(b: Box)
    requires b.x0 <= b.x1 && b.y0 <= b.y1
    ensures Tight(b, Cells(b)) && Solid(Cells(b)) && |Cells(b)| == b.Width() * b.Height() > 0
  {
    CellsCount(b);
    assert Pos(b.x0, b.y0) in Cells(b) && Pos(b.x1, b.y1) in Cells(b);
    assert Tight(b, Cells(b)) && Cells(b) - Cells(b) == {};
    BoxNotEmpty(b, Cells(b));
  }

  lemma ShownIsBox(cap: Capture, c: Rgb, b: Box)
    requires BoxShown(cap, c, b)
    ensures Coloured(cap, c) == Cells(b)
  {
    hide CloseTo, ByteOf, Coloured;
    forall p ensures p in Coloured(cap, c) <==> p in Cells(b) {
      ColouredIff(cap, c, p);
      assert p == Pos(p.x, p.y);
    }
  }

  lemma BoxIsPainted(control: Capture, hold: Hold, c: Rgb, b: Box)
    requires control.Valid() && hold.cap.Valid() && b.x0 <= b.x1 && b.y0 <= b.y1
    requires BoxShown(hold.cap, c, b) && Absent(control, c) && hold.cap.miss == 0 && hold.area == b.Width() * b.Height()
    ensures Painted(control, hold, c) && Tight(b, Coloured(hold.cap, c))
  {
    hide Coloured, Cells, Tight, Solid, Absent, CloseTo, ByteOf;
    ShownIsBox(hold.cap, c, b);
    WholeBox(b);
    AbsentDiffers(control, hold.cap, c, Pos(b.x0, b.y0));
  }

  /** A client that paints a box in one colour and then in the other passes, whatever the colours. */
  lemma PaintingPasses(control: Capture, first: Hold, second: Hold, c: Rgb, d: Rgb, b: Box)
    requires control.Valid() && first.cap.Valid() && second.cap.Valid() && b.x0 <= b.x1 && b.y0 <= b.y1
    requires first.rgb == c.Packed() && second.rgb == d.Packed()
    requires first.area == second.area == b.Width() * b.Height() && first.cap.miss == second.cap.miss == 0
    requires BoxShown(first.cap, c, b) && BoxShown(second.cap, d, b) && Absent(control, c) && Absent(control, d)
    ensures Passes(control, first, second)
  {
    BoxIsPainted(control, first, c, b);
    BoxIsPainted(control, second, d, b);
    PassesIff(control, first, second, c, d);
  }

  // ---- What a pass means ----

  /** No pixel is within tolerance of both colours. */
  predicate Separated(c: nat, d: nat) {
    || !Near(Red(c), Red(d), 2 * TOL)
    || !Near(Green(c), Green(d), 2 * TOL)
    || !Near(Blue(c), Blue(d), 2 * TOL)
  }

  /** The positions of `b` whose colour differs between two frames. */
  ghost function Changed(b: Box, x: Capture, y: Capture): set<Pos>
    requires x.Valid() && y.Valid()
  {
    set p | p in Cells(b) && InGrid(p, x.w, x.h) && InGrid(p, y.w, y.h) && x.At(p) != y.At(p)
  }

  /** The two holds share a box of their colours, and nine tenths of that box changed. */
  ghost predicate Repainted(first: Hold, second: Hold)
    requires first.cap.Valid() && second.cap.Valid()
  {
    exists b ::
      && ShareBox(first, second, b)
      && b.x1 < first.cap.w && b.y1 < first.cap.h && b.x1 < second.cap.w && b.y1 < second.cap.h
      && 10 * |Changed(b, first.cap, second.cap)| >= 9 * |Cells(b)|
  }

  /** Two subsets of one set overlap by at least what they exceed it. */
  lemma Pigeonhole<T>(a: set<T>, b: set<T>, u: set<T>)
    requires a <= u && b <= u
    ensures |a * b| >= |a| + |b| - |u|
  {
    assert |a + b| == |a| + |b| - |a * b|;
    SubsetSize(a + b, u);
  }

  lemma SeparatedNoCommon(p: nat, c: nat, d: nat)
    requires Separated(c, d) && Match(p, c, TOL)
    ensures !Match(p, d, TOL)
  {}

  lemma ShowsBothDiffers(first: Hold, second: Hold, b: Box, p: Pos)
    requires first.cap.Valid() && second.cap.Valid() && Separated(first.rgb, second.rgb)
    requires p in first.cap.Shows(first.rgb) && p in second.cap.Shows(second.rgb) && p in Cells(b)
    ensures p in Changed(b, first.cap, second.cap)
  {
    SeparatedNoCommon(first.cap.At(p), first.rgb, second.rgb);
  }

  /** Where both colours fill a box, the frames differ. */
  lemma OverlapDiffers(first: Hold, second: Hold, b: Box)
    requires first.cap.Valid() && second.cap.Valid() && ShareBox(first, second, b)
    requires Separated(first.rgb, second.rgb)
    ensures |Changed(b, first.cap, second.cap)| >=
            |first.cap.Shows(first.rgb)| + |second.cap.Shows(second.rgb)| - |Cells(b)|
  {
    var s, t, d := first.cap.Shows(first.rgb), second.cap.Shows(second.rgb), Changed(b, first.cap, second.cap);
    assert s <= Cells(b) && t <= Cells(b);
    Pigeonhole(s, t, Cells(b));
    forall p | p in s * t ensures p in d {
      ShowsBothDiffers(first, second, b, p);
    }
    SubsetSize(s * t, d);
  }

  /** Either hold's colours lie on its frame. */
  lemma BoxOnFrame(hold: Hold, b: Box)
    requires hold.cap.Valid() && Tight(b, hold.cap.Shows(hold.rgb))
    ensures b.x1 < hold.cap.w && b.y1 < hold.cap.h
  {
    var c := hold.cap;
    HitsFillBox(c.w, c.h, Pixels(c.w, c.h, c.fb), hold.rgb, TOL, b);
  }

  lemma PassIsRepaint(control: Capture, first: Hold, second: Hold)
    requires control.Valid() && first.cap.Valid() && second.cap.Valid()
    requires Passes(control, first, second) && Separated(first.rgb, second.rgb)
    ensures Repainted(first, second)
  {
    var b :| ShareBox(first, second, b);
    SameFill(first.cap.Shows(first.rgb), b);
    SameFill(second.cap.Shows(second.rgb), b);
    BoxOnFrame(first, b);
    BoxOnFrame(second, b);
    OverlapDiffers(first, second, b);
  }

  // ---- When a pass means nothing ----

  function Mid(a: nat, b: nat): nat {
    (a + b) / 2
  }

  /** A value far from two values that are close to each other. */
  function Far(a: nat): nat {
    if a < 128 then 255 else 0
  }

  /** A one-pixel frame. */
  function Dot(r: nat, g: nat, b: nat): Capture
    requires r < 256 && g < 256 && b < 256
  {
    Capture(1, 1, [b, g, r, 0], 0)
  }

  lemma DotShows(r: nat, g: nat, b: nat, rgb: nat)
    requires r < 256 && g < 256 && b < 256
    ensures var near := Near(r, Red(rgb), TOL) && Near(g, Green(rgb), TOL) && Near(b, Blue(rgb), TOL);
            Dot(r, g, b).Shows(rgb) == if near then {Pos(0, 0)} else {}
  {
    DotPixel(r, g, b);
    var d := Dot(r, g, b);
    forall p ensures p in d.Shows(rgb) <==> p == Pos(0, 0) && Match(d.At(Pos(0, 0)), rgb, TOL) {
    }
  }

  lemma DotPixel(r: nat, g: nat, b: nat)
    requires r < 256 && g < 256 && b < 256
    ensures var p := Dot(r, g, b).At(Pos(0, 0)); Red(p) == r && Green(p) == g && Blue(p) == b
  {
    PixelChannels(Dot(r, g, b).fb, 0);
    assert Index(Pos(0, 0), 1) == 0;
  }

  lemma DotPasses(control: Capture, hold: Hold)
    requires control.Valid() && hold.cap.Valid() && hold.area == 1 && hold.cap.miss == 0
    requires hold.cap.Shows(hold.rgb) == {Pos(0, 0)} && control.Shows(hold.rgb) == {} && hold.cap.fb != control.fb
    ensures PhaseOk(control, hold) && Tight(Box(0, 0, 0, 0), hold.cap.Shows(hold.rgb))
  {
    DotBox(hold.cap.Shows(hold.rgb));
  }

  lemma DotBox(hits: set<Pos>)
    requires hits == {Pos(0, 0)}
    ensures Tight(Box(0, 0, 0, 0), hits) && |hits| == |Cells(Box(0, 0, 0, 0))| == 1
  {
    assert Pos(0, 0) in hits;
    CellsCount(Box(0, 0, 0, 0));
  }

  /** Two colours within twice the tolerance of each other: the same frame passes both phases. */
  lemma StaticFramePasses(c: nat, d: nat) returns (control: Capture, first: Hold, second: Hold)
    requires !Separated(c, d)
    ensures control.Valid() && first.cap.Valid() && second.cap.Valid()
    ensures first.rgb == c && second.rgb == d && first.cap == second.cap
    ensures Passes(control, first, second)
  {
    var r, g, b := Mid(Red(c), Red(d)), Mid(Green(c), Green(d)), Mid(Blue(c), Blue(d));
    var dot := Dot(r, g, b);
    control := Dot(Far(r), g, b);
    first, second := Hold(1, c, dot), Hold(1, d, dot);
    DotShows(r, g, b, c);
    DotShows(r, g, b, d);
    DotShows(Far(r), g, b, c);
    DotShows(Far(r), g, b, d);
    DotPasses(control, first);
    DotPasses(control, second);
    assert ShareBox(first, second, Box(0, 0, 0, 0));
  }

  lemma SameFrameNotRepainted(first: Hold, second: Hold)
    requires first.cap.Valid() && second.cap.Valid() && first.cap == second.cap
    ensures !Repainted(first, second)
  {
    forall b | ShareBox(first, second, b) ensures 10 * |Changed(b, first.cap, second.cap)| < 9 * |Cells(b)| {
      NothingChanged(b, first.cap);
      BoxNotEmpty(b, first.cap.Shows(first.rgb));
    }
  }

  lemma NothingChanged(b: Box, cap: Capture)
    requires cap.Valid()
    ensures Changed(b, cap, cap) == {}
  {}

  lemma BoxNotEmpty(b: Box, hits: set<Pos>)
    requires Tight(b, hits)
    ensures |Cells(b)| > 0
  {
    var p :| p in hits && p.x == b.x0;
    assert p in Cells(b);
  }

  ghost predicate EveryPassIsRepaint(c: nat, d: nat) {
    forall control: Capture, first: Hold, second: Hold ::
      && control.Valid() && first.cap.Valid() && second.cap.Valid()
      && first.rgb == c && second.rgb == d && Passes(control, first, second)
      ==> Repainted(first, second)
  }

  /**
   The verdict is sound for a pair of predicted colours exactly when some channel of them
   differs by more than twice the tolerance.
   */
  lemma VerdictSoundIff(c: nat, d: nat)
    ensures EveryPassIsRepaint(c, d) <==> Separated(c, d)
  {
    if Separated(c, d) {
      forall control: Capture, first: Hold, second: Hold |
        && control.Valid() && first.cap.Valid() && second.cap.Valid()
        && first.rgb == c && second.rgb == d && Passes(control, first, second)
        ensures Repainted(first, second)
      {
        PassIsRepaint(control, first, second);
      }
    } else {
      var control, first, second := StaticFramePasses(c, d);
      SameFrameNotRepainted(first, second);
    }
  }
}
