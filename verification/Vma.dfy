/**
 One mapping of a process address space (mm/src/vmm.rs) and what it says about each page.
 Addresses are page numbers; file offsets and lengths are bytes.
 */
module Vma {
  import opened Wrappers
  import opened BuddyBlocks

  /** Frames behind a region: found page by page (0 while absent), one contiguous block, or a device range. */
  datatype Backing = Paged(frames: seq<nat>) | Contiguous(phys: nat) | Device(base: nat)

  /** `len` bytes of file `cap` from `off` on. */
  datatype File = File(cap: nat, off: nat, len: nat)

  datatype Flag = PRESENT | USER | WRITABLE | EXECUTE | Other(bit: nat)

  datatype Prot = READ | WRITE | EXEC

  datatype Region = Region(start: nat, end: nat, backing: Backing, flags: set<Flag>, prot: set<Prot>, mapFlags: nat,
                           file: Option<File>, cow: bool, written: set<nat>) {
    predicate Covers(v: nat) {
      start <= v < end
    }

    function Pages(): int {
      end - start
    }

    predicate Valid() {
      && start < end
      && (backing.Paged? ==> |backing.frames| <= Pages())
      && (backing.Contiguous? ==> BlockOk(Release(backing.phys, OrderFor(Pages()), false)))
    }

    predicate Within(first: nat, last: nat) {
      first <= start && end <= last
    }
  }

  /** Everything that decides what an access to a page sees and may do; `device` is the extent of its device mapping. */
  datatype Page = Page(frame: nat, flags: set<Flag>, prot: set<Prot>, mapFlags: nat, file: Option<File>, cow: bool,
                       written: bool, device: Option<(nat, nat)>)

  function FrameAt(b: Backing, i: nat): nat {
    match b
    case Paged(frames) => if i < |frames| then frames[i] else 0
    case Contiguous(phys) => phys + i
    case Device(base) => base + i
  }

  function Clamp(x: int): nat {
    if x < 0 then 0 else if x > PAGE_SIZE then PAGE_SIZE else x
  }

  /** The stretch of the file behind page `i`; the rest of the page is zeros. */
  function FileAt(f: Option<File>, i: nat): Option<File> {
    match f
    case None => None
    case Some(File(cap, off, len)) => Some(File(cap, off + i * PAGE_SIZE, Clamp(len - i * PAGE_SIZE)))
  }

  /** Byte `b` of page `i` is byte `i * PAGE_SIZE + b` of the mapped stretch, or zero behind its end. */
  lemma FileAtIff(f: File, i: nat, b: nat)
    requires b < PAGE_SIZE
    ensures var g := FileAt(Some(f), i).value;
            && (b < g.len <==> i * PAGE_SIZE + b < f.len)
            && g.cap == f.cap && g.off + b == f.off + (i * PAGE_SIZE + b)
  {}

  function PageAt(r: Region, v: nat): Page
    requires r.Covers(v)
  {
    var i := v - r.start;
    Page(FrameAt(r.backing, i), r.flags, r.prot, r.mapFlags, FileAt(r.file, i), r.cow, i in r.written,
         if r.backing.Device? then Some((r.start, r.end)) else None)
  }

  // ---- Splitting ----

  /** Per-page frames for a contiguous block. */
  function AsPaged(r: Region): (frames: seq<nat>)
    requires r.Valid() && !r.backing.Device?
    ensures |frames| <= r.Pages()
  {
    match r.backing
    case Paged(frames) => frames
    case Contiguous(phys) => seq(r.Pages(), i => phys + i)
  }

  /** How many of the recorded frames lie before page `b`. */
  function FramesBefore(r: Region, b: nat): (m: nat)
    requires r.Valid() && !r.backing.Device? && r.start < b
    ensures m <= |AsPaged(r)|
  {
    if |AsPaged(r)| < b - r.start then |AsPaged(r)| else b - r.start
  }

  function LeftOf(r: Region, b: nat): Region
    requires r.Valid() && !r.backing.Device? && r.start < b < r.end
  {
    var k := b - r.start;
    r.(end := b, backing := Paged(AsPaged(r)[..FramesBefore(r, b)]),
       file := match r.file
               case None => None
               case Some(File(cap, off, len)) =>
                 Some(File(cap, off, if len < k * PAGE_SIZE then len else k * PAGE_SIZE)),
       written := set i | i in r.written && i < k)
  }

  function RightOf(r: Region, b: nat): Region
    requires r.Valid() && !r.backing.Device? && r.start < b < r.end
  {
    var k := b - r.start;
    r.(start := b, backing := Paged(AsPaged(r)[FramesBefore(r, b)..]),
       file := match r.file
               case None => None
               case Some(File(cap, off, len)) =>
                 Some(File(cap, off + k * PAGE_SIZE, if len < k * PAGE_SIZE then 0 else len - k * PAGE_SIZE)),
       written := set i | i in r.written && i >= k :: i - k)
  }

  lemma LeftFile(f: File, k: nat, i: nat)
    requires i < k
    ensures FileAt(Some(File(f.cap, f.off, if f.len < k * PAGE_SIZE then f.len else k * PAGE_SIZE)), i)
            == FileAt(Some(f), i)
  {}

  lemma RightFile(f: File, k: nat, i: nat)
    requires k <= i
    ensures var len := if f.len < k * PAGE_SIZE then 0 else f.len - k * PAGE_SIZE;
            FileAt(Some(File(f.cap, f.off + k * PAGE_SIZE, len)), i - k) == FileAt(Some(f), i)
  {}

  lemma LeftKeepsPages(r: Region, b: nat, v: nat)
    requires r.Valid() && !r.backing.Device? && r.start < b < r.end && r.start <= v < b
    ensures PageAt(LeftOf(r, b), v) == PageAt(r, v)
  {
    if r.file.Some? {
      LeftFile(r.file.value, b - r.start, v - r.start);
    }
  }

  /** The written pages counted from page `k` on. */
  lemma WrittenFrom(written: set<nat>, k: nat, i: nat)
    requires k <= i
    ensures i - k in (set j | j in written && j >= k :: j - k) <==> i in written
  {}

  lemma RightKeepsPages(r: Region, b: nat, v: nat)
    requires r.Valid() && !r.backing.Device? && r.start < b < r.end && b <= v < r.end
    ensures PageAt(RightOf(r, b), v) == PageAt(r, v)
  {
    var k, i := b - r.start, v - r.start;
    if r.file.Some? {
      RightFile(r.file.value, k, i);
    }
    WrittenFrom(r.written, k, i);
    assert v - b == i - k;
  }

  /** Splitting changes what is recorded, never what a page is. */
  lemma SplitKeepsPages(r: Region, b: nat, v: nat)
    requires r.Valid() && !r.backing.Device? && r.start < b < r.end && r.Covers(v)
    ensures v < b ==> LeftOf(r, b).Covers(v) && PageAt(LeftOf(r, b), v) == PageAt(r, v)
    ensures v >= b ==> RightOf(r, b).Covers(v) && PageAt(RightOf(r, b), v) == PageAt(r, v)
  {
    if v < b {
      LeftKeepsPages(r, b, v);
    } else {
      RightKeepsPages(r, b, v);
    }
  }

  // ---- Who owns which frame ----

  /** 2^order frames handed back: a whole block, or a single frame that may be shared and goes by its count. */
  datatype Release = Release(first: nat, order: nat, counted: bool)

  /** The order of the block a contiguous region of `n` pages was allocated as. */
  function OrderFor(n: nat): (o: nat)
    ensures Pow2(o) >= n
    ensures o > 0 ==> Pow2(o - 1) < n
  {
    if n <= 1 then 0 else 1 + OrderFor((n + 1) / 2)
  }

  /** How often frame `f` is listed. */
  function Listed(frames: seq<nat>, f: nat): nat {
    if frames == [] then 0
    else Listed(frames[..|frames| - 1], f) + if frames[|frames| - 1] == f then 1 else 0
  }

  function InRange(first: nat, n: int, f: nat): nat {
    if first <= f < first + n then 1 else 0
  }

  /** How often a region must give frame `f` back: a block all it was allocated as, a device nothing. */
  function Owned(r: Region, f: nat): nat
    requires r.Valid()
  {
    match r.backing
    case Paged(frames) => Listed(frames, f)
    case Contiguous(phys) => InRange(phys, Pow2(OrderFor(r.Pages())), f)
    case Device(_) => 0
  }

  /** What becoming per-page gives back at once: the end of the block, which was never mapped. */
  function Tail(r: Region, f: nat): nat
    requires r.Valid()
  {
    match r.backing
    case Contiguous(phys) => InRange(phys + r.Pages(), Pow2(OrderFor(r.Pages())) - r.Pages(), f)
    case _ => 0
  }

  lemma {:induction false} ListedConcat(a: seq<nat>, b: seq<nat>, f: nat)
    ensures Listed(a + b, f) == Listed(a, f) + Listed(b, f)
  {
    if b == [] {
      assert a + b == a;
    } else {
      ListedConcat(a, b[..|b| - 1], f);
      assert (a + b)[..|a + b| - 1] == a + b[..|b| - 1];
    }
  }

  lemma {:induction false} ListedBlock(frames: seq<nat>, phys: nat, f: nat)
    requires forall i :: 0 <= i < |frames| ==> frames[i] == phys + i
    ensures Listed(frames, f) == InRange(phys, |frames|, f)
  {
    if frames != [] {
      ListedBlock(frames[..|frames| - 1], phys, f);
    }
  }

  /** No frame is lost or kept twice by a split: the halves and the freed tail own what the region owned. */
  lemma SplitConserves(r: Region, b: nat, f: nat)
    requires r.Valid() && !r.backing.Device? && r.start < b < r.end
    ensures LeftOf(r, b).Valid() && RightOf(r, b).Valid()
    ensures Owned(r, f) == Owned(LeftOf(r, b), f) + Owned(RightOf(r, b), f) + Tail(r, f)
  {
    var frames := AsPaged(r);
    var m := FramesBefore(r, b);
    assert frames == frames[..m] + frames[m..];
    ListedConcat(frames[..m], frames[m..], f);
    if r.backing.Contiguous? {
      ListedBlock(frames, r.backing.phys, f);
    }
  }

  // ---- Giving frames back ----

  function Freed(log: seq<Release>, f: nat): nat {
    if log == [] then 0
    else Freed(log[..|log| - 1], f) + InRange(log[|log| - 1].first, Pow2(log[|log| - 1].order), f)
  }

  /** How often frame `f` was handed back as part of a whole block. */
  function FreedWhole(log: seq<Release>, f: nat): (n: nat)
    ensures n <= Freed(log, f)
  {
    if log == [] then 0
    else
      FreedWhole(log[..|log| - 1], f) +
      if log[|log| - 1].counted then 0 else InRange(log[|log| - 1].first, Pow2(log[|log| - 1].order), f)
  }

  lemma FreedMore(log: seq<Release>, b: Release, f: nat)
    ensures Freed(log + [b], f) == Freed(log, f) + InRange(b.first, Pow2(b.order), f)
    ensures FreedWhole(log + [b], f) ==
            FreedWhole(log, f) + if b.counted then 0 else InRange(b.first, Pow2(b.order), f)
  {
    assert (log + [b])[..|log|] == log;
  }

  /** The loop of `pages_to_order`: the least order whose block holds `n` pages. */
  method PagesToOrder(n: nat) returns (order: nat)
    ensures Pow2(order) >= n && forall o: nat :: o < order ==> Pow2(o) < n
    ensures order == OrderFor(n)
  {
    order := 0;
    var capacity := 1;
    while capacity < n
      invariant capacity == Pow2(order)
      invariant order > 0 ==> Pow2(order - 1) < n
      decreases n - capacity
    {
      capacity, order := 2 * capacity, order + 1;
    }
    forall o: nat | o < order ensures Pow2(o) < n {
      if o < order - 1 {
        Pow2Mono(o, order - 1);
      }
    }
    OrderIsLeast(n, order);
  }

  lemma OrderIsLeast(n: nat, order: nat)
    requires Pow2(order) >= n && (order > 0 ==> Pow2(order - 1) < n)
    ensures order == OrderFor(n)
  {
    var o := OrderFor(n);
    if o < order {
      if o < order - 1 {
        Pow2Mono(o, order - 1);
      }
    } else if order < o - 1 {
      Pow2Mono(order, o - 1);
    }
  }

  predicate Aligned(x: nat, order: nat) {
    x % Pow2(order) == 0
  }

  lemma CoarserIsAligned(x: nat, order: nat, k: nat)
    requires k <= order && Aligned(x, order)
    ensures Aligned(x, k)
  {
    AlignedIsFirst(x, order);
    AlignedBelow(x, order, k);
    AlignedIsFirst(x, k);
  }

  lemma SumIsAligned(x: nat, y: nat, order: nat)
    requires Aligned(x, order) && Aligned(y, order)
    ensures Aligned(x + y, order)
  {
    var p := WholeQuotient(x, Pow2(order));
    var q := WholeQuotient(y, Pow2(order));
    assert x + y == (p + q) * Pow2(order);
    MultipleIsAligned(p + q, Pow2(order));
  }

  /** `free_eager_tail`'s choice of block: the largest aligned one at page `i` that stays below `total`. */
  method TailBlock(i: nat, total: nat) returns (k: nat)
    requires 0 < i < total
    ensures Aligned(i, k) && i + Pow2(k) <= total
    ensures k == TrailingZeros(i) || i + Pow2(k + 1) > total
  {
    k := TrailingZeros(i);
    AlignedIsFirst(i, k);
    while i + Pow2(k) > total
      invariant Aligned(i, k)
      invariant k == TrailingZeros(i) || i + Pow2(k + 1) > total
    {
      CoarserIsAligned(i, k, k - 1);
      k := k - 1;
    }
  }

  /** Between `log` and `all`, each frame of [first, first + n) was handed back once and no other. */
  ghost predicate HandsBack(log: seq<Release>, all: seq<Release>, first: nat, n: int) {
    forall f: nat :: && Freed(all, f) == Freed(log, f) + InRange(first, n, f)
                     && FreedWhole(all, f) == FreedWhole(log, f) + InRange(first, n, f)
  }

  lemma HandsBackMore(log: seq<Release>, all: seq<Release>, first: nat, n: nat, k: nat)
    requires HandsBack(log, all, first, n)
    ensures HandsBack(log, all + [Release(first + n, k, false)], first, n + Pow2(k))
  {
    var r := Release(first + n, k, false);
    forall f: nat
      ensures Freed(all + [r], f) == Freed(log, f) + InRange(first, n + Pow2(k), f)
      ensures FreedWhole(all + [r], f) == FreedWhole(log, f) + InRange(first, n + Pow2(k), f)
    {
      FreedMore(all, r, f);
    }
  }

  /** What the frame allocator hands out, and so takes back: a block aligned to its size. */
  predicate BlockOk(b: Release) {
    b.first > 0 && b.order < MAX_ORDER && Aligned(b.first, b.order) && (b.counted ==> b.order == 0)
  }

  predicate LogOk(log: seq<Release>) {
    log == [] || (BlockOk(log[|log| - 1]) && LogOk(log[..|log| - 1]))
  }

  lemma LogMore(log: seq<Release>, b: Release)
    requires LogOk(log) && BlockOk(b)
    ensures LogOk(log + [b])
  {
    assert (log + [b])[..|log|] == log;
  }

  lemma {:induction false} LogConcat(a: seq<Release>, b: seq<Release>)
    requires LogOk(a) && LogOk(b)
    ensures LogOk(a + b)
  {
    if b == [] {
      assert a + b == a;
    } else {
      LogConcat(a, b[..|b| - 1]);
      LogMore(a + b[..|b| - 1], b[|b| - 1]);
      assert a + b == a + b[..|b| - 1] + [b[|b| - 1]];
    }
  }

  lemma TailBlockIsOk(phys: nat, order: nat, i: nat, k: nat)
    requires BlockOk(Release(phys, order, false)) && Aligned(i, k) && i + Pow2(k) <= Pow2(order)
    ensures BlockOk(Release(phys + i, k, false))
  {
    if order < k {
      Pow2Mono(order, k);
    }
    CoarserIsAligned(phys, order, k);
    SumIsAligned(phys, i, k);
  }

  /** `given` frames of the tail have been handed back. */
  ghost predicate TailGiven(log: seq<Release>, all: seq<Release>, first: nat, given: int) {
    LogOk(all) && log <= all && HandsBack(log, all, first, given)
  }

  lemma TailStep(log: seq<Release>, all: seq<Release>, first: nat, given: nat, k: nat)
    requires TailGiven(log, all, first, given) && BlockOk(Release(first + given, k, false))
    ensures TailGiven(log, all + [Release(first + given, k, false)], first, given + Pow2(k))
  {
    LogMore(all, Release(first + given, k, false));
    HandsBackMore(log, all, first, given, k);
  }

  /** The order of the next block of the tail, `i` pages into the region's block. */
  method TailOrder(phys: nat, order: nat, i: nat) returns (k: nat)
    requires BlockOk(Release(phys, order, false)) && 0 < i < Pow2(order)
    ensures BlockOk(Release(phys + i, k, false)) && i + Pow2(k) <= Pow2(order)
  {
    k := TailBlock(i, Pow2(order));
    TailBlockIsOk(phys, order, i, k);
  }

  /**
   `free_eager_tail`: appends blocks that hand back each frame of the tail once and no other,
   each aligned to its own size because the region's block is.
   */
  method FreeTail(phys: nat, n: nat, log: seq<Release>) returns (all: seq<Release>)
    requires n > 0 && BlockOk(Release(phys, OrderFor(n), false)) && LogOk(log)
    ensures TailGiven(log, all, phys + n, Pow2(OrderFor(n)) - n)
  {
    all := log;
    var order := PagesToOrder(n);
    var total, given := Pow2(order), 0;
    while n + given < total
      invariant n + given <= total
      invariant TailGiven(log, all, phys + n, given)
    {
      var k := TailOrder(phys, order, n + given);
      TailStep(log, all, phys + n, given, k);
      all, given := all + [Release(phys + n + given, k, false)], given + Pow2(k);
    }
  }
}
