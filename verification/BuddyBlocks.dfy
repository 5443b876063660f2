/**
 The buddy allocator's free memory as a set of blocks, apart from how the lists store it.

 A block of order o is the node (k, o) of a binary tree over the physical pages: it holds
 exactly the pages q with q shifted right by o equal to k. Its buddy shares its parent.
 */
module BuddyBlocks {

  /** 2^18 pages is the largest block: orders run from 0 to 18. */
  const MAX_ORDER: nat := 19

  const PAGE_SIZE: nat := 4096

  /** The largest block is one gibibyte. */
  lemma LargestBlock()
    ensures Pow2(MAX_ORDER - 1) * PAGE_SIZE == 0x4000_0000
  {
    assert Pow2(6) == 64 && Pow2(12) == 64 * Pow2(6) && Pow2(18) == 64 * Pow2(12);
  }

  datatype Block = Block(k: nat, order: nat)

  function Pow2(o: nat): (n: nat)
    ensures n >= 1
  {
    if o == 0 then 1 else 2 * Pow2(o - 1)
  }

  /** q shifted right by o. */
  function Up(q: nat, o: nat): nat {
    if o == 0 then q else Up(q, o - 1) / 2
  }

  /** The first page of node (k, o), that is, k shifted left by o. */
  function Down(k: nat, o: nat): nat
    decreases o
  {
    if o == 0 then k else Down(2 * k, o - 1)
  }

  predicate Holds(b: Block, q: nat) {
    Up(q, b.order) == b.k
  }

  /** Every page of `b` is a page of `c`. */
  predicate Within(b: Block, c: Block) {
    b.order <= c.order && Up(b.k, c.order - b.order) == c.k
  }

  function Buddy(b: Block): Block {
    Block(if b.k % 2 == 0 then b.k + 1 else b.k - 1, b.order)
  }

  function Parent(b: Block): Block {
    Block(b.k / 2, b.order + 1)
  }

  /** q is free: some block of `bs` holds it. */
  ghost predicate IsFree(bs: set<Block>, q: nat) {
    exists b :: b in bs && Holds(b, q)
  }

  ghost predicate Disjoint(bs: set<Block>) {
    forall b, c, q :: b in bs && c in bs && Holds(b, q) && Holds(c, q) ==> b == c
  }

  /** No block could still be merged with its buddy. */
  ghost predicate Coalesced(bs: set<Block>) {
    forall b :: b in bs && b.order + 1 < MAX_ORDER ==> Buddy(b) !in bs
  }

  ghost predicate Canonical(bs: set<Block>) {
    && (forall b :: b in bs ==> b.order < MAX_ORDER)
    && Disjoint(bs)
    && Coalesced(bs)
  }

  // ---- The page tree ----

  lemma {:induction false} UpDown(k: nat, o: nat)
    ensures Up(Down(k, o), o) == k
    decreases o
  {
    if o != 0 {
      UpDown(2 * k, o - 1);
    }
  }

  lemma {:induction false} Pow2Mono(a: nat, b: nat)
    requires a <= b
    ensures Pow2(a) <= Pow2(b) && (a < b ==> Pow2(a) < Pow2(b))
  {
    if a < b {
      Pow2Mono(a, b - 1);
    }
  }

  lemma {:induction false} UpUp(q: nat, o: nat, p: nat)
    ensures Up(Up(q, o), p) == Up(q, o + p)
  {
    if p != 0 {
      UpUp(q, o, p - 1);
    }
  }

  /** The first page of a block's right neighbour lies one block size further on. */
  lemma {:induction false} DownNext(k: nat, o: nat)
    ensures Down(k + 1, o) == Down(k, o) + Pow2(o)
    decreases o
  {
    if o != 0 {
      DownNext(2 * k, o - 1);
      DownNext(2 * k + 1, o - 1);
    }
  }

  lemma {:induction false} DownIsScaling(k: nat, o: nat)
    ensures Down(k, o) == k * Pow2(o)
  {
    if k != 0 {
      DownIsScaling(k - 1, o);
      DownNext(k - 1, o);
    } else {
      DownZero(o);
    }
  }

  lemma {:induction false} DownZero(o: nat)
    ensures Down(0, o) == 0
  {
    if o != 0 {
      DownZero(o - 1);
    }
  }

  /** The source's alignment test: a page is the first of an order-o block. */
  lemma AlignedIsFirst(p: nat, o: nat)
    ensures p % Pow2(o) == 0 <==> Down(Up(p, o), o) == p
  {
    DownIsScaling(Up(p, o), o);
    MultipleIsAligned(Up(p, o), Pow2(o));
    if p % Pow2(o) == 0 {
      var k := WholeQuotient(p, Pow2(o));
      DownIsScaling(k, o);
      UpDown(k, o);
    }
  }

  function TrailingZeros(p: nat): (e: nat)
    requires p > 0
    ensures Down(Up(p, e), e) == p
  {
    if p % 2 == 1 then 0
    else
      var e := TrailingZeros(p / 2);
      HalvedAligned(p, e);
      1 + e
  }

  lemma HalvedAligned(p: nat, e: nat)
    requires p % 2 == 0 && Down(Up(p / 2, e), e) == p / 2
    ensures Down(Up(p, e + 1), e + 1) == p
  {
    UpUp(p, 1, e);
    assert Up(p, 1) == Up(p, 0) / 2;
    DownIsScaling(Up(p / 2, e), e);
    DownIsScaling(Up(p / 2, e), e + 1);
    assert Pow2(e + 1) == 2 * Pow2(e);
    var k, h := Up(p / 2, e), Pow2(e);
    assert k * (2 * h) == 2 * (k * h);
  }

  lemma WholeQuotient(p: nat, m: nat) returns (k: nat)
    requires m > 0 && p % m == 0
    ensures p == k * m
  {
    k := p / m;
  }

  lemma MultipleIsAligned(k: nat, m: nat)
    requires m > 0
    ensures (k * m) % m == 0
  {
    var q, r := (k * m) / m, (k * m) % m;
    assert k * m == q * m + r;
    SmallMultiple(k - q, m, r) by {
      assert (k - q) * m == k * m - q * m;
    }
  }

  lemma SmallMultiple(d: int, m: nat, r: nat)
    requires d * m == r < m
    ensures r == 0
  {}

  /** A page of the smaller block lies in the larger one exactly when the blocks nest. */
  lemma HoldsWithin(b: Block, c: Block, q: nat)
    requires b.order <= c.order && Holds(b, q)
    ensures Holds(c, q) <==> Within(b, c)
  {
    UpUp(q, b.order, c.order - b.order);
  }

  /** Every block holds its own first page. */
  lemma HoldsFirst(b: Block)
    ensures Holds(b, Down(b.k, b.order))
  {
    UpDown(b.k, b.order);
  }

  lemma WithinTransitive(a: Block, b: Block, c: Block)
    requires Within(a, b) && Within(b, c)
    ensures Within(a, c)
  {
    UpUp(a.k, b.order - a.order, c.order - b.order);
  }

  /** A proper ancestor of a block contains its parent. */
  lemma ParentWithin(b: Block, c: Block)
    requires Within(b, c) && b.order < c.order
    ensures Within(Parent(b), c)
  {
    UpUp(b.k, 1, c.order - b.order - 1);
    assert Up(b.k, 1) == b.k / 2 by { assert Up(b.k, 0) == b.k; }
  }

  /** The parent holds exactly the pages of a block and of its buddy. */
  lemma ParentHolds(b: Block, q: nat)
    ensures Holds(Parent(b), q) <==> Holds(b, q) || Holds(Buddy(b), q)
    ensures !(Holds(b, q) && Holds(Buddy(b), q))
  {
    assert Up(q, b.order + 1) == Up(q, b.order) / 2;
  }

  /** A block starts no later than any block inside it. */
  lemma {:induction false} WithinStarts(b: Block, c: Block)
    requires Within(b, c)
    ensures Down(c.k, c.order) <= Down(b.k, b.order)
    decreases c.order
  {
    if b.order < c.order {
      var child := Block(Up(b.k, c.order - 1 - b.order), c.order - 1);
      WithinStarts(b, child);
      DownNext(2 * c.k, c.order - 1);
    }
  }

  /** A block is a run of 2^order pages. */
  lemma {:induction false} HoldsIsInterval(b: Block, q: nat)
    ensures Holds(b, q) <==> Down(b.k, b.order) <= q < Down(b.k, b.order) + Pow2(b.order)
    decreases b.order
  {
    if b.order != 0 {
      var left, right := Block(2 * b.k, b.order - 1), Block(2 * b.k + 1, b.order - 1);
      HoldsIsInterval(left, q);
      HoldsIsInterval(right, q);
      assert Parent(left) == b && Buddy(left) == right;
      ParentHolds(left, q);
      DownNext(2 * b.k, b.order - 1);
    }
  }

  /** A page aligned for one order is aligned for every lower one. */
  lemma {:induction false} AlignedBelow(p: nat, r: nat, o: nat)
    requires o <= r && Down(Up(p, r), r) == p
    ensures Down(Up(p, o), o) == p
    decreases r
  {
    if o < r {
      UpDown(2 * Up(p, r), r - 1);
      AlignedBelow(p, r - 1, o);
    }
  }

  // ---- The canonical form ----

  /**
   In a canonical set, a naturally aligned run of free pages is never scattered over
   several blocks: one block contains it whole.
   */
  lemma {:induction false} AlignedRunIsOneBlock(bs: set<Block>, r: Block) returns (c: Block)
    requires Canonical(bs)
    requires r.order < MAX_ORDER
    requires RunFree(bs, r)
    ensures c in bs && Within(r, c)
    decreases r.order
  {
    if r.order == 0 {
      assert Holds(r, r.k);
      c :| c in bs && Holds(c, r.k);
    } else {
      var left, right := Block(2 * r.k, r.order - 1), Block(2 * r.k + 1, r.order - 1);
      forall q | Holds(left, q) || Holds(right, q) ensures IsFree(bs, q) {
        assert Parent(left) == r && Buddy(left) == right;
        ParentHolds(left, q);
      }
      var cl := AlignedRunIsOneBlock(bs, left);
      var cr := AlignedRunIsOneBlock(bs, right);
      if cl.order > left.order {
        ParentWithin(left, cl);
        c := cl;
      } else {
        assert cl == left && Buddy(left) !in bs;
        ParentWithin(right, cr);
        c := cr;
      }
    }
  }

  /** All pages of `r` are free. */
  ghost predicate RunFree(bs: set<Block>, r: Block) {
    forall q :: Holds(r, q) ==> IsFree(bs, q)
  }

  /** The blocks of a canonical set are determined by which pages are free. */
  lemma CanonicalFormIsUnique(bs: set<Block>, cs: set<Block>)
    requires Canonical(bs) && Canonical(cs)
    requires forall q :: IsFree(bs, q) <==> IsFree(cs, q)
    ensures bs == cs
  {
    SamePagesSubset(bs, cs);
    SamePagesSubset(cs, bs);
  }

  lemma SamePagesSubset(bs: set<Block>, cs: set<Block>)
    requires Canonical(bs) && Canonical(cs)
    requires forall q :: IsFree(bs, q) <==> IsFree(cs, q)
    ensures bs <= cs
  {
    forall b | b in bs ensures b in cs {
      var c := AlignedRunIsOneBlock(cs, b);
      var d := AlignedRunIsOneBlock(bs, c);
      WithinTransitive(b, c, d);
      var q := Down(b.k, b.order);
      HoldsFirst(b);
      HoldsWithin(b, d, q);
      assert b == d;
    }
  }

  // ---- Allocation: take a block and split it ----

  /** The lowest 2^order pages of `c`, which the split keeps. */
  function Kept(c: Block, order: nat): (r: Block)
    requires order <= c.order
    ensures r.order == order
    decreases c.order
  {
    if c.order == order then c else Kept(Block(2 * c.k, c.order - 1), order)
  }

  /** The upper halves that the split puts back. */
  function Halves(c: Block, order: nat): set<Block>
    requires order <= c.order
    decreases c.order
  {
    if c.order == order then {}
    else {Block(2 * c.k + 1, c.order - 1)} + Halves(Block(2 * c.k, c.order - 1), order)
  }

  function Taken(bs: set<Block>, c: Block, order: nat): set<Block>
    requires order <= c.order
  {
    bs - {c} + Halves(c, order)
  }

  /** One more halving of the kept block. */
  lemma {:induction false} SplitStep(c: Block, order: nat)
    requires order < c.order
    ensures Kept(c, order) == Block(2 * Kept(c, order + 1).k, order)
    ensures Halves(c, order) == Halves(c, order + 1) + {Block(2 * Kept(c, order + 1).k + 1, order)}
    decreases c.order
  {
    if c.order > order + 1 {
      SplitStep(Block(2 * c.k, c.order - 1), order);
    }
  }

  /** The kept block starts where the split block started. */
  lemma {:induction false} KeptStartsAt(c: Block, order: nat)
    requires order <= c.order
    ensures Down(Kept(c, order).k, order) == Down(c.k, c.order)
    decreases c.order
  {
    if c.order != order {
      KeptStartsAt(Block(2 * c.k, c.order - 1), order);
    }
  }

  /** Splitting partitions the pages of `c`; a half's buddy contains the kept block. */
  lemma {:induction false} SplitPartitions(c: Block, order: nat)
    requires order <= c.order
    ensures forall q :: Holds(c, q) <==> Holds(Kept(c, order), q) || IsFree(Halves(c, order), q)
    ensures forall q :: Holds(Kept(c, order), q) ==> !IsFree(Halves(c, order), q)
    ensures Disjoint(Halves(c, order))
    ensures forall x :: x in Halves(c, order) ==> x.order < c.order && Within(Kept(c, order), Buddy(x))
    ensures Within(Kept(c, order), c)
    decreases c.order
  {
    if c.order != order {
      var left, right := Block(2 * c.k, c.order - 1), Block(2 * c.k + 1, c.order - 1);
      SplitPartitions(left, order);
      assert Parent(left) == c && Buddy(left) == right && Buddy(right) == left;
      var hs := Halves(left, order);
      forall q
        ensures Holds(c, q) <==> Holds(Kept(c, order), q) || IsFree(Halves(c, order), q)
        ensures Holds(right, q) ==> !IsFree(hs, q) && !Holds(Kept(left, order), q)
        ensures IsFree(Halves(c, order), q) <==> Holds(right, q) || IsFree(hs, q)
      {
        ParentHolds(left, q);
        assert right in Halves(c, order);
      }
      ParentWithin(left, c) by {
        assert Up(left.k, 1) == Up(left.k, 0) / 2;
      }
      WithinTransitive(Kept(c, order), left, c);
    }
  }

  /** Exactly the pages handed out leave the pool. */
  lemma TakenPages(bs: set<Block>, c: Block, order: nat, q: nat)
    requires Disjoint(bs) && c in bs && order <= c.order
    ensures Holds(Kept(c, order), q) ==> IsFree(bs, q)
    ensures IsFree(Taken(bs, c, order), q) <==> IsFree(bs, q) && !Holds(Kept(c, order), q)
  {
    SplitPartitions(c, order);
    var r, hs, ts := Kept(c, order), Halves(c, order), Taken(bs, c, order);
    hide Holds, Kept, Halves;
    if IsFree(ts, q) {
      var b :| b in ts && Holds(b, q);
      if b in hs {
        assert IsFree(hs, q) && Holds(c, q);
      }
    }
    if IsFree(bs, q) && !Holds(r, q) {
      var b :| b in bs && Holds(b, q);
      if b == c {
        var x :| x in hs && Holds(x, q);
        assert x in ts;
      } else {
        assert b in ts;
      }
    }
  }

  lemma TakenDisjoint(bs: set<Block>, c: Block, order: nat)
    requires Disjoint(bs) && c in bs && order <= c.order
    ensures Disjoint(Taken(bs, c, order))
  {
    SplitPartitions(c, order);
    var hs, ts := Halves(c, order), Taken(bs, c, order);
    hide Holds, Kept, Halves;
    forall b, d, q | b in ts && d in ts && Holds(b, q) && Holds(d, q) ensures b == d {
      if b in hs {
        assert IsFree(hs, q);
      }
      if d in hs {
        assert IsFree(hs, q);
      }
    }
  }

  lemma TakenCoalesced(bs: set<Block>, c: Block, order: nat)
    requires Canonical(bs) && c in bs && order <= c.order
    ensures Coalesced(Taken(bs, c, order))
  {
    SplitPartitions(c, order);
    var r, hs, ts := Kept(c, order), Halves(c, order), Taken(bs, c, order);
    var q := Down(r.k, r.order);
    HoldsFirst(r);
    forall x | x in hs ensures Holds(Buddy(x), q) && Holds(c, q) {
      HoldsWithin(r, Buddy(x), q);
    }
    TakenPages(bs, c, order, q);
    hide Holds, Kept, Halves;
    forall b | b in ts && b.order + 1 < MAX_ORDER ensures Buddy(b) !in ts {
      assert Buddy(Buddy(b)) == b;
      if b in hs || Buddy(b) in hs {
        assert !IsFree(ts, q);
      }
    }
  }

  /**
   Allocation hands out pages that were all free, takes exactly those pages from the pool,
   and leaves it canonical.
   */
  lemma TakenIsCanonical(bs: set<Block>, c: Block, order: nat)
    requires Canonical(bs) && c in bs && order <= c.order
    ensures Canonical(Taken(bs, c, order))
    ensures forall q :: Holds(Kept(c, order), q) ==> IsFree(bs, q)
    ensures forall q :: IsFree(Taken(bs, c, order), q) <==> IsFree(bs, q) && !Holds(Kept(c, order), q)
  {
    forall q
      ensures Holds(Kept(c, order), q) ==> IsFree(bs, q)
      ensures IsFree(Taken(bs, c, order), q) <==> IsFree(bs, q) && !Holds(Kept(c, order), q)
    {
      TakenPages(bs, c, order, q);
    }
    TakenDisjoint(bs, c, order);
    TakenCoalesced(bs, c, order);
    SplitPartitions(c, order);
  }

  // ---- Freeing: merge with the buddy while it is free ----

  function Merged(bs: set<Block>, b: Block): set<Block>
    requires b.order < MAX_ORDER
    decreases MAX_ORDER - b.order
  {
    if b.order + 1 < MAX_ORDER && Buddy(b) in bs then Merged(bs - {Buddy(b)}, Parent(b))
    else bs + {b}
  }

  /** No page of `b` is free in `bs`. */
  ghost predicate Allocated(bs: set<Block>, b: Block) {
    forall q :: Holds(b, q) ==> !IsFree(bs, q)
  }

  lemma MergedStep(bs: set<Block>, b: Block)
    requires b.order + 1 < MAX_ORDER && Buddy(b) in bs
    ensures Merged(bs, b) == Merged(bs - {Buddy(b)}, Parent(b))
  {}

  /** Whatever is freed, the pool gains exactly the pages of the freed block. */
  lemma {:induction false} MergedPages(bs: set<Block>, b: Block)
    requires b.order < MAX_ORDER
    ensures forall q :: IsFree(Merged(bs, b), q) <==> IsFree(bs, q) || Holds(b, q)
    decreases MAX_ORDER - b.order
  {
    if b.order + 1 < MAX_ORDER && Buddy(b) in bs {
      var cs := bs - {Buddy(b)};
      MergedPages(cs, Parent(b));
      forall q ensures IsFree(cs, q) || Holds(Parent(b), q) <==> IsFree(bs, q) || Holds(b, q) {
        ParentHolds(b, q);
        if IsFree(bs, q) {
          var c :| c in bs && Holds(c, q);
          assert c == Buddy(b) || c in cs;
        }
      }
    } else {
      forall q ensures IsFree(Merged(bs, b), q) <==> IsFree(bs, q) || Holds(b, q) {
        assert b in Merged(bs, b);
        if IsFree(bs, q) {
          var c :| c in bs && Holds(c, q);
          assert c in Merged(bs, b);
        }
      }
    }
  }

  /** Freeing an allocated block keeps the pool canonical. */
  lemma {:induction false} MergedIsCanonical(bs: set<Block>, b: Block)
    requires b.order < MAX_ORDER
    requires Canonical(bs) && Allocated(bs, b)
    ensures Canonical(Merged(bs, b))
    decreases MAX_ORDER - b.order
  {
    if b.order + 1 < MAX_ORDER && Buddy(b) in bs {
      var cs := bs - {Buddy(b)};
      forall q | Holds(Parent(b), q) ensures !IsFree(cs, q) {
        ParentHolds(b, q);
      }
      MergedIsCanonical(cs, Parent(b));
    } else {
      forall c | c in bs && c.order + 1 < MAX_ORDER ensures Buddy(c) != b {
        assert Buddy(Buddy(c)) == c;
      }
      forall c, q | c in bs && Holds(c, q) ensures !Holds(b, q) {
        assert IsFree(bs, q);
      }
    }
  }

  /** A smaller block inside the freed one survives the merging, beside a block that contains it. */
  lemma {:induction false} MergedKeepsInner(bs: set<Block>, b: Block, c: Block) returns (d: Block)
    requires b.order < MAX_ORDER
    requires c in bs && Within(c, b) && c.order < b.order
    ensures c in Merged(bs, b) && d in Merged(bs, b) && Within(b, d)
    decreases MAX_ORDER - b.order
  {
    if b.order + 1 < MAX_ORDER && Buddy(b) in bs {
      assert Up(b.k, 1) == Up(b.k, 0) / 2;
      WithinTransitive(c, b, Parent(b));
      d := MergedKeepsInner(bs - {Buddy(b)}, Parent(b), c);
      WithinTransitive(b, Parent(b), d);
    } else {
      d := b;
    }
  }

  /**
   Exactly when a free keeps the pool intact. The allocator's double-free test refuses a
   block whose first page heads a free block; for every other call the pool stays
   canonical if and only if the freed pages were all allocated.
   */
  lemma FreeKeepsCanonicalIff(bs: set<Block>, b: Block)
    requires Canonical(bs) && b.order < MAX_ORDER
    requires forall c :: c in bs ==> Down(c.k, c.order) != Down(b.k, b.order)
    ensures Canonical(Merged(bs, b)) <==> Allocated(bs, b)
  {
    if Allocated(bs, b) {
      MergedIsCanonical(bs, b);
    } else {
      var q :| Holds(b, q) && IsFree(bs, q);
      var c :| c in bs && Holds(c, q);
      OverlapBreaksDisjoint(bs, b, c, q);
    }
  }

  lemma OverlapBreaksDisjoint(bs: set<Block>, b: Block, c: Block, q: nat)
    requires Canonical(bs) && b.order < MAX_ORDER
    requires c in bs && Holds(b, q) && Holds(c, q) && b != c
    ensures !Disjoint(Merged(bs, b))
  {
    if b.order < c.order {
      HoldsWithin(b, c, q);
      var p := Down(Buddy(b).k, b.order);
      HoldsFirst(Buddy(b));
      ParentWithin(b, c);
      ParentHolds(b, p);
      HoldsWithin(Parent(b), c, p);
      assert Buddy(b) !in bs;
      assert b in Merged(bs, b) && c in Merged(bs, b);
    } else {
      HoldsWithin(c, b, q);
      var d := MergedKeepsInner(bs, b, c);
      HoldsWithin(b, d, q);
    }
  }

  // ---- Counting pages ----

  function PagesOf(b: Block): set<nat>
    decreases b.order
  {
    if b.order == 0 then {b.k}
    else PagesOf(Block(2 * b.k, b.order - 1)) + PagesOf(Block(2 * b.k + 1, b.order - 1))
  }

  lemma {:induction false} BlockSize(b: Block)
    ensures forall q :: q in PagesOf(b) <==> Holds(b, q)
    ensures |PagesOf(b)| == Pow2(b.order)
    decreases b.order
  {
    if b.order != 0 {
      var left, right := Block(2 * b.k, b.order - 1), Block(2 * b.k + 1, b.order - 1);
      BlockSize(left);
      BlockSize(right);
      assert Parent(left) == b && Buddy(left) == right;
      assert PagesOf(b) == PagesOf(left) + PagesOf(right) && Pow2(b.order) == 2 * Pow2(left.order);
      forall q
        ensures Holds(b, q) <==> Holds(left, q) || Holds(right, q)
        ensures !(Holds(left, q) && Holds(right, q))
      {
        ParentHolds(left, q);
      }
      hide Holds, PagesOf;
      assert PagesOf(left) !! PagesOf(right);
    }
  }

  /** All free pages of `bs`. */
  ghost function FreeSet(bs: set<Block>): set<nat> {
    set b, q | b in bs && q in PagesOf(b) :: q
  }

  lemma FreeSetHolds(bs: set<Block>)
    ensures forall q :: q in FreeSet(bs) <==> IsFree(bs, q)
  {
    forall q ensures q in FreeSet(bs) <==> IsFree(bs, q) {
      if IsFree(bs, q) {
        var b :| b in bs && Holds(b, q);
        BlockSize(b);
      }
      if q in FreeSet(bs) {
        var b :| b in bs && q in PagesOf(b);
        BlockSize(b);
      }
    }
  }

  /** Allocation and freeing move exactly 2^order pages. */
  lemma CountsMove(bs: set<Block>, c: Block, order: nat)
    requires Canonical(bs) && c in bs && order <= c.order
    ensures |FreeSet(Taken(bs, c, order))| == |FreeSet(bs)| - Pow2(order)
  {
    TakenIsCanonical(bs, c, order);
    var r := Kept(c, order);
    BlockSize(r);
    FreeSetHolds(bs);
    FreeSetHolds(Taken(bs, c, order));
    assert FreeSet(Taken(bs, c, order)) == FreeSet(bs) - PagesOf(r);
    assert PagesOf(r) <= FreeSet(bs);
  }

  lemma CountsReturn(bs: set<Block>, b: Block)
    requires Canonical(bs) && b.order < MAX_ORDER && Allocated(bs, b)
    ensures |FreeSet(Merged(bs, b))| == |FreeSet(bs)| + Pow2(b.order)
  {
    MergedPages(bs, b);
    BlockSize(b);
    FreeSetHolds(bs);
    FreeSetHolds(Merged(bs, b));
    assert FreeSet(Merged(bs, b)) == FreeSet(bs) + PagesOf(b);
    assert FreeSet(bs) !! PagesOf(b);
  }

  // ---- Whole runs ----

  /** The pool and the pages in use, as one state. */
  datatype Pool = Pool(free: set<Block>, used: set<nat>)

  ghost predicate Inv(s: Pool) {
    Canonical(s.free) && forall q :: q in s.used ==> !IsFree(s.free, q)
  }

  /** An allocation: some free block of a sufficient order is split. */
  ghost predicate AllocStep(s: Pool, t: Pool) {
    exists c, order: nat ::
      && c in s.free && order <= c.order
      && t == Pool(Taken(s.free, c, order), s.used + PagesOf(Kept(c, order)))
  }

  /** A free of pages in use, not necessarily the block they were allocated as. */
  ghost predicate FreeStep(s: Pool, t: Pool) {
    exists b: Block ::
      && b.order < MAX_ORDER && PagesOf(b) <= s.used
      && t == Pool(Merged(s.free, b), s.used - PagesOf(b))
  }

  ghost predicate Run(states: seq<Pool>) {
    && states != []
    && forall i :: 0 <= i < |states| - 1 ==>
         AllocStep(states[i], states[i + 1]) || FreeStep(states[i], states[i + 1])
  }

  /** Each step keeps the invariant and moves pages between free and used without loss. */
  lemma StepConserves(s: Pool, t: Pool)
    requires Inv(s) && (AllocStep(s, t) || FreeStep(s, t))
    ensures Inv(t)
    ensures forall q :: IsFree(s.free, q) || q in s.used <==> IsFree(t.free, q) || q in t.used
  {
    if AllocStep(s, t) {
      var c, order: nat :| c in s.free && order <= c.order
                      && t == Pool(Taken(s.free, c, order), s.used + PagesOf(Kept(c, order)));
      TakenIsCanonical(s.free, c, order);
      BlockSize(Kept(c, order));
    } else {
      var b: Block :| b.order < MAX_ORDER && PagesOf(b) <= s.used
               && t == Pool(Merged(s.free, b), s.used - PagesOf(b));
      BlockSize(b);
      MergedIsCanonical(s.free, b);
      MergedPages(s.free, b);
    }
  }

  lemma {:induction false} RunConserves(states: seq<Pool>)
    requires Run(states) && Inv(states[0])
    ensures var s, t := states[0], states[|states| - 1];
            && Inv(t)
            && forall q :: IsFree(s.free, q) || q in s.used <==> IsFree(t.free, q) || q in t.used
    decreases |states|
  {
    if |states| > 1 {
      var head := states[..|states| - 1];
      assert Run(head) by {
        forall i | 0 <= i < |head| - 1 ensures AllocStep(head[i], head[i + 1]) || FreeStep(head[i], head[i + 1]) {
          assert head[i] == states[i] && head[i + 1] == states[i + 1];
        }
      }
      RunConserves(head);
      assert head[|head| - 1] == states[|states| - 2];
      StepConserves(states[|states| - 2], states[|states| - 1]);
    }
  }

  /**
   No run fragments memory for good: two runs from the same pool that end with the same
   pages in use end with the same free blocks, in whatever order, sizes and pieces the
   pages were allocated and freed.
   */
  lemma FragmentationHasNoHistory(run1: seq<Pool>, run2: seq<Pool>)
    requires Run(run1) && Run(run2)
    requires run1[0] == run2[0] && Inv(run1[0])
    requires run1[|run1| - 1].used == run2[|run2| - 1].used
    ensures run1[|run1| - 1].free == run2[|run2| - 1].free
  {
    RunConserves(run1);
    RunConserves(run2);
    var s, t := run1[|run1| - 1], run2[|run2| - 1];
    forall q ensures IsFree(s.free, q) <==> IsFree(t.free, q) {
      assert q in s.used ==> !IsFree(s.free, q) && !IsFree(t.free, q);
    }
    CanonicalFormIsUnique(s.free, t.free);
  }
}
