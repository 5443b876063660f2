/**
 Address spaces, the reference counts of shared frames (mm/src/pageref.rs) and the page allocator
 together. A frame may be owned by several address spaces after a fork, and by the page cache; the
 count table says by how many. While the counts are right and the blocks behind eager regions have
 one owner, every unmapping hands the allocator only blocks it may take, keeps the counts right,
 and frees a frame exactly when its last owner gives it up.
 */
module Teardown {
  import opened Wrappers
  import opened BuddyBlocks
  import opened Buddy
  import opened Vma
  import opened AddressSpace

  /** Counts of the frames that have more than one owner; absence means one. */
  type Counts = map<nat, nat>

  function Count(refs: Counts, f: nat): nat {
    if f in refs then refs[f] else 1
  }

  /** One owner less; a count of one is not kept. */
  function Lowered(refs: Counts, f: nat): Counts
    requires Count(refs, f) > 1
  {
    if Count(refs, f) == 2 then refs - {f} else refs[f := refs[f] - 1]
  }

  /** A page the allocator manages. */
  predicate Managed(reserved: seq<(nat, nat)>, end: nat, f: nat) {
    0 < f < end && !Overlaps(reserved, f, 1)
  }

  function BlockOf(r: Release): Block {
    Block(Up(r.first, r.order), r.order)
  }

  // ---- The books ----

  /** Owners of frame `f`: the table, whoever else holds it, and what is still to be handed back. */
  ghost function Owners(t: Slots, held: nat -> nat, rs: seq<Release>, f: nat): nat
    requires AllValid(t)
  {
    Owns(t, f) + held(f) + Freed(rs, f)
  }

  /** The counts and the pool are right about frame `f` with `own` owners. */
  ghost predicate RightAbout(own: nat, refs: Counts, bs: set<Block>, reserved: seq<(nat, nat)>, end: nat, f: nat) {
    if own == 0 then f !in refs
    else Count(refs, f) == own && (f in refs ==> own > 1) && Managed(reserved, end, f) && !IsFree(bs, f)
  }

  /** They are right about every frame, and what is handed back as a whole block has no other owner. */
  ghost predicate Books(t: Slots, held: nat -> nat, rs: seq<Release>, refs: Counts, bs: set<Block>,
                        reserved: seq<(nat, nat)>, end: nat)
    requires AllValid(t)
  {
    forall f: nat :: f > 0 ==>
                       && RightAbout(Owners(t, held, rs, f), refs, bs, reserved, end, f)
                       && (InSomeBlock(t, f) || FreedWhole(rs, f) > 0 ==> Owners(t, held, rs, f) == 1)
  }

  lemma FreedFirst(r: Release, rest: seq<Release>, f: nat)
    ensures Freed([r] + rest, f) == InRange(r.first, Pow2(r.order), f) + Freed(rest, f)
    ensures FreedWhole([r] + rest, f) ==
            (if r.counted then 0 else InRange(r.first, Pow2(r.order), f)) + FreedWhole(rest, f)
  {
    FreedConcat([r], rest, f);
    FreedMore([], r, f);
    assert [] + [r] == [r];
  }

  lemma BlockHolds(r: Release, q: nat)
    requires BlockOk(r)
    ensures Holds(BlockOf(r), q) <==> InRange(r.first, Pow2(r.order), q) == 1
    ensures Down(Up(r.first, r.order), r.order) == r.first
  {
    AlignedIsFirst(r.first, r.order);
    HoldsIsInterval(BlockOf(r), q);
  }

  lemma SharedPage(reserved: seq<(nat, nat)>, end: nat, p: nat, n: nat) returns (q: nat)
    requires RangesOk(reserved) && n > 0 && Overlaps(reserved, p, n)
    ensures p <= q < p + n && !Managed(reserved, end, q)
  {
    var i :| 0 <= i < |reserved| && reserved[i].0 != reserved[i].1 && p < reserved[i].1 && reserved[i].0 < p + n;
    q := if p < reserved[i].0 then reserved[i].0 else p;
  }

  /** Clear page by page is clear as a block. */
  lemma ClearAsBlock(reserved: seq<(nat, nat)>, end: nat, p: nat, n: nat)
    requires RangesOk(reserved) && n > 0 && forall q :: p <= q < p + n ==> Managed(reserved, end, q)
    ensures 0 < p && p + n <= end && !Overlaps(reserved, p, n)
  {
    assert Managed(reserved, end, p) && Managed(reserved, end, p + n - 1);
    if Overlaps(reserved, p, n) {
      var q := SharedPage(reserved, end, p, n);
    }
  }

  /** The pages of the block are managed and none of them is free. */
  ghost predicate MayFree(r: Release, bs: set<Block>, reserved: seq<(nat, nat)>, end: nat) {
    forall f: nat :: InRange(r.first, Pow2(r.order), f) == 1 ==> Managed(reserved, end, f) && !IsFree(bs, f)
  }

  /** Such a block passes every check, and freeing it keeps the pool canonical. */
  lemma MayFreeIsAccepted(r: Release, bs: set<Block>, reserved: seq<(nat, nat)>, end: nat)
    requires BlockOk(r) && RangesOk(reserved) && MayFree(r, bs, reserved, end)
    ensures Refused(r.first * PAGE_SIZE, r.order, end, reserved, false) == None
    ensures Allocated(bs, BlockOf(r))
  {
    forall q | r.first <= q < r.first + Pow2(r.order) ensures Managed(reserved, end, q) {
      assert InRange(r.first, Pow2(r.order), q) == 1;
    }
    ClearAsBlock(reserved, end, r.first, Pow2(r.order));
    BlockHolds(r, r.first);
    PlaceableIsAccepted(reserved, end, r.first, r.order);
    forall q | Holds(BlockOf(r), q) ensures !IsFree(bs, q) {
      BlockHolds(r, q);
    }
  }

  // ---- One block or frame handed back ----

  /** A shared frame only loses an owner. */
  predicate StillShared(r: Release, refs: Counts) {
    r.counted && Count(refs, r.first) > 1
  }

  lemma SharedStep(t: Slots, held: nat -> nat, r: Release, rest: seq<Release>, refs: Counts, bs: set<Block>,
                   reserved: seq<(nat, nat)>, end: nat)
    requires AllValid(t) && BlockOk(r) && StillShared(r, refs)
    requires Books(t, held, [r] + rest, refs, bs, reserved, end)
    ensures Books(t, held, rest, Lowered(refs, r.first), bs, reserved, end)
  {
    forall f: nat | f > 0
      ensures RightAbout(Owners(t, held, rest, f), Lowered(refs, r.first), bs, reserved, end, f)
      ensures InSomeBlock(t, f) || FreedWhole(rest, f) > 0 ==> Owners(t, held, rest, f) == 1
    {
      FreedFirst(r, rest, f);
      assert Owners(t, held, [r] + rest, f) == Owners(t, held, rest, f) + InRange(r.first, Pow2(r.order), f);
      assert InRange(r.first, Pow2(r.order), f) == 1 <==> f == r.first;
    }
  }

  /** Otherwise every frame of the block has its last owner. */
  lemma LastOwner(t: Slots, held: nat -> nat, r: Release, rest: seq<Release>, refs: Counts, bs: set<Block>,
                  reserved: seq<(nat, nat)>, end: nat, f: nat)
    requires AllValid(t) && BlockOk(r) && !StillShared(r, refs)
    requires Books(t, held, [r] + rest, refs, bs, reserved, end)
    requires InRange(r.first, Pow2(r.order), f) == 1
    ensures Owners(t, held, [r] + rest, f) == 1 && Owners(t, held, rest, f) == 0 && FreedWhole(rest, f) == 0
    ensures f !in refs && Managed(reserved, end, f) && !IsFree(bs, f) && !InSomeBlock(t, f)
  {
    FreedFirst(r, rest, f);
    assert Owners(t, held, [r] + rest, f) == Owners(t, held, rest, f) + 1;
    assert RightAbout(Owners(t, held, [r] + rest, f), refs, bs, reserved, end, f);
    if r.counted {
      assert f == r.first;
    }
    BlocksAreOwned(t, f);
  }

  /** A frame in the block behind a region is owned. */
  lemma {:induction false} BlocksAreOwned(t: Slots, f: nat)
    requires AllValid(t)
    ensures InSomeBlock(t, f) ==> Owns(t, f) > 0
  {
    if k :| Used(t, k) && BlockFrame(t[k].value, f) {
      var n := |t| - 1;
      PrefixIsValid(t, n);
      if k < n {
        BlocksAreOwned(t[..n], f);
        assert Used(t[..n], k) && t[..n][k] == t[k];
      }
    }
  }

  lemma FreeStep(t: Slots, held: nat -> nat, r: Release, rest: seq<Release>, refs: Counts, bs: set<Block>,
                 reserved: seq<(nat, nat)>, end: nat)
    requires AllValid(t) && BlockOk(r) && !StillShared(r, refs)
    requires Books(t, held, [r] + rest, refs, bs, reserved, end)
    ensures MayFree(r, bs, reserved, end)
    ensures Books(t, held, rest, refs, Merged(bs, BlockOf(r)), reserved, end)
    ensures forall f: nat :: InRange(r.first, Pow2(r.order), f) == 1 ==> f !in refs
  {
    forall f: nat | InRange(r.first, Pow2(r.order), f) == 1
      ensures Managed(reserved, end, f) && !IsFree(bs, f) && f !in refs
    {
      LastOwner(t, held, r, rest, refs, bs, reserved, end, f);
    }
    MergedPages(bs, BlockOf(r));
    forall f: nat | f > 0
      ensures RightAbout(Owners(t, held, rest, f), refs, Merged(bs, BlockOf(r)), reserved, end, f)
      ensures InSomeBlock(t, f) || FreedWhole(rest, f) > 0 ==> Owners(t, held, rest, f) == 1
    {
      FreedFirst(r, rest, f);
      BlockHolds(r, f);
      if InRange(r.first, Pow2(r.order), f) == 1 {
        LastOwner(t, held, r, rest, refs, bs, reserved, end, f);
      }
    }
  }

  /** The table of reference counts. */
  class PageRefs {
    var refs: Counts

    constructor ()
      ensures refs == map[]
    {
      refs := map[];
    }

    /** `inc`: one owner more. */
    method Inc(f: nat)
      modifies this
      ensures refs == old(refs)[f := Count(old(refs), f) + 1]
    {
      refs := refs[f := Count(refs, f) + 1];
    }

    /** `inc_many`: one owner more for each time a frame is listed. */
    method IncMany(frames: seq<nat>)
      modifies this
      ensures forall f: nat :: Count(refs, f) == Count(old(refs), f) + Listed(frames, f)
      ensures forall f: nat :: f in refs <==> f in old(refs) || Listed(frames, f) > 0
    {
      for i := 0 to |frames|
        invariant forall f: nat :: Count(refs, f) == Count(old(refs), f) + Listed(frames[..i], f)
        invariant forall f: nat :: f in refs <==> f in old(refs) || Listed(frames[..i], f) > 0
      {
        assert frames[..i + 1][..i] == frames[..i];
        Inc(frames[i]);
      }
      assert frames[..|frames|] == frames;
    }

    /** `unref_or_free` of a single frame: a shared one loses an owner, any other is freed. */
    method UnrefOrFree(a: Allocator, f: nat)
      requires a.Valid() && a.physEnd > 0
      requires Count(refs, f) <= 1 ==> f !in refs && BlockOk(Release(f, 0, true))
                                       && MayFree(Release(f, 0, true), a.Pool(), a.reserved, a.physEnd)
      modifies this, a`heads, a`mem, a`bits, a`lists, a`freePages
      ensures a.Valid()
      ensures old(Count(refs, f)) > 1 ==> refs == Lowered(old(refs), f) && a.Pool() == old(a.Pool())
      ensures old(Count(refs, f)) <= 1 ==>
                refs == old(refs) && a.Pool() == Merged(old(a.Pool()), BlockOf(Release(f, 0, true)))
    {
      if f in refs && refs[f] > 1 {
        var n := refs[f] - 1;
        refs := if n <= 1 then refs - {f} else refs[f := n];
      } else {
        refs := refs - {f};
        FreeBlock(a, Release(f, 0, true));
      }
    }
  }

  /** Free a block the allocator may take; it is not refused. */
  method FreeBlock(a: Allocator, r: Release)
    requires a.Valid() && a.physEnd > 0 && BlockOk(r) && MayFree(r, a.Pool(), a.reserved, a.physEnd)
    modifies a`heads, a`mem, a`bits, a`lists, a`freePages
    ensures a.Valid() && a.Pool() == Merged(old(a.Pool()), BlockOf(r))
  {
    MayFreeIsAccepted(r, a.Pool(), a.reserved, a.physEnd);
    BlockHolds(r, r.first);
    assert r.first * PAGE_SIZE / PAGE_SIZE == r.first;
    if IsHead(a.lists, r.first) {
      HeadIsFree(a.lists, r.first);
    }
    var refused := a.Free(r.first * PAGE_SIZE, r.order);
  }

  /** The frames that are free now and were not before are those that lost their last owner. */
  ghost predicate FreedLast(t: Slots, held: nat -> nat, rs: seq<Release>, bs: set<Block>,
                            rs': seq<Release>, bs': set<Block>)
    requires AllValid(t)
  {
    forall f: nat :: f > 0 ==>
      (IsFree(bs', f) <==> IsFree(bs, f) || (Owners(t, held, rs, f) > 0 && Owners(t, held, rs', f) == 0))
  }

  lemma FreedLastStep(t: Slots, held: nat -> nat, rs0: seq<Release>, bs0: set<Block>, r: Release, rest: seq<Release>,
                      refs: Counts, bs: set<Block>, reserved: seq<(nat, nat)>, end: nat)
    requires AllValid(t) && BlockOk(r) && Books(t, held, [r] + rest, refs, bs, reserved, end)
    requires FreedLast(t, held, rs0, bs0, [r] + rest, bs)
    requires forall f: nat :: Freed([r] + rest, f) <= Freed(rs0, f)
    ensures FreedLast(t, held, rs0, bs0, rest, if StillShared(r, refs) then bs else Merged(bs, BlockOf(r)))
  {
    MergedPages(bs, BlockOf(r));
    var bs' := if StillShared(r, refs) then bs else Merged(bs, BlockOf(r));
    forall f: nat | f > 0
      ensures IsFree(bs', f) <==> IsFree(bs0, f) || (Owners(t, held, rs0, f) > 0 && Owners(t, held, rest, f) == 0)
    {
      FreedFirst(r, rest, f);
      BlockHolds(r, f);
      assert RightAbout(Owners(t, held, [r] + rest, f), refs, bs, reserved, end, f);
      if InRange(r.first, Pow2(r.order), f) == 1 && !StillShared(r, refs) {
        LastOwner(t, held, r, rest, refs, bs, reserved, end, f);
      }
    }
  }

  /** Hand back one block or frame. */
  method GiveBack(p: PageRefs, a: Allocator, r: Release,
                  ghost t: Slots, ghost held: nat -> nat, ghost rest: seq<Release>)
    requires AllValid(t) && BlockOk(r) && a.Valid() && a.physEnd > 0
    requires Books(t, held, [r] + rest, p.refs, a.Pool(), a.reserved, a.physEnd)
    modifies p, a`heads, a`mem, a`bits, a`lists, a`freePages
    ensures a.Valid() && Books(t, held, rest, p.refs, a.Pool(), a.reserved, a.physEnd)
    ensures a.Pool() == if StillShared(r, old(p.refs)) then old(a.Pool()) else Merged(old(a.Pool()), BlockOf(r))
  {
    if StillShared(r, p.refs) {
      SharedStep(t, held, r, rest, p.refs, a.Pool(), a.reserved, a.physEnd);
    } else {
      FreeStep(t, held, r, rest, p.refs, a.Pool(), a.reserved, a.physEnd);
      assert InRange(r.first, Pow2(r.order), r.first) == 1;
    }
    if r.counted {
      p.UnrefOrFree(a, r.first);
    } else {
      FreeBlock(a, r);
    }
  }

  /** Hand back everything in turn. */
  method HandBack(p: PageRefs, a: Allocator, rs: seq<Release>, ghost t: Slots, ghost held: nat -> nat)
    requires AllValid(t) && LogOk(rs) && a.Valid() && a.physEnd > 0
    requires Books(t, held, rs, p.refs, a.Pool(), a.reserved, a.physEnd)
    modifies p, a`heads, a`mem, a`bits, a`lists, a`freePages
    ensures a.Valid() && Books(t, held, [], p.refs, a.Pool(), a.reserved, a.physEnd)
    ensures FreedLast(t, held, rs, old(a.Pool()), [], a.Pool())
  {
    assert rs[0..] == rs;
    ghost var bs := a.Pool();
    StartsFreed(t, held, rs, p.refs, bs, a.reserved, a.physEnd);
    for i := 0 to |rs|
      invariant a.Valid() && Books(t, held, rs[i..], p.refs, a.Pool(), a.reserved, a.physEnd)
      invariant FreedLast(t, held, rs, bs, rs[i..], a.Pool())
    {
      LogAt(rs, i);
      SuffixFreed(rs, i);
      ghost var rest := rs[i + 1..];
      assert rs[i..] == [rs[i]] + rest;
      FreedLastStep(t, held, rs, bs, rs[i], rest, p.refs, a.Pool(), a.reserved, a.physEnd);
      GiveBack(p, a, rs[i], t, held, rest);
    }
    assert rs[|rs|..] == [];
  }

  lemma StartsFreed(t: Slots, held: nat -> nat, rs: seq<Release>, refs: Counts, bs: set<Block>,
                    reserved: seq<(nat, nat)>, end: nat)
    requires AllValid(t) && Books(t, held, rs, refs, bs, reserved, end)
    ensures FreedLast(t, held, rs, bs, rs, bs)
  {}

  lemma {:induction false} LogAt(rs: seq<Release>, i: nat)
    requires LogOk(rs) && i < |rs|
    ensures BlockOk(rs[i])
  {
    if i < |rs| - 1 {
      LogAt(rs[..|rs| - 1], i);
    }
  }

  lemma SuffixFreed(rs: seq<Release>, i: nat)
    requires i <= |rs|
    ensures forall f: nat :: Freed(rs[i..], f) <= Freed(rs, f)
  {
    assert rs[..i] + rs[i..] == rs;
    forall f: nat ensures Freed(rs[i..], f) <= Freed(rs, f) {
      FreedConcat(rs[..i], rs[i..], f);
    }
  }

  lemma {:induction false} LogTail(log: seq<Release>, n: nat)
    requires LogOk(log) && n <= |log|
    ensures LogOk(log[n..])
    decreases |log|
  {
    if n < |log| {
      var z := |log| - 1;
      LogTail(log[..z], n);
      assert log[n..][..z - n] == log[..z][n..];
    }
  }

  // ---- Unmapping on a running system ----

  /** What a table gives up moves from its own column to what is still to be handed back. */
  lemma GivenUp(t: Slots, u: Slots, held: nat -> nat, log: seq<Release>, rs: seq<Release>, refs: Counts, bs: set<Block>,
                reserved: seq<(nat, nat)>, end: nat)
    requires ValidSlots(t) && ValidSlots(u) && Conserved(t, log, u, log + rs)
    requires Books(t, held, [], refs, bs, reserved, end)
    ensures Books(u, held, rs, refs, bs, reserved, end)
    ensures forall f: nat :: f > 0 ==> Owners(u, held, rs, f) == Owners(t, held, [], f)
  {
    forall f: nat | f > 0
      ensures Owners(u, held, rs, f) == Owners(t, held, [], f)
      ensures InSomeBlock(u, f) || FreedWhole(rs, f) > 0 ==> InSomeBlock(t, f)
    {
      FreedConcat(log, rs, f);
    }
  }

  /** Frame `f` has an owner besides what is still to be handed back. */
  ghost predicate Owned(t: Slots, held: nat -> nat, f: nat)
    requires AllValid(t)
  {
    Owners(t, held, [], f) > 0
  }

  /**
   `unmap_range` on a running system, where others hold `held(f)` references to frame `f`. Exactly the
   pages concerned disappear; the allocator refuses nothing; the counts stay right, so any
   address space may call next; and a frame becomes free exactly when it loses its last owner.
   */
  method Unmap(space: Space, p: PageRefs, a: Allocator, first: nat, count: nat, ghost held: nat -> nat)
    requires space.Valid() && a.Valid() && a.physEnd > 0
    requires Books(space.regions, held, [], p.refs, a.Pool(), a.reserved, a.physEnd)
    modifies space, p, a`heads, a`mem, a`bits, a`lists, a`freePages
    ensures space.Valid() && a.Valid()
    ensures Books(space.regions, held, [], p.refs, a.Pool(), a.reserved, a.physEnd)
    ensures Addressable(first + count) ==>
              forall v :: View(space.regions, v)
                       == Edited(old(View(space.regions, v)), v, first, first + count, Clear)
    ensures forall f: nat :: f > 0 ==> Owns(space.regions, f) <= old(Owns(space.regions, f))
    ensures forall f: nat :: f > 0 ==>
              (IsFree(a.Pool(), f) <==>
                 old(IsFree(a.Pool(), f)) || (old(Owned(space.regions, held, f)) && !Owned(space.regions, held, f)))
  {
    ghost var t, log := space.regions, space.freed;
    var n := |space.freed|;
    space.UnmapRange(first, count);
    var rs := space.freed[n..];
    assert space.freed == log + rs;
    LogTail(space.freed, n);
    GivenUp(t, space.regions, held, log, rs, p.refs, a.Pool(), a.reserved, a.physEnd);
    HandBack(p, a, rs, space.regions, held);
  }

  // ---- Several address spaces ----

  ghost predicate AllTablesValid(ts: seq<Slots>) {
    forall i :: 0 <= i < |ts| ==> AllValid(ts[i])
  }

  /** How often the tables together own frame `f`. */
  ghost function OwnedByAll(ts: seq<Slots>, f: nat): nat
    requires AllTablesValid(ts)
  {
    if ts == [] then 0 else OwnedByAll(ts[..|ts| - 1], f) + Owns(ts[|ts| - 1], f)
  }

  lemma {:induction false} OwnedByAllUpdate(ts: seq<Slots>, i: nat, u: Slots, f: nat)
    requires AllTablesValid(ts) && i < |ts| && AllValid(u)
    ensures AllTablesValid(ts[i := u])
    ensures OwnedByAll(ts[i := u], f) + Owns(ts[i], f) == OwnedByAll(ts, f) + Owns(u, f)
  {
    var n := |ts| - 1;
    if i < n {
      OwnedByAllUpdate(ts[..n], i, u, f);
      assert ts[i := u][..n] == ts[..n][i := u];
    } else {
      assert ts[i := u][..n] == ts[..n];
    }
  }

  /** The counts and the pool are right for all tables together, with `cache(f)` references from the page cache. */
  ghost predicate SystemBooks(ts: seq<Slots>, cache: nat -> nat, refs: Counts, bs: set<Block>,
                              reserved: seq<(nat, nat)>, end: nat)
    requires AllTablesValid(ts)
  {
    forall f: nat :: f > 0 ==> SystemRightAbout(ts, cache(f), refs, bs, reserved, end, f)
  }

  ghost predicate SystemRightAbout(ts: seq<Slots>, cached: nat, refs: Counts, bs: set<Block>,
                                   reserved: seq<(nat, nat)>, end: nat, f: nat)
    requires AllTablesValid(ts)
  {
    && RightAbout(OwnedByAll(ts, f) + cached, refs, bs, reserved, end, f)
    && forall i :: 0 <= i < |ts| && InSomeBlock(ts[i], f) ==> OwnedByAll(ts, f) + cached == 1
  }

  /** `held` is what everyone but table `i` holds. */
  ghost predicate HeldByOthers(ts: seq<Slots>, cache: nat -> nat, i: nat, held: nat -> nat)
    requires AllTablesValid(ts) && i < |ts|
  {
    forall f: nat :: held(f) + Owns(ts[i], f) == OwnedByAll(ts, f) + cache(f)
  }

  lemma {:induction false} OwnsPart(ts: seq<Slots>, i: nat, f: nat)
    requires AllTablesValid(ts) && i < |ts|
    ensures Owns(ts[i], f) <= OwnedByAll(ts, f)
    ensures forall j :: 0 <= j < |ts| && j != i ==> Owns(ts[i], f) + Owns(ts[j], f) <= OwnedByAll(ts, f)
  {
    var n := |ts| - 1;
    if i < n {
      OwnsPart(ts[..n], i, f);
    } else {
      forall j | 0 <= j < n ensures Owns(ts[j], f) <= OwnedByAll(ts[..n], f) {
        OwnsPart(ts[..n], j, f);
      }
    }
  }

  ghost function OthersHold(ts: seq<Slots>, cache: nat -> nat, i: nat, f: nat): nat {
    if AllTablesValid(ts) && i < |ts| && Owns(ts[i], f) <= OwnedByAll(ts, f)
    then OwnedByAll(ts, f) - Owns(ts[i], f) + cache(f) else 0
  }

  lemma OthersHoldTheRest(ts: seq<Slots>, cache: nat -> nat, i: nat)
    requires AllTablesValid(ts) && i < |ts|
    ensures HeldByOthers(ts, cache, i, (f: nat) => OthersHold(ts, cache, i, f))
  {
    forall f: nat ensures OthersHold(ts, cache, i, f) + Owns(ts[i], f) == OwnedByAll(ts, f) + cache(f) {
      OwnsPart(ts, i, f);
    }
  }

  /** What is right for the system is right for each of its address spaces. */
  lemma EachMayUnmap(ts: seq<Slots>, cache: nat -> nat, i: nat, held: nat -> nat, refs: Counts, bs: set<Block>,
                     reserved: seq<(nat, nat)>, end: nat)
    requires AllTablesValid(ts) && i < |ts| && HeldByOthers(ts, cache, i, held)
    requires SystemBooks(ts, cache, refs, bs, reserved, end)
    ensures Books(ts[i], held, [], refs, bs, reserved, end)
  {
    forall f: nat | f > 0
      ensures RightAbout(Owners(ts[i], held, [], f), refs, bs, reserved, end, f)
      ensures InSomeBlock(ts[i], f) ==> Owners(ts[i], held, [], f) == 1
    {
      assert held(f) + Owns(ts[i], f) == OwnedByAll(ts, f) + cache(f);
      assert SystemRightAbout(ts, cache(f), refs, bs, reserved, end, f);
    }
  }

  /** And once one of them has unmapped, it is right for the system again. */
  lemma SystemStaysRight(ts: seq<Slots>, cache: nat -> nat, i: nat, u: Slots, held: nat -> nat,
                         refs: Counts, bs: set<Block>, refs': Counts, bs': set<Block>,
                         reserved: seq<(nat, nat)>, end: nat)
    requires AllTablesValid(ts) && i < |ts| && AllValid(u) && HeldByOthers(ts, cache, i, held)
    requires SystemBooks(ts, cache, refs, bs, reserved, end) && Books(u, held, [], refs', bs', reserved, end)
    requires forall f: nat :: f > 0 ==> Owns(u, f) <= Owns(ts[i], f)
    ensures AllTablesValid(ts[i := u]) && SystemBooks(ts[i := u], cache, refs', bs', reserved, end)
  {
    OwnedByAllUpdate(ts, i, u, 0);
    forall f: nat | f > 0 ensures SystemRightAbout(ts[i := u], cache(f), refs', bs', reserved, end, f) {
      assert held(f) + Owns(ts[i], f) == OwnedByAll(ts, f) + cache(f);
      assert SystemRightAbout(ts, cache(f), refs, bs, reserved, end, f);
      OwnedByAllUpdate(ts, i, u, f);
      assert Owners(u, held, [], f) == OwnedByAll(ts[i := u], f) + cache(f);
      assert RightAbout(Owners(u, held, [], f), refs', bs', reserved, end, f);
      FrameStaysRight(ts, cache(f), i, u, refs, bs, refs', bs', reserved, end, f);
    }
  }

  lemma FrameStaysRight(ts: seq<Slots>, cached: nat, i: nat, u: Slots, refs: Counts, bs: set<Block>,
                        refs': Counts, bs': set<Block>, reserved: seq<(nat, nat)>, end: nat, f: nat)
    requires AllTablesValid(ts) && i < |ts| && AllValid(u) && AllTablesValid(ts[i := u])
    requires SystemRightAbout(ts, cached, refs, bs, reserved, end, f) && Owns(u, f) <= Owns(ts[i], f)
    requires OwnedByAll(ts[i := u], f) + Owns(ts[i], f) == OwnedByAll(ts, f) + Owns(u, f)
    requires RightAbout(OwnedByAll(ts[i := u], f) + cached, refs', bs', reserved, end, f)
    requires InSomeBlock(u, f) ==> OwnedByAll(ts[i := u], f) + cached == 1
    ensures SystemRightAbout(ts[i := u], cached, refs', bs', reserved, end, f)
  {
    var ts' := ts[i := u];
    forall j | 0 <= j < |ts'| && InSomeBlock(ts'[j], f) ensures OwnedByAll(ts', f) + cached == 1 {
      if j != i {
        OwnsPart(ts, i, f);
        BlocksAreOwned(ts[j], f);
      }
    }
  }

  /** `refs'` counts an owner more for each time table `c` owns a frame. */
  ghost predicate CountsShared(refs: Counts, refs': Counts, c: Slots)
    requires AllValid(c)
  {
    forall f: nat :: f > 0 ==>
      && Count(refs', f) == Count(refs, f) + Owns(c, f)
      && (f in refs' <==> f in refs || Owns(c, f) > 0)
  }

  /** Table `c` shares frame `f` only if it is owned before, and not in a block. */
  ghost predicate MayShare(ts: seq<Slots>, cached: nat, c: Slots, f: nat)
    requires AllTablesValid(ts) && AllValid(c)
  {
    && !InSomeBlock(c, f)
    && (Owns(c, f) > 0 ==> OwnedByAll(ts, f) + cached > 0 && forall i :: 0 <= i < |ts| ==> !InSomeBlock(ts[i], f))
  }

  /** A new table that shares such frames leaves the books right if each is counted. */
  lemma SharingKeepsBooks(ts: seq<Slots>, cache: nat -> nat, c: Slots, refs: Counts, refs': Counts, bs: set<Block>,
                          reserved: seq<(nat, nat)>, end: nat)
    requires AllTablesValid(ts) && AllValid(c) && SystemBooks(ts, cache, refs, bs, reserved, end)
    requires CountsShared(refs, refs', c) && forall f: nat :: f > 0 ==> MayShare(ts, cache(f), c, f)
    ensures AllTablesValid(ts + [c]) && SystemBooks(ts + [c], cache, refs', bs, reserved, end)
  {
    assert AllTablesValid(ts + [c]);
    forall f: nat | f > 0 ensures SystemRightAbout(ts + [c], cache(f), refs', bs, reserved, end, f) {
      assert MayShare(ts, cache(f), c, f) && SystemRightAbout(ts, cache(f), refs, bs, reserved, end, f);
      SharedFrameStaysRight(ts, cache(f), c, refs, refs', bs, reserved, end, f);
    }
  }

  lemma SharedFrameStaysRight(ts: seq<Slots>, cached: nat, c: Slots, refs: Counts, refs': Counts, bs: set<Block>,
                              reserved: seq<(nat, nat)>, end: nat, f: nat)
    requires AllTablesValid(ts) && AllValid(c) && AllTablesValid(ts + [c]) && MayShare(ts, cached, c, f)
    requires SystemRightAbout(ts, cached, refs, bs, reserved, end, f)
    requires Count(refs', f) == Count(refs, f) + Owns(c, f) && (f in refs' <==> f in refs || Owns(c, f) > 0)
    ensures SystemRightAbout(ts + [c], cached, refs', bs, reserved, end, f)
  {
    var ts' := ts + [c];
    OwnedByOneMore(ts, c, f);
    SharedFrame(OwnedByAll(ts, f) + cached, Owns(c, f), refs, refs', bs, reserved, end, f);
    forall j | 0 <= j < |ts'| && InSomeBlock(ts'[j], f) ensures OwnedByAll(ts', f) + cached == 1 {
      assert j < |ts| && ts'[j] == ts[j];
    }
  }

  lemma OwnedByOneMore(ts: seq<Slots>, c: Slots, f: nat)
    requires AllTablesValid(ts) && AllValid(c) && AllTablesValid(ts + [c])
    ensures OwnedByAll(ts + [c], f) == OwnedByAll(ts, f) + Owns(c, f)
  {
    assert (ts + [c])[..|ts|] == ts;
  }

  /** `k` more owners of a frame that has some, each counted. */
  lemma SharedFrame(own: nat, k: nat, refs: Counts, refs': Counts, bs: set<Block>,
                    reserved: seq<(nat, nat)>, end: nat, f: nat)
    requires RightAbout(own, refs, bs, reserved, end, f) && (k > 0 ==> own > 0)
    requires Count(refs', f) == Count(refs, f) + k && (f in refs' <==> f in refs || k > 0)
    ensures RightAbout(own + k, refs', bs, reserved, end, f)
  {}
}
