/**
 The region table of an address space (mm/src/vmm.rs): splitting, unmapping and reprotecting
 ranges of pages. What a page is, and how often a frame must be given back, are read off the table.
 */
module AddressSpace {
  import opened Wrappers
  import opened Vma
  import opened BuddyBlocks

  type Slots = seq<Option<Region>>

  /** Page numbers end where the machine's 64-bit addresses do. */
  const PAGE_LIMIT: nat := 0x10_0000_0000_0000

  /** The byte address of page `last` fits in 64 bits. */
  ghost predicate Addressable(last: nat) {
    last * PAGE_SIZE < 0x1_0000_0000_0000_0000
  }

  predicate Used(t: Slots, k: int) {
    0 <= k < |t| && t[k].Some?
  }

  predicate Apart(r: Region, q: Region) {
    r.end <= q.start || q.end <= r.start
  }

  ghost predicate AllValid(t: Slots) {
    forall k :: Used(t, k) ==> t[k].value.Valid()
  }

  ghost predicate ValidSlots(t: Slots) {
    && AllValid(t)
    && (forall j, k :: Used(t, j) && Used(t, k) && j != k ==> Apart(t[j].value, t[k].value))
  }

  predicate CoversAt(t: Slots, k: int, v: nat) {
    Used(t, k) && t[k].value.Covers(v)
  }

  /** What page `v` is. */
  ghost function View(t: Slots, v: nat): Option<Page> {
    if exists k :: CoversAt(t, k, v) then
      var k :| CoversAt(t, k, v);
      Some(PageAt(t[k].value, v))
    else None
  }

  lemma ViewIs(t: Slots, k: int, v: nat)
    requires ValidSlots(t) && CoversAt(t, k, v)
    ensures View(t, v) == Some(PageAt(t[k].value, v))
  {}

  /** How often the table must give frame `f` back. */
  ghost function Owns(t: Slots, f: nat): nat
    requires AllValid(t)
  {
    if t == [] then 0
    else
      assert forall k :: Used(t[..|t| - 1], k) ==> Used(t, k);
      assert t[|t| - 1].Some? ==> Used(t, |t| - 1);
      Owns(t[..|t| - 1], f) + OwnedIn(t[|t| - 1], f)
  }

  function OwnedIn(s: Option<Region>, f: nat): nat
    requires s.Some? ==> s.value.Valid()
  {
    if s.Some? then Owned(s.value, f) else 0
  }

  /** Frame `f` lies in the block behind a region. */
  predicate BlockFrame(r: Region, f: nat) {
    r.start < r.end && r.backing.Contiguous? && InRange(r.backing.phys, Pow2(OrderFor(r.Pages())), f) == 1
  }

  ghost predicate InSomeBlock(t: Slots, f: nat) {
    exists k :: Used(t, k) && BlockFrame(t[k].value, f)
  }

  /** Every frame is owned or handed back as often as before, and in a block only if it was in one. */
  ghost predicate Conserved(t: Slots, log: seq<Release>, u: Slots, all: seq<Release>)
    requires ValidSlots(t) && ValidSlots(u)
  {
    forall f: nat :: f > 0 ==>
                       && Owns(u, f) + Freed(all, f) == Owns(t, f) + Freed(log, f)
                       && (InSomeBlock(u, f) || FreedWhole(all, f) > FreedWhole(log, f) ==> InSomeBlock(t, f))
  }

  lemma {:induction false} OwnsUpdate(t: Slots, k: nat, s: Option<Region>, f: nat)
    requires k < |t| && (s.Some? ==> s.value.Valid())
    requires AllValid(t)
    ensures AllValid(t[k := s])
    ensures t[k].Some? ==> t[k].value.Valid()
    ensures Owns(t[k := s], f) == Owns(t, f) - OwnedIn(t[k], f) + OwnedIn(s, f)
  {
    var u, n := t[k := s], |t| - 1;
    UpdateIsValid(t, k, s);
    PrefixIsValid(t, n);
    if k < n {
      OwnsUpdate(t[..n], k, s, f);
      assert u[..n] == t[..n][k := s];
    } else {
      assert u[..n] == t[..n];
    }
  }

  lemma UpdateIsValid(t: Slots, k: nat, s: Option<Region>)
    requires k < |t| && AllValid(t) && (s.Some? ==> s.value.Valid())
    ensures AllValid(t[k := s]) && (t[k].Some? ==> t[k].value.Valid())
  {
    var u := t[k := s];
    assert t[k].Some? ==> Used(t, k);
    forall j | Used(u, j) ensures u[j].value.Valid() {
      assert j != k ==> Used(t, j);
    }
  }

  lemma PrefixIsValid(t: Slots, n: nat)
    requires n <= |t| && AllValid(t)
    ensures AllValid(t[..n])
  {
    forall j | Used(t[..n], j) ensures t[..n][j].value.Valid() {
      assert Used(t, j);
    }
  }

  // ---- Splitting the table ----

  /** No splittable region has `b` inside it. */
  ghost predicate NoCut(t: Slots, b: nat) {
    forall k :: Used(t, k) && !t[k].value.backing.Device? ==> !(t[k].value.start < b < t[k].value.end)
  }

  function SplitSlots(t: Slots, k: nat, j: nat, b: nat): Slots
    requires Splits(t, k, b) && j < |t| && j != k
  {
    t[k := Some(LeftOf(t[k].value, b))][j := Some(RightOf(t[k].value, b))]
  }

  predicate Splits(t: Slots, k: int, b: nat) {
    Used(t, k) && t[k].value.Valid() && !t[k].value.backing.Device? && t[k].value.start < b < t[k].value.end
  }

  lemma SplitIsValid(t: Slots, k: nat, j: nat, b: nat)
    requires ValidSlots(t) && Splits(t, k, b) && j < |t| && t[j].None?
    ensures ValidSlots(SplitSlots(t, k, j, b))
  {
    var u := SplitSlots(t, k, j, b);
    SplitConserves(t[k].value, b, 0);
    forall i | Used(u, i) && i != k && i != j ensures Used(t, i) && u[i] == t[i] {}
  }

  lemma SplitView(t: Slots, k: nat, j: nat, b: nat, v: nat)
    requires ValidSlots(t) && Splits(t, k, b) && j < |t| && t[j].None?
    ensures View(SplitSlots(t, k, j, b), v) == View(t, v)
  {
    var u := SplitSlots(t, k, j, b);
    SplitIsValid(t, k, j, b);
    if t[k].value.Covers(v) {
      SplitKeepsPages(t[k].value, b, v);
      ViewIs(t, k, v);
      ViewIs(u, if v < b then k else j, v);
    } else if i :| CoversAt(t, i, v) {
      ViewIs(t, i, v);
      assert CoversAt(u, i, v);
      ViewIs(u, i, v);
    } else {
      forall i ensures !CoversAt(u, i, v) {
        assert !CoversAt(t, i, v) && !CoversAt(t, k, v);
      }
    }
  }

  lemma SplitOwns(t: Slots, k: nat, j: nat, b: nat, f: nat)
    requires ValidSlots(t) && Splits(t, k, b) && j < |t| && t[j].None?
    requires ValidSlots(SplitSlots(t, k, j, b))
    ensures Owns(t, f) == Owns(SplitSlots(t, k, j, b), f) + Tail(t[k].value, f)
  {
    SplitConserves(t[k].value, b, f);
    OwnsUpdate(t, k, Some(LeftOf(t[k].value, b)), f);
    OwnsUpdate(t[k := Some(LeftOf(t[k].value, b))], j, Some(RightOf(t[k].value, b)), f);
  }

  lemma SplitBlocks(t: Slots, k: nat, j: nat, b: nat, f: nat)
    requires ValidSlots(t) && Splits(t, k, b) && j < |t| && t[j].None?
    ensures InSomeBlock(SplitSlots(t, k, j, b), f) || Tail(t[k].value, f) > 0 ==> InSomeBlock(t, f)
  {
    var u := SplitSlots(t, k, j, b);
    if i :| Used(u, i) && BlockFrame(u[i].value, f) {
      assert Used(t, i) && u[i] == t[i];
    } else if Tail(t[k].value, f) > 0 {
      assert Used(t, k) && BlockFrame(t[k].value, f);
    }
  }

  lemma SplitCuts(t: Slots, k: nat, j: nat, b: nat, x: nat)
    requires ValidSlots(t) && Splits(t, k, b) && j < |t| && t[j].None?
    ensures NoCut(t, x) || x == b ==> NoCut(SplitSlots(t, k, j, b), x)
  {
    if NoCut(t, x) || x == b {
      var u := SplitSlots(t, k, j, b);
      forall i | Used(u, i) && !u[i].value.backing.Device? ensures !(u[i].value.start < x < u[i].value.end) {
        if i != k && i != j {
          assert Used(t, i) && u[i] == t[i];
        }
      }
    }
  }

  /** An empty slot at the end changes nothing. */
  lemma RoomIsSame(t: Slots)
    requires ValidSlots(t)
    ensures ValidSlots(t + [None])
    ensures forall v :: View(t + [None], v) == View(t, v)
    ensures forall f :: Owns(t + [None], f) == Owns(t, f)
    ensures forall x :: NoCut(t, x) ==> NoCut(t + [None], x)
    ensures forall f :: InSomeBlock(t + [None], f) ==> InSomeBlock(t, f)
  {
    var u := t + [None];
    assert forall k :: Used(u, k) <==> Used(t, k);
    forall f | InSomeBlock(u, f) ensures InSomeBlock(t, f) {
      var k :| Used(u, k) && BlockFrame(u[k].value, f);
      assert Used(t, k) && u[k] == t[k];
    }
    assert u[..|t|] == t;
    forall v ensures View(u, v) == View(t, v) {
      if k :| CoversAt(t, k, v) {
        ViewIs(t, k, v);
        assert CoversAt(u, k, v);
        ViewIs(u, k, v);
      } else {
        assert forall k :: CoversAt(u, k, v) ==> CoversAt(t, k, v);
      }
    }
  }

  // ---- Editing every region inside a range ----

  /** What a pass over the table does to a region inside its range. */
  datatype Edit = Clear | Protect(prot: set<Prot>)

  function FlagsFor(prot: set<Prot>): set<Flag> {
    {PRESENT, USER} + (if WRITE in prot then {WRITABLE} else {}) + (if EXEC in prot then {EXECUTE} else {})
  }

  /** Write access exactly with WRITE, execution exactly with EXEC, and else the two flags that are always set. */
  ghost predicate Allows(flags: set<Flag>, prot: set<Prot>) {
    && (WRITABLE in flags <==> WRITE in prot)
    && (EXECUTE in flags <==> EXEC in prot)
    && PRESENT in flags && USER in flags && forall n :: Other(n) !in flags
  }

  lemma FlagsForIff(flags: set<Flag>, prot: set<Prot>)
    ensures Allows(flags, prot) <==> flags == FlagsFor(prot)
  {
    if Allows(flags, prot) {
      forall f ensures f in flags <==> f in FlagsFor(prot) {
        match f
        case PRESENT =>
        case USER =>
        case WRITABLE =>
        case EXECUTE =>
        case Other(n) =>
      }
    }
  }

  function EditRegion(r: Region, e: Edit): Option<Region> {
    match e
    case Clear => None
    case Protect(prot) => Some(r.(prot := prot, flags := FlagsFor(prot)))
  }

  function EditPage(p: Page, e: Edit): Option<Page> {
    match e
    case Clear => None
    case Protect(prot) => Some(p.(prot := prot, flags := FlagsFor(prot)))
  }

  /** The page belongs to a device mapping that [first, last) does not hold whole. */
  predicate SticksOut(p: Page, first: nat, last: nat) {
    p.device.Some? && !(first <= p.device.value.0 && p.device.value.1 <= last)
  }

  /** What a page should become: edited inside the range, unless its device mapping sticks out. */
  predicate Concerns(p: Option<Page>, v: nat, first: nat, last: nat) {
    p.Some? && first <= v < last && !SticksOut(p.value, first, last)
  }

  function Edited(p: Option<Page>, v: nat, first: nat, last: nat, e: Edit): Option<Page> {
    if Concerns(p, v, first, last) then EditPage(p.value, e) else p
  }

  /** The page has the protection and does not allow both writing and executing; all else about it is as it was. */
  ghost predicate Reprotected(p: Option<Page>, p': Option<Page>, prot: set<Prot>) {
    && p.Some? && p'.Some?
    && Allows(p'.value.flags, prot) && !(WRITABLE in p'.value.flags && EXECUTE in p'.value.flags)
    && p'.value.prot == prot
    && p'.value.frame == p.value.frame && p'.value.mapFlags == p.value.mapFlags && p'.value.file == p.value.file
    && p'.value.cow == p.value.cow && p'.value.written == p.value.written && p'.value.device == p.value.device
  }

  lemma ProtectsPage(p: Option<Page>, v: nat, first: nat, last: nat, prot: set<Prot>)
    requires Concerns(p, v, first, last) && !(WRITE in prot && EXEC in prot)
    ensures Reprotected(p, Edited(p, v, first, last, Protect(prot)), prot)
  {}

  /** No page may be both written and executed. */
  ghost predicate WriteXorExecute(t: Slots) {
    forall v :: View(t, v).Some? ==> !(WRITABLE in View(t, v).value.flags && EXECUTE in View(t, v).value.flags)
  }

  /** Unmapping and reprotecting keep it so. */
  lemma EditsKeepWriteXorExecute(t: Slots, u: Slots, first: nat, last: nat, e: Edit)
    requires e.Protect? ==> !(WRITE in e.prot && EXEC in e.prot)
    requires forall v :: View(u, v) == Edited(View(t, v), v, first, last, e)
    ensures WriteXorExecute(t) ==> WriteXorExecute(u)
  {
    hide View;
  }

  /** The table when the first `n` slots have been passed. */
  function Swept(t: Slots, n: int, first: nat, last: nat, e: Edit): Slots {
    seq(|t|, i requires 0 <= i < |t| =>
      if i < n && t[i].Some? && t[i].value.Within(first, last) then EditRegion(t[i].value, e) else t[i])
  }

  lemma SweptNext(t: Slots, n: nat, first: nat, last: nat, e: Edit)
    requires n < |t|
    ensures Swept(t, n + 1, first, last, e)
         == if t[n].Some? && t[n].value.Within(first, last)
            then Swept(t, n, first, last, e)[n := EditRegion(t[n].value, e)]
            else Swept(t, n, first, last, e)
  {}

  lemma SweptIsValid(t: Slots, n: nat, first: nat, last: nat, e: Edit)
    requires ValidSlots(t)
    ensures ValidSlots(Swept(t, n, first, last, e))
  {
    var u := Swept(t, n, first, last, e);
    forall k | Used(u, k) ensures Used(t, k) && u[k].value.start == t[k].value.start && u[k].value.end == t[k].value.end
                               && u[k].value.backing == t[k].value.backing {}
  }

  lemma {:induction false} ProtectOwns(t: Slots, n: nat, first: nat, last: nat, prot: set<Prot>, f: nat)
    requires ValidSlots(t) && n <= |t|
    ensures ValidSlots(Swept(t, n, first, last, Protect(prot)))
    ensures Owns(Swept(t, n, first, last, Protect(prot)), f) == Owns(t, f)
  {
    var e := Protect(prot);
    SweptIsValid(t, n, first, last, e);
    if n == 0 {
      assert Swept(t, 0, first, last, e) == t;
    } else {
      ProtectOwns(t, n - 1, first, last, prot, f);
      SweptNext(t, n - 1, first, last, e);
      var u := Swept(t, n - 1, first, last, e);
      if t[n - 1].Some? && t[n - 1].value.Within(first, last) {
        assert Used(t, n - 1);
        OwnsUpdate(u, n - 1, EditRegion(t[n - 1].value, e), f);
      }
    }
  }

  lemma ProtectConserves(t: Slots, n: nat, first: nat, last: nat, prot: set<Prot>, log: seq<Release>)
    requires ValidSlots(t) && n <= |t| && ValidSlots(Swept(t, n, first, last, Protect(prot)))
    ensures Conserved(t, log, Swept(t, n, first, last, Protect(prot)), log)
  {
    forall f: nat | f > 0
      ensures Owns(Swept(t, n, first, last, Protect(prot)), f) == Owns(t, f)
      ensures InSomeBlock(Swept(t, n, first, last, Protect(prot)), f) ==> InSomeBlock(t, f)
    {
      ProtectOwns(t, n, first, last, prot, f);
      SweptBlocks(t, n, first, last, Protect(prot), f);
    }
  }

  lemma SweptBlocks(t: Slots, n: nat, first: nat, last: nat, e: Edit, f: nat)
    ensures InSomeBlock(Swept(t, n, first, last, e), f) ==> InSomeBlock(t, f)
  {
    var u := Swept(t, n, first, last, e);
    if k :| Used(u, k) && BlockFrame(u[k].value, f) {
      assert Used(t, k) && BlockFrame(t[k].value, f);
    }
  }

  lemma InsideOrOut(t: Slots, k: int, v: nat, first: nat, last: nat)
    requires ValidSlots(t) && NoCut(t, first) && NoCut(t, last) && CoversAt(t, k, v)
    ensures Concerns(View(t, v), v, first, last) <==> t[k].value.Within(first, last)
  {
    ViewIs(t, k, v);
  }

  /** Once nothing is cut by the ends of the range, a pass over the regions is a pass over the pages. */
  lemma SweptView(t: Slots, first: nat, last: nat, e: Edit, v: nat)
    requires ValidSlots(t) && NoCut(t, first) && NoCut(t, last)
    ensures View(Swept(t, |t|, first, last, e), v) == Edited(View(t, v), v, first, last, e)
  {
    var u := Swept(t, |t|, first, last, e);
    SweptIsValid(t, |t|, first, last, e);
    if k :| CoversAt(t, k, v) {
      ViewIs(t, k, v);
      InsideOrOut(t, k, v, first, last);
      if u[k].Some? {
        assert CoversAt(u, k, v);
        ViewIs(u, k, v);
      } else {
        forall j ensures !CoversAt(u, j, v) {
          assert j != k && Used(t, j) ==> Apart(t[j].value, t[k].value);
        }
      }
    } else {
      forall j ensures !CoversAt(u, j, v) {
        assert !CoversAt(t, j, v);
      }
    }
  }

  /** Slot `k` holds a device mapping that overlaps the range but is not inside it. */
  predicate Straddler(t: Slots, k: int, first: nat, last: nat) {
    && Used(t, k) && t[k].value.backing.Device?
    && t[k].value.start < last && first < t[k].value.end && !t[k].value.Within(first, last)
  }

  ghost predicate DeviceStraddles(t: Slots, first: nat, last: nat) {
    exists k :: Straddler(t, k, first, last)
  }

  /** The first page a region and the range share. */
  function Common(r: Region, first: nat): nat {
    if r.start < first then first else r.start
  }

  /** `unmap_range` leaves nothing of the range mapped exactly when no device mapping straddles an end of it. */
  lemma UnmapIsCompleteIff(t: Slots, first: nat, last: nat)
    requires ValidSlots(t) && first < last
    ensures (forall v :: first <= v < last ==> Edited(View(t, v), v, first, last, Clear).None?)
       <==> !DeviceStraddles(t, first, last)
  {
    if DeviceStraddles(t, first, last) {
      var k :| Straddler(t, k, first, last);
      var v := Common(t[k].value, first);
      ViewIs(t, k, v);
      assert Edited(View(t, v), v, first, last, Clear).Some?;
    } else {
      forall v | first <= v < last ensures Edited(View(t, v), v, first, last, Clear).None? {
        if k :| CoversAt(t, k, v) {
          ViewIs(t, k, v);
          assert !Straddler(t, k, first, last);
        }
      }
    }
  }

  ghost predicate Mapped(t: Slots, v: nat) {
    exists k :: CoversAt(t, k, v)
  }

  ghost predicate NoHole(t: Slots, first: nat, last: nat) {
    forall v :: first <= v < last ==> Mapped(t, v)
  }

  ghost predicate Reaches(t: Slots, first: nat, last: nat) {
    forall v :: first <= v < last ==> Concerns(View(t, v), v, first, last)
  }

  /** Some page of the range is concerned: what `mprotect` reports as success. */
  ghost predicate Touches(t: Slots, first: nat, last: nat) {
    exists v :: Concerns(View(t, v), v, first, last)
  }

  /** Every region that meets the range is a device mapping that sticks out of it. */
  ghost predicate OnlyStraddlers(t: Slots, first: nat, last: nat) {
    forall k :: Used(t, k) && t[k].value.start < last && first < t[k].value.end ==>
                  t[k].value.backing.Device? && !t[k].value.Within(first, last)
  }

  ghost predicate Has(p: Option<Page>, prot: set<Prot>) {
    p.Some? && p.value.prot == prot && Allows(p.value.flags, prot)
  }

  /** The device mappings that straddle the range have the protection already. */
  ghost predicate StraddlersHave(t: Slots, first: nat, last: nat, prot: set<Prot>) {
    forall k :: Straddler(t, k, first, last) ==> t[k].value.prot == prot && Allows(t[k].value.flags, prot)
  }

  /** Every page of the range is reached exactly when it has no hole and no device mapping straddles an end. */
  lemma MprotectReachesAllIff(t: Slots, first: nat, last: nat)
    requires ValidSlots(t) && first < last
    ensures Reaches(t, first, last) <==> NoHole(t, first, last) && !DeviceStraddles(t, first, last)
  {
    if k :| Straddler(t, k, first, last) {
      var v := Common(t[k].value, first);
      ViewIs(t, k, v);
      assert !Concerns(View(t, v), v, first, last);
    } else if v :| first <= v < last && !Mapped(t, v) {
      assert !Concerns(View(t, v), v, first, last);
    } else {
      forall v | first <= v < last ensures Concerns(View(t, v), v, first, last) {
        assert Mapped(t, v);
        var k :| CoversAt(t, k, v);
        ViewIs(t, k, v);
        assert !Straddler(t, k, first, last);
      }
    }
  }

  /**
   Every page of the range is mapped with `prot` afterwards exactly when it has no hole and the
   device mappings that straddle its ends had that protection before.
   */
  lemma MprotectIsCompleteIff(t: Slots, first: nat, last: nat, prot: set<Prot>)
    requires ValidSlots(t) && first < last
    ensures (forall v :: first <= v < last ==> Has(Edited(View(t, v), v, first, last, Protect(prot)), prot))
       <==> NoHole(t, first, last) && StraddlersHave(t, first, last, prot)
  {
    if NoHole(t, first, last) && StraddlersHave(t, first, last, prot) {
      forall v | first <= v < last ensures Has(Edited(View(t, v), v, first, last, Protect(prot)), prot) {
        assert Mapped(t, v);
        var k :| CoversAt(t, k, v);
        ViewIs(t, k, v);
        assert Concerns(View(t, v), v, first, last) || Straddler(t, k, first, last);
      }
    } else if !NoHole(t, first, last) {
      var v :| first <= v < last && !Mapped(t, v);
      assert !Has(Edited(View(t, v), v, first, last, Protect(prot)), prot);
    } else {
      var k :| Straddler(t, k, first, last) && !(t[k].value.prot == prot && Allows(t[k].value.flags, prot));
      var v := Common(t[k].value, first);
      ViewIs(t, k, v);
      assert !Has(Edited(View(t, v), v, first, last, Protect(prot)), prot);
    }
  }

  lemma TouchesNothingIff(t: Slots, first: nat, last: nat)
    requires ValidSlots(t) && first < last
    ensures !Touches(t, first, last) <==> OnlyStraddlers(t, first, last)
  {
    if v :| Concerns(View(t, v), v, first, last) {
      var k :| CoversAt(t, k, v);
      ViewIs(t, k, v);
    } else {
      forall k | Used(t, k) && t[k].value.start < last && first < t[k].value.end
        ensures t[k].value.backing.Device? && !t[k].value.Within(first, last)
      {
        var v := Common(t[k].value, first);
        ViewIs(t, k, v);
        assert !Concerns(View(t, v), v, first, last);
      }
    }
  }

  /**
   The result of `mprotect` tells whether the whole range was reached exactly when the range is
   not empty and either nothing of it is missed (no hole, no straddling device mapping) or
   nothing of it is touched (only straddling device mappings meet it).
   */
  lemma MprotectIsHonestIff(t: Slots, first: nat, last: nat)
    requires ValidSlots(t) && first <= last
    ensures (Touches(t, first, last) <==> Reaches(t, first, last)) <==>
            first < last &&
            ((NoHole(t, first, last) && !DeviceStraddles(t, first, last)) || OnlyStraddlers(t, first, last))
  {
    if first < last {
      MprotectReachesAllIff(t, first, last);
      TouchesNothingIff(t, first, last);
      if Reaches(t, first, last) {
        assert Concerns(View(t, first), first, first, last);
      }
    }
  }

  function Plain(start: nat, end: nat, backing: Backing): Option<Region> {
    Some(Region(start, end, backing, {}, {}, 0, None, false, {}))
  }

  /** A hole: page 1 is mapped, page 0 is not, and the call on both succeeds. */
  lemma MprotectMissesHole()
    ensures var t := [Plain(1, 2, Paged([]))];
            ValidSlots(t) && Touches(t, 0, 2) && !Mapped(t, 0) && !DeviceStraddles(t, 0, 2)
  {
    var t := [Plain(1, 2, Paged([]))];
    ViewIs(t, 0, 1);
    assert Concerns(View(t, 1), 1, 0, 2);
  }

  lemma DeviceThenPages(t: Slots)
    requires t == [Plain(0, 2, Device(0)), Plain(2, 3, Paged([]))]
    ensures ValidSlots(t) && CoversAt(t, 0, 1) && CoversAt(t, 1, 2)
    ensures View(t, 1) == Some(Page(1, {}, {}, 0, None, false, false, Some((0, 2))))
    ensures View(t, 2) == Some(Page(0, {}, {}, 0, None, false, false, None))
  {
    ViewIs(t, 0, 1);
    ViewIs(t, 1, 2);
  }

  /** A device mapping of pages 0 and 1: unmapping pages 1 and 2 leaves page 1 mapped. */
  lemma UnmapMissesDevice()
    ensures var t := [Plain(0, 2, Device(0)), Plain(2, 3, Paged([]))];
            && ValidSlots(t) && Edited(View(t, 1), 1, 1, 3, Clear).Some?
            && View(t, 2).Some? && Edited(View(t, 2), 2, 1, 3, Clear).None?
  {
    DeviceThenPages([Plain(0, 2, Device(0)), Plain(2, 3, Paged([]))]);
  }

  /** No hole, but a device mapping of pages 0 and 1: the call on pages 1 and 2 succeeds, and page 1 stays as it was. */
  lemma MprotectMissesDevice()
    ensures var t := [Plain(0, 2, Device(0)), Plain(2, 3, Paged([]))];
            && ValidSlots(t) && Mapped(t, 1) && Mapped(t, 2) && Touches(t, 1, 3)
            && Edited(View(t, 1), 1, 1, 3, Protect({READ})) == View(t, 1) && !Has(View(t, 1), {READ})
  {
    var t := [Plain(0, 2, Device(0)), Plain(2, 3, Paged([]))];
    DeviceThenPages(t);
    assert Concerns(View(t, 2), 2, 1, 3);
    assert READ in {READ} && READ !in View(t, 1).value.prot;
  }

  /** A region inside the range and a page the range concerns come together. */
  lemma InsideIffConcerns(t: Slots, first: nat, last: nat)
    requires ValidSlots(t) && NoCut(t, first) && NoCut(t, last)
    ensures (exists k :: Used(t, k) && t[k].value.Within(first, last))
       <==> Touches(t, first, last)
  {
    if k :| Used(t, k) && t[k].value.Within(first, last) {
      InsideOrOut(t, k, t[k].value.start, first, last);
    }
    if v :| Concerns(View(t, v), v, first, last) {
      var k :| CoversAt(t, k, v);
      InsideOrOut(t, k, v, first, last);
    }
  }

  // ---- Handing frames back ----

  lemma {:induction false} FreedConcat(a: seq<Release>, b: seq<Release>, f: nat)
    ensures Freed(a + b, f) == Freed(a, f) + Freed(b, f)
    ensures FreedWhole(a + b, f) == FreedWhole(a, f) + FreedWhole(b, f)
  {
    if b == [] {
      assert a + b == a;
    } else {
      FreedConcat(a, b[..|b| - 1], f);
      assert (a + b)[..|a + b| - 1] == a + b[..|b| - 1];
    }
  }

  /** The frames that are present, each as a block of its own. */
  method Present(frames: seq<nat>) returns (blocks: seq<Release>)
    ensures forall f: nat :: f > 0 ==> Freed(blocks, f) == Listed(frames, f) && FreedWhole(blocks, f) == 0
    ensures LogOk(blocks)
  {
    blocks := [];
    var i := 0;
    while i < |frames|
      invariant 0 <= i <= |frames| && LogOk(blocks)
      invariant forall f: nat :: f > 0 ==> Freed(blocks, f) == Listed(frames[..i], f) && FreedWhole(blocks, f) == 0
    {
      assert frames[..i + 1][..i] == frames[..i];
      if frames[i] != 0 {
        var r := Release(frames[i], 0, true);
        forall f: nat
          ensures Freed(blocks + [r], f) == Freed(blocks, f) + InRange(frames[i], 1, f)
          ensures FreedWhole(blocks + [r], f) == FreedWhole(blocks, f)
        {
          FreedMore(blocks, r, f);
        }
        LogMore(blocks, r);
        blocks := blocks + [r];
      }
      i := i + 1;
    }
    assert frames[..i] == frames;
  }

  /** What removing a region gives back: all it owns, and whole blocks only of the block behind it. */
  ghost predicate Removes(r: Region, single: seq<Release>, whole: seq<Release>)
    requires r.Valid()
  {
    forall f: nat :: f > 0 ==>
                       && Freed(single, f) + Freed(whole, f) == Owned(r, f) && FreedWhole(single, f) == 0
                       && (FreedWhole(whole, f) > 0 ==> BlockFrame(r, f))
  }

  /** Frames one by one, and whole blocks. */
  method Remove(r: Region) returns (single: seq<Release>, whole: seq<Release>)
    requires r.Valid()
    ensures Removes(r, single, whole)
    ensures LogOk(single) && LogOk(whole)
  {
    single, whole := [], [];
    match r.backing {
      case Paged(frames) => single := Present(frames);
      case Device(_) =>
      case Contiguous(phys) =>
        var order := PagesToOrder(r.Pages());
        whole := [Release(phys, order, false)];
        assert whole[..0] == [];
    }
  }

  /** The frames of `t` are those of `u` together with those set aside. */
  ghost predicate SetAside(t: Slots, u: Slots, single: seq<Release>, whole: seq<Release>)
    requires AllValid(t) && AllValid(u)
  {
    forall f: nat :: f > 0 ==>
                       && Owns(u, f) + Freed(single, f) + Freed(whole, f) == Owns(t, f) && FreedWhole(single, f) == 0
                       && (InSomeBlock(u, f) || FreedWhole(whole, f) > 0 ==> InSomeBlock(t, f))
  }

  lemma SetAsideMore(t: Slots, u: Slots, k: nat, s: seq<Release>, w: seq<Release>, s': seq<Release>, w': seq<Release>)
    requires AllValid(t) && AllValid(u) && SetAside(t, u, s, w) && Used(u, k) && Removes(u[k].value, s', w')
    ensures AllValid(u[k := None]) && SetAside(t, u[k := None], s + s', w + w')
  {
    OwnsUpdate(u, k, None, 0);
    forall f: nat | f > 0
      ensures Owns(u[k := None], f) + Freed(s + s', f) + Freed(w + w', f) == Owns(t, f) && FreedWhole(s + s', f) == 0
      ensures InSomeBlock(u[k := None], f) || FreedWhole(w + w', f) > 0 ==> InSomeBlock(t, f)
    {
      OwnsUpdate(u, k, None, f);
      FreedConcat(s, s', f);
      FreedConcat(w, w', f);
      BlocksLess(u, k, f);
    }
  }

  lemma BlocksLess(u: Slots, k: nat, f: nat)
    requires k < |u|
    ensures InSomeBlock(u[k := None], f) ==> InSomeBlock(u, f)
    ensures Used(u, k) && BlockFrame(u[k].value, f) ==> InSomeBlock(u, f)
  {
    var v := u[k := None];
    if i :| Used(v, i) && BlockFrame(v[i].value, f) {
      assert Used(u, i) && u[i] == v[i];
    }
  }

  lemma AsideIsConserved(t: Slots, u: Slots, log: seq<Release>, single: seq<Release>, whole: seq<Release>)
    requires ValidSlots(t) && ValidSlots(u) && SetAside(t, u, single, whole)
    ensures Conserved(t, log, u, log + single + whole)
  {
    forall f: nat | f > 0
      ensures Owns(u, f) + Freed(log + single + whole, f) == Owns(t, f) + Freed(log, f)
      ensures InSomeBlock(u, f) || FreedWhole(log + single + whole, f) > FreedWhole(log, f) ==> InSomeBlock(t, f)
    {
      FreedConcat(log, single, f);
      FreedConcat(log + single, whole, f);
    }
  }

  class Space {
    var regions: Slots
    /** Every block handed back to the frame allocator so far. */
    var freed: seq<Release>

    ghost predicate Valid()
      reads this
    {
      ValidSlots(regions) && LogOk(freed)
    }

    /** `split_at`: repartitions the table at page `b` and changes no page. */
    method SplitAt(b: nat) returns (done: bool)
      requires Valid()
      modifies this
      ensures Valid()
      ensures done <==> !old(NoCut(regions, b))
      ensures forall v :: View(regions, v) == old(View(regions, v))
      ensures old(freed) <= freed
      ensures Conserved(old(regions), old(freed), regions, freed)
      ensures NoCut(regions, b) && forall x :: old(NoCut(regions, x)) ==> NoCut(regions, x)
    {
      var k := 0;
      while k < |regions| && !(regions[k].Some? && regions[k].value.start < b < regions[k].value.end)
        invariant 0 <= k <= |regions|
        invariant forall i :: Used(regions, i) && i < k ==> !(regions[i].value.start < b < regions[i].value.end)
      {
        k := k + 1;
      }
      if k == |regions| {
        return false;
      }
      assert Used(regions, k);
      if regions[k].value.backing.Device? {
        assert forall i :: Used(regions, i) && i != k ==> Apart(regions[i].value, regions[k].value);
        return false;
      }
      Divide(k, b);
      done := true;
    }

    method Divide(k: nat, b: nat)
      requires Valid() && Splits(regions, k, b)
      modifies this
      ensures Valid()
      ensures forall v :: View(regions, v) == old(View(regions, v))
      ensures old(freed) <= freed
      ensures Conserved(old(regions), old(freed), regions, freed)
      ensures NoCut(regions, b) && forall x :: old(NoCut(regions, x)) ==> NoCut(regions, x)
    {
      var r := regions[k].value;
      if r.backing.Contiguous? {
        freed := FreeTail(r.backing.phys, r.Pages(), freed);
      }
      var j := 0;
      while j < |regions| && regions[j].Some?
        invariant 0 <= j <= |regions|
      {
        j := j + 1;
      }
      RoomIsSame(regions);
      var t := if j == |regions| then regions + [None] else regions;
      assert t[k] == regions[k];
      SplitIsValid(t, k, j, b);
      regions := SplitSlots(t, k, j, b);
      forall v ensures View(regions, v) == View(t, v) {
        SplitView(t, k, j, b, v);
      }
      forall f: nat
        ensures Owns(t, f) == Owns(regions, f) + Tail(r, f)
        ensures InSomeBlock(regions, f) || Tail(r, f) > 0 ==> InSomeBlock(t, f)
      {
        SplitOwns(t, k, j, b, f);
        SplitBlocks(t, k, j, b, f);
      }
      forall x ensures NoCut(t, x) || x == b ==> NoCut(regions, x) {
        SplitCuts(t, k, j, b, x);
      }
    }

    /** `unmap_range`: exactly the pages concerned disappear, and every frame behind them is handed back once. */
    method UnmapRange(first: nat, count: nat)
      requires Valid()
      modifies this
      ensures Valid()
      ensures Addressable(first + count) ==>
                forall v :: View(regions, v) == Edited(old(View(regions, v)), v, first, first + count, Clear)
      ensures !Addressable(first + count) ==> regions == old(regions) && freed == old(freed)
      ensures WriteXorExecute(old(regions)) ==> WriteXorExecute(regions)
      ensures old(freed) <= freed
      ensures Conserved(old(regions), old(freed), regions, freed)
    {
      var last := first + count;
      if count == 0 || last >= PAGE_LIMIT {
        return;
      }
      var _ := SplitAt(first);
      var _ := SplitAt(last);
      ghost var t := regions;
      var single, whole := Sweep(first, last);
      forall v ensures View(regions, v) == Edited(View(t, v), v, first, last, Clear) {
        SweptView(t, first, last, Clear, v);
      }
      EditsKeepWriteXorExecute(t, regions, first, last, Clear);
      AsideIsConserved(t, regions, freed, single, whole);
      LogConcat(freed, single);
      LogConcat(freed + single, whole);
      freed := freed + single + whole;
    }

    /** The pass of `unmap_range` over the table; what it sets aside is freed only when it is over. */
    method Sweep(first: nat, last: nat) returns (single: seq<Release>, whole: seq<Release>)
      requires Valid()
      modifies this`regions
      ensures Valid() && regions == Swept(old(regions), |old(regions)|, first, last, Clear)
      ensures SetAside(old(regions), regions, single, whole) && LogOk(single) && LogOk(whole)
    {
      ghost var t := regions;
      single, whole := [], [];
      var k := 0;
      while k < |regions|
        invariant 0 <= k <= |regions| == |t|
        invariant regions == Swept(t, k, first, last, Clear) && Valid()
        invariant SetAside(t, regions, single, whole) && LogOk(single) && LogOk(whole)
      {
        SweptNext(t, k, first, last, Clear);
        SweptIsValid(t, k + 1, first, last, Clear);
        if regions[k].Some? && regions[k].value.Within(first, last) {
          assert Used(regions, k);
          var s, w := Remove(regions[k].value);
          SetAsideMore(t, regions, k, single, whole, s, w);
          LogConcat(single, s);
          LogConcat(whole, w);
          single, whole, regions := single + s, whole + w, regions[k := None];
        }
        k := k + 1;
      }
    }

    /**
     `mprotect`: exactly the pages concerned change protection. It succeeds when it concerned any page,
     so holes in the range go unnoticed.
     */
    method Mprotect(first: nat, count: nat, prot: set<Prot>) returns (changed: bool)
      requires Valid()
      modifies this
      ensures Valid()
      ensures (WRITE in prot && EXEC in prot) || !Addressable(first + count) ==>
                !changed && regions == old(regions) && freed == old(freed)
      ensures !(WRITE in prot && EXEC in prot) && Addressable(first + count) ==>
                && (forall v :: View(regions, v)
                             == Edited(old(View(regions, v)), v, first, first + count, Protect(prot)))
                && (changed <==> Touches(old(regions), first, first + count))
                && (forall v :: Concerns(View(old(regions), v), v, first, first + count) ==>
                                  Reprotected(View(old(regions), v), View(regions, v), prot))
      ensures WriteXorExecute(old(regions)) ==> WriteXorExecute(regions)
      ensures old(freed) <= freed
      ensures Conserved(old(regions), old(freed), regions, freed)
    {
      hide View, Reprotected, Concerns, Edited;
      changed := false;
      if WRITE in prot && EXEC in prot {
        return;
      }
      var last := first + count;
      if last >= PAGE_LIMIT {
        return;
      }
      var _ := SplitAt(first);
      var _ := SplitAt(last);
      ghost var t := regions;
      changed := Reprotect(first, last, prot);
      forall v ensures View(regions, v) == Edited(View(t, v), v, first, last, Protect(prot)) {
        SweptView(t, first, last, Protect(prot), v);
      }
      forall v | Concerns(View(t, v), v, first, last) ensures Reprotected(View(t, v), View(regions, v), prot) {
        ProtectsPage(View(t, v), v, first, last, prot);
      }
      EditsKeepWriteXorExecute(t, regions, first, last, Protect(prot));
      InsideIffConcerns(t, first, last);
    }

    /** The pass of `mprotect` over the table. */
    method Reprotect(first: nat, last: nat, prot: set<Prot>) returns (changed: bool)
      requires Valid()
      modifies this`regions
      ensures Valid() && regions == Swept(old(regions), |old(regions)|, first, last, Protect(prot))
      ensures Conserved(old(regions), freed, regions, freed)
      ensures changed <==> exists k :: Used(old(regions), k) && old(regions)[k].value.Within(first, last)
    {
      ghost var t := regions;
      ghost var e := Protect(prot);
      changed := false;
      var k := 0;
      while k < |regions|
        invariant 0 <= k <= |regions| == |t|
        invariant regions == Swept(t, k, first, last, e)
        invariant changed <==> exists i :: Used(t, i) && i < k && t[i].value.Within(first, last)
      {
        SweptNext(t, k, first, last, e);
        if regions[k].Some? && regions[k].value.Within(first, last) {
          assert Used(t, k);
          regions := regions[k := Some(regions[k].value.(prot := prot, flags := FlagsFor(prot)))];
          changed := true;
        }
        k := k + 1;
      }
      SweptIsValid(t, k, first, last, e);
      ProtectConserves(t, k, first, last, prot, freed);
    }
  }
}
