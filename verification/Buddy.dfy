/**
 The kernel's physical page allocator (mm/src/buddy.rs): intrusive doubly linked free
 lists, one per order, with a bitmap of the pages that head a free block.

 Addresses are page numbers except where a caller passes a byte address or limit. Page 0
 is never handed out, so 0 is the "no link" value as in the source.
 */
module Buddy {
  import opened Wrappers
  import opened BuddyBlocks

  /** The first mebibyte is kept out of the pool. */
  const LOW_RESERVED_END: nat := 256

  /** The words a free block keeps at its start. */
  datatype Node = Node(next: nat, prev: nat, order: nat)

  datatype Refusal = BadOrder | Null | Misaligned | BeyondRam | Reserved | DoubleFree

  // ---- What the lists store ----

  function Link(list: seq<nat>, i: int): nat {
    if 0 <= i < |list| then list[i] else 0
  }

  ghost predicate EntryOk(mem: seq<Node>, list: seq<nat>, o: nat, i: int)
    requires 0 <= i < |list|
  {
    0 < list[i] < |mem| && mem[list[i]] == Node(Link(list, i + 1), Link(list, i - 1), o)
  }

  ghost predicate NoDup(list: seq<nat>) {
    forall i, j :: 0 <= i < j < |list| ==> list[i] != list[j]
  }

  ghost predicate ListOk(mem: seq<Node>, list: seq<nat>, o: nat, head: nat) {
    && head == Link(list, 0)
    && (forall i :: 0 <= i < |list| ==> EntryOk(mem, list, o, i))
    && NoDup(list)
  }

  /** Page p heads a free block. */
  ghost predicate IsHead(lists: seq<seq<nat>>, p: nat) {
    exists o :: 0 <= o < |lists| && p in lists[o]
  }

  ghost predicate ListsOk(heads: seq<nat>, mem: seq<Node>, bits: seq<bool>, lists: seq<seq<nat>>) {
    && |heads| == |lists| == MAX_ORDER
    && |bits| <= |mem|
    && (forall o :: 0 <= o < MAX_ORDER ==> ListOk(mem, lists[o], o, heads[o]))
    && (forall q :: 0 <= q < |bits| ==> (bits[q] <==> IsHead(lists, q)))
  }

  lemma OnListOrder(heads: seq<nat>, mem: seq<Node>, bits: seq<bool>, lists: seq<seq<nat>>, o: nat, p: nat)
    requires ListsOk(heads, mem, bits, lists) && o < MAX_ORDER && p in lists[o]
    ensures 0 < p < |mem| && mem[p].order == o
  {
    var i :| 0 <= i < |lists[o]| && lists[o][i] == p;
    assert ListOk(mem, lists[o], o, heads[o]) && EntryOk(mem, lists[o], o, i);
  }

  /** The constant-time test: the bit and the recorded order together say which list holds the page. */
  lemma BitAndOrder(heads: seq<nat>, mem: seq<Node>, bits: seq<bool>, lists: seq<seq<nat>>, o: nat, p: nat)
    requires ListsOk(heads, mem, bits, lists) && o < MAX_ORDER && p < |bits|
    ensures bits[p] && mem[p].order == o <==> p in lists[o]
  {
    if bits[p] {
      var o' :| 0 <= o' < MAX_ORDER && p in lists[o'];
      OnListOrder(heads, mem, bits, lists, o', p);
    } else {
      assert !IsHead(lists, p);
    }
    if p in lists[o] {
      OnListOrder(heads, mem, bits, lists, o, p);
    }
  }

  /** Writes outside a list's own pages leave it intact. */
  lemma ListFrame(mem: seq<Node>, mem': seq<Node>, list: seq<nat>, o: nat, head: nat)
    requires ListOk(mem, list, o, head) && |mem'| == |mem|
    requires forall i :: 0 <= i < |list| && list[i] < |mem| ==> mem'[list[i]] == mem[list[i]]
    ensures ListOk(mem', list, o, head)
  {
    forall i | 0 <= i < |list| ensures EntryOk(mem', list, o, i) {
      assert EntryOk(mem, list, o, i);
    }
  }

  function Pushed(mem: seq<Node>, o: nat, head: nat, p: nat): (mem': seq<Node>)
    requires p < |mem| && head < |mem|
    ensures |mem'| == |mem|
  {
    var m := mem[p := Node(head, 0, o)];
    if head == 0 then m else m[head := m[head].(prev := p)]
  }

  lemma PushList(mem: seq<Node>, list: seq<nat>, o: nat, head: nat, p: nat)
    requires ListOk(mem, list, o, head) && 0 < p < |mem| && p !in list
    ensures head < |mem|
    ensures ListOk(Pushed(mem, o, head, p), [p] + list, o, p)
  {
    assert list != [] ==> EntryOk(mem, list, o, 0);
    var mem', list' := Pushed(mem, o, head, p), [p] + list;
    forall i | 0 <= i < |list'| ensures EntryOk(mem', list', o, i) {
      if i > 0 {
        assert EntryOk(mem, list, o, i - 1);
        assert i > 1 ==> list[i - 1] != list[0];
      }
    }
  }

  /** Two lists that share an entry share what follows it, as far as the links were not rewritten. */
  lemma {:induction false} Retraced(mem: seq<Node>, list: seq<nat>, o: nat, head: nat,
                                    mem': seq<Node>, list': seq<nat>, o': nat, head': nat, a: nat, j: nat)
    requires ListOk(mem, list, o, head) && ListOk(mem', list', o', head') && |mem| == |mem'|
    requires j < |list| && a < |list'| && list'[a] == list[0]
    requires forall t :: 0 <= t < j && list[t] < |mem| ==> mem'[list[t]].next == mem[list[t]].next
    ensures a + j < |list'| && list'[a + j] == list[j]
  {
    if j > 0 {
      Retraced(mem, list, o, head, mem', list', o', head', a, j - 1);
      assert EntryOk(mem, list, o, j - 1) && EntryOk(mem, list, o, j) && EntryOk(mem', list', o', a + j - 1);
    }
  }

  /** Memory and head word determine the list. */
  lemma ListIsDetermined(mem: seq<Node>, list: seq<nat>, list': seq<nat>, o: nat, head: nat)
    requires ListOk(mem, list, o, head) && ListOk(mem, list', o, head)
    ensures list == list'
  {
    assert list != [] ==> EntryOk(mem, list, o, 0);
    assert list' != [] ==> EntryOk(mem, list', o, 0);
    if list != [] {
      forall j | 0 <= j < |list| ensures j < |list'| && list'[j] == list[j] {
        Retraced(mem, list, o, head, mem, list', o, head, 0, j);
      }
      assert EntryOk(mem, list, o, |list| - 1) && EntryOk(mem, list', o, |list| - 1);
      assert |list| < |list'| ==> EntryOk(mem, list', o, |list|);
    }
  }

  /** Pushing a page that is already on the list leaves memory on which no list is well linked. */
  lemma PushAgainBreaks(mem: seq<Node>, list: seq<nat>, o: nat, head: nat, p: nat, list': seq<nat>)
    requires ListOk(mem, list, o, head) && p in list
    ensures 0 < p < |mem| && head < |mem|
    ensures !ListOk(Pushed(mem, o, head, p), list', o, p)
  {
    var i :| 0 <= i < |list| && list[i] == p;
    assert EntryOk(mem, list, o, i) && EntryOk(mem, list, o, 0);
    var mem' := Pushed(mem, o, head, p);
    if ListOk(mem', list', o, p) {
      assert EntryOk(mem', list', o, 0);
      assert head != p;
      assert 1 < |list'| && list'[1] == head;
      Retraced(mem, list, o, head, mem', list', o, p, 1, i);
    }
  }

  lemma StillReached(mem: seq<Node>, list: seq<nat>, o: nat, head: nat, mem': seq<Node>, list': seq<nat>, i: nat)
    requires ListOk(mem, list, o, head) && ListOk(mem', list', o, head) && |mem| == |mem'|
    requires i < |list| && forall t :: 0 <= t < i && list[t] < |mem| ==> mem'[list[t]].next == mem[list[t]].next
    ensures list[i] < |mem| && mem'[list[i]].order == o
  {
    assert EntryOk(mem, list, o, 0);
    Retraced(mem, list, o, head, mem', list', o, head, 0, i);
    assert EntryOk(mem', list', o, i);
  }

  /** Pushing a page that heads a block of another order loses that order's list. */
  lemma PushElsewhereBreaks(mem: seq<Node>, list: seq<nat>, o: nat, head: nat, top: nat, first: nat, p: nat,
                            list': seq<nat>)
    requires ListOk(mem, list, o, head) && p in list && top != o && first < |mem|
    ensures 0 < p < |mem|
    ensures !ListOk(Pushed(mem, top, first, p), list', o, head)
  {
    var i :| 0 <= i < |list| && list[i] == p;
    assert EntryOk(mem, list, o, i) && EntryOk(mem, list, o, 0);
    var mem' := Pushed(mem, top, first, p);
    if ListOk(mem', list', o, head) {
      StillReached(mem, list, o, head, mem', list', i);
    }
  }

  function Spliced(mem: seq<Node>, next: nat, prev: nat): (mem': seq<Node>)
    requires next < |mem| && prev < |mem|
    ensures |mem'| == |mem|
  {
    var m := if prev != 0 then mem[prev := mem[prev].(next := next)] else mem;
    if next != 0 then m[next := m[next].(prev := prev)] else m
  }

  lemma SpliceList(mem: seq<Node>, list: seq<nat>, o: nat, head: nat, i: nat)
    requires ListOk(mem, list, o, head) && i < |list|
    ensures Link(list, i + 1) < |mem| && Link(list, i - 1) < |mem|
    ensures ListOk(Spliced(mem, Link(list, i + 1), Link(list, i - 1)), list[..i] + list[i + 1..], o,
                   if i > 0 then head else Link(list, 1))
  {
    assert EntryOk(mem, list, o, i);
    assert i + 1 < |list| ==> EntryOk(mem, list, o, i + 1);
    assert i > 0 ==> EntryOk(mem, list, o, i - 1);
    var mem', list' := Spliced(mem, Link(list, i + 1), Link(list, i - 1)), list[..i] + list[i + 1..];
    forall j | 0 <= j < |list'| ensures EntryOk(mem', list', o, j) {
      SpliceEntry(mem, list, o, i, j);
    }
  }

  /** One entry of the shorter list. */
  lemma SpliceEntry(mem: seq<Node>, list: seq<nat>, o: nat, i: nat, j: nat)
    requires i < |list| && j < |list| - 1 && NoDup(list) && forall k :: 0 <= k < |list| ==> EntryOk(mem, list, o, k)
    requires Link(list, i + 1) < |mem| && Link(list, i - 1) < |mem|
    ensures EntryOk(Spliced(mem, Link(list, i + 1), Link(list, i - 1)), list[..i] + list[i + 1..], o, j)
  {
    var list', j' := list[..i] + list[i + 1..], if j < i then j else j + 1;
    assert list'[j] == list[j'];
    assert EntryOk(mem, list, o, j');
    assert Link(list', j + 1) == if j + 1 < i then Link(list, j + 1) else Link(list, j + 2);
    assert Link(list', j - 1) == if j - 1 < i then Link(list, j - 1) else Link(list, j);
    assert i + 1 < |list| ==> EntryOk(mem, list, o, i + 1);
    assert i > 0 ==> EntryOk(mem, list, o, i - 1);
  }

  /** A push of a page that heads no block keeps all lists, with the page in front of its own. */
  lemma PushedIsIntact(heads: seq<nat>, mem: seq<Node>, bits: seq<bool>, lists: seq<seq<nat>>, o: nat, p: nat)
    requires ListsOk(heads, mem, bits, lists) && o < MAX_ORDER && 0 < p < |mem| && !IsHead(lists, p)
    ensures heads[o] < |mem|
    ensures ListsOk(heads[o := p], Pushed(mem, o, heads[o], p), if p < |bits| then bits[p := true] else bits,
                    lists[o := [p] + lists[o]])
  {
    assert ListOk(mem, lists[o], o, heads[o]);
    PushList(mem, lists[o], o, heads[o], p);
    var mem', bits' := Pushed(mem, o, heads[o], p), if p < |bits| then bits[p := true] else bits;
    var heads', lists' := heads[o := p], lists[o := [p] + lists[o]];
    assert lists[o] != [] ==> EntryOk(mem, lists[o], o, 0);
    forall o' | 0 <= o' < MAX_ORDER ensures ListOk(mem', lists'[o'], o', heads'[o']) {
      if o' != o {
        assert ListOk(mem, lists[o'], o', heads[o']);
        forall i | 0 <= i < |lists[o']| ensures lists[o'][i] < |mem| && mem'[lists[o'][i]] == mem[lists[o'][i]] {
          assert EntryOk(mem, lists[o'], o', i);
        }
        ListFrame(mem, mem', lists[o'], o', heads[o']);
      }
    }
    forall q | 0 <= q < |bits| ensures bits'[q] <==> IsHead(lists', q) {
      assert q in lists'[o] <==> q == p || q in lists[o];
      assert IsHead(lists', q) <==> IsHead(lists, q) || q == p by {
        if IsHead(lists, q) {
          var o' :| 0 <= o' < MAX_ORDER && q in lists[o'];
          assert q in lists'[o'];
        }
      }
    }
  }

  /** However the bitmap reads, a push of a page that already heads a block leaves no lists at all. */
  lemma PushOfHeadBreaks(heads: seq<nat>, mem: seq<Node>, bits: seq<bool>, lists: seq<seq<nat>>, o: nat, p: nat,
                         bits': seq<bool>, lists': seq<seq<nat>>)
    requires ListsOk(heads, mem, bits, lists) && o < MAX_ORDER && IsHead(lists, p)
    ensures 0 < p < |mem| && heads[o] < |mem|
    ensures !ListsOk(heads[o := p], Pushed(mem, o, heads[o], p), bits', lists')
  {
    var o' :| 0 <= o' < MAX_ORDER && p in lists[o'];
    assert ListOk(mem, lists[o], o, heads[o]) && ListOk(mem, lists[o'], o', heads[o']);
    assert lists[o] != [] ==> EntryOk(mem, lists[o], o, 0);
    OnListOrder(heads, mem, bits, lists, o', p);
    if ListsOk(heads[o := p], Pushed(mem, o, heads[o], p), bits', lists') {
      assert ListOk(Pushed(mem, o, heads[o], p), lists'[o'], o', heads[o := p][o']);
      if o' == o {
        PushAgainBreaks(mem, lists[o], o, heads[o], p, lists'[o]);
      } else {
        PushElsewhereBreaks(mem, lists[o'], o', heads[o'], o, heads[o], p, lists'[o']);
      }
    }
  }

  lemma ListsAreDetermined(heads: seq<nat>, mem: seq<Node>, bits: seq<bool>,
                           lists: seq<seq<nat>>, lists': seq<seq<nat>>)
    requires ListsOk(heads, mem, bits, lists) && ListsOk(heads, mem, bits, lists')
    ensures lists == lists'
  {
    forall o | 0 <= o < MAX_ORDER ensures lists[o] == lists'[o] {
      ListIsDetermined(mem, lists[o], lists'[o], o, heads[o]);
    }
  }

  // ---- The lists as a set of blocks ----

  ghost function Blocks(lists: seq<seq<nat>>): set<Block> {
    set o, p | 0 <= o < |lists| && p in lists[o] :: Block(Up(p, o), o)
  }

  predicate Overlaps(reserved: seq<(nat, nat)>, p: nat, size: nat) {
    exists i :: 0 <= i < |reserved| && reserved[i].0 != reserved[i].1
                && p < reserved[i].1 && reserved[i].0 < p + size
  }

  /** Registered ranges run upwards. */
  ghost predicate RangesOk(reserved: seq<(nat, nat)>) {
    forall i :: 0 <= i < |reserved| ==> reserved[i].0 <= reserved[i].1
  }

  /** Page `q` belongs to a reserved range. */
  ghost predicate InReserved(reserved: seq<(nat, nat)>, q: nat) {
    exists i :: 0 <= i < |reserved| && reserved[i].0 <= q < reserved[i].1
  }

  /** The test on the ends of ranges finds exactly the stretches that share a page with one. */
  lemma OverlapsIff(reserved: seq<(nat, nat)>, p: nat, size: nat)
    requires RangesOk(reserved) && size > 0
    ensures Overlaps(reserved, p, size) <==> exists q: nat :: p <= q < p + size && InReserved(reserved, q)
  {
    if Overlaps(reserved, p, size) {
      var i :| 0 <= i < |reserved| && reserved[i].0 != reserved[i].1 && p < reserved[i].1 && reserved[i].0 < p + size;
      var q := if p < reserved[i].0 then reserved[i].0 else p;
      assert InReserved(reserved, q);
    }
    if q: nat :| p <= q < p + size && InReserved(reserved, q) {
      var i :| 0 <= i < |reserved| && reserved[i].0 <= q < reserved[i].1;
      assert reserved[i].0 != reserved[i].1;
    }
  }

  /** A block of order o may start at page p. */
  ghost predicate Placeable(reserved: seq<(nat, nat)>, end: nat, p: nat, o: nat) {
    && 0 < p && Down(Up(p, o), o) == p
    && p + Pow2(o) <= end
    && !Overlaps(reserved, p, Pow2(o))
  }

  ghost predicate Placed(lists: seq<seq<nat>>, reserved: seq<(nat, nat)>, end: nat) {
    forall o, p :: 0 <= o < |lists| && p in lists[o] ==> Placeable(reserved, end, p, o)
  }

  lemma InBlocks(lists: seq<seq<nat>>, reserved: seq<(nat, nat)>, end: nat, b: Block)
    requires Placed(lists, reserved, end) && b.order < |lists|
    ensures b in Blocks(lists) <==> Down(b.k, b.order) in lists[b.order]
  {
    UpDown(b.k, b.order);
    if b in Blocks(lists) {
      var o, p :| 0 <= o < |lists| && p in lists[o] && b == Block(Up(p, o), o);
    }
  }

  lemma HeadIsFree(lists: seq<seq<nat>>, p: nat)
    requires IsHead(lists, p)
    ensures IsFree(Blocks(lists), p)
  {
    var o :| 0 <= o < |lists| && p in lists[o];
    assert Block(Up(p, o), o) in Blocks(lists);
  }

  lemma BlocksPush(lists: seq<seq<nat>>, o: nat, p: nat)
    requires o < |lists|
    ensures Blocks(lists[o := [p] + lists[o]]) == Blocks(lists) + {Block(Up(p, o), o)}
  {
    var lists' := lists[o := [p] + lists[o]];
    forall b ensures b in Blocks(lists') <==> b in Blocks(lists) || b == Block(Up(p, o), o) {
      if b in Blocks(lists) {
        var o', p' :| 0 <= o' < |lists| && p' in lists[o'] && b == Block(Up(p', o'), o');
        assert p' in lists'[o'];
      }
      assert p in lists'[o];
    }
  }

  lemma BlocksCut(lists: seq<seq<nat>>, reserved: seq<(nat, nat)>, end: nat, o: nat, i: nat)
    requires o < |lists| && i < |lists[o]| && NoDup(lists[o]) && Placed(lists, reserved, end)
    ensures Blocks(lists[o := lists[o][..i] + lists[o][i + 1..]]) == Blocks(lists) - {Block(Up(lists[o][i], o), o)}
    ensures Placed(lists[o := lists[o][..i] + lists[o][i + 1..]], reserved, end)
  {
    var p := lists[o][i];
    var cut := lists[o][..i] + lists[o][i + 1..];
    var lists' := lists[o := cut];
    forall q ensures q in cut <==> q in lists[o] && q != p {
      if q in lists[o] && q != p {
        var j :| 0 <= j < |lists[o]| && lists[o][j] == q;
        assert cut[if j < i then j else j - 1] == q;
      }
    }
    assert Placed(lists', reserved, end);
    forall b ensures b in Blocks(lists') <==> b in Blocks(lists) && b != Block(Up(p, o), o) {
      if b.order < |lists| {
        InBlocks(lists, reserved, end, b);
        InBlocks(lists', reserved, end, b);
        assert p in lists[o] && Placeable(reserved, end, p, o);
        UpDown(b.k, b.order);
      }
    }
  }

  /** After the splice the other lists are intact and `p` is off every list. */
  lemma UnlinkFrame(heads: seq<nat>, mem: seq<Node>, bits: seq<bool>, lists: seq<seq<nat>>, o: nat, i: nat,
                    mem': seq<Node>, lists': seq<seq<nat>>)
    requires ListsOk(heads, mem, bits, lists) && o < MAX_ORDER && i < |lists[o]|
    requires lists' == lists[o := lists[o][..i] + lists[o][i + 1..]]
    requires Link(lists[o], i + 1) < |mem| && Link(lists[o], i - 1) < |mem|
    requires mem' == Spliced(mem, Link(lists[o], i + 1), Link(lists[o], i - 1))
    ensures forall o' :: 0 <= o' < MAX_ORDER && o' != o ==> ListOk(mem', lists[o'], o', heads[o'])
    ensures forall q :: IsHead(lists', q) <==> IsHead(lists, q) && q != lists[o][i]
  {
    assert ListOk(mem, lists[o], o, heads[o]);
    assert i + 1 < |lists[o]| ==> EntryOk(mem, lists[o], o, i + 1);
    assert i > 0 ==> EntryOk(mem, lists[o], o, i - 1);
    forall o' | 0 <= o' < MAX_ORDER && o' != o ensures ListOk(mem', lists[o'], o', heads[o']) {
      assert ListOk(mem, lists[o'], o', heads[o']);
      forall j | 0 <= j < |lists[o']| ensures lists[o'][j] < |mem| && mem'[lists[o'][j]] == mem[lists[o'][j]] {
        assert EntryOk(mem, lists[o'], o', j);
      }
      ListFrame(mem, mem', lists[o'], o', heads[o']);
    }
    forall q ensures IsHead(lists', q) <==> IsHead(lists, q) && q != lists[o][i] {
      CutMembers(lists[o], i, q);
      if IsHead(lists', q) {
        var o' :| 0 <= o' < MAX_ORDER && q in lists'[o'];
        assert q in lists[o'];
        OnListOrder(heads, mem, bits, lists, o', q);
        OnListOrder(heads, mem, bits, lists, o, lists[o][i]);
      }
      if IsHead(lists, q) && q != lists[o][i] {
        var o' :| 0 <= o' < MAX_ORDER && q in lists[o'];
        assert q in lists'[o'];
      }
    }
  }

  lemma CutMembers(list: seq<nat>, i: nat, q: nat)
    requires i < |list| && NoDup(list)
    ensures q in list[..i] + list[i + 1..] <==> q in list && q != list[i]
  {
    if q in list && q != list[i] {
      var j :| 0 <= j < |list| && list[j] == q;
      assert (list[..i] + list[i + 1..])[if j < i then j else j - 1] == q;
    }
  }

  /** The upper half of the block being split: where it starts, and that it may be listed there. */
  lemma HalfPlaceable(reserved: seq<(nat, nat)>, end: nat, c: Block, s: nat)
    requires s < c.order
    requires Placeable(reserved, end, Down(c.k, c.order), c.order)
    ensures var q := Down(c.k, c.order) + Pow2(s);
            && Up(q, s) == 2 * Kept(c, s + 1).k + 1
            && Holds(Kept(c, s + 1), q)
            && Placeable(reserved, end, q, s)
  {
    var k := Kept(c, s + 1).k;
    KeptStartsAt(c, s + 1);
    DownNext(2 * k, s);
    UpDown(2 * k + 1, s);
    Pow2Mono(s + 1, c.order);
    var q := Down(c.k, c.order) + Pow2(s);
    assert Up(q, s + 1) == Up(q, s) / 2;
  }

  /** Pushing the upper half is one more split. */
  lemma HalfIsNext(lists: seq<seq<nat>>, bs: set<Block>, c: Block, s: nat, q: nat)
    requires s < c.order < MAX_ORDER == |lists|
    requires Canonical(bs) && c in bs && Blocks(lists) == Taken(bs, c, s + 1)
    requires Up(q, s) == 2 * Kept(c, s + 1).k + 1 && Holds(Kept(c, s + 1), q)
    ensures !IsHead(lists, q)
    ensures Blocks(lists[s := [q] + lists[s]]) == Taken(bs, c, s)
  {
    TakenIsCanonical(bs, c, s + 1);
    if IsHead(lists, q) {
      HeadIsFree(lists, q);
    }
    BlocksPush(lists, s, q);
    SplitStep(c, s);
    assert Taken(bs, c, s) == Taken(bs, c, s + 1) + {Block(Up(q, s), s)};
  }

  /** 2^order pages from `p` left the pool: all were free, no other page changed hands. */
  ghost predicate HandedOut(before: set<Block>, after: set<Block>, p: nat, order: nat) {
    var b := Block(Up(p, order), order);
    && 0 < p && Down(b.k, order) == p
    && RunFree(before, b)
    && forall q :: IsFree(after, q) <==> IsFree(before, q) && !Holds(b, q)
  }

  lemma TakenIsHandedOut(bs: set<Block>, c: Block, order: nat, p: nat)
    requires Canonical(bs) && c in bs && order <= c.order && 0 < p == Down(c.k, c.order)
    ensures Canonical(Taken(bs, c, order)) && HandedOut(bs, Taken(bs, c, order), p, order)
    ensures |FreeSet(Taken(bs, c, order))| == |FreeSet(bs)| - Pow2(order)
  {
    TakenIsCanonical(bs, c, order);
    CountsMove(bs, c, order);
    KeptStartsAt(c, order);
    UpDown(Kept(c, order).k, order);
  }

  predicate EndsBelow(p: nat, order: nat, limit: nat) {
    (p + Pow2(order)) * PAGE_SIZE <= limit
  }

  /** Byte `b` of physical memory lies in the 2^order pages from `p` on. */
  predicate HasByte(p: nat, order: nat, b: nat) {
    p <= b / PAGE_SIZE < p + Pow2(order)
  }

  /** Every byte of the pages lies below the limit. */
  ghost predicate BytesBelow(p: nat, order: nat, limit: nat) {
    forall b: nat :: HasByte(p, order, b) ==> b < limit
  }

  /** Comparing the end of the block with the limit tells just that. */
  lemma EndsBelowIff(p: nat, order: nat, limit: nat)
    ensures EndsBelow(p, order, limit) <==> BytesBelow(p, order, limit)
  {
    var end := (p + Pow2(order)) * PAGE_SIZE;
    if limit < end {
      assert HasByte(p, order, end - 1);
    }
  }

  /** If every listed block of a sufficient order is too high, so is every aligned free run. */
  lemma NoRunBelow(lists: seq<seq<nat>>, reserved: seq<(nat, nat)>, end: nat, order: nat, limit: nat)
    requires |lists| == MAX_ORDER && order < MAX_ORDER
    requires Placed(lists, reserved, end) && Canonical(Blocks(lists))
    requires forall o, p :: order <= o < MAX_ORDER && p in lists[o] ==> !EndsBelow(p, order, limit)
    ensures forall k :: BytesBelow(Down(k, order), order, limit) ==> !RunFree(Blocks(lists), Block(k, order))
  {
    forall k: nat | RunFree(Blocks(lists), Block(k, order)) ensures !BytesBelow(Down(k, order), order, limit) {
      EndsBelowIff(Down(k, order), order, limit);
      var c := AlignedRunIsOneBlock(Blocks(lists), Block(k, order));
      InBlocks(lists, reserved, end, c);
      WithinStarts(Block(k, order), c);
      assert !EndsBelow(Down(c.k, c.order), order, limit);
      assert Down(c.k, c.order) <= Down(k, order);
    }
  }

  /** Which check of `free` refuses the call, if any; `head` is the bitmap's answer for the block. */
  function Refused(addr: nat, order: nat, end: nat, reserved: seq<(nat, nat)>, head: bool): Option<Refusal> {
    if order >= MAX_ORDER then Some(BadOrder)
    else if addr == 0 then Some(Null)
    else if addr % (PAGE_SIZE * Pow2(order)) != 0 then Some(Misaligned)
    else if end != 0 && addr + PAGE_SIZE * Pow2(order) > end * PAGE_SIZE then Some(BeyondRam)
    else if Overlaps(reserved, addr / PAGE_SIZE, Pow2(order)) then Some(Reserved)
    else if head then Some(DoubleFree)
    else None
  }

  /** Page `q` is one of the 2^order pages at byte address `addr`. */
  predicate Named(addr: nat, order: nat, q: nat) {
    addr / PAGE_SIZE <= q < addr / PAGE_SIZE + Pow2(order)
  }

  /** What is wrong with a call of `free`, said of the pages it names. */
  ghost predicate Fault(f: Refusal, addr: nat, order: nat, end: nat, reserved: seq<(nat, nat)>, head: bool) {
    match f
    case BadOrder => order >= MAX_ORDER
    case Null => addr == 0
    case Misaligned => forall k: nat :: addr != Down(k, order) * PAGE_SIZE
    case BeyondRam => end > 0 && exists q: nat :: Named(addr, order, q) && q >= end
    case Reserved => exists q: nat :: Named(addr, order, q) && InReserved(reserved, q)
    case DoubleFree => head
  }

  /** The order of the checks. */
  function Rank(f: Refusal): nat {
    match f
    case BadOrder => 0
    case Null => 1
    case Misaligned => 2
    case BeyondRam => 3
    case Reserved => 4
    case DoubleFree => 5
  }

  lemma MisalignedIff(addr: nat, order: nat)
    ensures addr % (PAGE_SIZE * Pow2(order)) != 0 <==> forall k: nat :: addr != Down(k, order) * PAGE_SIZE
  {
    if addr % (PAGE_SIZE * Pow2(order)) == 0 {
      PagesAreAligned(addr, Pow2(order));
      AlignedIsFirst(addr / PAGE_SIZE, order);
      assert addr == Down(Up(addr / PAGE_SIZE, order), order) * PAGE_SIZE;
    }
    forall k: nat | addr == Down(k, order) * PAGE_SIZE ensures addr % (PAGE_SIZE * Pow2(order)) == 0 {
      DownIsScaling(k, order);
      BytesAreAligned(Down(k, order), k, Pow2(order));
    }
  }

  lemma BeyondIff(addr: nat, order: nat, end: nat)
    requires addr % (PAGE_SIZE * Pow2(order)) == 0
    ensures addr + PAGE_SIZE * Pow2(order) > end * PAGE_SIZE <==> exists q: nat :: Named(addr, order, q) && q >= end
  {
    PagesAreAligned(addr, Pow2(order));
    var last := addr / PAGE_SIZE + Pow2(order) - 1;
    assert Named(addr, order, last);
    assert addr + PAGE_SIZE * Pow2(order) == (last + 1) * PAGE_SIZE;
  }

  lemma ReservedIff(addr: nat, order: nat, reserved: seq<(nat, nat)>)
    requires RangesOk(reserved)
    ensures Overlaps(reserved, addr / PAGE_SIZE, Pow2(order)) <==>
            exists q: nat :: Named(addr, order, q) && InReserved(reserved, q)
  {
    OverlapsIff(reserved, addr / PAGE_SIZE, Pow2(order));
    if q: nat :| addr / PAGE_SIZE <= q < addr / PAGE_SIZE + Pow2(order) && InReserved(reserved, q) {
      assert Named(addr, order, q);
    }
  }

  /** A call is refused for the first thing that is wrong with it, and accepted if nothing is. */
  lemma RefusedIsFirstFault(addr: nat, order: nat, end: nat, reserved: seq<(nat, nat)>, head: bool)
    requires RangesOk(reserved)
    ensures match Refused(addr, order, end, reserved, head)
            case None => forall f :: !Fault(f, addr, order, end, reserved, head)
            case Some(r) =>
              && Fault(r, addr, order, end, reserved, head)
              && forall f :: Rank(f) < Rank(r) ==> !Fault(f, addr, order, end, reserved, head)
  {
    MisalignedIff(addr, order);
    ReservedIff(addr, order, reserved);
    if addr % (PAGE_SIZE * Pow2(order)) == 0 {
      BeyondIff(addr, order, end);
    }
    var refused := Refused(addr, order, end, reserved, head);
    forall f | refused.Some? && Rank(f) < Rank(refused.value) ensures !Fault(f, addr, order, end, reserved, head) {
      match f
      case BadOrder =>
      case Null =>
      case Misaligned =>
      case BeyondRam =>
      case Reserved =>
      case DoubleFree =>
    }
  }

  lemma AcceptedIff(addr: nat, order: nat, end: nat, reserved: seq<(nat, nat)>, head: bool)
    requires RangesOk(reserved)
    ensures Refused(addr, order, end, reserved, head) == None <==>
            && order < MAX_ORDER && addr > 0 && (exists k: nat :: addr == Down(k, order) * PAGE_SIZE)
            && (forall q: nat :: Named(addr, order, q) ==> (end > 0 ==> q < end) && !InReserved(reserved, q))
            && !head
  {
    MisalignedIff(addr, order);
    RefusedIsFirstFault(addr, order, end, reserved, head);
    forall f ensures Fault(f, addr, order, end, reserved, head) ==> Refused(addr, order, end, reserved, head).Some? {}
  }

  /** A call that passes the checks names a block that may be listed, if it is known or given to lie in RAM. */
  lemma AcceptedIsPlaceable(addr: nat, order: nat, end: nat, ram: nat, reserved: seq<(nat, nat)>, head: bool)
    requires Refused(addr, order, end, reserved, head) == None
    requires end <= ram && (end == 0 ==> addr / PAGE_SIZE + Pow2(order) <= ram)
    ensures addr % PAGE_SIZE == 0 && Placeable(reserved, ram, addr / PAGE_SIZE, order)
  {
    PagesAreAligned(addr, Pow2(order));
    AlignedIsFirst(addr / PAGE_SIZE, order);
  }

  lemma PagesAreAligned(addr: nat, s: nat)
    requires s > 0 && addr % (PAGE_SIZE * s) == 0
    ensures addr == PAGE_SIZE * (addr / PAGE_SIZE) && (addr / PAGE_SIZE) % s == 0
  {
    var j := WholeQuotient(addr, PAGE_SIZE * s);
    assert addr == PAGE_SIZE * (j * s);
    MultipleIsAligned(j, s);
  }

  /**
   An undetected double free: of the free block of pages 512 and 513, page 513 is freed again
   on its own. It heads no block, so every check passes, and the pool ends up overlapping.
   */
  lemma InteriorFreeIsNotDetected()
    ensures var bs, b, end := {Block(256, 1)}, Block(513, 0), 1024;
            && Canonical(bs) && Placeable([], end, 512, 1)
            && (forall c :: c in bs ==> Down(c.k, c.order) != 513)
            && Refused(0x20_1000, 0, end, [], false) == None
            && IsFree(bs, 513) && !Canonical(Merged(bs, b))
  {
    var bs, b := {Block(256, 1)}, Block(513, 0);
    assert Pow2(0) == 1 && Pow2(1) == 2 * Pow2(0);
    assert Up(512, 1) == Up(512, 0) / 2 && Up(513, 1) == Up(513, 0) / 2;
    assert Down(256, 1) == Down(512, 0);
    assert Holds(b, 513) && Holds(Block(256, 1), 513);
    FreeKeepsCanonicalIff(bs, b);
  }

  /**
   Past the bitmap's cover even a plain double free passes every check. Page 513 is on the list
   of single pages; freed again it becomes its own successor, and no lists fit the memory.
   */
  lemma UncoveredDoubleFreeIsNotDetected()
    ensures var mem: seq<Node>, heads := seq(1024, _ => Node(0, 0, 0)), seq(MAX_ORDER, o => if o == 0 then 513 else 0);
            && ListsOk(heads, mem, [], seq(MAX_ORDER, o => if o == 0 then [513] else []))
            && Refused(0x20_1000, 0, 1024, [], false) == None
            && Pushed(mem, 0, 513, 513)[513] == Node(513, 513, 0)
            && forall lists :: !ListsOk(heads, Pushed(mem, 0, 513, 513), [], lists)
  {
    var mem, heads := seq(1024, _ => Node(0, 0, 0)), seq(MAX_ORDER, o => if o == 0 then 513 else 0);
    var lists := seq(MAX_ORDER, o => if o == 0 then [513] else []);
    assert EntryOk(mem, lists[0], 0, 0);
    assert Pow2(0) == 1 && 513 in lists[0];
    assert heads[0 := 513] == heads;
    forall ls ensures !ListsOk(heads, Pushed(mem, 0, 513, 513), [], ls) {
      PushOfHeadBreaks(heads, mem, [], lists, 0, 513, [], ls);
    }
  }

  /** The address with the bit of the block size flipped. */
  function BuddyPage(p: nat, o: nat): int {
    if Up(p, o) % 2 == 0 then p + Pow2(o) else p - Pow2(o)
  }

  lemma BuddyStarts(p: nat, o: nat)
    requires Down(Up(p, o), o) == p
    ensures BuddyPage(p, o) == Down(Buddy(Block(Up(p, o), o)).k, o)
    ensures var m := if p < BuddyPage(p, o) then p else BuddyPage(p, o);
            m >= 0 && Block(Up(m, o + 1), o + 1) == Parent(Block(Up(p, o), o)) && Down(Up(m, o + 1), o + 1) == m
  {
    var b := Block(Up(p, o), o);
    DownNext(2 * (b.k / 2), o);
    UpDown(b.k / 2, o + 1);
  }

  /** Merging with a listed buddy gives a block that may be listed. */
  lemma MergedPlaceable(reserved: seq<(nat, nat)>, end: nat, p: nat, q: nat, o: nat)
    requires RangesOk(reserved)
    requires Placeable(reserved, end, p, o) && Placeable(reserved, end, q, o) && q == BuddyPage(p, o)
    ensures Placeable(reserved, end, if p < q then p else q, o + 1)
  {
    BuddyStarts(p, o);
    var m := if p < q then p else q;
    assert Pow2(o + 1) == 2 * Pow2(o);
    forall i | 0 <= i < |reserved| && reserved[i].0 != reserved[i].1 && m < reserved[i].1
      ensures reserved[i].0 >= m + Pow2(o + 1)
    {
      assert !(p < reserved[i].1 && reserved[i].0 < p + Pow2(o));
      assert !(q < reserved[i].1 && reserved[i].0 < q + Pow2(o));
    }
  }

  // ---- The boot memory map ----

  /** A region of the boot memory map, in bytes. */
  datatype Region = Region(base: nat, length: nat, available: bool) {
    function Start(): nat {
      var p := (base + PAGE_SIZE - 1) / PAGE_SIZE;
      if p < LOW_RESERVED_END then LOW_RESERVED_END else p
    }

    function End(): nat {
      (base + length) / PAGE_SIZE
    }

    /** Page `q` may be used: all its bytes are in the region, and it is not in the first mebibyte. */
    ghost predicate Has(q: nat) {
      available && q * PAGE_SIZE >= 0x10_0000 && forall b: nat :: HasByte(q, 0, b) ==> base <= b < base + length
    }

    /** Rounding the ends of the region inwards leaves exactly its whole pages. */
    lemma HasIff(q: nat)
      ensures Has(q) <==> available && Start() <= q < End()
    {
      var lo, hi := q * PAGE_SIZE, q * PAGE_SIZE + PAGE_SIZE - 1;
      assert HasByte(q, 0, lo) && HasByte(q, 0, hi);
    }
  }

  ghost predicate Usable(regions: seq<Region>, reserved: seq<(nat, nat)>, q: nat) {
    !InReserved(reserved, q) && exists i :: 0 <= i < |regions| && regions[i].Has(q)
  }

  function FloorLog2(n: nat): (e: nat)
    requires n >= 1
    ensures Pow2(e) <= n < 2 * Pow2(e)
  {
    if n == 1 then 0 else 1 + FloorLog2(n / 2)
  }

  /** A block clear of the reserved ranges is clear of them page by page. */
  lemma ClearByPage(reserved: seq<(nat, nat)>, p: nat, size: nat, q: nat)
    requires RangesOk(reserved) && !Overlaps(reserved, p, size) && p <= q < p + size
    ensures !InReserved(reserved, q)
  {
    OverlapsIff(reserved, p, size);
  }

  lemma PlaceableIsAccepted(reserved: seq<(nat, nat)>, end: nat, p: nat, o: nat)
    requires Placeable(reserved, end, p, o) && o < MAX_ORDER
    ensures Refused(p * PAGE_SIZE, o, end, reserved, false) == None
  {
    DownIsScaling(Up(p, o), o);
    BytesAreAligned(p, Up(p, o), Pow2(o));
  }

  lemma BytesAreAligned(p: nat, k: nat, s: nat)
    requires s > 0 && p == k * s
    ensures (p * PAGE_SIZE) % (PAGE_SIZE * s) == 0
  {
    assert p * PAGE_SIZE == k * (PAGE_SIZE * s);
    MultipleIsAligned(k, PAGE_SIZE * s);
  }

  /** The pages [lo, hi) outside the reserved ranges joined the pool. */
  ghost predicate Added(before: set<Block>, after: set<Block>, reserved: seq<(nat, nat)>, lo: nat, hi: nat) {
    forall q: nat :: IsFree(after, q) <==> IsFree(before, q) || (lo <= q < hi && !InReserved(reserved, q))
  }

  lemma MergedIsAdded(bs: set<Block>, reserved: seq<(nat, nat)>, end: nat, p: nat, o: nat)
    requires RangesOk(reserved) && Placeable(reserved, end, p, o) && o < MAX_ORDER
    ensures Added(bs, Merged(bs, Block(Up(p, o), o)), reserved, p, p + Pow2(o))
  {
    var b := Block(Up(p, o), o);
    MergedPages(bs, b);
    forall q: nat ensures Holds(b, q) <==> p <= q < p + Pow2(o) && !InReserved(reserved, q) {
      HoldsIsInterval(b, q);
      if p <= q < p + Pow2(o) {
        ClearByPage(reserved, p, Pow2(o), q);
      }
    }
  }

  lemma NotFreeIsAllocated(bs: set<Block>, p: nat, o: nat)
    requires Down(Up(p, o), o) == p && forall q :: p <= q < p + Pow2(o) ==> !IsFree(bs, q)
    ensures Allocated(bs, Block(Up(p, o), o))
  {
    var b := Block(Up(p, o), o);
    forall q: nat | Holds(b, q) ensures !IsFree(bs, q) {
      HoldsIsInterval(b, q);
    }
  }

  /** The free pages are exactly the usable ones. */
  ghost predicate FreeAreUsable(bs: set<Block>, regions: seq<Region>, reserved: seq<(nat, nat)>) {
    forall q: nat :: IsFree(bs, q) <==> Usable(regions, reserved, q)
  }

  lemma NothingUsable(reserved: seq<(nat, nat)>)
    ensures FreeAreUsable({}, [], reserved)
  {}

  /** A region that overlaps none before it holds no free page yet. */
  lemma NoneUsableYet(bs: set<Block>, regions: seq<Region>, reserved: seq<(nat, nat)>, n: nat)
    requires n < |regions| && FreeAreUsable(bs, regions[..n], reserved)
    requires forall i, j, q :: 0 <= i < j < |regions| ==> !(regions[i].Has(q) && regions[j].Has(q))
    ensures forall q: nat :: regions[n].Has(q) ==> !IsFree(bs, q)
  {
    forall q: nat | IsFree(bs, q) ensures !regions[n].Has(q) {
      assert Usable(regions[..n], reserved, q);
      var i :| 0 <= i < n && regions[..n][i].Has(q);
      assert regions[i].Has(q);
    }
  }

  lemma UsableStep(regions: seq<Region>, reserved: seq<(nat, nat)>, n: nat)
    requires n < |regions|
    ensures forall q: nat :: Usable(regions[..n + 1], reserved, q) <==>
                             Usable(regions[..n], reserved, q) || (regions[n].Has(q) && !InReserved(reserved, q))
  {
    forall q: nat
      ensures Usable(regions[..n + 1], reserved, q) <==>
              Usable(regions[..n], reserved, q) || (regions[n].Has(q) && !InReserved(reserved, q))
    {
      var longer, shorter := regions[..n + 1], regions[..n];
      if Usable(shorter, reserved, q) {
        var i :| 0 <= i < n && shorter[i].Has(q);
        assert longer[i].Has(q);
      }
      assert longer[n] == regions[n];
      if Usable(longer, reserved, q) {
        var i :| 0 <= i < n + 1 && longer[i].Has(q);
        assert i < n ==> shorter[i].Has(q);
      }
    }
  }

  /** The pages of one more region joined the pool. */
  ghost predicate Joined(bs: set<Block>, bs': set<Block>, region: Region, reserved: seq<(nat, nat)>) {
    forall q: nat :: IsFree(bs', q) <==> IsFree(bs, q) || (region.Has(q) && !InReserved(reserved, q))
  }

  lemma JoinedIsUsable(bs: set<Block>, bs': set<Block>, regions: seq<Region>, reserved: seq<(nat, nat)>, n: nat)
    requires n < |regions| && FreeAreUsable(bs, regions[..n], reserved) && Joined(bs, bs', regions[n], reserved)
    ensures FreeAreUsable(bs', regions[..n + 1], reserved)
  {
    UsableStep(regions, reserved, n);
  }

  class Allocator {
    /** Per order, the first block's page; 0 for an empty list. */
    var heads: seq<nat>
    /** The link words at the start of every page. */
    var mem: seq<Node>
    /** The free-head bitmap, which covers the pages below |bits|. */
    var bits: seq<bool>
    /** One past the highest page known to be RAM; 0 before any is. */
    var physEnd: nat
    var freePages: nat
    const reserved: seq<(nat, nat)>

    ghost var lists: seq<seq<nat>>

    /** The linked structure is intact, and every block lies where a block may lie. */
    ghost predicate Intact()
      reads this
    {
      && ListsOk(heads, mem, bits, lists)
      && RangesOk(reserved) && physEnd <= |mem|
      && Placed(lists, reserved, |mem|)
    }

    ghost function Pool(): set<Block>
      reads this
    {
      Blocks(lists)
    }

    ghost predicate Valid()
      reads this
    {
      Intact() && Canonical(Pool()) && freePages == |FreeSet(Pool())|
    }

    /** `pages` pages of RAM, none of them free yet; the bitmap covers the first `cover`. */
    constructor (pages: nat, cover: nat, reserved: seq<(nat, nat)>)
      requires cover <= pages && RangesOk(reserved)
      ensures Valid() && Pool() == {} && |mem| == pages && |bits| == cover && physEnd == 0
      ensures this.reserved == reserved
    {
      heads := seq(MAX_ORDER, _ => 0);
      mem := seq(pages, _ => Node(0, 0, 0));
      bits := seq(cover, _ => false);
      physEnd, freePages := 0, 0;
      this.reserved := reserved;
      lists := seq(MAX_ORDER, _ => []);
      new;
      assert FreeSet({}) == {};
    }

    /** No lists at all account for the words in memory. */
    ghost predicate Corrupt()
      reads this
    {
      forall ls :: !ListsOk(heads, mem, bits, ls)
    }

    /** Push page `p` onto the front of the list of order `o`; if it heads a block already, nothing is left intact. */
    method PushFront(o: nat, p: nat)
      requires Intact() && o < MAX_ORDER && Placeable(reserved, |mem|, p, o)
      modifies `heads, `mem, `bits, `lists
      ensures |mem| == old(|mem|) && |bits| == old(|bits|)
      ensures lists == old(lists)[o := [p] + old(lists)[o]]
      ensures !old(IsHead(lists, p)) ==> Intact()
      ensures old(IsHead(lists, p)) ==> Corrupt()
    {
      var head := heads[o];
      assert ListOk(mem, lists[o], o, head);
      assert lists[o] != [] ==> EntryOk(mem, lists[o], o, 0);
      mem := Pushed(mem, o, head, p);
      if p < |bits| {
        bits := bits[p := true];
      }
      heads := heads[o := p];
      lists := lists[o := [p] + lists[o]];
      if old(IsHead(lists, p)) {
        forall ls ensures !ListsOk(heads, mem, bits, ls) {
          PushOfHeadBreaks(old(heads), old(mem), old(bits), old(lists), o, p, bits, ls);
        }
      } else {
        PushedIsIntact(old(heads), old(mem), old(bits), old(lists), o, p);
      }
    }

    /** Unlink page `p`, known to be the block at position `i` of list `o`, through its own links. */
    method Unlink(o: nat, p: nat, ghost i: nat)
      requires Intact() && o < MAX_ORDER && i < |lists[o]| && lists[o][i] == p
      modifies `heads, `mem, `bits, `lists
      ensures Intact() && |mem| == old(|mem|) && |bits| == old(|bits|)
      ensures lists == old(lists)[o := old(lists)[o][..i] + old(lists)[o][i + 1..]]
      ensures Pool() == old(Pool()) - {Block(Up(p, o), o)}
      ensures forall q :: IsHead(lists, q) <==> IsHead(old(lists), q) && q != p
    {
      assert ListOk(mem, lists[o], o, heads[o]);
      assert EntryOk(mem, lists[o], o, i);
      SpliceList(mem, lists[o], o, heads[o], i);
      BlocksCut(lists, reserved, |mem|, o, i);
      var next, prev := mem[p].next, mem[p].prev;
      assert i > 0 ==> EntryOk(mem, lists[o], o, i - 1);
      if prev == 0 {
        heads := heads[o := next];
      }
      mem := Spliced(mem, next, prev);
      if p < |bits| {
        bits := bits[p := false];
      }
      lists := lists[o := lists[o][..i] + lists[o][i + 1..]];
      UnlinkFrame(old(heads), old(mem), old(bits), old(lists), o, i, mem, lists);
    }

    /**
     If `target` heads a free block of exactly order `o`, unlink it: through the bitmap where
     that covers `target`, by walking the list elsewhere.
     */
    method TryRemove(o: nat, target: nat) returns (ok: bool)
      requires Intact() && o < MAX_ORDER
      modifies `heads, `mem, `bits, `lists
      ensures Intact() && |mem| == old(|mem|) && |bits| == old(|bits|)
      ensures ok <==> target in old(lists)[o]
      ensures !ok ==> lists == old(lists)
      ensures ok ==> Pool() == old(Pool()) - {Block(Up(target, o), o)}
      ensures forall q :: IsHead(lists, q) ==> IsHead(old(lists), q) && (ok ==> q != target)
    {
      assert ListOk(mem, lists[o], o, heads[o]);
      ghost var list := lists[o];
      if target < |bits| {
        BitAndOrder(heads, mem, bits, lists, o, target);
        if !bits[target] || mem[target].order != o {
          return false;
        }
        ghost var i :| 0 <= i < |list| && list[i] == target;
        Unlink(o, target, i);
        return true;
      }
      var cur := heads[o];
      ghost var i := 0;
      while cur != 0
        invariant 0 <= i <= |list| && cur == Link(list, i)
        invariant target !in list[..i]
        decreases |list| - i
      {
        assert EntryOk(mem, list, o, i);
        if cur == target {
          Unlink(o, target, i);
          return true;
        }
        cur, i := mem[cur].next, i + 1;
      }
      assert i < |list| ==> EntryOk(mem, list, o, i);
      assert list[..i] == list;
      return false;
    }

    /** Split a block just unlinked at page `p` of order `from`, pushing each upper half. */
    method SplitDown(p: nat, from: nat, order: nat, ghost bs: set<Block>)
      requires Intact() && order <= from < MAX_ORDER
      requires Placeable(reserved, |mem|, p, from)
      requires Canonical(bs) && Block(Up(p, from), from) in bs
      requires Pool() == bs - {Block(Up(p, from), from)}
      modifies `heads, `mem, `bits, `lists
      ensures Intact() && |mem| == old(|mem|) && |bits| == old(|bits|)
      ensures Pool() == Taken(bs, Block(Up(p, from), from), order)
    {
      hide RangesOk, IsHead, Overlaps;
      ghost var c := Block(Up(p, from), from);
      var split := from;
      while split > order
        invariant order <= split <= from
        invariant Intact() && |mem| == old(|mem|) && |bits| == old(|bits|)
        invariant Pool() == Taken(bs, c, split)
      {
        split := split - 1;
        HalfPlaceable(reserved, |mem|, c, split);
        HalfIsNext(lists, bs, c, split, p + Pow2(split));
        PushFront(split, p + Pow2(split));
      }
    }

    /** Hand out the low end of the block at page `p`, the entry `i` of list `o`. */
    method TakeFrom(o: nat, p: nat, order: nat, ghost i: nat)
      requires Valid() && order <= o < MAX_ORDER && i < |lists[o]| && lists[o][i] == p
      modifies `heads, `mem, `bits, `lists, `freePages
      ensures Valid() && |mem| == old(|mem|) && |bits| == old(|bits|)
      ensures HandedOut(old(Pool()), Pool(), p, order)
    {
      ghost var bs, c := Pool(), Block(Up(p, o), o);
      assert p in lists[o] && Placeable(reserved, |mem|, p, o);
      assert c in bs;
      Unlink(o, p, i);
      SplitDown(p, o, order, bs);
      TakenIsHandedOut(bs, c, order, p);
      freePages := freePages - Pow2(order);
    }

    /**
     Allocate 2^order contiguous pages from the first list, upwards from `order`, that is not
     empty. Fails exactly when the order is out of range or no naturally aligned run of
     2^order pages is free.
     */
    method Alloc(order: nat) returns (r: Option<nat>)
      requires Valid()
      modifies `heads, `mem, `bits, `lists, `freePages
      ensures Valid() && |mem| == old(|mem|) && |bits| == old(|bits|)
      ensures r.None? <==> order >= MAX_ORDER || forall k :: !RunFree(old(Pool()), Block(k, order))
      ensures r.None? ==> lists == old(lists)
      ensures r.Some? ==> HandedOut(old(Pool()), Pool(), r.value, order)
      ensures r.Some? ==> exists o :: && order <= o < MAX_ORDER && old(lists)[o] != []
                                      && r.value == old(lists)[o][0]
                                      && forall o' :: order <= o' < o ==> old(lists)[o'] == []
    {
      if order >= MAX_ORDER {
        return None;
      }
      var o := order;
      while o < MAX_ORDER
        invariant order <= o <= MAX_ORDER
        invariant forall o' :: order <= o' < o ==> lists[o'] == []
      {
        assert ListOk(mem, lists[o], o, heads[o]);
        var p := heads[o];
        if p != 0 {
          TakeFrom(o, p, order, 0);
          return Some(p);
        }
        assert lists[o] != [] ==> EntryOk(mem, lists[o], o, 0);
        o := o + 1;
      }
      forall k: nat ensures !RunFree(Pool(), Block(k, order)) {
        NoRunBelow(lists, reserved, |mem|, order, (Down(k, order) + Pow2(order)) * PAGE_SIZE);
      }
      return None;
    }

    /**
     Allocate 2^order contiguous pages that end at or below byte address `limit`. Fails
     exactly when no naturally aligned run of 2^order free pages ends there.
     */
    method AllocBelow(order: nat, limit: nat) returns (r: Option<nat>)
      requires Valid()
      modifies `heads, `mem, `bits, `lists, `freePages
      ensures Valid() && |mem| == old(|mem|) && |bits| == old(|bits|)
      ensures r.None? <==> order >= MAX_ORDER ||
                           forall k :: BytesBelow(Down(k, order), order, limit) ==>
                                         !RunFree(old(Pool()), Block(k, order))
      ensures r.None? ==> lists == old(lists)
      ensures r.Some? ==> HandedOut(old(Pool()), Pool(), r.value, order) && BytesBelow(r.value, order, limit)
    {
      if order >= MAX_ORDER {
        return None;
      }
      var o := order;
      while o < MAX_ORDER
        invariant order <= o <= MAX_ORDER && Valid() && lists == old(lists)
        invariant |mem| == old(|mem|) && |bits| == old(|bits|)
        invariant forall o', p :: order <= o' < o && p in lists[o'] ==> !EndsBelow(p, order, limit)
      {
        assert ListOk(mem, lists[o], o, heads[o]);
        var p := heads[o];
        ghost var i := 0;
        while p != 0
          invariant 0 <= i <= |lists[o]| && p == Link(lists[o], i)
          invariant forall j :: 0 <= j < i ==> !EndsBelow(lists[o][j], order, limit)
          decreases |lists[o]| - i
        {
          assert EntryOk(mem, lists[o], o, i);
          if EndsBelow(p, order, limit) {
            EndsBelowIff(p, order, limit);
            TakeFrom(o, p, order, i);
            return Some(p);
          }
          p, i := mem[p].next, i + 1;
        }
        assert i < |lists[o]| ==> EntryOk(mem, lists[o], o, i);
        o := o + 1;
      }
      NoRunBelow(lists, reserved, |mem|, order, limit);
      return None;
    }

    /** Unlink the buddy of the block at `p` if it is free and clear of the reserved ranges; both then start at `m`. */
    method TakeBuddy(p: nat, o: nat) returns (ok: bool, m: nat)
      requires Intact() && o + 1 < MAX_ORDER && Placeable(reserved, |mem|, p, o)
      modifies `heads, `mem, `bits, `lists
      ensures Intact() && |mem| == old(|mem|) && |bits| == old(|bits|)
      ensures ok <==> Buddy(Block(Up(p, o), o)) in old(Pool())
      ensures !ok ==> lists == old(lists)
      ensures ok ==> && Placeable(reserved, |mem|, m, o + 1)
                     && (IsHead(lists, m) ==> old(IsHead(lists, p)))
                     && Merged(Pool(), Block(Up(m, o + 1), o + 1)) == Merged(old(Pool()), Block(Up(p, o), o))
    {
      BuddyStarts(p, o);
      var buddy := BuddyPage(p, o);
      ghost var c := Block(Up(p, o), o);
      InBlocks(lists, reserved, |mem|, Buddy(c));
      assert buddy in lists[o] ==> Placeable(reserved, |mem|, buddy, o);
      m := if p < buddy then p else buddy;
      if Overlaps(reserved, buddy, Pow2(o)) {
        return false, m;
      }
      ok := TryRemove(o, buddy);
      if ok {
        MergedPlaceable(reserved, |mem|, p, buddy, o);
        MergedStep(old(Pool()), c);
      }
    }

    /** The merge loop of `free`: unlink the buddy as often as that is free. */
    method Merge(first: nat, order: nat) returns (p: nat, o: nat)
      requires Intact() && order < MAX_ORDER
      requires Placeable(reserved, |mem|, first, order)
      modifies `heads, `mem, `bits, `lists
      ensures Intact() && |mem| == old(|mem|) && |bits| == old(|bits|)
      ensures o < MAX_ORDER && Placeable(reserved, |mem|, p, o)
      ensures Pool() + {Block(Up(p, o), o)} == Merged(old(Pool()), Block(Up(first, order), order))
      ensures IsHead(lists, p) ==> old(IsHead(lists, first))
      ensures old(Coalesced(Pool()) && Block(Up(first, order), order) in Pool()) ==>
                p == first && o == order && lists == old(lists)
    {
      hide Placeable, ListsOk, Placed, RangesOk, Up, Blocks, IsHead;
      p, o := first, order;
      ghost var b := Block(Up(first, order), order);
      ghost var listed := Coalesced(Pool()) && b in Pool();
      while o + 1 < MAX_ORDER
        invariant order <= o < MAX_ORDER
        invariant Intact() && |mem| == old(|mem|) && |bits| == old(|bits|)
        invariant Placeable(reserved, |mem|, p, o)
        invariant IsHead(lists, p) ==> old(IsHead(lists, first))
        invariant listed ==> p == first && o == order && lists == old(lists)
        invariant Merged(Pool(), Block(Up(p, o), o)) == Merged(old(Pool()), b)
      {
        var ok, m := TakeBuddy(p, o);
        if !ok {
          break;
        }
        p, o := m, o + 1;
      }
    }

    /**
     List the block, merged. A block whose first page heads a free one may corrupt the lists;
     one that is itself free does.
     */
    method MergeAndPush(first: nat, order: nat)
      requires Intact() && order < MAX_ORDER
      requires Placeable(reserved, |mem|, first, order)
      modifies `heads, `mem, `bits, `lists
      ensures |mem| == old(|mem|) && |bits| == old(|bits|)
      ensures Corrupt() || (Intact() && Pool() == Merged(old(Pool()), Block(Up(first, order), order)))
      ensures !old(IsHead(lists, first)) ==> Intact()
      ensures old(Coalesced(Pool()) && Block(Up(first, order), order) in Pool()) ==> Corrupt()
    {
      InBlocks(lists, reserved, |mem|, Block(Up(first, order), order));
      var p, o := Merge(first, order);
      BlocksPush(lists, o, p);
      PushFront(o, p);
    }

    /** Lists account for the words in memory and form a canonical pool. */
    ghost predicate Sound()
      reads this
    {
      exists ls :: ListsOk(heads, mem, bits, ls) && Canonical(Blocks(ls))
    }

    /**
     Free 2^order pages at byte address `addr`, merging with the buddy while it is free. Before any
     region is known the bound of RAM is not checked, and the caller has to name RAM. A refused
     call changes nothing. For every accepted one the allocator is valid afterwards exactly when
     the pages were all allocated, and otherwise no choice of lists would make it so. Only a block
     whose first page heads a free block past the bitmap's cover gets as far as harming the links.
     */
    method Free(addr: nat, order: nat) returns (refused: Option<Refusal>)
      requires Valid() && (physEnd == 0 ==> addr / PAGE_SIZE + Pow2(order) <= |mem|)
      modifies `heads, `mem, `bits, `lists, `freePages
      ensures |mem| == old(|mem|) && |bits| == old(|bits|)
      ensures var p := addr / PAGE_SIZE;
              refused == Refused(addr, order, physEnd, reserved, p < |bits| && old(IsHead(lists, p)))
      ensures refused.None? <==>
              && order < MAX_ORDER && addr > 0 && (exists k: nat :: addr == Down(k, order) * PAGE_SIZE)
              && (forall q: nat :: Named(addr, order, q) ==>
                    (physEnd > 0 ==> q < physEnd) && !InReserved(reserved, q))
              && !(addr / PAGE_SIZE < |bits| && old(IsHead(lists, addr / PAGE_SIZE)))
      ensures refused.Some? ==> Valid() && lists == old(lists)
      ensures refused.None? && Corrupt() ==> addr / PAGE_SIZE >= |bits|
      ensures refused.None? ==>
                var b := Block(Up(addr / PAGE_SIZE, order), order);
                && freePages == old(freePages) + Pow2(order)
                && (Valid() <==> Allocated(old(Pool()), b))
                && (Sound() <==> Allocated(old(Pool()), b))
                && (Corrupt() || (Intact() && Pool() == Merged(old(Pool()), b)))
                && (!old(IsHead(lists, addr / PAGE_SIZE)) ==> Intact())
    {
      var p: nat := addr / PAGE_SIZE;
      var head := p < |bits| && bits[p];
      refused := Refused(addr, order, physEnd, reserved, head);
      AcceptedIff(addr, order, physEnd, reserved, head);
      if refused.Some? {
        return;
      }
      AcceptedIsPlaceable(addr, order, physEnd, |mem|, reserved, head);
      freePages := freePages + Pow2(order);
      ghost var bs, b := Pool(), Block(Up(p, order), order);
      if IsHead(lists, p) {
        HeadIsFree(lists, p);
      }
      MergeAndPush(p, order);
      FreedIsSoundIff(bs, b);
    }

    /** What the pool is worth after a block was merged in. */
    lemma FreedIsSoundIff(bs: set<Block>, b: Block)
      requires Canonical(bs) && b.order < MAX_ORDER
      requires Corrupt() || (Intact() && Pool() == Merged(bs, b))
      requires b in bs ==> Corrupt()
      requires Corrupt() ==> !Allocated(bs, b)
      ensures Sound() <==> Allocated(bs, b)
      ensures Canonical(Pool()) && Intact() ==> Allocated(bs, b)
      ensures Allocated(bs, b) ==> Intact() && Canonical(Pool()) && |FreeSet(Pool())| == |FreeSet(bs)| + Pow2(b.order)
    {
      if Allocated(bs, b) {
        MergedIsCanonical(bs, b);
        CountsReturn(bs, b);
      } else if Intact() {
        var q :| Holds(b, q) && IsFree(bs, q);
        var c :| c in bs && Holds(c, q);
        if b !in bs {
          OverlapBreaksDisjoint(bs, b, c, q);
        }
        forall ls | ListsOk(heads, mem, bits, ls) ensures !Canonical(Blocks(ls)) {
          ListsAreDetermined(heads, mem, bits, lists, ls);
        }
      }
    }

    /** The order `init_from_map` picks: bounded by the room left, the alignment and the reserved ranges. */
    method ChooseOrder(p: nat, end: nat) returns (order: nat)
      requires 0 < p < end && !Overlaps(reserved, p, 1)
      ensures order < MAX_ORDER && Placeable(reserved, end, p, order)
    {
      var room, zeros := FloorLog2(end - p), TrailingZeros(p);
      order := if room < MAX_ORDER then room else MAX_ORDER - 1;
      order := if zeros < order then zeros else order;
      Pow2Mono(order, room);
      AlignedBelow(p, zeros, order);
      while order > 0 && Overlaps(reserved, p, Pow2(order))
        invariant order < MAX_ORDER && p + Pow2(order) <= end && Down(Up(p, order), order) == p
      {
        AlignedBelow(p, order, order - 1);
        order := order - 1;
      }
    }

    /** Hand the pages [start, end) to the pool, the largest aligned block each time. */
    method AddRegion(start: nat, end: nat)
      requires Valid() && 0 < start && physEnd > 0 && end <= physEnd
      requires forall q :: start <= q < end ==> !IsFree(Pool(), q)
      modifies `heads, `mem, `bits, `lists, `freePages
      ensures Valid() && |mem| == old(|mem|) && |bits| == old(|bits|)
      ensures Added(old(Pool()), Pool(), reserved, start, end)
    {
      var p := start;
      while p < end
        invariant start <= p && (p <= end || p == start)
        invariant Valid() && |mem| == old(|mem|) && |bits| == old(|bits|)
        invariant Added(old(Pool()), Pool(), reserved, start, p)
      {
        OverlapsIff(reserved, p, 1);
        if Overlaps(reserved, p, 1) {
          p := p + 1;
        } else {
          var order := ChooseOrder(p, end);
          AddBlock(p, order);
          p := p + Pow2(order);
        }
      }
    }

    method AddBlock(p: nat, order: nat)
      requires Valid() && physEnd > 0 && order < MAX_ORDER
      requires Placeable(reserved, physEnd, p, order)
      requires forall q :: p <= q < p + Pow2(order) ==> !IsFree(Pool(), q)
      modifies `heads, `mem, `bits, `lists, `freePages
      ensures Valid() && |mem| == old(|mem|) && |bits| == old(|bits|)
      ensures Added(old(Pool()), Pool(), reserved, p, p + Pow2(order))
    {
      ghost var bs, b := Pool(), Block(Up(p, order), order);
      NotFreeIsAllocated(bs, p, order);
      if IsHead(lists, p) {
        HeadIsFree(lists, p);
      }
      PlaceableIsAccepted(reserved, physEnd, p, order);
      MergedIsAdded(bs, reserved, physEnd, p, order);
      var refused := Free(p * PAGE_SIZE, order);
    }

    /**
     Fill an empty allocator from the boot memory map. Afterwards the free pages are exactly
     those of the available regions above the first mebibyte and outside the reserved ranges.
     */
    method InitFromMap(regions: seq<Region>)
      requires Valid() && Pool() == {} && physEnd == 0
      requires forall i :: 0 <= i < |regions| && regions[i].available ==> regions[i].End() <= |mem|
      requires forall i, j, q :: 0 <= i < j < |regions| ==> !(regions[i].Has(q) && regions[j].Has(q))
      modifies this
      ensures Valid() && |mem| == old(|mem|) && |bits| == old(|bits|)
      ensures FreeAreUsable(Pool(), regions, reserved)
    {
      hide FreeAreUsable, Intact, Canonical;
      NothingUsable(reserved);
      assert regions[..0] == [];
      var n := 0;
      while n < |regions|
        invariant 0 <= n <= |regions|
        invariant Valid() && |mem| == old(|mem|) && |bits| == old(|bits|)
        invariant FreeAreUsable(Pool(), regions[..n], reserved)
      {
        NoneUsableYet(Pool(), regions, reserved, n);
        ghost var bs := Pool();
        InitRegion(regions[n]);
        JoinedIsUsable(bs, Pool(), regions, reserved, n);
        n := n + 1;
      }
      assert regions[..n] == regions;
    }

    /** One region of the map. */
    method InitRegion(region: Region)
      requires Valid() && (region.available ==> region.End() <= |mem|)
      requires forall q: nat :: region.Has(q) ==> !IsFree(Pool(), q)
      modifies `heads, `mem, `bits, `lists, `freePages, `physEnd
      ensures Valid() && |mem| == old(|mem|) && |bits| == old(|bits|)
      ensures Joined(old(Pool()), Pool(), region, reserved)
    {
      forall q: nat ensures region.Has(q) <==> region.available && region.Start() <= q < region.End() {
        region.HasIff(q);
      }
      if region.available && region.Start() < region.End() {
        if region.End() > physEnd {
          physEnd := region.End();
        }
        AddRegion(region.Start(), region.End());
      }
    }
  }
}
