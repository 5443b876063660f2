/**
 Cursor-position probes in the serial stream. The session pump counts them in the whole
 transcript; the other pumps count them in each chunk.
 */
module Probes {
  import opened Bytes

  /** ESC [ 6 n */
  const PROBE: seq<byte> := [27, 91, 54, 110]
  /** ESC [ 24 ; 1 R */
  const REPLY: seq<byte> := [27, 91, 50, 52, 59, 49, 82]

  lemma TextsOfProbes()
    ensures Says(PROBE, "\U{1B}[6n") && Says(REPLY, "\U{1B}[24;1R")
  {}

  /** Occurrences as `bytes.count` counts them: left to right, none overlapping. */
  function Count(t: seq<byte>): nat {
    if |t| < 4 then 0
    else if t[..4] == PROBE then 1 + Count(t[4..])
    else Count(t[1..])
  }

  predicate ProbeAt(t: seq<byte>, i: nat) {
    i + 4 <= |t| && t[i..i + 4] == PROBE
  }

  ghost function Found(t: seq<byte>): set<nat> {
    set i | 0 <= i < |t| && ProbeAt(t, i)
  }

  ghost function Shifted(s: set<nat>, n: nat): set<nat> {
    set i | i in s :: i + n
  }

  lemma {:induction false} ShiftedSize(s: set<nat>, n: nat)
    ensures |Shifted(s, n)| == |s|
  {
    if s != {} {
      var x :| x in s;
      ShiftedSize(s - {x}, n);
      assert forall y :: y in Shifted(s, n) <==> y >= n && y - n in s;
      assert forall y :: y in Shifted(s - {x}, n) <==> y >= n && y - n in s - {x};
      assert Shifted(s, n) == Shifted(s - {x}, n) + {x + n};
    }
  }

  lemma ProbeAtDrop(t: seq<byte>, n: nat, i: nat)
    requires n <= |t|
    ensures ProbeAt(t[n..], i) <==> ProbeAt(t, i + n)
  {
    if i + n + 4 <= |t| {
      assert t[n..][i..i + 4] == t[i + n..i + n + 4];
    }
  }

  /** Probes cannot overlap, so the scan misses none. */
  lemma {:induction false} CountIsFound(t: seq<byte>)
    ensures Count(t) == |Found(t)|
  {
    if |t| < 4 {
      assert Found(t) == {};
    } else {
      var n := if t[..4] == PROBE then 4 else 1;
      CountIsFound(t[n..]);
      FoundAtFront(t, n);
      ShiftedSize(Found(t[n..]), n);
    }
  }

  /** The probes of a text: one at the front, if there is one, and those behind it. */
  lemma FoundAtFront(t: seq<byte>, n: nat)
    requires |t| >= 4 && n == if t[..4] == PROBE then 4 else 1
    ensures Found(t) == (if n == 4 then {0} else {}) + Shifted(Found(t[n..]), n)
    ensures 0 !in Shifted(Found(t[n..]), n)
  {
    forall i ensures i in Found(t) <==> (n == 4 && i == 0) || i in Shifted(Found(t[n..]), n) {
      if n <= i < |t| {
        ProbeAtDrop(t, n, i - n);
        assert i in Shifted(Found(t[n..]), n) <==> i - n in Found(t[n..]);
      } else if 0 < i < n {
        NoOverlap(t, i);
      }
    }
  }

  lemma NoOverlap(t: seq<byte>, i: nat)
    requires ProbeAt(t, 0) && 0 < i < 4
    ensures !ProbeAt(t, i)
  {
    if i + 4 <= |t| {
      assert t[i] == t[..4][i] && t[i..i + 4][0] == t[i];
    }
  }

  // ---- Cutting the stream ----

  function Joined(chunks: seq<seq<byte>>): seq<byte> {
    if chunks == [] then [] else Joined(chunks[..|chunks| - 1]) + chunks[|chunks| - 1]
  }

  /** What the per-chunk pumps answer. */
  function PerChunk(chunks: seq<seq<byte>>): nat {
    if chunks == [] then 0 else PerChunk(chunks[..|chunks| - 1]) + Count(chunks[|chunks| - 1])
  }

  /** The chunk that ends before position `b` ends at `b`, and another follows. */
  ghost predicate IsCut(chunks: seq<seq<byte>>, b: nat) {
    exists k :: 0 < k < |chunks| && |Joined(chunks[..k])| == b
  }

  /** The probes that no single chunk holds. */
  ghost function Straddling(chunks: seq<seq<byte>>): set<nat> {
    set i | i in Found(Joined(chunks)) && exists b: nat :: IsCut(chunks, b) && i < b < i + 4
  }

  lemma CutsOfLonger(chunks: seq<seq<byte>>, b: nat)
    requires chunks != []
    ensures var n := |chunks| - 1;
            IsCut(chunks, b) <==> IsCut(chunks[..n], b) || (n > 0 && b == |Joined(chunks[..n])|)
  {
    var n := |chunks| - 1;
    if IsCut(chunks[..n], b) {
      var k :| 0 < k < n && |Joined(chunks[..n][..k])| == b;
      assert chunks[..n][..k] == chunks[..k];
    }
    if IsCut(chunks, b) {
      var k :| 0 < k < |chunks| && |Joined(chunks[..k])| == b;
      assert k < n ==> chunks[..n][..k] == chunks[..k];
    }
  }

  lemma {:induction false} JoinedPrefix(chunks: seq<seq<byte>>, k: nat)
    requires k <= |chunks|
    ensures |Joined(chunks[..k])| <= |Joined(chunks)|
  {
    if k < |chunks| {
      assert chunks[..|chunks| - 1][..k] == chunks[..k];
      JoinedPrefix(chunks[..|chunks| - 1], k);
    } else {
      assert chunks[..k] == chunks;
    }
  }

  /** Appending text keeps every earlier probe and shifts the new ones. */
  lemma FoundAppend(a: seq<byte>, c: seq<byte>)
    ensures forall i :: i in Found(a) <==> i in Found(a + c) && i + 4 <= |a|
    ensures forall i :: i in Shifted(Found(c), |a|) <==> i in Found(a + c) && |a| <= i
  {
    var t := a + c;
    forall i: nat ensures ProbeAt(a, i) <==> ProbeAt(t, i) && i + 4 <= |a| {
      if i + 4 <= |a| {
        assert t[i..i + 4] == a[i..i + 4];
      }
    }
    forall i ensures i in Shifted(Found(c), |a|) <==> i in Found(t) && |a| <= i {
      if |a| <= i {
        assert t[|a|..] == c;
        ProbeAtDrop(t, |a|, i - |a|);
        assert i in Shifted(Found(c), |a|) <==> i - |a| in Found(c);
      }
    }
  }

  /**
   Counting per chunk falls short of the true number of probes by exactly the probes that
   straddle a chunk boundary.
   */
  lemma {:induction false} PerChunkMissesStraddling(chunks: seq<seq<byte>>)
    ensures PerChunk(chunks) + |Straddling(chunks)| == Count(Joined(chunks))
  {
    CountIsFound(Joined(chunks));
    if chunks == [] {
      assert Straddling(chunks) == {};
    } else {
      var n := |chunks| - 1;
      var head, c := chunks[..n], chunks[n];
      var a, t := Joined(head), Joined(chunks);
      PerChunkMissesStraddling(head);
      CountIsFound(a);
      CountIsFound(c);
      FoundAppend(a, c);
      ShiftedSize(Found(c), |a|);
      var crossing := set i | i in Found(t) && i < |a| < i + 4;
      assert Found(t) == Found(a) + Shifted(Found(c), |a|) + crossing;
      assert Found(a) !! Shifted(Found(c), |a|) && (Found(a) + Shifted(Found(c), |a|)) !! crossing;
      StraddlingMore(chunks, crossing);
    }
  }

  lemma StraddlingMore(chunks: seq<seq<byte>>, crossing: set<nat>)
    requires chunks != []
    requires var a := Joined(chunks[..|chunks| - 1]);
             crossing == set i | i in Found(Joined(chunks)) && i < |a| < i + 4
    ensures Straddling(chunks) == Straddling(chunks[..|chunks| - 1]) + crossing
    ensures Straddling(chunks[..|chunks| - 1]) !! crossing
  {
    var n := |chunks| - 1;
    var head, a := chunks[..n], Joined(chunks[..n]);
    FoundAppend(a, chunks[n]);
    forall i ensures i in Straddling(chunks) <==> i in Straddling(head) || i in crossing {
      if i in Straddling(chunks) {
        var b: nat :| IsCut(chunks, b) && i < b < i + 4;
        CutsOfLonger(chunks, b);
        if IsCut(head, b) {
          var k :| 0 < k < n && |Joined(head[..k])| == b;
          JoinedPrefix(head, k);
        }
      }
      if i in Straddling(head) {
        var b: nat :| IsCut(head, b) && i < b < i + 4;
        CutsOfLonger(chunks, b);
      }
      if i in crossing {
        assert n > 0;
        CutsOfLonger(chunks, |a|);
      }
    }
  }

  /** The per-chunk pumps answer every probe exactly when none straddles a boundary. */
  lemma PerChunkCompleteIff(chunks: seq<seq<byte>>)
    ensures PerChunk(chunks) == Count(Joined(chunks)) <==>
            forall i: nat, b: nat :: ProbeAt(Joined(chunks), i) && IsCut(chunks, b) ==> !(i < b < i + 4)
  {
    PerChunkMissesStraddling(chunks);
    if Straddling(chunks) == {} {
      forall i: nat, b: nat | ProbeAt(Joined(chunks), i) && IsCut(chunks, b) ensures !(i < b < i + 4) {
        assert i !in Straddling(chunks);
      }
    } else {
      var i :| i in Straddling(chunks);
      var b: nat :| IsCut(chunks, b) && i < b < i + 4;
      assert ProbeAt(Joined(chunks), i);
    }
  }

  // ---- The session pump ----

  function Replies(n: nat): seq<byte> {
    if n == 0 then [] else Replies(n - 1) + REPLY
  }

  class Session {
    var transcript: seq<byte>
    /** Probes already replied to. */
    var answered: nat
    /** Everything written back to the console in reply to probes. */
    var written: seq<byte>

    /** As many replies have gone out as the whole transcript has probes. */
    ghost predicate Valid()
      reads this
    {
      answered == Count(transcript) && written == Replies(answered)
    }

    constructor ()
      ensures Valid() && transcript == []
    {
      transcript, answered, written := [], 0, [];
    }

    /** Take in the chunks that arrive, up to the first empty one, which ends the stream. */
    method Pump(chunks: seq<seq<byte>>) returns (n: nat)
      requires Valid()
      modifies this
      ensures Valid() && n <= |chunks| && (n < |chunks| ==> chunks[n] == [])
      ensures transcript == old(transcript) + Joined(chunks[..n])
    {
      n := 0;
      while n < |chunks| && chunks[n] != []
        invariant 0 <= n <= |chunks| && Valid()
        invariant transcript == old(transcript) + Joined(chunks[..n])
      {
        CountGrows(transcript, chunks[n]);
        assert chunks[..n + 1][..n] == chunks[..n];
        transcript := transcript + chunks[n];
        var total := Count(transcript);
        if total > answered {
          var i := 0;
          ghost var before, text := answered, transcript;
          while i < total - answered
            invariant 0 <= i <= total - answered && written == Replies(answered + i)
            invariant answered == before && transcript == text
          {
            written := written + REPLY;
            i := i + 1;
          }
          answered := total;
        }
        n := n + 1;
      }
    }
  }

  lemma CountGrows(a: seq<byte>, c: seq<byte>)
    ensures Count(a) <= Count(a + c)
  {
    CountIsFound(a);
    CountIsFound(a + c);
    FoundAppend(a, c);
    assert Found(a + c) == Found(a) + (Found(a + c) - Found(a));
  }
}
