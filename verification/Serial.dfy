/**
 The serial console of m12_caps.py and its siblings: a buffer that is filled in pieces and
 consumed by the first match of a pattern.
 */
module Serial {
  import opened Wrappers
  import opened Bytes
  import opened Probes

  /** A match: the text from `start` up to, not including, `end`. */
  datatype Hit = Hit(start: nat, end: nat)

  /** The leftmost match of some pattern in a text. */
  type Search = seq<byte> -> Option<Hit>

  ghost predicate Sound(search: Search) {
    forall t :: search(t).Some? ==> search(t).value.start <= search(t).value.end <= |t|
  }

  /** The chunks before the first empty one, at which the stream has ended. */
  function Live(chunks: seq<seq<byte>>): seq<seq<byte>> {
    if chunks == [] || chunks[0] == [] then [] else [chunks[0]] + Live(chunks[1..])
  }

  /** The text that arrives during successive waits. */
  function Arrived(waits: seq<seq<seq<byte>>>): seq<byte> {
    if waits == [] then [] else Joined(Live(waits[0])) + Arrived(waits[1..])
  }

  /** What a read finds: the pattern is tried before each wait and after the last. */
  ghost function ReadHit(search: Search, buf: seq<byte>, waits: seq<seq<seq<byte>>>): Option<Hit>
    decreases |waits|
  {
    if search(buf).Some? || waits == [] then search(buf)
    else ReadHit(search, buf + Joined(Live(waits[0])), waits[1..])
  }

  lemma JoinedMore(done: seq<seq<byte>>, c: seq<byte>)
    ensures Joined(done + [c]) == Joined(done) + c && PerChunk(done + [c]) == PerChunk(done) + Count(c)
  {
    assert (done + [c])[..|done|] == done;
  }

  lemma LiveMore(done: seq<seq<byte>>, rest: seq<seq<byte>>)
    requires rest != [] && rest[0] != []
    ensures done + Live(rest) == done + [rest[0]] + Live(rest[1..])
  {
    Assoc(done, [rest[0]], Live(rest[1..]));
  }

  lemma ArrivedNext(heard: seq<byte>, left: seq<seq<seq<byte>>>)
    requires left != []
    ensures heard + Joined(Live(left[0])) + Arrived(left[1..]) == heard + Arrived(left)
  {
    Assoc(heard, Joined(Live(left[0])), Arrived(left[1..]));
  }

  lemma Consumed(taken: seq<byte>, buf: seq<byte>, end: nat)
    requires end <= |buf|
    ensures taken + buf == taken + buf[..end] + buf[end..] && buf[..end] + buf[end..] == buf
  {}

  class Console {
    var buf: seq<byte>
    /** Replies written to cursor-position probes. */
    var replies: nat

    /** All text received since the last command was sent. */
    ghost var heard: seq<byte>
    /** All text returned by successful reads since the last command was sent. */
    ghost var taken: seq<byte>

    /** Nothing received since the command is lost or duplicated. */
    ghost predicate Valid()
      reads this
    {
      heard == taken + buf
    }

    constructor ()
      ensures Valid() && buf == [] && heard == [] && replies == 0
    {
      buf, replies, heard, taken := [], 0, [], [];
    }

    /** Drop what is buffered and send a command: no later match can use older text. */
    method Send()
      modifies this
      ensures Valid() && buf == heard == taken == [] && replies == old(replies)
    {
      buf := [];
      heard, taken := [], [];
    }

    /** Receive without consuming, answering the probes of each chunk. */
    method Pump(chunks: seq<seq<byte>>)
      requires Valid()
      modifies this
      ensures Valid() && taken == old(taken)
      ensures buf == old(buf) + Joined(Live(chunks)) && heard == old(heard) + Joined(Live(chunks))
      ensures replies == old(replies) + PerChunk(Live(chunks))
    {
      var rest := chunks;
      ghost var done: seq<seq<byte>> := [];
      while rest != [] && rest[0] != []
        invariant Valid() && taken == old(taken) && Live(chunks) == done + Live(rest)
        invariant buf == old(buf) + Joined(done) && heard == old(heard) + Joined(done)
        invariant replies == old(replies) + PerChunk(done)
        decreases |rest|
      {
        JoinedMore(done, rest[0]);
        LiveMore(done, rest);
        Assoc(old(buf), Joined(done), rest[0]);
        Assoc(old(heard), Joined(done), rest[0]);
        Assoc(taken, buf, rest[0]);
        buf := buf + rest[0];
        heard := heard + rest[0];
        replies := replies + Count(rest[0]);
        done := done + [rest[0]];
        rest := rest[1..];
      }
      assert done + [] == done;
    }

    /**
     Read until the pattern matches or the waits are used up. A match consumes the text up to
     its end; a timeout consumes nothing.
     */
    method ReadUntil(search: Search, waits: seq<seq<seq<byte>>>)
      returns (m: Option<Hit>, text: seq<byte>, ghost pending: seq<byte>)
      requires Valid() && Sound(search)
      modifies this
      ensures Valid() && heard + pending == old(heard) + Arrived(waits)
      ensures m == ReadHit(search, old(buf), waits)
      ensures m.Some? ==> taken == old(taken) + text && search(text + buf) == m && |text| == m.value.end
      ensures m.None? ==> taken == old(taken) && text == buf && pending == []
    {
      var left := waits;
      while true
        invariant Valid() && taken == old(taken) && heard + Arrived(left) == old(heard) + Arrived(waits)
        invariant ReadHit(search, buf, left) == ReadHit(search, old(buf), waits)
        decreases |left|
      {
        m := search(buf);
        pending := Arrived(left);
        if m.Some? {
          text := buf[..m.value.end];
          Consumed(taken, buf, m.value.end);
          buf := buf[m.value.end..];
          taken := taken + text;
          return;
        }
        if left == [] {
          text := buf;
          return;
        }
        ArrivedNext(heard, left);
        Pump(left[0]);
        left := left[1..];
      }
    }
  }

  // ---- Does the way the stream is cut matter? ----

  ghost predicate Extends(search: Search, s: seq<byte>, t: seq<byte>) {
    search(s).Some? ==> search(s + t) == search(s)
  }

  /** A match, once found, stays the match whatever text follows. */
  ghost predicate Stable(search: Search) {
    forall s, t :: Extends(search, s, t)
  }

  /** However the text is cut up, a read finds what a search of the whole text finds. */
  ghost predicate ChunkIndependent(search: Search) {
    forall buf, waits :: ReadHit(search, buf, waits) == search(buf + Arrived(waits))
  }

  lemma {:induction false} StableReads(search: Search, buf: seq<byte>, waits: seq<seq<seq<byte>>>)
    requires Stable(search)
    ensures ReadHit(search, buf, waits) == search(buf + Arrived(waits))
    decreases |waits|
  {
    if search(buf).Some? {
      assert Extends(search, buf, Arrived(waits));
    } else if waits == [] {
      assert buf + [] == buf;
    } else {
      var more := Joined(Live(waits[0]));
      StableReads(search, buf + more, waits[1..]);
      Assoc(buf, more, Arrived(waits[1..]));
    }
  }

  /** Reads are independent of chunking for exactly the stable patterns. */
  lemma ChunkIndependentIff(search: Search)
    ensures ChunkIndependent(search) <==> Stable(search)
  {
    if Stable(search) {
      forall buf, waits ensures ReadHit(search, buf, waits) == search(buf + Arrived(waits)) {
        StableReads(search, buf, waits);
      }
    }
    if ChunkIndependent(search) {
      forall s, t ensures Extends(search, s, t) {
        if t == [] {
          assert s + t == s;
        } else {
          assert Live([t]) == [t] && Joined([t]) == t by {
            assert Joined([t][..0]) == [];
          }
          assert Arrived([[t]]) == t by {
            assert Arrived([[t]][1..]) == [];
          }
          assert ReadHit(search, s, [[t]]) == search(s + Arrived([[t]]));
        }
      }
    }
  }
}
