/** Leftmost matching of a pattern given by what it matches at the start of a text. */
module Patterns {
  import opened Wrappers
  import opened Bytes
  import opened Serial

  /** The length of the match at the very start of a text, if there is one. */
  type Here = seq<byte> -> Option<nat>

  function Leftmost(here: Here, t: seq<byte>, i: nat): (r: Option<Hit>)
    requires i <= |t|
    ensures r.Some? ==> i <= r.value.start <= |t|
    decreases |t| - i
  {
    match here(t[i..])
    case Some(n) => Some(Hit(i, i + n))
    case None => if i == |t| then None else Leftmost(here, t, i + 1)
  }

  function Searching(here: Here): Search {
    t => Leftmost(here, t, 0)
  }

  ghost predicate NoneBefore(here: Here, t: seq<byte>, from: nat, to: nat)
    requires to <= |t|
  {
    forall j :: from <= j < to ==> here(t[j..]) == None
  }

  lemma {:induction false} LeftmostFinds(here: Here, t: seq<byte>, from: nat, i: nat)
    requires from <= i <= |t| && NoneBefore(here, t, from, i) && here(t[i..]).Some?
    ensures Leftmost(here, t, from) == Some(Hit(i, i + here(t[i..]).value))
    decreases i - from
  {
    if from < i {
      assert here(t[from..]) == None;
      LeftmostFinds(here, t, from + 1, i);
    }
  }

  lemma {:induction false} LeftmostIsFirst(here: Here, t: seq<byte>, from: nat)
    requires from <= |t|
    ensures match Leftmost(here, t, from)
            case Some(hit) => from <= hit.start <= |t| && NoneBefore(here, t, from, hit.start)
                              && here(t[hit.start..]).Some? && hit.end == hit.start + here(t[hit.start..]).value
            case None => NoneBefore(here, t, from, |t|) && here(t[|t|..]) == None
    decreases |t| - from
  {
    if here(t[from..]) == None && from < |t| {
      LeftmostIsFirst(here, t, from + 1);
    }
  }

  lemma LeftmostHit(here: Here, t: seq<byte>, hit: Hit)
    requires Leftmost(here, t, 0) == Some(hit)
    ensures hit.start <= |t| && hit.start <= hit.end && here(t[hit.start..]) == Some(hit.end - hit.start)
  {
    LeftmostIsFirst(here, t, 0);
  }

  /**
   Every match has byte `c` at offset `off` and nowhere else, and whether a text matches
   depends only on the bytes of the match.
   */
  ghost predicate Anchored(here: Here, c: byte, off: nat) {
    && (forall s :: here(s).Some? ==> MatchAnchored(s, here(s).value, c, off))
    && (forall s, t :: Local(here, s, t))
  }

  ghost predicate MatchAnchored(s: seq<byte>, n: nat, c: byte, off: nat) {
    off < n <= |s| && s[off] == c && forall j :: 0 <= j < n && j != off ==> s[j] != c
  }

  ghost predicate Local(here: Here, s: seq<byte>, t: seq<byte>) {
    here(s + t).Some? && here(s + t).value <= |s| ==> here(s).Some?
  }

  /**
   Text appended after the leftmost match of an anchored pattern cannot create an earlier
   match: the search finds the same exactly when the match itself is not prolonged.
   */
  lemma ExtendsIffMatchDoes(here: Here, c: byte, off: nat, s: seq<byte>, t: seq<byte>)
    requires Anchored(here, c, off) && Leftmost(here, s, 0).Some?
    requires here(s[Leftmost(here, s, 0).value.start..] + t).Some?
    ensures var i := Leftmost(here, s, 0).value.start;
            Leftmost(here, s + t, 0) == Leftmost(here, s, 0) <==> here(s[i..] + t) == here(s[i..])
  {
    LeftmostIsFirst(here, s, 0);
    var i := Leftmost(here, s, 0).value.start;
    var n := here(s[i..]).value;
    assert MatchAnchored(s[i..], n, c, off);
    forall j | 0 <= j < i ensures here((s + t)[j..]) == None {
      assert (s + t)[j..] == s[j..] + t;
      assert here(s[j..]) == None && Local(here, s[j..], t);
      assert (s[j..] + t)[i - j + off] == s[i..][off] == c;
    }
    assert (s + t)[i..] == s[i..] + t;
    LeftmostFinds(here, s + t, 0, i);
    LeftmostFinds(here, s, 0, i);
  }

  // ---- Bytes of one kind at the start of a text ----

  predicate Decimal(c: byte) {
    IsDigit(10, c)
  }

  ghost predicate AllOf(kind: byte -> bool, s: seq<byte>) {
    forall i :: 0 <= i < |s| ==> kind(s[i])
  }

  /** How many bytes of the kind the text starts with: what a greedy class matches. */
  function Span(kind: byte -> bool, s: seq<byte>): (n: nat)
    ensures n <= |s| && AllOf(kind, s[..n])
    ensures n < |s| ==> !kind(s[n])
  {
    if s == [] || !kind(s[0]) then 0
    else
      var n := Span(kind, s[1..]);
      assert s[..n + 1] == [s[0]] + s[1..][..n];
      n + 1
  }

  function Lead(s: seq<byte>): nat {
    Span(Decimal, s)
  }

  /** Bytes of the kind that are followed by something else are the whole span. */
  lemma {:induction false} SpanOf(kind: byte -> bool, d: seq<byte>, r: seq<byte>)
    requires AllOf(kind, d) && (r == [] || !kind(r[0]))
    ensures Span(kind, d + r) == |d|
  {
    if d == [] {
      assert d + r == r;
    } else {
      assert (d + r)[1..] == d[1..] + r;
      assert kind(d[0]);
      SpanOf(kind, d[1..], r);
    }
  }

  lemma LeadOf(d: seq<byte>, r: seq<byte>)
    requires AllDigits(10, d) && (r == [] || !IsDigit(10, r[0]))
    ensures Lead(d + r) == |d|
  {
    SpanOf(Decimal, d, r);
  }

  /** Appending changes the span only if the text is all of the kind and more follow. */
  lemma {:induction false} SpanKept(kind: byte -> bool, s: seq<byte>, t: seq<byte>)
    requires Span(kind, s) < |s| || t == [] || !kind(t[0])
    ensures Span(kind, s + t) == Span(kind, s)
  {
    if s == [] {
      assert s + t == t;
    } else if kind(s[0]) {
      assert (s + t)[1..] == s[1..] + t;
      SpanKept(kind, s[1..], t);
    }
  }

  lemma SpanProlonged(kind: byte -> bool, s: seq<byte>, t: seq<byte>)
    requires AllOf(kind, s) && t != [] && kind(t[0])
    ensures Span(kind, s + t) > |s|
  {
    var m := Span(kind, t);
    SpanOf(kind, s + t[..m], t[m..]);
    assert s + t[..m] + t[m..] == s + t;
  }

  /** A span that ends within a prefix is the prefix's span. */
  lemma SpanWithin(kind: byte -> bool, s: seq<byte>, t: seq<byte>)
    requires Span(kind, s + t) <= |s|
    ensures Span(kind, s) == Span(kind, s + t)
  {
    var n := Span(kind, s + t);
    assert s[..n] == (s + t)[..n] && s == s[..n] + s[n..];
    SpanOf(kind, s[..n], s[n..]);
  }
}
