/** The phase marks that m12_caps.py waits for: M12: MARK (\w+) (\d+)|M12: CAPTURES DONE. */
module Marks {
  import opened Wrappers
  import opened Bytes
  import opened Probes
  import opened Serial
  import opened Patterns

  /** The text "M12: MARK ". */
  const MARK: seq<byte> := [77, 49, 50, 58, 32, 77, 65, 82, 75, 32]
  /** The text "M12: CAPTURES DONE". */
  const CAPTURES_DONE: seq<byte> := [77, 49, 50, 58, 32, 67, 65, 80, 84, 85, 82, 69, 83, 32, 68, 79, 78, 69]
  const COLON: byte := 58

  predicate WordByte(c: byte) {
    48 <= c <= 57 || 65 <= c <= 90 || c == 95 || 97 <= c <= 122
  }

  /** Letters, digits and the underscore. */
  lemma WordBytesAre(c: byte)
    ensures WordByte(c) <==>
            || '0' as int <= c <= '9' as int || 'A' as int <= c <= 'Z' as int
            || 'a' as int <= c <= 'z' as int || c == '_' as int
  {}

  lemma TextsOfMarks()
    ensures Says(MARK, "M12: MARK ") && Says(CAPTURES_DONE, "M12: CAPTURES DONE")
  {}

  /** A mark at the start of a text; its digits are as many as there are. */
  function MarkAlone(s: seq<byte>): Option<nat> {
    if !(MARK <= s) then None
    else
      var k := Span(WordByte, s[10..]);
      if k == 0 || 10 + k == |s| || s[10 + k] != SPACE then None
      else
        var d := Lead(s[11 + k..]);
        if d == 0 then None else Some(11 + k + d)
  }

  function MarkHere(s: seq<byte>): Option<nat> {
    if MarkAlone(s).Some? then MarkAlone(s)
    else if CAPTURES_DONE <= s then Some(|CAPTURES_DONE|)
    else None
  }

  lemma MarkBytes(s: seq<byte>)
    requires MarkHere(s).Some?
    ensures MatchAnchored(s, MarkHere(s).value, COLON, 3)
  {
    var n := MarkHere(s).value;
    forall j | 0 <= j < n ensures s[j] == COLON <==> j == 3 {
      if MarkAlone(s).None? {
        assert s[j] == CAPTURES_DONE[j];
      } else if j < 10 {
        assert s[j] == MARK[j];
      } else {
        var k := Span(WordByte, s[10..]);
        if j < 10 + k {
          assert s[j] == s[10..][..k][j - 10];
        } else if j > 10 + k {
          assert s[j] == s[11 + k..][..n - 11 - k][j - 11 - k];
        }
      }
    }
  }

  lemma MarkLocal(s: seq<byte>, t: seq<byte>)
    requires MarkAlone(s + t).Some? && MarkAlone(s + t).value <= |s|
    ensures MarkAlone(s).Some?
  {
    DropKept(s, t, 10);
    SpanWithin(WordByte, s[10..], t);
    var k := Span(WordByte, s[10..]);
    DropKept(s, t, 11 + k);
    SpanWithin(Decimal, s[11 + k..], t);
  }

  lemma MarkAnchored()
    ensures Anchored(MarkHere, COLON, 3)
  {
    forall s | MarkHere(s).Some? ensures MatchAnchored(s, MarkHere(s).value, COLON, 3) {
      MarkBytes(s);
    }
    forall s, t ensures Local(MarkHere, s, t) {
      if MarkAlone(s + t).Some? && MarkAlone(s + t).value <= |s| {
        MarkLocal(s, t);
      }
    }
  }

  /** The match ends in digits at the very end of the text, and the next byte is another digit. */
  ghost predicate CutInDigits(s: seq<byte>, t: seq<byte>) {
    MarkAlone(s).Some? && MarkAlone(s).value == |s| && t != [] && IsDigit(10, t[0])
  }

  lemma MarkProlonged(s: seq<byte>, t: seq<byte>)
    requires CutInDigits(s, t)
    ensures MarkAlone(s + t).Some? && MarkAlone(s + t).value > |s|
  {
    var k := WordKept(s, t);
    var digits := s[11 + k..];
    assert digits == digits[..Lead(digits)];
    SpanProlonged(Decimal, digits, t);
  }

  lemma MarkKept(s: seq<byte>, t: seq<byte>)
    requires MarkAlone(s).Some? && !CutInDigits(s, t)
    ensures MarkAlone(s + t) == MarkAlone(s)
  {
    var k := WordKept(s, t);
    SpanKept(Decimal, s[11 + k..], t);
  }

  /** The word of a mark, and where it ends, stay what they are. */
  lemma WordKept(s: seq<byte>, t: seq<byte>) returns (k: nat)
    requires MarkAlone(s).Some?
    ensures k == Span(WordByte, s[10..]) == Span(WordByte, (s + t)[10..])
    ensures MARK <= s + t && 11 + k <= |s| && (s + t)[10 + k] == SPACE
    ensures (s + t)[11 + k..] == s[11 + k..] + t
  {
    k := Span(WordByte, s[10..]);
    DropKept(s, t, 10);
    SpanKept(WordByte, s[10..], t);
    DropKept(s, t, 11 + k);
  }

  /** More text changes a match exactly when it was cut in its digits. */
  lemma MarkKeptIff(s: seq<byte>, t: seq<byte>)
    requires MarkHere(s).Some?
    ensures MarkHere(s + t).Some?
    ensures MarkHere(s + t) == MarkHere(s) <==> !CutInDigits(s, t)
  {
    if MarkAlone(s).None? {
      assert (s + t)[5] == CAPTURES_DONE[5] != MARK[5];
    } else if CutInDigits(s, t) {
      MarkProlonged(s, t);
    } else {
      MarkKept(s, t);
    }
  }

  /**
   Waiting for a mark is not independent of how the stream is cut. Text that arrives after
   the match changes what a search of the whole finds exactly when the cut fell between two
   digits of the mark's duration.
   */
  lemma MarkReadExtendsIff(s: seq<byte>, t: seq<byte>)
    requires Leftmost(MarkHere, s, 0).Some?
    ensures Extends(Searching(MarkHere), s, t) <==> !CutInDigits(s[Leftmost(MarkHere, s, 0).value.start..], t)
  {
    MarkAnchored();
    LeftmostIsFirst(MarkHere, s, 0);
    MarkKeptIff(s[Leftmost(MarkHere, s, 0).value.start..], t);
    ExtendsIffMatchDoes(MarkHere, COLON, 3, s, t);
  }

  /** The text "M12: MARK A 6", of a mark of 60 seconds, and what follows it. */
  const CUT_MARK: seq<byte> := MARK + [65, 32, 54]
  const REST: seq<byte> := [48]

  lemma CutMarkLength()
    ensures MarkAlone(CUT_MARK) == Some(13) && |CUT_MARK| == 13
  {
    var s := CUT_MARK;
    assert s[10..] == [65] + [32, 54] && s[11..] == [32, 54] && s[12..] == [54] + [];
    SpanOf(WordByte, [65], [32, 54]);
    SpanOf(Decimal, [54], []);
  }

  lemma WholeMarkLength()
    ensures MarkAlone(CUT_MARK + REST) == Some(14)
  {
    var s := CUT_MARK + REST;
    assert s[10..] == [65] + [32, 54, 48] && s[11..] == [32, 54, 48] && s[12..] == [54, 48] + [];
    SpanOf(WordByte, [65], [32, 54, 48]);
    SpanOf(Decimal, [54, 48], []);
  }

  /** One chunk, arriving in one wait. */
  function Wait(chunk: seq<byte>): seq<seq<byte>> {
    [chunk]
  }

  lemma ArrivedOfTwo(a: seq<byte>, b: seq<byte>)
    requires a != [] && b != []
    ensures Joined(Live(Wait(a))) == a && Joined(Live(Wait(b))) == b
    ensures Arrived([Wait(a), Wait(b)]) == a + b
  {
    JoinedMore([], a);
    JoinedMore([], b);
    assert [] + [a] == [a] && [] + [b] == [b] && [] + a == a && [] + b == b;
    assert Live([a]) == [a] + Live([]) && Live([b]) == [b] + Live([]);
    assert [Wait(a), Wait(b)][1..] == [Wait(b)] && [Wait(b)][1..] == [];
    assert Arrived([Wait(b)]) == b + [] == b;
  }

  /** A pattern found in the first chunk is read there and then. */
  lemma ReadAtOnce(search: Search, a: seq<byte>, b: seq<byte>)
    requires a != [] && b != [] && search([]) == None && search(a).Some?
    ensures ReadHit(search, [], [Wait(a), Wait(b)]) == search(a)
  {
    ArrivedOfTwo(a, b);
    assert [] + a == a;
  }

  lemma SearchCut()
    ensures Searching(MarkHere)([]) == None && Searching(MarkHere)(CUT_MARK) == Some(Hit(0, 13))
  {
    CutMarkLength();
    assert CUT_MARK[0..] == CUT_MARK;
  }

  lemma SearchWhole()
    ensures Searching(MarkHere)(CUT_MARK + REST) == Some(Hit(0, 14))
  {
    WholeMarkLength();
    assert (CUT_MARK + REST)[0..] == CUT_MARK + REST;
  }

  lemma Durations()
    ensures Value(10, CUT_MARK[12..]) == 6 && Value(10, (CUT_MARK + REST)[12..]) == 60
  {
    assert CUT_MARK[12..] == [54] && (CUT_MARK + REST)[12..] == [54, 48];
    assert [54][..0] == [] && [54, 48][..1] == [54];
  }

  /**
   A mark of 60 seconds whose last digit comes with the next wait is read as one of 6: the read ends
   after 13 bytes, a search of the same text in one piece after 14.
   */
  lemma MarkReadsDependOnChunks()
    ensures var waits := [Wait(CUT_MARK), Wait(REST)];
            && Arrived(waits) == CUT_MARK + REST
            && ReadHit(Searching(MarkHere), [], waits) == Some(Hit(0, 13))
            && Searching(MarkHere)(Arrived(waits)) == Some(Hit(0, 14))
    ensures Value(10, CUT_MARK[12..]) == 6 && Value(10, (CUT_MARK + REST)[12..]) == 60
    ensures !ChunkIndependent(Searching(MarkHere))
  {
    ArrivedOfTwo(CUT_MARK, REST);
    SearchCut();
    SearchWhole();
    ReadAtOnce(Searching(MarkHere), CUT_MARK, REST);
    Durations();
    assert [] + Arrived([Wait(CUT_MARK), Wait(REST)]) == CUT_MARK + REST;
  }
}
