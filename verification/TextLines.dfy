/** Text cut into lines, as `splitlines` does it. */
module TextLines {
  import opened Bytes
  import opened Patterns

  const RETURN: byte := 13

  predicate IsBreak(c: byte) {
    10 <= c <= 13 || 28 <= c <= 30
  }

  predicate NotBreak(c: byte) {
    !IsBreak(c)
  }

  /** The ASCII characters at which `splitlines` cuts: newline to return, and the three upper separators. */
  lemma BreaksAre(c: byte)
    ensures IsBreak(c) <==> exists i :: 0 <= i < 7 && c == "\n\U{0B}\U{0C}\r\U{1C}\U{1D}\U{1E}"[i] as int
  {
    var all := "\n\U{0B}\U{0C}\r\U{1C}\U{1D}\U{1E}";
    assert all[0] as int == 10 && all[1] as int == 11 && all[2] as int == 12 && all[3] as int == 13;
    assert all[4] as int == 28 && all[5] as int == 29 && all[6] as int == 30;
  }

  /** How long the break at `i` is: a carriage return and a newline are one. */
  function BreakLength(text: seq<byte>, i: nat): (n: nat)
    requires i < |text|
    ensures 1 <= n && i + n <= |text|
  {
    if text[i] == RETURN && i + 1 < |text| && text[i + 1] == NEWLINE then 2 else 1
  }

  function Lines(text: seq<byte>): seq<seq<byte>> {
    if text == [] then []
    else
      var k := Span(NotBreak, text);
      if k == |text| then [text] else [text[..k]] + Lines(text[k + BreakLength(text, k)..])
  }

  /** The lines, each with a newline behind it. */
  function Unlines(lines: seq<seq<byte>>): seq<byte> {
    if lines == [] then [] else lines[0] + ([NEWLINE] + Unlines(lines[1..]))
  }

  /** Where the line that starts at `i` ends. */
  method EndOfLine(text: seq<byte>, i: nat) returns (j: nat)
    requires i < |text|
    ensures i <= j <= |text| && j == i + Span(NotBreak, text[i..])
  {
    j := i;
    while j < |text| && !IsBreak(text[j])
      invariant i <= j <= |text| && AllOf(NotBreak, text[i..j])
    {
      assert text[i..j + 1] == text[i..j] + [text[j]];
      j := j + 1;
    }
    assert text[i..] == text[i..j] + text[j..];
    SpanOf(NotBreak, text[i..j], text[j..]);
  }

  method SplitLines(text: seq<byte>) returns (lines: seq<seq<byte>>)
    ensures lines == Lines(text)
  {
    hide Lines;
    lines := [];
    var i := 0;
    LineAlone([]);
    assert text[0..] == text && [] + Lines(text) == Lines(text);
    while i < |text|
      invariant 0 <= i <= |text| && lines + Lines(text[i..]) == Lines(text)
      decreases |text| - i
    {
      var j := EndOfLine(text, i);
      LinesNext(text, i, j);
      var next := if j < |text| then j + BreakLength(text, j) else j;
      Assoc(lines, [text[i..j]], Lines(text[next..]));
      lines, i := lines + [text[i..j]], next;
    }
    assert text[i..] == [] && lines + [] == lines;
  }

  lemma LinesNext(text: seq<byte>, i: nat, j: nat)
    requires i < |text| && j <= |text| && j == i + Span(NotBreak, text[i..])
    ensures Lines(text[i..]) == [text[i..j]] + Lines(text[if j < |text| then j + BreakLength(text, j) else j..])
  {
    var rest, k := text[i..], j - i;
    assert rest[..k] == text[i..j];
    if j == |text| {
      assert rest == text[i..j] && Lines(text[j..]) == [];
      assert [rest] + [] == [rest];
    } else {
      assert BreakLength(rest, k) == BreakLength(text, j);
      assert rest[k + BreakLength(rest, k)..] == text[j + BreakLength(text, j)..];
    }
  }

  /** Lines without breaks in them are read back. */
  lemma {:induction false} LinesOfUnlines(lines: seq<seq<byte>>)
    requires forall i :: 0 <= i < |lines| ==> AllOf(NotBreak, lines[i])
    ensures Lines(Unlines(lines)) == lines
  {
    if lines != [] {
      var line, rest := lines[0], Unlines(lines[1..]);
      hide Lines;
      FirstLine(line, [NEWLINE] + rest);
      assert ([NEWLINE] + rest)[1..] == rest;
      LinesOfUnlines(lines[1..]);
      assert [line] + lines[1..] == lines;
    } else {
      LineAlone([]);
    }
  }

  /** The first line ends at the first break. */
  lemma FirstLine(a: seq<byte>, r: seq<byte>)
    requires AllOf(NotBreak, a) && r != [] && IsBreak(r[0])
    ensures Lines(a + r) == [a] + Lines(r[BreakLength(r, 0)..])
  {
    SpanOf(NotBreak, a, r);
    var k := BreakLength(r, 0);
    assert (a + r)[..|a|] == a;
    assert BreakLength(a + r, |a|) == k;
    DropPast(a, r, k);
  }

  lemma LineAlone(a: seq<byte>)
    requires AllOf(NotBreak, a)
    ensures Lines(a) == if a == [] then [] else [a]
  {
    SpanOf(NotBreak, a, []);
    assert a + [] == a;
  }

  /** A line ends at any break, at a return and newline together, and only there. */
  lemma LineEnds(a: seq<byte>, c: byte, b: seq<byte>)
    requires AllOf(NotBreak, a) && IsBreak(c)
    ensures Lines(a) == if a == [] then [] else [a]
    ensures !(c == RETURN && b != [] && b[0] == NEWLINE) ==> Lines(a + ([c] + b)) == [a] + Lines(b)
    ensures Lines(a + ([RETURN, NEWLINE] + b)) == [a] + Lines(b)
  {
    LineAlone(a);
    hide Lines;
    FirstLine(a, [c] + b);
    FirstLine(a, [RETURN, NEWLINE] + b);
    assert ([c] + b)[1..] == b && ([RETURN, NEWLINE] + b)[2..] == b;
  }
}
