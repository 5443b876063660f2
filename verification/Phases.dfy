/** The phase windows read from the text of a serial log (`phase_windows` of m12_analyze.py). */
module Phases {
  import opened Wrappers
  import opened Bytes
  import opened Patterns
  import opened TextLines
  import opened Stats
  import opened Marks
  import opened Windows

  /** The text "M12: ENDMARK ". */
  const ENDMARK: seq<byte> := [77, 49, 50, 58, 32, 69, 78, 68, 77, 65, 82, 75, 32]
  /** The text "M12: ", with which both marks begin. */
  const HEAD: seq<byte> := [77, 49, 50, 58, 32]

  lemma TextsOfPhases()
    ensures Says(ENDMARK, "M12: ENDMARK ") && Says(HEAD, "M12: ")
  {}

  /** The pattern M12: ENDMARK (\w+) at the start of a text. */
  function EndHere(s: seq<byte>): Option<nat> {
    if !(ENDMARK <= s) then None
    else
      var k := Patterns.Span(WordByte, s[13..]);
      if k == 0 then None else Some(13 + k)
  }

  /** The word behind a mark that takes `n` bytes. */
  function WordAt(s: seq<byte>, n: nat): seq<byte> {
    if |s| < n then [] else s[n..n + Patterns.Span(WordByte, s[n..])]
  }

  /** What the scan takes a line for. */
  function Classify(line: seq<byte>): Line {
    match Tagged(line)
    case Some(rec) => Line.Stat(rec)
    case None =>
      match Leftmost(MarkAlone, line, 0)
      case Some(hit) => Mark(WordAt(line[hit.start..], 10))
      case None =>
        match Leftmost(EndHere, line, 0)
        case Some(hit) => EndMark(WordAt(line[hit.start..], 13))
        case None => Line.Other
  }

  function Classified(lines: seq<seq<byte>>): seq<Line> {
    seq(|lines|, i requires 0 <= i < |lines| => Classify(lines[i]))
  }

  /** `phase_windows`: the windows of the classified lines. */
  method WindowsOf(text: seq<byte>) returns (out: seq<Window>)
    ensures var lines := Classified(Lines(text));
            exists spans, cur :: Scanned(lines, |lines|, out, spans, cur)
  {
    var lines := SplitLines(text);
    out := PhaseWindows(Classified(lines));
  }

  // ---- Printed lines are told apart ----

  /** A line that the kernel or the guest script prints. */
  datatype Event =
    | Sample(before: seq<byte>, fields: seq<Field>)
    | Begin(before: seq<byte>, name: Name, digits: seq<byte>, after: seq<byte>)
    | End(before: seq<byte>, name: Name, after: seq<byte>)
    | Noise(text: seq<byte>)

  ghost function Text(e: Event): seq<byte> {
    match e
    case Sample(before, fields) => before + (TAG + Print(fields))
    case Begin(before, name, digits, after) => before + (MARK + (name + ([SPACE] + (digits + after))))
    case End(before, name, after) => before + (ENDMARK + (name + after))
    case Noise(text) => text
  }

  function Meaning(e: Event): Line {
    match e
    case Sample(_, fields) => Line.Stat(Dict(fields))
    case Begin(_, name, _, _) => Mark(name)
    case End(_, name, _) => EndMark(name)
    case Noise(_) => Line.Other
  }

  predicate HeadAt(text: seq<byte>, j: nat) {
    j <= |text| && HEAD <= text[j..]
  }

  ghost predicate IsWord(name: Name) {
    name != [] && AllOf(WordByte, name)
  }

  /** Only samples carry the tag, and "M12: " stands nowhere it could be taken for another mark. */
  ghost predicate ValidEvent(e: Event) {
    match e
    case Sample(before, fields) => Untagged(before) && AllValid(fields)
    case Begin(before, name, digits, _) =>
      && IsWord(name) && digits != [] && AllOf(Decimal, digits)
      && Untagged(Text(e)) && forall j: nat :: j < |before| ==> !HeadAt(Text(e), j)
    case End(before, name, after) =>
      && IsWord(name) && (after == [] || !WordByte(after[0]))
      && Untagged(Text(e)) && forall j: nat :: j != |before| ==> !HeadAt(Text(e), j)
    case Noise(text) => Untagged(text) && forall j: nat :: !HeadAt(text, j)
  }

  lemma MarksHaveHeads(text: seq<byte>, j: nat)
    requires j <= |text| && !HeadAt(text, j)
    ensures MarkAlone(text[j..]) == None && EndHere(text[j..]) == None
  {
    assert HEAD <= MARK && HEAD <= ENDMARK;
  }

  /** The pieces of a printed mark. */
  lemma MarkSlices(name: Name, digits: seq<byte>, after: seq<byte>)
    ensures var rest := [SPACE] + (digits + after);
            var s := MARK + (name + rest);
            && MARK <= s && s[10..] == name + rest && s[10..10 + |name|] == name
            && s[10 + |name|] == SPACE && s[11 + |name|..] == digits + after
  {
    var rest := [SPACE] + (digits + after);
    var s := MARK + (name + rest);
    Assoc(MARK, name, rest);
    Middle(MARK, name, rest);
    DropKept(MARK, name + rest, 10);
    assert MARK[10..] == [] && [] + (name + rest) == name + rest;
    assert s[10 + |name|..] == rest && s[10 + |name|..][1..] == s[11 + |name|..];
  }

  /** A mark as it is printed. */
  lemma MarkPrinted(name: Name, digits: seq<byte>, after: seq<byte>)
    requires IsWord(name) && digits != [] && AllOf(Decimal, digits)
    ensures var s := MARK + (name + ([SPACE] + (digits + after)));
            MarkAlone(s).Some? && WordAt(s, 10) == name
  {
    MarkSlices(name, digits, after);
    SpanOf(WordByte, name, [SPACE] + (digits + after));
    assert (digits + after)[0] == digits[0];
  }

  lemma EndPrinted(name: Name, after: seq<byte>)
    requires IsWord(name) && (after == [] || !WordByte(after[0]))
    ensures var s := ENDMARK + (name + after);
            EndHere(s).Some? && WordAt(s, 13) == name && MarkAlone(s) == None
  {
    var s := ENDMARK + (name + after);
    assert s[13..] == name + after;
    SpanOf(WordByte, name, after);
    assert s[13..13 + |name|] == name;
    assert s[5] == ENDMARK[5] != MARK[5];
  }

  lemma BeginIsMark(e: Event)
    requires e.Begin? && ValidEvent(e)
    ensures Classify(Text(e)) == Meaning(e)
  {
    var t, i := Text(e), |e.before|;
    UntaggedIsSkipped(t);
    forall j: nat | j < i ensures MarkAlone(t[j..]) == None {
      MarksHaveHeads(t, j);
    }
    assert t[i..] == MARK + (e.name + ([SPACE] + (e.digits + e.after)));
    MarkPrinted(e.name, e.digits, e.after);
    LeftmostFinds(MarkAlone, t, 0, i);
  }

  lemma EndIsEndMark(e: Event)
    requires e.End? && ValidEvent(e)
    ensures Classify(Text(e)) == Meaning(e)
  {
    var t, i := Text(e), |e.before|;
    UntaggedIsSkipped(t);
    assert t[i..] == ENDMARK + (e.name + e.after);
    EndPrinted(e.name, e.after);
    forall j: nat | j <= |t| ensures MarkAlone(t[j..]) == None && (j < i ==> EndHere(t[j..]) == None) {
      if j != i {
        MarksHaveHeads(t, j);
      }
    }
    LeftmostIsFirst(MarkAlone, t, 0);
    LeftmostFinds(EndHere, t, 0, i);
  }

  lemma NoiseIsOther(e: Event)
    requires e.Noise? && ValidEvent(e)
    ensures Classify(Text(e)) == Meaning(e)
  {
    var t := e.text;
    UntaggedIsSkipped(t);
    forall j: nat | j <= |t| ensures MarkAlone(t[j..]) == None && EndHere(t[j..]) == None {
      MarksHaveHeads(t, j);
    }
    LeftmostIsFirst(MarkAlone, t, 0);
    LeftmostIsFirst(EndHere, t, 0);
  }

  /** Every printed line is taken for what it is. */
  lemma EventIsRead(e: Event)
    requires ValidEvent(e)
    ensures Classify(Text(e)) == Meaning(e)
  {
    match e
    case Sample(before, fields) => PrintedIsRead(before, fields);
    case Begin(_, _, _, _) => BeginIsMark(e);
    case End(_, _, _) => EndIsEndMark(e);
    case Noise(_) => NoiseIsOther(e);
  }

  ghost function Texts(log: seq<Event>): seq<seq<byte>> {
    seq(|log|, i requires 0 <= i < |log| => Text(log[i]))
  }

  function Meanings(log: seq<Event>): seq<Line> {
    seq(|log|, i requires 0 <= i < |log| => Meaning(log[i]))
  }

  /** The scan of a printed log goes through exactly the events that were printed. */
  lemma TraceIsRead(log: seq<Event>)
    requires forall i :: 0 <= i < |log| ==> ValidEvent(log[i]) && AllOf(NotBreak, Text(log[i]))
    ensures Classified(Lines(Unlines(Texts(log)))) == Meanings(log)
  {
    LinesOfUnlines(Texts(log));
    forall i | 0 <= i < |log| ensures Classify(Texts(log)[i]) == Meaning(log[i]) {
      EventIsRead(log[i]);
    }
  }
}
