/**
 Counter lines read by field name, and the busiest window between samples (`parse_stats`
 and the report of m8_cursor.py).
 */
module Stats {
  import opened Wrappers
  import opened Bytes
  import opened Patterns
  import opened TextLines

  type Name = seq<byte>

  /** Counters by name. */
  type Rec = map<Name, nat>

  /** The text "[DRMSTAT]". */
  const TAG: seq<byte> := [91, 68, 82, 77, 83, 84, 65, 84, 93]
  /** The text "=0x". */
  const EQ_0X: seq<byte> := [61, 48, 120]
  /** The field "t", the 100 Hz tick. */
  const TICK: Name := [116]
  /** The field "evpush". */
  const EVPUSH: Name := [101, 118, 112, 117, 115, 104]

  lemma TextsOfStats()
    ensures Says(TAG, "[DRMSTAT]") && Says(EQ_0X, "=0x") && Says(TICK, "t") && Says(EVPUSH, "evpush")
    ensures Says(PrintCounters([TICK], [[49, 102]]), " t=0x1f")
  {
    assert PrintCounters([TICK][1..], [[49, 102]][1..]) == [];
    assert PrintCounters([TICK], [[49, 102]]) == [32, 116, 61, 48, 120, 49, 102];
  }

  predicate NameByte(c: byte) {
    97 <= c <= 122 || c == 95
  }

  predicate HexByte(c: byte) {
    IsDigit(16, c)
  }

  function Get(rec: Rec, field: Name): nat {
    if field in rec then rec[field] else 0
  }

  // ---- Reading a line ----

  datatype Field = Field(name: Name, digits: seq<byte>) {
    ghost predicate Valid() {
      name != [] && digits != [] && AllOf(NameByte, name) && AllOf(HexByte, digits)
    }

    function Value(): nat {
      Bytes.Value(16, digits)
    }

    function Text(): seq<byte> {
      name + EQ_0X + digits
    }
  }

  /** The pattern ([a-z_]+)=0x([0-9A-Fa-f]+) at the start of a text. */
  function FieldHere(s: seq<byte>): (r: Option<Field>)
    ensures r.Some? ==> |r.value.Text()| <= |s| && r.value.Text() != []
  {
    var k := Span(NameByte, s);
    if k == 0 || !(EQ_0X <= s[k..]) then None
    else
      var d := Span(HexByte, s[k + 3..]);
      if d == 0 then None else Some(Field(s[..k], s[k + 3..k + 3 + d]))
  }

  /** All matches, left to right, none overlapping. */
  function FindAll(s: seq<byte>): seq<Field> {
    if s == [] then []
    else
      match FieldHere(s)
      case Some(f) => [f] + FindAll(s[|f.Text()|..])
      case None => FindAll(s[1..])
  }

  /** A later field of the same name replaces an earlier one. */
  function Dict(fields: seq<Field>): Rec {
    if fields == [] then map[]
    else Dict(fields[..|fields| - 1])[fields[|fields| - 1].name := fields[|fields| - 1].Value()]
  }

  function TagHere(s: seq<byte>): Option<nat> {
    if TAG <= s then Some(|TAG|) else None
  }

  /** The fields from the tag on, if the line has it. */
  function Tagged(line: seq<byte>): Option<Rec> {
    match Leftmost(TagHere, line, 0)
    case None => None
    case Some(hit) => Some(Dict(FindAll(line[hit.start..])))
  }

  /** The record on a line, if it has the tag and carries the tick. */
  function ParseLine(line: seq<byte>): Option<Rec> {
    match Tagged(line)
    case None => None
    case Some(rec) => if TICK in rec then Some(rec) else None
  }

  function ParseStats(lines: seq<seq<byte>>): seq<Rec> {
    if lines == [] then []
    else
      ParseStats(lines[..|lines| - 1]) +
      match ParseLine(lines[|lines| - 1])
      case None => []
      case Some(rec) => [rec]
  }

  // ---- Printed lines are read back ----

  ghost function Print(fields: seq<Field>): seq<byte> {
    if fields == [] then [] else [SPACE] + fields[0].Text() + Print(fields[1..])
  }

  ghost predicate AllValid(fields: seq<Field>) {
    forall i :: 0 <= i < |fields| ==> fields[i].Valid()
  }

  lemma FieldThenSpace(f: Field, rest: seq<byte>)
    requires f.Valid() && (rest == [] || rest[0] == SPACE)
    ensures FieldHere(f.Text() + rest) == Some(f)
  {
    var k, s := |f.name|, f.Text() + rest;
    FieldPieces(f, rest);
    SpanOf(NameByte, f.name, EQ_0X + (f.digits + rest));
    SpanOf(HexByte, f.digits, rest);
    Middle(f.name + EQ_0X, f.digits, rest);
  }

  lemma FieldPieces(f: Field, rest: seq<byte>)
    ensures var k, s := |f.name|, f.Text() + rest;
            && s == f.name + (EQ_0X + (f.digits + rest)) && s[..k] == f.name
            && EQ_0X <= s[k..] && s[k + 3..] == f.digits + rest
  {
    Assoc(f.name, EQ_0X, f.digits + rest);
    Assoc(f.name + EQ_0X, f.digits, rest);
  }

  lemma {:induction false} FindAllPrinted(fields: seq<Field>)
    requires AllValid(fields)
    ensures FindAll(Print(fields)) == fields
  {
    if fields != [] {
      var f, rest := fields[0], Print(fields[1..]);
      var s := Print(fields);
      assert FieldHere(s) == None;
      assert s[1..] == f.Text() + rest;
      FieldThenSpace(f, rest);
      assert (f.Text() + rest)[|f.Text()|..] == rest;
      FindAllPrinted(fields[1..]);
      assert fields == [f] + fields[1..];
    }
  }

  lemma {:induction false} SkipNonNames(u: seq<byte>, s: seq<byte>)
    requires forall i :: 0 <= i < |u| ==> !NameByte(u[i])
    ensures FindAll(u + s) == FindAll(s)
  {
    if u == [] {
      assert u + s == s;
    } else {
      assert (u + s)[1..] == u[1..] + s;
      SkipNonNames(u[1..], s);
    }
  }

  ghost predicate Untagged(text: seq<byte>) {
    forall i :: 0 <= i <= |text| ==> !(TAG <= text[i..])
  }

  /** A tag cannot begin in untagged text and end in the tag behind it. */
  lemma TagIsFirst(before: seq<byte>, rest: seq<byte>, j: nat)
    requires Untagged(before) && j < |before|
    ensures TagHere((before + (TAG + rest))[j..]) == None
  {
    var s := (before + (TAG + rest))[j..];
    assert s[|before| - j] == TAG[0];
    if |before| - j < |TAG| {
      assert TAG[|before| - j] != TAG[0];
    } else {
      assert s[..|TAG|] == before[j..][..|TAG|];
      assert !(TAG <= before[j..]);
    }
  }

  /** A printed line behind any text without the tag is read back field by field. */
  lemma PrintedIsRead(before: seq<byte>, fields: seq<Field>)
    requires AllValid(fields) && Untagged(before)
    ensures Tagged(before + (TAG + Print(fields))) == Some(Dict(fields))
    ensures ParseLine(before + (TAG + Print(fields))) ==
            if TICK in Dict(fields) then Some(Dict(fields)) else None
  {
    TagIsFound(before, Print(fields));
    TaggedFields(fields);
  }

  lemma TaggedFields(fields: seq<Field>)
    requires AllValid(fields)
    ensures FindAll(TAG + Print(fields)) == fields
  {
    SkipNonNames(TAG, Print(fields));
    FindAllPrinted(fields);
  }

  lemma TagIsFound(before: seq<byte>, rest: seq<byte>)
    requires Untagged(before)
    ensures var line := before + (TAG + rest);
            && Leftmost(TagHere, line, 0).Some? && Leftmost(TagHere, line, 0).value.start == |before|
            && line[|before|..] == TAG + rest
  {
    var line := before + (TAG + rest);
    forall j: nat | j < |before| ensures TagHere(line[j..]) == None {
      TagIsFirst(before, rest, j);
    }
    assert line[|before|..] == TAG + rest;
    LeftmostFinds(TagHere, line, 0, |before|);
  }

  // ---- A whole log ----

  lemma UntaggedIsSkipped(line: seq<byte>)
    requires Untagged(line)
    ensures Tagged(line) == None
  {
    LeftmostIsFirst(TagHere, line, 0);
  }

  /** `parse_stats`. */
  method ParseLog(text: seq<byte>) returns (out: seq<Rec>)
    ensures out == ParseStats(Lines(text))
  {
    var lines := SplitLines(text);
    out := [];
    for i := 0 to |lines|
      invariant out == ParseStats(lines[..i])
    {
      assert lines[..i + 1][..i] == lines[..i];
      var rec := ParseLine(lines[i]);
      if rec.Some? {
        out := out + [rec.value];
      }
    }
    assert lines[..|lines|] == lines;
  }

  datatype LogLine = Other(text: seq<byte>) | Stat(before: seq<byte>, fields: seq<Field>) {
    ghost predicate Valid() {
      match this
      case Other(text) => Untagged(text)
      case Stat(before, fields) => Untagged(before) && AllValid(fields)
    }

    ghost function Text(): seq<byte> {
      match this
      case Other(text) => text
      case Stat(before, fields) => before + (TAG + Print(fields))
    }
  }

  /** The records printed with a tick, in order. */
  ghost function Printed(log: seq<LogLine>): seq<Rec> {
    if log == [] then []
    else
      Printed(log[..|log| - 1]) +
      match log[|log| - 1]
      case Stat(_, fields) => if TICK in Dict(fields) then [Dict(fields)] else []
      case Other(_) => []
  }

  ghost function TextsOf(log: seq<LogLine>): seq<seq<byte>> {
    seq(|log|, i requires 0 <= i < |log| => log[i].Text())
  }

  lemma {:induction false} LinesAreRead(log: seq<LogLine>)
    requires forall i :: 0 <= i < |log| ==> log[i].Valid()
    ensures ParseStats(TextsOf(log)) == Printed(log)
  {
    if log != [] {
      var n := |log| - 1;
      LinesAreRead(log[..n]);
      assert TextsOf(log)[..n] == TextsOf(log[..n]);
      match log[n]
      case Stat(before, fields) => PrintedIsRead(before, fields);
      case Other(text) => UntaggedIsSkipped(text);
    }
  }

  /** A log yields exactly the records printed in it, whatever else it holds. */
  lemma LogIsRead(log: seq<LogLine>)
    requires forall i :: 0 <= i < |log| ==> log[i].Valid() && AllOf(NotBreak, log[i].Text())
    ensures ParseStats(Lines(Unlines(TextsOf(log)))) == Printed(log)
  {
    LinesOfUnlines(TextsOf(log));
    LinesAreRead(log);
  }

  // ---- Numbers printed in hexadecimal ----

  /** The same digit, perhaps in upper case. */
  predicate SameDigit(c: byte, d: byte) {
    c == d || (97 <= d <= 102 && c == d - 32)
  }

  /** `digits` is `v` in hexadecimal, in either case or both, with any number of zeros before it. */
  ghost predicate Spells(digits: seq<byte>, v: nat) {
    var n := |Show(16, v)|;
    && n <= |digits|
    && (forall i :: 0 <= i < |digits| - n ==> digits[i] == 48)
    && (forall i :: 0 <= i < n ==> SameDigit(digits[|digits| - n + i], Show(16, v)[i]))
  }

  lemma {:induction false} SameValue(base: nat, s: seq<byte>, t: seq<byte>)
    requires |s| == |t| && forall i :: 0 <= i < |s| ==> SameDigit(s[i], t[i])
    ensures Bytes.Value(base, s) == Bytes.Value(base, t)
  {
    if s != [] {
      var z := |s| - 1;
      SameValue(base, s[..z], t[..z]);
    }
  }

  lemma {:induction false} LeadingZeros(base: nat, zeros: seq<byte>, s: seq<byte>)
    requires forall i :: 0 <= i < |zeros| ==> zeros[i] == 48
    ensures Bytes.Value(base, zeros + s) == Bytes.Value(base, s)
    decreases |zeros| + |s|
  {
    if s != [] {
      var z := |s| - 1;
      LeadingZeros(base, zeros, s[..z]);
      assert (zeros + s)[..|zeros + s| - 1] == zeros + s[..z];
    } else if zeros != [] {
      var z := |zeros| - 1;
      LeadingZeros(base, zeros[..z], []);
      assert zeros[..z] + [] == zeros[..z] && zeros + s == zeros;
    }
  }

  lemma SpelledParts(digits: seq<byte>, v: nat) returns (zeros: seq<byte>, tail: seq<byte>)
    requires Spells(digits, v)
    ensures digits == zeros + tail && |tail| == |Show(16, v)|
    ensures forall i :: 0 <= i < |zeros| ==> zeros[i] == 48
    ensures forall i :: 0 <= i < |tail| ==> SameDigit(tail[i], Show(16, v)[i])
  {
    hide Show;
    var n := |digits| - |Show(16, v)|;
    zeros, tail := digits[..n], digits[n..];
  }

  lemma SpelledValue(digits: seq<byte>, v: nat)
    requires Spells(digits, v)
    ensures Bytes.Value(16, digits) == v && digits != []
  {
    hide Bytes.Value, Show, Spells, SameDigit;
    var zeros, tail := SpelledParts(digits, v);
    LeadingZeros(16, zeros, tail);
    SameValue(16, tail, Show(16, v));
    ValueOfShow(16, v);
  }

  lemma SpelledIsHex(digits: seq<byte>, v: nat)
    requires Spells(digits, v)
    ensures AllOf(HexByte, digits)
  {
    var t := Show(16, v);
    var n := |digits| - |t|;
    forall i | 0 <= i < |digits| ensures HexByte(digits[i]) {
      if n <= i {
        assert SameDigit(digits[n + (i - n)], t[i - n]) && IsDigit(16, t[i - n]);
      }
    }
  }

  /** A line of a log: some other text, or the numbers of `rec`, printed behind the tag in the order of `names`. */
  datatype NumberLine =
    | Text(text: seq<byte>)
    | Counters(before: seq<byte>, rec: map<Name, nat>, names: seq<Name>, digits: seq<seq<byte>>)

  /** Small letters and underscores. */
  ghost predicate IsName(name: Name) {
    name != [] && forall i :: 0 <= i < |name| ==> 'a' as int <= name[i] <= 'z' as int || name[i] == '_' as int
  }

  ghost predicate ValidLine(l: NumberLine) {
    match l
    case Text(text) => Untagged(text)
    case Counters(before, rec, names, digits) =>
      && Untagged(before) && |names| == |digits|
      && (forall n :: n in rec <==> n in names) && (forall i, j :: 0 <= i < j < |names| ==> names[i] != names[j])
      && (forall i :: 0 <= i < |names| ==> IsName(names[i]) && Spells(digits[i], rec[names[i]]))
  }

  ghost function FieldsOf(names: seq<Name>, digits: seq<seq<byte>>): seq<Field>
    requires |names| == |digits|
  {
    seq(|names|, i requires 0 <= i < |names| => Field(names[i], digits[i]))
  }

  /** For each counter a space, its name, "=0x" and its digits. */
  ghost function PrintCounters(names: seq<Name>, digits: seq<seq<byte>>): seq<byte>
    requires |names| == |digits|
  {
    if names == [] then [] else [SPACE] + (names[0] + EQ_0X + digits[0]) + PrintCounters(names[1..], digits[1..])
  }

  /** The line as it is printed. */
  ghost function Printout(l: NumberLine): seq<byte>
    requires ValidLine(l)
  {
    match l
    case Text(text) => text
    case Counters(before, _, names, digits) => before + (TAG + PrintCounters(names, digits))
  }

  lemma {:induction false} CountersAreFields(names: seq<Name>, digits: seq<seq<byte>>)
    requires |names| == |digits|
    ensures PrintCounters(names, digits) == Print(FieldsOf(names, digits))
  {
    if names != [] {
      CountersAreFields(names[1..], digits[1..]);
      assert FieldsOf(names, digits)[1..] == FieldsOf(names[1..], digits[1..]);
    }
  }

  /** The numbers by name. */
  ghost function Numbers(l: NumberLine): map<Name, nat>
    requires ValidLine(l)
  {
    match l
    case Text(_) => map[]
    case Counters(_, rec, _, _) => rec
  }

  ghost predicate AllLinesValid(log: seq<NumberLine>) {
    forall i :: 0 <= i < |log| ==> ValidLine(log[i])
  }

  /** The numbers of the lines that carry the tick, in order. */
  ghost function Recorded(log: seq<NumberLine>): seq<map<Name, nat>>
    requires AllLinesValid(log)
  {
    if log == [] then []
    else
      var rec := Numbers(log[|log| - 1]);
      Recorded(log[..|log| - 1]) + if TICK in rec then [rec] else []
  }

  ghost function Printouts(log: seq<NumberLine>): seq<seq<byte>>
    requires AllLinesValid(log)
  {
    seq(|log|, i requires 0 <= i < |log| => Printout(log[i]))
  }

  lemma FieldAt(l: NumberLine, i: nat)
    requires ValidLine(l) && l.Counters? && i < |l.names|
    ensures var f := FieldsOf(l.names, l.digits)[i]; f.Valid() && f.Value() == l.rec[l.names[i]]
  {
    SpelledValue(l.digits[i], l.rec[l.names[i]]);
    SpelledIsHex(l.digits[i], l.rec[l.names[i]]);
  }

  lemma NumbersAreDict(l: NumberLine)
    requires ValidLine(l) && l.Counters?
    ensures var fields := FieldsOf(l.names, l.digits); AllValid(fields) && Dict(fields) == l.rec
  {
    hide Spells, Dict;
    var fields := FieldsOf(l.names, l.digits);
    forall i | 0 <= i < |fields| ensures fields[i].Valid() {
      FieldAt(l, i);
    }
    DictKeys(fields);
    forall n ensures n in Dict(fields) <==> n in l.rec {
      if n in l.rec {
        var i :| 0 <= i < |l.names| && l.names[i] == n;
        assert fields[i].name == n;
      }
    }
    forall n | n in l.rec ensures Dict(fields)[n] == l.rec[n] {
      var i :| 0 <= i < |l.names| && l.names[i] == n;
      FieldAt(l, i);
      DictHolds(fields, i);
    }
  }

  /** Counters printed in hexadecimal are read back as the numbers they were. */
  lemma {:induction false} NumbersAreRead(log: seq<NumberLine>)
    requires AllLinesValid(log)
    ensures ParseStats(Printouts(log)) == Recorded(log)
  {
    if log != [] {
      var n := |log| - 1;
      NumbersAreRead(log[..n]);
      assert Printouts(log)[..n] == Printouts(log[..n]);
      match log[n]
      case Text(text) => UntaggedIsSkipped(text);
      case Counters(before, _, names, digits) =>
        NumbersAreDict(log[n]);
        CountersAreFields(names, digits);
        PrintedIsRead(before, FieldsOf(names, digits));
    }
  }

  /** A log of such lines, read as a text. */
  lemma LogOfNumbers(log: seq<NumberLine>)
    requires AllLinesValid(log) && forall i :: 0 <= i < |log| ==> AllOf(NotBreak, Printout(log[i]))
    ensures ParseStats(Lines(Unlines(Printouts(log)))) == Recorded(log)
  {
    LinesOfUnlines(Printouts(log));
    NumbersAreRead(log);
  }

  // ---- By name, not by position ----

  ghost predicate DistinctNames(fields: seq<Field>) {
    forall i, j :: 0 <= i < j < |fields| ==> fields[i].name != fields[j].name
  }

  ghost predicate Named(fields: seq<Field>, n: Name) {
    exists i :: 0 <= i < |fields| && fields[i].name == n
  }

  lemma NamedMore(fields: seq<Field>, n: Name)
    requires fields != []
    ensures Named(fields, n) <==> Named(fields[..|fields| - 1], n) || fields[|fields| - 1].name == n
  {
    var z := |fields| - 1;
    if Named(fields, n) {
      var i :| 0 <= i < |fields| && fields[i].name == n;
      assert i < z ==> fields[..z][i].name == n;
    }
    if Named(fields[..z], n) {
      var i :| 0 <= i < z && fields[..z][i].name == n;
      assert fields[i].name == n;
    }
  }

  lemma {:induction false} DictKeys(fields: seq<Field>)
    ensures forall n :: n in Dict(fields) <==> Named(fields, n)
  {
    if fields != [] {
      DictKeys(fields[..|fields| - 1]);
      forall n ensures n in Dict(fields) <==> Named(fields, n) {
        NamedMore(fields, n);
      }
    }
  }

  /** With distinct names the record holds exactly the printed fields. */
  lemma {:induction false} DictHolds(fields: seq<Field>, i: nat)
    requires DistinctNames(fields) && i < |fields|
    ensures fields[i].name in Dict(fields) && Dict(fields)[fields[i].name] == fields[i].Value()
    decreases |fields|
  {
    var z := |fields| - 1;
    if i < z {
      DictHolds(fields[..z], i);
    }
  }

  lemma DictAgrees(fs: seq<Field>, gs: seq<Field>, n: Name)
    requires DistinctNames(fs) && DistinctNames(gs) && n in Dict(fs) && forall f :: f in fs ==> f in gs
    ensures n in Dict(gs) && Dict(gs)[n] == Dict(fs)[n]
  {
    DictKeys(fs);
    var i :| 0 <= i < |fs| && fs[i].name == n;
    assert fs[i] in gs;
    var j :| 0 <= j < |gs| && gs[j] == fs[i];
    DictHolds(fs, i);
    DictHolds(gs, j);
  }

  /** Reordering the fields of a line changes nothing. */
  lemma OrderDoesNotMatter(fs: seq<Field>, gs: seq<Field>)
    requires DistinctNames(fs) && DistinctNames(gs)
    requires forall f :: f in fs <==> f in gs
    ensures Dict(fs) == Dict(gs)
  {
    forall n | n in Dict(fs) ensures n in Dict(gs) && Dict(gs)[n] == Dict(fs)[n] {
      DictAgrees(fs, gs, n);
    }
    forall n | n in Dict(gs) ensures n in Dict(fs) {
      DictAgrees(gs, fs, n);
    }
  }

  lemma UpdateApart(a: Rec, b: Rec, x: Name, k: Name, v: nat)
    requires a - {x} == b - {x}
    ensures a[k := v] - {x} == b[k := v] - {x}
  {
    forall n | n != x ensures n in a <==> n in b {
      assert n in a - {x} <==> n in b - {x};
    }
    forall n | n != x && n in a ensures a[n] == b[n] {
      assert (a - {x})[n] == (b - {x})[n];
    }
  }

  /** A new field, wherever it is inserted, leaves every other field as it was. */
  lemma {:induction false} InsertionKeepsOthers(fs: seq<Field>, f: Field, gs: seq<Field>)
    ensures Dict(fs + [f] + gs) - {f.name} == Dict(fs + gs) - {f.name}
    decreases |gs|
  {
    if gs == [] {
      assert fs + [f] + gs == fs + [f] && fs + gs == fs;
      assert (fs + [f])[..|fs|] == fs;
    } else {
      var z := |gs| - 1;
      InsertionKeepsOthers(fs, f, gs[..z]);
      var a, b := fs + [f] + gs, fs + gs;
      assert a[..|a| - 1] == fs + [f] + gs[..z] && b[..|b| - 1] == fs + gs[..z];
      assert a[|a| - 1] == b[|b| - 1] == gs[z];
      UpdateApart(Dict(fs + [f] + gs[..z]), Dict(fs + gs[..z]), f.name, gs[z].name, gs[z].Value());
    }
  }

  // ---- The busiest window ----

  function TickDelta(stats: seq<Rec>, i: nat): int
    requires i + 1 < |stats|
  {
    Get(stats[i + 1], TICK) - Get(stats[i], TICK)
  }

  function PushDelta(stats: seq<Rec>, i: nat): int
    requires i + 1 < |stats|
  {
    Get(stats[i + 1], EVPUSH) - Get(stats[i], EVPUSH)
  }

  /** `i` is the leftmost pair with the largest advance among the first `n` pairs whose tick advanced. */
  ghost predicate Busiest(stats: seq<Rec>, n: nat, i: nat)
    requires n < |stats|
  {
    && i < n && TickDelta(stats, i) > 0
    && (forall j :: 0 <= j < n && TickDelta(stats, j) > 0 ==> PushDelta(stats, j) <= PushDelta(stats, i))
    && (forall j :: 0 <= j < i && TickDelta(stats, j) > 0 ==> PushDelta(stats, j) < PushDelta(stats, i))
  }

  /** The counter is larger in `b` than in `a`; one that is not there counts as 0. */
  ghost predicate Advances(a: Rec, b: Rec, field: Name) {
    field in b && b[field] > 0 && (field in a ==> a[field] < b[field])
  }

  lemma AdvancesIff(a: Rec, b: Rec, field: Name)
    ensures Advances(a, b, field) <==> Get(b, field) - Get(a, field) > 0
  {}

  /**
   The report: exit status 0, with the busiest window, exactly when input events advanced
   in some window whose tick advanced.
   */
  method Report(stats: seq<Rec>) returns (exit: nat, window: Option<nat>)
    ensures exit == 0 <==> window.Some?
    ensures exit == 0 <==>
            exists i :: 0 <= i < |stats| - 1 && Advances(stats[i], stats[i + 1], TICK)
                        && Advances(stats[i], stats[i + 1], EVPUSH)
    ensures window.Some? ==> Busiest(stats, |stats| - 1, window.value) && PushDelta(stats, window.value) > 0
  {
    if |stats| < 2 {
      return 1, None;
    }
    hide Advances;
    forall i | 0 <= i < |stats| - 1
      ensures TickDelta(stats, i) > 0 <==> Advances(stats[i], stats[i + 1], TICK)
      ensures PushDelta(stats, i) > 0 <==> Advances(stats[i], stats[i + 1], EVPUSH)
    {
      AdvancesIff(stats[i], stats[i + 1], TICK);
      AdvancesIff(stats[i], stats[i + 1], EVPUSH);
    }
    var best: Option<nat> := None;
    for n := 0 to |stats| - 1
      invariant best.None? ==> forall j :: 0 <= j < n ==> TickDelta(stats, j) <= 0
      invariant best.Some? ==> Busiest(stats, n, best.value)
    {
      if TickDelta(stats, n) > 0 && (best.None? || PushDelta(stats, n) > PushDelta(stats, best.value)) {
        best := Some(n);
      }
    }
    if best.None? || PushDelta(stats, best.value) <= 0 {
      return 1, None;
    }
    return 0, best;
  }
}
