/**
 The P6 writer and the four header readers: the comment-aware ones of
 m13_cosmic_config.py and m17_census.py, the one of m21_cpr.py that also reads the magic
 as a token, and the one of m7z3_session.py that knows no comments.
 */
module Ppm {
  import opened Wrappers
  import opened Bytes
  import opened Colour

  const HASH: byte := 35
  /** The text "P6". */
  const MAGIC: seq<byte> := [80, 54]
  /** The text "255". */
  const MAXVAL: seq<byte> := [50, 53, 53]

  datatype Image = Image(w: int, h: int, px: seq<byte>)

  /** A ValueError, from a token that is not a number, a wrong magic or too little data. */
  datatype Bad = Bad

  predicate IsSpace(c: byte) {
    9 <= c <= 13 || c == 32
  }

  lemma TextsOfPpm()
    ensures Says(MAGIC, "P6") && Says(MAXVAL, "255") && Says([HASH], "#")
    ensures Says(Text(2, 1, [NEWLINE], [SPACE], [NEWLINE], MAXVAL, NEWLINE, []), "P6\n2 1\n255\n")
  {
    assert Show(10, 2) == [50] && Show(10, 1) == [49];
    assert Text(2, 1, [NEWLINE], [SPACE], [NEWLINE], MAXVAL, NEWLINE, [])
        == [80, 54, 10, 50, 32, 49, 10, 50, 53, 53, 10];
  }

  /** Space, tab, newline, return, and the vertical tab and form feed between the latter two. */
  lemma SpacesAre(c: byte)
    ensures IsSpace(c) <==> exists i :: 0 <= i < 6 && c == " \t\n\U{0B}\U{0C}\r"[i] as int
  {
    var all := " \t\n\U{0B}\U{0C}\r";
    assert all[0] as int == 32 && all[1] as int == 9 && all[2] as int == 10;
    assert all[3] as int == 11 && all[4] as int == 12 && all[5] as int == 13;
  }

  // ---- int() ----

  /** Digits, with single underscores allowed between them. */
  function PyNat(s: seq<byte>): Option<nat> {
    var n := |s|;
    if n == 0 || !IsDigit(10, s[n - 1]) then None
    else if n == 1 then Some(DigitValue(s[0]))
    else
      match PyNat(if s[n - 2] == 95 then s[..n - 2] else s[..n - 1])
      case None => None
      case Some(v) => Some(10 * v + DigitValue(s[n - 1]))
  }

  function PyInt(s: seq<byte>): Option<int> {
    if s != [] && s[0] == 45 then
      match PyNat(s[1..])
      case None => None
      case Some(v) => Some(0 - v)
    else PyNat(if s != [] && s[0] == 43 then s[1..] else s)
  }

  lemma {:induction false} PyNatOfDigits(s: seq<byte>)
    requires s != [] && AllDigits(10, s)
    ensures PyNat(s) == Some(Value(10, s))
  {
    var n := |s|;
    if n == 1 {
      assert Value(10, s[..0]) == 0;
    } else {
      assert IsDigit(10, s[n - 1]) && IsDigit(10, s[n - 2]);
      PyNatOfDigits(s[..n - 1]);
    }
  }

  predicate Digit(c: byte) {
    '0' as int <= c <= '9' as int
  }

  /** Digits at both ends, and between them digits and underscores, of which no two are neighbours. */
  ghost predicate Numeral(s: seq<byte>) {
    && s != [] && Digit(s[0]) && Digit(s[|s| - 1])
    && (forall i :: 0 <= i < |s| ==> Digit(s[i]) || s[i] == '_' as int)
    && (forall i :: 0 < i < |s| ==> Digit(s[i - 1]) || Digit(s[i]))
  }

  /** The digits alone. */
  ghost function Bare(s: seq<byte>): seq<byte> {
    if s == [] then [] else Bare(s[..|s| - 1]) + if Digit(s[|s| - 1]) then [s[|s| - 1]] else []
  }

  /** `int` takes exactly the numerals, for the value of their digits. */
  lemma {:induction false} PyNatIff(s: seq<byte>)
    ensures PyNat(s).Some? <==> Numeral(s)
    ensures PyNat(s).Some? ==> PyNat(s).value == Value(10, Bare(s))
  {
    var n := |s|;
    if n == 1 {
      OneDigit(s);
    } else if n > 1 && Digit(s[n - 1]) {
      var t := if s[n - 2] == 95 then s[..n - 2] else s[..n - 1];
      NumeralMore(s);
      BareMore(s);
      hide Numeral, Bare, Value;
      PyNatIff(t);
    }
  }

  lemma OneDigit(s: seq<byte>)
    requires |s| == 1
    ensures Numeral(s) <==> Digit(s[0])
    ensures Digit(s[0]) ==> Value(10, Bare(s)) == DigitValue(s[0])
  {
    assert s[..0] == [] && [] + [s[0]] == s;
  }

  lemma NumeralMore(s: seq<byte>)
    requires |s| > 1 && Digit(s[|s| - 1])
    ensures Numeral(s) <==> Numeral(if s[|s| - 2] == 95 then s[..|s| - 2] else s[..|s| - 1])
  {
    var n := |s|;
    var t := if s[n - 2] == 95 then s[..n - 2] else s[..n - 1];
    if Numeral(t) {
      forall i | 0 < i < n ensures Digit(s[i - 1]) || Digit(s[i]) {
        if i < |t| {
          assert Digit(t[i - 1]) || Digit(t[i]);
        }
      }
      forall i | 0 <= i < n ensures Digit(s[i]) || s[i] == '_' as int {
        if i < |t| {
          assert Digit(t[i]) || t[i] == '_' as int;
        }
      }
    }
    if Numeral(s) {
      assert Digit(s[n - 2]) || s[n - 2] == 95;
      assert s[n - 2] == 95 ==> n > 2 && Digit(s[n - 3]);
      assert forall i :: 0 <= i < |t| ==> t[i] == s[i];
    }
  }

  lemma BareMore(s: seq<byte>)
    requires |s| > 1 && Digit(s[|s| - 1])
    ensures var t := if s[|s| - 2] == 95 then s[..|s| - 2] else s[..|s| - 1];
            Value(10, Bare(s)) == 10 * Value(10, Bare(t)) + DigitValue(s[|s| - 1])
  {
    var n := |s|;
    var t := if s[n - 2] == 95 then s[..n - 2] else s[..n - 1];
    assert s[..n - 1][..n - 2] == s[..n - 2];
    assert Bare(s[..n - 1]) == Bare(t) by {
      if s[n - 2] == 95 {
        assert Bare(s[..n - 2]) + [] == Bare(s[..n - 2]);
      }
    }
    ValueAppend(10, Bare(t), Value(10, Bare(t)), s[n - 1]);
  }

  lemma SignedIsRead(n: nat)
    ensures PyInt(['-' as int] + Show(10, n)) == Some(0 - n) && PyInt(['+' as int] + Show(10, n)) == Some(n)
  {
    PyNatOfDigits(Show(10, n));
    ValueOfShow(10, n);
    assert (['-' as int] + Show(10, n))[1..] == Show(10, n) && (['+' as int] + Show(10, n))[1..] == Show(10, n);
  }

  lemma PyIntOfShow(n: nat)
    ensures PyInt(Show(10, n)) == Some(n)
  {
    PyNatOfDigits(Show(10, n));
    ValueOfShow(10, n);
    assert IsDigit(10, Show(10, n)[0]);
  }

  lemma {:induction false} PyNatStartsWithDigit(s: seq<byte>)
    requires PyNat(s).Some?
    ensures s != [] && IsDigit(10, s[0])
  {
    var n := |s|;
    if n > 1 {
      PyNatStartsWithDigit(if s[n - 2] == 95 then s[..n - 2] else s[..n - 1]);
    }
  }

  // ---- Scanning a header ----

  function DropSpace(s: seq<byte>): seq<byte> {
    if s != [] && IsSpace(s[0]) then DropSpace(s[1..]) else s
  }

  /** Up to, and not including, the next newline. */
  function DropLine(s: seq<byte>): (t: seq<byte>)
    ensures |t| <= |s|
  {
    if s == [] || s[0] == NEWLINE then s else DropLine(s[1..])
  }

  lemma {:induction false} DropSpaceShrinks(s: seq<byte>)
    ensures |DropSpace(s)| <= |s|
  {
    if s != [] {
      DropSpaceShrinks(s[1..]);
    }
  }

  /** The next token and everything after it, past white space and, if `comments`, comments. */
  function Start(s: seq<byte>, comments: bool): seq<byte>
    decreases |s|
  {
    var t := DropSpace(s);
    DropSpaceShrinks(s);
    if comments && t != [] && t[0] == HASH then
      assert DropLine(t) == DropLine(t[1..]);
      Start(DropLine(t), comments)
    else t
  }

  /** A comment runs from its hash to the end of the line, and to the end of the file if that does not come. */
  lemma CommentEnds(c: seq<byte>, t: seq<byte>)
    requires forall i :: 0 <= i < |c| ==> c[i] != '\n' as int
    ensures Start(['#' as int] + c + ['\n' as int] + t, true) == Start(t, true)
    ensures Start(['#' as int] + c, true) == []
  {
    var h := ['#' as int] + c;
    StartOfLine(t);
    hide Start, DropLine;
    DropLineOf(h, [NEWLINE] + t);
    StartOfComment(h, [NEWLINE] + t);
    Assoc(h, [NEWLINE], t);
    DropLineOf(h, []);
    StartOfComment(h, []);
    assert h + [] == h;
  }

  lemma StartOfLine(t: seq<byte>)
    ensures Start([NEWLINE] + t, true) == Start(t, true) && Start([], true) == []
  {
    assert ([NEWLINE] + t)[1..] == t;
    assert DropSpace([NEWLINE] + t) == DropSpace(t);
  }

  lemma StartOfComment(h: seq<byte>, r: seq<byte>)
    requires h != [] && h[0] == HASH && DropLine(h + r) == r
    ensures Start(h + r, true) == Start(r, true)
  {
    assert DropSpace(h + r) == h + r;
  }

  lemma {:induction false} DropLineOf(c: seq<byte>, r: seq<byte>)
    requires (forall i :: 0 <= i < |c| ==> c[i] != NEWLINE) && (r == [] || r[0] == NEWLINE)
    ensures DropLine(c + r) == r
  {
    if c == [] {
      assert c + r == r;
    } else {
      assert (c + r)[1..] == c[1..] + r;
      DropLineOf(c[1..], r);
    }
  }

  /** The characters before the next white space. */
  function Word(s: seq<byte>): (w: seq<byte>)
    ensures w <= s
  {
    if s == [] || IsSpace(s[0]) then [] else [s[0]] + Word(s[1..])
  }

  /** The next `n` tokens, and what follows the last of them. */
  function Header(s: seq<byte>, n: nat, comments: bool): (seq<seq<byte>>, seq<byte>)
    decreases n
  {
    if n == 0 then ([], s)
    else
      var t := Start(s, comments);
      var (ws, rest) := Header(t[|Word(t)|..], n - 1, comments);
      ([Word(t)] + ws, rest)
  }

  function Rest(s: seq<byte>): seq<byte> {
    if s == [] then [] else s[1..]
  }

  lemma {:induction false} HeaderLength(s: seq<byte>, n: nat, comments: bool)
    ensures |Header(s, n, comments).0| == n
    decreases n
  {
    if n > 0 {
      var t := Start(s, comments);
      HeaderLength(t[|Word(t)|..], n - 1, comments);
    }
  }

  /** What the three P6-prefix readers return; None when the file does not start with P6. */
  function Read(data: seq<byte>, comments: bool): Result<Option<Image>, Bad> {
    if !(MAGIC <= data) then Ok(None)
    else
      HeaderLength(data[2..], 3, comments);
      var (ts, rest) := Header(data[2..], 3, comments);
      var w, h, m := PyInt(ts[0]), PyInt(ts[1]), PyInt(ts[2]);
      if w.None? || h.None? || m.None? then Err(Bad)
      else Ok(Some(Image(w.value, h.value, Rest(rest))))
  }

  /** What m21_cpr.py reads before it averages: the magic is a token and the data must suffice. */
  function ReadStrict(data: seq<byte>): Result<Image, Bad> {
    HeaderLength(data, 4, true);
    var (ts, rest) := Header(data, 4, true);
    if ts[0] != MAGIC then Err(Bad)
    else
      var w, h := PyInt(ts[1]), PyInt(ts[2]);
      if w.None? || h.None? || |rest| - 1 < w.value * h.value * 3 then Err(Bad)
      else Ok(Image(w.value, h.value, Rest(rest)))
  }

  // ---- The readers ----

  /** Move `idx` to the next token, as all four readers do. */
  method FindToken(data: seq<byte>, start: nat, comments: bool) returns (idx: nat)
    requires start <= |data|
    ensures start <= idx <= |data| && data[idx..] == Start(data[start..], comments)
  {
    idx := start;
    while true
      invariant start <= idx <= |data|
      invariant Start(data[idx..], comments) == Start(data[start..], comments)
      decreases |data| - idx
    {
      ghost var from := idx;
      while idx < |data| && IsSpace(data[idx])
        invariant from <= idx <= |data|
        invariant DropSpace(data[idx..]) == DropSpace(data[from..])
      {
        idx := idx + 1;
      }
      assert data[idx..] == DropSpace(data[from..]);
      if comments && idx < |data| && data[idx] == HASH {
        ghost var hash := idx;
        while idx < |data| && data[idx] != NEWLINE
          invariant hash <= idx <= |data|
          invariant DropLine(data[idx..]) == DropLine(data[hash..])
          invariant idx == hash ==> data[idx] == HASH
        {
          idx := idx + 1;
        }
        assert data[idx..] == DropLine(data[hash..]);
      } else {
        return;
      }
    }
  }

  /** The next token and the index just past it. */
  method NextToken(data: seq<byte>, idx: nat, comments: bool) returns (tok: seq<byte>, end: nat)
    requires idx <= |data|
    ensures idx <= end <= |data|
    ensures forall n: nat :: Header(data[idx..], n + 1, comments) ==
                             ([tok] + Header(data[end..], n, comments).0, Header(data[end..], n, comments).1)
  {
    var start := FindToken(data, idx, comments);
    end := start;
    while end < |data| && !IsSpace(data[end])
      invariant start <= end <= |data|
      invariant |Word(data[start..])| == end - start + |Word(data[end..])|
    {
      assert data[end..][1..] == data[end + 1..];
      end := end + 1;
    }
    tok := data[start..end];
    assert tok == Word(data[start..]);
    assert data[start..][|tok|..] == data[end..];
  }

  /** Of the `n` tokens from `start` on, `toks` have been read and the others follow at `idx`. */
  ghost predicate Reading(data: seq<byte>, start: nat, n: nat, comments: bool, toks: seq<seq<byte>>, idx: nat) {
    && start <= |data| && idx <= |data| && |toks| <= n
    && var (ts, rest) := Header(data[start..], n, comments);
       var (more, rest') := Header(data[idx..], n - |toks|, comments);
       ts == toks + more && rest == rest'
  }

  lemma ReadingNext(data: seq<byte>, start: nat, n: nat, comments: bool, toks: seq<seq<byte>>, idx: nat,
                    tok: seq<byte>, end: nat)
    requires Reading(data, start, n, comments, toks, idx) && |toks| < n && end <= |data|
    requires Header(data[idx..], n - |toks|, comments) ==
             ([tok] + Header(data[end..], n - |toks| - 1, comments).0, Header(data[end..], n - |toks| - 1, comments).1)
    ensures Reading(data, start, n, comments, toks + [tok], end)
    ensures var ts := Header(data[start..], n, comments).0; |toks| < |ts| && ts[|toks|] == tok
  {
    var more := Header(data[end..], n - |toks| - 1, comments).0;
    Assoc(toks, [tok], more);
    assert |toks + [tok]| == |toks| + 1;
  }

  lemma ReadingDone(data: seq<byte>, start: nat, n: nat, comments: bool, toks: seq<seq<byte>>, idx: nat)
    requires Reading(data, start, n, comments, toks, idx) && |toks| == n
    ensures Header(data[start..], n, comments) == (toks, data[idx..])
  {
    assert toks + [] == toks;
  }

  /** The tokens read so far are numbers, with these values. */
  ghost predicate Valued(toks: seq<seq<byte>>, vals: seq<int>) {
    |toks| == |vals| && forall i :: 0 <= i < |vals| ==> PyInt(toks[i]) == Some(vals[i])
  }

  lemma BadToken(data: seq<byte>, comments: bool, i: nat)
    requires MAGIC <= data && i < 3
    requires |Header(data[2..], 3, comments).0| == 3 && PyInt(Header(data[2..], 3, comments).0[i]).None?
    ensures Read(data, comments) == Err(Bad)
  {}

  lemma AllTokens(data: seq<byte>, comments: bool, toks: seq<seq<byte>>, vals: seq<int>, idx: nat)
    requires MAGIC <= data && Reading(data, 2, 3, comments, toks, idx) && Valued(toks, vals) && |vals| == 3
    ensures Read(data, comments) == Ok(Some(Image(vals[0], vals[1], Rest(data[idx..]))))
  {
    ReadingDone(data, 2, 3, comments, toks, idx);
  }

  /** `read_ppm` of m13 and `readppm` of m17 with comments, `readppm` of m7z3 without. */
  method ReadPpm(data: seq<byte>, comments: bool) returns (r: Result<Option<Image>, Bad>)
    ensures r == Read(data, comments)
  {
    if !(MAGIC <= data) {
      return Ok(None);
    }
    HeaderLength(data[2..], 3, comments);
    ghost var toks: seq<seq<byte>> := [];
    var idx: nat := 2;
    var vals: seq<int> := [];
    while |vals| < 3
      invariant Reading(data, 2, 3, comments, toks, idx) && Valued(toks, vals)
    {
      var tok, end := NextToken(data, idx, comments);
      ReadingNext(data, 2, 3, comments, toks, idx, tok, end);
      var v := PyInt(tok);
      if v.None? {
        BadToken(data, comments, |toks|);
        return Err(Bad);
      }
      vals, toks, idx := vals + [v.value], toks + [tok], end;
    }
    AllTokens(data, comments, toks, vals, idx);
    return Ok(Some(Image(vals[0], vals[1], if idx < |data| then data[idx + 1..] else [])));
  }

  /** The header loop of `ppm_mean_luma`. */
  method ReadPpmStrict(data: seq<byte>) returns (r: Result<Image, Bad>)
    ensures r == ReadStrict(data)
  {
    HeaderLength(data, 4, true);
    var pos: nat := 0;
    var toks: seq<seq<byte>> := [];
    assert data[0..] == data;
    while |toks| < 4
      invariant Reading(data, 0, 4, true, toks, pos)
    {
      var tok, end := NextToken(data, pos, true);
      ReadingNext(data, 0, 4, true, toks, pos, tok, end);
      toks, pos := toks + [tok], end;
    }
    ReadingDone(data, 0, 4, true, toks, pos);
    if toks[0] != MAGIC {
      return Err(Bad);
    }
    var w, h := PyInt(toks[1]), PyInt(toks[2]);
    if w.None? || h.None? || |data| - (pos + 1) < w.value * h.value * 3 {
      return Err(Bad);
    }
    return Ok(Image(w.value, h.value, if pos < |data| then data[pos + 1..] else []));
  }

  // ---- Well-formed headers ----

  /** White space and, if allowed, complete comments. */
  ghost predicate GapBody(g: seq<byte>, comments: bool)
    decreases |g|
  {
    || g == []
    || (IsSpace(g[0]) && GapBody(g[1..], comments))
    || (comments && g[0] == HASH && DropLine(g[1..]) != [] && GapBody(DropLine(g[1..]), comments))
  }

  /** What may separate two header tokens: white space first, so that it ends the token before it. */
  ghost predicate Gap(g: seq<byte>, comments: bool) {
    g != [] && IsSpace(g[0]) && GapBody(g, comments)
  }

  predicate IsWord(t: seq<byte>) {
    t != [] && t[0] != HASH && forall i :: 0 <= i < |t| ==> !IsSpace(t[i])
  }

  lemma {:induction false} DropLineAppend(g: seq<byte>, t: seq<byte>)
    requires DropLine(g) != []
    ensures DropLine(g + t) == DropLine(g) + t
  {
    if g[0] != NEWLINE {
      assert (g + t)[1..] == g[1..] + t;
      DropLineAppend(g[1..], t);
    }
  }

  /** A gap is skipped whole, comments included. */
  lemma {:induction false} StartOfGap(g: seq<byte>, t: seq<byte>, comments: bool)
    requires GapBody(g, comments) && t != [] && !IsSpace(t[0]) && t[0] != HASH
    ensures Start(g + t, comments) == t
    decreases |g|
  {
    if g == [] {
      assert g + t == t;
    } else if IsSpace(g[0]) && GapBody(g[1..], comments) {
      assert (g + t)[1..] == g[1..] + t;
      StartOfGap(g[1..], t, comments);
      assert DropSpace(g + t) == DropSpace(g[1..] + t);
    } else {
      var line := DropLine(g[1..]);
      assert (g + t)[1..] == g[1..] + t;
      DropLineAppend(g[1..], t);
      assert DropLine(g + t) == line + t;
      StartOfGap(line, t, comments);
    }
  }

  lemma {:induction false} WordOf(t: seq<byte>, r: seq<byte>)
    requires forall i :: 0 <= i < |t| ==> !IsSpace(t[i])
    requires r != [] && IsSpace(r[0])
    ensures Word(t + r) == t
  {
    if t == [] {
      assert t + r == r;
    } else {
      assert (t + r)[1..] == t[1..] + r;
      WordOf(t[1..], r);
    }
  }

  lemma HeaderOf(g: seq<byte>, t: seq<byte>, r: seq<byte>, n: nat, comments: bool)
    requires GapBody(g, comments) && IsWord(t) && r != [] && IsSpace(r[0])
    ensures Header(g + t + r, n + 1, comments) == ([t] + Header(r, n, comments).0, Header(r, n, comments).1)
  {
    assert g + t + r == g + (t + r);
    StartOfGap(g, t + r, comments);
    WordOf(t, r);
    assert (t + r)[|t|..] == r;
  }

  /** A header with width `w`, height `h` and third token `c`, any gaps between, then one byte and the pixels. */
  ghost function Text(w: nat, h: nat, g0: seq<byte>, g1: seq<byte>, g2: seq<byte>, c: seq<byte>,
                      end: byte, px: seq<byte>): seq<byte>
  {
    MAGIC + (g0 + Show(10, w) + (g1 + Show(10, h) + (g2 + c + ([end] + px))))
  }

  ghost function File(w: nat, h: nat, g0: seq<byte>, g1: seq<byte>, g2: seq<byte>, maxval: nat,
                      end: byte, px: seq<byte>): seq<byte>
  {
    Text(w, h, g0, g1, g2, Show(10, maxval), end, px)
  }

  lemma ShowIsWord(n: nat)
    ensures IsWord(Show(10, n))
  {
    var s := Show(10, n);
    forall i | 0 <= i < |s| ensures !IsSpace(s[i]) && s[i] != HASH {
      assert IsDigit(10, s[i]);
    }
  }

  lemma ThreeTokens(g0: seq<byte>, a: seq<byte>, g1: seq<byte>, b: seq<byte>, g2: seq<byte>, c: seq<byte>,
                    r: seq<byte>, comments: bool)
    requires GapBody(g0, comments) && Gap(g1, comments) && Gap(g2, comments)
    requires IsWord(a) && IsWord(b) && IsWord(c) && r != [] && IsSpace(r[0])
    ensures Header(g0 + a + (g1 + b + (g2 + c + r)), 3, comments) == ([a, b, c], r)
  {
    HeaderOf(g2, c, r, 0, comments);
    HeaderOf(g1, b, g2 + c + r, 1, comments);
    HeaderOf(g0, a, g1 + b + (g2 + c + r), 2, comments);
    assert Header(r, 0, comments) == ([], r);
    assert [c] + [] == [c] && [b] + [c] == [b, c] && [a] + [b, c] == [a, b, c];
  }

  lemma TextTokens(w: nat, h: nat, g0: seq<byte>, g1: seq<byte>, g2: seq<byte>, c: seq<byte>, end: byte, px: seq<byte>,
                   comments: bool)
    requires GapBody(g0, comments) && Gap(g1, comments) && Gap(g2, comments) && IsWord(c) && IsSpace(end)
    ensures var file := Text(w, h, g0, g1, g2, c, end, px);
            && MAGIC <= file && Header(file[2..], 3, comments) == ([Show(10, w), Show(10, h), c], [end] + px)
            && PyInt(Show(10, w)) == Some(w) && PyInt(Show(10, h)) == Some(h)
            && (Gap(g0, comments) <==> IsSpace(file[2]))
  {
    var file := Text(w, h, g0, g1, g2, c, end, px);
    ShowIsWord(w);
    ShowIsWord(h);
    ThreeTokens(g0, Show(10, w), g1, Show(10, h), g2, c, [end] + px, comments);
    assert file[2..] == g0 + Show(10, w) + (g1 + Show(10, h) + (g2 + c + ([end] + px)));
    assert file[2] == if g0 == [] then Show(10, w)[0] else g0[0];
    PyIntOfShow(w);
    PyIntOfShow(h);
  }

  /**
   Every reader that accepts the gaps recovers width, height and pixels; the one that reads the
   magic as a token also needs white space after it and enough pixels. Comments inserted before
   a token change nothing for the comment-aware readers.
   */
  lemma ReadersAgree(w: nat, h: nat, g0: seq<byte>, g1: seq<byte>, g2: seq<byte>, maxval: nat, end: byte, px: seq<byte>,
                     comments: bool)
    requires GapBody(g0, comments) && Gap(g1, comments) && Gap(g2, comments) && IsSpace(end)
    ensures var file := File(w, h, g0, g1, g2, maxval, end, px);
            && Read(file, comments) == Ok(Some(Image(w, h, px)))
            && (comments ==>
                  ReadStrict(file) == if Gap(g0, true) && |px| >= w * h * 3 then Ok(Image(w, h, px)) else Err(Bad))
  {
    var file := File(w, h, g0, g1, g2, maxval, end, px);
    ShowIsWord(maxval);
    TextTokens(w, h, g0, g1, g2, Show(10, maxval), end, px, comments);
    PyIntOfShow(maxval);
    assert ([end] + px)[1..] == px;
    if comments {
      StrictOfTokens(file, Show(10, w), Show(10, h), Show(10, maxval), [end] + px);
    }
  }

  // ---- The reader without comments, on every file ----

  /** None of the next `n` tokens, read without comments, starts with a hash. */
  ghost predicate NoComment(s: seq<byte>, n: nat)
    decreases n
  {
    n == 0 ||
    var t := DropSpace(s);
    !(t != [] && t[0] == HASH) && NoComment(t[|Word(t)|..], n - 1)
  }

  lemma {:induction false} NoCommentSame(s: seq<byte>, n: nat)
    requires NoComment(s, n)
    ensures Header(s, n, true) == Header(s, n, false)
    decreases n
  {
    if n > 0 {
      var t := DropSpace(s);
      NoCommentSame(t[|Word(t)|..], n - 1);
    }
  }

  lemma {:induction false} CommentIsBadToken(s: seq<byte>, n: nat) returns (i: nat)
    requires !NoComment(s, n)
    ensures i < n == |Header(s, n, false).0| && PyInt(Header(s, n, false).0[i]) == None
    decreases n
  {
    HeaderLength(s, n, false);
    var t := DropSpace(s);
    if t != [] && t[0] == HASH {
      i := 0;
      assert Word(t)[0] == HASH;
      if PyNat(Word(t)).Some? {
        PyNatStartsWithDigit(Word(t));
      }
    } else {
      var j := CommentIsBadToken(t[|Word(t)|..], n - 1);
      i := j + 1;
    }
  }

  predicate Number(t: seq<byte>) {
    PyInt(t).Some?
  }

  /**
   The reader that knows no comments gives the comment-aware answer exactly when it meets no
   comment before a token, or one of the comment-aware tokens is not a number either.
   */
  lemma PlainAgreesIff(data: seq<byte>)
    ensures Read(data, false) == Read(data, true) <==>
            MAGIC <= data ==>
              NoComment(data[2..], 3) || exists t :: t in Header(data[2..], 3, true).0 && !Number(t)
  {
    if MAGIC <= data {
      HeaderLength(data[2..], 3, true);
      PlainOnComment(data);
      var ts := Header(data[2..], 3, true).0;
      assert Read(data, true) == Err(Bad) <==> !(Number(ts[0]) && Number(ts[1]) && Number(ts[2]));
    }
  }

  lemma PlainOnComment(data: seq<byte>)
    requires MAGIC <= data
    ensures Read(data, false) == if NoComment(data[2..], 3) then Read(data, true) else Err(Bad)
  {
    if NoComment(data[2..], 3) {
      NoCommentSame(data[2..], 3);
    } else {
      var i := CommentIsBadToken(data[2..], 3);
    }
  }

  /** The white space of a gap ends at its first comment, if it has one. */
  lemma {:induction false} DropSpaceOfGap(g: seq<byte>, t: seq<byte>)
    requires GapBody(g, true) && t != [] && !IsSpace(t[0]) && t[0] != HASH
    ensures if HASH in g then DropSpace(g + t) != [] && DropSpace(g + t)[0] == HASH else DropSpace(g + t) == t
  {
    if g == [] {
      assert g + t == t;
    } else if g[0] != HASH {
      assert (g + t)[1..] == g[1..] + t;
      assert g == [g[0]] + g[1..];
      DropSpaceOfGap(g[1..], t);
    }
  }

  lemma GapHidesComment(g: seq<byte>, t: seq<byte>, r: seq<byte>, n: nat)
    requires GapBody(g, true) && IsWord(t) && r != [] && IsSpace(r[0])
    ensures NoComment(g + t + r, n + 1) <==> HASH !in g && NoComment(r, n)
  {
    assert g + t + r == g + (t + r);
    DropSpaceOfGap(g, t + r);
    WordOf(t, r);
    assert (t + r)[|t|..] == r;
  }

  /** On a well-formed file with a comment in a gap the two kinds of reader always part. */
  lemma CommentPartsReaders(w: nat, h: nat, g0: seq<byte>, g1: seq<byte>, g2: seq<byte>, maxval: nat,
                            end: byte, px: seq<byte>)
    requires GapBody(g0, true) && Gap(g1, true) && Gap(g2, true) && IsSpace(end)
    ensures var file := File(w, h, g0, g1, g2, maxval, end, px);
            && Read(file, true) == Ok(Some(Image(w, h, px)))
            && Read(file, false) == if HASH in g0 + g1 + g2 then Err(Bad) else Ok(Some(Image(w, h, px)))
  {
    var file := File(w, h, g0, g1, g2, maxval, end, px);
    ReadersAgree(w, h, g0, g1, g2, maxval, end, px, true);
    CommentInGap(w, h, g0, g1, g2, maxval, end, px);
    PlainOnComment(file);
  }

  lemma CommentInGap(w: nat, h: nat, g0: seq<byte>, g1: seq<byte>, g2: seq<byte>, maxval: nat, end: byte, px: seq<byte>)
    requires GapBody(g0, true) && Gap(g1, true) && Gap(g2, true) && IsSpace(end)
    ensures var file := File(w, h, g0, g1, g2, maxval, end, px);
            MAGIC <= file && (NoComment(file[2..], 3) <==> HASH !in g0 + g1 + g2)
  {
    var a, b, c, r := Show(10, w), Show(10, h), Show(10, maxval), [end] + px;
    ShowIsWord(w);
    ShowIsWord(h);
    ShowIsWord(maxval);
    GapHidesComment(g2, c, r, 0);
    GapHidesComment(g1, b, g2 + c + r, 1);
    GapHidesComment(g0, a, g1 + b + (g2 + c + r), 2);
    assert File(w, h, g0, g1, g2, maxval, end, px)[2..] == g0 + a + (g1 + b + (g2 + c + r));
  }

  // ---- The reader of m21_cpr.py against the others ----

  /** Its tokens: the magic, unless something is glued to it, and then those of the others. */
  lemma StrictTokens(data: seq<byte>)
    requires MAGIC <= data
    ensures |data| > 2 && !IsSpace(data[2]) ==> Header(data, 4, true).0[0] != MAGIC
    ensures |data| == 2 || IsSpace(data[2]) ==>
              Header(data, 4, true) == ([MAGIC] + Header(data[2..], 3, true).0, Header(data[2..], 3, true).1)
  {
    WordOfMagic(data);
    HeaderLength(data, 4, true);
    assert data[|MAGIC|..] == data[2..];
  }

  lemma StrictOfTokens(data: seq<byte>, a: seq<byte>, b: seq<byte>, c: seq<byte>, rest: seq<byte>)
    requires MAGIC <= data && Header(data[2..], 3, true) == ([a, b, c], rest) && PyInt(a).Some? && PyInt(b).Some?
    ensures var w, h := PyInt(a).value, PyInt(b).value;
            ReadStrict(data) == if (|data| == 2 || IsSpace(data[2])) && |rest| - 1 >= w * h * 3
                                then Ok(Image(w, h, Rest(rest))) else Err(Bad)
  {
    StrictTokens(data);
  }

  lemma WordOfMagic(data: seq<byte>)
    requires MAGIC <= data
    ensures Start(data, true) == data
    ensures |data| == 2 || IsSpace(data[2]) ==> Word(data) == MAGIC
    ensures |data| > 2 && !IsSpace(data[2]) ==> |Word(data)| > 2
  {
    assert data[1..][0] == 54 && data[1..][1..] == data[2..];
    assert Word(data) == [80] + Word(data[1..]) && Word(data[1..]) == [54] + Word(data[2..]);
  }

  /** The image a reader accepts, if any. */
  function Seen(r: Result<Option<Image>, Bad>): Option<Image> {
    if r.Ok? then r.value else None
  }

  function SeenStrict(r: Result<Image, Bad>): Option<Image> {
    if r.Ok? then Some(r.value) else None
  }

  /** The pixels after the tokens suffice for the width and height. */
  predicate Enough(w: seq<byte>, h: seq<byte>, rest: seq<byte>)
    requires Number(w) && Number(h)
  {
    |rest| - 1 >= PyInt(w).value * PyInt(h).value * 3
  }

  /**
   Exactly when the reader of m21_cpr.py sees what the other comment-aware ones see. It differs on
   a magic with something glued to it, on white space or a comment before the magic, on a maxval
   that is not a number, and on too little data.
   */
  ghost predicate StrictAgrees(data: seq<byte>) {
    if MAGIC <= data then
      HeaderLength(data[2..], 3, true);
      var (ts, rest) := Header(data[2..], 3, true);
      !Number(ts[0]) || !Number(ts[1]) ||
      if |data| > 2 && !IsSpace(data[2]) then !Number(ts[2])
      else Number(ts[2]) <==> Enough(ts[0], ts[1], rest)
    else
      HeaderLength(data, 4, true);
      var (ts, rest) := Header(data, 4, true);
      ts[0] != MAGIC || !Number(ts[1]) || !Number(ts[2]) || !Enough(ts[1], ts[2], rest)
  }

  lemma StrictAgreesIff(data: seq<byte>)
    ensures SeenStrict(ReadStrict(data)) == Seen(Read(data, true)) <==> StrictAgrees(data)
  {
    if MAGIC <= data {
      HeaderLength(data[2..], 3, true);
      StrictTokens(data);
    } else {
      HeaderLength(data, 4, true);
    }
  }

  /** White space and comments before the magic: skipped by one reader, fatal to the others. */
  lemma LeadingGapIsSkipped(g: seq<byte>, file: seq<byte>)
    requires GapBody(g, true) && g != [] && MAGIC <= file
    ensures ReadStrict(g + file) == ReadStrict(file) && Read(g + file, true) == Read(g + file, false) == Ok(None)
  {
    StartOfGap(g, file, true);
    assert Start(file, true) == file;
    assert (g + file)[0] == g[0];
  }

  /** A third token that is no number: ignored by one reader, fatal to the others. */
  lemma MaxvalIsIgnored(w: nat, h: nat, g0: seq<byte>, g1: seq<byte>, g2: seq<byte>, c: seq<byte>,
                        end: byte, px: seq<byte>)
    requires Gap(g0, true) && Gap(g1, true) && Gap(g2, true) && IsWord(c) && !Number(c) && IsSpace(end)
    requires |px| >= w * h * 3
    ensures var file := Text(w, h, g0, g1, g2, c, end, px);
            ReadStrict(file) == Ok(Image(w, h, px)) && Read(file, true) == Err(Bad)
  {
    var file := Text(w, h, g0, g1, g2, c, end, px);
    TextTokens(w, h, g0, g1, g2, c, end, px, true);
    StrictOfTokens(file, Show(10, w), Show(10, h), c, [end] + px);
    assert ([end] + px)[1..] == px;
  }

  // ---- The writer ----

  /** The red, green and blue bytes of the frame, pixel by pixel. */
  ghost predicate IsRgb(px: seq<byte>, w: nat, h: nat, fb: seq<byte>)
    requires |fb| == w * h * 4
  {
    && |px| == w * h * 3
    && forall i :: 0 <= i < w * h ==>
         var p := Pixels(w, h, fb)[i];
         px[3 * i] == Red(p) && px[3 * i + 1] == Green(p) && px[3 * i + 2] == Blue(p)
  }

  /** The pixel bytes in file order. */
  method Swizzle(n: nat, fb: seq<byte>) returns (px: seq<byte>)
    requires |fb| == n * 4
    ensures |px| == n * 3
    ensures forall i :: 0 <= i < n ==>
              px[3 * i] == fb[4 * i + 2] && px[3 * i + 1] == fb[4 * i + 1] && px[3 * i + 2] == fb[4 * i]
  {
    var out := new byte[n * 3](_ => 0);
    for i := 0 to n
      invariant forall j :: 0 <= j < i ==>
                  out[3 * j] == fb[4 * j + 2] && out[3 * j + 1] == fb[4 * j + 1] && out[3 * j + 2] == fb[4 * j]
    {
      out[3 * i] := fb[4 * i + 2];
      out[3 * i + 1] := fb[4 * i + 1];
      out[3 * i + 2] := fb[4 * i];
    }
    px := out[..];
  }

  lemma SwizzledIsRgb(w: nat, h: nat, fb: seq<byte>, px: seq<byte>)
    requires |fb| == w * h * 4 && |px| == w * h * 3
    requires forall i :: 0 <= i < w * h ==>
               px[3 * i] == fb[4 * i + 2] && px[3 * i + 1] == fb[4 * i + 1] && px[3 * i + 2] == fb[4 * i]
    ensures IsRgb(px, w, h, fb)
  {
    forall i | 0 <= i < w * h
      ensures var p := Pixels(w, h, fb)[i];
              px[3 * i] == Red(p) && px[3 * i + 1] == Green(p) && px[3 * i + 2] == Blue(p)
    {
      PixelChannels(fb, i);
    }
  }

  /** `file` is a plain P6 file of the frame, and every reader reads it back as the same pixels. */
  ghost predicate IsWritten(file: seq<byte>, w: nat, h: nat, fb: seq<byte>)
    requires |fb| == w * h * 4
  {
    exists px :: && IsRgb(px, w, h, fb)
                 && file == File(w, h, [NEWLINE], [SPACE], [NEWLINE], 255, NEWLINE, px)
                 && Read(file, true) == Read(file, false) == Ok(Some(Image(w, h, px)))
                 && ReadStrict(file) == Ok(Image(w, h, px))
  }

  /** Write a frame. */
  method WritePpm(w: nat, h: nat, fb: seq<byte>) returns (file: seq<byte>)
    requires |fb| == w * h * 4
    ensures IsWritten(file, w, h, fb)
  {
    var body := Swizzle(w * h, fb);
    file := MAGIC + [NEWLINE] + Show(10, w) + [SPACE] + Show(10, h) + [NEWLINE] + MAXVAL + [NEWLINE] + body;
    Nested(MAGIC, [NEWLINE], Show(10, w), [SPACE], Show(10, h), [NEWLINE], MAXVAL, [NEWLINE], body);
    ShowMaxval();
    SwizzledIsRgb(w, h, fb, body);
    WrittenIsRead(file, w, h, fb, body);
  }

  lemma Nested<T>(m: seq<T>, g0: seq<T>, a: seq<T>, g1: seq<T>, b: seq<T>, g2: seq<T>, c: seq<T>, e: seq<T>, px: seq<T>)
    ensures m + g0 + a + g1 + b + g2 + c + e + px == m + (g0 + a + (g1 + b + (g2 + c + (e + px))))
  {}

  lemma WrittenIsRead(file: seq<byte>, w: nat, h: nat, fb: seq<byte>, px: seq<byte>)
    requires |fb| == w * h * 4 && IsRgb(px, w, h, fb)
    requires file == File(w, h, [NEWLINE], [SPACE], [NEWLINE], 255, NEWLINE, px)
    ensures IsWritten(file, w, h, fb)
  {
    WriteReadRoundTrip(w, h, fb, px);
  }

  lemma ShowMaxval()
    ensures Show(10, 255) == MAXVAL
  {
    assert Show(10, 2) == [50];
    assert Show(10, 25) == [50, 53];
  }

  /** A written frame is read back by all four readers, pixel for pixel. */
  lemma WriteReadRoundTrip(w: nat, h: nat, fb: seq<byte>, px: seq<byte>)
    requires |fb| == w * h * 4 && IsRgb(px, w, h, fb)
    ensures var file := File(w, h, [NEWLINE], [SPACE], [NEWLINE], 255, NEWLINE, px);
            && Read(file, true) == Read(file, false) == Ok(Some(Image(w, h, px)))
            && ReadStrict(file) == Ok(Image(w, h, px))
  {
    assert GapBody([NEWLINE][1..], true) && GapBody([SPACE][1..], true);
    assert GapBody([NEWLINE][1..], false) && GapBody([SPACE][1..], false);
    ReadersAgree(w, h, [NEWLINE], [SPACE], [NEWLINE], 255, NEWLINE, px, true);
    ReadersAgree(w, h, [NEWLINE], [SPACE], [NEWLINE], 255, NEWLINE, px, false);
  }
}
