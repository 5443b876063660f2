/** Bytes, and numbers printed as text and read back. Text is ASCII throughout. */
module Bytes {

  type byte = x: int | 0 <= x < 256

  const NEWLINE: byte := 10
  const SPACE: byte := 32

  // ---- Sequences ----

  lemma Assoc<T>(a: seq<T>, b: seq<T>, c: seq<T>)
    ensures a + b + c == a + (b + c)
  {}

  /** The piece between two others. */
  lemma Middle<T>(a: seq<T>, b: seq<T>, c: seq<T>)
    ensures (a + b + c)[|a|..|a| + |b|] == b
    ensures (a + b + c)[|a| + |b|..] == c
  {}

  /** Dropping a whole piece drops it from what follows. */
  lemma DropPast<T>(a: seq<T>, b: seq<T>, k: nat)
    requires k <= |b|
    ensures (a + b)[|a| + k..] == b[k..]
  {}

  /** Appending changes no slice of what was there. */
  lemma SliceKept<T>(s: seq<T>, t: seq<T>, i: nat, j: nat)
    requires i <= j <= |s|
    ensures (s + t)[i..j] == s[i..j]
  {}

  lemma DropKept<T>(s: seq<T>, t: seq<T>, i: nat)
    requires i <= |s|
    ensures (s + t)[i..] == s[i..] + t
  {}

  // ---- Digits ----

  /** The value of a digit character, upper or lower case; 16 for any other byte. */
  function DigitValue(c: byte): nat {
    if 48 <= c <= 57 then c - 48
    else if 97 <= c <= 102 then c - 87
    else if 65 <= c <= 70 then c - 55
    else 16
  }

  function DigitChar(d: nat): (c: byte)
    requires d < 16
    ensures DigitValue(c) == d
  {
    if d < 10 then 48 + d else 87 + d
  }

  /** The bytes spell the text. */
  ghost predicate Says(s: seq<byte>, text: string) {
    |s| == |text| && forall i :: 0 <= i < |s| ==> s[i] == text[i] as int
  }

  /** The digits are the usual ones, and no other byte is a digit. */
  lemma DigitsAre(c: byte)
    ensures Says(seq(16, d requires 0 <= d < 16 => DigitChar(d)), "0123456789abcdef")
    ensures IsDigit(16, c) <==> exists i :: 0 <= i < 22 && c == "0123456789abcdefABCDEF"[i] as int
    ensures forall i :: 0 <= i < 16 ==> DigitValue("0123456789abcdef"[i] as int) == i
    ensures forall i :: 0 <= i < 6 ==> DigitValue("ABCDEF"[i] as int) == 10 + i
  {
    var all := "0123456789abcdefABCDEF";
    if IsDigit(16, c) {
      var i := if c <= 57 then c - 48 else if c <= 70 then c - 49 else c - 87;
      assert c == all[i] as int;
    }
  }

  predicate IsDigit(base: nat, c: byte) {
    DigitValue(c) < base
  }

  predicate AllDigits(base: nat, s: seq<byte>) {
    forall i :: 0 <= i < |s| ==> IsDigit(base, s[i])
  }

  /** `n` printed in `base`, most significant digit first, without leading zeros. */
  function Show(base: nat, n: nat): (s: seq<byte>)
    requires 2 <= base <= 16
    ensures |s| >= 1 && AllDigits(base, s)
  {
    if n < base then [DigitChar(n)]
    else Show(base, n / base) + [DigitChar(n % base)]
  }

  function Value(base: nat, s: seq<byte>): nat {
    if s == [] then 0 else Value(base, s[..|s| - 1]) * base + DigitValue(s[|s| - 1])
  }

  lemma DivMod(n: nat, base: nat)
    requires base > 0
    ensures n == (n / base) * base + n % base
  {}

  /** The last digit, and the rest, of a number of several digits. */
  lemma LastDigit(base: nat, n: nat) returns (q: nat, r: nat)
    requires 2 <= base <= 16 && n >= base
    ensures q < n && r < base && n == q * base + r && Show(base, n) == Show(base, q) + [DigitChar(r)]
  {
    q, r := n / base, n % base;
    DivMod(n, base);
  }

  lemma ValueAppend(base: nat, s: seq<byte>, v: nat, c: byte)
    requires Value(base, s) == v
    ensures Value(base, s + [c]) == v * base + DigitValue(c)
  {
    assert (s + [c])[..|s|] == s;
  }

  lemma {:induction false} ValueOfShow(base: nat, n: nat)
    requires 2 <= base <= 16
    ensures Value(base, Show(base, n)) == n
  {
    if n < base {
      ValueAppend(base, [], 0, DigitChar(n));
      assert [] + [DigitChar(n)] == Show(base, n);
    } else {
      var q, r := LastDigit(base, n);
      ValueOfShow(base, q);
      ValueAppend(base, Show(base, q), q, DigitChar(r));
    }
  }

  lemma ShowInjective(base: nat, m: nat, n: nat)
    requires 2 <= base <= 16 && Show(base, m) == Show(base, n)
    ensures m == n
  {
    ValueOfShow(base, m);
    ValueOfShow(base, n);
  }
}
