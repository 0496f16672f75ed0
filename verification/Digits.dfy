/** Number formatting of student-distrib/lib.c: itoa, strrev, strlen and the
    `%#x` conversion of printf. */
module Digits {
  import opened Bytes

  const LOOKUP := "0123456789ABCDEFGHIJKLMNOPQRSTUVWXYZ"
  const WORD := 0x1_0000_0000
  const ZERO: byte := 48

  function Digit(i: nat): byte
    requires i < 36
  {
    if i < 10 then 48 + i else 55 + i
  }

  /** The characters of the lookup string. */
  lemma DigitIsLookup(i: nat)
    requires i < 36
    ensures |LOOKUP| == 36 && Digit(i) == LOOKUP[i] as int
  {
  }

  /** Division by a radix, with the facts about it that matter here. */
  function Split(v: nat, radix: nat): (r: (nat, nat))
    requires 2 <= radix
    ensures r.1 < radix && r.0 * radix + r.1 == v
    ensures if v < radix then r == (0, v) else 0 < r.0 < v
  {
    DivMod(v, radix);
    (v / radix, v % radix)
  }

  lemma DivMod(v: nat, radix: nat)
    requires 2 <= radix
    ensures v / radix * radix + v % radix == v
    ensures v < radix ==> v / radix == 0 && v % radix == v
    ensures v >= radix ==> 0 < v / radix < v
  {
    var q, d := v / radix, v % radix;
    assert q * radix + d == v;
    Bounds(v, radix, q, d);
  }

  lemma Bounds(v: nat, radix: nat, q: nat, d: nat)
    requires 2 <= radix && d < radix && q * radix + d == v
    ensures v < radix ==> q == 0
    ensures v >= radix ==> 0 < q < v
  {
    if q >= 1 {
      assert 1 * radix <= q * radix;
      assert q * 2 <= q * radix;
    }
  }

  /** The numeral of `v`, most significant digit first. */
  function Numeral(v: nat, radix: nat): (s: seq<byte>)
    requires 2 <= radix <= 36
    ensures |s| > 0 && NUL !in s
    decreases v
  {
    var (q, d) := Split(v, radix);
    if q == 0 then [Digit(d)] else Numeral(q, radix) + [Digit(d)]
  }

  /** Reading a digit character back. */
  function DigitValue(c: byte): int {
    if c <= 57 then c - 48 else c - 55
  }

  /** Reading a numeral back, by Horner's rule. */
  function Value(s: seq<byte>, radix: nat): int {
    if s == [] then 0 else Value(s[..|s| - 1], radix) * radix + DigitValue(s[|s| - 1])
  }

  /** Reading back what itoa writes gives the value. */
  lemma {:induction false} RoundTrip(v: nat, radix: nat)
    requires 2 <= radix <= 36
    ensures Value(Numeral(v, radix), radix) == v
  {
    var (q, d) := Split(v, radix);
    var s := Numeral(v, radix);
    assert s[|s| - 1] == Digit(d);
    if q == 0 {
      assert s[..|s| - 1] == [];
    } else {
      RoundTrip(q, radix);
      assert s[..|s| - 1] == Numeral(q, radix);
    }
  }

  /** The digits are 0 to 9 and then A to Z, most significant first. */
  lemma DigitsInOrder()
    ensures Numeral(0x1234_5678, 16) == [49, 50, 51, 52, 53, 54, 55, 56]
    ensures Numeral(0x90AB_CDEF, 16) == [57, 48, 65, 66, 67, 68, 69, 70]
    ensures Numeral(1295, 36) == [90, 90] && Numeral(10, 2) == [49, 48, 49, 48] && Numeral(0, 10) == [48]
  {
    assert Numeral(0x1234, 16) == [49, 50, 51, 52];
    assert Numeral(0x12_3456, 16) == [49, 50, 51, 52, 53, 54];
    assert Numeral(0x90AB, 16) == [57, 48, 65, 66];
    assert Numeral(0x90_ABCD, 16) == [57, 48, 65, 66, 67, 68];
  }

  /** No leading zero, except for the value 0 itself. */
  lemma {:induction false} NoLeadingZero(v: nat, radix: nat)
    requires 2 <= radix <= 36
    ensures v > 0 ==> Numeral(v, radix)[0] != ZERO
    ensures v == 0 ==> Numeral(v, radix) == [ZERO]
  {
    var (q, d) := Split(v, radix);
    if q > 0 {
      NoLeadingZero(q, radix);
    }
  }

  function Pow(b: nat, k: nat): nat {
    if k == 0 then 1 else b * Pow(b, k - 1)
  }

  /** A numeral in base b or above has at most k digits when the value is below b^k. */
  lemma {:induction false} NumeralLength(v: nat, radix: nat, b: nat, k: nat)
    requires 2 <= b <= radix <= 36 && k >= 1 && v < Pow(b, k)
    ensures |Numeral(v, radix)| <= k
    decreases k
  {
    var (q, d) := Split(v, radix);
    if q > 0 {
      Shrinks(v, q, d, radix, b, Pow(b, k - 1));
      NumeralLength(q, radix, b, k - 1);
    }
  }

  lemma Shrinks(v: nat, q: nat, d: nat, radix: nat, b: nat, p: nat)
    requires q * radix + d == v && 2 <= b <= radix && v < b * p
    ensures q < p
  {
    assert b * q <= radix * q;
    assert q >= p ==> b * q >= b * p;
  }

  lemma WordBounds()
    ensures Pow(2, 32) == WORD && Pow(16, 8) == WORD
  {
    assert Pow(2, 8) == 256;
    assert Pow(2, 16) == 65536;
    assert Pow(2, 24) == 0x100_0000;
    assert Pow(16, 4) == 65536;
  }

  /** strlen of the string at `at`, which ends at `end`. */
  method Strlen(buf: array<byte>, at: nat, ghost end: nat) returns (len: nat)
    requires at <= end < buf.Length && buf[end] == NUL && forall i :: at <= i < end ==> buf[i] != NUL
    ensures len == end - at
  {
    len := 0;
    while buf[at + len] != NUL
      invariant at + len <= end
      decreases end - at - len
    {
      len := len + 1;
    }
  }

  /** strrev: the string at `at` is reversed in place, and nothing else changes. */
  method Strrev(buf: array<byte>, at: nat, ghost end: nat)
    requires at <= end < buf.Length && buf[end] == NUL && forall i :: at <= i < end ==> buf[i] != NUL
    modifies buf
    ensures forall i :: 0 <= i < buf.Length ==> buf[i] == if at <= i < end then old(buf[at + end - 1 - i]) else old(buf[i])
  {
    var len := Strlen(buf, at, end);
    var beg: int, last: int := 0, len - 1;
    while beg < last
      invariant 0 <= beg <= len && last == len - 1 - beg && 2 * beg <= len
      invariant forall i :: 0 <= i < buf.Length ==>
        buf[i] == if at <= i < at + beg || at + last < i < end then old(buf[at + end - 1 - i]) else old(buf[i])
    {
      var tmp := buf[at + last];
      buf[at + last] := buf[at + beg];
      buf[at + beg] := tmp;
      beg, last := beg + 1, last - 1;
    }
  }

  /** The last of the first `m` digits of `s` is the remainder by the radix, the digits before it are the quotient's. */
  lemma DigitStep(s: seq<byte>, m: nat, v: nat, radix: nat)
    requires 2 <= radix <= 36 && v > 0 && m <= |s| && s[..m] == Numeral(v, radix)
    ensures m > 0 && s[m - 1] == Digit(v % radix)
    ensures if v / radix > 0 then s[..m - 1] == Numeral(v / radix, radix) else m == 1
  {
    var t := s[..m];
    assert t[m - 1] == s[m - 1] && t[..m - 1] == s[..m - 1];
    var (q, d) := Split(v, radix);
    assert t == if q == 0 then [Digit(d)] else Numeral(q, radix) + [Digit(d)];
  }

  /** The digit loop of itoa leaves the numeral in the buffer backwards, with a NUL after it. */
  method WriteDigits(value: nat, buf: array<byte>, at: nat, radix: nat) returns (n: nat)
    requires 0 < value < WORD && 2 <= radix <= 36 && at + |Numeral(value, radix)| < buf.Length
    modifies buf
    ensures n == |Numeral(value, radix)| && n <= 32
    ensures forall i :: 0 <= i < n ==> buf[at + n - 1 - i] == Numeral(value, radix)[i]
    ensures buf[at + n] == NUL
    ensures forall i :: 0 <= i < buf.Length && !(at <= i <= at + n) ==> buf[i] == old(buf[i])
  {
    WordBounds();
    NumeralLength(value, radix, 2, 32);
    ghost var s := Numeral(value, radix);
    var newval := value;
    n := 0;
    while newval > 0
      invariant n <= |s|
      invariant if newval > 0 then s[..|s| - n] == Numeral(newval, radix) else n == |s|
      invariant forall i :: |s| - n <= i < |s| ==> buf[at + |s| - 1 - i] == s[i]
      invariant forall i :: 0 <= i < buf.Length && !(at <= i < at + n) ==> buf[i] == old(buf[i])
      decreases newval
    {
      var i := newval % radix;
      DigitStep(s, |s| - n, newval, radix);
      DigitIsLookup(i);
      buf[at + n] := LOOKUP[i] as int;
      n := n + 1;
      newval := newval / radix;
    }
    buf[at + n] := NUL;
  }

  /** itoa: the numeral and a NUL go to the buffer, and nothing else changes. */
  method Itoa(value: nat, buf: array<byte>, at: nat, radix: nat) returns (ghost n: nat)
    requires value < WORD && 2 <= radix <= 36 && at + |Numeral(value, radix)| < buf.Length
    modifies buf
    ensures n == |Numeral(value, radix)| && n <= 32
    ensures buf[at..at + n] == Numeral(value, radix) && buf[at + n] == NUL
    ensures forall i :: 0 <= i < buf.Length && !(at <= i <= at + n) ==> buf[i] == old(buf[i])
  {
    if value == 0 {
      buf[at] := ZERO;
      buf[at + 1] := NUL;
      return 1;
    }
    var len := WriteDigits(value, buf, at, radix);
    n := len;
    ghost var s := Numeral(value, radix);
    forall i | at <= i < at + n
      ensures buf[i] != NUL
    {
      assert buf[at + n - 1 - (at + n - 1 - i)] == s[at + n - 1 - i];
    }
    Strrev(buf, at, at + n);
  }

  /** Zeros in front do not change the value. */
  lemma {:induction false} ValuePadded(zeros: nat, s: seq<byte>, radix: nat)
    ensures Value(seq(zeros, i => ZERO) + s, radix) == Value(s, radix)
    decreases |s|, zeros
  {
    var t := seq(zeros, i => ZERO) + s;
    if s != [] {
      ValuePadded(zeros, s[..|s| - 1], radix);
      assert t[..|t| - 1] == seq(zeros, i => ZERO) + s[..|s| - 1];
    } else if zeros > 0 {
      ValuePadded(zeros - 1, s, radix);
      assert t[..|t| - 1] == seq(zeros - 1, i => ZERO) + s;
    }
  }

  /** printf("%#x"): always eight hexadecimal digits that denote the value. */
  method PrintHex(value: nat) returns (text: seq<byte>)
    requires value < WORD
    ensures |text| == 8 && Value(text, 16) == value
    ensures forall c :: c in text ==> 48 <= c <= 57 || 65 <= c <= 70
  {
    var conv := new byte[64];
    ghost var s := Numeral(value, 16);
    WordBounds();
    NumeralLength(value, 16, 16, 8);
    ghost var n := Itoa(value, conv, 8, 16);
    assert forall i :: 8 <= i < 8 + n ==> conv[i] == conv[8..8 + n][i - 8] == s[i - 8];
    var start := Strlen(conv, 8, 8 + n);
    PadZeros(conv, start);
    var len := Strlen(conv, start, 8 + n);
    text := conv[start..start + len];
    assert forall j :: 0 <= j < 8 ==> text[j] == conv[n + j] == if j < 8 - n then ZERO else s[j - (8 - n)];
    assert text == seq(8 - n, j => ZERO) + s;
    HexText(value, text);
  }

  /** The zeros in front of a short numeral. */
  method PadZeros(conv: array<byte>, start: nat)
    requires start <= 8 < conv.Length
    modifies conv
    ensures forall j :: 0 <= j < conv.Length ==> conv[j] == if start <= j < 8 then ZERO else old(conv[j])
  {
    var i := start;
    while i < 8
      invariant start <= i <= 8
      invariant forall j :: 0 <= j < conv.Length ==> conv[j] == if start <= j < i then ZERO else old(conv[j])
    {
      conv[i] := ZERO;
      i := i + 1;
    }
  }

  lemma HexText(value: nat, text: seq<byte>)
    requires |Numeral(value, 16)| <= 8 && text == seq(8 - |Numeral(value, 16)|, j => ZERO) + Numeral(value, 16)
    ensures |text| == 8 && Value(text, 16) == value
    ensures forall c :: c in text ==> 48 <= c <= 57 || 65 <= c <= 70
  {
    ValuePadded(8 - |Numeral(value, 16)|, Numeral(value, 16), 16);
    RoundTrip(value, 16);
    HexDigits(value);
  }

  lemma {:induction false} HexDigits(v: nat)
    ensures forall c :: c in Numeral(v, 16) ==> 48 <= c <= 57 || 65 <= c <= 70
  {
    var (q, d) := Split(v, 16);
    if q > 0 {
      HexDigits(q);
    }
  }
}
