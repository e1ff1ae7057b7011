/**
 The Base64 encoder of ws_send_ical: a bit accumulator in an unsigned 32-bit variable, against the
 encoding of section 4 of RFC 4648, and the lines of section 6.8 of RFC 2045.
 */
module Base64 {
  import opened Wrappers

  type byte = x: int | 0 <= x < 256
  const TWO_32: int := 0x1_0000_0000
  const UPPER_CASE: string := "ABCDEFGHIJKLMNOPQRSTUVWXYZ"
  const LOWER_CASE: string := "abcdefghijklmnopqrstuvwxyz"
  const ALPHABET: string := UPPER_CASE + LOWER_CASE + "0123456789+/"
  const LINE := 76
  const CRLF: string := "\r\n"

  // ----- section 4 of RFC 4648 -----

  /** The character of a 6-bit value, by the ranges of the alphabet. */
  function CharOf(d: nat): (c: char)
    requires d < 64
    ensures c != '=' && c != '\r' && c != '\n'
  {
    if d < 26 then ('A' as int + d) as char
    else if d < 52 then ('a' as int + d - 26) as char
    else if d < 62 then ('0' as int + d - 52) as char
    else if d == 62 then '+' else '/'
  }

  /** Three bytes, the first one highest. */
  function Bits(a: byte, b: byte, c: byte): (n: nat)
    ensures n < 0x100_0000
  {
    var a': int, b': int, c': int := a, b, c;
    a' * 0x1_0000 + b' * 0x100 + c'
  }

  lemma BytesOfBits(a: byte, b: byte, c: byte)
    ensures var n := Bits(a, b, c);
      n / 0x1_0000 == a && n / 0x100 % 0x100 == b && n % 0x100 == c && n / 0x100 == n / 0x1_0000 * 0x100 + b
  {
    var a': int, b': int, c': int := a, b, c;
    assert Bits(a, b, c) / 0x100 == a' * 0x100 + b';
  }

  lemma SextetsOfBits(a: byte, b: byte, c: byte)
    ensures var n := Bits(a, b, c);
      && n / 0x4_0000 == a / 4 && n / 0x1000 % 64 == a % 4 * 16 + b / 16
      && n / 64 % 64 == b % 16 * 4 + c / 64 && n % 64 == c % 64
  {
    var a': int, b': int, c': int := a, b, c;
    var n := Bits(a, b, c);
    Quotient(n, 64, a' * 1024 + b' * 4 + c' / 64, c' % 64);
    Quotient(n / 64, 64, a' * 16 + b' / 16, b' % 16 * 4 + c' / 64);
    Quotient(n, 0x1000, a' * 16 + b' / 16, (b' % 16 * 4 + c' / 64) * 64 + c' % 64);
    Quotient(n / 0x1000, 64, a' / 4, a' % 4 * 16 + b' / 16);
    Quotient(n, 0x4_0000, a' / 4, (a' % 4 * 16 + b' / 16) * 0x1000 + (b' % 16 * 4 + c' / 64) * 64 + c' % 64);
  }

  lemma Quotient(x: nat, m: nat, q: nat, r: nat)
    requires (m == 64 || m == 0x1000 || m == 0x4_0000) && x == q * m + r && r < m
    ensures x / m == q && x % m == r
  {
    if m == 64 {
    } else if m == 0x1000 {
    }
  }

  /** Four characters for 24 bits. */
  function Quantum(n: nat): (q: string)
    requires n < 0x100_0000
    ensures |q| == 4
  {
    [CharOf(n / 0x4_0000), CharOf(n / 0x1000 % 64), CharOf(n / 64 % 64), CharOf(n % 64)]
  }

  /** Groups of 24 bits; at the end 8 or 16 bits are filled up with zero bits, and the quantum with padding. */
  function Encoding(s: seq<byte>): (t: string)
    ensures |t| == 4 * ((|s| + 2) / 3)
  {
    if |s| == 0 then ""
    else if |s| == 1 then Quantum(Bits(s[0], 0, 0))[..2] + "=="
    else if |s| == 2 then Quantum(Bits(s[0], s[1], 0))[..3] + "="
    else
      assert (|s| + 2) / 3 == (|s| - 3 + 2) / 3 + 1;
      Quantum(Bits(s[0], s[1], s[2])) + Encoding(s[3..])
  }

  // ----- decoding -----

  function ValueOf(c: char): Option<nat> {
    if 'A' <= c <= 'Z' then Some(c as int - 'A' as int)
    else if 'a' <= c <= 'z' then Some(c as int - 'a' as int + 26)
    else if '0' <= c <= '9' then Some(c as int - '0' as int + 52)
    else if c == '+' then Some(62) else if c == '/' then Some(63) else None
  }

  /** The value of up to four characters, the missing ones taken as zero. */
  function QuantumValue(q: string): (n: Option<nat>)
    requires |q| == 4
    ensures n.Some? ==> n.value < 0x100_0000
  {
    var a, b, c, d := ValueOf(q[0]), ValueOf(q[1]), ValueOf(q[2]), ValueOf(q[3]);
    if a.None? || b.None? || c.None? || d.None? then None
    else Some(a.value * 0x4_0000 + b.value * 0x1000 + c.value * 64 + d.value)
  }

  /** A strict decoder: padding only at the end, and the bits that fill up the last group must be zero. */
  function Decode(t: string): Option<seq<byte>> {
    if t == "" then Some([])
    else if |t| < 4 then None
    else if |t| == 4 && t[2] == '=' && t[3] == '=' then
      var n := QuantumValue(t[..2] + "AA");
      if n.None? || n.value % 0x1_0000 != 0 then None else Some([n.value / 0x1_0000])
    else if |t| == 4 && t[3] == '=' then
      var n := QuantumValue(t[..3] + "A");
      if n.None? || n.value % 0x100 != 0 then None else Some([n.value / 0x1_0000, n.value / 0x100 % 0x100])
    else
      var n, rest := QuantumValue(t[..4]), Decode(t[4..]);
      if n.None? || rest.None? then None
      else Some([n.value / 0x1_0000, n.value / 0x100 % 0x100, n.value % 0x100] + rest.value)
  }

  lemma CharValue(d: nat)
    requires d < 64
    ensures ValueOf(CharOf(d)) == Some(d)
  {
  }

  lemma ValueChar(c: char)
    requires ValueOf(c).Some?
    ensures ValueOf(c).value < 64 && CharOf(ValueOf(c).value) == c
  {
  }

  lemma QuantumRoundTrip(n: nat)
    requires n < 0x100_0000
    ensures QuantumValue(Quantum(n)) == Some(n)
  {
    assert n / 0x1000 == n / 0x4_0000 * 64 + n / 0x1000 % 64;
    assert n / 64 == n / 0x1000 * 64 + n / 64 % 64;
    CharValue(n / 0x4_0000);
    CharValue(n / 0x1000 % 64);
    CharValue(n / 64 % 64);
    CharValue(n % 64);
    hide ValueOf, CharOf;
  }

  lemma DigitsOf(a: nat, b: nat, c: nat, d: nat)
    requires a < 64 && b < 64 && c < 64 && d < 64
    ensures var n := a * 0x4_0000 + b * 0x1000 + c * 64 + d;
      n < 0x100_0000 && n / 0x4_0000 == a && n / 0x1000 % 64 == b && n / 64 % 64 == c && n % 64 == d
  {
    var n := a * 0x4_0000 + b * 0x1000 + c * 64 + d;
    assert n / 64 == a * 0x1000 + b * 64 + c;
    assert n / 0x1000 == a * 64 + b;
  }

  lemma ValueRoundTrip(q: string)
    requires |q| == 4 && QuantumValue(q).Some?
    ensures Quantum(QuantumValue(q).value) == q
  {
    forall i | 0 <= i < 4
      ensures ValueOf(q[i]).Some? && ValueOf(q[i]).value < 64 && CharOf(ValueOf(q[i]).value) == q[i]
    {
      ValueChar(q[i]);
    }
    hide ValueOf, CharOf;
    DigitsOf(ValueOf(q[0]).value, ValueOf(q[1]).value, ValueOf(q[2]).value, ValueOf(q[3]).value);
  }

  /** Decoding gives the input back. */
  lemma {:induction false} DecodesToInput(s: seq<byte>)
    ensures Decode(Encoding(s)) == Some(s)
  {
    hide Quantum, QuantumValue, Bits;
    var t := Encoding(s);
    if |s| == 1 {
      QuantumEndsInZeros(s[0], 0);
      QuantumRoundTrip(Bits(s[0], 0, 0));
      BytesOfBits(s[0], 0, 0);
      assert t[..2] + "AA" == Quantum(Bits(s[0], 0, 0)) && s == [s[0]];
    } else if |s| == 2 {
      QuantumEndsInZeros(s[0], s[1]);
      QuantumRoundTrip(Bits(s[0], s[1], 0));
      BytesOfBits(s[0], s[1], 0);
      NoPadding(Bits(s[0], s[1], 0));
      assert Quantum(Bits(s[0], s[1], 0))[2] in Quantum(Bits(s[0], s[1], 0));
      assert t[..3] + "A" == Quantum(Bits(s[0], s[1], 0)) && s == [s[0], s[1]];
    } else if |s| > 2 {
      var n := Bits(s[0], s[1], s[2]);
      QuantumRoundTrip(n);
      BytesOfBits(s[0], s[1], s[2]);
      NoPadding(n);
      DecodesToInput(s[3..]);
      assert t[..4] == Quantum(n) && t[4..] == Encoding(s[3..]);
      assert s == [s[0], s[1], s[2]] + s[3..];
    }
  }

  lemma NoPadding(n: nat)
    requires n < 0x100_0000
    ensures '=' !in Quantum(n)
  {
  }

  lemma QuantumEndsInZeros(a: byte, b: byte)
    ensures Quantum(Bits(a, b, 0))[3] == 'A' && Quantum(Bits(a, 0, 0))[2] == 'A'
  {
    SextetsOfBits(a, b, 0);
    SextetsOfBits(a, 0, 0);
    hide Bits;
  }

  /** Nothing else decodes to it: the encoding is the only strict one. */
  lemma {:induction false} OnlyTheEncodingDecodes(t: string)
    requires Decode(t).Some?
    ensures Encoding(Decode(t).value) == t
  {
    hide Quantum, QuantumValue, Bits;
    if t != "" {
      if t[2] == '=' && t[3] == '=' && |t| == 4 {
        ValueRoundTrip(t[..2] + "AA");
        BitsOfBytes(QuantumValue(t[..2] + "AA").value);
        assert t == t[..2] + "==";
      } else if t[3] == '=' && |t| == 4 {
        ValueRoundTrip(t[..3] + "A");
        BitsOfBytes(QuantumValue(t[..3] + "A").value);
        assert t == t[..3] + "=";
      } else {
        ValueRoundTrip(t[..4]);
        BitsOfBytes(QuantumValue(t[..4]).value);
        OnlyTheEncodingDecodes(t[4..]);
        assert Decode(t).value[3..] == Decode(t[4..]).value;
      }
    }
  }

  lemma BitsOfBytes(n: nat)
    requires n < 0x100_0000
    ensures Bits(n / 0x1_0000, n / 0x100 % 0x100, n % 0x100) == n
    ensures n % 0x1_0000 == 0 ==> n / 0x100 % 0x100 == 0 && n % 0x100 == 0
  {
  }

  // ----- the encoder -----

  function ByteAt(s: seq<byte>, k: nat): byte {
    if k < |s| then s[k] else 0
  }

  /** Six bits of the input from bit 6 j on, filled up with zeros. */
  function Sextet(s: seq<byte>, j: nat): (d: nat)
    ensures d < 64
  {
    var a := 3 * (j / 4);
    match j % 4
    case 0 => ByteAt(s, a) / 4
    case 1 => ByteAt(s, a) % 4 * 16 + ByteAt(s, a + 1) / 16
    case 2 => ByteAt(s, a + 1) % 16 * 4 + ByteAt(s, a + 2) / 64
    case _ => ByteAt(s, a + 2) % 64
  }

  /** How many characters carry bits. */
  function Digits(n: nat): nat {
    (8 * n + 5) / 6
  }

  /** The encoding, character by character. */
  lemma {:induction false} EncodingAt(s: seq<byte>, j: nat)
    requires j < |Encoding(s)|
    ensures Digits(|s|) <= |Encoding(s)|
    ensures Encoding(s)[j] == if j < Digits(|s|) then CharOf(Sextet(s, j)) else '='
  {
    hide Bits;
    if |s| <= 2 || j < 4 {
      FirstQuantum(s, j);
      hide Quantum, Sextet;
    } else {
      EncodingAt(s[3..], j - 4);
      hide Quantum;
      SextetShifts(s, j - 4);
    }
  }

  /** The alphabet, as what single bytes encode to. */
  lemma Alphabet(d: nat)
    requires d < 64
    ensures |Encoding([4 * d])| == 4
    ensures d < 26 ==> Encoding([4 * d])[0] == "ABCDEFGHIJKLMNOPQRSTUVWXYZ"[d]
    ensures 26 <= d < 52 ==> Encoding([4 * d])[0] == "abcdefghijklmnopqrstuvwxyz"[d - 26]
    ensures 52 <= d ==> Encoding([4 * d])[0] == "0123456789+/"[d - 52]
  {
    EncodingAt([4 * d], 0);
    assert Sextet([4 * d], 0) == d;
    hide Encoding;
    if d < 26 {
      Letters(d);
    } else if d < 52 {
      Letters(d - 26);
    }
  }

  lemma Letters(d: nat)
    requires d < 26
    ensures "ABCDEFGHIJKLMNOPQRSTUVWXYZ"[d] == ('A' as int + d) as char
    ensures "abcdefghijklmnopqrstuvwxyz"[d] == ('a' as int + d) as char
  {
  }

  lemma FirstQuantum(s: seq<byte>, j: nat)
    requires j < 4
    ensures Quantum(Bits(ByteAt(s, 0), ByteAt(s, 1), ByteAt(s, 2)))[j] == CharOf(Sextet(s, j))
  {
    SextetsOfBits(ByteAt(s, 0), ByteAt(s, 1), ByteAt(s, 2));
    hide CharOf, Bits;
  }

  lemma SextetShifts(s: seq<byte>, j: nat)
    requires |s| >= 3
    ensures Sextet(s[3..], j) == Sextet(s, j + 4)
  {
    assert (j + 4) / 4 == j / 4 + 1 && (j + 4) % 4 == j % 4;
    assert forall k: nat :: ByteAt(s[3..], k) == ByteAt(s, k + 3);
  }

  // ----- the bit accumulator -----

  /** An unsigned 32-bit number shifted left by eight: the upper eight bits are lost. */
  function ShiftLeft8(x: nat): (r: nat)
    ensures r <= TWO_32 - 256
  {
    x % 0x100_0000 * 0x100
  }

  function ShiftRight(x: nat, k: nat): nat {
    if k == 0 then x else ShiftRight(x / 2, k - 1)
  }

  lemma ShiftsRight(x: nat)
    ensures ShiftRight(x, 0) == x && ShiftRight(x, 2) == x / 4
    ensures ShiftRight(x, 4) == x / 16 && ShiftRight(x, 6) == x / 64
  {
    forall y: nat
      ensures ShiftRight(y, 2) == y / 4
    {
      assert ShiftRight(y / 2, 1) == ShiftRight(y / 2 / 2, 0);
    }
    assert ShiftRight(x, 4) == ShiftRight(x / 2, 3) == ShiftRight(x / 4, 2);
    assert ShiftRight(x, 6) == ShiftRight(x / 2, 5) == ShiftRight(x / 4, 4);
    assert ShiftRight(x / 4, 4) == ShiftRight(x / 8, 3) == ShiftRight(x / 16, 2);
  }

  /** Adding a byte: what is lost on the left does not reach the low 16 bits. */
  lemma Accumulates(val: nat, c: byte)
    ensures var val' := ShiftLeft8(val) + c;
      val' < TWO_32 && val' % 0x1_0000 == val % 0x100 * 0x100 + c && val' % 0x100 == c
  {
    var r, c': int := val % 0x100_0000, c;
    var q, low := r / 0x100, r % 0x100;
    assert low == val % 0x100;
    assert r * 0x100 + c' == q * 0x1_0000 + (low * 0x100 + c');
    LowHalf(r * 0x100 + c', q, low * 0x100 + c');
    LowByte(r * 0x100 + c', r, c');
  }

  lemma LowHalf(x: nat, q: nat, r: nat)
    requires x == q * 0x1_0000 + r && r < 0x1_0000
    ensures x % 0x1_0000 == r
  {
  }

  lemma LowByte(x: nat, q: nat, r: nat)
    requires x == q * 0x100 + r && r < 0x100
    ensures x % 0x100 == r
  {
  }

  lemma SextetsOfGroup(s: seq<byte>, q: nat)
    ensures Sextet(s, 4 * q) == ByteAt(s, 3 * q) / 4
    ensures Sextet(s, 4 * q + 1) == ByteAt(s, 3 * q) % 4 * 16 + ByteAt(s, 3 * q + 1) / 16
    ensures Sextet(s, 4 * q + 2) == ByteAt(s, 3 * q + 1) % 16 * 4 + ByteAt(s, 3 * q + 2) / 64
    ensures Sextet(s, 4 * q + 3) == ByteAt(s, 3 * q + 2) % 64
  {
    assert (4 * q + 1) / 4 == q && (4 * q + 2) / 4 == q && (4 * q + 3) / 4 == q;
    hide ByteAt;
  }

  /** The six bits taken in the inner loop are the next six of the input. */
  lemma TakesNextSextet(s: seq<byte>, i: nat, j: nat, val: nat, valb: int)
    requires i < |s| && valb == 8 * (i + 1) - 6 * j - 6 && 0 <= valb < 8
    requires val % 0x1_0000 == (if i > 0 then s[i - 1] else 0) as int * 0x100 + s[i] as int
    ensures ShiftRight(val, valb) % 64 == Sextet(s, j)
  {
    hide Sextet, ShiftRight;
    var q := i / 3;
    SextetsOfGroup(s, q);
    PositionOf(i, j, valb);
    TakesFrom(val, if i > 0 then s[i - 1] else 0, s[i], valb);
    assert ByteAt(s, i) == s[i] && (i > 0 ==> ByteAt(s, i - 1) == s[i - 1]);
    hide ByteAt;
  }

  /** Where in a group of three bytes and four characters the inner loop is. */
  lemma PositionOf(i: nat, j: nat, valb: int)
    requires valb == 8 * (i + 1) - 6 * j - 6 && 0 <= valb < 8
    ensures var q := i / 3;
      || (i == 3 * q && j == 4 * q && valb == 2)
      || (i == 3 * q + 1 && j == 4 * q + 1 && valb == 4)
      || (i == 3 * q + 2 && ((j == 4 * q + 2 && valb == 6) || (j == 4 * q + 3 && valb == 0)))
  {
  }

  /** Shifted right by 6, 4, 2 or 0, the low six bits come from one or two bytes. */
  lemma TakesFrom(val: nat, a: int, b: int, valb: nat)
    requires 0 <= a < 256 && 0 <= b < 256 && val % 0x1_0000 == a * 0x100 + b && valb in {0, 2, 4, 6}
    ensures var d := ShiftRight(val, valb) % 64;
      && (valb == 0 ==> d == b % 64) && (valb == 2 ==> d == b / 4)
      && (valb == 4 ==> d == a % 4 * 16 + b / 16) && (valb == 6 ==> d == a % 16 * 4 + b / 64)
  {
    ShiftsRight(val);
    LowSixBits(val, a, b);
    hide ShiftRight;
  }

  lemma Divides(x: nat, q: nat, m: nat, r: nat)
    requires (m == 4 || m == 16 || m == 64) && x == q * m + r && r < m
    ensures x / m == q && x % m == r
  {
    if m == 4 {
    } else if m == 16 {
    }
  }

  lemma LowSixBits(val: nat, a: int, b: int)
    requires 0 <= a < 256 && 0 <= b < 256 && val % 0x1_0000 == a * 0x100 + b
    ensures val % 64 == b % 64 && val / 4 % 64 == b / 4
    ensures val / 16 % 64 == a % 4 * 16 + b / 16 && val / 64 % 64 == a % 16 * 4 + b / 64
  {
    var q := val / 0x1_0000;
    assert val == q * 0x1_0000 + a * 0x100 + b;
    Divides(val, q * 0x400 + a * 4 + b / 64, 64, b % 64);
    Divides(val, q * 0x4000 + a * 64 + b / 4, 4, b % 4);
    Divides(val / 4, q * 0x100 + a, 64, b / 4);
    Divides(val, q * 0x1000 + a * 16 + b / 16, 16, b % 16);
    Divides(val / 16, q * 64 + a / 4, 64, a % 4 * 16 + b / 16);
    Divides(val / 64, q * 16 + a / 16, 64, a % 16 * 4 + b / 64);
  }

  /** The bits left at the end, filled up with zeros. */
  lemma TakesLastSextet(s: seq<byte>, j: nat, val: nat, valb: int)
    requires s != [] && valb == 8 * |s| - 6 * j - 6 && -6 < valb < 0 && val % 0x100 == s[|s| - 1]
    ensures ShiftRight(ShiftLeft8(val), valb + 8) % 64 == Sextet(s, j)
  {
    ShiftsRight(ShiftLeft8(val));
    Accumulates(val, 0);
    var a: int := s[|s| - 1];
    LowSixBits(ShiftLeft8(val), a, 0);
    hide ShiftLeft8, ShiftRight;
    var q := (|s| - 1) / 3;
    SextetsOfGroup(s, q);
    hide Sextet;
    assert |s| == 3 * q + 1 || |s| == 3 * q + 2 || |s| == 3 * q + 3;
  }

  lemma AlphabetAt(d: nat)
    requires d < 64
    ensures ALPHABET[d] == CharOf(d)
  {
  }

  /** The character for the low six bits. */
  function CharAt(x: nat): char {
    ALPHABET[x % 64]
  }

  /** The first characters of the encoding, before the padding. */
  ghost predicate Encoded(s: seq<byte>, result: string) {
    forall j :: 0 <= j < |result| ==> result[j] == CharOf(Sextet(s, j))
  }

  /** One round of the inner loop. */
  lemma NextCharacter(s: seq<byte>, i: nat, result: string, val: nat, valb: int)
    requires Encoded(s, result)
    requires i < |s| && valb == 8 * (i + 1) - 6 * |result| - 6 && 0 <= valb < 8
    requires val % 0x1_0000 == (if i > 0 then s[i - 1] else 0) as int * 0x100 + s[i] as int
    ensures Encoded(s, result + [CharAt(ShiftRight(val, valb))])
  {
    TakesNextSextet(s, i, |result|, val, valb);
    AlphabetAt(ShiftRight(val, valb) % 64);
    hide Sextet, CharOf, ShiftRight;
  }

  lemma LastCharacter(s: seq<byte>, result: string, val: nat, valb: int)
    requires Encoded(s, result)
    requires s != [] && valb == 8 * |s| - 6 * |result| - 6 && -6 < valb < 0 && val % 0x100 == s[|s| - 1]
    ensures Encoded(s, result + [CharAt(ShiftRight(ShiftLeft8(val), valb + 8))])
  {
    TakesLastSextet(s, |result|, val, valb);
    AlphabetAt(ShiftRight(ShiftLeft8(val), valb + 8) % 64);
    hide Sextet, CharOf, ShiftRight, ShiftLeft8;
  }

  method Base64Encode(input: seq<byte>) returns (result: string)
    ensures result == Encoding(input)
  {
    hide Encoding, Encoded, Sextet, ShiftLeft8, ShiftRight, CharOf, CharAt;
    result := "";
    EncodedNothing(input);
    var val: nat, valb: int := 0, -6;
    for i := 0 to |input|
      invariant val < TWO_32 && (i > 0 ==> val % 0x100 == input[i - 1]) && (i == 0 ==> val == 0)
      invariant valb == 8 * i - 6 * |result| - 6 && -6 <= valb < 0 && Encoded(input, result)
    {
      Accumulates(val, input[i]);
      val := ShiftLeft8(val) + input[i];
      valb := valb + 8;
      while valb >= 0
        invariant valb == 8 * (i + 1) - 6 * |result| - 6 && -6 <= valb < 8 && Encoded(input, result)
      {
        NextCharacter(input, i, result, val, valb);
        result := result + [CharAt(ShiftRight(val, valb))];
        valb := valb - 6;
      }
    }
    if valb > -6 {
      LastCharacter(input, result, val, valb);
      result := result + [CharAt(ShiftRight(ShiftLeft8(val), valb + 8))];
    }
    result := Pad(input, result);
  }

  lemma EncodedNothing(s: seq<byte>)
    ensures Encoded(s, "")
  {
  }

  /** The padding up to a multiple of four characters. */
  method Pad(ghost input: seq<byte>, digits: string) returns (result: string)
    requires Encoded(input, digits) && |digits| == Digits(|input|)
    ensures result == Encoding(input)
  {
    hide Encoding, Sextet, CharOf;
    result := digits;
    while |result| % 4 != 0
      invariant |digits| <= |result| <= 4 * ((|input| + 2) / 3)
      invariant result[..|digits|] == digits && forall j :: |digits| <= j < |result| ==> result[j] == '='
      decreases 4 * ((|input| + 2) / 3) - |result|
    {
      result := result + "=";
    }
    forall j | 0 <= j < |result|
      ensures result[j] == Encoding(input)[j]
    {
      EncodingAt(input, j);
      assert j < |digits| ==> result[..|digits|][j] == result[j];
    }
  }

  // ----- lines -----

  /** The lines of an encoded body: all of 76 characters but the last. */
  function Lines(t: string): seq<string>
    decreases |t|
  {
    if |t| == 0 then [] else if |t| <= LINE then [t] else [t[..LINE]] + Lines(t[LINE..])
  }

  function Concat(lines: seq<string>): string {
    if lines == [] then "" else lines[0] + Concat(lines[1..])
  }

  function Terminated(lines: seq<string>): string {
    if lines == [] then "" else lines[0] + CRLF + Terminated(lines[1..])
  }

  /** The loop of generateMail that writes the encoded attachment. */
  method AppendLines(encoded: string) returns (mail: string)
    ensures mail == Terminated(Lines(encoded))
  {
    mail := "";
    var i := 0;
    while i < |encoded|
      invariant i <= |encoded| + LINE
      invariant Terminated(Lines(encoded)) == mail + Terminated(Lines(From(encoded, i)))
    {
      FirstLine(encoded, i);
      hide Lines, Terminated, From;
      mail := mail + encoded[i..if i + LINE < |encoded| then i + LINE else |encoded|] + CRLF;
      i := i + LINE;
    }
  }

  function From(t: string, i: nat): string {
    if i < |t| then t[i..] else ""
  }

  lemma FirstLine(t: string, i: nat)
    requires i < |t|
    ensures Terminated(Lines(From(t, i)))
         == t[i..if i + LINE < |t| then i + LINE else |t|] + CRLF + Terminated(Lines(From(t, i + LINE)))
  {
    var rest := From(t, i);
    assert Lines(rest)[1..] == Lines(From(t, i + LINE)) by {
      assert |rest| > LINE ==> rest[LINE..] == t[i + LINE..];
    }
    hide Terminated;
    TerminatedStep(Lines(rest));
  }

  /** Every line is ended by carriage return and line feed. */
  lemma TerminatedStep(lines: seq<string>)
    requires lines != []
    ensures Terminated(lines) == lines[0] + "\r\n" + Terminated(lines[1..])
  {
  }

  /** Section 6.8 of RFC 2045: lines of at most 76 characters, and together they are the encoding. */
  lemma {:induction false} LinesAreTheEncoding(t: string)
    ensures Concat(Lines(t)) == t
    ensures forall k :: 0 <= k < |Lines(t)| ==> 0 < |Lines(t)[k]| <= 76
    ensures forall k :: 0 <= k < |Lines(t)| - 1 ==> |Lines(t)[k]| == 76
    decreases |t|
  {
    if |t| > LINE {
      LinesAreTheEncoding(t[LINE..]);
      assert Lines(t)[1..] == Lines(t[LINE..]);
    }
  }

  /** What a reader does with line ends: characters outside the alphabet are ignored. */
  function WithoutLineEnds(t: string): string {
    if t == "" then "" else
    (if t[0] == '\r' || t[0] == '\n' then "" else [t[0]]) + WithoutLineEnds(t[1..])
  }

  predicate NoLineEnds(t: string) {
    forall i :: 0 <= i < |t| ==> t[i] != '\r' && t[i] != '\n'
  }

  lemma {:induction false} LineEndsGo(t: string, rest: string)
    requires NoLineEnds(t)
    ensures WithoutLineEnds(t + CRLF + rest) == t + WithoutLineEnds(rest)
  {
    if t == "" {
      assert (t + CRLF + rest)[1..][1..] == rest;
    } else {
      LineEndsGo(t[1..], rest);
      assert (t + CRLF + rest)[1..] == t[1..] + CRLF + rest;
    }
  }

  lemma {:induction false} LineEndsAllGo(t: string)
    requires NoLineEnds(t)
    ensures WithoutLineEnds(Terminated(Lines(t))) == t
    decreases |t|
  {
    if |t| > LINE {
      LineEndsAllGo(t[LINE..]);
      LineEndsGo(t[..LINE], Terminated(Lines(t[LINE..])));
      assert Lines(t)[1..] == Lines(t[LINE..]);
    } else if t != "" {
      LineEndsGo(t, "");
      assert Lines(t)[1..] == [];
    }
  }

  /** From the bytes to the lines of the mail and back. */
  lemma MailRoundTrip(input: seq<byte>)
    ensures Decode(WithoutLineEnds(Terminated(Lines(Encoding(input))))) == Some(input)
  {
    forall j | 0 <= j < |Encoding(input)|
      ensures Encoding(input)[j] != '\r' && Encoding(input)[j] != '\n'
    {
      EncodingAt(input, j);
    }
    LineEndsAllGo(Encoding(input));
    DecodesToInput(input);
  }
}
