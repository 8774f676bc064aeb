/** Strict UTF-8 decoding, as Python's `bytes.decode('utf-8')` performs it: a byte
    sequence decodes only if it is a concatenation of the well-formed byte sequences of
    table 3-7 of the Unicode Standard (no overlong forms, no surrogates, nothing above
    U+10FFFF, no truncated or stray continuation bytes).  The encoder is the partner:
    decoding inverts it, and every decodable byte sequence is the encoding of its text. */
module Utf8 {
  import opened Wrappers

  type Byte = b: int | 0 <= b < 256
  type Bytes = seq<Byte>

  predicate IsCont(b: Byte) { 0x80 <= b < 0xC0 }

  /** The range admitted for the second byte of a sequence led by `b0` (table 3-7). */
  function SecondLow(b0: Byte): Byte {
    if b0 == 0xE0 then 0xA0 else if b0 == 0xF0 then 0x90 else 0x80
  }

  function SecondHigh(b0: Byte): Byte {
    if b0 == 0xED then 0x9F else if b0 == 0xF4 then 0x8F else 0xBF
  }

  predicate SecondOk(b0: Byte, b1: Byte) { SecondLow(b0) <= b1 <= SecondHigh(b0) }

  /** Decodes the character at the front of `b` and says how many bytes it took. */
  function DecodeOne(b: Bytes): (r: Option<(char, nat)>)
    requires |b| > 0
    ensures r.Some? ==> 1 <= r.value.1 <= 4 && r.value.1 <= |b|
  {
    var b0: int := b[0];
    if b0 < 0x80 then
      Some((b0 as char, 1))
    else if 0xC2 <= b0 <= 0xDF then
      if |b| >= 2 && IsCont(b[1]) then
        Some((((b0 - 0xC0) * 64 + (b[1] as int - 0x80)) as char, 2))
      else None
    else if 0xE0 <= b0 <= 0xEF then
      if |b| >= 3 && SecondOk(b0, b[1]) && IsCont(b[2]) then
        Some((((b0 - 0xE0) * 4096 + (b[1] as int - 0x80) * 64 + (b[2] as int - 0x80)) as char, 3))
      else None
    else if 0xF0 <= b0 <= 0xF4 then
      if |b| >= 4 && SecondOk(b0, b[1]) && IsCont(b[2]) && IsCont(b[3]) then
        Some((((b0 - 0xF0) * 262144 + (b[1] as int - 0x80) * 4096 + (b[2] as int - 0x80) * 64 + (b[3] as int - 0x80)) as char, 4))
      else None
    else
      None
  }

  /** `b.decode('utf-8')`: the decoded text, or None where Python raises UnicodeDecodeError. */
  function Decode(b: Bytes): Option<string>
    decreases |b|
  {
    if b == [] then Some("")
    else
      match DecodeOne(b)
      case None => None
      case Some((c, n)) =>
        match Decode(b[n..])
        case None => None
        case Some(rest) => Some([c] + rest)
  }

  /** The shortest UTF-8 form of one character. */
  function EncodeChar(c: char): (r: Bytes)
    ensures 1 <= |r| <= 4
  {
    var n := c as int;
    if n < 0x80 then [n]
    else if n < 0x800 then [0xC0 + n / 64, 0x80 + n % 64]
    else if n < 0x10000 then [0xE0 + n / 64 / 64, 0x80 + n / 64 % 64, 0x80 + n % 64]
    else [0xF0 + n / 64 / 64 / 64, 0x80 + n / 64 / 64 % 64, 0x80 + n / 64 % 64, 0x80 + n % 64]
  }

  function Encode(s: string): Bytes {
    if s == "" then [] else EncodeChar(s[0]) + Encode(s[1..])
  }

  /** Division by 64 recovers the two parts of `q * 64 + r`. */
  lemma DivMod64(n: int, q: int, r: int)
    requires n == q * 64 + r && 0 <= r < 64
    ensures n / 64 == q && n % 64 == r
  {
  }

  /** Decoding the front of an encoded character gives that character back, whatever follows. */
  lemma DecodeOneEncodeChar(c: char, rest: Bytes)
    ensures DecodeOne(EncodeChar(c) + rest) == Some((c, |EncodeChar(c)|))
  {
    var n := c as int;
    if n < 0x80 {
    } else if n < 0x800 {
      DecodeOneTwo(c, rest);
    } else if n < 0x10000 {
      DecodeOneThree(c, rest);
    } else {
      DecodeOneFour(c, rest);
    }
  }

  lemma DecodeOneTwo(c: char, rest: Bytes)
    requires 0x80 <= c as int < 0x800
    ensures DecodeOne(EncodeChar(c) + rest) == Some((c, 2))
  {
    var n := c as int;
    var b := EncodeChar(c) + rest;
    var d1, r := n / 64, n % 64;
    assert n == d1 * 64 + r;
    assert b[0] == 0xC0 + d1 && b[1] == 0x80 + r;
  }

  lemma DecodeOneThree(c: char, rest: Bytes)
    requires 0x800 <= c as int < 0x10000
    ensures DecodeOne(EncodeChar(c) + rest) == Some((c, 3))
  {
    var n := c as int;
    var b := EncodeChar(c) + rest;
    var d1, r0 := n / 64, n % 64;
    var d2, r1 := d1 / 64, d1 % 64;
    assert n == d1 * 64 + r0 && d1 == d2 * 64 + r1;
    assert n == d2 * 4096 + r1 * 64 + r0;
    assert b[0] == 0xE0 + d2 && b[1] == 0x80 + r1 && b[2] == 0x80 + r0;
    assert d2 == 0 ==> r1 >= 32;
    assert d2 == 13 ==> r1 < 32;
  }

  lemma DecodeOneFour(c: char, rest: Bytes)
    requires 0x10000 <= c as int
    ensures DecodeOne(EncodeChar(c) + rest) == Some((c, 4))
  {
    var n := c as int;
    var b := EncodeChar(c) + rest;
    var d1, r0 := n / 64, n % 64;
    var d2, r1 := d1 / 64, d1 % 64;
    var d3, r2 := d2 / 64, d2 % 64;
    assert n == d1 * 64 + r0 && d1 == d2 * 64 + r1 && d2 == d3 * 64 + r2;
    assert n == d3 * 262144 + r2 * 4096 + r1 * 64 + r0;
    assert b[0] == 0xF0 + d3 && b[1] == 0x80 + r2 && b[2] == 0x80 + r1 && b[3] == 0x80 + r0;
    assert d3 == 0 ==> r2 >= 16;
    assert d3 == 4 ==> r2 < 16;
  }

  /** Whatever DecodeOne accepts is exactly the encoding of the character it yields. */
  lemma EncodeCharDecodeOne(b: Bytes)
    requires |b| > 0 && DecodeOne(b).Some?
    ensures EncodeChar(DecodeOne(b).value.0) == b[..DecodeOne(b).value.1]
  {
    var b0: int := b[0];
    if b0 < 0x80 {
    } else if b0 <= 0xDF {
      EncodeTwo(b);
    } else if b0 <= 0xEF {
      EncodeThree(b);
    } else {
      EncodeFour(b);
    }
  }

  lemma EncodeTwo(b: Bytes)
    requires |b| > 0 && DecodeOne(b).Some? && 0xC2 <= b[0] <= 0xDF
    ensures EncodeChar(DecodeOne(b).value.0) == b[..2]
  {
    var n := DecodeOne(b).value.0 as int;
    var q, r := b[0] as int - 0xC0, b[1] as int - 0x80;
    assert n == q * 64 + r;
    DivMod64(n, q, r);
  }

  lemma EncodeThree(b: Bytes)
    requires |b| > 0 && DecodeOne(b).Some? && 0xE0 <= b[0] <= 0xEF
    ensures EncodeChar(DecodeOne(b).value.0) == b[..3]
  {
    var n := DecodeOne(b).value.0 as int;
    var q, m, r := b[0] as int - 0xE0, b[1] as int - 0x80, b[2] as int - 0x80;
    assert n == (q * 64 + m) * 64 + r;
    DivMod64(n, q * 64 + m, r);
    DivMod64(q * 64 + m, q, m);
    assert 0x800 <= n < 0x10000;
  }

  lemma EncodeFour(b: Bytes)
    requires |b| > 0 && DecodeOne(b).Some? && 0xF0 <= b[0] <= 0xF4
    ensures EncodeChar(DecodeOne(b).value.0) == b[..4]
  {
    var n := DecodeOne(b).value.0 as int;
    var q, m1, m2, r := b[0] as int - 0xF0, b[1] as int - 0x80, b[2] as int - 0x80, b[3] as int - 0x80;
    assert n == ((q * 64 + m1) * 64 + m2) * 64 + r;
    DivMod64(n, (q * 64 + m1) * 64 + m2, r);
    DivMod64((q * 64 + m1) * 64 + m2, q * 64 + m1, m2);
    DivMod64(q * 64 + m1, q, m1);
    assert 0x10000 <= n;
  }

  /** Round trip: decoding the encoding of any text gives that text. */
  lemma {:induction false} DecodeEncode(s: string)
    ensures Decode(Encode(s)) == Some(s)
  {
    if s != "" {
      var e := EncodeChar(s[0]);
      assert Encode(s) == e + Encode(s[1..]);
      DecodeOneEncodeChar(s[0], Encode(s[1..]));
      assert (e + Encode(s[1..]))[|e|..] == Encode(s[1..]);
      DecodeEncode(s[1..]);
      assert [s[0]] + s[1..] == s;
    }
  }

  /** Every byte sequence that decodes is the encoding of its text: the decoder accepts
      exactly the canonical (shortest-form) encodings. */
  lemma {:induction false} EncodeDecode(b: Bytes)
    requires Decode(b).Some?
    ensures Encode(Decode(b).value) == b
    decreases |b|
  {
    if b != [] {
      var c, n := DecodeOne(b).value.0, DecodeOne(b).value.1;
      var rest := Decode(b[n..]).value;
      assert Decode(b) == Some([c] + rest);
      EncodeCharDecodeOne(b);
      EncodeDecode(b[n..]);
      assert ([c] + rest)[1..] == rest;
      assert Encode([c] + rest) == EncodeChar(c) + Encode(rest);
      assert b == b[..n] + b[n..];
    }
  }
}
