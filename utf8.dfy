/**
 * UTF-8 as Python's str.encode('utf-8') and bytes.decode('utf-8') use it: the encoder of
 * section 3 of RFC 3629, and a decoder that accepts only well-formed input (no overlong
 * forms, no surrogates, nothing above U+10FFFF).
 */
module Utf8 {
  import opened Wrappers
  import opened Text

  /** The bytes encoding one code point. */
  function EncodeChar(c: char): (b: seq<byte>)
    ensures 1 <= |b| <= 4
  {
    var n := c as int;
    if n < 0x80 then [n]
    else if n < 0x800 then [0xC0 + n / 64, 0x80 + n % 64]
    else if n < 0x10000 then [0xE0 + n / 4096, 0x80 + (n / 64) % 64, 0x80 + n % 64]
    else [0xF0 + n / 262144, 0x80 + (n / 4096) % 64, 0x80 + (n / 64) % 64, 0x80 + n % 64]
  }

  function Encode(s: string): (b: seq<byte>)
    ensures |s| <= |b| <= 4 * |s|
  {
    if |s| == 0 then [] else EncodeChar(s[0]) + Encode(s[1..])
  }

  predicate IsContinuation(b: byte)
  {
    0x80 <= b < 0xC0
  }

  /** A scalar value: a code point that is not a surrogate. */
  predicate IsScalar(n: int)
  {
    0 <= n < 0xD800 || 0xE000 <= n < 0x110000
  }

  /** The code point carried by a lead byte and k - 1 continuation bytes. */
  function Payload(b: seq<byte>, k: nat): int
    requires 2 <= k <= 4 && |b| >= k
  {
    var b1: int, b2: int, b3: int := b[1], if k > 2 then b[2] else 0, if k > 3 then b[3] else 0;
    if k == 2 then (b[0] - 0xC0) * 64 + (b1 - 0x80)
    else if k == 3 then (b[0] - 0xE0) * 4096 + (b1 - 0x80) * 64 + (b2 - 0x80)
    else (b[0] - 0xF0) * 262144 + (b1 - 0x80) * 4096 + (b2 - 0x80) * 64 + (b3 - 0x80)
  }

  /** The first character of well-formed input, with the number of bytes it took. */
  function DecodeChar(b: seq<byte>): (r: Option<(char, nat)>)
    requires |b| > 0
    ensures r.Some? ==> 1 <= r.value.1 <= |b|
  {
    var b0: int := b[0];
    if b0 < 0x80 then Some((b0 as char, 1))
    else if 0xC2 <= b0 < 0xE0 && |b| >= 2 && IsContinuation(b[1]) then
      Some((Payload(b, 2) as char, 2))
    else if 0xE0 <= b0 < 0xF0 && |b| >= 3 && IsContinuation(b[1]) && IsContinuation(b[2]) then
      var n := Payload(b, 3);
      if 0x800 <= n && IsScalar(n) then Some((n as char, 3)) else None
    else if 0xF0 <= b0 < 0xF5 && |b| >= 4 && IsContinuation(b[1]) && IsContinuation(b[2]) && IsContinuation(b[3]) then
      var n := Payload(b, 4);
      if 0x10000 <= n < 0x110000 then Some((n as char, 4)) else None
    else None
  }

  /** bytes.decode('utf-8'): None where Python raises UnicodeDecodeError. */
  function Decode(b: seq<byte>): Option<string>
    decreases |b|
  {
    if |b| == 0 then Some("")
    else
      match DecodeChar(b)
      case None => None
      case Some((c, k)) =>
        match Decode(b[k..])
        case None => None
        case Some(rest) => Some([c] + rest)
  }

  lemma DecodeEncodeChar(c: char, rest: seq<byte>)
    ensures DecodeChar(EncodeChar(c) + rest) == Some((c, |EncodeChar(c)|))
  {
    var n := c as int;
    var b := EncodeChar(c) + rest;
    if n < 0x80 {
    } else if n < 0x800 {
      assert (n / 64) * 64 + n % 64 == n;
    } else if n < 0x10000 {
      var q := n / 64;
      assert q * 64 + n % 64 == n;
      assert (q / 64) * 64 + q % 64 == q;
      assert n / 4096 == q / 64;
      assert Payload(b, 3) == n;
    } else {
      var q := n / 64;
      var p := q / 64;
      assert q * 64 + n % 64 == n;
      assert p * 64 + q % 64 == q;
      assert (p / 64) * 64 + p % 64 == p;
      assert n / 4096 == p;
      assert n / 262144 == p / 64;
      assert Payload(b, 4) == n;
    }
  }

  /** Decoding undoes encoding. */
  lemma {:induction false} DecodeEncode(s: string)
    ensures Decode(Encode(s)) == Some(s)
  {
    if |s| > 0 {
      var head := EncodeChar(s[0]);
      var tail := Encode(s[1..]);
      DecodeEncodeChar(s[0], tail);
      assert (head + tail)[|head|..] == tail;
      DecodeEncode(s[1..]);
      assert [s[0]] + s[1..] == s;
    }
  }

  lemma EncodeDecodeChar(b: seq<byte>)
    requires |b| > 0 && DecodeChar(b).Some?
    ensures EncodeChar(DecodeChar(b).value.0) == b[..DecodeChar(b).value.1]
  {
    var k := DecodeChar(b).value.1;
    if k == 1 {
      assert b[..1] == [b[0]];
    } else if k == 2 {
      EncodeTwo(b);
    } else if k == 3 {
      EncodeThree(b);
    } else {
      EncodeFour(b);
    }
  }

  lemma EncodeTwo(b: seq<byte>)
    requires |b| >= 2 && 0xC2 <= b[0] < 0xE0 && IsContinuation(b[1])
    ensures EncodeChar(Payload(b, 2) as char) == b[..2]
  {
    var x0: int, x1: int := b[0], b[1];
    DivMod64(Payload(b, 2), x0 - 0xC0, x1 - 0x80);
    assert b[..2] == [b[0], b[1]];
  }

  lemma EncodeThree(b: seq<byte>)
    requires |b| >= 3 && 0xE0 <= b[0] < 0xF0 && IsContinuation(b[1]) && IsContinuation(b[2])
    requires 0x800 <= Payload(b, 3) && IsScalar(Payload(b, 3))
    ensures EncodeChar(Payload(b, 3) as char) == b[..3]
  {
    var x0: int, x1: int, x2: int := b[0], b[1], b[2];
    var n := Payload(b, 3);
    var q := (x0 - 0xE0) * 64 + (x1 - 0x80);
    DivMod64(n, q, x2 - 0x80);
    DivMod64(q, x0 - 0xE0, x1 - 0x80);
    DivMod4096(n, x0 - 0xE0, (x1 - 0x80) * 64 + (x2 - 0x80));
    assert b[..3] == [b[0], b[1], b[2]];
  }

  lemma EncodeFour(b: seq<byte>)
    requires |b| >= 4 && 0xF0 <= b[0] < 0xF5 && IsContinuation(b[1]) && IsContinuation(b[2]) && IsContinuation(b[3])
    requires 0x10000 <= Payload(b, 4) < 0x110000
    ensures EncodeChar(Payload(b, 4) as char) == b[..4]
  {
    var x0: int, x1: int, x2: int, x3: int := b[0], b[1], b[2], b[3];
    var n := Payload(b, 4);
    var p := (x0 - 0xF0) * 64 + (x1 - 0x80);
    var q := p * 64 + (x2 - 0x80);
    DivMod64(n, q, x3 - 0x80);
    DivMod64(q, p, x2 - 0x80);
    DivMod64(p, x0 - 0xF0, x1 - 0x80);
    DivMod4096(n, p, (x2 - 0x80) * 64 + (x3 - 0x80));
    DivMod262144(n, x0 - 0xF0, (x1 - 0x80) * 4096 + (x2 - 0x80) * 64 + (x3 - 0x80));
    assert b[..4] == [b[0], b[1], b[2], b[3]];
  }

  lemma DivMod64(n: int, q: int, r: int)
    requires 0 <= r < 64 && n == q * 64 + r
    ensures n / 64 == q && n % 64 == r
  {
  }

  lemma DivMod4096(n: int, q: int, r: int)
    requires 0 <= r < 4096 && n == q * 4096 + r
    ensures n / 4096 == q && n % 4096 == r
  {
  }

  lemma DivMod262144(n: int, q: int, r: int)
    requires 0 <= r < 262144 && n == q * 262144 + r
    ensures n / 262144 == q && n % 262144 == r
  {
  }

  /** Well-formed UTF-8 has exactly one spelling: only the encoding of a text decodes to it. */
  lemma {:induction false} EncodeDecode(b: seq<byte>)
    requires Decode(b).Some?
    ensures Encode(Decode(b).value) == b
    decreases |b|
  {
    if |b| > 0 {
      var (c, k) := DecodeChar(b).value;
      EncodeDecodeChar(b);
      EncodeDecode(b[k..]);
      EncodeCons(c, Decode(b[k..]).value);
      SplitBytes(b, k);
    }
  }

  lemma EncodeCons(c: char, s: string)
    ensures Encode([c] + s) == EncodeChar(c) + Encode(s)
  {
    assert ([c] + s)[1..] == s;
  }

  lemma SplitBytes(b: seq<byte>, k: nat)
    requires k <= |b|
    ensures b[..k] + b[k..] == b
  {
  }
}
