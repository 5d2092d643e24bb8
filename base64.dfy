/**
 * The Base 64 encoding of section 4 of RFC 4648 (standard alphabet, "=" padding),
 * the text-safe transform applied to every stored value.
 */
module Base64 {
  import opened Wrappers
  import opened Text

  type sextet = v: int | 0 <= v < 64

  /** A character of the alphabet of table 1 in section 4 of RFC 4648. */
  predicate IsAlphabet(c: char)
  {
    'A' <= c <= 'Z' || 'a' <= c <= 'z' || '0' <= c <= '9' || c == '+' || c == '/'
  }

  /** Table 1 of section 4 of RFC 4648: the character encoding a 6-bit value. */
  function CharOf(v: sextet): (c: char)
    ensures IsAlphabet(c)
    ensures ValueOf(c) == Some(v)
  {
    if v < 26 then ('A' as int + v) as char
    else if v < 52 then ('a' as int + v - 26) as char
    else if v < 62 then ('0' as int + v - 52) as char
    else if v == 62 then '+'
    else '/'
  }

  /** The inverse of table 1; None for a character outside the alphabet. */
  function ValueOf(c: char): (r: Option<sextet>)
    ensures r.Some? <==> IsAlphabet(c)
  {
    if 'A' <= c <= 'Z' then Some(c as int - 'A' as int)
    else if 'a' <= c <= 'z' then Some(c as int - 'a' as int + 26)
    else if '0' <= c <= '9' then Some(c as int - '0' as int + 52)
    else if c == '+' then Some(62)
    else if c == '/' then Some(63)
    else None
  }

  lemma CharOfValueOf(c: char)
    requires IsAlphabet(c)
    ensures CharOf(ValueOf(c).value) == c
  {
  }

  /** A character that can appear in encoded output. */
  predicate IsEncodedChar(c: char)
  {
    IsAlphabet(c) || c == '='
  }

  /** Three octets become four characters. */
  function EncodeQuantum(b0: byte, b1: byte, b2: byte): string
  {
    [CharOf(b0 / 4), CharOf((b0 % 4) * 16 + b1 / 16), CharOf((b1 % 16) * 4 + b2 / 64), CharOf(b2 % 64)]
  }

  /** Python's base64.b64encode: the whole input, padded with "=" to a multiple of four characters. */
  function Encode(b: seq<byte>): (s: string)
    ensures |s| == 4 * ((|b| + 2) / 3)
    ensures forall i :: 0 <= i < |s| ==> IsEncodedChar(s[i])
    decreases |b|
  {
    if |b| == 0 then ""
    else if |b| == 1 then [CharOf(b[0] / 4), CharOf((b[0] % 4) * 16), '=', '=']
    else if |b| == 2 then [CharOf(b[0] / 4), CharOf((b[0] % 4) * 16 + b[1] / 16), CharOf((b[1] % 16) * 4), '=']
    else EncodeQuantum(b[0], b[1], b[2]) + Encode(b[3..])
  }

  /**
   * Four characters become up to three octets. Padding is accepted only in the final
   * quantum, and the bits the padding discards must be zero, so only canonical text decodes.
   */
  function DecodeQuantum(q: string, last: bool): Option<seq<byte>>
    requires |q| == 4
  {
    var v0, v1, v2, v3 := ValueOf(q[0]), ValueOf(q[1]), ValueOf(q[2]), ValueOf(q[3]);
    if v0.None? || v1.None? then None
    else if v2.Some? && v3.Some? then
      Some([v0.value * 4 + v1.value / 16, (v1.value % 16) * 16 + v2.value / 4, (v2.value % 4) * 64 + v3.value])
    else if !last || q[3] != '=' then None
    else if q[2] == '=' then
      if v1.value % 16 == 0 then Some([v0.value * 4 + v1.value / 16]) else None
    else if v2.Some? && v2.value % 4 == 0 then
      Some([v0.value * 4 + v1.value / 16, (v1.value % 16) * 16 + v2.value / 4])
    else None
  }

  /** Decoding of canonical padded Base 64; None for any other text. */
  function Decode(s: string): Option<seq<byte>>
    decreases |s|
  {
    if |s| == 0 then Some([])
    else if |s| < 4 then None
    else
      match DecodeQuantum(s[..4], |s| == 4)
      case None => None
      case Some(head) =>
        match Decode(s[4..])
        case None => None
        case Some(tail) => Some(head + tail)
  }

  /** (hi * m + lo) / m == hi and (hi * m + lo) % m == lo for a digit lo of base m. */
  lemma DivModDigits(hi: int, lo: int, m: int)
    requires m == 4 || m == 16 || m == 64
    requires 0 <= lo < m && 0 <= hi
    ensures (hi * m + lo) / m == hi && (hi * m + lo) % m == lo
  {
    if m == 4 {
      assert (hi * 4 + lo) / 4 == hi;
    } else if m == 16 {
      assert (hi * 16 + lo) / 16 == hi;
    } else {
      assert (hi * 64 + lo) / 64 == hi;
    }
  }

  lemma QuantumRoundTrip(b0: byte, b1: byte, b2: byte, last: bool)
    ensures DecodeQuantum(EncodeQuantum(b0, b1, b2), last) == Some([b0, b1, b2])
  {
    var v0, v1, v2, v3 := b0 / 4, (b0 % 4) * 16 + b1 / 16, (b1 % 16) * 4 + b2 / 64, b2 % 64;
    DivModDigits(b0 % 4, b1 / 16, 16);
    DivModDigits(b1 % 16, b2 / 64, 4);
    assert v0 * 4 + v1 / 16 == b0;
    assert (v1 % 16) * 16 + v2 / 4 == b1;
    assert (v2 % 4) * 64 + v3 == b2;
  }

  /** Decoding undoes encoding. */
  lemma {:induction false} DecodeEncode(b: seq<byte>)
    ensures Decode(Encode(b)) == Some(b)
    decreases |b|
  {
    if |b| >= 3 {
      var q := EncodeQuantum(b[0], b[1], b[2]);
      var rest := Encode(b[3..]);
      QuantumRoundTrip(b[0], b[1], b[2], |rest| == 0);
      DecodeEncode(b[3..]);
      DecodeCat(q, rest, [b[0], b[1], b[2]], b[3..]);
      SplitThree(b);
    } else if |b| == 2 {
      DecodeEncodeTwo(b[0], b[1]);
      assert [b[0], b[1]] == b;
    } else if |b| == 1 {
      DecodeEncodeOne(b[0]);
      assert [b[0]] == b;
    }
  }

  /** A quantum followed by decodable text decodes to the quantum's octets followed by the text's. */
  lemma DecodeCat(q: string, rest: string, h: seq<byte>, t: seq<byte>)
    requires |q| == 4 && DecodeQuantum(q, |rest| == 0) == Some(h) && Decode(rest) == Some(t)
    ensures Decode(q + rest) == Some(h + t)
  {
    assert (q + rest)[..4] == q;
    assert (q + rest)[4..] == rest;
  }

  lemma SplitThree(b: seq<byte>)
    requires |b| >= 3
    ensures [b[0], b[1], b[2]] + b[3..] == b
  {
  }

  lemma DecodeEncodeTwo(b0: byte, b1: byte)
    ensures Decode(Encode([b0, b1])) == Some([b0, b1])
  {
    QuantumTwo(b0, b1);
    DecodeLast(Encode([b0, b1]), [b0, b1]);
  }

  lemma QuantumTwo(b0: byte, b1: byte)
    ensures DecodeQuantum(Encode([b0, b1]), true) == Some([b0, b1])
  {
    TwoOctetValues(b0, b1);
    DecodeTwoChars(b0 / 4, (b0 % 4) * 16 + b1 / 16, (b1 % 16) * 4);
  }

  lemma TwoOctetValues(b0: byte, b1: byte)
    ensures var v0, v1, v2 := b0 / 4, (b0 % 4) * 16 + b1 / 16, (b1 % 16) * 4;
      0 <= v1 < 64 && 0 <= v2 < 64 && v2 % 4 == 0 && v0 * 4 + v1 / 16 == b0 && (v1 % 16) * 16 + v2 / 4 == b1
  {
    DivModDigits(b0 % 4, b1 / 16, 16);
    DivModDigits(b1 % 16, 0, 4);
  }

  /** Three alphabet characters and "=" decode to two octets. */
  lemma DecodeTwoChars(v0: sextet, v1: sextet, v2: sextet)
    requires v2 % 4 == 0
    ensures DecodeQuantum([CharOf(v0), CharOf(v1), CharOf(v2), '='], true) ==
      Some([v0 * 4 + v1 / 16, (v1 % 16) * 16 + v2 / 4])
  {
    var q := [CharOf(v0), CharOf(v1), CharOf(v2), '='];
    assert ValueOf(q[3]).None? && q[2] != '=';
  }

  lemma DecodeEncodeOne(b0: byte)
    ensures Decode(Encode([b0])) == Some([b0])
  {
    QuantumOne(b0);
    DecodeLast(Encode([b0]), [b0]);
  }

  lemma QuantumOne(b0: byte)
    ensures DecodeQuantum(Encode([b0]), true) == Some([b0])
  {
    DivModDigits(b0 % 4, 0, 16);
  }

  /** A single final quantum decodes as the whole text. */
  lemma DecodeLast(q: string, h: seq<byte>)
    requires |q| == 4 && DecodeQuantum(q, true) == Some(h)
    ensures Decode(q) == Some(h)
  {
    assert q[..4] == q && q[4..] == [];
    assert h + [] == h;
  }

  lemma QuantumCanonical(q: string, last: bool)
    requires |q| == 4
    requires DecodeQuantum(q, last).Some?
    ensures var h := DecodeQuantum(q, last).value;
      1 <= |h| <= 3 && (|h| < 3 ==> last) && Encode(h) == q
  {
    if IsAlphabet(q[2]) && IsAlphabet(q[3]) {
      CanonicalFull(q, last);
    } else if q[2] == '=' {
      CanonicalOne(q);
    } else {
      CanonicalTwo(q);
    }
  }

  lemma CanonicalFull(q: string, last: bool)
    requires |q| == 4 && IsAlphabet(q[0]) && IsAlphabet(q[1]) && IsAlphabet(q[2]) && IsAlphabet(q[3])
    ensures DecodeQuantum(q, last).Some?
    ensures var h := DecodeQuantum(q, last).value; |h| == 3 && Encode(h) == q
  {
    DecodeFull(q, last);
    EncodeFull(DecodeQuantum(q, last).value, q, ValueOf(q[0]).value, ValueOf(q[1]).value, ValueOf(q[2]).value, ValueOf(q[3]).value);
  }

  /** Four alphabet characters decode to three octets made of their sextets. */
  lemma DecodeFull(q: string, last: bool)
    requires |q| == 4 && IsAlphabet(q[0]) && IsAlphabet(q[1]) && IsAlphabet(q[2]) && IsAlphabet(q[3])
    ensures DecodeQuantum(q, last).Some?
    ensures var h := DecodeQuantum(q, last).value;
      var v0, v1, v2, v3 := ValueOf(q[0]).value, ValueOf(q[1]).value, ValueOf(q[2]).value, ValueOf(q[3]).value;
      && |h| == 3
      && h[0] / 4 == v0 && (h[0] % 4) * 16 + h[1] / 16 == v1 && (h[1] % 16) * 4 + h[2] / 64 == v2 && h[2] % 64 == v3
  {
    DecodeFullShape(q, last);
    FullValues(ValueOf(q[0]).value, ValueOf(q[1]).value, ValueOf(q[2]).value, ValueOf(q[3]).value);
  }

  lemma DecodeFullShape(q: string, last: bool)
    requires |q| == 4 && IsAlphabet(q[0]) && IsAlphabet(q[1]) && IsAlphabet(q[2]) && IsAlphabet(q[3])
    ensures var v0, v1, v2, v3 := ValueOf(q[0]).value, ValueOf(q[1]).value, ValueOf(q[2]).value, ValueOf(q[3]).value;
      DecodeQuantum(q, last) == Some([v0 * 4 + v1 / 16, (v1 % 16) * 16 + v2 / 4, (v2 % 4) * 64 + v3])
  {
  }

  lemma CanonicalOne(q: string)
    requires |q| == 4 && IsAlphabet(q[0]) && IsAlphabet(q[1]) && q[2] == '=' && q[3] == '='
    requires ValueOf(q[1]).value % 16 == 0
    ensures DecodeQuantum(q, true).Some?
    ensures var h := DecodeQuantum(q, true).value; |h| == 1 && Encode(h) == q
  {
    var v0: int, v1: int := ValueOf(q[0]).value, ValueOf(q[1]).value;
    var h1: seq<byte> := [v0 * 4 + v1 / 16];
    assert DecodeQuantum(q, true) == Some(h1);
    OneValues(v0, v1);
    EncodeOne(h1, q, v0, v1);
  }

  lemma CanonicalTwo(q: string)
    requires |q| == 4 && IsAlphabet(q[0]) && IsAlphabet(q[1]) && IsAlphabet(q[2]) && q[3] == '='
    requires ValueOf(q[2]).value % 4 == 0
    ensures DecodeQuantum(q, true).Some?
    ensures var h := DecodeQuantum(q, true).value; |h| == 2 && Encode(h) == q
  {
    var v0: int, v1: int, v2: int := ValueOf(q[0]).value, ValueOf(q[1]).value, ValueOf(q[2]).value;
    var h2: seq<byte> := [v0 * 4 + v1 / 16, (v1 % 16) * 16 + v2 / 4];
    assert DecodeQuantum(q, true) == Some(h2);
    TwoValues(v0, v1, v2);
    EncodeTwo(h2, q, v0, v1, v2);
  }

  /** Three octets whose sextets are those of the four characters of q encode as q. */
  lemma EncodeFull(h: seq<byte>, q: string, v0: sextet, v1: sextet, v2: sextet, v3: sextet)
    requires |h| == 3 && |q| == 4
    requires ValueOf(q[0]) == Some(v0) && ValueOf(q[1]) == Some(v1) && ValueOf(q[2]) == Some(v2) && ValueOf(q[3]) == Some(v3)
    requires h[0] / 4 == v0 && (h[0] % 4) * 16 + h[1] / 16 == v1 && (h[1] % 16) * 4 + h[2] / 64 == v2 && h[2] % 64 == v3
    ensures Encode(h) == q
  {
    CharsOfValues(q);
    assert h[3..] == [];
    assert EncodeQuantum(h[0], h[1], h[2]) + "" == EncodeQuantum(h[0], h[1], h[2]);
  }

  /** Two octets whose sextets are those of the first three characters of q, then "=", encode as q. */
  lemma EncodeTwo(h: seq<byte>, q: string, v0: sextet, v1: sextet, v2: sextet)
    requires |h| == 2 && |q| == 4 && q[3] == '='
    requires ValueOf(q[0]) == Some(v0) && ValueOf(q[1]) == Some(v1) && ValueOf(q[2]) == Some(v2)
    requires h[0] / 4 == v0 && (h[0] % 4) * 16 + h[1] / 16 == v1 && (h[1] % 16) * 4 == v2
    ensures Encode(h) == q
  {
    CharsOfValues(q[..3]);
    assert q == q[..3] + "=";
  }

  /** One octet whose sextets are those of the first two characters of q, then "==", encodes as q. */
  lemma EncodeOne(h: seq<byte>, q: string, v0: sextet, v1: sextet)
    requires |h| == 1 && |q| == 4 && q[2] == '=' && q[3] == '='
    requires ValueOf(q[0]) == Some(v0) && ValueOf(q[1]) == Some(v1)
    requires h[0] / 4 == v0 && (h[0] % 4) * 16 == v1
    ensures Encode(h) == q
  {
    CharsOfValues(q[..2]);
    assert q == q[..2] + "==";
  }

  /** A string of alphabet characters is the characters of its values. */
  lemma CharsOfValues(q: string)
    requires forall i :: 0 <= i < |q| ==> IsAlphabet(q[i])
    ensures forall i :: 0 <= i < |q| ==> CharOf(ValueOf(q[i]).value) == q[i]
  {
    forall i | 0 <= i < |q| ensures CharOf(ValueOf(q[i]).value) == q[i] {
      CharOfValueOf(q[i]);
    }
  }

  lemma FullValues(v0: sextet, v1: sextet, v2: sextet, v3: sextet)
    ensures var h0, h1, h2 := v0 * 4 + v1 / 16, (v1 % 16) * 16 + v2 / 4, (v2 % 4) * 64 + v3;
      && h0 / 4 == v0 && (h0 % 4) * 16 + h1 / 16 == v1 && (h1 % 16) * 4 + h2 / 64 == v2 && h2 % 64 == v3
  {
    DivModDigits(v0, v1 / 16, 4);
    DivModDigits(v1 % 16, v2 / 4, 16);
    DivModDigits(v2 % 4, v3, 64);
  }

  lemma OneValues(v0: sextet, v1: sextet)
    requires v1 % 16 == 0
    ensures var h0 := v0 * 4 + v1 / 16; h0 / 4 == v0 && (h0 % 4) * 16 == v1
  {
    DivModDigits(v0, v1 / 16, 4);
  }

  lemma TwoValues(v0: sextet, v1: sextet, v2: sextet)
    requires v2 % 4 == 0
    ensures var h0, h1 := v0 * 4 + v1 / 16, (v1 % 16) * 16 + v2 / 4;
      h0 / 4 == v0 && (h0 % 4) * 16 + h1 / 16 == v1 && (h1 % 16) * 4 == v2
  {
    DivModDigits(v0, v1 / 16, 4);
    DivModDigits(v1 % 16, v2 / 4, 16);
  }

  /** Only the encoding of a byte string decodes to it: the transform is injective on its image. */
  lemma {:induction false} EncodeDecode(s: string)
    requires Decode(s).Some?
    ensures Encode(Decode(s).value) == s
    decreases |s|
  {
    if |s| > 0 {
      var head := DecodeQuantum(s[..4], |s| == 4).value;
      var tail := Decode(s[4..]).value;
      QuantumCanonical(s[..4], |s| == 4);
      EncodeDecode(s[4..]);
      if |head| == 3 {
        assert (head + tail)[3..] == tail;
        assert Encode(head + tail) == EncodeQuantum(head[0], head[1], head[2]) + Encode(tail);
        assert Encode(head) == EncodeQuantum(head[0], head[1], head[2]);
      } else {
        assert |s| == 4 && tail == [];
        assert head + tail == head;
      }
      assert s == s[..4] + s[4..];
    }
  }
}
