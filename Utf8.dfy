/** UTF-8, as RFC 3629 section 3 defines it, between Unicode scalar values
    (Dafny's `char`) and octets.

    In script.js the encoding direction is `unescape(encodeURIComponent(s))`
    (line 129): `encodeURIComponent` writes the UTF-8 octets of `s` as percent
    escapes and `unescape` turns every escape back into one octet, so the
    result is the UTF-8 octet string of `s`. The decoding direction is
    `decodeURIComponent(escape(b))` (line 95): `escape` percent-escapes the
    octets and `decodeURIComponent` decodes them as UTF-8, throwing on any
    octet sequence that is not well-formed UTF-8. `Decode` returns `None`
    exactly where that throws. */
module Utf8 {
  import opened Wrappers
  import opened Bytes

  /** A trailing octet of a multi-octet sequence: 10xxxxxx. */
  predicate IsContinuation(b: byte) {
    0x80 <= b < 0xC0
  }

  /** The one to four octets that encode `c`. */
  function EncodeChar(c: char): (bs: seq<byte>)
    ensures 1 <= |bs| <= 4
    ensures |bs| == 1 <==> (c as int) < 0x80
  {
    var cp := c as int;
    if cp < 0x80 then [cp]
    else if cp < 0x800 then [0xC0 + cp / 64, 0x80 + cp % 64]
    else if cp < 0x1_0000 then [0xE0 + cp / 4096, 0x80 + cp / 64 % 64, 0x80 + cp % 64]
    else [0xF0 + cp / 262144, 0x80 + cp / 4096 % 64, 0x80 + cp / 64 % 64, 0x80 + cp % 64]
  }

  /** The UTF-8 octet string of `s`. */
  function Encode(s: string): seq<byte>
  {
    if s == [] then [] else EncodeChar(s[0]) + Encode(s[1..])
  }

  /** The scalar value at the front of `bs` and the number of octets it takes,
      or `None` if `bs` does not start with a well-formed sequence: a stray
      continuation octet, a truncated sequence, an over-long form, a surrogate
      or a value above U+10FFFF. */
  function DecodeFirst(bs: seq<byte>): (r: Option<(char, nat)>)
    requires |bs| > 0
    ensures r.Some? ==> 1 <= r.value.1 <= 4 && r.value.1 <= |bs|
  {
    var b0 := bs[0] as int;
    if b0 < 0x80 then
      Some((b0 as char, 1))
    else if 0xC0 <= b0 < 0xE0 then
      if |bs| < 2 || !IsContinuation(bs[1]) then None
      else
        var cp := (b0 - 0xC0) * 64 + (bs[1] as int - 0x80);
        if cp < 0x80 then None else Some((cp as char, 2))
    else if 0xE0 <= b0 < 0xF0 then
      if |bs| < 3 || !IsContinuation(bs[1]) || !IsContinuation(bs[2]) then None
      else
        var cp := (b0 - 0xE0) * 4096 + (bs[1] as int - 0x80) * 64 + (bs[2] as int - 0x80);
        if cp < 0x800 || 0xD800 <= cp < 0xE000 then None else Some((cp as char, 3))
    else if 0xF0 <= b0 < 0xF8 then
      if |bs| < 4 || !IsContinuation(bs[1]) || !IsContinuation(bs[2]) || !IsContinuation(bs[3]) then None
      else
        var cp := (b0 - 0xF0) * 262144 + (bs[1] as int - 0x80) * 4096 + (bs[2] as int - 0x80) * 64 + (bs[3] as int - 0x80);
        if cp < 0x1_0000 || cp > 0x10_FFFF then None else Some((cp as char, 4))
    else
      None
  }

  /** The scalar values `bs` encodes, or `None` if `bs` is not well-formed UTF-8. */
  function Decode(bs: seq<byte>): Option<string>
    decreases |bs|
  {
    if bs == [] then Some([])
    else
      match DecodeFirst(bs)
      case None => None
      case Some((c, n)) =>
        match Decode(bs[n..])
        case None => None
        case Some(rest) => Some([c] + rest)
  }

  lemma DivMod64(q: int, r: int)
    requires 0 <= r < 64
    ensures (q * 64 + r) / 64 == q && (q * 64 + r) % 64 == r
  {
  }

  lemma Split64(x: nat)
    ensures x == (x / 64) * 64 + x % 64 && 0 <= x % 64 < 64
  {
  }

  lemma DivMod4096(q: int, r: int)
    requires 0 <= r < 4096
    ensures (q * 4096 + r) / 4096 == q
  {
  }

  lemma DivMod262144(q: int, r: int)
    requires 0 <= r < 262144
    ensures (q * 262144 + r) / 262144 == q
  {
  }

  /** The two-octet form 110aaaaa 10bbbbbb of the values U+0080 to U+07FF. */
  lemma EncodeTwo(a: int, b: int)
    requires 0 <= b < 64 && 0x80 <= a * 64 + b < 0x800
    ensures EncodeChar((a * 64 + b) as char) == [0xC0 + a, 0x80 + b]
  {
    DivMod64(a, b);
  }

  /** The three-octet form 1110aaaa 10bbbbbb 10cccccc of the values U+0800
      to U+FFFF outside the surrogates. */
  lemma EncodeThree(a: int, b: int, c: int)
    requires 0 <= a < 16 && 0 <= b < 64 && 0 <= c < 64
    requires var cp := a * 4096 + b * 64 + c; 0x800 <= cp && !(0xD800 <= cp < 0xE000)
    ensures EncodeChar((a * 4096 + b * 64 + c) as char) == [0xE0 + a, 0x80 + b, 0x80 + c]
  {
    var cp := a * 4096 + b * 64 + c;
    assert cp == (a * 64 + b) * 64 + c;
    DivMod64(a * 64 + b, c);
    DivMod64(a, b);
    DivMod4096(a, b * 64 + c);
  }

  /** The four-octet form 11110aaa 10bbbbbb 10cccccc 10dddddd of the values
      U+10000 to U+10FFFF. */
  lemma EncodeFour(a: int, b: int, c: int, d: int)
    requires 0 <= a < 8 && 0 <= b < 64 && 0 <= c < 64 && 0 <= d < 64
    requires var cp := a * 262144 + b * 4096 + c * 64 + d; 0x1_0000 <= cp <= 0x10_FFFF
    ensures EncodeChar((a * 262144 + b * 4096 + c * 64 + d) as char)
            == [0xF0 + a, 0x80 + b, 0x80 + c, 0x80 + d]
  {
    var cp := a * 262144 + b * 4096 + c * 64 + d;
    assert cp == (a * 4096 + b * 64 + c) * 64 + d;
    DivMod64(a * 4096 + b * 64 + c, d);
    assert a * 4096 + b * 64 + c == (a * 64 + b) * 64 + c;
    DivMod64(a * 64 + b, c);
    assert cp == (a * 64 + b) * 4096 + (c * 64 + d);
    DivMod4096(a * 64 + b, c * 64 + d);
    DivMod64(a, b);
    DivMod262144(a, b * 4096 + c * 64 + d);
  }

  lemma DecodeTwo(a: int, b: int, rest: seq<byte>)
    requires 0 <= b < 64 && 0x80 <= a * 64 + b < 0x800
    ensures DecodeFirst([0xC0 + a, 0x80 + b] + rest) == Some(((a * 64 + b) as char, 2))
  {
    var bs := [0xC0 + a, 0x80 + b] + rest;
    assert bs[0] == 0xC0 + a && bs[1] == 0x80 + b;
  }

  lemma DecodeThree(a: int, b: int, c: int, rest: seq<byte>)
    requires 0 <= a < 16 && 0 <= b < 64 && 0 <= c < 64
    requires var cp := a * 4096 + b * 64 + c; 0x800 <= cp && !(0xD800 <= cp < 0xE000)
    ensures DecodeFirst([0xE0 + a, 0x80 + b, 0x80 + c] + rest)
            == Some(((a * 4096 + b * 64 + c) as char, 3))
  {
    var bs := [0xE0 + a, 0x80 + b, 0x80 + c] + rest;
    assert bs[0] == 0xE0 + a && bs[1] == 0x80 + b && bs[2] == 0x80 + c;
  }

  lemma DecodeFour(a: int, b: int, c: int, d: int, rest: seq<byte>)
    requires 0 <= a < 8 && 0 <= b < 64 && 0 <= c < 64 && 0 <= d < 64
    requires var cp := a * 262144 + b * 4096 + c * 64 + d; 0x1_0000 <= cp <= 0x10_FFFF
    ensures DecodeFirst([0xF0 + a, 0x80 + b, 0x80 + c, 0x80 + d] + rest)
            == Some(((a * 262144 + b * 4096 + c * 64 + d) as char, 4))
  {
    var bs := [0xF0 + a, 0x80 + b, 0x80 + c, 0x80 + d] + rest;
    assert bs[0] == 0xF0 + a && bs[1] == 0x80 + b && bs[2] == 0x80 + c && bs[3] == 0x80 + d;
  }

  /** Decoding the front of an encoded character gives the character back. */
  lemma DecodeFirstEncodeChar(c: char, rest: seq<byte>)
    ensures DecodeFirst(EncodeChar(c) + rest) == Some((c, |EncodeChar(c)|))
  {
    var cp := c as int;
    Split64(cp);
    var q := cp / 64;
    Split64(q);
    var q2 := q / 64;
    Split64(q2);
    if cp < 0x80 {
      assert (EncodeChar(c) + rest)[0] == cp;
    } else if cp < 0x800 {
      EncodeTwo(q, cp % 64);
      DecodeTwo(q, cp % 64, rest);
    } else if cp < 0x1_0000 {
      assert cp == q2 * 4096 + q % 64 * 64 + cp % 64;
      EncodeThree(q2, q % 64, cp % 64);
      DecodeThree(q2, q % 64, cp % 64, rest);
    } else {
      assert cp == q2 / 64 * 262144 + q2 % 64 * 4096 + q % 64 * 64 + cp % 64;
      EncodeFour(q2 / 64, q2 % 64, q % 64, cp % 64);
      DecodeFour(q2 / 64, q2 % 64, q % 64, cp % 64, rest);
    }
  }

  /** Every string survives the trip through UTF-8 unchanged. */
  lemma {:induction false} DecodeEncode(s: string)
    ensures Decode(Encode(s)) == Some(s)
  {
    if s != [] {
      var head := EncodeChar(s[0]);
      var tail := Encode(s[1..]);
      DecodeFirstEncodeChar(s[0], tail);
      assert (head + tail)[|head|..] == tail;
      DecodeEncode(s[1..]);
      assert [s[0]] + s[1..] == s;
    }
  }

  /** A well-formed front sequence is exactly the encoding of the character it
      decodes to: the decoder accepts only shortest forms. */
  lemma EncodeCharDecodeFirst(bs: seq<byte>)
    requires |bs| > 0 && DecodeFirst(bs).Some?
    ensures EncodeChar(DecodeFirst(bs).value.0) == bs[..DecodeFirst(bs).value.1]
  {
    var b0 := bs[0] as int;
    if b0 < 0x80 {
      assert bs[..1] == [bs[0]];
    } else if b0 < 0xE0 {
      EncodeTwo(b0 - 0xC0, bs[1] as int - 0x80);
      assert bs[..2] == [bs[0], bs[1]];
    } else if b0 < 0xF0 {
      EncodeThree(b0 - 0xE0, bs[1] as int - 0x80, bs[2] as int - 0x80);
      assert bs[..3] == [bs[0], bs[1], bs[2]];
    } else {
      EncodeFour(b0 - 0xF0, bs[1] as int - 0x80, bs[2] as int - 0x80, bs[3] as int - 0x80);
      assert bs[..4] == [bs[0], bs[1], bs[2], bs[3]];
    }
  }

  /** `Decode` of non-empty octets, one step unfolded. */
  lemma DecodeStep(bs: seq<byte>)
    requires bs != [] && Decode(bs).Some?
    ensures DecodeFirst(bs).Some?
    ensures var n := DecodeFirst(bs).value.1;
            Decode(bs[n..]).Some?
            && Decode(bs).value == [DecodeFirst(bs).value.0] + Decode(bs[n..]).value
  {
  }

  /** Decoding is exact: octets that decode re-encode to themselves, so UTF-8
      encoding and decoding are inverse bijections between strings and
      well-formed octet strings. */
  lemma {:induction false} EncodeDecode(bs: seq<byte>)
    requires Decode(bs).Some?
    ensures Encode(Decode(bs).value) == bs
    decreases |bs|
  {
    if bs != [] {
      DecodeStep(bs);
      var (c, n) := DecodeFirst(bs).value;
      var rest := Decode(bs[n..]).value;
      var s := Decode(bs).value;
      EncodeCharDecodeFirst(bs);
      EncodeDecode(bs[n..]);
      assert s[0] == c && s[1..] == rest;
      assert Encode(s) == EncodeChar(c) + Encode(rest);
      assert bs[..n] + bs[n..] == bs;
    }
  }
}
