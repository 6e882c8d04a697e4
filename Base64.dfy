/** Base64 with the standard alphabet and `=` padding, RFC 4648 section 4.

    `btoa` (script.js:129) is `Encode`. `atob` (script.js:95) is `Decode`, the
    "forgiving" decoder browsers implement: ASCII whitespace is skipped (the
    GitHub contents API breaks its Base64 into lines), padding may be left
    off, and the unused low bits of the last group are ignored. */
module Base64 {
  import opened Wrappers
  import opened Bytes

  /** A six-bit group, the value one Base64 character stands for. */
  type sextet = x: int | 0 <= x < 64

  /** The character of the alphabet for value `v`: A-Z, a-z, 0-9, `+`, `/`. */
  function Char(v: sextet): char
  {
    if v < 26 then ('A' as int + v) as char
    else if v < 52 then ('a' as int + (v - 26)) as char
    else if v < 62 then ('0' as int + (v - 52)) as char
    else if v == 62 then '+'
    else '/'
  }

  /** The value a character stands for, or `None` if it is not in the alphabet. */
  function Index(c: char): (r: Option<sextet>)
    ensures r.Some? ==> Char(r.value) == c
  {
    if 'A' <= c <= 'Z' then Some(c as int - 'A' as int)
    else if 'a' <= c <= 'z' then Some(c as int - 'a' as int + 26)
    else if '0' <= c <= '9' then Some(c as int - '0' as int + 52)
    else if c == '+' then Some(62)
    else if c == '/' then Some(63)
    else None
  }

  /** The whitespace `atob` skips: tab, line feed, form feed, carriage return, space. */
  predicate IsAsciiWhitespace(c: char) {
    c == '\t' || c == '\n' || c == '\U{000C}' || c == '\r' || c == ' '
  }

  /** The four sextets of a group of octets `a`, `b`, `c`: the top six bits
      of `a`; its low two bits then the top four of `b`; the low four of `b`
      then the top two of `c`; the low six of `c`. */
  function Top6(a: byte): sextet { a / 4 }
  function Low2Top4(a: byte, b: byte): sextet { a % 4 * 16 + b / 16 }
  function Low4Top2(b: byte, c: byte): sextet { b % 16 * 4 + c / 64 }
  function Low6(c: byte): sextet { c % 64 }

  /** The number of sextets of `n` octets: four per group of three, then three
      for a final two octets and two for a final one. */
  function SextetCount(n: nat): (k: nat)
    ensures k % 4 == if n % 3 == 0 then 0 else n % 3 + 1
  {
    if n == 0 then 0 else if n == 1 then 2 else if n == 2 then 3 else 4 + SextetCount(n - 3)
  }

  /** Splits octets into sextets: every three octets give four, a final two
      give three and a final one gives two (the missing low bits are zero). */
  function ToSextets(bs: seq<byte>): (vs: seq<sextet>)
    ensures |vs| == SextetCount(|bs|)
    decreases |bs|
  {
    if |bs| == 0 then []
    else if |bs| == 1 then [Top6(bs[0]), Low2Top4(bs[0], 0)]
    else if |bs| == 2 then [Top6(bs[0]), Low2Top4(bs[0], bs[1]), Low4Top2(bs[1], 0)]
    else [Top6(bs[0]), Low2Top4(bs[0], bs[1]), Low4Top2(bs[1], bs[2]), Low6(bs[2])] + ToSextets(bs[3..])
  }

  /** The octets of a group of sextets `w`, `x`, `y`, `z`, each rebuilt from
      the bits `ToSextets` spread over two neighbouring sextets. */
  function Join1(w: sextet, x: sextet): byte { w * 4 + x / 16 }
  function Join2(x: sextet, y: sextet): byte { x % 16 * 16 + y / 4 }
  function Join3(y: sextet, z: sextet): byte { y % 4 * 64 + z }

  /** Joins sextets back into octets, the inverse of `ToSextets`; a final
      group of two or three sextets yields one or two octets. */
  function FromSextets(vs: seq<sextet>): seq<byte>
    requires |vs| % 4 != 1
    decreases |vs|
  {
    if |vs| == 0 then []
    else if |vs| == 2 then [Join1(vs[0], vs[1])]
    else if |vs| == 3 then [Join1(vs[0], vs[1]), Join2(vs[1], vs[2])]
    else [Join1(vs[0], vs[1]), Join2(vs[1], vs[2]), Join3(vs[2], vs[3])] + FromSextets(vs[4..])
  }

  function Chars(vs: seq<sextet>): (s: string)
    ensures |s| == |vs|
  {
    if vs == [] then "" else [Char(vs[0])] + Chars(vs[1..])
  }

  /** The padding that brings the output to a multiple of four characters. */
  function Padding(n: nat): string
  {
    if n % 3 == 1 then "==" else if n % 3 == 2 then "=" else ""
  }

  /** `btoa`: the Base64 text of `bs`. */
  function Encode(bs: seq<byte>): string
  {
    Chars(ToSextets(bs)) + Padding(|bs|)
  }

  function RemoveWhitespace(s: string): (r: string)
    ensures forall i :: 0 <= i < |r| ==> !IsAsciiWhitespace(r[i])
  {
    if s == [] then ""
    else if IsAsciiWhitespace(s[0]) then RemoveWhitespace(s[1..])
    else [s[0]] + RemoveWhitespace(s[1..])
  }

  /** Drops one or two trailing `=` from text whose length is a multiple of four. */
  function StripPadding(s: string): string
  {
    if |s| % 4 != 0 then s
    else if |s| >= 2 && s[|s| - 2] == '=' && s[|s| - 1] == '=' then s[..|s| - 2]
    else if |s| >= 1 && s[|s| - 1] == '=' then s[..|s| - 1]
    else s
  }

  /** The values of the characters of `s`, or `None` if one is outside the alphabet. */
  function Values(s: string): (r: Option<seq<sextet>>)
    ensures r.Some? ==> |r.value| == |s|
  {
    if s == [] then Some([])
    else
      match Index(s[0])
      case None => None
      case Some(v) =>
        match Values(s[1..])
        case None => None
        case Some(vs) => Some([v] + vs)
  }

  /** `atob`: the octets `s` encodes, or `None` where `atob` throws. */
  function Decode(s: string): Option<seq<byte>>
  {
    var body := StripPadding(RemoveWhitespace(s));
    if |body| % 4 == 1 then None
    else
      match Values(body)
      case None => None
      case Some(vs) => Some(FromSextets(vs))
  }

  lemma Join1Split(a: byte, b: byte)
    ensures Join1(Top6(a), Low2Top4(a, b)) == a
  {
    assert a == a / 4 * 4 + a % 4;
  }

  lemma Join2Split(a: byte, b: byte, c: byte)
    ensures Join2(Low2Top4(a, b), Low4Top2(b, c)) == b
  {
    assert b == b / 16 * 16 + b % 16;
    assert Low2Top4(a, b) % 16 == b / 16 by {
      assert Low2Top4(a, b) == (a % 4) * 16 + b / 16 && 0 <= b / 16 < 16;
    }
    assert Low4Top2(b, c) / 4 == b % 16 by {
      assert Low4Top2(b, c) == (b % 16) * 4 + c / 64 && 0 <= c / 64 < 4;
    }
  }

  lemma Join3Split(b: byte, c: byte)
    ensures Join3(Low4Top2(b, c), Low6(c)) == c
  {
    assert c == c / 64 * 64 + c % 64;
  }

  lemma {:induction false} FromToSextets(bs: seq<byte>)
    ensures FromSextets(ToSextets(bs)) == bs
    decreases |bs|
  {
    var vs := ToSextets(bs);
    if |bs| == 1 {
      Join1Split(bs[0], 0);
    } else if |bs| == 2 {
      Join1Split(bs[0], bs[1]);
      Join2Split(bs[0], bs[1], 0);
    } else if |bs| >= 3 {
      Join1Split(bs[0], bs[1]);
      Join2Split(bs[0], bs[1], bs[2]);
      Join3Split(bs[1], bs[2]);
      FromToSextets(bs[3..]);
      assert vs[4..] == ToSextets(bs[3..]);
      assert FromSextets(vs) == [bs[0], bs[1], bs[2]] + bs[3..];
      assert bs == [bs[0], bs[1], bs[2]] + bs[3..];
    }
  }

  lemma {:induction false} ValuesChars(vs: seq<sextet>)
    ensures Values(Chars(vs)) == Some(vs)
  {
    if vs != [] {
      ValuesChars(vs[1..]);
      assert Chars(vs)[1..] == Chars(vs[1..]);
      assert [vs[0]] + vs[1..] == vs;
    }
  }

  lemma {:induction false} CharsNotSpecial(vs: seq<sextet>)
    ensures forall i :: 0 <= i < |Chars(vs)| ==> Chars(vs)[i] != '=' && !IsAsciiWhitespace(Chars(vs)[i])
  {
    if vs != [] {
      CharsNotSpecial(vs[1..]);
      assert forall i :: 1 <= i < |Chars(vs)| ==> Chars(vs)[i] == Chars(vs[1..])[i - 1];
    }
  }

  lemma {:induction false} RemoveWhitespaceNone(s: string)
    requires forall i :: 0 <= i < |s| ==> !IsAsciiWhitespace(s[i])
    ensures RemoveWhitespace(s) == s
  {
    if s != [] {
      RemoveWhitespaceNone(s[1..]);
    }
  }

  /** The padding `btoa` appends is exactly what `atob` strips. */
  lemma StripEncoded(body: string, n: nat)
    requires |body| % 4 == if n % 3 == 0 then 0 else n % 3 + 1
    requires forall i :: 0 <= i < |body| ==> body[i] != '='
    ensures StripPadding(body + Padding(n)) == body
  {
    var text := body + Padding(n);
    if n % 3 == 0 {
      assert text == body;
      assert |body| == 0 || body[|body| - 1] != '=';
    } else if n % 3 == 1 {
      assert text[..|text| - 2] == body;
    } else {
      assert text[|text| - 2] == body[|body| - 1];
      assert text[..|text| - 1] == body;
    }
  }

  /** `btoa` output holds no whitespace. */
  lemma EncodedNoWhitespace(bs: seq<byte>)
    ensures forall i :: 0 <= i < |Encode(bs)| ==> !IsAsciiWhitespace(Encode(bs)[i])
  {
    var body := Chars(ToSextets(bs));
    CharsNotSpecial(ToSextets(bs));
    assert forall i :: |body| <= i < |Encode(bs)| ==> Encode(bs)[i] == '=';
  }

  /** Every octet string survives `btoa` followed by `atob`. */
  lemma DecodeEncode(bs: seq<byte>)
    ensures Decode(Encode(bs)) == Some(bs)
  {
    var vs := ToSextets(bs);
    var body := Chars(vs);
    EncodedNoWhitespace(bs);
    RemoveWhitespaceNone(Encode(bs));
    CharsNotSpecial(vs);
    StripEncoded(body, |bs|);
    assert StripPadding(RemoveWhitespace(Encode(bs))) == body;
    ValuesChars(vs);
    FromToSextets(bs);
  }

  /** Whitespace anywhere in the text does not change what `atob` decodes. */
  lemma DecodeSkipsWhitespace(s: string, i: nat, w: char)
    requires i <= |s| && IsAsciiWhitespace(w)
    ensures Decode(s[..i] + [w] + s[i..]) == Decode(s)
  {
    RemoveWhitespaceSplice(s, i, w);
  }

  lemma {:induction false} RemoveWhitespaceSplice(s: string, i: nat, w: char)
    requires i <= |s| && IsAsciiWhitespace(w)
    ensures RemoveWhitespace(s[..i] + [w] + s[i..]) == RemoveWhitespace(s)
  {
    if i > 0 {
      RemoveWhitespaceSplice(s[1..], i - 1, w);
      assert (s[..i] + [w] + s[i..])[1..] == s[1..][..i - 1] + [w] + s[1..][i - 1..];
    } else {
      assert (s[..i] + [w] + s[i..])[1..] == s;
    }
  }
}
