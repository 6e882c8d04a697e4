/** The text form of a collection kept under the `components` key and in the
    remote `data.json`. It is the compact output of `JSON.stringify` for an
    array of inventory records: each record an object with its eight keys in
    the order `handleSubmit` writes them, strings quoted with `"` and `\`
    escaped, the stock as a decimal integer. `Parse` reads back exactly that
    form; it stands in for `JSON.parse`, which accepts more. */
module Serial {
  import opened Wrappers
  import opened Inventory

  /** The characters of `s` with `"` and `\\` escaped by a backslash, then `tail`. */
  function EscapeThen(s: string, tail: string): string
  {
    if s == [] then tail
    else if s[0] == '"' || s[0] == '\\' then ['\\', s[0]] + EscapeThen(s[1..], tail)
    else [s[0]] + EscapeThen(s[1..], tail)
  }

  predicate IsDigit(c: char) {
    '0' <= c <= '9'
  }

  function DigitChar(d: int): (c: char)
    requires 0 <= d < 10
    ensures IsDigit(c)
  {
    ('0' as int + d) as char
  }

  /** The decimal digits of `n`, most significant first, no leading zeros. */
  function NatText(n: nat): (s: string)
    ensures |s| > 0 && forall i :: 0 <= i < |s| ==> IsDigit(s[i])
  {
    if n < 10 then [DigitChar(n)] else NatText(n / 10) + [DigitChar(n % 10)]
  }

  function IntText(i: int): string
  {
    if i < 0 then "-" + NatText(-i) else NatText(i)
  }

  const NameKey := "{\"name\":"
  const CategoryKey := ",\"category\":"
  const PartNumberKey := ",\"partNumber\":"
  const LocationKey := ",\"location\":"
  const PackageKey := ",\"package\":"
  const ParametersKey := ",\"parameters\":"
  const StockKey := ",\"stock\":"
  const DatasheetKey := ",\"datasheet\":"

  /** A key, a quoted string value, then `tail`. */
  function StringFieldThen(key: string, v: string, tail: string): string
  {
    key + ("\"" + EscapeThen(v, "\"" + tail))
  }

  /** The keys of the six string fields before the stock, in order. */
  const LeadingKeys: seq<string> :=
    [NameKey, CategoryKey, PartNumberKey, LocationKey, PackageKey, ParametersKey]

  /** Each key followed by its quoted value, then `tail`. */
  function StringFieldsThen(keys: seq<string>, vs: seq<string>, tail: string): string
    requires |keys| == |vs|
  {
    if keys == [] then tail
    else StringFieldThen(keys[0], vs[0], StringFieldsThen(keys[1..], vs[1..], tail))
  }

  /** The object text of `c`, then `tail`. */
  function RecordThen(c: Component, tail: string): string
  {
    StringFieldsThen(LeadingKeys,
                     [c.name, c.category, c.partNumber, c.location, c.package, c.parameters],
                     StockKey + IntText(c.stock) + StringFieldThen(DatasheetKey, c.datasheet, "}" + tail))
  }

  /** The records of a non-empty collection separated by commas, then `tail`. */
  function RecordsThen(cs: Collection, tail: string): string
    requires cs != []
  {
    if |cs| == 1 then RecordThen(cs[0], tail)
    else RecordThen(cs[0], "," + RecordsThen(cs[1..], tail))
  }

  /** `JSON.stringify(components)`. */
  function Serialize(cs: Collection): (s: string)
    ensures |s| >= 2 && s[0] == '['
  {
    "[" + if cs == [] then "]" else RecordsThen(cs, "]")
  }

  // ---------------------------------------------------------------- parsing

  /** The rest of `s` after the literal `lit`, if `s` starts with it. */
  function Expect(lit: string, s: string): (r: Option<string>)
    ensures r.Some? ==> |r.value| == |s| - |lit|
  {
    if lit <= s then Some(s[|lit|..]) else None
  }

  /** Reads the body of a quoted string up to and including its closing
      quote; gives the unescaped text and what follows it. */
  function ParseStringBody(s: string): (r: Option<(string, string)>)
    ensures r.Some? ==> |r.value.1| < |s|
    decreases |s|
  {
    if s == [] then None
    else if s[0] == '"' then Some(("", s[1..]))
    else if s[0] == '\\' then
      if |s| >= 2 && (s[1] == '"' || s[1] == '\\') then
        var body :- ParseStringBody(s[2..]);
        Some(([s[1]] + body.0, body.1))
      else None
    else
      var body :- ParseStringBody(s[1..]);
      Some(([s[0]] + body.0, body.1))
  }

  /** The number of decimal digits `s` starts with. */
  function LeadingDigits(s: string): (n: nat)
    ensures n <= |s|
  {
    if s != [] && IsDigit(s[0]) then 1 + LeadingDigits(s[1..]) else 0
  }

  /** The value of a string of decimal digits. */
  function DigitsValue(ds: string): nat
    requires forall i :: 0 <= i < |ds| ==> IsDigit(ds[i])
  {
    if ds == [] then 0
    else
      assert IsDigit(ds[|ds| - 1]);
      DigitsValue(ds[..|ds| - 1]) * 10 + (ds[|ds| - 1] as int - '0' as int)
  }

  function ParseNat(s: string): (r: Option<(nat, string)>)
    ensures r.Some? ==> |r.value.1| < |s|
  {
    var n := LeadingDigits(s);
    if n == 0 then None
    else
      LeadingDigitsAreDigits(s);
      Some((DigitsValue(s[..n]), s[n..]))
  }

  function ParseInt(s: string): (r: Option<(int, string)>)
    ensures r.Some? ==> |r.value.1| < |s|
  {
    if s != [] && s[0] == '-' then
      var n :- ParseNat(s[1..]);
      Some((-(n.0 as int), n.1))
    else
      var n :- ParseNat(s);
      Some((n.0, n.1))
  }

  /** A key literal followed by a quoted string. */
  function ParseStringField(key: string, s: string): (r: Option<(string, string)>)
    ensures r.Some? ==> |r.value.1| < |s|
  {
    var t :- Expect(key, s);
    var q :- Expect("\"", t);
    ParseStringBody(q)
  }

  /** The quoted values after each of `keys` in turn. */
  function ParseStringFields(keys: seq<string>, s: string): (r: Option<(seq<string>, string)>)
    ensures r.Some? ==> |r.value.0| == |keys| && |r.value.1| <= |s|
  {
    if keys == [] then Some(([], s))
    else
      var first :- ParseStringField(keys[0], s);
      var more :- ParseStringFields(keys[1..], first.1);
      Some(([first.0] + more.0, more.1))
  }

  function ParseRecord(s: string): (r: Option<(Component, string)>)
    ensures r.Some? ==> |r.value.1| < |s|
  {
    var fields :- ParseStringFields(LeadingKeys, s);
    var vs := fields.0;
    var t :- Expect(StockKey, fields.1);
    var stock :- ParseInt(t);
    var datasheet :- ParseStringField(DatasheetKey, stock.1);
    var rest :- Expect("}", datasheet.1);
    Some((Component(vs[0], vs[1], vs[2], vs[3], vs[4], vs[5], stock.0, datasheet.0), rest))
  }

  /** One or more records separated by commas, then the closing bracket. */
  function ParseElements(s: string): (r: Option<(Collection, string)>)
    decreases |s|
  {
    var first :- ParseRecord(s);
    var t := first.1;
    if t != [] && t[0] == ',' then
      var more :- ParseElements(t[1..]);
      Some(([first.0] + more.0, more.1))
    else if t != [] && t[0] == ']' then
      Some(([first.0], t[1..]))
    else
      None
  }

  /** `JSON.parse` of a serialized collection: `None` where it would throw
      or yield something other than such an array. */
  function Parse(s: string): Option<Collection>
  {
    var t :- Expect("[", s);
    if t != [] && t[0] == ']' then
      if t[1..] == "" then Some([]) else None
    else
      var elements :- ParseElements(t);
      if elements.1 == "" then Some(elements.0) else None
  }

  // ----------------------------------------------------------------- proofs

  lemma {:induction false} LeadingDigitsAreDigits(s: string)
    ensures forall i :: 0 <= i < LeadingDigits(s) ==> IsDigit(s[i])
  {
    if s != [] && IsDigit(s[0]) {
      LeadingDigitsAreDigits(s[1..]);
    }
  }

  /** Reading an escaped string followed by a quote and `rest` unescapes it. */
  lemma {:induction false} ParseStringBodyEscape(v: string, rest: string)
    ensures ParseStringBody(EscapeThen(v, "\"" + rest)) == Some((v, rest))
  {
    if v == [] {
      assert ("\"" + rest)[1..] == rest;
    } else {
      ParseStringBodyEscape(v[1..], rest);
      var c := v[0];
      var tail := EscapeThen(v[1..], "\"" + rest);
      assert [c] + v[1..] == v;
      if c == '"' || c == '\\' {
        EscapedStep(EscapeThen(v, "\"" + rest), c, tail);
      } else {
        PlainStep(EscapeThen(v, "\"" + rest), c, tail);
      }
    }
  }

  /** One escaped character: a backslash and the character, then the rest of the body. */
  lemma EscapedStep(s: string, c: char, tail: string)
    requires c == '"' || c == '\\'
    requires s == ['\\', c] + tail
    requires ParseStringBody(tail).Some?
    ensures ParseStringBody(s) == Some(([c] + ParseStringBody(tail).value.0, ParseStringBody(tail).value.1))
  {
    assert s[0] == '\\' && s[1] == c;
    assert s[2..] == tail;
  }

  /** One plain character, then the rest of the body. */
  lemma PlainStep(s: string, c: char, tail: string)
    requires c != '"' && c != '\\'
    requires s == [c] + tail
    requires ParseStringBody(tail).Some?
    ensures ParseStringBody(s) == Some(([c] + ParseStringBody(tail).value.0, ParseStringBody(tail).value.1))
  {
    assert s[0] == c;
    assert s[1..] == tail;
  }

  lemma StringFieldRoundTrip(key: string, v: string, tail: string)
    ensures ParseStringField(key, StringFieldThen(key, v, tail)) == Some((v, tail))
  {
    var body := EscapeThen(v, "\"" + tail);
    assert (key + ("\"" + body))[|key|..] == "\"" + body;
    assert ("\"" + body)[1..] == body;
    ParseStringBodyEscape(v, tail);
  }

  lemma {:induction false} DigitsValueNatText(n: nat)
    ensures DigitsValue(NatText(n)) == n
  {
    if n >= 10 {
      DigitsValueNatText(n / 10);
      var s := NatText(n);
      assert s[..|s| - 1] == NatText(n / 10);
    }
  }

  lemma {:induction false} LeadingDigitsPrefix(ds: string, rest: string)
    requires forall i :: 0 <= i < |ds| ==> IsDigit(ds[i])
    requires rest == [] || !IsDigit(rest[0])
    ensures LeadingDigits(ds + rest) == |ds|
  {
    if ds == [] {
      assert ds + rest == rest;
    } else {
      LeadingDigitsPrefix(ds[1..], rest);
      assert (ds + rest)[1..] == ds[1..] + rest;
    }
  }

  lemma NatRoundTrip(m: nat, rest: string)
    requires rest == [] || !IsDigit(rest[0])
    ensures ParseNat(NatText(m) + rest) == Some((m, rest))
  {
    var ds := NatText(m);
    LeadingDigitsPrefix(ds, rest);
    DigitsValueNatText(m);
    assert (ds + rest)[..|ds|] == ds && (ds + rest)[|ds|..] == rest;
  }

  lemma IntRoundTrip(i: int, rest: string)
    requires rest == [] || !IsDigit(rest[0])
    ensures ParseInt(IntText(i) + rest) == Some((i, rest))
  {
    if i < 0 {
      var ds := NatText(-i);
      NatRoundTrip(-i, rest);
      assert IntText(i) + rest == "-" + (ds + rest);
      assert ("-" + (ds + rest))[1..] == ds + rest;
    } else {
      var ds := NatText(i);
      NatRoundTrip(i, rest);
      assert IntText(i) + rest == ds + rest;
      assert ds[0] != '-';
    }
  }

  lemma {:induction false} StringFieldsRoundTrip(keys: seq<string>, vs: seq<string>, tail: string)
    requires |keys| == |vs|
    ensures ParseStringFields(keys, StringFieldsThen(keys, vs, tail)) == Some((vs, tail))
  {
    if keys != [] {
      var more := StringFieldsThen(keys[1..], vs[1..], tail);
      StringFieldRoundTrip(keys[0], vs[0], more);
      StringFieldsRoundTrip(keys[1..], vs[1..], tail);
      assert [vs[0]] + vs[1..] == vs;
    }
  }

  lemma RecordRoundTrip(c: Component, tail: string)
    ensures ParseRecord(RecordThen(c, tail)) == Some((c, tail))
  {
    var r9 := "}" + tail;
    var r8 := StringFieldThen(DatasheetKey, c.datasheet, r9);
    var r7 := StockKey + IntText(c.stock) + r8;
    var vs := [c.name, c.category, c.partNumber, c.location, c.package, c.parameters];
    assert ParseStringFields(LeadingKeys, RecordThen(c, tail)) == Some((vs, r7)) by {
      StringFieldsRoundTrip(LeadingKeys, vs, r7);
    }
    assert Expect(StockKey, r7) == Some(IntText(c.stock) + r8) by {
      assert r7 == StockKey + (IntText(c.stock) + r8);
    }
    assert ParseInt(IntText(c.stock) + r8) == Some((c.stock, r8)) by {
      IntRoundTrip(c.stock, r8);
    }
    assert ParseStringField(DatasheetKey, r8) == Some((c.datasheet, r9)) by {
      StringFieldRoundTrip(DatasheetKey, c.datasheet, r9);
    }
    assert Expect("}", r9) == Some(tail);
  }

  lemma {:induction false} RecordsRoundTrip(cs: Collection, tail: string)
    requires cs != [] && tail != [] && tail[0] == ']'
    ensures ParseElements(RecordsThen(cs, tail)) == Some((cs, tail[1..]))
  {
    if |cs| == 1 {
      assert ParseRecord(RecordThen(cs[0], tail)) == Some((cs[0], tail)) by {
        RecordRoundTrip(cs[0], tail);
      }
      assert [cs[0]] == cs;
    } else {
      var more := RecordsThen(cs[1..], tail);
      assert ParseRecord(RecordThen(cs[0], "," + more)) == Some((cs[0], "," + more)) by {
        RecordRoundTrip(cs[0], "," + more);
      }
      assert ParseElements(more) == Some((cs[1..], tail[1..])) by {
        RecordsRoundTrip(cs[1..], tail);
      }
      assert ("," + more)[1..] == more;
      assert [cs[0]] + cs[1..] == cs;
    }
  }

  /** Reading back what was written gives the same collection. */
  lemma ParseSerialize(cs: Collection)
    ensures Parse(Serialize(cs)) == Some(cs)
  {
    var s := Serialize(cs);
    if cs != [] {
      assert s[1..] == RecordsThen(cs, "]");
      RecordsRoundTrip(cs, "]");
      assert RecordsThen(cs, "]")[0] == '{';
    } else {
      assert s[1..] == "]";
    }
  }

  /** Different collections are written differently. */
  lemma SerializeInjective(a: Collection, b: Collection)
    requires Serialize(a) == Serialize(b)
    ensures a == b
  {
    ParseSerialize(a);
    ParseSerialize(b);
  }
}
