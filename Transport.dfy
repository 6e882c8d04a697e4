/** The content encoding between a collection and the `content` field of the
    GitHub contents API. `saveToGitHub` uploads
    `btoa(unescape(encodeURIComponent(JSON.stringify(components))))`
    (script.js:128-129); `loadFromGitHub` reads
    `JSON.parse(decodeURIComponent(escape(atob(content))))` (script.js:95-96).
    Both directions use this one pair of functions. */
module Transport {
  import opened Wrappers
  import opened Bytes
  import Utf8
  import Base64
  import opened Inventory
  import Serial

  /** Text to the Base64 of its UTF-8 octets. */
  function EncodeContent(s: string): string
  {
    Base64.Encode(Utf8.Encode(s))
  }

  /** Base64 text to the string its octets encode in UTF-8; `None` where
      `atob` or `decodeURIComponent` throws. */
  function DecodeContent(t: string): Option<string>
  {
    var bs :- Base64.Decode(t);
    Utf8.Decode(bs)
  }

  /** Every string, multi-byte characters included, survives the transport
      encoding unchanged. */
  lemma DecodeEncodeContent(s: string)
    ensures DecodeContent(EncodeContent(s)) == Some(s)
  {
    Base64.DecodeEncode(Utf8.Encode(s));
    Utf8.DecodeEncode(s);
  }

  /** Decoding is exact as well: Base64 text that decodes to `s` carries
      exactly the octets `s` encodes to, so no two strings share an upload. */
  lemma DecodeContentExact(t: string, s: string)
    requires DecodeContent(t) == Some(s)
    ensures Base64.Decode(t) == Some(Utf8.Encode(s))
  {
    var bs := Base64.Decode(t).value;
    Utf8.EncodeDecode(bs);
  }

  /** The `content` field `saveToGitHub` uploads for a collection. */
  function EncodeDocument(cs: Collection): string
  {
    EncodeContent(Serial.Serialize(cs))
  }

  /** What `loadFromGitHub` makes of a fetched `content` field: the
      collection, or `None` where decoding or parsing throws. */
  function DecodeDocument(t: string): Option<Collection>
  {
    var s :- DecodeContent(t);
    Serial.Parse(s)
  }

  /** A collection uploaded by `saveToGitHub` is read back unchanged by
      `loadFromGitHub`. */
  lemma DecodeEncodeDocument(cs: Collection)
    ensures DecodeDocument(EncodeDocument(cs)) == Some(cs)
  {
    DecodeEncodeContent(Serial.Serialize(cs));
    Serial.ParseSerialize(cs);
  }

  /** Different collections give different uploads. */
  lemma EncodeDocumentInjective(a: Collection, b: Collection)
    requires EncodeDocument(a) == EncodeDocument(b)
    ensures a == b
  {
    DecodeEncodeDocument(a);
    DecodeEncodeDocument(b);
  }
}
