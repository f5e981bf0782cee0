/** The library functions the core calls and does not implement: address
    parsing (section 3.4 of RFC 5322, `email.utils.parseaddr`), encoded-word
    decoding (RFC 2047, `email.header.decode_header`), character sets,
    content-transfer encodings (section 6 of RFC 2045), JSON (RFC 8259),
    base64 (section 4 of RFC 4648) and gzip (RFC 1952). They are parameters
    of the model, bundled in one record; what the model needs of them is
    stated as hypotheses (`Inverses`) on the lemmas that use it. */
module Codecs {
  import opened Base

  /** A JSON value as `json.loads` returns it and `json.dumps` accepts it. */
  datatype Json =
    | JNull
    | JBool(b: bool)
    | JInt(i: int)
    | JStr(s: string)
    | JList(items: seq<Json>)
    | JObject(members: seq<(string, Json)>)

  /** Python truthiness of the decoded value (`if json_attachment:`). */
  predicate Truthy(j: Json)
  {
    match j
    case JNull => false
    case JBool(b) => b
    case JInt(i) => i != 0
    case JStr(s) => s != ""
    case JList(xs) => xs != []
    case JObject(ms) => ms != []
  }

  /** Text made of ASCII characters only. */
  predicate AsciiText(t: string)
  {
    forall i :: 0 <= i < |t| ==> t[i] as int < 128
  }

  /** Bytes below 0x80. */
  predicate AsciiData(b: Bytes)
  {
    forall i :: 0 <= i < |b| ==> b[i] < 128
  }

  /** The one-byte-per-character encoding of ASCII text. */
  function ToBytes(t: string): (r: Bytes)
    requires AsciiText(t)
    ensures |r| == |t| && AsciiData(r)
    ensures forall i :: 0 <= i < |t| ==> r[i] as int == t[i] as int
  {
    seq(|t|, i requires 0 <= i < |t| => t[i] as int as Byte)
  }

  /** The characters of ASCII bytes. */
  function ToText(b: Bytes): (r: string)
    requires AsciiData(b)
    ensures |r| == |b| && AsciiText(r)
    ensures forall i :: 0 <= i < |b| ==> r[i] as int == b[i] as int
  {
    seq(|b|, i requires 0 <= i < |b| => b[i] as int as char)
  }

  lemma AsciiRoundTrip(b: Bytes)
    requires AsciiData(b)
    ensures ToBytes(ToText(b)) == b
  {
    var r := ToBytes(ToText(b));
    assert forall i :: 0 <= i < |b| ==> r[i] as int == b[i] as int;
  }

  datatype Lib = Lib(
    parseAddr: string -> (string, string),            // email.utils.parseaddr: (display name, address)
    decodeWords: string -> Decoded<string>,           // decode_mime_words: decode_header, then each word decoded and joined
    encodeText: (string, string) -> Decoded<Bytes>,   // str.encode(charset)
    decodeText: (string, Bytes) -> Decoded<string>,   // bytes.decode(charset)
    bodyEncoding: string -> string,                   // the transfer encoding MIMEText picks for a charset
    transferEncode: (string, Bytes) -> Bytes,         // apply a Content-Transfer-Encoding
    transferDecode: (string, Bytes) -> Bytes,         // get_payload(decode=True); never raises
    jsonDumps: Json -> string,
    jsonLoads: string -> Decoded<Json>,
    b64encode: Bytes -> Bytes,                        // base64.encodebytes
    b64decode: Bytes -> Decoded<Bytes>,               // base64.b64decode
    gzip: Bytes -> Bytes,                             // GzipFile(mode="w")
    gunzip: Bytes -> Decoded<Bytes>)                  // gzip.decompress

  /** Each encoder used by the sender is undone by the decoder the receiver
      applies (for the character set `charset` used on both sides). */
  ghost predicate Inverses(lib: Lib, charset: string)
  {
    && (forall t :: lib.encodeText(charset, t).Done? ==> lib.decodeText(charset, lib.encodeText(charset, t).value) == Done(t))
    && TransferInverse(lib)
    && (forall j :: lib.jsonLoads(lib.jsonDumps(j)) == Done(j))
    && (forall b :: lib.b64decode(lib.b64encode(b)) == Done(b))
    && (forall b :: lib.gunzip(lib.gzip(b)) == Done(b))
  }

  /** Every content-transfer encoding is undone by its decoder. */
  ghost predicate TransferInverse(lib: Lib)
  {
    forall c, b :: lib.transferDecode(c, lib.transferEncode(c, b)) == b
  }

  /** The character set `cs` encodes ASCII text one byte per character
      (true of us-ascii, utf-8 and the ISO 8859 family). */
  ghost predicate AsciiCompatible(lib: Lib, cs: string)
  {
    forall t :: AsciiText(t) ==>
      lib.encodeText(cs, t) == Done(ToBytes(t)) && lib.decodeText(cs, ToBytes(t)) == Done(t)
  }

  /** `json.dumps` (with its default `ensure_ascii=True`) and
      `base64.encodebytes` produce ASCII only. */
  ghost predicate AsciiOutputs(lib: Lib)
  {
    && (forall j :: AsciiText(lib.jsonDumps(j)))
    && (forall b :: AsciiData(lib.b64encode(b)))
  }
}
