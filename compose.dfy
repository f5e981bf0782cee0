/** Outgoing message assembly, `BaseSenderTransport.create_message`
    (mailproc/transports/base_sender_transport.py): the headers, the part
    tree and the JSON attachment pipeline. */
module Compose {
  import opened Base
  import opened Codecs
  import opened Mime
  import opened EmailView

  /** `email_to`: one address as a string, or a list of addresses. */
  datatype Recipients = Address(addr: string) | Addresses(addrs: seq<string>)

  /** A string recipient is treated as a one-element list. */
  function RecipientList(to: Recipients): (r: seq<string>)
    ensures to.Address? ==> r == [to.addr]
    ensures to.Addresses? ==> r == to.addrs
  {
    match to
    case Address(a) => [a]
    case Addresses(xs) => xs
  }

  /** The value of the To header. */
  function ToHeader(to: Recipients): string
  {
    match to
    case Address(a) => a
    case Addresses(xs) => Join(xs, ", ")
  }

  /** The arguments of `create_message`. A missing HTML body is "", a
      missing Bcc list is [] and a missing attachment is JNull: each is
      falsy, as None is. */
  datatype Outgoing = Outgoing(
    from: string,
    to: Recipients,
    subject: string,
    text: string,
    html: string,
    bcc: seq<string>,
    encoding: string,
    json: Json,
    filename: string,
    base64: bool,
    gzip: bool)

  /** The `log` argument of the senders, or the default they put in its
      place: a text, or a list of addresses. */
  datatype LogValue = LogText(text: string) | LogList(items: seq<string>)

  predicate LogTruthy(v: LogValue)
  {
    match v
    case LogText(t) => t != ""
    case LogList(xs) => xs != []
  }

  /** One line a sender writes to the log: `SEND ...` or `SEND FAIL ...`. */
  datatype LogLine = SendOk(value: LogValue) | SendFail(value: LogValue)

  /** The charset `MIMEText` picks when given none. */
  function AutoCharset(t: string): string
  {
    if AsciiText(t) then "us-ascii" else "utf-8"
  }

  /** `MIMEText(text, subtype, charset)`: a leaf holding the text encoded in
      `charset` under the transfer encoding the library picks for it. */
  function TextPart(lib: Lib, text: string, subtype: string, charset: string): Decoded<Part>
  {
    match lib.encodeText(charset, text)
    case Raised(e) => Raised(e)
    case Done(b) =>
      var cte := lib.bodyEncoding(charset);
      Done(Part([], ContentType("text", subtype, None), Some(charset), None, Leaf(lib.transferEncode(cte, b), cte)))
  }

  function Headers(o: Outgoing): seq<Header>
  {
    [Header("Subject", o.subject), Header("From", o.from), Header("To", ToHeader(o.to))]
      + (if o.bcc != [] then [Header("Bcc", Join(o.bcc, ", "))] else [])
  }

  /** The first child of the root: the plain text part, or a
      multipart/alternative of the plain and the HTML parts. */
  function BodyPart(lib: Lib, o: Outgoing): Decoded<Part>
  {
    match TextPart(lib, o.text, "plain", o.encoding)
    case Raised(e) => Raised(e)
    case Done(plain) =>
      if o.html == "" then Done(plain)
      else match TextPart(lib, o.html, "html", o.encoding)
        case Raised(e) => Raised(e)
        case Done(html) => Done(Part([], ContentType("multipart", "alternative", None), None, None, Multi([plain, html])))
  }

  /** The bytes of the attachment before it is put in a part: the JSON text
      encoded, then base64-encoded if asked. */
  function AttachmentBytes(lib: Lib, o: Outgoing): Decoded<Bytes>
  {
    match lib.encodeText(o.encoding, lib.jsonDumps(o.json))
    case Raised(e) => Raised(e)
    case Done(b) => Done(if o.base64 then lib.b64encode(b) else b)
  }

  /** The attachment part: gzipped bytes in an application/x-gzip part with
      base64 transfer encoding, or else the bytes decoded back to text in a
      text part; either way with `Content-Disposition: attachment`. */
  function AttachmentPart(lib: Lib, o: Outgoing): Decoded<Part>
  {
    var disposition := Some(Disposition("attachment", Some(o.filename)));
    match AttachmentBytes(lib, o)
    case Raised(e) => Raised(e)
    case Done(b) =>
      if o.gzip then
        var z := lib.gzip(b);
        Done(Part([], ContentType("application", "x-gzip", None), None, disposition, Leaf(lib.transferEncode("base64", z), "base64")))
      else match lib.decodeText(o.encoding, b)
        case Raised(e) => Raised(e)
        case Done(t) =>
          match TextPart(lib, t, "plain", AutoCharset(t))
          case Raised(e) => Raised(e)
          case Done(p) => Done(p.(disposition := disposition))
  }

  /** The message `create_message` returns, or the exception it raises. */
  function MessageFor(lib: Lib, o: Outgoing): Result<Part, Exc>
  {
    match BodyPart(lib, o)
    case Raised(e) => Err(e)
    case Done(body) =>
      if !Truthy(o.json) then
        Ok(Part(Headers(o), ContentType("multipart", "mixed", None), None, None, Multi([body])))
      else match AttachmentPart(lib, o)
        case Raised(e) => Err(e)
        case Done(a) => Ok(Part(Headers(o), ContentType("multipart", "mixed", None), None, None, Multi([body, a])))
  }

  /** `create_message(...)`: the root is filled in step by step, as the
      source attaches parts and re-encodes the attachment stage by stage. */
  method CreateMessage(lib: Lib, o: Outgoing) returns (r: Result<Part, Exc>)
    ensures r == MessageFor(lib, o)
  {
    var headers: seq<Header> := [];
    headers := headers + [Header("Subject", o.subject)];
    headers := headers + [Header("From", o.from)];
    headers := headers + [Header("To", ToHeader(o.to))];
    if o.bcc != [] {
      headers := headers + [Header("Bcc", Join(o.bcc, ", "))];
    }
    assert headers == Headers(o);
    var children: seq<Part> := [];

    var plain := TextPart(lib, o.text, "plain", o.encoding);
    if plain.Raised? {
      return Err(plain.exc);
    }
    if o.html != "" {
      var html := TextPart(lib, o.html, "html", o.encoding);
      if html.Raised? {
        return Err(html.exc);
      }
      var alternative: seq<Part> := [];
      alternative := alternative + [plain.value];
      alternative := alternative + [html.value];
      assert alternative == [plain.value, html.value];
      children := children + [Part([], ContentType("multipart", "alternative", None), None, None, Multi(alternative))];
    } else {
      children := children + [plain.value];
    }
    assert children == [BodyPart(lib, o).value];

    if Truthy(o.json) {
      var jsonString := lib.jsonDumps(o.json);
      var encoded := lib.encodeText(o.encoding, jsonString);
      if encoded.Raised? {
        return Err(encoded.exc);
      }
      var bytes := encoded.value;
      if o.base64 {
        bytes := lib.b64encode(bytes);
      }
      var disposition := Some(Disposition("attachment", Some(o.filename)));
      if o.gzip {
        bytes := lib.gzip(bytes);
        var attachment := Part([], ContentType("application", "x-gzip", None), None, None, Leaf(lib.transferEncode("base64", bytes), "base64"));
        attachment := attachment.(disposition := disposition);
        assert attachment == AttachmentPart(lib, o).value;
        children := children + [attachment];
      } else {
        var text := lib.decodeText(o.encoding, bytes);
        if text.Raised? {
          return Err(text.exc);
        }
        var attachment := TextPart(lib, text.value, "plain", AutoCharset(text.value));
        if attachment.Raised? {
          return Err(attachment.exc);
        }
        assert attachment.value.(disposition := disposition) == AttachmentPart(lib, o).value;
        children := children + [attachment.value.(disposition := disposition)];
      }
    }
    assert BodyPart(lib, o).Done?;
    assert Truthy(o.json) ==> AttachmentPart(lib, o).Done? && children == [BodyPart(lib, o).value, AttachmentPart(lib, o).value];
    return Ok(Part(headers, ContentType("multipart", "mixed", None), None, None, Multi(children)));
  }

  // ------------------------------------------------------------ properties

  /** Subject and From are set verbatim, To is the address or the list
      joined with ", ", and Bcc is present exactly when the list is not
      empty. */
  lemma CreatedHeaders(lib: Lib, o: Outgoing)
    requires MessageFor(lib, o).Ok?
    ensures var h := MessageFor(lib, o).value.headers;
      && GetHeader(h, "Subject") == Some(o.subject)
      && GetHeader(h, "From") == Some(o.from)
      && GetHeader(h, "To") == Some(ToHeader(o.to))
      && GetHeader(h, "Bcc") == (if o.bcc == [] then None else Some(Join(o.bcc, ", ")))
  {
    assert MessageFor(lib, o).value.headers == Headers(o);
    HeaderValues(o);
  }

  lemma HeaderValues(o: Outgoing)
    ensures var h := Headers(o);
      && GetHeader(h, "Subject") == Some(o.subject)
      && GetHeader(h, "From") == Some(o.from)
      && GetHeader(h, "To") == Some(ToHeader(o.to))
      && GetHeader(h, "Bcc") == (if o.bcc == [] then None else Some(Join(o.bcc, ", ")))
  {
    var h := Headers(o);
    assert h[0].name == "Subject" && h[1].name == "From" && h[2].name == "To";
    assert |h| == 3 || (|h| == 4 && h[3].name == "Bcc");
  }

  /** The To header is the recipient list joined with ", ", whether the
      recipients came as one string or as a list; so listing them first,
      as both senders do, leaves the header unchanged. */
  lemma ToHeaderJoins(to: Recipients)
    ensures ToHeader(to) == Join(RecipientList(to), ", ")
    ensures ToHeader(Addresses(RecipientList(to))) == ToHeader(to)
  {
  }

  /** The senders' normalisation of `email_to` to a list builds the very
      message `create_message` builds from the caller's value. */
  lemma NormalizedMessage(lib: Lib, o: Outgoing)
    ensures MessageFor(lib, o.(to := Addresses(RecipientList(o.to)))) == MessageFor(lib, o)
  {
  }

  /** Reading a created message back: its sender's address and name are
      what `parseaddr` makes of `email_from`, and its subject, undecoded,
      is `subject` itself. */
  lemma CreatedSender(lib: Lib, o: Outgoing)
    requires MessageFor(lib, o).Ok?
    ensures var m := MessageFor(lib, o).value;
      && GetFromAddress(lib, m) == lib.parseAddr(o.from).1
      && GetFromName(lib, m, false) == Ok(lib.parseAddr(o.from).0)
      && GetSubject(lib, m, false) == Ok(Some(o.subject))
  {
    CreatedHeaders(lib, o);
  }

  /** The root is multipart/mixed; its first child is the plain part or a
      multipart/alternative of plain then HTML; a truthy attachment is a
      second and last child whose filename reads back as the given one
      with surrounding whitespace stripped, and a falsy one adds no child. */
  lemma CreatedShape(lib: Lib, o: Outgoing)
    requires MessageFor(lib, o).Ok?
    ensures var m := MessageFor(lib, o).value;
      && m.ctype == ContentType("multipart", "mixed", None)
      && m.body.Multi?
      && |m.body.parts| == (if Truthy(o.json) then 2 else 1)
      && (o.html == "" ==> m.body.parts[0].ctype == ContentType("text", "plain", None))
      && (o.html != "" ==>
            && m.body.parts[0].ctype == ContentType("multipart", "alternative", None)
            && m.body.parts[0].body.Multi?
            && |m.body.parts[0].body.parts| == 2
            && m.body.parts[0].body.parts[0].ctype == ContentType("text", "plain", None)
            && m.body.parts[0].body.parts[1].ctype == ContentType("text", "html", None))
      && (Truthy(o.json) ==>
            && Filename(m.body.parts[1]) == Some(Strip(o.filename))
            && m.body.parts[1].disposition.value.kind == "attachment"
            && m.body.parts[1].ctype == (if o.gzip then ContentType("application", "x-gzip", None) else ContentType("text", "plain", None))
            && (o.gzip ==> m.body.parts[1].body == Leaf(m.body.parts[1].body.payload, "base64")))
  {
  }

  /** The hypotheses under which the attachment survives the trip: the
      library's decoders undo its encoders, the charset and us-ascii write
      ASCII text one byte per character, and JSON and base64 output is
      ASCII. */
  ghost predicate FaithfulCodecs(lib: Lib, enc: string)
  {
    && Inverses(lib, enc)
    && AsciiCompatible(lib, enc)
    && AsciiCompatible(lib, "us-ascii")
    && AsciiOutputs(lib)
  }

  /** The attachment part the sender builds decodes, under the receiver's
      pipeline with the same flags, to the JSON value it was built from. */
  lemma AttachmentRoundTrip(lib: Lib, o: Outgoing, q: Query)
    requires FaithfulCodecs(lib, o.encoding)
    requires q.base64 == o.base64 && q.gzipped == o.gzip && q.encoding == o.encoding
    ensures AttachmentPart(lib, o).Done?
    ensures DecodeAttachment(lib, q, Payload(lib, AttachmentPart(lib, o).value)) == Parsed(o.json)
  {
    var dumps := lib.jsonDumps(o.json);
    assert AsciiText(dumps);
    assert lib.encodeText(o.encoding, dumps) == Done(ToBytes(dumps));
    var b0 := ToBytes(dumps);
    assert lib.decodeText(o.encoding, b0) == Done(dumps);
    var b := AttachmentBytes(lib, o).value;
    if o.base64 {
      assert b == lib.b64encode(b0);
      assert lib.b64decode(b) == Done(b0);
    }
    if o.gzip {
      assert lib.gunzip(lib.gzip(b)) == Done(b);
    } else {
      assert AsciiData(b);
      AsciiRoundTrip(b);
      var t := ToText(b);
      assert lib.decodeText(o.encoding, ToBytes(t)) == Done(t);
      assert AutoCharset(t) == "us-ascii";
      assert lib.encodeText("us-ascii", t) == Done(ToBytes(t));
      if o.base64 {
        assert lib.b64decode(ToBytes(t)) == Done(b0);
      } else {
        assert ToBytes(t) == b0;
      }
    }
  }

  /** Round trip of the JSON attachment (the four flag combinations of
      tests/test_email.py): a message created with a truthy attachment and
      read back with the same flags, filtered by nothing or by its own
      filename (as `get_filename` strips it), yields the attachment's value. */
  lemma JsonAttachmentRoundTrip(lib: Lib, o: Outgoing, q: Query)
    requires FaithfulCodecs(lib, o.encoding)
    requires MessageFor(lib, o).Ok?
    requires Truthy(o.json)
    requires q.base64 == o.base64 && q.gzipped == o.gzip && q.encoding == o.encoding
    requires q.name == "" || q.name == Strip(o.filename)
    requires q.contentType == ""
    ensures FirstJson(lib, q, Walk(MessageFor(lib, o).value)) == Ok(Some(o.json))
  {
    var m := MessageFor(lib, o).value;
    var body := BodyPart(lib, o).value;
    var a := AttachmentPart(lib, o).value;
    AttachmentRoundTrip(lib, o, q);
    AttachmentSelected(lib, o, q);
    CreatedWalk(lib, o);
    BodyWalk(lib, o);
    NoneSelected(lib, q, [m] + Walk(body));
    FirstJsonAppend(lib, q, [m] + Walk(body), [a]);
  }

  /** The attachment part passes the filters of a query by its own
      (stripped) filename or by none. */
  lemma AttachmentSelected(lib: Lib, o: Outgoing, q: Query)
    requires AttachmentPart(lib, o).Done?
    requires q.name == "" || q.name == Strip(o.filename)
    requires q.contentType == ""
    ensures Selected(q, AttachmentPart(lib, o).value)
  {
  }

  /** The walk of a created message: the root, the body part's walk, then
      the attachment if there is one. */
  lemma CreatedWalk(lib: Lib, o: Outgoing)
    requires MessageFor(lib, o).Ok?
    ensures Walk(MessageFor(lib, o).value) ==
              [MessageFor(lib, o).value] + Walk(BodyPart(lib, o).value)
              + (if Truthy(o.json) then [AttachmentPart(lib, o).value] else [])
  {
    var m := MessageFor(lib, o).value;
    var body := BodyPart(lib, o).value;
    if Truthy(o.json) {
      var a := AttachmentPart(lib, o).value;
      assert m.body.parts == [body, a];
      assert [body, a][1..] == [a];
      assert [a][1..] == [];
      assert a.body.Leaf?;
      assert WalkAll([a]) == Walk(a) + WalkAll([]) == [a];
      assert WalkAll([body, a]) == Walk(body) + WalkAll([a]);
      assert Walk(m) == [m] + (Walk(body) + [a]);
    } else {
      assert m.body.parts == [body];
      assert [body][1..] == [];
      assert WalkAll([body]) == Walk(body) + WalkAll([]);
      assert Walk(m) == [m] + Walk(body);
      assert [m] + Walk(body) + [] == [m] + Walk(body);
    }
  }

  /** No part of the body tree carries a Content-Disposition. */
  lemma BodyWalk(lib: Lib, o: Outgoing)
    requires BodyPart(lib, o).Done?
    ensures forall p :: p in Walk(BodyPart(lib, o).value) ==> p.disposition.None?
  {
    var body := BodyPart(lib, o).value;
    if o.html != "" {
      assert body.body.parts == [TextPart(lib, o.text, "plain", o.encoding).value, TextPart(lib, o.html, "html", o.encoding).value];
      LeafWalk(body.body.parts);
    }
  }

  /** Walking leaves visits each of them once, in order. */
  lemma {:induction false} LeafWalk(ps: seq<Part>)
    requires forall i :: 0 <= i < |ps| ==> ps[i].body.Leaf?
    ensures WalkAll(ps) == ps
  {
    if ps != [] {
      LeafWalk(ps[1..]);
    }
  }

  /** A walk that selects no part skips every part. */
  lemma NoneSelected(lib: Lib, q: Query, ps: seq<Part>)
    requires forall p :: p in ps ==> !Selected(q, p)
    ensures FirstJson(lib, q, ps) == Ok(None)
  {
  }

  /** No attachment is found in a message created with a falsy value. */
  lemma NoAttachmentWhenFalsy(lib: Lib, o: Outgoing, q: Query)
    requires MessageFor(lib, o).Ok?
    requires !Truthy(o.json)
    ensures FirstJson(lib, q, Walk(MessageFor(lib, o).value)) == Ok(None)
  {
    CreatedWalk(lib, o);
    BodyWalk(lib, o);
    NoneSelected(lib, q, Walk(MessageFor(lib, o).value));
  }

  /** A text part built by `MIMEText` reads back as its text. */
  lemma TextPartReads(lib: Lib, text: string, subtype: string, cs: string)
    requires TransferInverse(lib)
    requires TextPart(lib, text, subtype, cs).Done?
    requires lib.decodeText(cs, lib.encodeText(cs, text).value) == Done(text)
    ensures ContentTypeOf(TextPart(lib, text, subtype, cs).value) == "text/" + subtype
    ensures PartText(lib, TextPart(lib, text, subtype, cs).value) == Done(text)
  {
    var b := lib.encodeText(cs, text).value;
    var cte := lib.bodyEncoding(cs);
    assert lib.transferDecode(cte, lib.transferEncode(cte, b)) == b;
  }

  /** The body tree reads back as the plain text under text/plain and as
      the HTML text (empty when absent) under text/html. */
  lemma BodyPartReads(lib: Lib, o: Outgoing)
    requires Inverses(lib, o.encoding)
    requires BodyPart(lib, o).Done?
    ensures BodyText(lib, WithoutAlternatives(Walk(BodyPart(lib, o).value)), "text/plain") == Ok(o.text)
    ensures BodyText(lib, WithoutAlternatives(Walk(BodyPart(lib, o).value)), "text/html") == Ok(o.html)
  {
    var pl := TextPart(lib, o.text, "plain", o.encoding).value;
    TextPartReads(lib, o.text, "plain", o.encoding);
    if o.html == "" {
      SingleReads(lib, pl, "text/plain", o.text);
    } else {
      var ht := TextPart(lib, o.html, "html", o.encoding).value;
      TextPartReads(lib, o.html, "html", o.encoding);
      AlternativeReads(lib, BodyPart(lib, o).value, pl, ht, o.text, o.html);
    }
  }

  /** A lone text leaf reads as its text under its own content type and as
      nothing under the other. */
  lemma SingleReads(lib: Lib, p: Part, ct: string, text: string)
    requires p.body.Leaf?
    requires ct == "text/plain" && ContentTypeOf(p) == ct && PartText(lib, p) == Done(text)
    ensures BodyText(lib, WithoutAlternatives(Walk(p)), "text/plain") == Ok(text)
    ensures BodyText(lib, WithoutAlternatives(Walk(p)), "text/html") == Ok("")
  {
    assert Walk(p) == [p];
    assert [p][1..] == [];
    assert WithoutAlternatives([p]) == [p];
    assert text + "" == text;
  }

  /** A multipart/alternative of a plain and an HTML leaf reads as the
      plain text under text/plain and the HTML text under text/html. */
  lemma AlternativeReads(lib: Lib, alt: Part, pl: Part, ht: Part, text: string, html: string)
    requires alt == Part([], ContentType("multipart", "alternative", None), None, None, Multi([pl, ht]))
    requires pl.body.Leaf? && ht.body.Leaf?
    requires ContentTypeOf(pl) == "text/plain" && PartText(lib, pl) == Done(text)
    requires ContentTypeOf(ht) == "text/html" && PartText(lib, ht) == Done(html)
    ensures BodyText(lib, WithoutAlternatives(Walk(alt)), "text/plain") == Ok(text)
    ensures BodyText(lib, WithoutAlternatives(Walk(alt)), "text/html") == Ok(html)
  {
    AlternativeLeaves(alt, pl, ht);
    PairReads(lib, pl, ht, text, html);
  }

  /** Walking the alternative and dropping it leaves its two leaves. */
  lemma AlternativeLeaves(alt: Part, pl: Part, ht: Part)
    requires alt == Part([], ContentType("multipart", "alternative", None), None, None, Multi([pl, ht]))
    requires pl.body.Leaf? && ht.body.Leaf?
    requires ContentTypeOf(pl) == "text/plain" && ContentTypeOf(ht) == "text/html"
    ensures WithoutAlternatives(Walk(alt)) == [pl, ht]
  {
    LeafWalk([pl, ht]);
    assert Walk(alt) == [alt, pl, ht];
    assert ContentTypeOf(alt) == "multipart/alternative";
    assert [alt, pl, ht][1..] == [pl, ht];
    assert [pl, ht][1..] == [ht];
    assert [ht][1..] == [];
    assert "text/plain" != "multipart/alternative" && "text/html" != "multipart/alternative";
    assert WithoutAlternatives([ht]) == [ht];
    assert WithoutAlternatives([pl, ht]) == [pl, ht];
  }

  /** A plain leaf then an HTML leaf read as one text under each type. */
  lemma PairReads(lib: Lib, pl: Part, ht: Part, text: string, html: string)
    requires ContentTypeOf(pl) == "text/plain" && PartText(lib, pl) == Done(text)
    requires ContentTypeOf(ht) == "text/html" && PartText(lib, ht) == Done(html)
    ensures BodyText(lib, [pl, ht], "text/plain") == Ok(text)
    ensures BodyText(lib, [pl, ht], "text/html") == Ok(html)
  {
    assert [pl, ht][1..] == [ht];
    assert [ht][1..] == [];
    assert "text/plain" != "text/html";
    assert BodyText(lib, [ht], "text/plain") == Ok("");
    assert BodyText(lib, [ht], "text/html") == Prefixed(html, Ok(""));
    assert BodyText(lib, [pl, ht], "text/plain") == Prefixed(text, Ok(""));
    assert BodyText(lib, [pl, ht], "text/html") == Prefixed(html, Ok(""));
    assert text + "" == text;
    assert html + "" == html;
  }

  /** What `get_body` reads from a created message: the HTML text under
      `html=True`, and the plain text when there is no attachment or it is
      gzipped. A JSON attachment that is not gzipped is itself a text/plain
      part, so `get_body()` then returns the text followed by the JSON text
      (shown here without base64). */
  lemma CreatedBody(lib: Lib, o: Outgoing)
    requires FaithfulCodecs(lib, o.encoding)
    requires MessageFor(lib, o).Ok?
    ensures var parts := WithoutAlternatives(Walk(MessageFor(lib, o).value));
      && BodyText(lib, parts, "text/html") == Ok(o.html)
      && (!Truthy(o.json) || o.gzip ==> BodyText(lib, parts, "text/plain") == Ok(o.text))
      && (Truthy(o.json) && !o.gzip && !o.base64 ==>
            BodyText(lib, parts, "text/plain") == Ok(o.text + lib.jsonDumps(o.json)))
  {
    var m := MessageFor(lib, o).value;
    var tail := if Truthy(o.json) then [AttachmentPart(lib, o).value] else [];
    var head := WithoutAlternatives(Walk(BodyPart(lib, o).value));
    var rest := WithoutAlternatives(tail);
    CreatedParts(lib, o);
    BodyPartReads(lib, o);
    RootReads(lib, m);
    AttachmentReads(lib, o);
    assert o.text + "" == o.text && o.html + "" == o.html;
    ThreeReads(lib, [m], head, rest, "text/html", o.html, "");
    if !Truthy(o.json) || o.gzip {
      ThreeReads(lib, [m], head, rest, "text/plain", o.text, "");
    }
    if Truthy(o.json) && !o.gzip && !o.base64 {
      ThreeReads(lib, [m], head, rest, "text/plain", o.text, lib.jsonDumps(o.json));
    }
  }

  /** The parts `get_body` looks at in a created message: the root, those of
      the body tree, then the attachment if there is one. */
  lemma CreatedParts(lib: Lib, o: Outgoing)
    requires MessageFor(lib, o).Ok?
    ensures WithoutAlternatives(Walk(MessageFor(lib, o).value)) ==
              [MessageFor(lib, o).value] + WithoutAlternatives(Walk(BodyPart(lib, o).value))
              + WithoutAlternatives(if Truthy(o.json) then [AttachmentPart(lib, o).value] else [])
  {
    var m := MessageFor(lib, o).value;
    var tail := if Truthy(o.json) then [AttachmentPart(lib, o).value] else [];
    CreatedWalk(lib, o);
    assert WithoutAlternatives([m]) == [m] by {
      assert [m][1..] == [];
    }
    WithoutAlternativesAppend([m], Walk(BodyPart(lib, o).value));
    WithoutAlternativesAppend([m] + Walk(BodyPart(lib, o).value), tail);
  }

  /** Reading the root, the body tree and the rest one after the other
      concatenates what each of them reads. */
  lemma ThreeReads(lib: Lib, root: seq<Part>, head: seq<Part>, rest: seq<Part>, ct: string, x: string, y: string)
    requires BodyText(lib, root, ct) == Ok("")
    requires BodyText(lib, head, ct) == Ok(x)
    requires BodyText(lib, rest, ct) == Ok(y)
    ensures BodyText(lib, root + head + rest, ct) == Ok(x + y)
  {
    BodyTextAppend(lib, root, head, ct);
    BodyTextAppend(lib, root + head, rest, ct);
    assert "" + x == x;
  }

  lemma RootReads(lib: Lib, m: Part)
    requires m.ctype == ContentType("multipart", "mixed", None)
    ensures BodyText(lib, [m], "text/plain") == Ok("")
    ensures BodyText(lib, [m], "text/html") == Ok("")
  {
    assert [m][1..] == [];
    assert ContentTypeOf(m) == "multipart/mixed";
  }

  /** The attachment adds nothing under text/html; under text/plain it adds
      nothing when gzipped and its JSON text otherwise (without base64). */
  lemma AttachmentReads(lib: Lib, o: Outgoing)
    requires FaithfulCodecs(lib, o.encoding)
    requires Truthy(o.json) ==> AttachmentPart(lib, o).Done?
    ensures var rest := WithoutAlternatives(if Truthy(o.json) then [AttachmentPart(lib, o).value] else []);
      && BodyText(lib, rest, "text/html") == Ok("")
      && (!Truthy(o.json) || o.gzip ==> BodyText(lib, rest, "text/plain") == Ok(""))
      && (Truthy(o.json) && !o.gzip && !o.base64 ==> BodyText(lib, rest, "text/plain") == Ok(lib.jsonDumps(o.json)))
  {
    if Truthy(o.json) {
      var a := AttachmentPart(lib, o).value;
      assert [a][1..] == [];
      assert WithoutAlternatives([a]) == [a] by {
        assert ContentTypeOf(a) != "multipart/alternative" by {
          if o.gzip {
            assert ContentTypeOf(a) == "application/x-gzip";
          } else {
            assert ContentTypeOf(a) == "text/plain";
          }
        }
      }
      if o.gzip {
        assert ContentTypeOf(a) == "application/x-gzip";
      } else {
        assert ContentTypeOf(a) == "text/plain";
        if !o.base64 {
          var dumps := lib.jsonDumps(o.json);
          assert AsciiText(dumps);
          assert AttachmentBytes(lib, o).value == ToBytes(dumps);
          assert lib.decodeText(o.encoding, ToBytes(dumps)) == Done(dumps);
          assert AutoCharset(dumps) == "us-ascii";
          assert lib.encodeText("us-ascii", dumps) == Done(ToBytes(dumps));
          TextPartReads(lib, dumps, "plain", "us-ascii");
          assert PartText(lib, a) == Done(dumps);
          assert dumps + "" == dumps;
        }
      }
    }
  }
}
