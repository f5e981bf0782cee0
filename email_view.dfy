/** The read-only helpers of `Email` (mailproc/mailproc_email.py): the From
    address and display name, the subject, the text or HTML body, and the
    first JSON attachment a query selects. */
module EmailView {
  import opened Base
  import opened Codecs
  import opened Mime

  /** `get_payload(decode=True)`: the payload with its transfer encoding
      undone. A multipart part has no payload of its own. */
  function Payload(lib: Lib, p: Part): Bytes
  {
    if p.body.Leaf? then lib.transferDecode(p.body.cte, p.body.payload) else []
  }

  predicate IsAlternative(p: Part)
  {
    ContentTypeOf(p) == "multipart/alternative"
  }

  /** `_walk_email` applied to a walk: every part except the
      multipart/alternative containers, in walk order. */
  function WithoutAlternatives(ps: seq<Part>): (r: seq<Part>)
    ensures forall x :: x in r <==> x in ps && !IsAlternative(x)
    ensures |r| <= |ps|
  {
    if ps == [] then []
    else if IsAlternative(ps[0]) then WithoutAlternatives(ps[1..])
    else [ps[0]] + WithoutAlternatives(ps[1..])
  }

  lemma {:induction false} WithoutAlternativesAppend(a: seq<Part>, b: seq<Part>)
    ensures WithoutAlternatives(a + b) == WithoutAlternatives(a) + WithoutAlternatives(b)
  {
    if a == [] {
      assert a + b == b;
    } else {
      assert (a + b)[0] == a[0];
      assert (a + b)[1..] == a[1..] + b;
      WithoutAlternativesAppend(a[1..], b);
    }
  }

  // ---------------------------------------------------------------- headers

  /** `parseaddr(self['From'])`; an absent header parses as ('', ''). */
  function ParsedFrom(lib: Lib, m: Part): (string, string)
  {
    var from := GetHeader(m.headers, "From");
    if from.None? then ("", "") else lib.parseAddr(from.value)
  }

  /** `get_from_address()` */
  function GetFromAddress(lib: Lib, m: Part): (r: string)
    ensures GetHeader(m.headers, "From").None? ==> r == ""
    ensures forall v :: GetHeader(m.headers, "From") == Some(v) ==> r == lib.parseAddr(v).1
  {
    ParsedFrom(lib, m).1
  }

  /** `get_from_name(decode)`: the display name, run through
      `decode_mime_words` when asked, which raises what decoding one of
      its encoded words raises. */
  function GetFromName(lib: Lib, m: Part, decode: bool): (r: Result<string, Exc>)
    ensures !decode ==> r == Ok(ParsedFrom(lib, m).0)
    ensures decode ==> (r.Err? <==> lib.decodeWords(ParsedFrom(lib, m).0).Raised?)
    ensures decode && r.Ok? ==> lib.decodeWords(ParsedFrom(lib, m).0) == Done(r.value)
    ensures decode && r.Err? ==> lib.decodeWords(ParsedFrom(lib, m).0) == Raised(r.error)
  {
    var name := ParsedFrom(lib, m).0;
    if !decode then Ok(name)
    else match lib.decodeWords(name)
      case Raised(e) => Err(e)
      case Done(t) => Ok(t)
  }

  /** `get_subject(decode)`: None when the header is absent and nothing is
      decoded; decoding an absent subject raises TypeError, and decoding a
      present one raises what `decode_mime_words` raises. */
  function GetSubject(lib: Lib, m: Part, decode: bool): (r: Result<Option<string>, Exc>)
    ensures !decode ==> r == Ok(GetHeader(m.headers, "Subject"))
    ensures r.Err? <==> decode && (GetHeader(m.headers, "Subject").None? ||
                                   lib.decodeWords(GetHeader(m.headers, "Subject").value).Raised?)
    ensures decode && GetHeader(m.headers, "Subject").None? ==> r == Err(TypeError)
    ensures forall v, e :: GetHeader(m.headers, "Subject") == Some(v) && lib.decodeWords(v) == Raised(e) ==>
              decode ==> r == Err(e)
    ensures forall v, t :: GetHeader(m.headers, "Subject") == Some(v) && lib.decodeWords(v) == Done(t) ==>
              decode ==> r == Ok(Some(t))
  {
    var subject := GetHeader(m.headers, "Subject");
    if !decode then Ok(subject)
    else if subject.None? then Err(TypeError)
    else match lib.decodeWords(subject.value)
      case Raised(e) => Err(e)
      case Done(t) => Ok(Some(t))
  }

  // ------------------------------------------------------------------- body

  /** `part.get_payload(decode=1).decode(part.get_content_charset())`: a part
      without a charset parameter raises TypeError. */
  function PartText(lib: Lib, p: Part): Decoded<string>
  {
    if p.charset.None? then Raised(TypeError)
    else lib.decodeText(p.charset.value, Payload(lib, p))
  }

  /** The body `get_body` assembles from `ps`: the texts of the parts whose
      content type is `ct`, concatenated in order, or the exception of the
      first of them that cannot be decoded. */
  function BodyText(lib: Lib, ps: seq<Part>, ct: string): Result<string, Exc>
  {
    if ps == [] then Ok("")
    else if ContentTypeOf(ps[0]) != ct then BodyText(lib, ps[1..], ct)
    else match PartText(lib, ps[0])
      case Raised(e) => Err(e)
      case Done(t) => Prefixed(t, BodyText(lib, ps[1..], ct))
  }

  /** `get_body` fails exactly when some part of the content type cannot
      be decoded, with the exception of the first such part; with no part of
      the content type the body is empty. */
  lemma {:induction false} BodyTextFailure(lib: Lib, ps: seq<Part>, ct: string)
    ensures var r := BodyText(lib, ps, ct);
      && (r.Err? <==> exists i :: 0 <= i < |ps| && ContentTypeOf(ps[i]) == ct && PartText(lib, ps[i]).Raised?)
      && (r.Err? ==> exists i :: 0 <= i < |ps| && ContentTypeOf(ps[i]) == ct && PartText(lib, ps[i]) == Raised(r.error)
                                 && forall k :: 0 <= k < i && ContentTypeOf(ps[k]) == ct ==> PartText(lib, ps[k]).Done?)
      && ((forall i :: 0 <= i < |ps| ==> ContentTypeOf(ps[i]) != ct) ==> r == Ok(""))
  {
    if ps != [] {
      BodyTextFailure(lib, ps[1..], ct);
      assert forall i :: 1 <= i < |ps| ==> ps[i] == ps[1..][i - 1];
      var rest := BodyText(lib, ps[1..], ct);
      if rest.Err? && !(ContentTypeOf(ps[0]) == ct && PartText(lib, ps[0]).Raised?) {
        var i :| 0 <= i < |ps[1..]| && ContentTypeOf(ps[1..][i]) == ct && PartText(lib, ps[1..][i]) == Raised(rest.error)
                 && forall k :: 0 <= k < i && ContentTypeOf(ps[1..][k]) == ct ==> PartText(lib, ps[1..][k]).Done?;
        assert ps[i + 1] == ps[1..][i];
      }
    }
  }

  /** `text` followed by what `r` holds, or `r`'s exception. */
  function Prefixed(text: string, r: Result<string, Exc>): Result<string, Exc>
  {
    if r.Ok? then Ok(text + r.value) else r
  }

  /** The body of a concatenation of walks is the concatenation of their
      bodies, and an exception in the first stops the second. */
  lemma {:induction false} BodyTextAppend(lib: Lib, a: seq<Part>, b: seq<Part>, ct: string)
    ensures BodyText(lib, a + b, ct) ==
              if BodyText(lib, a, ct).Err? then BodyText(lib, a, ct) else Prefixed(BodyText(lib, a, ct).value, BodyText(lib, b, ct))
  {
    if a == [] {
      assert a + b == b;
      assert forall x :: "" + x == x;
    } else {
      assert (a + b)[0] == a[0];
      assert (a + b)[1..] == a[1..] + b;
      BodyTextAppend(lib, a[1..], b, ct);
      var rest := BodyText(lib, a[1..], ct);
      if ContentTypeOf(a[0]) == ct && PartText(lib, a[0]).Done? && rest.Ok? {
        var t := PartText(lib, a[0]).value;
        PrefixedTwice(t, rest.value, BodyText(lib, b, ct));
      }
    }
  }

  lemma PrefixedTwice(s: string, t: string, r: Result<string, Exc>)
    ensures Prefixed(s, Prefixed(t, r)) == Prefixed(s + t, r)
  {
    if r.Ok? {
      assert s + (t + r.value) == s + t + r.value;
    }
  }

  /** `get_body(html)` */
  method GetBody(lib: Lib, m: Part, html: bool) returns (r: Result<string, Exc>)
    ensures r == BodyText(lib, WithoutAlternatives(Walk(m)), if html then "text/html" else "text/plain")
  {
    var contentType := if html then "text/html" else "text/plain";
    var parts := WithoutAlternatives(Walk(m));
    var body := "";
    var i := 0;
    assert parts[0..] == parts;
    assert forall x :: "" + x == x;
    while i < |parts|
      invariant 0 <= i <= |parts|
      invariant BodyText(lib, parts, contentType) == Prefixed(body, BodyText(lib, parts[i..], contentType))
    {
      assert parts[i..][1..] == parts[i + 1..];
      assert parts[i..][0] == parts[i];
      var part := parts[i];
      if ContentTypeOf(part) == contentType {
        var text := PartText(lib, part);
        if text.Raised? {
          assert BodyText(lib, parts[i..], contentType) == Err(text.exc);
          return Err(text.exc);
        }
        assert forall x :: body + (text.value + x) == body + text.value + x;
        body := body + text.value;
      }
      i := i + 1;
    }
    assert parts[|parts|..] == [];
    assert body + "" == body;
    r := Ok(body);
  }

  // -------------------------------------------------------- JSON attachment

  /** The arguments of `get_json_attachment`. An empty name or content type
      selects every attachment, as a missing (falsy) argument does. */
  datatype Query = Query(name: string, contentType: string, base64: bool, gzipped: bool, encoding: string)

  /** What examining one part yields: its JSON value, nothing (the loop goes
      on to the next part), or an exception that leaves the method. */
  datatype Attempt = Parsed(json: Json) | Skip | Fatal(exc: Exc)

  /** The part is a non-multipart attachment that passes the filters. */
  predicate Selected(q: Query, p: Part)
  {
    && p.ctype.main != "multipart"
    && p.disposition.Some?
    && (q.name == "" || Filename(p) == Some(q.name))
    && (q.contentType == "" || ContentTypeOf(p) == q.contentType)
  }

  /** Decoding an attachment's payload: gunzip (a ValueError skips the part),
      base64 (every error escapes), then decode and parse the JSON text (a
      ValueError skips the part). */
  function DecodeAttachment(lib: Lib, q: Query, body: Bytes): Attempt
  {
    var unzipped := if q.gzipped then lib.gunzip(body) else Done(body);
    if unzipped.Raised? then
      (if unzipped.exc == ValueError then Skip else Fatal(unzipped.exc))
    else
      var raw := if q.base64 then lib.b64decode(unzipped.value) else Done(unzipped.value);
      if raw.Raised? then Fatal(raw.exc)
      else match lib.decodeText(q.encoding, raw.value)
        case Raised(e) => if e == ValueError then Skip else Fatal(e)
        case Done(s) =>
          match lib.jsonLoads(s)
          case Done(j) => Parsed(j)
          case Raised(e) => if e == ValueError then Skip else Fatal(e)
  }

  function Examine(lib: Lib, q: Query, p: Part): Attempt
  {
    if Selected(q, p) then DecodeAttachment(lib, q, Payload(lib, p)) else Skip
  }

  /** The outcome of scanning `ps` in order: the first part that does not
      skip decides; Ok(None) is the method's `False`. */
  function FirstJson(lib: Lib, q: Query, ps: seq<Part>): Result<Option<Json>, Exc>
  {
    if ps == [] then Ok(None)
    else
      match Examine(lib, q, ps[0])
      case Parsed(j) => Ok(Some(j))
      case Fatal(e) => Err(e)
      case Skip => FirstJson(lib, q, ps[1..])
  }

  /** The scan answers None exactly when every part skips, and otherwise
      reports the verdict of the first part that does not skip. */
  lemma {:induction false} FirstJsonSpec(lib: Lib, q: Query, ps: seq<Part>)
    ensures FirstJson(lib, q, ps) == Ok(None) <==> forall i :: 0 <= i < |ps| ==> Examine(lib, q, ps[i]).Skip?
    ensures FirstJson(lib, q, ps) != Ok(None) ==>
              exists i :: 0 <= i < |ps| && Decides(Examine(lib, q, ps[i]), FirstJson(lib, q, ps))
                          && forall k :: 0 <= k < i ==> Examine(lib, q, ps[k]).Skip?
  {
    if ps != [] && Examine(lib, q, ps[0]).Skip? {
      var r := FirstJson(lib, q, ps[1..]);
      FirstJsonSpec(lib, q, ps[1..]);
      assert forall i :: 1 <= i < |ps| ==> ps[i] == ps[1..][i - 1];
      if r != Ok(None) {
        var i :| 0 <= i < |ps[1..]| && Decides(Examine(lib, q, ps[1..][i]), r)
                 && forall k :: 0 <= k < i ==> Examine(lib, q, ps[1..][k]).Skip?;
        assert Decides(Examine(lib, q, ps[i + 1]), r);
      }
    }
  }

  /** The verdict of one part is the outcome of the whole scan. */
  predicate Decides(v: Attempt, r: Result<Option<Json>, Exc>)
  {
    match v
    case Parsed(j) => r == Ok(Some(j))
    case Fatal(e) => r == Err(e)
    case Skip => false
  }

  /** The first selected part whose JSON decodes determines the answer;
      parts after it are not looked at. */
  lemma {:induction false} FirstJsonAppend(lib: Lib, q: Query, a: seq<Part>, b: seq<Part>)
    ensures FirstJson(lib, q, a + b) == (if FirstJson(lib, q, a) == Ok(None) then FirstJson(lib, q, b) else FirstJson(lib, q, a))
  {
    if a == [] {
      assert a + b == b;
    } else {
      assert (a + b)[0] == a[0];
      assert (a + b)[1..] == a[1..] + b;
      FirstJsonAppend(lib, q, a[1..], b);
    }
  }

  /** The body of the loop of `get_json_attachment` for one selected part. */
  method DecodePayload(lib: Lib, q: Query, payload: Bytes) returns (a: Attempt)
    ensures a == DecodeAttachment(lib, q, payload)
  {
    var body := payload;
    if q.gzipped {
      var unzipped := lib.gunzip(body);
      if unzipped.Raised? {
        return if unzipped.exc == ValueError then Skip else Fatal(unzipped.exc);
      }
      body := unzipped.value;
    }
    if q.base64 {
      var raw := lib.b64decode(body);
      if raw.Raised? {
        return Fatal(raw.exc);
      }
      body := raw.value;
    }
    var text := lib.decodeText(q.encoding, body);
    if text.Raised? {
      return if text.exc == ValueError then Skip else Fatal(text.exc);
    }
    var json := lib.jsonLoads(text.value);
    if json.Raised? {
      return if json.exc == ValueError then Skip else Fatal(json.exc);
    }
    return Parsed(json.value);
  }

  /** `get_json_attachment(...)`: False (Ok(None)) for a message that is not
      multipart, otherwise the scan of its walk. */
  method GetJsonAttachment(lib: Lib, m: Part, q: Query) returns (r: Result<Option<Json>, Exc>)
    ensures m.ctype.main != "multipart" ==> r == Ok(None)
    ensures m.ctype.main == "multipart" ==> r == FirstJson(lib, q, Walk(m))
  {
    if m.ctype.main != "multipart" {
      return Ok(None);
    }
    var parts := Walk(m);
    var i := 0;
    while i < |parts|
      invariant 0 <= i <= |parts|
      invariant FirstJson(lib, q, parts) == FirstJson(lib, q, parts[i..])
    {
      assert parts[i..][1..] == parts[i + 1..];
      assert parts[i..][0] == parts[i];
      var part := parts[i];
      if Selected(q, part) {
        var attempt := DecodePayload(lib, q, Payload(lib, part));
        match attempt
        case Parsed(j) => return Ok(Some(j));
        case Fatal(e) => return Err(e);
        case Skip =>
      }
      i := i + 1;
    }
    assert parts[|parts|..] == [];
    return Ok(None);
  }
}
