/** The MIME tree of an email message (`email.message.Message`), as the
    email library builds it when parsing or when composing with
    MIMEMultipart and MIMEText (RFC 2045, RFC 2046). A part has headers, a
    content type, an optional charset parameter, an optional
    Content-Disposition (RFC 2183) and either a leaf payload, kept
    transfer-encoded together with its Content-Transfer-Encoding, or a
    sequence of sub-parts. */
module Mime {
  import opened Base

  /** A Content-Type: the media type and its optional `name` parameter. */
  datatype ContentType = ContentType(main: string, sub: string, name: Option<string>)

  datatype Disposition = Disposition(kind: string, filename: Option<string>)

  datatype Header = Header(name: string, value: string)

  datatype Body = Leaf(payload: Bytes, cte: string) | Multi(parts: seq<Part>)

  datatype Part = Part(
    headers: seq<Header>,
    ctype: ContentType,
    charset: Option<string>,
    disposition: Option<Disposition>,
    body: Body)

  /** ASCII case folding of one character; header field names are
      printable US-ASCII (RFC 5322 section 2.2). */
  function LowerChar(c: char): char
  {
    if 'A' <= c <= 'Z' then (c as int - 'A' as int + 'a' as int) as char else c
  }

  /** Two header names are the same field when they agree up to case
      (`name.lower()` on both sides, as `email.message.Message` compares
      them). */
  predicate SameName(a: string, b: string)
  {
    |a| == |b| && forall i :: 0 <= i < |a| ==> LowerChar(a[i]) == LowerChar(b[i])
  }

  /** `msg[name]`: the first header whose name matches `name` up to case,
      None when there is none. */
  function GetHeader(headers: seq<Header>, name: string): (r: Option<string>)
    ensures r.None? <==> forall i :: 0 <= i < |headers| ==> !SameName(headers[i].name, name)
    ensures r.Some? ==> exists i :: 0 <= i < |headers| && SameName(headers[i].name, name) && headers[i].value == r.value
                                    && forall k :: 0 <= k < i ==> !SameName(headers[k].name, name)
  {
    if headers == [] then None
    else if SameName(headers[0].name, name) then Some(headers[0].value)
    else
      var r := GetHeader(headers[1..], name);
      if r.Some? then
        var i :| 0 <= i < |headers[1..]| && SameName(headers[1..][i].name, name) && headers[1..][i].value == r.value
                 && forall k :: 0 <= k < i ==> !SameName(headers[1..][k].name, name);
        assert headers[i + 1] == headers[1..][i];
        r
      else r
  }

  /** The lookup depends on the name only up to case: `msg["subject"]` is
      `msg["Subject"]`. */
  lemma {:induction false} GetHeaderCaseInsensitive(headers: seq<Header>, a: string, b: string)
    requires SameName(a, b)
    ensures GetHeader(headers, a) == GetHeader(headers, b)
    decreases |headers|
  {
    if headers != [] {
      var n := headers[0].name;
      assert SameName(n, a) <==> SameName(n, b);
      GetHeaderCaseInsensitive(headers[1..], a, b);
    }
  }

  /** `get_content_type()` */
  function ContentTypeOf(p: Part): string
  {
    p.ctype.main + "/" + p.ctype.sub
  }

  /** `get_filename()`: the `filename` parameter of Content-Disposition,
      or failing that the `name` parameter of Content-Type, with
      surrounding whitespace stripped; None when neither is present. */
  function Filename(p: Part): (r: Option<string>)
    ensures r.None? <==> (p.disposition.None? || p.disposition.value.filename.None?) && p.ctype.name.None?
    ensures p.disposition.Some? && p.disposition.value.filename.Some? ==> r == Some(Strip(p.disposition.value.filename.value))
    ensures (p.disposition.None? || p.disposition.value.filename.None?) && p.ctype.name.Some? ==> r == Some(Strip(p.ctype.name.value))
  {
    var raw := if p.disposition.Some? && p.disposition.value.filename.Some? then p.disposition.value.filename else p.ctype.name;
    if raw.None? then None else Some(Strip(raw.value))
  }

  /** `walk()` over a sequence of parts: each part, then the walk of its
      sub-parts, depth first, in order. */
  function WalkAll(ps: seq<Part>): (r: seq<Part>)
    ensures |r| >= |ps|
    decreases ps
  {
    if ps == [] then []
    else
      Walk(ps[0]) + WalkAll(ps[1..])
  }

  /** `msg.walk()` */
  function Walk(p: Part): (r: seq<Part>)
    ensures |r| >= 1 && r[0] == p
  {
    [p] + (if p.body.Multi? then WalkAll(p.body.parts) else [])
  }

  lemma {:induction false} WalkAllAppend(a: seq<Part>, b: seq<Part>)
    ensures WalkAll(a + b) == WalkAll(a) + WalkAll(b)
    decreases a
  {
    if a != [] {
      assert (a + b)[0] == a[0];
      assert (a + b)[1..] == a[1..] + b;
      WalkAllAppend(a[1..], b);
    } else {
      assert a + b == b;
    }
  }
}
