/** Shared vocabulary of the model: optional values, results, the exceptions
    the modelled Python code raises or catches, bytes, and the few string
    operations (prefix, suffix, join, strip) that the transports use. */
module Base {

  datatype Option<+T> = None | Some(value: T)

  datatype Result<+T, +E> = Ok(value: T) | Err(error: E)

  /** The exceptions that can leave (or are caught inside) the modelled code. */
  datatype Exc =
    | RouteError              // no route matched (mailproc.exceptions.RouteError)
    | MessageInstanceError    // run() was given something that is not a Message
    | KeyError                // a route target other than 'from' and 'subject'
    | RegexError              // re.error: a route template that does not compile
    | TypeError               // e.g. decoding an absent header or a payload without charset
    | ValueError              // a codec rejected its input
    | OSError                 // a file could not be written, or gzip rejected its input
    | LookupError             // an unknown character set
    | AttributeError          // a transport used before connect()
    | ImapError               // imaplib.IMAP4.error: a command illegal in the current state
    | ImapAbort               // imaplib.IMAP4.abort: the peer closed the connection
    | SmtpError               // any smtplib failure
    | HandlerError            // anything else a user handler raises

  newtype Byte = b: int | 0 <= b < 256
  type Bytes = seq<Byte>

  /** What a library call returns: a value, or the exception it raises. */
  datatype Decoded<+T> = Done(value: T) | Raised(exc: Exc)

  predicate StartsWith(s: string, prefix: string)
  {
    |prefix| <= |s| && s[..|prefix|] == prefix
  }

  predicate EndsWith(s: string, suffix: string)
  {
    |suffix| <= |s| && s[|s| - |suffix|..] == suffix
  }

  /** `sep.join(xs)` */
  function Join(xs: seq<string>, sep: string): (r: string)
    ensures xs == [] ==> r == ""
    ensures |xs| == 1 ==> r == xs[0]
    ensures |xs| > 0 ==> StartsWith(r, xs[0])
  {
    if xs == [] then ""
    else if |xs| == 1 then xs[0]
    else xs[0] + sep + Join(xs[1..], sep)
  }

  /** The characters `bytes.strip()` removes: space, \t, \n, \r, \v, \f. */
  predicate IsSpace(c: char)
  {
    c == ' ' || c == '\t' || c == '\n' || c == '\r' || c as int == 11 || c as int == 12
  }

  predicate AllSpace(s: string)
  {
    forall i :: 0 <= i < |s| ==> IsSpace(s[i])
  }

  /** `lstrip()` */
  function TrimLeft(s: string): string
  {
    if s != [] && IsSpace(s[0]) then TrimLeft(s[1..]) else s
  }

  /** `rstrip()` */
  function TrimRight(s: string): string
  {
    if s != [] && IsSpace(s[|s| - 1]) then TrimRight(s[..|s| - 1]) else s
  }

  /** `bytes.strip()`: the bytes with leading and trailing whitespace
      removed. */
  function Strip(s: string): string
  {
    TrimRight(TrimLeft(s))
  }

  /** `lstrip()` removes a whitespace prefix, and all of it. */
  lemma {:induction false} TrimLeftSpec(s: string)
    ensures |TrimLeft(s)| <= |s| && TrimLeft(s) == s[|s| - |TrimLeft(s)|..]
    ensures AllSpace(s[..|s| - |TrimLeft(s)|])
    ensures TrimLeft(s) == [] || !IsSpace(TrimLeft(s)[0])
  {
    if s != [] && IsSpace(s[0]) {
      TrimLeftSpec(s[1..]);
      var r := TrimLeft(s[1..]);
      assert s[1..][..|s| - 1 - |r|] == s[1..|s| - |r|];
    }
  }

  /** `rstrip()` removes a whitespace suffix, and all of it. */
  lemma {:induction false} TrimRightSpec(s: string)
    ensures |TrimRight(s)| <= |s| && TrimRight(s) == s[..|TrimRight(s)|]
    ensures AllSpace(s[|TrimRight(s)|..])
    ensures TrimRight(s) == [] || !IsSpace(TrimRight(s)[|TrimRight(s)| - 1])
  {
    if s != [] && IsSpace(s[|s| - 1]) {
      TrimRightSpec(s[..|s| - 1]);
      var r := TrimRight(s[..|s| - 1]);
      assert s[..|s| - 1][|r|..] + [s[|s| - 1]] == s[|r|..];
    }
  }

  /** `strip()` keeps the longest infix with no whitespace at either end
      and only whitespace around it. */
  lemma StripSpec(s: string)
    ensures |Strip(s)| <= |s|
    ensures exists i :: 0 <= i <= |s| - |Strip(s)| && Strip(s) == s[i..i + |Strip(s)|] && AllSpace(s[..i]) && AllSpace(s[i + |Strip(s)|..])
    ensures Strip(s) == [] || (!IsSpace(Strip(s)[0]) && !IsSpace(Strip(s)[|Strip(s)| - 1]))
  {
    var left := TrimLeft(s);
    TrimLeftSpec(s);
    TrimRightSpec(left);
    var r := TrimRight(left);
    var i := |s| - |left|;
    assert r == s[i..i + |r|];
    assert s[i + |r|..] == left[|r|..];
  }
}
