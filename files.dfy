/** The file transports (mailproc/transports/file_sender_transport.py and
    mailproc/transports/file_receiver_transport.py) over a directory
    modelled as a sequence of named entries. The listing order of the
    directory is the order of that sequence, which is creation order;
    `os.listdir` itself lists in an order the file system chooses. A
    file's content is the
    message it holds (serialising and parsing it again is not modelled). */
module Files {
  import opened Base
  import opened Codecs
  import opened Mime
  import opened Compose

  datatype Entry = Entry(name: string, content: Part)

  predicate DistinctNames(es: seq<Entry>)
  {
    forall i, j :: 0 <= i < j < |es| ==> es[i].name != es[j].name
  }

  predicate Named(es: seq<Entry>, name: string)
  {
    exists i :: 0 <= i < |es| && es[i].name == name
  }

  /** The entries after a file `name` is written: an existing file of that
      name is overwritten in place, otherwise the file is added. */
  function Written(es: seq<Entry>, name: string, content: Part): seq<Entry>
  {
    if es == [] then [Entry(name, content)]
    else if es[0].name == name then [Entry(name, content)] + es[1..]
    else [es[0]] + Written(es[1..], name, content)
  }

  /** Writing a new name appends the file; writing an existing name keeps
      the number of entries. */
  lemma {:induction false} WrittenLength(es: seq<Entry>, name: string, content: Part)
    ensures !Named(es, name) ==> Written(es, name, content) == es + [Entry(name, content)]
    ensures Named(es, name) ==> |Written(es, name, content)| == |es|
  {
    if es != [] && es[0].name != name {
      WrittenLength(es[1..], name, content);
      assert Named(es, name) == Named(es[1..], name) by {
        NamedTail(es, name);
      }
      assert es == [es[0]] + es[1..];
    }
  }

  lemma NamedTail(es: seq<Entry>, name: string)
    requires es != [] && es[0].name != name
    ensures Named(es, name) == Named(es[1..], name)
  {
    if Named(es, name) {
      var k :| 0 <= k < |es| && es[k].name == name;
      assert es[1..][k - 1].name == name;
    }
    if Named(es[1..], name) {
      var k :| 0 <= k < |es[1..]| && es[1..][k].name == name;
      assert es[k + 1].name == name;
    }
  }

  /** With distinct names, writing replaces the one entry of that name (or
      adds one at the end) and keeps every other entry where it is. */
  lemma {:induction false} WrittenAt(es: seq<Entry>, name: string, content: Part)
    requires DistinctNames(es)
    ensures var r := Written(es, name, content);
      forall i :: 0 <= i < |r| ==> r[i] == (if i < |es| && es[i].name != name then es[i] else Entry(name, content))
  {
    WrittenLength(es, name, content);
    if es != [] && es[0].name != name {
      assert DistinctNames(es[1..]) by {
        forall i, j | 0 <= i < j < |es[1..]|
          ensures es[1..][i].name != es[1..][j].name
        {
          assert es[1..][i] == es[i + 1] && es[1..][j] == es[j + 1];
        }
      }
      WrittenAt(es[1..], name, content);
    }
  }

  /** Writing keeps the names distinct. */
  lemma WrittenDistinct(es: seq<Entry>, name: string, content: Part)
    requires DistinctNames(es)
    ensures DistinctNames(Written(es, name, content))
  {
    var r := Written(es, name, content);
    WrittenLength(es, name, content);
    WrittenAt(es, name, content);
    forall i, j | 0 <= i < j < |r|
      ensures r[i].name != r[j].name
    {
    }
  }

  /** The entries after the file `name` is removed. */
  function Without(es: seq<Entry>, name: string): (r: seq<Entry>)
    ensures forall e :: e in r <==> e in es && e.name != name
    ensures !Named(es, name) ==> r == es
  {
    if es == [] then []
    else if es[0].name == name then Without(es[1..], name)
    else
      assert !Named(es, name) ==> !Named(es[1..], name) by {
        if Named(es[1..], name) {
          var k :| 0 <= k < |es[1..]| && es[1..][k].name == name;
          assert es[k + 1].name == name;
        }
      }
      [es[0]] + Without(es[1..], name)
  }

  lemma {:induction false} WithoutAppend(a: seq<Entry>, b: seq<Entry>, name: string)
    ensures Without(a + b, name) == Without(a, name) + Without(b, name)
  {
    if a == [] {
      assert a + b == b;
    } else {
      assert (a + b)[0] == a[0];
      assert (a + b)[1..] == a[1..] + b;
      WithoutAppend(a[1..], b, name);
    }
  }

  class Directory {
    var entries: seq<Entry>
    var writable: bool

    ghost predicate Valid()
      reads this
    {
      DistinctNames(entries)
    }

    constructor (writable: bool)
      ensures Valid()
      ensures entries == [] && this.writable == writable
    {
      entries := [];
      this.writable := writable;
    }

    /** `open(path, 'w')` and write: OSError when the directory is read-only. */
    method Write(name: string, content: Part) returns (ok: bool)
      requires Valid()
      modifies this
      ensures Valid()
      ensures ok == old(writable) && writable == old(writable)
      ensures entries == if ok then Written(old(entries), name, content) else old(entries)
    {
      ok := writable;
      if ok {
        WrittenDistinct(entries, name, content);
        entries := Written(entries, name, content);
      }
    }

    /** `os.unlink(path)`: OSError when the directory is read-only or the
        file is missing. */
    method Unlink(name: string) returns (ok: bool)
      requires Valid()
      modifies this
      ensures Valid()
      ensures ok == (old(writable) && Named(old(entries), name)) && writable == old(writable)
      ensures entries == if ok then Without(old(entries), name) else old(entries)
    {
      ok := writable && Named(entries, name);
      if ok {
        var r := Without(entries, name);
        assert DistinctNames(r) by {
          WithoutDistinct(entries, name);
        }
        entries := r;
      }
    }
  }

  lemma {:induction false} WithoutDistinct(es: seq<Entry>, name: string)
    requires DistinctNames(es)
    ensures DistinctNames(Without(es, name))
  {
    if es != [] {
      TailDistinct(es);
      WithoutDistinct(es[1..], name);
      if es[0].name != name {
        NotNamedWithout(es[1..], name, es[0].name);
        ConsDistinct(es[0], Without(es[1..], name));
      }
    }
  }

  /** The tail of a listing with distinct names has distinct names and does
      not hold the name of the head. */
  lemma TailDistinct(es: seq<Entry>)
    requires es != [] && DistinctNames(es)
    ensures DistinctNames(es[1..]) && !Named(es[1..], es[0].name)
  {
    forall k | 0 <= k < |es| - 1
      ensures es[1..][k].name != es[0].name
    {
      assert es[1..][k] == es[k + 1];
    }
  }

  /** Removing entries introduces no name. */
  lemma NotNamedWithout(es: seq<Entry>, name: string, n: string)
    requires !Named(es, n)
    ensures !Named(Without(es, name), n)
  {
    var w := Without(es, name);
    forall k | 0 <= k < |w|
      ensures w[k].name != n
    {
      assert w[k] in es;
    }
  }

  /** An entry whose name the listing lacks can be put in front of it. */
  lemma ConsDistinct(e: Entry, r: seq<Entry>)
    requires DistinctNames(r) && !Named(r, e.name)
    ensures DistinctNames([e] + r)
  {
    var w := [e] + r;
    forall i, j | 0 <= i < j < |w|
      ensures w[i].name != w[j].name
    {
      assert w[j] == r[j - 1];
      if i > 0 {
        assert w[i] == r[i - 1];
      }
    }
  }

  // ---------------------------------------------------------- extensions

  /** Index of the last '.' of `s`, or -1. */
  function LastDot(s: string): (r: int)
    ensures -1 <= r < |s|
    ensures r >= 0 ==> s[r] == '.'
    ensures forall k :: r < k < |s| ==> s[k] != '.'
  {
    if s == [] then -1
    else if s[|s| - 1] == '.' then |s| - 1
    else LastDot(s[..|s| - 1])
  }

  predicate AllDots(s: string)
  {
    forall k :: 0 <= k < |s| ==> s[k] == '.'
  }

  /** `os.path.splitext(name)[1]` for a name without a separator: from the
      last dot on, unless only dots precede that dot. */
  function Ext(name: string): string
  {
    var d := LastDot(name);
    if d > 0 && !AllDots(name[..d]) then name[d..] else ""
  }

  /** An extension is empty, or a dot followed by no other dot, and it ends
      the name. */
  lemma ExtShape(name: string)
    ensures var r := Ext(name);
      r == [] || (r[0] == '.' && EndsWith(name, r) && forall k :: 0 < k < |r| ==> r[k] != '.')
  {
    var d := LastDot(name);
    if d > 0 && !AllDots(name[..d]) {
      assert name[|name| - |name[d..]|..] == name[d..];
    }
  }

  /** A name made of a stem holding some character other than a dot and a
      final dot-suffix has that suffix as its extension. */
  lemma ExtOfSuffix(stem: string, suffix: string)
    requires !AllDots(stem)
    requires |suffix| > 0 && suffix[0] == '.' && forall k :: 0 < k < |suffix| ==> suffix[k] != '.'
    ensures Ext(stem + suffix) == suffix
  {
    var name := stem + suffix;
    var d := LastDot(name);
    assert name[|stem|] == '.';
    assert forall k :: |stem| < k < |name| ==> name[k] == suffix[k - |stem|];
    assert d == |stem|;
    assert name[..d] == stem;
    assert name[d..] == suffix;
  }

  // ---------------------------------------------------------------- reader

  /** The receiver reads the entry: any entry when no extension is given,
      otherwise the entries whose extension is exactly `extension`. */
  predicate Accepts(extension: string, name: string)
  {
    extension == "" || Ext(name) == extension
  }

  /** The accepted entries, in listing order. */
  function Accepted(es: seq<Entry>, extension: string): seq<Entry>
  {
    if es == [] then []
    else
      var last := es[|es| - 1];
      assert es == es[..|es| - 1] + [last];
      Accepted(es[..|es| - 1], extension) + (if Accepts(extension, last.name) then [last] else [])
  }

  /** The entries left behind, in listing order. */
  function Rejected(es: seq<Entry>, extension: string): seq<Entry>
  {
    if es == [] then []
    else
      var last := es[|es| - 1];
      assert es == es[..|es| - 1] + [last];
      Rejected(es[..|es| - 1], extension) + (if Accepts(extension, last.name) then [] else [last])
  }

  /** The messages the entries hold, in the same order. */
  function Contents(es: seq<Entry>): seq<Part>
  {
    if es == [] then [] else [es[0].content] + Contents(es[1..])
  }

  lemma {:induction false} ContentsAppend(a: seq<Entry>, b: seq<Entry>)
    ensures Contents(a + b) == Contents(a) + Contents(b)
  {
    if a == [] {
      assert a + b == b;
    } else {
      assert (a + b)[1..] == a[1..] + b;
      ContentsAppend(a[1..], b);
    }
  }

  class FileReceiver {
    const directory: Directory

    constructor (directory: Directory)
      ensures this.directory == directory
    {
      this.directory := directory;
    }

    /** `get_mails(extension, delete)`: one message per accepted entry, in
        listing order; with `delete` each accepted file is removed after it
        is read, and a read-only directory makes the first removal raise
        OSError. Rejected entries are neither read nor removed. */
    method GetMails(extension: string, delete: bool) returns (r: Result<seq<Part>, Exc>)
      requires directory.Valid()
      modifies directory
      ensures directory.Valid() && directory.writable == old(directory.writable)
      ensures r.Err? <==> delete && !old(directory.writable) && Accepted(old(directory.entries), extension) != []
      ensures r.Err? ==> r.error == OSError && directory.entries == old(directory.entries)
      ensures r.Ok? ==> r.value == Contents(Accepted(old(directory.entries), extension))
      ensures r.Ok? && delete ==> directory.entries == Rejected(old(directory.entries), extension)
      ensures !delete ==> directory.entries == old(directory.entries)
    {
      var files := directory.entries;
      var mails: seq<Part> := [];
      ghost var taken: seq<Entry> := [];
      var i := 0;
      assert files[..0] == [] && files[0..] == files;
      while i < |files|
        invariant 0 <= i <= |files|
        invariant directory.writable == old(directory.writable)
        invariant taken == Accepted(files[..i], extension) && mails == Contents(taken)
        invariant !delete ==> directory.entries == files
        invariant delete ==> directory.entries == Rejected(files[..i], extension) + files[i..]
        invariant delete && !directory.writable ==> taken == []
      {
        ListingStep(files, i, extension);
        var file := files[i];
        if Accepts(extension, file.name) {
          ContentsSnoc(taken, file);
          mails := mails + [file.content];
          taken := taken + [file];
          if delete {
            var ok := Discard(files, i, extension);
            if !ok {
              FailStep(files, i, extension);
              return Err(OSError);
            }
          }
        } else if delete {
          KeepStep(files, i, extension, directory.entries);
        }
        i := i + 1;
      }
      assert files[..|files|] == files;
      assert files[|files|..] == [];
      RemainingDistinct(files, |files|, extension);
      return Ok(mails);
    }

    /** `os.unlink` of the accepted file `files[i]`, which leaves the
        entries rejected so far and those not yet visited. */
    method Discard(files: seq<Entry>, i: nat, extension: string) returns (ok: bool)
      requires i < |files| && Accepts(extension, files[i].name) && DistinctNames(files)
      requires directory.entries == Rejected(files[..i], extension) + files[i..]
      modifies directory
      ensures directory.writable == old(directory.writable) && ok == old(directory.writable)
      ensures directory.entries == if ok then Rejected(files[..i + 1], extension) + files[i + 1..] else old(directory.entries)
    {
      RemainingDistinct(files, i, extension);
      RemoveStep(files, i, extension, directory.entries);
      ok := directory.Unlink(files[i].name);
    }
  }

  /** What is left of a listing with distinct names while it is read with
      `delete` still has distinct names. */
  lemma {:induction false} RemainingDistinct(files: seq<Entry>, i: nat, extension: string)
    requires i <= |files| && DistinctNames(files)
    ensures DistinctNames(Rejected(files[..i], extension) + files[i..])
  {
    if i == 0 {
      assert files[..0] == [] && files[0..] == files;
    } else {
      RemainingDistinct(files, i - 1, extension);
      var before := Rejected(files[..i - 1], extension) + files[i - 1..];
      if Accepts(extension, files[i - 1].name) {
        RemoveStep(files, i - 1, extension, before);
        WithoutDistinct(before, files[i - 1].name);
      } else {
        KeepStep(files, i - 1, extension, before);
      }
    }
  }

  lemma ContentsSnoc(es: seq<Entry>, e: Entry)
    ensures Contents(es + [e]) == Contents(es) + [e.content]
  {
    ContentsAppend(es, [e]);
  }

  /** A rejected entry stays where it is. */
  lemma KeepStep(files: seq<Entry>, i: nat, extension: string, entries: seq<Entry>)
    requires i < |files| && entries == Rejected(files[..i], extension) + files[i..]
    requires !Accepts(extension, files[i].name)
    ensures entries == Rejected(files[..i + 1], extension) + files[i + 1..]
  {
    ListingStep(files, i, extension);
    ShiftOne(Rejected(files[..i], extension), files[i..]);
  }

  /** Moving the head of the unvisited part to the end of the visited one
      keeps the concatenation. */
  lemma ShiftOne<T>(done: seq<T>, todo: seq<T>)
    requires todo != []
    ensures done + todo == (done + [todo[0]]) + todo[1..]
  {
    assert todo == [todo[0]] + todo[1..];
  }

  /** Removing an accepted entry leaves the rejected entries before it and
      the entries not yet visited. */
  lemma RemoveStep(files: seq<Entry>, i: nat, extension: string, entries: seq<Entry>)
    requires i < |files| && entries == Rejected(files[..i], extension) + files[i..]
    requires Accepts(extension, files[i].name) && DistinctNames(entries)
    ensures Named(entries, files[i].name)
    ensures Without(entries, files[i].name) == Rejected(files[..i + 1], extension) + files[i + 1..]
  {
    ListingStep(files, i, extension);
    var before := Rejected(files[..i], extension);
    assert entries[|before|] == files[i];
    assert entries[..|before|] == before;
    assert entries[|before| + 1..] == files[i + 1..];
    UnlinkAt(entries, |before|);
  }

  /** The first removal fails only while nothing has been removed yet. */
  lemma FailStep(files: seq<Entry>, i: nat, extension: string)
    requires i < |files| && Accepted(files[..i], extension) == []
    requires Accepts(extension, files[i].name)
    ensures Rejected(files[..i], extension) + files[i..] == files
    ensures Accepted(files, extension) != []
  {
    NoneAccepted(files[..i], extension);
    assert files[..i] + files[i..] == files;
    AcceptedGrows(files, i + 1, extension);
  }

  lemma ListingStep(files: seq<Entry>, i: nat, extension: string)
    requires i < |files|
    ensures Accepted(files[..i + 1], extension) ==
              Accepted(files[..i], extension) + (if Accepts(extension, files[i].name) then [files[i]] else [])
    ensures Rejected(files[..i + 1], extension) ==
              Rejected(files[..i], extension) + (if Accepts(extension, files[i].name) then [] else [files[i]])
  {
    assert files[..i + 1][..i] == files[..i];
  }

  /** Nothing accepted so far means nothing removed so far. */
  lemma {:induction false} NoneAccepted(es: seq<Entry>, extension: string)
    requires Accepted(es, extension) == []
    ensures Rejected(es, extension) == es
  {
    if es != [] {
      var last := es[|es| - 1];
      assert es == es[..|es| - 1] + [last];
      assert !Accepts(extension, last.name);
      NoneAccepted(es[..|es| - 1], extension);
    }
  }

  /** An accepted entry in a prefix leaves the accepted list non-empty. */
  lemma AcceptedGrows(files: seq<Entry>, n: nat, extension: string)
    requires 0 < n <= |files| && Accepts(extension, files[n - 1].name)
    ensures Accepted(files, extension) != []
  {
    assert files[n - 1] in files;
  }

  /** Removing the name of entry `k` from a listing with distinct names
      removes exactly that entry. */
  lemma UnlinkAt(w: seq<Entry>, k: nat)
    requires k < |w| && DistinctNames(w)
    ensures Named(w, w[k].name)
    ensures Without(w, w[k].name) == w[..k] + w[k + 1..]
  {
    var e := w[k];
    assert w == w[..k] + [e] + w[k + 1..];
    DistinctSplit(w[..k], e, w[k + 1..]);
    WithoutLast(w[..k], e);
    WithoutAppend(w[..k] + [e], w[k + 1..], e.name);
  }

  lemma WithoutLast(before: seq<Entry>, e: Entry)
    requires !Named(before, e.name)
    ensures Without(before + [e], e.name) == before
  {
    WithoutAppend(before, [e], e.name);
    assert [e][1..] == [];
    assert Without([e], e.name) == Without([], e.name);
  }

  /** In a listing with distinct names, removing the name of one entry
      removes exactly that entry. */
  lemma DistinctSplit(a: seq<Entry>, e: Entry, b: seq<Entry>)
    requires DistinctNames(a + [e] + b)
    ensures !Named(a, e.name) && !Named(b, e.name)
  {
    var w := a + [e] + b;
    assert w[|a|] == e;
    forall k | 0 <= k < |a|
      ensures a[k].name != e.name
    {
      assert w[k] == a[k];
    }
    forall k | 0 <= k < |b|
      ensures b[k].name != e.name
    {
      assert w[|a| + 1 + k] == b[k];
    }
  }

  // ---------------------------------------------------------------- sender

  /** `datetime.now()`, as the fields `strftime` prints. */
  datatype DateTime = DateTime(year: int, month: int, day: int, hour: int, minute: int, second: int, microsecond: int)

  predicate ValidDateTime(t: DateTime)
  {
    && 1000 <= t.year <= 9999 && 1 <= t.month <= 12 && 1 <= t.day <= 31
    && 0 <= t.hour < 24 && 0 <= t.minute < 60 && 0 <= t.second < 60
    && 0 <= t.microsecond < 1000000
  }

  function Pow10(w: nat): nat
  {
    if w == 0 then 1 else 10 * Pow10(w - 1)
  }

  predicate IsDigit(c: char)
  {
    '0' <= c <= '9'
  }

  /** `n` in decimal, zero-padded on the left to `width` digits. */
  function Digits(n: nat, width: nat): (r: string)
    ensures |r| == width
    ensures forall k :: 0 <= k < width ==> IsDigit(r[k])
  {
    if width == 0 then ""
    else Digits(n / 10, width - 1) + [(('0' as int) + n % 10) as char]
  }

  /** The number a string of decimal digits denotes. */
  function DecimalValue(s: string): nat
    requires forall k :: 0 <= k < |s| ==> IsDigit(s[k])
  {
    if s == [] then 0
    else
      assert IsDigit(s[|s| - 1]);
      DecimalValue(s[..|s| - 1]) * 10 + (s[|s| - 1] as int - '0' as int)
  }

  /** Padding loses nothing when the number fits the width. */
  lemma {:induction false} DigitsRoundTrip(n: nat, width: nat)
    requires n < Pow10(width)
    ensures DecimalValue(Digits(n, width)) == n
  {
    if width > 0 {
      var d := Digits(n, width);
      assert d[..width - 1] == Digits(n / 10, width - 1);
      DigitsRoundTrip(n / 10, width - 1);
    }
  }

  /** `now.strftime("%Y-%m-%d_%H:%M:%S.%f")` */
  function Stamp(t: DateTime): (r: string)
    requires ValidDateTime(t)
    ensures |r| == 26 && IsDigit(r[0])
    ensures r[19] == '.' && forall k :: 0 <= k < |r| && k != 19 ==> r[k] != '.'
  {
    Digits(t.year, 4) + "-" + Digits(t.month, 2) + "-" + Digits(t.day, 2) + "_"
      + Digits(t.hour, 2) + ":" + Digits(t.minute, 2) + ":" + Digits(t.second, 2)
      + "." + Digits(t.microsecond, 6)
  }

  /** Eight characters drawn from A-Z and 0-9. */
  predicate RandomSuffix(s: string)
  {
    |s| == 8 && forall k :: 0 <= k < |s| ==> ('A' <= s[k] <= 'Z') || IsDigit(s[k])
  }

  /** The name of the file a send writes. */
  function FileName(now: DateTime, random: string): string
    requires ValidDateTime(now)
  {
    Stamp(now) + "_" + random + ".eml"
  }

  /** Every file the sender writes has the extension the receiver looks for
      by default, so the receiver reads it back. */
  lemma FileNameExtension(now: DateTime, random: string)
    requires ValidDateTime(now) && RandomSuffix(random)
    ensures Ext(FileName(now, random)) == ".eml"
    ensures |FileName(now, random)| == 39
  {
    var stem := Stamp(now) + "_" + random;
    assert stem[0] == Stamp(now)[0];
    assert FileName(now, random) == stem + ".eml";
    ExtOfSuffix(stem, ".eml");
  }

  /** The log value of the file sender: the caller's, or else the recipient
      list itself (not joined). */
  function FileLog(to: Recipients, log: LogValue): (r: LogValue)
    ensures LogTruthy(log) ==> r == log
    ensures !LogTruthy(log) ==> r == LogList(RecipientList(to))
  {
    if LogTruthy(log) then log else LogList(RecipientList(to))
  }

  /** Without a log value of its own, the file sender logs the recipients
      as a list, which joined with ", " is the To header it writes; a
      single string recipient is logged as a one-element list. */
  lemma FileLogIsRecipients(to: Recipients, log: LogValue)
    requires !LogTruthy(log)
    ensures FileLog(to, log).LogList?
    ensures Join(FileLog(to, log).items, ", ") == ToHeader(to)
    ensures to.Address? ==> FileLog(to, log).items == [to.addr]
  {
    ToHeaderJoins(to);
  }

  class FileSender {
    const directory: Directory
    var journal: seq<LogLine>

    constructor (directory: Directory)
      ensures this.directory == directory && journal == []
    {
      this.directory := directory;
      journal := [];
    }

    /** `send_mail(...)`: build the message, then write it to a file named
        after the clock reading `now` and the random suffix `random`. True
        on success; False, with the directory untouched, when building the
        message or writing the file raises. */
    method SendMail(lib: Lib, o: Outgoing, log: LogValue, now: DateTime, random: string) returns (ok: bool)
      requires directory.Valid() && ValidDateTime(now) && RandomSuffix(random)
      modifies this, directory
      ensures directory.Valid() && directory.writable == old(directory.writable)
      ensures var msg := MessageFor(lib, o.(to := Addresses(RecipientList(o.to))));
        && ok == (msg.Ok? && old(directory.writable))
        && directory.entries == (if ok then Written(old(directory.entries), FileName(now, random), msg.value) else old(directory.entries))
      ensures journal == old(journal) + [if ok then SendOk(FileLog(o.to, log)) else SendFail(FileLog(o.to, log))]
    {
      var to := RecipientList(o.to);
      var logValue := if LogTruthy(log) then log else LogList(to);
      var msg := CreateMessage(lib, o.(to := Addresses(to)));
      if msg.Err? {
        journal := journal + [SendFail(logValue)];
        return false;
      }
      var name := Stamp(now) + "_" + random + ".eml";
      ok := directory.Write(name, msg.value);
      journal := journal + [if ok then SendOk(logValue) else SendFail(logValue)];
    }

    /** `connect()` and `close()` do nothing. */
    method Connect()
    {
    }

    method Close()
    {
    }
  }

  /** Two files under different names written into an empty directory are
      listed in the order they were written (the model's listing order). */
  lemma TwoWritten(e1: Entry, e2: Entry)
    requires e1.name != e2.name
    ensures Written(Written([], e1.name, e1.content), e2.name, e2.content) == [e1, e2]
  {
    var one := Written([], e1.name, e1.content);
    assert one == [e1];
    assert !Named(one, e2.name);
  }

  /** Both files carry the extension the receiver looks for. */
  lemma BothAccepted(e1: Entry, e2: Entry)
    requires Accepts(".eml", e1.name) && Accepts(".eml", e2.name)
    ensures Accepted([e1, e2], ".eml") == [e1, e2]
    ensures Contents([e1, e2]) == [e1.content, e2.content]
  {
    var two := [e1, e2];
    assert two[..1] == [e1];
    assert [e1][..0] == [];
    assert Accepted([e1], ".eml") == [e1];
    assert Accepted(two, ".eml") == Accepted(two[..1], ".eml") + [e2];
    assert two[1..] == [e2];
    assert [e2][1..] == [];
    assert Contents([e2]) == [e2.content];
  }

  /** tests/test_global.py, test_send and test_receive: two sends into an
      empty writable directory under two different file names leave two
      files, and the receiver reads the two messages back, in creation
      order, which is the model's listing order. */
  method SendTwiceReceiveTwice(lib: Lib, o1: Outgoing, o2: Outgoing, t1: DateTime, r1: string, t2: DateTime, r2: string,
                               m1: Part, m2: Part)
    returns (mails: Result<seq<Part>, Exc>, files: nat)
    requires ValidDateTime(t1) && RandomSuffix(r1) && ValidDateTime(t2) && RandomSuffix(r2)
    requires FileName(t1, r1) != FileName(t2, r2)
    requires MessageFor(lib, o1.(to := Addresses(RecipientList(o1.to)))) == Ok(m1)
    requires MessageFor(lib, o2.(to := Addresses(RecipientList(o2.to)))) == Ok(m2)
    ensures files == 2
    ensures mails == Ok([m1, m2])
  {
    var dir := new Directory(true);
    var sender := new FileSender(dir);
    var ok1 := sender.SendMail(lib, o1, LogText(""), t1, r1);
    var ok2 := sender.SendMail(lib, o2, LogText(""), t2, r2);
    var e1 := Entry(FileName(t1, r1), m1);
    var e2 := Entry(FileName(t2, r2), m2);
    TwoWritten(e1, e2);
    assert ok1 && ok2;
    assert dir.entries == [e1, e2];
    files := |dir.entries|;
    FileNameExtension(t1, r1);
    FileNameExtension(t2, r2);
    BothAccepted(e1, e2);
    assert Contents(Accepted(dir.entries, ".eml")) == [m1, m2];
    var receiver := new FileReceiver(dir);
    mails := receiver.GetMails(".eml", false);
    assert files == 2 && mails == Ok([m1, m2]);
  }
}
