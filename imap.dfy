/** The IMAP pull receiver (mailproc/transports/imap_receiver_transport.py)
    over an abstract IMAP server. imaplib and the socket are replaced by a
    `Connection` object that holds the server's mailboxes and the client's
    protocol state (RFC 3501 section 3), numbers every tagged command the
    way imaplib's `_new_tag` does, and records what goes on the wire. The
    server's SEARCH evaluation is a parameter; FETCH, STORE, EXPUNGE,
    SELECT, CLOSE and LOGOUT follow RFC 3501 and imaplib. */
module Imap {
  import opened Base
  import opened Mime

  /** The system flags of RFC 3501 section 2.3.2. */
  datatype Flag = Seen | Deleted | Answered | Flagged | Draft

  /** A message in a mailbox: the parsed message and its flags. */
  datatype Stored = Stored(msg: Part, flags: set<Flag>)

  /** A mailbox; message sequence number n is entry n - 1. */
  type Mailbox = seq<Stored>

  datatype Cmd =
    | Login(user: string, password: string)
    | Select(mailbox: string)
    | Search(criteria: string)
    | Fetch(id: nat)
    | Store(id: nat, flag: Flag)
    | Expunge
    | Close
    | Logout
    | Idle

  /** What the client writes: a tagged command, or the `DONE` that ends an
      IDLE (RFC 2177 section 3). */
  datatype Sent = Tagged(tag: nat, cmd: Cmd) | EndIdle

  /** imaplib's `state`: NONAUTH, AUTH, SELECTED (with the mailbox), LOGOUT. */
  datatype State = NotAuth | Auth | Selected(mailbox: string) | LoggedOut

  /** A line the server sends unprompted, and the messages delivered to the
      selected mailbox just before it is sent. */
  datatype Line = Line(text: string, arrivals: seq<Stored>)

  /** An untagged BYE (RFC 3501 section 7.1.5), after which the server
      closes the connection. */
  predicate IsBye(line: string)
  {
    StartsWith(line, "* BYE ")
  }

  /** The server hangs up after sending this line. */
  predicate EndsSession(line: string)
  {
    IsBye(Strip(line))
  }

  // ---------------------------------------------------------------------
  // What SEARCH, FETCH, STORE and EXPUNGE compute
  // ---------------------------------------------------------------------

  /** SEARCH: the sequence numbers of the messages the criteria select, in
      ascending order. */
  function Hits(matches: (string, Stored) -> bool, criteria: string, box: Mailbox): (r: seq<nat>)
    decreases |box|
  {
    if box == [] then []
    else Hits(matches, criteria, box[..|box| - 1]) + (if matches(criteria, box[|box| - 1]) then [|box|] else [])
  }

  predicate Increasing(ids: seq<nat>)
  {
    forall i, j :: 0 <= i < j < |ids| ==> ids[i] < ids[j]
  }

  /** Every id names a message of a mailbox of `n` messages. */
  predicate InRange(ids: seq<nat>, n: nat)
  {
    forall i :: 0 <= i < |ids| ==> 1 <= ids[i] <= n
  }

  /** SEARCH returns exactly the sequence numbers of the matching messages,
      each once, in ascending order. */
  lemma {:induction false} HitsSpec(matches: (string, Stored) -> bool, criteria: string, box: Mailbox)
    ensures forall k :: k in Hits(matches, criteria, box) <==> 1 <= k <= |box| && matches(criteria, box[k - 1])
    ensures Increasing(Hits(matches, criteria, box)) && InRange(Hits(matches, criteria, box), |box|)
    decreases |box|
  {
    if box != [] {
      var init := box[..|box| - 1];
      HitsSpec(matches, criteria, init);
      forall j | 0 <= j < |init|
        ensures box[j] == init[j]
      {
      }
    }
  }

  /** The messages FETCHed for `ids`, in the order of `ids`. */
  function Messages(box: Mailbox, ids: seq<nat>): seq<Part>
    requires InRange(ids, |box|)
    decreases |ids|
  {
    if ids == [] then [] else Messages(box, ids[..|ids| - 1]) + [box[ids[|ids| - 1] - 1].msg]
  }

  /** One message per id, the i-th being the message the i-th id names. */
  lemma {:induction false} MessagesSpec(box: Mailbox, ids: seq<nat>)
    requires InRange(ids, |box|)
    ensures |Messages(box, ids)| == |ids|
    ensures forall i :: 0 <= i < |ids| ==> Messages(box, ids)[i] == box[ids[i] - 1].msg
    decreases |ids|
  {
    if ids != [] {
      var init := ids[..|ids| - 1];
      MessagesSpec(box, init);
      forall i | 0 <= i < |ids|
        ensures Messages(box, ids)[i] == box[ids[i] - 1].msg
      {
        if i < |init| {
          assert ids[i] == init[i];
        }
      }
    }
  }

  function AddFlags(s: Stored, fs: set<Flag>): Stored
  {
    s.(flags := s.flags + fs)
  }

  /** The mailbox after the flags `fs` were added to every message `ids`
      names. */
  function Marked(box: Mailbox, ids: seq<nat>, fs: set<Flag>): (r: Mailbox)
    ensures |r| == |box|
  {
    seq(|box|, i requires 0 <= i < |box| => if i + 1 in ids then AddFlags(box[i], fs) else box[i])
  }

  /** The mailbox after EXPUNGE: every message flagged \Deleted is gone,
      the others keep their order. */
  function Expunged(box: Mailbox): Mailbox
    decreases |box|
  {
    if box == [] then []
    else Expunged(box[..|box| - 1]) + (if Deleted in box[|box| - 1].flags then [] else [box[|box| - 1]])
  }

  function StoreFlags(delete: bool): set<Flag>
  {
    if delete then {Seen, Deleted} else {Seen}
  }

  /** The mailbox after a retrieval of the messages `ids`. */
  function After(box: Mailbox, ids: seq<nat>, delete: bool): Mailbox
  {
    if delete then Expunged(Marked(box, ids, StoreFlags(delete))) else Marked(box, ids, StoreFlags(delete))
  }

  function FetchCmds(ids: seq<nat>): (r: seq<Cmd>)
    ensures |r| == |ids|
    decreases |ids|
  {
    if ids == [] then [] else FetchCmds(ids[..|ids| - 1]) + [Fetch(ids[|ids| - 1])]
  }

  function StoreCmds(ids: seq<nat>, delete: bool): (r: seq<Cmd>)
    ensures |r| == |ids| * (if delete then 2 else 1)
    decreases |ids|
  {
    if ids == [] then []
    else
      StoreCmds(ids[..|ids| - 1], delete) + StoreCmdsFor(ids[|ids| - 1], delete)
  }

  /** The STOREs for one id: \Seen, then \Deleted when deleting. */
  function StoreCmdsFor(id: nat, delete: bool): (r: seq<Cmd>)
    ensures |r| == (if delete then 2 else 1)
  {
    [Store(id, Seen)] + (if delete then [Store(id, Deleted)] else [])
  }

  /** The commands one retrieval sends: SEARCH, a FETCH per hit, a STORE
      of \Seen (and, when deleting, of \Deleted) per hit, and EXPUNGE when
      deleting. */
  function RetrieveCmds(criteria: string, ids: seq<nat>, delete: bool): seq<Cmd>
  {
    [Search(criteria)] + ProcessCmds(ids, delete)
  }

  /** The commands after SEARCH. */
  function ProcessCmds(ids: seq<nat>, delete: bool): seq<Cmd>
  {
    FetchCmds(ids) + StoreCmds(ids, delete) + (if delete then [Expunge] else [])
  }

  /** Commands with consecutive tags from `t`. */
  function Numbered(t: nat, cs: seq<Cmd>): (r: seq<Sent>)
    ensures |r| == |cs|
  {
    seq(|cs|, i requires 0 <= i < |cs| => Tagged(t + i, cs[i]))
  }

  lemma NumberedAppend(t: nat, a: seq<Cmd>, b: seq<Cmd>)
    ensures Numbered(t, a + b) == Numbered(t, a) + Numbered(t + |a|, b)
  {
    assert forall i :: 0 <= i < |b| ==> (a + b)[|a| + i] == b[i];
  }

  lemma NumberedCons(t: nat, c: Cmd, cs: seq<Cmd>)
    ensures Numbered(t, [c] + cs) == [Tagged(t, c)] + Numbered(t + 1, cs)
  {
    NumberedAppend(t, [c], cs);
  }

  lemma NumberedSnoc(t: nat, a: seq<Cmd>, c: Cmd)
    ensures Numbered(t, a + [c]) == Numbered(t, a) + [Tagged(t + |a|, c)]
  {
    NumberedAppend(t, a, [c]);
  }

  /** The tags of the commands after SEARCH, part by part. */
  lemma ProcessWire(t: nat, ids: seq<nat>, delete: bool)
    ensures var n := |ids| + |StoreCmds(ids, delete)|;
      && |ProcessCmds(ids, delete)| == n + (if delete then 1 else 0)
      && Numbered(t, ProcessCmds(ids, delete))
         == Numbered(t, FetchCmds(ids)) + Numbered(t + |ids|, StoreCmds(ids, delete))
            + (if delete then [Tagged(t + n, Expunge)] else [])
  {
    var b := FetchCmds(ids);
    var c := StoreCmds(ids, delete);
    var d: seq<Cmd> := if delete then [Expunge] else [];
    NumberedAppend(t, b + c, d);
    NumberedAppend(t, b, c);
  }

  // ---------------------------------------------------------------------
  // Step lemmas for the FETCH and STORE loops
  // ---------------------------------------------------------------------

  /** Marking one more id that was not marked yet. */
  lemma MarkOne(box: Mailbox, ids: seq<nat>, fs: set<Flag>, id: nat)
    requires id !in ids && 1 <= id <= |box|
    ensures Marked(box, ids, fs)[id - 1 := AddFlags(box[id - 1], fs)] == Marked(box, ids + [id], fs)
  {
    var l := Marked(box, ids, fs)[id - 1 := AddFlags(box[id - 1], fs)];
    var r := Marked(box, ids + [id], fs);
    forall i | 0 <= i < |box|
      ensures l[i] == r[i]
    {
      assert i + 1 in ids + [id] <==> i + 1 in ids || i + 1 == id;
    }
  }

  lemma MarkedNone(box: Mailbox, fs: set<Flag>)
    ensures Marked(box, [], fs) == box
  {
  }

  /** Marking never changes a message, only flags. */
  lemma MarkedMessages(box: Mailbox, ids: seq<nat>, fs: set<Flag>, id: nat)
    requires 1 <= id <= |box|
    ensures Marked(box, ids, fs)[id - 1].msg == box[id - 1].msg
  {
  }

  /** Re-adding flags already added changes nothing more. */
  lemma MarkedTwice(box: Mailbox, ids: seq<nat>, fs: set<Flag>, gs: set<Flag>)
    requires fs <= gs
    ensures Marked(Marked(box, ids, fs), ids, gs) == Marked(box, ids, gs)
  {
    var l := Marked(Marked(box, ids, fs), ids, gs);
    forall i | 0 <= i < |box|
      ensures l[i] == Marked(box, ids, gs)[i]
    {
      if i + 1 in ids {
        assert box[i].flags + fs + gs == box[i].flags + gs;
      }
    }
  }

  lemma SliceSnoc(ids: seq<nat>, i: nat)
    requires i < |ids|
    ensures ids[..i + 1] == ids[..i] + [ids[i]] && ids[..i + 1][..i] == ids[..i]
  {
  }

  // ---------------------------------------------------------------------
  // The server connection
  // ---------------------------------------------------------------------

  class Connection {
    /** The server's SEARCH: does a message satisfy the criteria? */
    const matches: (string, Stored) -> bool
    /** The credentials the server accepts. */
    const accepts: (string, string) -> bool
    var boxes: map<string, Mailbox>
    var state: State
    var nextTag: nat
    var wire: seq<Sent>
    /** What the server sends unprompted (read by `readline`). */
    const incoming: seq<Line>
    var pos: nat
    /** The server has closed the connection. */
    var dropped: bool

    predicate Valid()
      reads this
    {
      && pos <= |incoming|
      && (state.Selected? ==> state.mailbox in boxes)
      && forall i :: 0 <= i < |wire| && wire[i].Tagged? ==> wire[i].tag < nextTag
    }

    /** A connection that received the server greeting. */
    constructor (matches: (string, Stored) -> bool, accepts: (string, string) -> bool,
                 boxes: map<string, Mailbox>, incoming: seq<Line>)
      ensures Valid()
      ensures this.matches == matches && this.accepts == accepts && this.boxes == boxes && this.incoming == incoming
      ensures state == NotAuth && nextTag == 0 && wire == [] && pos == 0 && !dropped
    {
      this.matches := matches;
      this.accepts := accepts;
      this.boxes := boxes;
      this.incoming := incoming;
      state := NotAuth;
      nextTag := 0;
      wire := [];
      pos := 0;
      dropped := false;
    }

    /** `_new_tag()` */
    method NewTag() returns (t: nat)
      requires Valid()
      modifies this
      ensures Valid()
      ensures t == old(nextTag) && nextTag == t + 1
      ensures wire == old(wire) && boxes == old(boxes) && state == old(state) && dropped == old(dropped)
      ensures pos == old(pos)
    {
      t := nextTag;
      nextTag := nextTag + 1;
    }

    /** A tagged command: a fresh tag, and the command on the wire unless
        the server has gone. */
    method Issue(c: Cmd)
      requires Valid()
      modifies this
      ensures Valid()
      ensures nextTag == old(nextTag) + 1
      ensures wire == old(wire) + (if dropped then [] else [Tagged(old(nextTag), c)])
      ensures boxes == old(boxes) && state == old(state) && dropped == old(dropped)
      ensures pos == old(pos)
    {
      var t := NewTag();
      if !dropped {
        wire := wire + [Tagged(t, c)];
      }
    }

    /** `login(user, password)`: only before authentication; a refusal
        raises. */
    method Login(user: string, password: string) returns (r: Result<(), Exc>)
      requires Valid()
      modifies this
      ensures Valid()
      ensures old(state) != NotAuth ==> r == Err(ImapError) && wire == old(wire) && nextTag == old(nextTag)
      ensures old(state) == NotAuth && old(dropped) ==> r == Err(ImapAbort) && wire == old(wire) && nextTag == old(nextTag) + 1
      ensures old(state) == NotAuth && !old(dropped) ==>
        && wire == old(wire) + [Tagged(old(nextTag), Cmd.Login(user, password))] && nextTag == old(nextTag) + 1
        && (r.Ok? <==> accepts(user, password))
        && (r.Err? ==> r.error == ImapError)
      ensures state == (if r.Ok? then Auth else old(state))
      ensures boxes == old(boxes) && dropped == old(dropped) && pos == old(pos)
    {
      if state != NotAuth {
        return Err(ImapError);
      }
      Issue(Cmd.Login(user, password));
      if dropped {
        return Err(ImapAbort);
      }
      if !accepts(user, password) {
        return Err(ImapError);
      }
      state := Auth;
      return Ok(());
    }

    /** `select(mailbox)`: allowed when authenticated. A NO (no such
        mailbox) does not raise; it leaves the connection authenticated
        with no mailbox selected (RFC 3501 section 6.3.1). */
    method Select(mailbox: string) returns (r: Result<bool, Exc>)
      requires Valid()
      modifies this
      ensures Valid()
      ensures !(old(state).Auth? || old(state).Selected?) ==> r == Err(ImapError) && wire == old(wire) && nextTag == old(nextTag)
      ensures (old(state).Auth? || old(state).Selected?) ==> nextTag == old(nextTag) + 1
      ensures (old(state).Auth? || old(state).Selected?) && old(dropped) ==> r == Err(ImapAbort) && wire == old(wire)
      ensures (old(state).Auth? || old(state).Selected?) && !old(dropped) ==>
        && wire == old(wire) + [Tagged(old(nextTag), Cmd.Select(mailbox))]
        && r == Ok(mailbox in boxes)
        && state == (if mailbox in boxes then Selected(mailbox) else Auth)
      ensures r.Err? ==> state == old(state)
      ensures boxes == old(boxes) && dropped == old(dropped) && pos == old(pos)
    {
      if !(state.Auth? || state.Selected?) {
        return Err(ImapError);
      }
      Issue(Cmd.Select(mailbox));
      if dropped {
        return Err(ImapAbort);
      }
      if mailbox in boxes {
        state := Selected(mailbox);
        return Ok(true);
      }
      state := Auth;
      return Ok(false);
    }

    /** `search(None, criteria)` in the selected mailbox (RFC 3501 section
        6.4.4). */
    method Search(criteria: string) returns (r: Result<seq<nat>, Exc>)
      requires Valid()
      modifies this
      ensures Valid()
      ensures !old(state).Selected? ==> r == Err(ImapError) && wire == old(wire) && nextTag == old(nextTag)
      ensures old(state).Selected? ==> nextTag == old(nextTag) + 1
      ensures old(state).Selected? && old(dropped) ==> r == Err(ImapAbort) && wire == old(wire)
      ensures old(state).Selected? && !old(dropped) ==>
        && wire == old(wire) + [Tagged(old(nextTag), Cmd.Search(criteria))]
        && r == Ok(Hits(matches, criteria, old(boxes)[old(state).mailbox]))
      ensures boxes == old(boxes) && state == old(state) && dropped == old(dropped)
      ensures pos == old(pos)
    {
      if !state.Selected? {
        return Err(ImapError);
      }
      Issue(Cmd.Search(criteria));
      if dropped {
        return Err(ImapAbort);
      }
      return Ok(Hits(matches, criteria, boxes[state.mailbox]));
    }

    /** `fetch(id, '(RFC822)')`: the whole message, which also sets \Seen
        (RFC 3501 section 6.4.5); no data for an id the mailbox lacks. */
    method Fetch(id: nat) returns (r: Result<Option<Part>, Exc>)
      requires Valid()
      modifies this
      ensures Valid()
      ensures !old(state).Selected? ==> r == Err(ImapError) && wire == old(wire) && nextTag == old(nextTag) && boxes == old(boxes)
      ensures old(state).Selected? ==> nextTag == old(nextTag) + 1
      ensures old(state).Selected? && old(dropped) ==> r == Err(ImapAbort) && wire == old(wire) && boxes == old(boxes)
      ensures old(state).Selected? && !old(dropped) ==>
        var box := old(boxes)[old(state).mailbox];
        && wire == old(wire) + [Tagged(old(nextTag), Cmd.Fetch(id))]
        && (1 <= id <= |box| ==>
             r == Ok(Some(box[id - 1].msg)) && boxes == old(boxes)[old(state).mailbox := box[id - 1 := AddFlags(box[id - 1], {Seen})]])
        && (!(1 <= id <= |box|) ==> r == Ok(None) && boxes == old(boxes))
      ensures state == old(state) && dropped == old(dropped) && pos == old(pos)
    {
      if !state.Selected? {
        return Err(ImapError);
      }
      Issue(Cmd.Fetch(id));
      if dropped {
        return Err(ImapAbort);
      }
      var box := boxes[state.mailbox];
      if 1 <= id <= |box| {
        boxes := boxes[state.mailbox := box[id - 1 := AddFlags(box[id - 1], {Seen})]];
        return Ok(Some(box[id - 1].msg));
      }
      return Ok(None);
    }

    /** `store(id, '+FLAGS', flag)` (RFC 3501 section 6.4.6). */
    method Store(id: nat, flag: Flag) returns (r: Result<(), Exc>)
      requires Valid()
      modifies this
      ensures Valid()
      ensures !old(state).Selected? ==> r == Err(ImapError) && wire == old(wire) && nextTag == old(nextTag) && boxes == old(boxes)
      ensures old(state).Selected? ==> nextTag == old(nextTag) + 1
      ensures old(state).Selected? && old(dropped) ==> r == Err(ImapAbort) && wire == old(wire) && boxes == old(boxes)
      ensures old(state).Selected? && !old(dropped) ==>
        var box := old(boxes)[old(state).mailbox];
        && r == Ok(())
        && wire == old(wire) + [Tagged(old(nextTag), Cmd.Store(id, flag))]
        && boxes == old(boxes)[old(state).mailbox := if 1 <= id <= |box| then box[id - 1 := AddFlags(box[id - 1], {flag})] else box]
      ensures state == old(state) && dropped == old(dropped) && pos == old(pos)
    {
      if !state.Selected? {
        return Err(ImapError);
      }
      Issue(Cmd.Store(id, flag));
      if dropped {
        return Err(ImapAbort);
      }
      var box := boxes[state.mailbox];
      if 1 <= id <= |box| {
        boxes := boxes[state.mailbox := box[id - 1 := AddFlags(box[id - 1], {flag})]];
      }
      return Ok(());
    }

    /** `expunge()` (RFC 3501 section 6.4.3). */
    method Expunge() returns (r: Result<(), Exc>)
      requires Valid()
      modifies this
      ensures Valid()
      ensures !old(state).Selected? ==> r == Err(ImapError) && wire == old(wire) && nextTag == old(nextTag) && boxes == old(boxes)
      ensures old(state).Selected? ==> nextTag == old(nextTag) + 1
      ensures old(state).Selected? && old(dropped) ==> r == Err(ImapAbort) && wire == old(wire) && boxes == old(boxes)
      ensures old(state).Selected? && !old(dropped) ==>
        && r == Ok(())
        && wire == old(wire) + [Tagged(old(nextTag), Cmd.Expunge)]
        && boxes == old(boxes)[old(state).mailbox := Expunged(old(boxes)[old(state).mailbox])]
      ensures state == old(state) && dropped == old(dropped) && pos == old(pos)
    {
      if !state.Selected? {
        return Err(ImapError);
      }
      Issue(Cmd.Expunge);
      if dropped {
        return Err(ImapAbort);
      }
      boxes := boxes[state.mailbox := Expunged(boxes[state.mailbox])];
      return Ok(());
    }

    /** `close()`: expunges and deselects the selected mailbox (RFC 3501
        section 6.4.2). imaplib returns to AUTH whatever happens, raising
        when no mailbox was selected or the server has gone. */
    method Close() returns (r: Result<(), Exc>)
      requires Valid()
      modifies this
      ensures Valid()
      ensures state == Auth
      ensures !old(state).Selected? ==> r == Err(ImapError) && wire == old(wire) && nextTag == old(nextTag) && boxes == old(boxes)
      ensures old(state).Selected? ==> nextTag == old(nextTag) + 1
      ensures old(state).Selected? && old(dropped) ==> r == Err(ImapAbort) && wire == old(wire) && boxes == old(boxes)
      ensures old(state).Selected? && !old(dropped) ==>
        && r == Ok(())
        && wire == old(wire) + [Tagged(old(nextTag), Cmd.Close)]
        && boxes == old(boxes)[old(state).mailbox := Expunged(old(boxes)[old(state).mailbox])]
      ensures dropped == old(dropped) && pos == old(pos)
    {
      if !state.Selected? {
        state := Auth;
        return Err(ImapError);
      }
      Issue(Cmd.Close);
      if dropped {
        state := Auth;
        return Err(ImapAbort);
      }
      boxes := boxes[state.mailbox := Expunged(boxes[state.mailbox])];
      state := Auth;
      return Ok(());
    }

    /** `logout()`: allowed in every state, never raises, and shuts the
        socket down. */
    method Logout()
      requires Valid()
      modifies this
      ensures Valid()
      ensures state == LoggedOut && dropped
      ensures nextTag == old(nextTag) + 1
      ensures wire == old(wire) + (if old(dropped) then [] else [Tagged(old(nextTag), Cmd.Logout)])
      ensures boxes == old(boxes) && pos == old(pos)
    {
      state := LoggedOut;
      Issue(Cmd.Logout);
      dropped := true;
    }

    /** `send(data)`: raw bytes on the socket, which fails once the server
        has gone. */
    method Send(s: Sent) returns (r: Result<(), Exc>)
      requires Valid()
      requires s.Tagged? ==> s.tag < nextTag
      modifies this
      ensures Valid()
      ensures r == (if old(dropped) then Err(OSError) else Ok(()))
      ensures wire == old(wire) + (if old(dropped) then [] else [s])
      ensures boxes == old(boxes) && state == old(state) && nextTag == old(nextTag) && dropped == old(dropped)
      ensures pos == old(pos)
    {
      if dropped {
        return Err(OSError);
      }
      wire := wire + [s];
      return Ok(());
    }

    /** `readline()`: the next line the server sends; the messages it
        announces arrive in the selected mailbox first. Past the last line,
        or once the server has gone, the read gives the empty line of an
        end of file. */
    method ReadLine() returns (line: string)
      requires Valid()
      modifies this
      ensures Valid()
      ensures old(dropped) || old(pos) == |incoming| ==> line == "" && dropped && pos == old(pos) && boxes == old(boxes)
      ensures !old(dropped) && old(pos) < |incoming| ==>
        && line == incoming[old(pos)].text
        && pos == old(pos) + 1
        && dropped == EndsSession(line)
        && boxes == (if old(state).Selected? then old(boxes)[old(state).mailbox := old(boxes)[old(state).mailbox] + incoming[old(pos)].arrivals]
                     else old(boxes))
      ensures wire == old(wire) && nextTag == old(nextTag) && state == old(state)
    {
      if dropped || pos == |incoming| {
        dropped := true;
        return "";
      }
      line := incoming[pos].text;
      if state.Selected? {
        boxes := boxes[state.mailbox := boxes[state.mailbox] + incoming[pos].arrivals];
      }
      pos := pos + 1;
      dropped := EndsSession(line);
    }
  }

  // ---------------------------------------------------------------------
  // One retrieval: SEARCH, FETCH each hit, STORE the flags, EXPUNGE
  // ---------------------------------------------------------------------

  /** The FETCH loop: one message per id, in order, each id also gaining
      \Seen. */
  method FetchEach(c: Connection, ids: seq<nat>) returns (mails: seq<Part>)
    requires c.Valid() && c.state.Selected? && !c.dropped
    requires Increasing(ids) && InRange(ids, |c.boxes[c.state.mailbox]|)
    modifies c
    ensures c.Valid()
    ensures var box := old(c.boxes)[old(c.state).mailbox];
      && mails == Messages(box, ids)
      && c.boxes == old(c.boxes)[old(c.state).mailbox := Marked(box, ids, {Seen})]
    ensures c.wire == old(c.wire) + Numbered(old(c.nextTag), FetchCmds(ids))
    ensures c.nextTag == old(c.nextTag) + |ids|
    ensures c.state == old(c.state) && c.dropped == old(c.dropped) && c.pos == old(c.pos)
  {
    ghost var box := c.boxes[c.state.mailbox];
    MarkedNone(box, {Seen});
    mails := [];
    var i := 0;
    while i < |ids|
      invariant 0 <= i <= |ids|
      invariant c.Valid()
      invariant c.state == old(c.state) && c.dropped == old(c.dropped) && c.pos == old(c.pos)
      invariant c.boxes == old(c.boxes)[c.state.mailbox := Marked(box, ids[..i], {Seen})]
      invariant mails == Messages(box, ids[..i])
      invariant c.wire == old(c.wire) + Numbered(old(c.nextTag), FetchCmds(ids[..i]))
      invariant c.nextTag == old(c.nextTag) + i
    {
      SliceSnoc(ids, i);
      assert ids[i] !in ids[..i];
      MarkedMessages(box, ids[..i], {Seen}, ids[i]);
      MarkOne(box, ids[..i], {Seen}, ids[i]);
      NumberedSnoc(old(c.nextTag), FetchCmds(ids[..i]), Fetch(ids[i]));
      var got := c.Fetch(ids[i]);
      assert got == Ok(Some(box[ids[i] - 1].msg));
      mails := mails + [got.value.value];
      i := i + 1;
    }
    assert ids[..i] == ids;
  }

  /** The body of the STORE loop for one id. */
  method FlagId(c: Connection, id: nat, delete: bool)
    requires c.Valid() && c.state.Selected? && !c.dropped
    requires 1 <= id <= |c.boxes[c.state.mailbox]|
    modifies c
    ensures c.Valid()
    ensures c.state == old(c.state) && c.dropped == old(c.dropped) && c.pos == old(c.pos)
    ensures var box := old(c.boxes)[old(c.state).mailbox];
      c.boxes == old(c.boxes)[old(c.state).mailbox := box[id - 1 := AddFlags(box[id - 1], StoreFlags(delete))]]
    ensures c.wire == old(c.wire) + Numbered(old(c.nextTag), StoreCmdsFor(id, delete))
    ensures c.nextTag == old(c.nextTag) + |StoreCmdsFor(id, delete)|
  {
    ghost var m := c.state.mailbox;
    ghost var box := c.boxes[m];
    var _ := c.Store(id, Seen);
    ghost var seen := box[id - 1 := AddFlags(box[id - 1], {Seen})];
    assert c.boxes == old(c.boxes)[m := seen];
    if delete {
      var _ := c.Store(id, Deleted);
      assert c.boxes == old(c.boxes)[m := seen][m := seen[id - 1 := AddFlags(seen[id - 1], {Deleted})]];
      assert box[id - 1].flags + {Seen} + {Deleted} == box[id - 1].flags + StoreFlags(delete);
      assert seen[id - 1 := AddFlags(seen[id - 1], {Deleted})] == box[id - 1 := AddFlags(box[id - 1], StoreFlags(delete))];
    }
    assert Numbered(old(c.nextTag), StoreCmdsFor(id, delete))
        == [Tagged(old(c.nextTag), Store(id, Seen))] + (if delete then [Tagged(old(c.nextTag) + 1, Store(id, Deleted))] else []);
  }

  /** The STORE loop: \Seen on every id, and \Deleted as well when
      deleting. */
  method FlagEach(c: Connection, ids: seq<nat>, delete: bool)
    requires c.Valid() && c.state.Selected? && !c.dropped
    requires Increasing(ids) && InRange(ids, |c.boxes[c.state.mailbox]|)
    modifies c
    ensures c.Valid()
    ensures c.state == old(c.state) && c.dropped == old(c.dropped) && c.pos == old(c.pos)
    ensures c.boxes == old(c.boxes)[old(c.state).mailbox := Marked(old(c.boxes)[old(c.state).mailbox], ids, StoreFlags(delete))]
    ensures c.wire == old(c.wire) + Numbered(old(c.nextTag), StoreCmds(ids, delete))
    ensures c.nextTag == old(c.nextTag) + |StoreCmds(ids, delete)|
  {
    ghost var m := c.state.mailbox;
    ghost var box := c.boxes[m];
    ghost var fs := StoreFlags(delete);
    ghost var t := c.nextTag;
    MarkedNone(box, fs);
    var i := 0;
    while i < |ids|
      invariant 0 <= i <= |ids|
      invariant c.Valid()
      invariant c.state == old(c.state) && c.dropped == old(c.dropped) && c.pos == old(c.pos)
      invariant c.boxes == old(c.boxes)[m := Marked(box, ids[..i], fs)]
      invariant c.wire == old(c.wire) + Numbered(t, StoreCmds(ids[..i], delete))
      invariant c.nextTag == t + |StoreCmds(ids[..i], delete)|
    {
      SliceSnoc(ids, i);
      assert ids[i] !in ids[..i];
      ghost var done := StoreCmds(ids[..i], delete);
      ghost var step := StoreCmdsFor(ids[i], delete);
      assert StoreCmds(ids[..i + 1], delete) == done + step;
      MarkOne(box, ids[..i], fs, ids[i]);
      NumberedAppend(t, done, step);
      FlagId(c, ids[i], delete);
      assert c.boxes == old(c.boxes)[m := Marked(box, ids[..i + 1], fs)];
      assert c.wire == old(c.wire) + Numbered(t, done + step);
      i := i + 1;
    }
    assert ids[..i] == ids;
  }

  /** The FETCH loop and the post-processing of `get_mails` and
      `_retrieve_mails`: the messages of `ids` in order, then the flags,
      then EXPUNGE when deleting. */
  method Process(c: Connection, ids: seq<nat>, delete: bool) returns (mails: seq<Part>)
    requires c.Valid() && c.state.Selected? && !c.dropped
    requires Increasing(ids) && InRange(ids, |c.boxes[c.state.mailbox]|)
    modifies c
    ensures c.Valid()
    ensures c.state == old(c.state) && c.dropped == old(c.dropped) && c.pos == old(c.pos)
    ensures var box := old(c.boxes)[old(c.state).mailbox];
      && mails == Messages(box, ids)
      && c.boxes == old(c.boxes)[old(c.state).mailbox := After(box, ids, delete)]
    ensures c.wire == old(c.wire) + Numbered(old(c.nextTag), ProcessCmds(ids, delete))
    ensures c.nextTag == old(c.nextTag) + |ProcessCmds(ids, delete)|
  {
    ghost var m := c.state.mailbox;
    ghost var box := c.boxes[m];
    ghost var t := c.nextTag;
    mails := FetchEach(c, ids);
    FlagEach(c, ids, delete);
    MarkedTwice(box, ids, {Seen}, StoreFlags(delete));
    assert c.boxes == old(c.boxes)[m := Marked(box, ids, StoreFlags(delete))];
    assert c.wire == old(c.wire) + Numbered(t, FetchCmds(ids)) + Numbered(t + |ids|, StoreCmds(ids, delete));
    ghost var sent := old(c.wire) + Numbered(t, FetchCmds(ids)) + Numbered(t + |ids|, StoreCmds(ids, delete));
    ProcessWire(t, ids, delete);
    if delete {
      var _ := c.Expunge();
      assert c.wire == sent + [Tagged(t + |ids| + |StoreCmds(ids, delete)|, Expunge)];
    }
  }

  /** `_retrieve_mails` without the callback, and the body of `get_mails`
      after SELECT: the messages SEARCH finds, in SEARCH order; each
      found message then flagged \Seen, and \Deleted and expunged when
      `delete` is set. Nothing is sent when no mailbox is selected; with a
      gone server the SEARCH raises. */
  method Retrieve(c: Connection, criteria: string, delete: bool) returns (r: Result<seq<Part>, Exc>)
    requires c.Valid()
    modifies c
    ensures c.Valid()
    ensures c.state == old(c.state) && c.dropped == old(c.dropped) && c.pos == old(c.pos)
    ensures !old(c.state).Selected? ==> r == Err(ImapError) && c.wire == old(c.wire) && c.nextTag == old(c.nextTag) && c.boxes == old(c.boxes)
    ensures old(c.state).Selected? && old(c.dropped) ==>
      r == Err(ImapAbort) && c.wire == old(c.wire) && c.nextTag == old(c.nextTag) + 1 && c.boxes == old(c.boxes)
    ensures old(c.state).Selected? && !old(c.dropped) ==>
      var box := old(c.boxes)[old(c.state).mailbox];
      var hits := Hits(c.matches, criteria, box);
      && InRange(hits, |box|)
      && r == Ok(Messages(box, hits))
      && c.boxes == old(c.boxes)[old(c.state).mailbox := After(box, hits, delete)]
      && c.wire == old(c.wire) + Numbered(old(c.nextTag), RetrieveCmds(criteria, hits, delete))
      && c.nextTag == old(c.nextTag) + |RetrieveCmds(criteria, hits, delete)|
  {
    var found := c.Search(criteria);
    if found.Err? {
      return Err(found.error);
    }
    HitsSpec(c.matches, criteria, c.boxes[c.state.mailbox]);
    NumberedCons(old(c.nextTag), Search(criteria), ProcessCmds(found.value, delete));
    var mails := Process(c, found.value, delete);
    return Ok(mails);
  }

  // ---------------------------------------------------------------------
  // What a retrieval guarantees
  // ---------------------------------------------------------------------

  /** After a retrieval every message it returned carries \Seen; without
      `delete` every other message is exactly as before and no message
      leaves the mailbox. */
  lemma KeptWithoutDelete(box: Mailbox, ids: seq<nat>)
    requires InRange(ids, |box|)
    ensures |After(box, ids, false)| == |box|
    ensures forall k :: k in ids ==> Seen in After(box, ids, false)[k - 1].flags
    ensures forall i :: 0 <= i < |box| ==> After(box, ids, false)[i].msg == box[i].msg
    ensures forall i :: 0 <= i < |box| && i + 1 !in ids ==> After(box, ids, false)[i] == box[i]
  {
    forall k | k in ids
      ensures Seen in After(box, ids, false)[k - 1].flags
    {
      var j :| 0 <= j < |ids| && ids[j] == k;
    }
  }

  /** The messages that survive a deleting retrieval: those SEARCH did not
      return and that were not already flagged \Deleted, in order and
      untouched. */
  function Survivors(box: Mailbox, ids: seq<nat>): Mailbox
    decreases |box|
  {
    if box == [] then []
    else
      var last := box[|box| - 1];
      Survivors(box[..|box| - 1], ids) + (if |box| in ids || Deleted in last.flags then [] else [last])
  }

  /** Marking only looks at positions, so it commutes with dropping the
      last message. */
  lemma MarkedInit(box: Mailbox, ids: seq<nat>, fs: set<Flag>)
    requires box != []
    ensures Marked(box, ids, fs)[..|box| - 1] == Marked(box[..|box| - 1], ids, fs)
  {
  }

  /** With `delete`, the mailbox afterwards holds exactly the survivors. */
  lemma {:induction false} DeletedRetrieval(box: Mailbox, ids: seq<nat>)
    ensures After(box, ids, true) == Survivors(box, ids)
    decreases |box|
  {
    if box != [] {
      var m := Marked(box, ids, StoreFlags(true));
      MarkedInit(box, ids, StoreFlags(true));
      assert m[..|m| - 1] == Marked(box[..|box| - 1], ids, StoreFlags(true));
      DeletedRetrieval(box[..|box| - 1], ids);
    }
  }

  /** SEARCH for unseen messages (the default `(UNSEEN)`) matches exactly
      the messages without \Seen (RFC 3501 section 6.4.4). */
  ghost predicate UnseenSearch(matches: (string, Stored) -> bool, criteria: string)
  {
    forall s :: matches(criteria, s) <==> Seen !in s.flags
  }

  lemma {:induction false} NoUnseen(matches: (string, Stored) -> bool, criteria: string, box: Mailbox)
    requires UnseenSearch(matches, criteria)
    requires forall i :: 0 <= i < |box| ==> Seen in box[i].flags
    ensures Hits(matches, criteria, box) == []
    decreases |box|
  {
    if box != [] {
      NoUnseen(matches, criteria, box[..|box| - 1]);
    }
  }

  lemma {:induction false} SurvivorsFrom(box: Mailbox, ids: seq<nat>, i: nat)
    requires i < |Survivors(box, ids)|
    ensures exists k :: 0 <= k < |box| && k + 1 !in ids && Survivors(box, ids)[i] == box[k]
    decreases |box|
  {
    var init := Survivors(box[..|box| - 1], ids);
    if i < |init| {
      SurvivorsFrom(box[..|box| - 1], ids, i);
      var k :| 0 <= k < |box| - 1 && k + 1 !in ids && init[i] == box[..|box| - 1][k];
      assert Survivors(box, ids)[i] == box[k];
    } else {
      assert Survivors(box, ids)[i] == box[|box| - 1];
    }
  }

  /** Retrieving unseen messages twice in a row (with nothing arriving in
      between) finds nothing the second time, whether or not the first
      retrieval deleted. */
  lemma SecondRetrievalEmpty(matches: (string, Stored) -> bool, criteria: string, box: Mailbox, delete: bool)
    requires UnseenSearch(matches, criteria)
    ensures var hits := Hits(matches, criteria, box);
      Hits(matches, criteria, After(box, hits, delete)) == []
  {
    var hits := Hits(matches, criteria, box);
    HitsSpec(matches, criteria, box);
    var after := After(box, hits, delete);
    if delete {
      DeletedRetrieval(box, hits);
      forall i | 0 <= i < |after|
        ensures Seen in after[i].flags
      {
        SurvivorsFrom(box, hits, i);
      }
    } else {
      KeptWithoutDelete(box, hits);
      forall i | 0 <= i < |after|
        ensures Seen in after[i].flags
      {
        if i + 1 !in hits {
          assert !matches(criteria, box[i]);
        }
      }
    }
    NoUnseen(matches, criteria, after);
  }

  /** On the wire, a retrieval FETCHes and STOREs only the ids SEARCH
      returned, and sends \Deleted and EXPUNGE only when deleting. */
  lemma {:induction false} RetrieveTouchesHits(criteria: string, ids: seq<nat>, delete: bool)
    ensures forall c :: c in RetrieveCmds(criteria, ids, delete) && (c.Fetch? || c.Store?) ==> c.id in ids
    ensures !delete ==> Expunge !in RetrieveCmds(criteria, ids, delete)
    ensures !delete ==> forall c :: c in RetrieveCmds(criteria, ids, delete) && c.Store? ==> c.flag == Seen
    decreases |ids|
  {
    if ids != [] {
      var init := ids[..|ids| - 1];
      RetrieveTouchesHits(criteria, init, delete);
      forall c | c in RetrieveCmds(criteria, ids, delete) && (c.Fetch? || c.Store?)
        ensures c.id in ids
      {
        if c.id != ids[|ids| - 1] {
          assert c in RetrieveCmds(criteria, init, delete);
          assert c.id in init;
        }
      }
    }
  }

  // ---------------------------------------------------------------------
  // The transport
  // ---------------------------------------------------------------------

  class ImapReceiver {
    const server: string
    const username: string
    const password: string
    const port: Option<int>
    const useSsl: bool
    var connection: Connection?

    predicate Valid()
      reads this, connection
    {
      connection != null ==> connection.Valid()
    }

    constructor (server: string, username: string, password: string, port: Option<int>, useSsl: bool)
      ensures Valid()
      ensures this.server == server && this.username == username && this.password == password
      ensures this.port == port && this.useSsl == useSsl && connection == null
    {
      this.server := server;
      this.username := username;
      this.password := password;
      this.port := port;
      this.useSsl := useSsl;
      connection := null;
    }

    /** `connect()`: log in on the connection the server opened; it is
        kept only when the login succeeds. */
    method Connect(c: Connection) returns (r: Result<(), Exc>)
      requires Valid() && c.Valid()
      modifies this, c
      ensures Valid() && c.Valid()
      ensures r.Ok? <==> old(c.state) == NotAuth && !old(c.dropped) && c.accepts(username, password)
      ensures connection == (if r.Ok? then c else old(connection))
      ensures r.Ok? ==> c.state == Auth && c.wire == old(c.wire) + [Tagged(old(c.nextTag), Cmd.Login(username, password))]
    {
      r := c.Login(username, password);
      if r.Ok? {
        connection := c;
      }
    }

    /** `get_mails(criteria, mailbox, delete)`: SELECT the mailbox, then
        retrieve. The connection stays open with the mailbox selected. */
    method GetMails(criteria: string, mailbox: string, delete: bool) returns (r: Result<seq<Part>, Exc>)
      requires Valid()
      modifies connection
      ensures Valid()
      ensures connection == null ==> r == Err(AttributeError)
      ensures connection != null ==>
        var c := connection;
        && (r.Ok? <==> (old(c.state).Auth? || old(c.state).Selected?) && !old(c.dropped) && mailbox in old(c.boxes))
        && (r.Err? ==> c.boxes == old(c.boxes))
        && ((old(c.state).Auth? || old(c.state).Selected?) && !old(c.dropped) && mailbox !in old(c.boxes) ==>
              r == Err(ImapError) && c.state == Auth && c.wire == old(c.wire) + [Tagged(old(c.nextTag), Select(mailbox))])
      ensures connection != null && r.Ok? ==>
        var c := connection;
        var box := old(c.boxes)[mailbox];
        var hits := Hits(c.matches, criteria, box);
        && InRange(hits, |box|)
        && r.value == Messages(box, hits)
        && c.boxes == old(c.boxes)[mailbox := After(box, hits, delete)]
        && c.state == Selected(mailbox) && !c.dropped
        && c.wire == old(c.wire) + Numbered(old(c.nextTag), [Select(mailbox)] + RetrieveCmds(criteria, hits, delete))
    {
      if connection == null {
        return Err(AttributeError);
      }
      var selected := connection.Select(mailbox);
      if selected.Err? {
        return Err(selected.error);
      }
      ghost var t := old(connection.nextTag);
      ghost var w := old(connection.wire);
      r := Retrieve(connection, criteria, delete);
      if r.Ok? {
        ghost var cmds := RetrieveCmds(criteria, Hits(connection.matches, criteria, old(connection.boxes)[mailbox]), delete);
        assert connection.wire == w + [Tagged(t, Select(mailbox))] + Numbered(t + 1, cmds);
        NumberedCons(t, Select(mailbox), cmds);
      }
    }

    /** `close()`: CLOSE, then LOGOUT; a failing CLOSE raises before the
        LOGOUT is sent. */
    method Close() returns (r: Result<(), Exc>)
      requires Valid()
      modifies connection
      ensures Valid()
      ensures connection == null ==> r == Err(AttributeError)
      ensures connection != null ==>
        var c := connection;
        && (r.Ok? <==> old(c.state).Selected? && !old(c.dropped))
        && (r.Ok? ==>
              && c.state == LoggedOut
              && c.wire == old(c.wire) + Numbered(old(c.nextTag), [Cmd.Close, Cmd.Logout])
              && c.boxes == old(c.boxes)[old(c.state).mailbox := Expunged(old(c.boxes)[old(c.state).mailbox])])
        && (r.Err? ==> c.state == Auth && c.wire == old(c.wire))
    {
      if connection == null {
        return Err(AttributeError);
      }
      r := connection.Close();
      if r.Err? {
        return r;
      }
      connection.Logout();
      assert Numbered(old(connection.nextTag), [Cmd.Close, Cmd.Logout])
          == [Tagged(old(connection.nextTag), Cmd.Close), Tagged(old(connection.nextTag) + 1, Cmd.Logout)];
    }
  }
}
