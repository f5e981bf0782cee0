/** The IMAP IDLE receiver
    (mailproc/transports/imap_idle_receiver_transport.py): one retrieval,
    then IDLE (RFC 2177), then a loop over the lines the server sends. Each
    retrieval hands its messages to the callback, recorded here as `calls`;
    `steps` records the order of retrievals, IDLE commands and DONEs. */
module ImapIdle {
  import opened Base
  import opened Mime
  import opened Imap

  /** What the transport does, in order: a retrieval with its callback, an
      `IDLE` command, or a `DONE`. */
  datatype Step = Retrieval | IdleStart | IdleDone

  /** The text that ends an IDLE, in the tagged OK the server answers DONE
      with. */
  const Finish: string := "OK Idle completed."

  /** A stripped line that ends the loop: a BYE, or nothing (end of file or
      a blank line). */
  predicate Leaves(line: string)
  {
    StartsWith(line, "* BYE ") || |line| == 0
  }

  /** A stripped line announcing new messages (RFC 3501 section 7.3.1). */
  predicate Announces(line: string)
  {
    EndsWith(line, "EXISTS")
  }

  predicate Completes(line: string)
  {
    EndsWith(line, Finish)
  }

  /** What the loop does with the lines it reads, when it loops: a leaving
      line (checked first) or the end of input stops it; an EXISTS line
      gives DONE, a retrieval and a new IDLE; an `OK Idle completed.` line
      gives a new IDLE; any other line nothing. */
  function Reaction(lines: seq<Line>): seq<Step>
    decreases |lines|
  {
    if lines == [] then []
    else
      var l := Strip(lines[0].text);
      if Leaves(l) then []
      else if Announces(l) then [IdleDone, Retrieval, IdleStart] + Reaction(lines[1..])
      else if Completes(l) then [IdleStart] + Reaction(lines[1..])
      else Reaction(lines[1..])
  }

  /** All `get_mails` does after SELECT: one retrieval and one IDLE, then
      the loop only when `idle_loop` is set (with it unset the loop guard
      is false on entry, as the line read so far is empty). */
  function IdlePlan(loop: bool, lines: seq<Line>): seq<Step>
  {
    [Retrieval, IdleStart] + (if loop then Reaction(lines) else [])
  }

  /** The IDLE a line still calls for on the next turn: one after an
      `OK Idle completed.` line. */
  function Pending(line: string): seq<Step>
  {
    if Completes(line) then [IdleStart] else []
  }

  /** The index of the first line that ends the loop, or the number of
      lines when none does. */
  function Stop(lines: seq<Line>): (k: nat)
    ensures k <= |lines|
    decreases |lines|
  {
    if lines == [] || Leaves(Strip(lines[0].text)) then 0 else 1 + Stop(lines[1..])
  }

  /** How many lines the loop reads: through the one that ends it, or all
      of them before the end of input. */
  function Read(lines: seq<Line>): nat
  {
    if Stop(lines) < |lines| then Stop(lines) + 1 else |lines|
  }

  /** The number of EXISTS lines. */
  function CountExists(lines: seq<Line>): nat
    decreases |lines|
  {
    if lines == [] then 0
    else CountExists(lines[..|lines| - 1]) + (if Announces(Strip(lines[|lines| - 1].text)) then 1 else 0)
  }

  function Count(steps: seq<Step>, s: Step): nat
    decreases |steps|
  {
    if steps == [] then 0
    else Count(steps[..|steps| - 1], s) + (if steps[|steps| - 1] == s then 1 else 0)
  }

  lemma {:induction false} CountAppend(a: seq<Step>, b: seq<Step>, s: Step)
    ensures Count(a + b, s) == Count(a, s) + Count(b, s)
    decreases |b|
  {
    if b == [] {
      assert a + b == a;
    } else {
      assert (a + b)[..|a + b| - 1] == a + b[..|b| - 1];
      CountAppend(a, b[..|b| - 1], s);
    }
  }

  /** A sequence that extends an extension of `pre` extends `pre`, and
      agrees with the middle one just past `pre`. */
  lemma PrefixOfPrefix<T>(s: seq<T>, mid: seq<T>, pre: seq<T>)
    requires |mid| <= |s| && s[..|mid|] == mid
    requires |pre| < |mid| && mid[..|pre|] == pre
    ensures s[..|pre|] == pre && s[|pre|] == mid[|pre|]
  {
    assert s[..|pre|] == s[..|mid|][..|pre|];
  }

  lemma CountExistsCons(lines: seq<Line>)
    requires lines != []
    ensures CountExists(lines) == (if Announces(Strip(lines[0].text)) then 1 else 0) + CountExists(lines[1..])
    decreases |lines|
  {
    if |lines| > 1 {
      assert lines[..|lines| - 1][1..] == lines[1..][..|lines| - 2];
      CountExistsCons(lines[..|lines| - 1]);
    } else {
      assert lines[1..] == [];
      assert lines[..0] == [];
    }
  }

  /** Each EXISTS line read before the line that ends the loop causes
      exactly one retrieval, and nothing else does. */
  lemma {:induction false} RetrievalCount(lines: seq<Line>)
    ensures Count(Reaction(lines), Retrieval) == CountExists(lines[..Stop(lines)])
    decreases |lines|
  {
    if lines != [] && !Leaves(Strip(lines[0].text)) {
      var l := Strip(lines[0].text);
      RetrievalCount(lines[1..]);
      var prefix := lines[..Stop(lines)];
      assert prefix[0] == lines[0] && prefix[1..] == lines[1..][..Stop(lines[1..])];
      CountExistsCons(prefix);
      if Announces(l) {
        CountAppend([IdleDone, Retrieval, IdleStart], Reaction(lines[1..]), Retrieval);
        assert [IdleDone, Retrieval, IdleStart][..2] == [IdleDone, Retrieval];
        assert [IdleDone, Retrieval][..1] == [IdleDone];
      } else if Completes(l) {
        CountAppend([IdleStart], Reaction(lines[1..]), Retrieval);
      }
    } else {
      assert lines[..Stop(lines)] == [];
    }
  }

  /** The callback runs once before the first IDLE, and, when looping,
      once more per EXISTS line read before the line that ends the loop. */
  lemma CallbackCount(loop: bool, lines: seq<Line>)
    ensures IdlePlan(loop, lines)[..2] == [Retrieval, IdleStart]
    ensures Count(IdlePlan(loop, lines), Retrieval) == 1 + (if loop then CountExists(lines[..Stop(lines)]) else 0)
  {
    var tail := if loop then Reaction(lines) else [];
    CountAppend([Retrieval, IdleStart], tail, Retrieval);
    assert [Retrieval, IdleStart][..1] == [Retrieval];
    if loop {
      RetrievalCount(lines);
    }
  }

  /** A BYE line ends the loop even when it also ends in EXISTS: the
      check for leaving comes first. */
  lemma ByeBeforeExists(line: Line, rest: seq<Line>)
    requires StartsWith(Strip(line.text), "* BYE ") && Announces(Strip(line.text))
    ensures Reaction([line] + rest) == []
    ensures Read([line] + rest) == 1
  {
  }

  /** No line both announces messages and completes an IDLE. */
  lemma ExistsNotCompletes(line: string)
    requires Announces(line)
    ensures !Completes(line)
  {
    assert line[|line| - 6..][5] == 'S';
    assert Finish[|Finish| - 1] == '.';
  }

  lemma ReactionStep(lines: seq<Line>)
    requires lines != [] && !Leaves(Strip(lines[0].text))
    ensures Stop(lines) == 1 + Stop(lines[1..])
    ensures Read(lines) == 1 + Read(lines[1..])
  {
  }

  // ---------------------------------------------------------------------
  // The loop with the mailbox and the callback
  // ---------------------------------------------------------------------

  /** What a retrieval depends on: the server's SEARCH, the criteria, the
      `delete` flag, and the callback, given as the exception it raises on
      an argument (`None` when it returns normally). */
  datatype Setup = Setup(matches: (string, Stored) -> bool, criteria: string, delete: bool,
                         callback: seq<Part> -> Option<Exc>)

  /** The messages one retrieval on `box` hands to the callback. (The
      hits are always in range, by `HitsSpec`.) */
  function Batch(s: Setup, box: Mailbox): seq<Part>
  {
    var hits := Hits(s.matches, s.criteria, box);
    if InRange(hits, |box|) then Messages(box, hits) else []
  }

  /** The mailbox after one retrieval on `box`. */
  function Kept(s: Setup, box: Mailbox): Mailbox
  {
    After(box, Hits(s.matches, s.criteria, box), s.delete)
  }

  /** What a stretch of the transport's work leads to: the steps, the
      argument of every callback invocation, the selected mailbox
      afterwards, how many lines were read, and the exception that ended
      it, if any. */
  datatype Run = Run(steps: seq<Step>, batches: seq<seq<Part>>, box: Mailbox, read: nat, raised: Option<Exc>)

  /** The run `r` after steps already taken, callback arguments already
      passed and lines already read. */
  function Past(steps: seq<Step>, batches: seq<seq<Part>>, read: nat, r: Run): Run
  {
    Run(steps + r.steps, batches + r.batches, r.box, read + r.read, r.raised)
  }

  /** Two stretches of work one after the other. */
  lemma PastPast(steps: seq<Step>, batches: seq<seq<Part>>, read: nat,
                 steps': seq<Step>, batches': seq<seq<Part>>, read': nat, r: Run)
    ensures Past(steps, batches, read, Past(steps', batches', read', r)) == Past(steps + steps', batches + batches', read + read', r)
  {
    assert steps + (steps' + r.steps) == steps + steps' + r.steps;
    assert batches + (batches' + r.batches) == batches + batches' + r.batches;
  }

  lemma Associative<T>(a: seq<T>, b: seq<T>, c: seq<T>)
    ensures a + b + c == a + (b + c)
  {
  }

  lemma PastNone(steps: seq<Step>, batches: seq<seq<Part>>, read: nat, box: Mailbox, raised: Option<Exc>)
    ensures Past(steps, batches, read, Run([], [], box, 0, raised)) == Run(steps, batches, box, read, raised)
  {
    assert steps + [] == steps && batches + [] == batches;
  }

  function Outcome(raised: Option<Exc>): Result<(), Exc>
  {
    if raised.Some? then Err(raised.value) else Ok(())
  }

  /** What one line that does not end the loop calls for, on the selected
      mailbox `box` as it stands once the line is read: for an EXISTS
      line, DONE and a retrieval whose callback, unless it raises, is
      followed by a new IDLE; for an `OK Idle completed.` line, a new
      IDLE; for any other line, nothing. The line count is left at 0. */
  function Turn(s: Setup, line: string, box: Mailbox): Run
  {
    if Announces(line) then
      var batch := Batch(s, box);
      var raised := s.callback(batch);
      Run([IdleDone, Retrieval] + (if raised.Some? then [] else [IdleStart]), [batch], Kept(s, box), 0, raised)
    else Run(Pending(line), [], box, 0, None)
  }

  /** The read loop from the selected mailbox `box` and the lines still to
      come. Each line read first delivers its arrivals. A leaving line (or
      the end of input) stops the loop, and so does an exception from the
      callback; any other line does what `Turn` says. */
  function Drive(s: Setup, box: Mailbox, lines: seq<Line>): Run
    decreases |lines|
  {
    if lines == [] then Run([], [], box, 0, None)
    else
      var l := Strip(lines[0].text);
      var got := box + lines[0].arrivals;
      if Leaves(l) then Run([], [], got, 1, None)
      else
        var t := Turn(s, l, got);
        if t.raised.Some? then t.(read := 1) else Past(t.steps, t.batches, 1, Drive(s, t.box, lines[1..]))
  }

  lemma DriveStep(s: Setup, box: Mailbox, lines: seq<Line>)
    requires lines != [] && !Leaves(Strip(lines[0].text))
    ensures var t := Turn(s, Strip(lines[0].text), box + lines[0].arrivals);
      Drive(s, box, lines) == if t.raised.Some? then t.(read := 1) else Past(t.steps, t.batches, 1, Drive(s, t.box, lines[1..]))
  {
  }

  /** All `get_mails` does after SELECT on the mailbox `box`: a retrieval
      whose callback, when it raises, ends it; otherwise an IDLE, then the
      read loop only when `idle_loop` is set. */
  function Session(s: Setup, loop: bool, box: Mailbox, lines: seq<Line>): Run
  {
    var batch := Batch(s, box);
    if s.callback(batch).Some? then Run([Retrieval], [batch], Kept(s, box), 0, s.callback(batch))
    else
      var rest := if loop then Drive(s, Kept(s, box), lines) else Run([], [], Kept(s, box), 0, None);
      Past([Retrieval, IdleStart], [batch], 0, rest)
  }

  /** The callback never raises. */
  ghost predicate Quiet(s: Setup)
  {
    forall b :: s.callback(b).None?
  }

  /** With a callback that never raises, the loop does what `Reaction`
      says, reads what `Read` says, and ends without an exception; every
      retrieval hands its messages to the callback. */
  lemma {:induction false} DriveQuiet(s: Setup, box: Mailbox, lines: seq<Line>)
    requires Quiet(s)
    ensures Drive(s, box, lines).steps == Reaction(lines)
    ensures Drive(s, box, lines).read == Read(lines)
    ensures Drive(s, box, lines).raised == None
    ensures |Drive(s, box, lines).batches| == Count(Reaction(lines), Retrieval)
    decreases |lines|
  {
    if lines != [] && !Leaves(Strip(lines[0].text)) {
      var l := Strip(lines[0].text);
      var t := Turn(s, l, box + lines[0].arrivals);
      ReactionStep(lines);
      DriveQuiet(s, t.box, lines[1..]);
      if Announces(l) {
        assert s.callback(Batch(s, box + lines[0].arrivals)).None?;
        ExistsNotCompletes(l);
        CountAppend([IdleDone, Retrieval, IdleStart], Reaction(lines[1..]), Retrieval);
        assert [IdleDone, Retrieval, IdleStart][..2] == [IdleDone, Retrieval];
        assert [IdleDone, Retrieval][..1] == [IdleDone];
      } else {
        CountAppend(Pending(l), Reaction(lines[1..]), Retrieval);
      }
    }
  }

  /** With a callback that never raises, `get_mails` follows `IdlePlan`. */
  lemma SessionQuiet(s: Setup, loop: bool, box: Mailbox, lines: seq<Line>)
    requires Quiet(s)
    ensures Session(s, loop, box, lines).steps == IdlePlan(loop, lines)
    ensures Session(s, loop, box, lines).read == (if loop then Read(lines) else 0)
    ensures Session(s, loop, box, lines).raised == None
  {
    assert s.callback(Batch(s, box)).None?;
    if loop {
      DriveQuiet(s, Kept(s, box), lines);
    }
  }

  /** The run ends with the retrieval whose callback raised its exception. */
  ghost predicate EndsRaising(s: Setup, r: Run)
  {
    && |r.steps| >= 2 && r.steps[|r.steps| - 2..] == [IdleDone, Retrieval]
    && r.batches != [] && s.callback(r.batches[|r.batches| - 1]) == r.raised
  }

  lemma PastEndsRaising(s: Setup, steps: seq<Step>, batches: seq<seq<Part>>, read: nat, r: Run)
    requires EndsRaising(s, r)
    ensures EndsRaising(s, Past(steps, batches, read, r))
  {
    var all := steps + r.steps;
    assert all[|all| - 2..] == r.steps[|r.steps| - 2..];
    assert (batches + r.batches)[|batches + r.batches| - 1] == r.batches[|r.batches| - 1];
  }

  /** An exception from the callback ends the loop at once: the last step
      is the retrieval whose callback raised it, no IDLE follows, and the
      exception is what the callback raised on the last batch. */
  lemma {:induction false} RaiseEnds(s: Setup, box: Mailbox, lines: seq<Line>)
    requires Drive(s, box, lines).raised.Some?
    ensures EndsRaising(s, Drive(s, box, lines))
    decreases |lines|
  {
    var l := Strip(lines[0].text);
    var t := Turn(s, l, box + lines[0].arrivals);
    if t.raised.Some? {
      assert t.steps == [IdleDone, Retrieval];
    } else {
      RaiseEnds(s, t.box, lines[1..]);
      PastEndsRaising(s, t.steps, t.batches, 1, Drive(s, t.box, lines[1..]));
    }
  }

  /** Each EXISTS line leads to a retrieval on the mailbox as it stands
      then: the messages delivered so far and not yet taken. With the
      default `(UNSEEN)` search, an EXISTS line that delivers nothing
      right after a retrieval hands the callback an empty list. */
  lemma EmptyAnnouncement(s: Setup, box: Mailbox, line: Line, rest: seq<Line>)
    requires UnseenSearch(s.matches, s.criteria)
    requires Announces(Strip(line.text)) && !Leaves(Strip(line.text)) && line.arrivals == []
    ensures Drive(s, Kept(s, box), [line] + rest).batches[0] == []
  {
    var l := [line] + rest;
    assert l[0] == line;
    assert Kept(s, box) + line.arrivals == Kept(s, box);
    ExistsNotCompletes(Strip(line.text));
    SecondRetrievalEmpty(s.matches, s.criteria, box, s.delete);
  }

  class IdleReceiver {
    /** The IMAP transport this one extends (its `connect` and
        `connection`). */
    const base: ImapReceiver
    /** What the callback raises on an argument, if anything. */
    const callback: seq<Part> -> Option<Exc>
    const idleLoop: bool
    var idleTag: Option<nat>
    /** The argument of every callback invocation, in order. */
    var calls: seq<seq<Part>>
    var steps: seq<Step>

    predicate Valid()
      reads this, base, base.connection
    {
      base.Valid() && |calls| == Count(steps, Retrieval)
    }

    constructor (base: ImapReceiver, callback: seq<Part> -> Option<Exc>, idleLoop: bool)
      requires base.Valid()
      ensures Valid()
      ensures this.base == base && this.callback == callback && this.idleLoop == idleLoop
      ensures idleTag == None && calls == [] && steps == []
    {
      this.base := base;
      this.callback := callback;
      this.idleLoop := idleLoop;
      idleTag := None;
      calls := [];
      steps := [];
    }

    /** `_start_idle()`: a fresh tag, kept in `idle_tag`, and
        `<tag> IDLE` on the wire. */
    method StartIdle()
      requires Valid() && base.connection != null && !base.connection.dropped
      modifies this, base.connection
      ensures Valid()
      ensures var c := base.connection;
        var t := old(c.nextTag);
        && idleTag == Some(t)
        && (forall i :: 0 <= i < |old(c.wire)| && old(c.wire)[i].Tagged? ==> old(c.wire)[i].tag != t)
        && c.wire == old(c.wire) + [Tagged(t, Idle)]
        && c.nextTag == t + 1
        && c.boxes == old(c.boxes) && c.state == old(c.state) && c.dropped == old(c.dropped) && c.pos == old(c.pos)
      ensures steps == old(steps) + [IdleStart] && calls == old(calls)
    {
      var c := base.connection;
      var t := c.NewTag();
      idleTag := Some(t);
      var _ := c.Send(Tagged(t, Idle));
      steps := steps + [IdleStart];
      assert steps[..|steps| - 1] == old(steps);
    }

    /** `_retrieve_mails(callback, criteria, delete)`: a retrieval, then
        the callback with its messages, even when there are none; what
        the callback raises, the method raises. */
    method RetrieveMails(criteria: string, delete: bool) returns (r: Result<(), Exc>)
      requires Valid() && base.connection != null
      modifies this, base.connection
      ensures Valid()
      ensures var c := base.connection;
        && c.state == old(c.state) && c.dropped == old(c.dropped) && c.pos == old(c.pos)
        && (old(c.state).Selected? && !old(c.dropped) ==>
              var s := Setup(c.matches, criteria, delete, callback);
              var box := old(c.boxes)[old(c.state).mailbox];
              var hits := Hits(c.matches, criteria, box);
              && r == Outcome(callback(Batch(s, box)))
              && calls == old(calls) + [Batch(s, box)]
              && c.boxes == old(c.boxes)[old(c.state).mailbox := Kept(s, box)]
              && c.wire == old(c.wire) + Numbered(old(c.nextTag), RetrieveCmds(criteria, hits, delete))
              && c.nextTag == old(c.nextTag) + |RetrieveCmds(criteria, hits, delete)|
              && steps == old(steps) + [Retrieval])
        && (!(old(c.state).Selected? && !old(c.dropped)) ==>
              r.Err? && calls == old(calls) && c.boxes == old(c.boxes) && steps == old(steps))
    {
      var mails := Retrieve(base.connection, criteria, delete);
      if mails.Err? {
        return Err(mails.error);
      }
      calls := calls + [mails.value];
      steps := steps + [Retrieval];
      assert steps[..|steps| - 1] == old(steps);
      var raised := callback(mails.value);
      if raised.Some? {
        return Err(raised.value);
      }
      return Ok(());
    }

    /** `get_mails(criteria, mailbox, delete)`: SELECT, one retrieval, one
        IDLE, then the read loop while `idle_loop` is set (or a completed
        IDLE is pending). When SELECT fails, nothing is retrieved; after
        it, the transport does what `Session` says, up to the exception
        from the callback, if any. */
    method GetMails(criteria: string, mailbox: string, delete: bool) returns (r: Result<(), Exc>)
      requires Valid()
      modifies this, base.connection
      ensures Valid()
      ensures base.connection == null ==> r == Err(AttributeError)
      ensures base.connection != null ==>
        var c := base.connection;
        !((old(c.state).Auth? || old(c.state).Selected?) && !old(c.dropped) && mailbox in old(c.boxes)) ==>
          r.Err? && steps == old(steps) && calls == old(calls) && c.boxes == old(c.boxes)
      ensures base.connection != null ==>
        var c := base.connection;
        (old(c.state).Auth? || old(c.state).Selected?) && !old(c.dropped) && mailbox in old(c.boxes) ==>
          var run := Session(Setup(c.matches, criteria, delete, callback), idleLoop, old(c.boxes)[mailbox], c.incoming[old(c.pos)..]);
          && r == Outcome(run.raised)
          && steps == old(steps) + run.steps
          && calls == old(calls) + run.batches
          && c.boxes == old(c.boxes)[mailbox := run.box]
          && c.pos == old(c.pos) + run.read
    {
      var c := base.connection;
      if c == null {
        return Err(AttributeError);
      }
      var selected := c.Select(mailbox);
      if selected.Err? {
        return Err(selected.error);
      }
      if !selected.value {
        r := RetrieveMails(criteria, delete);
        return;
      }
      r := Monitor(criteria, delete, mailbox);
    }

    /** `get_mails` once the mailbox is selected: what `Session` says. */
    method Monitor(criteria: string, delete: bool, ghost mailbox: string) returns (r: Result<(), Exc>)
      requires Valid() && base.connection != null
      requires base.connection.state == Selected(mailbox) && !base.connection.dropped
      modifies this, base.connection
      ensures Valid() && base.connection.state == old(base.connection.state)
      ensures var c := base.connection;
        var run := Session(Setup(c.matches, criteria, delete, callback), idleLoop, old(c.boxes)[mailbox], c.incoming[old(c.pos)..]);
        && r == Outcome(run.raised)
        && Run(steps, calls, c.boxes[mailbox], c.pos, run.raised) == Past(old(steps), old(calls), old(c.pos), run)
        && c.boxes == old(c.boxes)[mailbox := c.boxes[mailbox]]
    {
      var c := base.connection;
      ghost var s := Setup(c.matches, criteria, delete, callback);
      ghost var lines := c.incoming[c.pos..];
      ghost var box := c.boxes[mailbox];
      r := RetrieveMails(criteria, delete);
      if r.Err? {
        assert old(steps) + [Retrieval] + [] == old(steps) + [Retrieval];
        return;
      }
      ghost var rest := if idleLoop then Drive(s, Kept(s, box), lines) else Run([], [], Kept(s, box), 0, None);
      r := Listen(criteria, delete, mailbox);
      PastPast(old(steps), old(calls), old(c.pos), [Retrieval, IdleStart], [Batch(s, box)], 0, rest);
      Associative(old(steps), [Retrieval], [IdleStart]);
    }

    /** What follows the first retrieval in `get_mails`: one IDLE, then
        the read loop. */
    method Listen(criteria: string, delete: bool, ghost mailbox: string) returns (r: Result<(), Exc>)
      requires Valid() && base.connection != null
      requires base.connection.state == Selected(mailbox) && !base.connection.dropped
      modifies this, base.connection
      ensures Valid() && base.connection.state == old(base.connection.state)
      ensures var c := base.connection;
        var box := old(c.boxes)[mailbox];
        var run := if idleLoop then Drive(Setup(c.matches, criteria, delete, callback), box, c.incoming[old(c.pos)..])
                   else Run([], [], box, 0, None);
        && r == Outcome(run.raised)
        && Run(steps, calls, c.boxes[mailbox], c.pos, run.raised) == Past(old(steps) + [IdleStart], old(calls), old(c.pos), run)
        && c.boxes == old(c.boxes)[mailbox := c.boxes[mailbox]]
    {
      StartIdle();
      r := Watch(criteria, delete, mailbox);
    }

    /** The read loop of `get_mails`, from the empty line it starts with:
        it reads only when `idle_loop` is set, and then as `Drive` says,
        until a line ends it, the input does, or the callback raises. */
    method Watch(criteria: string, delete: bool, ghost mailbox: string) returns (r: Result<(), Exc>)
      requires Valid() && base.connection != null
      requires base.connection.state == Selected(mailbox) && !base.connection.dropped
      modifies this, base.connection
      ensures Valid() && base.connection.state == old(base.connection.state)
      ensures var c := base.connection;
        var box := old(c.boxes)[mailbox];
        var run := if idleLoop then Drive(Setup(c.matches, criteria, delete, callback), box, c.incoming[old(c.pos)..])
                   else Run([], [], box, 0, None);
        && r == Outcome(run.raised)
        && Run(steps, calls, c.boxes[mailbox], c.pos, run.raised) == Past(old(steps), old(calls), old(c.pos), run)
        && c.boxes == old(c.boxes)[mailbox := c.boxes[mailbox]]
    {
      var c := base.connection;
      ghost var s := Setup(c.matches, criteria, delete, callback);
      ghost var boxes0 := c.boxes;
      ghost var goal := Past(steps, calls, c.pos, Drive(s, c.boxes[mailbox], c.incoming[c.pos..]));
      r := Ok(());
      var line := "";
      while idleLoop || Completes(line)
        invariant Valid() && base.connection == c && r == Ok(())
        invariant c.state == Selected(mailbox) && !c.dropped && old(c.pos) <= c.pos <= |c.incoming|
        invariant c.boxes == boxes0[mailbox := c.boxes[mailbox]]
        invariant !idleLoop ==> line == "" && steps == old(steps) && calls == old(calls) && c.boxes == boxes0 && c.pos == old(c.pos)
        invariant idleLoop ==> Past(steps + Pending(line), calls, c.pos, Drive(s, c.boxes[mailbox], c.incoming[c.pos..])) == goal
        decreases |c.incoming| - c.pos, if Completes(line) then 1 else 0
      {
        if Completes(line) {
          ghost var pending := steps + Pending(line);
          line := "";
          StartIdle();
          assert steps + Pending(line) == pending;
          continue;
        }
        assert steps + Pending(line) == steps;
        var heard;
        line, heard := Hear(criteria, delete, mailbox);
        if heard.Err? {
          r := heard;
          break;
        }
        if Leaves(line) {
          break;
        }
      }
      if !idleLoop {
        PastNone(steps, calls, c.pos, c.boxes[mailbox], None);
      }
    }

    /** One turn of the loop that reads: the next line, stripped, and what
        it calls for when it does not end the loop. What the loop does
        from here on is what it did from before the turn, less this
        turn's steps, callback arguments and line. */
    method Hear(criteria: string, delete: bool, ghost mailbox: string) returns (line: string, r: Result<(), Exc>)
      requires Valid() && base.connection != null
      requires base.connection.state == Selected(mailbox) && !base.connection.dropped
      modifies this, base.connection
      ensures Valid() && base.connection.state == old(base.connection.state)
      ensures var c := base.connection;
        c.boxes == old(c.boxes)[mailbox := c.boxes[mailbox]]
      ensures var c := base.connection;
        var rest := c.incoming[old(c.pos)..];
        var run := Drive(Setup(c.matches, criteria, delete, callback), old(c.boxes)[mailbox], rest);
        (Leaves(line) || r.Err? ==>
              && r == Outcome(run.raised)
              && Past(old(steps), old(calls), old(c.pos), run) == Run(steps, calls, c.boxes[mailbox], c.pos, run.raised))
      ensures var c := base.connection;
        var s := Setup(c.matches, criteria, delete, callback);
        var run := Drive(s, old(c.boxes)[mailbox], c.incoming[old(c.pos)..]);
        !Leaves(line) && r.Ok? ==>
          && !c.dropped && c.pos == old(c.pos) + 1
          && Past(old(steps), old(calls), old(c.pos), run) == Past(steps + Pending(line), calls, c.pos, Drive(s, c.boxes[mailbox], c.incoming[c.pos..]))
    {
      var c := base.connection;
      ghost var s := Setup(c.matches, criteria, delete, callback);
      ghost var rest := c.incoming[c.pos..];
      ghost var box := c.boxes[mailbox];
      var raw := c.ReadLine();
      line := Strip(raw);
      r := Ok(());
      if Leaves(line) {
        if rest == [] {
          assert Drive(s, box, rest) == Run([], [], box, 0, None);
          assert c.boxes == old(c.boxes)[mailbox := box];
        } else {
          assert Drive(s, box, rest) == Run([], [], box + rest[0].arrivals, 1, None);
        }
        assert steps + [] == steps && calls + [] == calls;
        return;
      }
      assert rest == c.incoming[c.pos - 1..];
      r := Follow(criteria, delete, mailbox, line, box);
    }

    /** The rest of a turn, once a line that does not end the loop has
        been read from the mailbox `box`: `React`, and how it fits what
        the loop does from before the line. */
    method Follow(criteria: string, delete: bool, ghost mailbox: string, line: string, ghost box: Mailbox)
      returns (r: Result<(), Exc>)
      requires Valid() && base.connection != null
      requires var c := base.connection;
        && c.state == Selected(mailbox) && !c.dropped && 1 <= c.pos && !Leaves(line)
        && Strip(c.incoming[c.pos - 1].text) == line && c.boxes[mailbox] == box + c.incoming[c.pos - 1].arrivals
      modifies this, base.connection
      ensures Valid() && base.connection.state == old(base.connection.state)
      ensures var c := base.connection;
        c.boxes == old(c.boxes)[mailbox := c.boxes[mailbox]]
      ensures var c := base.connection;
        var s := Setup(c.matches, criteria, delete, callback);
        var run := Drive(s, box, c.incoming[old(c.pos) - 1..]);
        && (r.Err? ==>
              && r == Outcome(run.raised)
              && Past(old(steps), old(calls), old(c.pos) - 1, run) == Run(steps, calls, c.boxes[mailbox], c.pos, run.raised))
        && (r.Ok? ==>
              && !c.dropped && c.pos == old(c.pos)
              && Past(old(steps), old(calls), old(c.pos) - 1, run) == Past(steps + Pending(line), calls, c.pos, Drive(s, c.boxes[mailbox], c.incoming[c.pos..])))
    {
      var c := base.connection;
      ghost var s := Setup(c.matches, criteria, delete, callback);
      ghost var rest := c.incoming[c.pos - 1..];
      assert rest[0] == c.incoming[c.pos - 1] && rest[1..] == c.incoming[c.pos..];
      ghost var t := Turn(s, line, c.boxes[mailbox]);
      ghost var mid := steps;
      ghost var called := calls;
      DriveStep(s, box, rest);
      r := React(criteria, delete, mailbox, line);
      if r.Err? {
        ExistsNotCompletes(line);
        assert steps == mid + t.steps;
      } else {
        PastPast(mid, called, c.pos - 1, t.steps, t.batches, 1, Drive(s, t.box, rest[1..]));
      }
    }

    /** What the loop does with a line that does not end it, as `Turn`
        says; the IDLE an `OK Idle completed.` line calls for is left to
        the next turn. */
    method React(criteria: string, delete: bool, ghost mailbox: string, line: string) returns (r: Result<(), Exc>)
      requires Valid() && base.connection != null
      requires base.connection.state == Selected(mailbox) && !base.connection.dropped && !Leaves(line)
      modifies this, base.connection
      ensures Valid()
      ensures var c := base.connection;
        var t := Turn(Setup(c.matches, criteria, delete, callback), line, old(c.boxes)[mailbox]);
        && c.state == old(c.state) && !c.dropped && c.pos == old(c.pos)
        && r == Outcome(t.raised)
        && steps + Pending(line) == old(steps) + t.steps
        && calls == old(calls) + t.batches
        && c.boxes == old(c.boxes)[mailbox := t.box]
    {
      r := Ok(());
      if Announces(line) {
        ExistsNotCompletes(line);
        r := OnExists(criteria, delete, mailbox);
      } else {
        assert base.connection.boxes == old(base.connection.boxes)[mailbox := old(base.connection.boxes)[mailbox]];
      }
    }

    /** An EXISTS line: DONE, a retrieval with its callback, and, unless
        the callback raised, a new IDLE. */
    method OnExists(criteria: string, delete: bool, ghost mailbox: string) returns (r: Result<(), Exc>)
      requires Valid() && base.connection != null
      requires base.connection.state == Selected(mailbox) && !base.connection.dropped
      modifies this, base.connection
      ensures Valid()
      ensures var c := base.connection;
        var s := Setup(c.matches, criteria, delete, callback);
        var box := old(c.boxes)[mailbox];
        var cmds := RetrieveCmds(criteria, Hits(c.matches, criteria, box), delete);
        && c.state == old(c.state) && !c.dropped && c.pos == old(c.pos)
        && r == Outcome(callback(Batch(s, box)))
        && calls == old(calls) + [Batch(s, box)]
        && c.boxes == old(c.boxes)[mailbox := Kept(s, box)]
        && steps == old(steps) + [IdleDone, Retrieval] + (if r.Ok? then [IdleStart] else [])
        && c.wire == old(c.wire) + [EndIdle] + Numbered(old(c.nextTag), cmds)
                     + (if r.Ok? then [Tagged(old(c.nextTag) + |cmds|, Idle)] else [])
    {
      var c := base.connection;
      var _ := c.Send(EndIdle);
      steps := steps + [IdleDone];
      assert steps[..|steps| - 1] == old(steps);
      r := RetrieveMails(criteria, delete);
      if r.Ok? {
        StartIdle();
      }
    }

    /** `close()`: CLOSE, ignoring an abort (the server may have gone),
        then LOGOUT, which is sent whenever CLOSE did not fail otherwise. */
    method Close() returns (r: Result<(), Exc>)
      requires Valid()
      modifies base.connection
      ensures Valid()
      ensures base.connection == null ==> r == Err(AttributeError)
      ensures base.connection != null ==>
        var c := base.connection;
        && (r.Ok? <==> old(c.state).Selected?)
        && (r.Ok? ==> c.state == LoggedOut && c.dropped
                      && c.wire == old(c.wire) + (if old(c.dropped) then [] else Numbered(old(c.nextTag), [Cmd.Close, Cmd.Logout])))
        && (r.Err? ==> r.error == ImapError && c.state == Auth && c.wire == old(c.wire))
    {
      var c := base.connection;
      if c == null {
        return Err(AttributeError);
      }
      var closed := c.Close();
      if closed.Err? && closed.error != ImapAbort {
        return closed;
      }
      c.Logout();
      assert Numbered(old(c.nextTag), [Cmd.Close, Cmd.Logout])
          == [Tagged(old(c.nextTag), Cmd.Close), Tagged(old(c.nextTag) + 1, Cmd.Logout)];
      return Ok(());
    }
  }
}
