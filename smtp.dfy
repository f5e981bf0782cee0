/** The SMTP sender (mailproc/transports/smtp_sender_transport.py). The
    socket and smtplib are replaced by the list of commands the transport
    issues and a server that accepts or refuses each of them. */
module Smtp {
  import opened Base
  import opened Codecs
  import opened Mime
  import opened Compose

  /** What the transport asks of smtplib, one entry per call that talks to
      the server. `Open` is the constructor of `SMTP_SSL` or `SMTP`, with
      the port when a non-zero one is configured. */
  datatype Command =
    | Open(server: string, port: Option<int>, ssl: bool)
    | Ehlo
    | StartTls
    | Login(username: string, password: string)
    | Send(from: string, recipients: seq<string>, message: Part)
    | Quit

  /** `self.connection`: never set, set to a live session, or set to a
      session that `quit()` has closed. */
  datatype Link = NoLink | Live | Closed

  /** The port handed to the constructor: only a truthy one, so an unset
      port and port 0 both leave smtplib its default. */
  function PortArg(port: Option<int>): (r: Option<int>)
    ensures r.Some? <==> port.Some? && port.value != 0
    ensures r.Some? ==> r == port
  {
    if port.Some? && port.value != 0 then port else None
  }

  /** Port 0 and no port open the same connection, with smtplib's default
      port; any other port is passed through. */
  lemma PortZeroIsDefault(server: string, p: int, ssl: bool, tls: bool, username: string, password: string)
    ensures ConnectPlan(server, Some(0), ssl, tls, username, password) == ConnectPlan(server, None, ssl, tls, username, password)
    ensures ConnectPlan(server, None, ssl, tls, username, password)[0] == Open(server, None, ssl)
    ensures p != 0 ==> ConnectPlan(server, Some(p), ssl, tls, username, password)[0] == Open(server, Some(p), ssl)
  {
  }

  /** The calls `connect()` makes, in order. */
  function ConnectPlan(server: string, port: Option<int>, ssl: bool, tls: bool, username: string, password: string): (r: seq<Command>)
    ensures |r| == 1 + (if tls then 3 else 0) + (if username != "" then 1 else 0)
    ensures r[0] == Open(server, PortArg(port), ssl)
    ensures tls ==> r[1..4] == [Ehlo, StartTls, Ehlo]
    ensures username != "" ==> r[|r| - 1] == Login(username, password)
  {
    [Open(server, PortArg(port), ssl)]
      + (if tls then [Ehlo, StartTls, Ehlo] else [])
      + (if username != "" then [Login(username, password)] else [])
  }

  /** The index of the first command of `plan` the server refuses when the
      first of them is the `start`-th command of the session log, or
      `|plan|` when it refuses none. */
  function FirstRefused(accepts: (nat, Command) -> bool, start: nat, plan: seq<Command>): (k: nat)
    ensures k <= |plan|
    ensures k < |plan| ==> !accepts(start + k, plan[k])
    decreases |plan|
  {
    if plan == [] then 0
    else if !accepts(start, plan[0]) then 0
    else 1 + FirstRefused(accepts, start + 1, plan[1..])
  }

  /** The commands before the first refusal were all accepted. */
  lemma {:induction false} AcceptedBefore(accepts: (nat, Command) -> bool, start: nat, plan: seq<Command>)
    ensures forall i :: 0 <= i < FirstRefused(accepts, start, plan) ==> accepts(start + i, plan[i])
    decreases |plan|
  {
    if plan != [] && accepts(start, plan[0]) {
      AcceptedBefore(accepts, start + 1, plan[1..]);
      forall i | 0 <= i < FirstRefused(accepts, start, plan)
        ensures accepts(start + i, plan[i])
      {
        if i > 0 {
          assert plan[i] == plan[1..][i - 1];
          assert accepts(start + 1 + (i - 1), plan[1..][i - 1]);
        }
      }
    }
  }

  /** The server refuses none of the plan exactly when it accepts each of
      its commands. */
  lemma NoneRefused(accepts: (nat, Command) -> bool, start: nat, plan: seq<Command>)
    ensures FirstRefused(accepts, start, plan) == |plan| <==> forall i :: 0 <= i < |plan| ==> accepts(start + i, plan[i])
  {
    AcceptedBefore(accepts, start, plan);
  }

  /** Once the first refusal is known not to come before the `j`-th
      command, that command decides: refused, it is the first refusal;
      accepted, the first refusal comes later. */
  lemma {:induction false} Refused(accepts: (nat, Command) -> bool, start: nat, plan: seq<Command>, j: nat)
    requires j < |plan| && FirstRefused(accepts, start, plan) >= j
    ensures accepts(start + j, plan[j]) <==> FirstRefused(accepts, start, plan) > j
    decreases j
  {
    if j > 0 {
      assert plan[j] == plan[1..][j - 1];
      Refused(accepts, start + 1, plan[1..], j - 1);
    }
  }

  /** The commands actually issued: the plan up to and including the first
      refused one. */
  function Attempted(accepts: (nat, Command) -> bool, start: nat, plan: seq<Command>): seq<Command>
  {
    var k := FirstRefused(accepts, start, plan);
    if k < |plan| then plan[..k + 1] else plan
  }

  /** The envelope recipients: the To addresses, then the Bcc addresses. */
  function Envelope(o: Outgoing): (r: seq<string>)
    ensures |r| == |RecipientList(o.to)| + |o.bcc|
    ensures forall a :: a in r <==> a in RecipientList(o.to) || a in o.bcc
  {
    RecipientList(o.to) + o.bcc
  }

  /** The value the SMTP sender logs: the caller's, or else the To
      addresses joined with ", ". */
  function SmtpLog(to: Recipients, log: LogValue): (r: LogValue)
    ensures LogTruthy(log) ==> r == log
    ensures !LogTruthy(log) ==> r == LogText(Join(RecipientList(to), ", "))
  {
    if LogTruthy(log) then log else LogText(Join(RecipientList(to), ", "))
  }

  /** Without a log value of its own, the SMTP sender logs exactly the To
      header of the message it sends. */
  lemma SmtpLogIsToHeader(to: Recipients, log: LogValue)
    requires !LogTruthy(log)
    ensures SmtpLog(to, log) == LogText(ToHeader(to))
  {
    ToHeaderJoins(to);
  }

  class SmtpSender {
    const server: string
    const username: string
    const password: string
    const port: Option<int>
    const useSsl: bool
    const useTls: bool
    /** The server's verdict on the n-th command of the session log. */
    const accepts: (nat, Command) -> bool
    var link: Link
    /** Every command issued, in order. */
    var sent: seq<Command>
    var journal: seq<LogLine>

    constructor (server: string, username: string, password: string, port: Option<int>, useSsl: bool, useTls: bool,
                 accepts: (nat, Command) -> bool)
      ensures this.server == server && this.username == username && this.password == password
      ensures this.port == port && this.useSsl == useSsl && this.useTls == useTls && this.accepts == accepts
      ensures link == NoLink && sent == [] && journal == []
    {
      this.server := server;
      this.username := username;
      this.password := password;
      this.port := port;
      this.useSsl := useSsl;
      this.useTls := useTls;
      this.accepts := accepts;
      link := NoLink;
      sent := [];
      journal := [];
    }

    function Plan(): seq<Command>
    {
      ConnectPlan(server, port, useSsl, useTls, username, password)
    }

    /** One call into smtplib: the command goes on the wire and the server
        answers. */
    method Issue(c: Command) returns (ok: bool)
      modifies this
      ensures sent == old(sent) + [c] && ok == accepts(|old(sent)|, c)
      ensures link == old(link) && journal == old(journal)
    {
      ok := accepts(|sent|, c);
      sent := sent + [c];
    }

    /** `connect()`: open, then EHLO, STARTTLS, EHLO when TLS is asked for,
        then LOGIN when a username is set. The first refusal raises and
        stops the sequence; the connection is stored only when every step
        succeeded. */
    method Connect() returns (r: Result<(), Exc>)
      modifies this
      ensures sent == old(sent) + Attempted(accepts, |old(sent)|, Plan())
      ensures r.Ok? <==> FirstRefused(accepts, |old(sent)|, Plan()) == |Plan()|
      ensures r.Ok? ==> link == Live
      ensures r.Err? ==> r.error == SmtpError && link == old(link)
      ensures journal == old(journal)
    {
      ghost var plan := Plan();
      var open := Open(server, PortArg(port), useSsl);
      assert plan[0] == open;
      var ok := Step(open, old(sent), plan, 0);
      if !ok {
        return Err(SmtpError);
      }
      ghost var done := 1;
      if useTls {
        assert plan[1] == Ehlo && plan[2] == StartTls && plan[3] == Ehlo;
        ok := Step(Ehlo, old(sent), plan, 1);
        if !ok {
          return Err(SmtpError);
        }
        ok := Step(StartTls, old(sent), plan, 2);
        if !ok {
          return Err(SmtpError);
        }
        ok := Step(Ehlo, old(sent), plan, 3);
        if !ok {
          return Err(SmtpError);
        }
        done := 4;
      }
      if username != "" {
        assert plan[done] == Login(username, password);
        ok := Step(Login(username, password), old(sent), plan, done);
        if !ok {
          return Err(SmtpError);
        }
        done := done + 1;
      }
      assert done == |plan| && plan[..done] == plan;
      link := Live;
      return Ok(());
    }

    /** One step of `connect()`: the `done`-th command of the plan, issued
        when none of the earlier ones was refused. */
    method Step(c: Command, ghost before: seq<Command>, ghost plan: seq<Command>, ghost done: nat) returns (ok: bool)
      requires done < |plan| && plan[done] == c
      requires sent == before + plan[..done] && FirstRefused(accepts, |before|, plan) >= done
      modifies this
      ensures sent == before + plan[..done + 1]
      ensures link == old(link) && journal == old(journal)
      ensures ok <==> FirstRefused(accepts, |before|, plan) > done
    {
      ok := Issue(c);
      Refused(accepts, |before|, plan, done);
      assert plan[..done + 1] == plan[..done] + [c];
    }

    /** `close()`: QUIT on the stored connection. With none stored the call
        raises AttributeError; on a connection already closed smtplib
        raises because it is disconnected. */
    method Close() returns (r: Result<(), Exc>)
      modifies this
      ensures old(link) == NoLink ==> r == Err(AttributeError) && sent == old(sent)
      ensures old(link) == Closed ==> r == Err(SmtpError) && sent == old(sent)
      ensures old(link) == Live ==> r == Ok(()) && sent == old(sent) + [Quit]
      ensures link == (if old(link) == NoLink then NoLink else Closed)
      ensures journal == old(journal)
    {
      if link == NoLink {
        return Err(AttributeError);
      }
      if link == Closed {
        return Err(SmtpError);
      }
      var _ := Issue(Quit);
      link := Closed;
      return Ok(());
    }

    /** `send_mail(...)`: True when the message was built and the live
        connection accepted it for the To then Bcc recipients; False, after
        logging the failure, when building raises, when there is no live
        connection, or when the server refuses. */
    method SendMail(lib: Lib, o: Outgoing, log: LogValue) returns (ok: bool)
      modifies this
      ensures var msg := MessageFor(lib, o.(to := Addresses(RecipientList(o.to))));
        var attempted := msg.Ok? && old(link) == Live;
        && sent == old(sent) + (if attempted then [Send(o.from, Envelope(o), msg.value)] else [])
        && ok == (attempted && accepts(|old(sent)|, Send(o.from, Envelope(o), msg.value)))
      ensures journal == old(journal) + [if ok then SendOk(SmtpLog(o.to, log)) else SendFail(SmtpLog(o.to, log))]
      ensures link == old(link)
    {
      var to := RecipientList(o.to);
      var recipients: seq<string> := [];
      recipients := recipients + to;
      if o.bcc != [] {
        recipients := recipients + o.bcc;
      }
      assert recipients == Envelope(o);
      var logValue := log;
      if !LogTruthy(log) {
        logValue := LogText(Join(to, ", "));
      }
      var msg := CreateMessage(lib, o.(to := Addresses(to)));
      if msg.Err? || link != Live {
        journal := journal + [SendFail(logValue)];
        return false;
      }
      ok := Issue(Send(o.from, recipients, msg.value));
      journal := journal + [if ok then SendOk(logValue) else SendFail(logValue)];
    }
  }

  /** A session that connects (without TLS and login) to a server accepting
      everything, sends one message and quits puts exactly the open, the
      send and the quit on the wire, and the send succeeds. */
  method SendOnce(lib: Lib, o: Outgoing, server: string) returns (ok: bool, wire: seq<Command>)
    requires MessageFor(lib, o.(to := Addresses(RecipientList(o.to)))).Ok?
    ensures ok
    ensures wire == [Open(server, None, true),
                     Send(o.from, Envelope(o), MessageFor(lib, o.(to := Addresses(RecipientList(o.to)))).value),
                     Quit]
  {
    var s := new SmtpSender(server, "", "", None, true, false, (n: nat, c: Command) => true);
    var c := s.Connect();
    assert s.Plan() == [Open(server, None, true)];
    ok := s.SendMail(lib, o, LogText(""));
    var _ := s.Close();
    wire := s.sent;
  }
}
