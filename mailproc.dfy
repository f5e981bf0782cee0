/** The route dispatcher (mailproc/mailproc.py, class Mailproc): two
    ordered route tables, `from` and `subject`, each a list of (compiled
    template, handler) pairs appended to by registration; a lookup takes
    the first route whose template matches; serving calls that route's
    handler with the caller's keyword arguments overlaid by the captures.

    Handlers are identified by a number; what a handler does when called
    is the `behave` parameter of the application: it returns normally
    (`None`) or raises the given exception. Every handler call is recorded,
    in order, in `calls`. */
module Dispatch {
  import opened Base
  import opened Mime
  import opened Codecs
  import opened EmailView
  import opened RoutePattern

  type Handler = nat

  /** A keyword argument: captured text, or the message passed as `mail=`. */
  datatype Arg = Text(text: string) | Mail(message: Part)

  type Kwargs = map<string, Arg>

  /** One entry of a route table: the compiled template and its handler. */
  datatype Entry = Entry(pattern: Pattern, handler: Handler)

  /** What `get_route_match` returns when a route matches. */
  datatype Match = Match(captures: Captures, handler: Handler)

  datatype Call = Call(handler: Handler, kwargs: Kwargs)

  /** What a handler does when called: None when it returns, or the
      exception it raises. */
  type Behaviour = (Handler, Kwargs) -> Option<Exc>

  /** An element of the list given to `run`: a `Message`, or any other
      object. */
  datatype Item = Message(message: Part) | Other

  /** The handler calls a piece of dispatching makes, and how it ends. */
  datatype Outcome = Outcome(calls: seq<Call>, result: Result<(), Exc>)

  /** The targets `routes_actions` is created with, in insertion order. */
  const Targets: seq<string> := ["from", "subject"]

  // ------------------------------------------------------------- lookup

  predicate Matches(e: Entry, path: string)
  {
    MatchFrom(e.pattern, path).Some?
  }

  /** `get_route_match` over one table: the captures and handler of the
      first entry whose template matches, None when none does. */
  function FirstMatch(entries: seq<Entry>, path: string): Option<Match>
    decreases |entries|
  {
    if entries == [] then None
    else if Matches(entries[0], path) then Some(Match(MatchFrom(entries[0].pattern, path).value, entries[0].handler))
    else FirstMatch(entries[1..], path)
  }

  /** The lookup finds nothing exactly when no template matches; what it
      finds is the match of the earliest matching entry. */
  lemma {:induction false} FirstMatchSpec(entries: seq<Entry>, path: string)
    ensures FirstMatch(entries, path).None? <==> forall i :: 0 <= i < |entries| ==> !Matches(entries[i], path)
    ensures FirstMatch(entries, path).Some? ==>
      exists i :: 0 <= i < |entries| && Matches(entries[i], path)
        && (forall j :: 0 <= j < i ==> !Matches(entries[j], path))
        && FirstMatch(entries, path).value == Match(MatchFrom(entries[i].pattern, path).value, entries[i].handler)
    decreases |entries|
  {
    if entries != [] && !Matches(entries[0], path) {
      FirstMatchSpec(entries[1..], path);
      assert forall i :: 1 <= i < |entries| ==> entries[i] == entries[1..][i - 1];
      if FirstMatch(entries, path).Some? {
        var i :| 0 <= i < |entries[1..]| && Matches(entries[1..][i], path)
          && (forall j :: 0 <= j < i ==> !Matches(entries[1..][j], path))
          && FirstMatch(entries[1..], path).value == Match(MatchFrom(entries[1..][i].pattern, path).value, entries[1..][i].handler);
        assert forall j :: 1 <= j < i + 1 ==> entries[j] == entries[1..][j - 1];
        assert Matches(entries[i + 1], path);
      }
    } else if entries != [] {
      assert Matches(entries[0], path);
    }
  }

  /** Registering a route later never shadows an earlier one: the new
      entry is consulted only when none of the others matches. */
  lemma {:induction false} FirstMatchAppend(entries: seq<Entry>, e: Entry, path: string)
    ensures FirstMatch(entries + [e], path)
         == if FirstMatch(entries, path).Some? then FirstMatch(entries, path)
            else if Matches(e, path) then Some(Match(MatchFrom(e.pattern, path).value, e.handler))
            else None
    decreases |entries|
  {
    if entries == [] {
      assert entries + [e] == [e];
    } else {
      assert (entries + [e])[0] == entries[0];
      assert (entries + [e])[1..] == entries[1..] + [e];
      FirstMatchAppend(entries[1..], e, path);
    }
  }

  // ----------------------------------------------------------- serving

  /** `kwargs.copy()` updated with the captures. */
  function Overlay(kwargs: Kwargs, captures: Captures): Kwargs
  {
    kwargs + map k | k in captures :: Text(captures[k])
  }

  /** The handler receives every caller argument and every capture; a
      capture wins over a caller argument of the same name. */
  lemma OverlaySpec(kwargs: Kwargs, captures: Captures)
    ensures Overlay(kwargs, captures).Keys == kwargs.Keys + captures.Keys
    ensures forall k :: k in captures ==> Overlay(kwargs, captures)[k] == Text(captures[k])
    ensures forall k :: k in kwargs && k !in captures ==> Overlay(kwargs, captures)[k] == kwargs[k]
  {
  }

  /** `serve_route(path, target, **kwargs)`: KeyError for a target that
      has no table, RouteError when no route matches, else one call of the
      matched handler, which ends as the handler does. */
  function Served(routes: map<string, seq<Entry>>, behave: Behaviour, path: string, target: string, kwargs: Kwargs): Outcome
  {
    if target !in routes then Outcome([], Err(KeyError))
    else match FirstMatch(routes[target], path)
      case None => Outcome([], Err(RouteError))
      case Some(m) =>
        var c := Call(m.handler, Overlay(kwargs, m.captures));
        Outcome([c], if behave(c.handler, c.kwargs).Some? then Err(behave(c.handler, c.kwargs).value) else Ok(()))
  }

  /** `except RouteError: logging.info(...)` */
  function Tolerant(o: Outcome): Outcome
  {
    if o.result == Err(RouteError) then Outcome(o.calls, Ok(())) else o
  }

  /** `a`, then `b` unless `a` raised. */
  function Then(a: Outcome, b: Outcome): Outcome
  {
    if a.result.Err? then a else Outcome(a.calls + b.calls, b.result)
  }

  /** `serve` over the given targets, in order. */
  function ServedAll(routes: map<string, seq<Entry>>, behave: Behaviour, path: string, targets: seq<string>, kwargs: Kwargs): Outcome
    decreases |targets|
  {
    if targets == [] then Outcome([], Ok(()))
    else Then(ServedAll(routes, behave, path, targets[..|targets| - 1], kwargs),
              Tolerant(Served(routes, behave, path, targets[|targets| - 1], kwargs)))
  }

  /** No RouteError leaves `serve`. */
  lemma {:induction false} ServeSwallows(routes: map<string, seq<Entry>>, behave: Behaviour, path: string, targets: seq<string>, kwargs: Kwargs)
    ensures ServedAll(routes, behave, path, targets, kwargs).result != Err(RouteError)
    decreases |targets|
  {
    if targets != [] {
      ServeSwallows(routes, behave, path, targets[..|targets| - 1], kwargs);
    }
  }

  /** With both tables present and handlers that return normally, `serve`
      without targets calls the first matching `from` handler, then the
      first matching `subject` handler, and returns. */
  lemma ServeEveryTarget(routes: map<string, seq<Entry>>, behave: Behaviour, path: string, kwargs: Kwargs)
    requires "from" in routes && "subject" in routes
    requires forall h, k :: behave(h, k).None?
    ensures var o := ServedAll(routes, behave, path, Targets, kwargs);
      && o.result == Ok(())
      && o.calls == CallFor(FirstMatch(routes["from"], path), kwargs) + CallFor(FirstMatch(routes["subject"], path), kwargs)
  {
    assert Targets[..1] == ["from"] && Targets[..1][..0] == [];
  }

  /** The handler call a lookup result leads to. */
  function CallFor(m: Option<Match>, kwargs: Kwargs): seq<Call>
  {
    if m.None? then [] else [Call(m.value.handler, Overlay(kwargs, m.value.captures))]
  }

  // -------------------------------------------------------------- run

  /** What `run` does with one message: serve `from` with the sender's
      bare address, then `subject` with the decoded subject, both with
      `mail=` the message, ignoring RouteError only. An absent subject
      cannot be matched against and raises TypeError; a subject that
      cannot be decoded raises what the decoding raised. */
  function Handled(routes: map<string, seq<Entry>>, behave: Behaviour, lib: Lib, m: Part): Outcome
  {
    var kwargs := map["mail" := Mail(m)];
    Then(Tolerant(Served(routes, behave, GetFromAddress(lib, m), "from", kwargs)),
         Tolerant(match GetSubject(lib, m, true)
                  case Err(e) => Outcome([], Err(e))
                  case Ok(None) => Outcome([], Err(TypeError))
                  case Ok(Some(subject)) => Served(routes, behave, subject, "subject", kwargs)))
  }

  /** What `run(mails)` does with the first elements of its list. */
  function RunAll(routes: map<string, seq<Entry>>, behave: Behaviour, lib: Lib, items: seq<Item>): Outcome
    decreases |items|
  {
    if items == [] then Outcome([], Ok(()))
    else
      Then(RunAll(routes, behave, lib, items[..|items| - 1]), Treat(routes, behave, lib, items[|items| - 1]))
  }

  /** One element of `run`'s list: a message is handled, anything else
      raises MessageInstanceError. */
  function Treat(routes: map<string, seq<Entry>>, behave: Behaviour, lib: Lib, item: Item): Outcome
  {
    if item.Message? then Handled(routes, behave, lib, item.message) else Outcome([], Err(MessageInstanceError))
  }

  lemma RunAllSnoc(routes: map<string, seq<Entry>>, behave: Behaviour, lib: Lib, items: seq<Item>, i: nat)
    requires i < |items|
    ensures RunAll(routes, behave, lib, items[..i + 1]) == Then(RunAll(routes, behave, lib, items[..i]), Treat(routes, behave, lib, items[i]))
  {
    assert items[..i + 1][..i] == items[..i];
  }

  lemma ServedAllSnoc(routes: map<string, seq<Entry>>, behave: Behaviour, path: string, targets: seq<string>, kwargs: Kwargs, i: nat)
    requires i < |targets|
    ensures ServedAll(routes, behave, path, targets[..i + 1], kwargs)
         == Then(ServedAll(routes, behave, path, targets[..i], kwargs), Tolerant(Served(routes, behave, path, targets[i], kwargs)))
  {
    assert targets[..i + 1][..i] == targets[..i];
  }

  /** Once `run` has raised, the rest of the list is not looked at. */
  lemma {:induction false} RunStops(routes: map<string, seq<Entry>>, behave: Behaviour, lib: Lib, items: seq<Item>, n: nat)
    requires n <= |items| && RunAll(routes, behave, lib, items[..n]).result.Err?
    ensures RunAll(routes, behave, lib, items) == RunAll(routes, behave, lib, items[..n])
    decreases |items| - n
  {
    if n < |items| {
      assert items[..|items| - 1][..n] == items[..n];
      RunStops(routes, behave, lib, items[..|items| - 1], n);
    } else {
      assert items[..n] == items;
    }
  }

  /** The first element that is not a message raises
      MessageInstanceError, after every message before it was fully
      dispatched, and nothing after it is dispatched. */
  lemma NotMessageStops(routes: map<string, seq<Entry>>, behave: Behaviour, lib: Lib, items: seq<Item>, i: nat)
    requires i < |items| && items[i].Other?
    requires RunAll(routes, behave, lib, items[..i]).result.Ok?
    ensures RunAll(routes, behave, lib, items) == Outcome(RunAll(routes, behave, lib, items[..i]).calls, Err(MessageInstanceError))
  {
    assert items[..i + 1][..i] == items[..i];
    assert RunAll(routes, behave, lib, items[..i + 1]).result.Err?;
    RunStops(routes, behave, lib, items, i + 1);
  }

  /** No RouteError leaves `run`. */
  lemma {:induction false} RunSwallows(routes: map<string, seq<Entry>>, behave: Behaviour, lib: Lib, items: seq<Item>)
    ensures RunAll(routes, behave, lib, items).result != Err(RouteError)
    decreases |items|
  {
    if items != [] {
      RunSwallows(routes, behave, lib, items[..|items| - 1]);
    }
  }

  /** A handler's own exception other than RouteError ends `run` with
      that exception, right after the call that raised it. */
  lemma HandlerErrorPropagates(routes: map<string, seq<Entry>>, behave: Behaviour, lib: Lib, m: Part, e: Exc)
    requires "from" in routes && e != RouteError
    requires FirstMatch(routes["from"], GetFromAddress(lib, m)).Some?
    requires var fm := FirstMatch(routes["from"], GetFromAddress(lib, m)).value;
      behave(fm.handler, Overlay(map["mail" := Mail(m)], fm.captures)) == Some(e)
    ensures RunAll(routes, behave, lib, [Message(m)]).result == Err(e)
    ensures |RunAll(routes, behave, lib, [Message(m)]).calls| == 1
  {
    assert [Message(m)][..0] == [];
  }

  /** A subject whose encoded words cannot be decoded ends `run` with the
      decoding's exception, after the `from` route was served. */
  lemma UndecodableSubject(routes: map<string, seq<Entry>>, behave: Behaviour, lib: Lib, m: Part, v: string, e: Exc)
    requires GetHeader(m.headers, "Subject") == Some(v) && lib.decodeWords(v) == Raised(e) && e != RouteError
    ensures var from := Tolerant(Served(routes, behave, GetFromAddress(lib, m), "from", map["mail" := Mail(m)]));
      RunAll(routes, behave, lib, [Message(m)]) == if from.result.Err? then from else Outcome(from.calls, Err(e))
  {
    assert [Message(m)][..0] == [];
  }

  // ------------------------------------------------------ application

  class Mailproc {
    const name: string
    const behave: Behaviour
    /** `routes_actions` */
    var routes: map<string, seq<Entry>>
    var calls: seq<Call>

    /** Only the `from` and `subject` tables exist. */
    predicate Valid()
      reads this
    {
      routes.Keys == {"from", "subject"}
    }

    constructor (name: string, behave: Behaviour)
      ensures Valid()
      ensures this.name == name && this.behave == behave
      ensures routes == map["from" := [], "subject" := []] && calls == []
    {
      this.name := name;
      this.behave := behave;
      routes := map["from" := [], "subject" := []];
      calls := [];
    }

    /** `route(rule, target)(f)`: the template is compiled first (a bad
        group name raises); the entry is appended at the end of the
        target's table, no other table changes, and `f` is returned. */
    method Route(rule: string, target: string, f: Handler) returns (r: Result<Handler, Exc>)
      requires Valid()
      modifies this
      ensures Valid() && calls == old(calls)
      ensures BuildRoutePattern(rule).Err? ==> r == Err(RegexError) && routes == old(routes)
      ensures BuildRoutePattern(rule).Ok? && target !in old(routes) ==> r == Err(KeyError) && routes == old(routes)
      ensures BuildRoutePattern(rule).Ok? && target in old(routes) ==>
        && r == Ok(f)
        && routes == old(routes)[target := old(routes)[target] + [Entry(BuildRoutePattern(rule).value, f)]]
      ensures r.Ok? <==> BuildRoutePattern(rule).Ok? && (target == "from" || target == "subject")
    {
      var pattern := BuildRoutePattern(rule);
      if pattern.Err? {
        return Err(RegexError);
      }
      if target !in routes {
        return Err(KeyError);
      }
      routes := routes[target := routes[target] + [Entry(pattern.value, f)]];
      return Ok(f);
    }

    /** `route_from(rule)(f)` */
    method RouteFrom(rule: string, f: Handler) returns (r: Result<Handler, Exc>)
      requires Valid()
      modifies this
      ensures Valid() && calls == old(calls)
      ensures BuildRoutePattern(rule).Err? ==> r == Err(RegexError) && routes == old(routes)
      ensures BuildRoutePattern(rule).Ok? ==>
        r == Ok(f) && routes == old(routes)["from" := old(routes)["from"] + [Entry(BuildRoutePattern(rule).value, f)]]
    {
      r := Route(rule, "from", f);
    }

    /** `route_subject(rule)(f)` */
    method RouteSubject(rule: string, f: Handler) returns (r: Result<Handler, Exc>)
      requires Valid()
      modifies this
      ensures Valid() && calls == old(calls)
      ensures BuildRoutePattern(rule).Err? ==> r == Err(RegexError) && routes == old(routes)
      ensures BuildRoutePattern(rule).Ok? ==>
        r == Ok(f) && routes == old(routes)["subject" := old(routes)["subject"] + [Entry(BuildRoutePattern(rule).value, f)]]
    {
      r := Route(rule, "subject", f);
    }

    /** `get_route_match(path, target)`: KeyError for a target without a
        table. */
    function GetRouteMatch(path: string, target: string): (r: Result<Option<Match>, Exc>)
      reads this
      ensures r.Err? <==> target !in routes
      ensures r.Ok? ==> r.value == FirstMatch(routes[target], path)
    {
      if target !in routes then Err(KeyError) else Ok(FirstMatch(routes[target], path))
    }

    /** `serve_route(path, target, **kwargs)` */
    method ServeRoute(path: string, target: string, kwargs: Kwargs) returns (r: Result<(), Exc>)
      modifies this
      ensures routes == old(routes)
      ensures calls == old(calls) + Served(routes, behave, path, target, kwargs).calls
      ensures r == Served(routes, behave, path, target, kwargs).result
    {
      var found := GetRouteMatch(path, target);
      if found.Err? {
        return Err(found.error);
      }
      if found.value.None? {
        return Err(RouteError);
      }
      var m := found.value.value;
      var args := Overlay(kwargs, m.captures);
      calls := calls + [Call(m.handler, args)];
      var raised := behave(m.handler, args);
      if raised.Some? {
        return Err(raised.value);
      }
      return Ok(());
    }

    /** `serve(path, in_routes, **kwargs)`: every table when `in_routes`
        is empty or None, else the tables it names, in order; RouteError
        is logged and ignored, any other exception leaves. */
    method Serve(path: string, inRoutes: seq<string>, kwargs: Kwargs) returns (r: Result<(), Exc>)
      requires Valid()
      modifies this
      ensures Valid() && routes == old(routes)
      ensures var targets := if inRoutes == [] then Targets else inRoutes;
        var o := ServedAll(routes, behave, path, targets, kwargs);
        calls == old(calls) + o.calls && r == o.result
    {
      var targets := if inRoutes == [] then Targets else inRoutes;
      var i := 0;
      while i < |targets|
        invariant 0 <= i <= |targets| && routes == old(routes)
        invariant ServedAll(routes, behave, path, targets[..i], kwargs).result.Ok?
        invariant calls == old(calls) + ServedAll(routes, behave, path, targets[..i], kwargs).calls
      {
        ghost var prev := ServedAll(routes, behave, path, targets[..i], kwargs);
        ghost var step := Tolerant(Served(routes, behave, path, targets[i], kwargs));
        ServedAllSnoc(routes, behave, path, targets, kwargs, i);
        var served := ServeRoute(path, targets[i], kwargs);
        AppendAssoc(old(calls), prev.calls, step.calls);
        if served.Err? && served.error != RouteError {
          RunOn(routes, behave, path, targets, kwargs, i + 1);
          assert ServedAll(routes, behave, path, targets, kwargs) == Outcome(prev.calls + step.calls, served);
          return served;
        }
        assert ServedAll(routes, behave, path, targets[..i + 1], kwargs) == Outcome(prev.calls + step.calls, Ok(()));
        i := i + 1;
      }
      assert targets[..i] == targets;
      return Ok(());
    }

    /** `run(mails)` */
    method Run(lib: Lib, items: seq<Item>) returns (r: Result<(), Exc>)
      requires Valid()
      modifies this
      ensures Valid() && routes == old(routes)
      ensures calls == old(calls) + RunAll(routes, behave, lib, items).calls
      ensures r == RunAll(routes, behave, lib, items).result
    {
      var i := 0;
      while i < |items|
        invariant 0 <= i <= |items| && routes == old(routes)
        invariant RunAll(routes, behave, lib, items[..i]).result.Ok?
        invariant calls == old(calls) + RunAll(routes, behave, lib, items[..i]).calls
      {
        ghost var prev := RunAll(routes, behave, lib, items[..i]);
        ghost var step := Treat(routes, behave, lib, items[i]);
        RunAllSnoc(routes, behave, lib, items, i);
        var done := HandleOne(lib, items[i]);
        if done.Err? {
          RunStops(routes, behave, lib, items, i + 1);
          assert RunAll(routes, behave, lib, items) == Outcome(prev.calls + step.calls, done);
          AppendAssoc(old(calls), prev.calls, step.calls);
          return done;
        }
        assert RunAll(routes, behave, lib, items[..i + 1]) == Outcome(prev.calls + step.calls, Ok(()));
        AppendAssoc(old(calls), prev.calls, step.calls);
        i := i + 1;
      }
      assert items[..i] == items;
      return Ok(());
    }

    /** The body of `run`'s loop for one message. */
    method HandleOne(lib: Lib, item: Item) returns (r: Result<(), Exc>)
      modifies this
      ensures routes == old(routes)
      ensures calls == old(calls) + Treat(routes, behave, lib, item).calls
      ensures r == Treat(routes, behave, lib, item).result
    {
      if item.Other? {
        return Err(MessageInstanceError);
      }
      var m := item.message;
      var kwargs := map["mail" := Mail(m)];
      var served := ServeRoute(GetFromAddress(lib, m), "from", kwargs);
      if served.Err? && served.error != RouteError {
        return served;
      }
      var subject := GetSubject(lib, m, true);
      if subject.Err? {
        if subject.error != RouteError {
          return Err(subject.error);
        }
        return Ok(());
      }
      if subject.value.None? {
        return Err(TypeError);
      }
      served := ServeRoute(subject.value.value, "subject", kwargs);
      if served.Err? && served.error != RouteError {
        return served;
      }
      return Ok(());
    }
  }

  lemma AppendAssoc(a: seq<Call>, b: seq<Call>, c: seq<Call>)
    ensures a + b + c == a + (b + c)
  {
  }

  /** Once `serve` has raised, the remaining targets are not served. */
  lemma {:induction false} RunOn(routes: map<string, seq<Entry>>, behave: Behaviour, path: string, targets: seq<string>, kwargs: Kwargs, n: nat)
    requires n <= |targets| && ServedAll(routes, behave, path, targets[..n], kwargs).result.Err?
    ensures ServedAll(routes, behave, path, targets, kwargs) == ServedAll(routes, behave, path, targets[..n], kwargs)
    decreases |targets| - n
  {
    if n < |targets| {
      assert targets[..|targets| - 1][..n] == targets[..n];
      RunOn(routes, behave, path, targets[..|targets| - 1], kwargs, n);
    } else {
      assert targets[..n] == targets;
    }
  }
}

/** The dispatching scenarios the repository's tests pin down. */
module DispatchScenarios {
  import opened Base
  import opened RouteFacts
  import opened Mime
  import opened Codecs
  import opened EmailView
  import opened RoutePattern
  import opened Dispatch

  /** A table holding one single-placeholder template matches a candidate
      made of the template's text around a single-line value, binding the
      placeholder to that value. */
  lemma OneRouteMatches(u: string, w: string, v: string, x: string, h: Handler)
    requires Plain(u) && Plain(v) && IsWord(w) && !('0' <= w[0] <= '9')
    requires |x| > 0 && NoNewline(x)
    ensures BuildRoutePattern(u + ("<" + w + ">" + v)) == Ok(Tokenize(u) + [Hole(w)] + Tokenize(v))
    ensures FirstMatch([Entry(Tokenize(u) + [Hole(w)] + Tokenize(v), h)], u + x + v) == Some(Match(map[w := x], h))
  {
    OneHoleMatch(u, w, v, x);
  }

  /** A message whose sender and subject each match a route, with handlers
      that return: `run` calls the sender's handler, then the subject's,
      each with its captures over `mail=`, and goes on. */
  lemma HandledBoth(routes: map<string, seq<Entry>>, behave: Behaviour, lib: Lib, m: Part, subject: string, m1: Match, m2: Match)
    requires "from" in routes && "subject" in routes
    requires forall h, k :: behave(h, k).None?
    requires GetSubject(lib, m, true) == Ok(Some(subject))
    requires FirstMatch(routes["from"], GetFromAddress(lib, m)) == Some(m1)
    requires FirstMatch(routes["subject"], subject) == Some(m2)
    ensures Treat(routes, behave, lib, Message(m))
      == Outcome([Call(m1.handler, Overlay(map["mail" := Mail(m)], m1.captures)),
                  Call(m2.handler, Overlay(map["mail" := Mail(m)], m2.captures))], Ok(()))
  {
  }

  /** The same, for routes with one capture each: the calls carry `mail`
      and that capture. */
  lemma HandledWith(routes: map<string, seq<Entry>>, behave: Behaviour, lib: Lib, m: Part, subject: string,
                    w1: string, x1: string, w2: string, x2: string, h1: Handler, h2: Handler)
    requires "from" in routes && "subject" in routes
    requires forall h, k :: behave(h, k).None?
    requires GetSubject(lib, m, true) == Ok(Some(subject))
    requires FirstMatch(routes["from"], GetFromAddress(lib, m)) == Some(Match(map[w1 := x1], h1))
    requires FirstMatch(routes["subject"], subject) == Some(Match(map[w2 := x2], h2))
    ensures Treat(routes, behave, lib, Message(m))
      == Outcome([Call(h1, map["mail" := Mail(m), w1 := Text(x1)]), Call(h2, map["mail" := Mail(m), w2 := Text(x2)])], Ok(()))
  {
    HandledBoth(routes, behave, lib, m, subject, Match(map[w1 := x1], h1), Match(map[w2 := x2], h2));
    OverlayOne(m, w1, x1);
    OverlayOne(m, w2, x2);
  }

  /** `run` on a one-element list treats that element. */
  lemma RunOne(routes: map<string, seq<Entry>>, behave: Behaviour, lib: Lib, i1: Item)
    ensures RunAll(routes, behave, lib, [i1]) == Treat(routes, behave, lib, i1)
  {
    assert [i1][..0] == [];
    assert [] + Treat(routes, behave, lib, i1).calls == Treat(routes, behave, lib, i1).calls;
  }

  /** `run` on two elements: the second is treated only when the first
      went through. */
  lemma RunTwo(routes: map<string, seq<Entry>>, behave: Behaviour, lib: Lib, i1: Item, i2: Item)
    requires Treat(routes, behave, lib, i1).result.Ok?
    ensures RunAll(routes, behave, lib, [i1, i2])
      == Outcome(Treat(routes, behave, lib, i1).calls + Treat(routes, behave, lib, i2).calls, Treat(routes, behave, lib, i2).result)
  {
    assert [i1, i2][..1] == [i1];
    RunOne(routes, behave, lib, i1);
  }

  /** The keyword arguments of a call made with one capture over `mail=`. */
  lemma OverlayOne(m: Part, w: string, x: string)
    ensures Overlay(map["mail" := Mail(m)], map[w := x]) == map["mail" := Mail(m), w := Text(x)]
  {
    OverlaySpec(map["mail" := Mail(m)], map[w := x]);
  }

  /** An application with a sender route and a subject route, each
      holding one template, registered in that order. */
  method TwoRoutes(u1: string, v1: string, u2: string, v2: string, w: string) returns (app: Mailproc)
    requires Plain(u1) && Plain(v1) && Plain(u2) && Plain(v2) && IsWord(w) && !('0' <= w[0] <= '9')
    ensures fresh(app) && app.Valid() && app.calls == []
    ensures forall h, k :: app.behave(h, k).None?
    ensures app.routes["from"] == [Entry(Tokenize(u1) + [Hole(w)] + Tokenize(v1), 0)]
    ensures app.routes["subject"] == [Entry(Tokenize(u2) + [Hole(w)] + Tokenize(v2), 1)]
  {
    OneHoleCompiles(u1, w, v1);
    OneHoleCompiles(u2, w, v2);
    app := new Mailproc("test_app", (h: Handler, k: Kwargs) => None);
    var _ := app.RouteFrom(u1 + ("<" + w + ">" + v1), 0);
    var _ := app.RouteSubject(u2 + ("<" + w + ">" + v2), 1);
    assert app.routes["from"] == [] + [Entry(Tokenize(u1) + [Hole(w)] + Tokenize(v1), 0)];
  }

  /** tests/test_routes.py, for any templates of its shape. The tests share
      one session-wide application; this scenario starts from empty route
      tables (the routes other test modules register on the same
      application are not carried over), so when the second test runs, a
      sender template `u1<w>v1` and a subject template `u2<w>v2` are both
      registered; the message's bare sender is `u1 x v1` and its subject
      `u2 x v2`. Each
      handler is called once, in registration order, with `w` bound to `x`
      and `mail` to the message. (The test itself is the instance
      `<name>@test.com`, `<name> email`, sender test@test.com, subject
      "test email".) */
  method RoutesTest(lib: Lib, m: Part, u1: string, v1: string, u2: string, v2: string, w: string, x: string)
    returns (r: Result<(), Exc>, calls: seq<Call>)
    requires Plain(u1) && Plain(v1) && Plain(u2) && Plain(v2)
    requires IsWord(w) && !('0' <= w[0] <= '9') && |x| > 0 && NoNewline(x)
    requires GetFromAddress(lib, m) == u1 + x + v1
    requires GetSubject(lib, m, true) == Ok(Some(u2 + x + v2))
    ensures r == Ok(())
    ensures calls == [Call(0, map["mail" := Mail(m), w := Text(x)]),
                      Call(1, map["mail" := Mail(m), w := Text(x)])]
  {
    OneRouteMatches(u1, w, v1, x, 0);
    OneRouteMatches(u2, w, v2, x, 1);
    var app := TwoRoutes(u1, v1, u2, v2, w);
    HandledBoth(app.routes, app.behave, lib, m, u2 + x + v2, Match(map[w := x], 0), Match(map[w := x], 1));
    RunOne(app.routes, app.behave, lib, Message(m));
    r := app.Run(lib, [Message(m)]);
    calls := app.calls;
    OverlayOne(m, w, x);
  }

  /** A subject table holding `a<p>b` then `c<p>d`: a subject `a y1 b`
      takes the first route. */
  lemma SubjectFirst(a: string, p: string, b: string, c: string, d: string, y1: string, h1: Handler, h2: Handler)
    requires Plain(a) && Plain(b) && IsWord(p) && !('0' <= p[0] <= '9')
    requires |y1| > 0 && NoNewline(y1)
    ensures FirstMatch([Entry(Tokenize(a) + [Hole(p)] + Tokenize(b), h1), Entry(Tokenize(c) + [Hole(p)] + Tokenize(d), h2)], a + y1 + b)
            == Some(Match(map[p := y1], h1))
  {
    OneHoleMatch(a, p, b, y1);
    TwoEntries(Entry(Tokenize(a) + [Hole(p)] + Tokenize(b), h1), Entry(Tokenize(c) + [Hole(p)] + Tokenize(d), h2), a + y1 + b);
  }

  /** In the same table, with `a` literal text, a subject `c y2 d` that
      does not start with `a` falls through to the second route. */
  lemma SubjectSecond(a: string, p: string, b: string, c: string, d: string, y2: string, h1: Handler, h2: Handler)
    requires Plain(a) && (forall i :: 0 <= i < |a| ==> a[i] != '.') && Plain(c) && Plain(d)
    requires IsWord(p) && !('0' <= p[0] <= '9')
    requires |y2| > 0 && NoNewline(y2)
    requires !StartsWith(c + y2 + d, a)
    ensures FirstMatch([Entry(Tokenize(a) + [Hole(p)] + Tokenize(b), h1), Entry(Tokenize(c) + [Hole(p)] + Tokenize(d), h2)], c + y2 + d)
            == Some(Match(map[p := y2], h2))
  {
    OneHoleMatch(c, p, d, y2);
    OneHoleMismatch(a, p, b, c + y2 + d);
    TwoEntries(Entry(Tokenize(a) + [Hole(p)] + Tokenize(b), h1), Entry(Tokenize(c) + [Hole(p)] + Tokenize(d), h2), c + y2 + d);
  }

  /** Lookup in a table of two entries. */
  lemma TwoEntries(e1: Entry, e2: Entry, s: string)
    ensures Matches(e1, s) ==> FirstMatch([e1, e2], s) == Some(Match(MatchFrom(e1.pattern, s).value, e1.handler))
    ensures !Matches(e1, s) && Matches(e2, s) ==> FirstMatch([e1, e2], s) == Some(Match(MatchFrom(e2.pattern, s).value, e2.handler))
  {
    assert [e1, e2][1..] == [e2] && [e2][1..] == [];
  }

  /** An application with one sender template and two subject templates,
      registered in that order. */
  method ThreeRoutes(uf: string, vf: string, w: string, a: string, p: string, b: string, c: string, d: string) returns (app: Mailproc)
    requires Plain(uf) && Plain(vf) && IsWord(w) && !('0' <= w[0] <= '9')
    requires Plain(a) && Plain(b) && Plain(c) && Plain(d) && IsWord(p) && !('0' <= p[0] <= '9')
    ensures fresh(app) && app.Valid() && app.calls == []
    ensures forall h, k :: app.behave(h, k).None?
    ensures app.routes["from"] == [Entry(Tokenize(uf) + [Hole(w)] + Tokenize(vf), 0)]
    ensures app.routes["subject"] == [Entry(Tokenize(a) + [Hole(p)] + Tokenize(b), 1), Entry(Tokenize(c) + [Hole(p)] + Tokenize(d), 2)]
  {
    OneHoleCompiles(uf, w, vf);
    OneHoleCompiles(a, p, b);
    OneHoleCompiles(c, p, d);
    app := new Mailproc("test_app", (h: Handler, k: Kwargs) => None);
    var _ := app.RouteFrom(uf + ("<" + w + ">" + vf), 0);
    assert app.routes["from"] == [] + [Entry(Tokenize(uf) + [Hole(w)] + Tokenize(vf), 0)];
    var _ := app.RouteSubject(a + ("<" + p + ">" + b), 1);
    assert app.routes["subject"] == [] + [Entry(Tokenize(a) + [Hole(p)] + Tokenize(b), 1)];
    var _ := app.RouteSubject(c + ("<" + p + ">" + d), 2);
  }

  /** tests/test_global.py, for any templates of its shape: a sender
      template `uf<w>vf`, then the subject templates `a<p>b` and `c<p>d`,
      with `a` literal text; two messages from the sender domain, the
      first with a subject of the first shape, the second with a subject
      of the second shape that does not start with `a`. The sender
      handler runs for both messages and each subject handler for one,
      the counts of 2, 1 and 1 that the test checks. (The test itself is
      the instance `<name>@test.mailproc.cu`, `hello <part>`,
      `this <part> subject`, subjects "hello world" and
      "this is_my subject".) */
  method GlobalTest(lib: Lib, m1: Part, m2: Part, uf: string, vf: string, w: string, x1: string, x2: string,
                    a: string, p: string, b: string, c: string, d: string, y1: string, y2: string)
    returns (r: Result<(), Exc>, calls: seq<Call>)
    requires Plain(uf) && Plain(vf) && IsWord(w) && !('0' <= w[0] <= '9')
    requires Plain(a) && (forall i :: 0 <= i < |a| ==> a[i] != '.') && Plain(b) && Plain(c) && Plain(d)
    requires IsWord(p) && !('0' <= p[0] <= '9')
    requires |x1| > 0 && NoNewline(x1) && |x2| > 0 && NoNewline(x2)
    requires |y1| > 0 && NoNewline(y1) && |y2| > 0 && NoNewline(y2)
    requires GetFromAddress(lib, m1) == uf + x1 + vf && GetFromAddress(lib, m2) == uf + x2 + vf
    requires GetSubject(lib, m1, true) == Ok(Some(a + y1 + b)) && GetSubject(lib, m2, true) == Ok(Some(c + y2 + d))
    requires !StartsWith(c + y2 + d, a)
    ensures r == Ok(())
    ensures calls == [Call(0, map["mail" := Mail(m1), w := Text(x1)]), Call(1, map["mail" := Mail(m1), p := Text(y1)]),
                      Call(0, map["mail" := Mail(m2), w := Text(x2)]), Call(2, map["mail" := Mail(m2), p := Text(y2)])]
  {
    var app := ThreeRoutes(uf, vf, w, a, p, b, c, d);
    ghost var c1 := [Call(0, map["mail" := Mail(m1), w := Text(x1)]), Call(1, map["mail" := Mail(m1), p := Text(y1)])];
    ghost var c2 := [Call(0, map["mail" := Mail(m2), w := Text(x2)]), Call(2, map["mail" := Mail(m2), p := Text(y2)])];
    assert Treat(app.routes, app.behave, lib, Message(m1)) == Outcome(c1, Ok(())) by {
      OneRouteMatches(uf, w, vf, x1, 0);
      SubjectFirst(a, p, b, c, d, y1, 1, 2);
      HandledWith(app.routes, app.behave, lib, m1, a + y1 + b, w, x1, p, y1, 0, 1);
    }
    assert Treat(app.routes, app.behave, lib, Message(m2)) == Outcome(c2, Ok(())) by {
      OneRouteMatches(uf, w, vf, x2, 0);
      SubjectSecond(a, p, b, c, d, y2, 1, 2);
      HandledWith(app.routes, app.behave, lib, m2, c + y2 + d, w, x2, p, y2, 0, 2);
    }
    RunTwo(app.routes, app.behave, lib, Message(m1), Message(m2));
    r := app.Run(lib, [Message(m1), Message(m2)]);
    calls := app.calls;
  }
}
