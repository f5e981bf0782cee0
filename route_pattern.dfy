/** Route templates (mailproc/mailproc.py, Mailproc.build_route_pattern).

    A template such as "<name>@test.com" is rewritten by
    `re.sub(r'(<\w+>)', r'(?P\1.+)', route)` into a regular expression and
    compiled as `^...$`. The model keeps the part of the regular-expression
    language that this rewriting produces: each `<word>` becomes a named
    group `.+`, every other character is literal text, except `.`, which the
    rewriting does not escape and which therefore matches any character but
    a newline. Matching follows Python's backtracking order: a group first
    takes as many characters as it can and gives them back one at a time;
    `$` matches at the end of the candidate or just before a final newline. */
module RoutePattern {
  import opened Base

  datatype Token = Lit(c: char) | AnyChar | Hole(name: string)

  type Pattern = seq<Token>

  type Captures = map<string, string>

  /** Why `re.compile` rejects the rewritten template. */
  datatype CompileError =
    | BadGroupName(name: string)        // a group name that is not an identifier
    | DuplicateGroupName(name: string)  // a group name used twice

  /** `\w`, restricted to ASCII. */
  predicate IsWordChar(c: char)
  {
    ('a' <= c <= 'z') || ('A' <= c <= 'Z') || ('0' <= c <= '9') || c == '_'
  }

  predicate IsWord(s: string)
  {
    |s| > 0 && forall i :: 0 <= i < |s| ==> IsWordChar(s[i])
  }

  /** Length of the run of word characters at the start of `s`. */
  function WordRun(s: string): (n: nat)
    ensures n <= |s|
    ensures forall i :: 0 <= i < n ==> IsWordChar(s[i])
    ensures n < |s| ==> !IsWordChar(s[n])
  {
    if s != [] && IsWordChar(s[0]) then 1 + WordRun(s[1..]) else 0
  }

  /** `<\w+>` matches at the start of `t` with a word of length `k`. */
  predicate ClosesAt(t: string, k: nat)
  {
    0 < k && k + 2 <= |t| && t[0] == '<' && IsWord(t[1..k + 1]) && t[k + 1] == '>'
  }

  /** Whether `<\w+>` matches at the start of `t`, and if so how long the word is. */
  function PlaceholderAt(t: string): (n: nat)
    ensures n > 0 ==> ClosesAt(t, n)
  {
    if t == [] || t[0] != '<' then 0
    else
      var n := WordRun(t[1..]);
      if n > 0 && n + 1 < |t| && t[n + 1] == '>' then n else 0
  }

  /** The regular expression `<\w+>` has at most one match at a position,
      and PlaceholderAt finds it. */
  lemma PlaceholderUnique(t: string, k: nat)
    requires ClosesAt(t, k)
    ensures PlaceholderAt(t) == k
  {
    var n := WordRun(t[1..]);
    assert t[1..][k] == t[k + 1];
  }

  /** The left-to-right scan of `re.sub(r'(<\w+>)', ...)`. */
  function Tokenize(t: string): (p: Pattern)
  {
    if t == [] then []
    else
      var n := PlaceholderAt(t);
      if n > 0 then [Hole(t[1..n + 1])] + Tokenize(t[n + 2..])
      else [if t[0] == '.' then AnyChar else Lit(t[0])] + Tokenize(t[1..])
  }

  /** The template text a token stands for. */
  function Render(p: Pattern): string
  {
    if p == [] then ""
    else
      (match p[0]
        case Lit(c) => [c]
        case AnyChar => "."
        case Hole(n) => "<" + n + ">")
      + Render(p[1..])
  }

  /** Tokenizing loses nothing: the tokens spell the template again. */
  lemma {:induction false} TokenizeRender(t: string)
    ensures Render(Tokenize(t)) == t
    decreases |t|
  {
    if t != [] {
      var n := PlaceholderAt(t);
      if n > 0 {
        TokenizeRender(t[n + 2..]);
        RenderHoleFirst(t, n);
        HoleSplit(t, n);
      } else {
        TokenizeRender(t[1..]);
        RenderCharFirst(t);
        assert t == [t[0]] + t[1..];
      }
    }
  }

  /** A template that opens with a placeholder is that placeholder
      followed by the rest. */
  lemma HoleSplit(t: string, n: nat)
    requires n + 2 <= |t| && t[0] == '<' && t[n + 1] == '>'
    ensures t == "<" + t[1..n + 1] + ">" + t[n + 2..]
  {
    var r := "<" + t[1..n + 1] + ">" + t[n + 2..];
    assert |r| == |t|;
    forall i | 0 <= i < |t| ensures r[i] == t[i] {
      if i == 0 {
      } else if i <= n {
        assert r[i] == t[1..n + 1][i - 1];
      } else if i == n + 1 {
      } else {
        assert r[i] == t[n + 2..][i - n - 2];
      }
    }
  }

  lemma RenderHoleFirst(t: string, n: nat)
    requires n > 0 && PlaceholderAt(t) == n
    ensures Render(Tokenize(t)) == "<" + t[1..n + 1] + ">" + Render(Tokenize(t[n + 2..]))
  {
    var p := Tokenize(t);
    assert p[0] == Hole(t[1..n + 1]) && p[1..] == Tokenize(t[n + 2..]);
  }

  lemma RenderCharFirst(t: string)
    requires t != [] && PlaceholderAt(t) == 0
    ensures Render(Tokenize(t)) == [t[0]] + Render(Tokenize(t[1..]))
  {
    var p := Tokenize(t);
    assert p[0] == (if t[0] == '.' then AnyChar else Lit(t[0])) && p[1..] == Tokenize(t[1..]);
  }

  /** Every placeholder of a template is named by a word: angle brackets
      around anything else stay literal text. */
  lemma {:induction false} TokenizeHoles(t: string)
    ensures forall i :: 0 <= i < |Tokenize(t)| && Tokenize(t)[i].Hole? ==> IsWord(Tokenize(t)[i].name)
    decreases |t|
  {
    if t != [] {
      var n := PlaceholderAt(t);
      if n > 0 {
        TokenizeHoles(t[n + 2..]);
        assert Tokenize(t)[0].name == t[1..n + 1];
      } else {
        TokenizeHoles(t[1..]);
      }
    }
  }

  function HoleNames(p: Pattern): set<string>
  {
    if p == [] then {}
    else (if p[0].Hole? then {p[0].name} else {}) + HoleNames(p[1..])
  }

  predicate DistinctHoles(p: Pattern)
  {
    p == [] || ((p[0].Hole? ==> p[0].name !in HoleNames(p[1..])) && DistinctHoles(p[1..]))
  }

  /** `re.compile` walks the groups from left to right and rejects the
      first name that is not an identifier or that was already used. */
  function CheckNames(p: Pattern, seen: set<string>): (r: Option<CompileError>)
    ensures r.None? ==> DistinctHoles(p) && HoleNames(p) !! seen
  {
    if p == [] then None
    else if p[0].Hole? && |p[0].name| > 0 && '0' <= p[0].name[0] <= '9' then Some(BadGroupName(p[0].name))
    else if p[0].Hole? && p[0].name in seen then Some(DuplicateGroupName(p[0].name))
    else CheckNames(p[1..], if p[0].Hole? then seen + {p[0].name} else seen)
  }

  /** Mailproc.build_route_pattern */
  function BuildRoutePattern(route: string): (r: Result<Pattern, CompileError>)
    ensures r.Ok? ==> r.value == Tokenize(route) && DistinctHoles(r.value)
    ensures r.Ok? <==> CheckNames(Tokenize(route), {}).None?
  {
    var p := Tokenize(route);
    match CheckNames(p, {})
    case None => Ok(p)
    case Some(e) => Err(e)
  }

  predicate NoNewline(s: string)
  {
    forall i :: 0 <= i < |s| ==> s[i] != '\n'
  }

  /** `re.match` of the compiled `^pattern$` against `s`, with the captures
      of the first successful path in backtracking order. */
  function MatchFrom(p: Pattern, s: string): Option<Captures>
    decreases |p|, |s| + 1
  {
    if p == [] then (if s == "" || s == "\n" then Some(map[]) else None)
    else match p[0]
      case Lit(c) => if s != [] && s[0] == c then MatchFrom(p[1..], s[1..]) else None
      case AnyChar => if s != [] && s[0] != '\n' then MatchFrom(p[1..], s[1..]) else None
      case Hole(n) => TryHole(n, p[1..], s, |s|)
  }

  /** The group `name` tries the first `k`, `k - 1`, ..., 1 characters of `s`. */
  function TryHole(name: string, rest: Pattern, s: string, k: nat): (r: Option<Captures>)
    requires k <= |s|
    ensures r.Some? ==> name in r.value && 0 < |r.value[name]| <= k && r.value[name] == s[..|r.value[name]|]
    decreases |rest| + 1, k
  {
    if k == 0 then None
    else
      match (if NoNewline(s[..k]) then MatchFrom(rest, s[k..]) else None)
      case Some(m) => Some(m[name := s[..k]])
      case None => TryHole(name, rest, s, k - 1)
  }

  /** `s` is an instance of `p` when each group takes its value in `caps`:
      literal characters match themselves, `.` any character but a newline,
      a group a non-empty newline-free value, and the end a possible final
      newline. */
  predicate Fits(p: Pattern, caps: Captures, s: string)
    decreases |p|
  {
    if p == [] then s == "" || s == "\n"
    else match p[0]
      case Lit(c) => s != [] && s[0] == c && Fits(p[1..], caps, s[1..])
      case AnyChar => s != [] && s[0] != '\n' && Fits(p[1..], caps, s[1..])
      case Hole(n) =>
        n in caps && 0 < |caps[n]| <= |s| && NoNewline(caps[n]) && s[..|caps[n]|] == caps[n]
        && Fits(p[1..], caps, s[|caps[n]|..])
  }

  /** Fits only looks at the captures of the groups of the pattern. */
  lemma {:induction false} FitsFrame(p: Pattern, caps: Captures, name: string, v: string, s: string)
    requires name !in HoleNames(p)
    ensures Fits(p, caps[name := v], s) == Fits(p, caps, s)
    decreases |p|
  {
    if p != [] {
      match p[0]
      case Lit(c) => if s != [] { FitsFrame(p[1..], caps, name, v, s[1..]); }
      case AnyChar => if s != [] { FitsFrame(p[1..], caps, name, v, s[1..]); }
      case Hole(n) =>
        if n in caps && 0 < |caps[n]| <= |s| {
          FitsFrame(p[1..], caps, name, v, s[|caps[n]|..]);
        }
    }
  }

  /** An instance binds every group of the pattern. */
  lemma {:induction false} FitsKeys(p: Pattern, caps: Captures, s: string)
    requires Fits(p, caps, s)
    ensures HoleNames(p) <= caps.Keys
    decreases |p|
  {
    if p != [] {
      match p[0]
      case Lit(c) => FitsKeys(p[1..], caps, s[1..]);
      case AnyChar => FitsKeys(p[1..], caps, s[1..]);
      case Hole(n) => FitsKeys(p[1..], caps, s[|caps[n]|..]);
    }
  }

  /** Soundness of the matcher: a match binds exactly the groups of the
      pattern, and with those values the candidate is an instance of it. */
  lemma {:induction false} MatchSound(p: Pattern, s: string)
    requires DistinctHoles(p)
    ensures MatchFrom(p, s).Some? ==> MatchFrom(p, s).value.Keys == HoleNames(p) && Fits(p, MatchFrom(p, s).value, s)
    decreases |p|, |s| + 1
  {
    if p != [] {
      match p[0]
      case Lit(c) => if s != [] { MatchSound(p[1..], s[1..]); }
      case AnyChar => if s != [] { MatchSound(p[1..], s[1..]); }
      case Hole(n) => TryHoleSound(n, p[1..], s, |s|);
    }
  }

  lemma {:induction false} TryHoleSound(name: string, rest: Pattern, s: string, k: nat)
    requires k <= |s|
    requires DistinctHoles(rest) && name !in HoleNames(rest)
    ensures var r := TryHole(name, rest, s, k);
      r.Some? ==> r.value.Keys == HoleNames([Hole(name)] + rest) && Fits([Hole(name)] + rest, r.value, s)
    decreases |rest| + 1, k
  {
    if k > 0 {
      var p := [Hole(name)] + rest;
      assert p[1..] == rest;
      if NoNewline(s[..k]) && MatchFrom(rest, s[k..]).Some? {
        var m := MatchFrom(rest, s[k..]).value;
        MatchSound(rest, s[k..]);
        FitsFrame(rest, m, name, s[..k], s[k..]);
      } else {
        TryHoleSound(name, rest, s, k - 1);
      }
    }
  }

  /** Completeness of the matcher: if some choice of group values makes the
      candidate an instance of the pattern, the matcher succeeds. */
  lemma {:induction false} MatchComplete(p: Pattern, caps: Captures, s: string)
    requires Fits(p, caps, s)
    ensures MatchFrom(p, s).Some?
    decreases |p|
  {
    if p != [] {
      match p[0]
      case Lit(c) => MatchComplete(p[1..], caps, s[1..]);
      case AnyChar => MatchComplete(p[1..], caps, s[1..]);
      case Hole(n) =>
        var k0 := |caps[n]|;
        MatchComplete(p[1..], caps, s[k0..]);
        TryHoleFinds(n, p[1..], s, |s|, k0);
    }
  }

  lemma {:induction false} TryHoleFinds(name: string, rest: Pattern, s: string, k: nat, k0: nat)
    requires 0 < k0 <= k <= |s|
    requires NoNewline(s[..k0]) && MatchFrom(rest, s[k0..]).Some?
    ensures TryHole(name, rest, s, k).Some?
    decreases k
  {
    if k > k0 && !(NoNewline(s[..k]) && MatchFrom(rest, s[k..]).Some?) {
      TryHoleFinds(name, rest, s, k - 1, k0);
    }
  }

  /** Leftmost-greedy choice: the first group of a match takes the longest
      value with which the rest of the pattern still matches. */
  lemma {:induction false} FirstHoleGreedy(name: string, rest: Pattern, s: string, k: nat, j: nat)
    requires k <= |s|
    requires TryHole(name, rest, s, k).Some?
    requires name !in HoleNames(rest) && DistinctHoles(rest)
    requires |TryHole(name, rest, s, k).value[name]| < j <= k
    ensures !(NoNewline(s[..j]) && MatchFrom(rest, s[j..]).Some?)
    decreases k
  {
    if !(NoNewline(s[..k]) && MatchFrom(rest, s[k..]).Some?) && j < k {
      FirstHoleGreedy(name, rest, s, k - 1, j);
    }
  }

  /** Substituting each capture for its placeholder, for templates without `.`. */
  function Substitute(p: Pattern, caps: Captures): string
    requires forall i :: 0 <= i < |p| ==> !p[i].AnyChar?
    requires HoleNames(p) <= caps.Keys
  {
    if p == [] then ""
    else
      (match p[0]
        case Lit(c) => [c]
        case Hole(n) => caps[n])
      + Substitute(p[1..], caps)
  }

  /** Reconstruction: for a template without `.`, a candidate fits exactly
      when it is the template with each placeholder replaced by its capture
      (followed by at most one newline), and every capture is a non-empty
      single-line string. */
  lemma {:induction false} FitsIffSubstitute(p: Pattern, caps: Captures, s: string)
    requires forall i :: 0 <= i < |p| ==> !p[i].AnyChar?
    requires HoleNames(p) <= caps.Keys
    ensures Fits(p, caps, s) <==>
      (s == Substitute(p, caps) || s == Substitute(p, caps) + "\n")
      && (forall n :: n in HoleNames(p) ==> 0 < |caps[n]| && NoNewline(caps[n]))
    decreases |p|
  {
    if p != [] {
      assert forall i :: 0 <= i < |p[1..]| ==> !p[1..][i].AnyChar? by {
        forall i | 0 <= i < |p[1..]| ensures !p[1..][i].AnyChar? { assert p[1..][i] == p[i + 1]; }
      }
      assert HoleNames(p[1..]) <= HoleNames(p);
      var sub := Substitute(p[1..], caps);
      match p[0]
      case Lit(c) =>
        if s != [] { FitsIffSubstitute(p[1..], caps, s[1..]); }
        else { FitsIffSubstitute(p[1..], caps, s); }
        SplitAt([c], s, sub);
        SplitAt([c], s, sub + "\n");
        assert [c] + sub + "\n" == [c] + (sub + "\n");
      case Hole(n) =>
        var v := caps[n];
        if |v| <= |s| { FitsIffSubstitute(p[1..], caps, s[|v|..]); }
        SplitAt(v, s, sub);
        SplitAt(v, s, sub + "\n");
        assert v + sub + "\n" == v + (sub + "\n");
        assert HoleNames(p) == {n} + HoleNames(p[1..]);
    }
  }

  /** A string is `u` followed by `w` exactly when it starts with `u` and
      the rest is `w`. */
  lemma SplitAt(u: string, s: string, w: string)
    ensures s == u + w <==> (|u| <= |s| && s[..|u|] == u && s[|u|..] == w)
  {
    if |u| <= |s| && s[..|u|] == u && s[|u|..] == w {
      assert s == s[..|u|] + s[|u|..];
    }
  }
}

/** Consequences of the matcher's semantics for concrete templates: a
    template part without `<` is literal text (or `.`), and a template with
    a single placeholder determines its capture. */
module RouteFacts {
  import opened Base
  import opened RoutePattern

  predicate Plain(u: string)
  {
    forall i :: 0 <= i < |u| ==> u[i] != '<' && u[i] != '\n'
  }

  function HoleCount(p: Pattern): nat
  {
    if p == [] then 0 else (if p[0].Hole? then 1 else 0) + HoleCount(p[1..])
  }

  /** A placeholder at the start of the template becomes the first token. */
  lemma TokenizeHoleFirst(t: string, k: nat)
    requires ClosesAt(t, k)
    ensures Tokenize(t) == [Hole(t[1..k + 1])] + Tokenize(t[k + 2..])
  {
    PlaceholderUnique(t, k);
  }

  /** Text without `<` and newlines tokenizes one token per character,
      with no placeholder, whatever follows it. */
  lemma {:induction false} PlainTokens(u: string, v: string)
    requires Plain(u)
    ensures Tokenize(u + v) == Tokenize(u) + Tokenize(v)
    ensures |Tokenize(u)| == |u| && HoleCount(Tokenize(u)) == 0 && HoleNames(Tokenize(u)) == {}
    decreases |u|
  {
    if u != [] {
      assert (u + v)[1..] == u[1..] + v;
      assert (u + v)[0] == u[0];
      PlainTokens(u[1..], v);
    } else {
      assert u + v == v;
    }
  }

  /** Plain text has one token per character and no placeholder. */
  lemma PlainNoHole(u: string)
    requires Plain(u)
    ensures |Tokenize(u)| == |u| && HoleCount(Tokenize(u)) == 0 && HoleNames(Tokenize(u)) == {}
  {
    PlainTokens(u, "");
  }

  /** Plain text followed by an instance of `q` is an instance of its
      tokens followed by `q`. */
  lemma {:induction false} PlainPrefix(u: string, q: Pattern, caps: Captures, s: string)
    requires Plain(u) && Fits(q, caps, s)
    ensures Fits(Tokenize(u) + q, caps, u + s)
    decreases |u|
  {
    if u != [] {
      PlainTokens(u, "");
      assert u + "" == u;
      PlainPrefix(u[1..], q, caps, s);
      assert (u + s)[0] == u[0] && (u + s)[1..] == u[1..] + s;
      assert Tokenize(u) == [if u[0] == '.' then AnyChar else Lit(u[0])] + Tokenize(u[1..]);
      assert (Tokenize(u) + q)[1..] == Tokenize(u[1..]) + q;
    } else {
      assert u + s == s;
      assert Tokenize(u) + q == q;
    }
  }

  /** A pattern with no placeholder fits only candidates of its own length
      (on single-line candidates). */
  lemma {:induction false} NoHoleLength(p: Pattern, caps: Captures, s: string)
    requires HoleCount(p) == 0 && NoNewline(s) && Fits(p, caps, s)
    ensures |s| == |p|
    decreases |p|
  {
    assert |s| > 0 ==> s[0] != '\n';
    if p != [] {
      NoHoleLength(p[1..], caps, s[1..]);
    }
  }

  /** With a single placeholder, the candidate determines the capture. */
  lemma {:induction false} SingleHoleUnique(p: Pattern, m1: Captures, m2: Captures, s: string)
    requires HoleCount(p) == 1 && NoNewline(s)
    requires Fits(p, m1, s) && Fits(p, m2, s)
    ensures HoleNames(p) <= m1.Keys && HoleNames(p) <= m2.Keys
    ensures forall n :: n in HoleNames(p) ==> m1[n] == m2[n]
    decreases |p|
  {
    FitsKeys(p, m1, s);
    FitsKeys(p, m2, s);
    match p[0]
    case Hole(n) =>
      NoHoleLength(p[1..], m1, s[|m1[n]|..]);
      NoHoleLength(p[1..], m2, s[|m2[n]|..]);
      assert HoleNames(p[1..]) == {} by { NoHoleNames(p[1..]); }
    case _ =>
      SingleHoleUnique(p[1..], m1, m2, s[1..]);
  }

  lemma {:induction false} NoHoleNames(p: Pattern)
    requires HoleCount(p) == 0
    ensures HoleNames(p) == {}
    decreases |p|
  {
    if p != [] { NoHoleNames(p[1..]); }
  }

  lemma {:induction false} HoleCountAppend(a: Pattern, b: Pattern)
    ensures HoleCount(a + b) == HoleCount(a) + HoleCount(b)
    decreases |a|
  {
    if a == [] {
      assert a + b == b;
    } else {
      assert (a + b)[1..] == a[1..] + b;
      HoleCountAppend(a[1..], b);
    }
  }

  /** A pattern with at most one placeholder has no duplicate names. */
  lemma {:induction false} OneHoleDistinct(p: Pattern)
    requires HoleCount(p) <= 1
    ensures DistinctHoles(p)
    decreases |p|
  {
    if p != [] {
      if p[0].Hole? {
        NoHoleNames(p[1..]);
      }
      OneHoleDistinct(p[1..]);
    }
  }

  /** A prefix without placeholders does not affect the name check. */
  lemma {:induction false} CheckNamesPlain(a: Pattern, b: Pattern, seen: set<string>)
    requires HoleCount(a) == 0
    ensures CheckNames(a + b, seen) == CheckNames(b, seen)
    decreases |a|
  {
    if a == [] {
      assert a + b == b;
    } else {
      assert (a + b)[0] == a[0] && (a + b)[1..] == a[1..] + b;
      CheckNamesPlain(a[1..], b, seen);
    }
  }

  /** A placeholder followed by any text: the placeholder is the first
      token. */
  lemma HoleFirst(w: string, v: string)
    requires IsWord(w)
    ensures Tokenize("<" + w + ">" + v) == [Hole(w)] + Tokenize(v)
  {
    var t := "<" + w + ">" + v;
    assert t[1..|w| + 1] == w && t[|w| + 2..] == v;
    TokenizeHoleFirst(t, |w|);
  }

  /** The tokens of a template with one placeholder between two pieces
      of plain text. */
  lemma OneHoleTokens(u: string, w: string, v: string)
    requires Plain(u) && IsWord(w)
    ensures Tokenize(u + ("<" + w + ">" + v)) == Tokenize(u) + [Hole(w)] + Tokenize(v)
  {
    var hole := "<" + w + ">" + v;
    assert u + ("<" + w + ">" + v) == u + hole;
    PlainTokens(u, hole);
    HoleFirst(w, v);
  }

  /** Plain text is an instance of its own tokens. */
  lemma PlainFits(v: string, caps: Captures)
    requires Plain(v)
    ensures Fits(Tokenize(v), caps, v)
  {
    PlainPrefix(v, [], caps, "");
    assert v + "" == v && Tokenize(v) + [] == Tokenize(v);
  }

  /** A single valid name passes the name check. */
  lemma OneHoleChecks(w: string, v: string)
    requires Plain(v) && IsWord(w) && !('0' <= w[0] <= '9')
    ensures CheckNames([Hole(w)] + Tokenize(v), {}) == None
  {
    PlainTokens(v, "");
    var q := [Hole(w)] + Tokenize(v);
    CheckNamesPlain(Tokenize(v), [], {w});
    assert Tokenize(v) + [] == Tokenize(v);
    assert q[0] == Hole(w) && q[1..] == Tokenize(v);
    assert {} + {w} == {w};
  }

  /** Such a template compiles: its only name is a valid one. */
  lemma OneHoleCompiles(u: string, w: string, v: string)
    requires Plain(u) && Plain(v) && IsWord(w) && !('0' <= w[0] <= '9')
    ensures BuildRoutePattern(u + ("<" + w + ">" + v)) == Ok(Tokenize(u) + [Hole(w)] + Tokenize(v))
  {
    var p := Tokenize(u) + [Hole(w)] + Tokenize(v);
    OneHoleTokens(u, w, v);
    OneHoleNames(u, w, v);
  }

  lemma OneHoleNames(u: string, w: string, v: string)
    requires Plain(u) && Plain(v) && IsWord(w) && !('0' <= w[0] <= '9')
    ensures CheckNames(Tokenize(u) + [Hole(w)] + Tokenize(v), {}) == None
  {
    var t := Tokenize(u);
    var q := [Hole(w)] + Tokenize(v);
    assert CheckNames(q, {}) == None by {
      OneHoleChecks(w, v);
    }
    assert CheckNames(t + q, {}) == CheckNames(q, {}) by {
      PlainNoHole(u);
      CheckNamesPlain(t, q, {});
    }
    assert t + [Hole(w)] + Tokenize(v) == t + q;
  }

  /** The text around a non-empty single-line value is an instance of the
      template, with the placeholder bound to that value. */
  lemma OneHoleFits(u: string, w: string, v: string, x: string)
    requires Plain(u) && Plain(v) && |x| > 0 && NoNewline(x)
    ensures Fits(Tokenize(u) + [Hole(w)] + Tokenize(v), map[w := x], u + x + v)
  {
    var caps := map[w := x];
    PlainFits(v, caps);
    assert (x + v)[..|x|] == x && (x + v)[|x|..] == v;
    assert Fits([Hole(w)] + Tokenize(v), caps, x + v);
    PlainPrefix(u, [Hole(w)] + Tokenize(v), caps, x + v);
    assert Tokenize(u) + [Hole(w)] + Tokenize(v) == Tokenize(u) + ([Hole(w)] + Tokenize(v));
    assert u + x + v == u + (x + v);
  }

  lemma NoNewlineConcat(u: string, x: string, v: string)
    requires Plain(u) && Plain(v) && NoNewline(x)
    ensures NoNewline(u + x + v)
  {
    var s := u + x + v;
    forall i | 0 <= i < |s| ensures s[i] != '\n' {
      if i < |u| { assert s[i] == u[i]; }
      else if i < |u| + |x| { assert s[i] == x[i - |u|]; }
      else { assert s[i] == v[i - |u| - |x|]; }
    }
  }

  /** For a pattern with a single placeholder, any single-line instance
      is matched, with the capture that makes it an instance. */
  lemma SingleHoleMatch(p: Pattern, w: string, x: string, s: string)
    requires HoleCount(p) == 1 && HoleNames(p) == {w} && NoNewline(s)
    requires Fits(p, map[w := x], s)
    ensures MatchFrom(p, s) == Some(map[w := x])
  {
    var caps := map[w := x];
    OneHoleDistinct(p);
    MatchComplete(p, caps, s);
    MatchSound(p, s);
    var m := MatchFrom(p, s).value;
    SingleHoleUnique(p, caps, m, s);
    assert w in HoleNames(p) && m[w] == caps[w];
    assert m.Keys == {w} == caps.Keys;
    assert m == caps;
  }

  /** The placeholder is the only group of the template's tokens. */
  lemma OneHoleShape(u: string, w: string, v: string)
    requires Plain(u) && Plain(v)
    ensures HoleCount(Tokenize(u) + [Hole(w)] + Tokenize(v)) == 1
    ensures HoleNames(Tokenize(u) + [Hole(w)] + Tokenize(v)) == {w}
  {
    PlainNoHole(u);
    PlainNoHole(v);
    var p := Tokenize(u) + [Hole(w)] + Tokenize(v);
    assert p == Tokenize(u) + ([Hole(w)] + Tokenize(v));
    HoleCountAppend(Tokenize(u), [Hole(w)] + Tokenize(v));
    HoleCountAppend([Hole(w)], Tokenize(v));
    HoleNamesAppend(Tokenize(u), [Hole(w)] + Tokenize(v));
    HoleNamesAppend([Hole(w)], Tokenize(v));
  }

  /** A template with one placeholder between two pieces of plain text
      compiles, and matches a candidate made of the same text around any
      non-empty single-line value, which the placeholder captures. */
  lemma OneHoleMatch(u: string, w: string, v: string, x: string)
    requires Plain(u) && Plain(v) && IsWord(w) && !('0' <= w[0] <= '9')
    requires |x| > 0 && NoNewline(x)
    ensures BuildRoutePattern(u + ("<" + w + ">" + v)) == Ok(Tokenize(u) + [Hole(w)] + Tokenize(v))
    ensures MatchFrom(Tokenize(u) + [Hole(w)] + Tokenize(v), u + x + v) == Some(map[w := x])
  {
    OneHoleCompiles(u, w, v);
    OneHoleFits(u, w, v, x);
    OneHoleShape(u, w, v);
    NoNewlineConcat(u, x, v);
    SingleHoleMatch(Tokenize(u) + [Hole(w)] + Tokenize(v), w, x, u + x + v);
  }

  /** Text without `<`, `.` and newlines stands only for itself: a
      candidate that does not start with it is not matched, whatever the
      rest of the pattern is. */
  lemma {:induction false} LiteralPrefixMismatch(u: string, q: Pattern, s: string)
    requires Plain(u) && forall i :: 0 <= i < |u| ==> u[i] != '.'
    requires !StartsWith(s, u)
    ensures MatchFrom(Tokenize(u) + q, s) == None
    decreases |u|
  {
    assert s[..0] == [];
    var p := Tokenize(u) + q;
    assert Tokenize(u) == [Lit(u[0])] + Tokenize(u[1..]);
    assert p[0] == Lit(u[0]) && p[1..] == Tokenize(u[1..]) + q;
    if s != [] && s[0] == u[0] {
      assert !StartsWith(s[1..], u[1..]);
      LiteralPrefixMismatch(u[1..], q, s[1..]);
    }
  }

  /** A single-placeholder template whose leading text is literal does not
      match a candidate that does not start with that text. */
  lemma OneHoleMismatch(u: string, w: string, v: string, s: string)
    requires Plain(u) && forall i :: 0 <= i < |u| ==> u[i] != '.'
    requires !StartsWith(s, u)
    ensures MatchFrom(Tokenize(u) + [Hole(w)] + Tokenize(v), s) == None
  {
    LiteralPrefixMismatch(u, [Hole(w)] + Tokenize(v), s);
    assert Tokenize(u) + [Hole(w)] + Tokenize(v) == Tokenize(u) + ([Hole(w)] + Tokenize(v));
  }

  lemma {:induction false} HoleNamesAppend(a: Pattern, b: Pattern)
    ensures HoleNames(a + b) == HoleNames(a) + HoleNames(b)
    decreases |a|
  {
    if a == [] {
      assert a + b == b;
    } else {
      assert (a + b)[1..] == a[1..] + b;
      HoleNamesAppend(a[1..], b);
    }
  }
}
