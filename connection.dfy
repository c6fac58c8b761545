/** The session state of src/connection.rs: the context a connection keeps
    (who is logged in, which folder is selected), the events that change it,
    the writer that puts responses on the wire, and the loop that hands each
    parsed line to the handler registered under its verb. The channels and
    tasks become a sequential object: events, responses and lines are
    handed over as sequences. */
module Connection {
  import opened Wrappers
  import opened Server
  import AuthInMemory

  type User = AuthInMemory.User

  /** `Context`. */
  datatype Context = Context(currentFolder: Option<string>, user: Option<User>)

  /** `Context::default`: nobody logged in, nothing selected. */
  function Default(): (c: Context)
    ensures !IsAuthenticated(c) && !IsSelected(c)
  {
    Context(None, None)
  }

  /** `Context::of`. */
  function Of(user: Option<User>, folder: Option<string>): (c: Context)
    ensures c.user == user && c.currentFolder == folder
    ensures IsAuthenticated(c) <==> user.Some?
    ensures IsSelected(c) <==> folder.Some?
  {
    Context(folder, user)
  }

  predicate IsAuthenticated(c: Context) { c.user.Some? }

  predicate IsSelected(c: Context) { c.currentFolder.Some? }

  /** `Event`. */
  datatype Event = AUTH(user: User) | SELECT(folder: string) | UNAUTH

  /** `Request`: a parsed command and the context it was read in. The
      response and event channels are the outputs of the handlers. */
  datatype Request = Request(command: Command, context: Context)

  /** One event as the state manager applies it. */
  function Applied(ctx: Context, e: Event): (c: Context)
    ensures e.AUTH? ==> c.user == Some(e.user) && c.currentFolder == ctx.currentFolder
    ensures e.SELECT? ==> c.currentFolder == Some(e.folder) && c.user == ctx.user
    ensures e.UNAUTH? ==> c == Default()
  {
    match e
    case AUTH(u) => ctx.(user := Some(u))
    case SELECT(f) => ctx.(currentFolder := Some(f))
    case UNAUTH => Context(None, None)
  }

  /** The state manager over a sequence of events: the context, and whether
      the manager still runs. `UNAUTH` ends it, and no later event is
      applied. */
  function Managed(ctx: Context, running: bool, events: seq<Event>): (Context, bool)
    decreases |events|
  {
    if !running || events == [] then (ctx, running)
    else if events[0].UNAUTH? then (Applied(ctx, events[0]), false)
    else Managed(Applied(ctx, events[0]), true, events[1..])
  }

  /** The greeting a new connection sends. */
  const Greeting: Response := NewResponse("*", OK, "IMAP4rev2 server ready")

  /** One response as the writer sends it. */
  function Line(r: Response): string { ToString(r) + "\r\n" }

  /** The writer: every response as its `to_string()` followed by CRLF. */
  function Wire(rs: seq<Response>): string {
    if rs == [] then "" else Line(rs[0]) + Wire(rs[1..])
  }

  /** Whether the line loop reaches `lines` without panicking: every line
      it parses has no lone-quote argument; parsing stops at the first line
      that does not parse. */
  predicate Reached(lines: seq<string>) {
    lines == [] ||
    (NoLoneQuote(lines[0]) && (Parse(lines[0]).Success? ==> Reached(lines[1..])))
  }

  /** The line loop of `Connection::handle` over `lines`: a request for each
      command whose verb has a handler, in order, until a line fails to
      parse, which ends the loop with that error. */
  function Forwarded(lines: seq<string>, handlers: set<string>, ctx: Context): (r: (seq<Request>, Outcome<ParseError>))
    requires Reached(lines)
    ensures forall q :: q in r.0 ==> q.command.command in handlers && q.context == ctx
    ensures |r.0| <= |lines|
  {
    if lines == [] then ([], Pass)
    else
      var c := Parse(lines[0]);
      if c.Failure? then ([], Fail(c.error))
      else
        var rest := Forwarded(lines[1..], handlers, ctx);
        if c.value.command in handlers then ([Request(c.value, ctx)] + rest.0, rest.1)
        else rest
  }

  /** A connection: its context behind the lock, whether the state manager
      still runs (once it stops the shutdown signal has been sent), and the
      text the writer has put on the stream. */
  class Connection {
    var state: Context
    var running: bool
    var written: string

    /** `Connection::new`: a default context, the state manager running,
        and the greeting written. */
    constructor()
      ensures state == Default() && running
      ensures written == Wire([Greeting])
    {
      state := Context(None, None);
      running := true;
      written := Line(Greeting);
      assert [Greeting][1..] == [];
    }

    /** The state-manager loop: apply events in order until `UNAUTH`, which
        clears both fields and ends the loop (signalling shutdown). */
    method ManageState(events: seq<Event>)
      modifies this`state, this`running
      ensures (state, running) == Managed(old(state), old(running), events)
    {
      var i := 0;
      while i < |events| && running
        invariant 0 <= i <= |events|
        decreases |events| - i
        invariant Managed(old(state), old(running), events) == Managed(state, running, events[i..])
      {
        assert events[i..][1..] == events[i + 1..];
        match events[i] {
          case AUTH(u) =>
            state := state.(user := Some(u));
          case SELECT(f) =>
            state := state.(currentFolder := Some(f));
          case UNAUTH =>
            state := state.(currentFolder := None);
            state := state.(user := None);
            running := false;
        }
        i := i + 1;
      }
      assert i == |events| ==> events[i..] == [];
    }

    /** The writer loop: each response of a batch, then CRLF. */
    method Write(batch: seq<Response>)
      modifies this`written
      ensures written == old(written) + Wire(batch)
    {
      for i := 0 to |batch|
        invariant written == old(written) + Wire(batch[..i])
      {
        WireStep(old(written), batch, i);
        written := written + Line(batch[i]);
      }
      assert batch[..|batch|] == batch;
    }

    /** The line loop of `Connection::handle`: stop once shutdown has been
        signalled, fail on a line that does not parse, and send each command
        with a registered verb, with the current context, to its handler. */
    method HandleLines(lines: seq<string>, handlers: set<string>) returns (sent: seq<Request>, r: Outcome<ParseError>)
      requires running ==> Reached(lines)
      ensures running ==> (sent, r) == Forwarded(lines, handlers, state)
      ensures !running ==> sent == [] && r == Pass
    {
      sent := [];
      var i := 0;
      assert lines[0..] == lines;
      while i < |lines|
        invariant 0 <= i <= |lines|
        invariant running ==> Reached(lines[i..])
        invariant running ==> Forwarded(lines, handlers, state).0 == sent + Forwarded(lines[i..], handlers, state).0
        invariant running ==> Forwarded(lines, handlers, state).1 == Forwarded(lines[i..], handlers, state).1
        invariant !running ==> sent == []
      {
        if !running {
          break;
        }
        assert lines[i..][1..] == lines[i + 1..];
        var c := Parse(lines[i]);
        if c.Failure? {
          assert sent + [] == sent;
          return sent, Fail(c.error);
        }
        if c.value.command in handlers {
          sent := sent + [Request(c.value, state)];
        }
        i := i + 1;
      }
      assert running ==> lines[i..] == [] && sent + [] == sent;
      return sent, Pass;
    }
  }

  /** `UNAUTH` clears both fields and stops the manager; whatever follows is
      never applied. */
  lemma UnauthStops(ctx: Context, events: seq<Event>, rest: seq<Event>)
    ensures Managed(ctx, true, [UNAUTH] + rest) == (Default(), false)
    ensures Managed(ctx, false, events) == (ctx, false)
  {
  }

  /** The state manager over two batches of events is the manager over the
      second batch, started from where the first left off. */
  lemma {:induction false} ManagedConcat(ctx: Context, running: bool, a: seq<Event>, b: seq<Event>)
    decreases |a|
    ensures Managed(ctx, running, a + b)
         == Managed(Managed(ctx, running, a).0, Managed(ctx, running, a).1, b)
  {
    if a == [] {
      assert a + b == b;
    } else if running {
      assert (a + b)[0] == a[0];
      if !a[0].UNAUTH? {
        assert (a + b)[1..] == a[1..] + b;
        ManagedConcat(Applied(ctx, a[0]), true, a[1..], b);
      }
    }
  }

  /** Without `UNAUTH` the manager keeps running, and without `AUTH` the
      user is the one it started with. */
  lemma {:induction false} ManagedWithoutUnauth(ctx: Context, events: seq<Event>)
    requires forall i :: 0 <= i < |events| ==> !events[i].UNAUTH?
    decreases |events|
    ensures Managed(ctx, true, events).1
    ensures (forall i :: 0 <= i < |events| ==> !events[i].AUTH?) ==>
      Managed(ctx, true, events).0.user == ctx.user
  {
    if events != [] {
      assert forall i :: 0 <= i < |events| - 1 ==> events[1..][i] == events[i + 1];
      ManagedWithoutUnauth(Applied(ctx, events[0]), events[1..]);
    }
  }

  /** Without `UNAUTH`, the user afterwards is the one of the last `AUTH`
      event: later `SELECT`s leave it alone. */
  lemma {:induction false} ManagedLastAuth(ctx: Context, events: seq<Event>, j: nat)
    requires forall i :: 0 <= i < |events| ==> !events[i].UNAUTH?
    requires j < |events| && events[j].AUTH?
    requires forall k :: j < k < |events| ==> !events[k].AUTH?
    decreases |events|
    ensures Managed(ctx, true, events).0.user == Some(events[j].user)
  {
    var rest := events[1..];
    assert forall i :: 0 <= i < |rest| ==> rest[i] == events[i + 1];
    if j == 0 {
      ManagedWithoutUnauth(Applied(ctx, events[0]), rest);
    } else {
      ManagedLastAuth(Applied(ctx, events[0]), rest, j - 1);
    }
  }

  /** `SELECT` does not check for a user: a folder is selected even on an
      unauthenticated context. */
  lemma SelectUnchecked(folder: string)
    ensures Managed(Default(), true, [SELECT(folder)]) == (Of(None, Some(folder)), true)
  {
  }

  /** Writing two batches writes them one after the other. */
  lemma {:induction false} WireConcat(a: seq<Response>, b: seq<Response>)
    ensures Wire(a + b) == Wire(a) + Wire(b)
  {
    if a == [] {
      assert a + b == b;
    } else {
      assert (a + b)[0] == a[0];
      assert (a + b)[1..] == a[1..] + b;
      WireConcat(a[1..], b);
    }
  }

  /** One more response of a batch on the wire. */
  lemma WireStep(before: string, batch: seq<Response>, i: nat)
    requires i < |batch|
    ensures before + Wire(batch[..i]) + Line(batch[i]) == before + Wire(batch[..i + 1])
  {
    assert batch[..i + 1] == batch[..i] + [batch[i]];
    WireSnoc(batch[..i], batch[i]);
  }

  lemma WireSnoc(rs: seq<Response>, r: Response)
    ensures Wire(rs + [r]) == Wire(rs) + Line(r)
  {
    WireConcat(rs, [r]);
    assert [r][1..] == [];
  }

  /** The greeting on the wire. */
  lemma GreetingText()
    ensures Wire([Greeting]) == "* OK IMAP4rev2 server ready\r\n"
  {
    GreetingLine();
    GreetingPrefix();
    GreetingChars();
  }

  // The greeting's text is built up one concatenation per lemma: a single
  // equation over the whole literal costs the solver far more.
  lemma GreetingLine()
    ensures Wire([Greeting]) == "*" + " " + "OK" + " " + "IMAP4rev2 server ready" + "\r\n"
  {
    assert [Greeting][1..] == [];
  }

  lemma GreetingPrefix()
    ensures "*" + " " + "OK" + " " == "* OK "
  {
  }

  lemma GreetingChars()
    ensures "* OK " + "IMAP4rev2 server ready" + "\r\n" == "* OK IMAP4rev2 server ready\r\n"
  {
  }

  /** A line that does not parse ends the loop with nothing more sent. */
  lemma ParseFailureStops(line: string, rest: seq<string>, handlers: set<string>, ctx: Context)
    requires NoLoneQuote(line) && ' ' !in line
    ensures Reached([line] + rest)
    ensures Forwarded([line] + rest, handlers, ctx) == ([], Fail(ParseError))
  {
    ParseFailsIffNoSpace(line);
  }

  /** A command whose verb has no handler is dropped without a reply, and
      the lines after it are handled as if it were not there. */
  lemma UnregisteredDropped(line: string, rest: seq<string>, handlers: set<string>, ctx: Context)
    requires NoLoneQuote(line) && Parse(line).Success? && Parse(line).value.command !in handlers
    requires Reached(rest)
    ensures Reached([line] + rest)
    ensures Forwarded([line] + rest, handlers, ctx) == Forwarded(rest, handlers, ctx)
  {
    assert ([line] + rest)[1..] == rest;
  }

  /** A command whose verb has a handler is sent, with the context, ahead
      of whatever the later lines send. */
  lemma RegisteredSent(line: string, rest: seq<string>, handlers: set<string>, ctx: Context)
    requires NoLoneQuote(line) && Parse(line).Success? && Parse(line).value.command in handlers
    requires Reached(rest)
    ensures Reached([line] + rest)
    ensures Forwarded([line] + rest, handlers, ctx).0
         == [Request(Parse(line).value, ctx)] + Forwarded(rest, handlers, ctx).0
  {
    assert ([line] + rest)[1..] == rest;
  }
}
