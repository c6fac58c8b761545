/** The request handler of src/requests.rs and its builder: a table of
    handlers keyed by verb, a default handler, and a bounded line read
    that must be valid UTF-8. */
module Requests {
  import opened Wrappers
  import opened Bytes
  import Utf8
  import opened Errors
  import opened Parser
  import LoginHandler
  import Handler

  const DefaultBufferSize: nat := 1024

  const CapabilityVerb: seq<byte> := [99, 97, 112, 97, 98, 105, 108, 105, 116, 121]

  /** The user store a LOGIN handler authenticates against: the store
      `build` creates (holding `admin`), or one passed to `with_user_store`. */
  datatype Store = AdminStore | Supplied(id: nat)

  /** The `Handle` implementations the builder installs, and any other
      handler a caller registers (identified by `id`). */
  datatype Delegate =
    | LoginDelegate(store: Store)
    | CapabilityDelegate
    | UnknownDelegate
    | Custom(id: nat)

  /** What the handlers consult outside this file: whether a store accepts
      a user id and password, and what a caller's own handler replies. */
  datatype Env = Env(
    authenticate: (Store, seq<byte>, seq<byte>) -> bool,
    custom: (nat, Command) -> seq<Response>)

  datatype RequestHandler = RequestHandler(
    bufferSize: nat,
    delegates: map<seq<byte>, Delegate>,
    defaultHandler: Delegate)

  /** The CAPABILITY reply: an untagged capability line, then a tagged OK. */
  function Capability(c: Command): (rs: seq<Response>)
    ensures |rs| == 2 && rs[0].tag == [] && rs[1].tag == Utf8.Lossy(c.tag)
    ensures rs[0].status == OK && rs[1].status == OK
  {
    [NewResponse(OK, [], Of("CAPABILITY IMAP4rev1")),
     NewResponse(OK, Utf8.Lossy(c.tag), Of("CAPABILITY completed"))]
  }

  /** A LOGIN handler under any verb but `login` would fail its assertion. */
  predicate CanHandle(d: Delegate, c: Command) {
    d.LoginDelegate? ==> c.command == LoginHandler.LoginVerb
  }

  /** `Handle::handle` of each delegate. */
  function Apply(d: Delegate, c: Command, env: Env): seq<Response>
    requires CanHandle(d, c)
  {
    match d
    case LoginDelegate(store) =>
      LoginHandler.Handle(c, (u, p) => env.authenticate(store, u, p))
    case CapabilityDelegate => Capability(c)
    case UnknownDelegate => [Handler.UnknownCommand(c)]
    case Custom(id) => env.custom(id, c)
  }

  /** Every LOGIN handler sits under `login`, and the default is not one. */
  predicate WellFormed(h: RequestHandler) {
    && (forall k :: k in h.delegates && h.delegates[k].LoginDelegate? ==> k == LoginHandler.LoginVerb)
    && !h.defaultHandler.LoginDelegate?
  }

  /** The handler a command goes to: the one registered under its verb,
      else the default. */
  function Target(h: RequestHandler, c: Command): (d: Delegate)
    requires WellFormed(h)
    ensures c.command in h.delegates ==> d == h.delegates[c.command]
    ensures c.command !in h.delegates ==> d == h.defaultHandler
    ensures CanHandle(d, c)
  {
    if c.command in h.delegates then h.delegates[c.command] else h.defaultHandler
  }

  /** What `RequestHandlerBuilder::build` returns. */
  function Built(bufferSize: nat, handlers: map<seq<byte>, Delegate>, default: Option<Delegate>): (h: RequestHandler)
    ensures h.delegates.Keys == handlers.Keys + {LoginHandler.LoginVerb, CapabilityVerb}
    ensures LoginHandler.LoginVerb in handlers ==>
      h.delegates[LoginHandler.LoginVerb] == handlers[LoginHandler.LoginVerb]
    ensures LoginHandler.LoginVerb !in handlers ==>
      h.delegates[LoginHandler.LoginVerb] == LoginDelegate(AdminStore)
    ensures h.delegates[CapabilityVerb] == CapabilityDelegate
    ensures forall k :: k in handlers && k != LoginHandler.LoginVerb && k != CapabilityVerb ==>
      h.delegates[k] == handlers[k]
    ensures default.Some? ==> h.defaultHandler == default.value
    ensures default.None? ==> h.defaultHandler == UnknownDelegate
    ensures bufferSize > 0 ==> h.bufferSize == bufferSize
    ensures bufferSize == 0 ==> h.bufferSize == DefaultBufferSize
  {
    var withLogin :=
      if LoginHandler.LoginVerb in handlers then handlers
      else handlers[LoginHandler.LoginVerb := LoginDelegate(AdminStore)];
    var delegates := withLogin[CapabilityVerb := CapabilityDelegate];
    RequestHandler(
      if bufferSize > 0 then bufferSize else DefaultBufferSize,
      delegates,
      if default.Some? then default.value else UnknownDelegate)
  }

  /** `RequestHandlerBuilder`. The parser it carries is stateless, so only
      whether one was supplied is kept. */
  class RequestHandlerBuilder {
    var bufferSize: nat
    var parserSupplied: bool
    var handlers: map<seq<byte>, Delegate>
    var defaultHandler: Option<Delegate>

    /** `RequestHandlerBuilder::new`. */
    constructor()
      ensures bufferSize == 0 && !parserSupplied
      ensures handlers == map[] && defaultHandler == None
    {
      bufferSize := 0;
      parserSupplied := false;
      handlers := map[];
      defaultHandler := None;
    }

    /** `with_handler`: registers `handler` under `verb`, replacing any
        handler registered there before. */
    method WithHandler(verb: seq<byte>, handler: Delegate)
      modifies this
      ensures handlers == old(handlers)[verb := handler]
      ensures bufferSize == old(bufferSize) && parserSupplied == old(parserSupplied)
      ensures defaultHandler == old(defaultHandler)
    {
      handlers := handlers[verb := handler];
    }

    /** `with_default_handler`: replaces any previous default. */
    method WithDefaultHandler(handler: Delegate)
      modifies this
      ensures defaultHandler == Some(handler)
      ensures bufferSize == old(bufferSize) && parserSupplied == old(parserSupplied)
      ensures handlers == old(handlers)
    {
      defaultHandler := Some(handler);
    }

    /** `with_user_store`: a LOGIN handler over `store` under `login`. */
    method WithUserStore(store: nat)
      modifies this
      ensures handlers == old(handlers)[LoginHandler.LoginVerb := LoginDelegate(Supplied(store))]
      ensures bufferSize == old(bufferSize) && parserSupplied == old(parserSupplied)
      ensures defaultHandler == old(defaultHandler)
    {
      handlers := handlers[LoginHandler.LoginVerb := LoginDelegate(Supplied(store))];
    }

    method WithBufferSize(size: nat)
      modifies this
      ensures bufferSize == size
      ensures parserSupplied == old(parserSupplied)
      ensures handlers == old(handlers) && defaultHandler == old(defaultHandler)
    {
      bufferSize := size;
    }

    method WithParser()
      modifies this
      ensures parserSupplied
      ensures bufferSize == old(bufferSize)
      ensures handlers == old(handlers) && defaultHandler == old(defaultHandler)
    {
      parserSupplied := true;
    }

    /** `build`: adds the `admin` LOGIN handler unless one is registered,
        always registers CAPABILITY, and installs the unknown-command
        handler only when no default was set. */
    method Build() returns (h: RequestHandler)
      ensures h == Built(bufferSize, handlers, defaultHandler)
    {
      var delegates := handlers;
      if LoginHandler.LoginVerb !in delegates {
        delegates := delegates[LoginHandler.LoginVerb := LoginDelegate(AdminStore)];
      }
      delegates := delegates[CapabilityVerb := CapabilityDelegate];
      var default := defaultHandler;
      if default.None? {
        default := Some(UnknownDelegate);
      }
      var size := if bufferSize > 0 then bufferSize else DefaultBufferSize;
      h := RequestHandler(size, delegates, default.value);
    }
  }

  /** A builder whose LOGIN handlers are all under `login` and whose default
      is not one builds a handler that never trips LOGIN's assertion. */
  lemma BuiltWellFormed(bufferSize: nat, handlers: map<seq<byte>, Delegate>, default: Option<Delegate>)
    requires forall k :: k in handlers && handlers[k].LoginDelegate? ==> k == LoginHandler.LoginVerb
    requires default.Some? ==> !default.value.LoginDelegate?
    ensures WellFormed(Built(bufferSize, handlers, default))
  {
  }

  /** The bytes written for a batch of responses, one line each, in order. */
  function RenderAll(rs: seq<Response>): seq<byte>
    decreases |rs|
  {
    if |rs| == 0 then [] else RenderAll(rs[..|rs| - 1]) + Render(rs[|rs| - 1])
  }

  /** `iter().for_each(|response| response.respond(&mut output))`. */
  method RespondAll(rs: seq<Response>, out: Output)
    modifies out
    ensures out.bytes == old(out.bytes) + RenderAll(rs)
  {
    var i := 0;
    while i < |rs|
      invariant 0 <= i <= |rs|
      invariant out.bytes == old(out.bytes) + RenderAll(rs[..i])
    {
      RenderStep(old(out.bytes), rs, i);
      Respond(rs[i], out);
      i := i + 1;
    }
    assert rs[..i] == rs;
  }

  /** One more response of a batch rendered. */
  lemma RenderStep(before: seq<byte>, rs: seq<Response>, i: nat)
    requires i < |rs|
    ensures before + RenderAll(rs[..i]) + Render(rs[i]) == before + RenderAll(rs[..i + 1])
  {
    assert rs[..i + 1][..i] == rs[..i];
  }

  const NotUtf8: string := "stream did not contain valid UTF-8"

  /** The responses a dispatched command produces. */
  function Responses(h: RequestHandler, c: Command, env: Env): seq<Response>
    requires WellFormed(h)
  {
    Apply(Target(h, c), c, env)
  }

  /** What `RequestHandler::handle` does when the stream delivers `data`, or
      when `read_line` reports `readError` instead. `read_line` also fails
      when the bytes read are not valid UTF-8. */
  function Handled(h: RequestHandler, data: seq<byte>, readError: Option<IoError>, env: Env): Handler.Reply
    requires WellFormed(h)
    requires readError.Some? ==> Reported(readError.value)
  {
    if readError.Some? then Handler.Reply(Fail(Errors.New([], readError.value)), [])
    else
      var line := Handler.ReadLine(data, h.bufferSize);
      if |line| == 0 then
        Handler.Reply(Fail(Errors.New([], IoError(ConnectionAborted, Handler.EmptyRead))), [])
      else if !Utf8.Valid(line) then
        Handler.Reply(Fail(Errors.New([], IoError(InvalidData, NotUtf8))), [])
      else
        var c := Handler.Dispatched(line);
        if c.Failure? then Handler.Reply(Fail(c.error), [])
        else Handler.Reply(Pass, RenderAll(Responses(h, c.value, env)))
  }

  /** `HandleRequest::handle` for this generation's `RequestHandler`. */
  method Handle(h: RequestHandler, data: seq<byte>, readError: Option<IoError>, env: Env, out: Output)
    returns (r: Outcome<ImapError>)
    requires WellFormed(h)
    requires readError.Some? ==> Reported(readError.value)
    modifies out
    ensures r == Handled(h, data, readError, env).result
    ensures out.bytes == old(out.bytes) + Handled(h, data, readError, env).written
  {
    if readError.Some? {
      return Fail(Errors.New([], readError.value));
    }
    var buf := Handler.ReadLine(data, h.bufferSize);
    if |buf| == 0 {
      return Fail(Errors.New([], IoError(ConnectionAborted, Handler.EmptyRead)));
    }
    if !Utf8.Valid(buf) {
      return Fail(Errors.New([], IoError(InvalidData, NotUtf8)));
    }
    var parsed := Parser.Parse(buf);
    var command: Command;
    if parsed.Success? {
      command := parsed.value;
    } else {
      if ShouldPanic(parsed.error) {
        return Fail(parsed.error);
      }
      if CanIgnore(parsed.error) {
        return Fail(parsed.error);
      }
      command := Command(parsed.error.tag, [], []);
    }
    var responses := Apply(Target(h, command), command, env);
    RespondAll(responses, out);
    return Pass;
  }

  /** A read line that is valid UTF-8 is always answered with `Ok`, with the
      responses of the handler registered under the dispatched verb, or of
      the default handler when there is none. */
  lemma Dispatch(h: RequestHandler, data: seq<byte>, env: Env)
    requires WellFormed(h)
    requires |Handler.ReadLine(data, h.bufferSize)| > 0 && Utf8.Valid(Handler.ReadLine(data, h.bufferSize))
    ensures var c := Handler.Dispatched(Handler.ReadLine(data, h.bufferSize));
      && c.Success?
      && Handled(h, data, None, env).result == Pass
      && (c.value.command in h.delegates ==>
            Handled(h, data, None, env).written == RenderAll(Apply(h.delegates[c.value.command], c.value, env)))
      && (c.value.command !in h.delegates ==>
            Handled(h, data, None, env).written == RenderAll(Apply(h.defaultHandler, c.value, env)))
  {
    Handler.DispatchedAlways(Handler.ReadLine(data, h.bufferSize));
  }

  /** An empty read aborts the connection, and an ill-formed line is an
      `InvalidData` error; neither writes anything. */
  lemma ReadFailures(h: RequestHandler, data: seq<byte>, env: Env)
    requires WellFormed(h)
    ensures |Handler.ReadLine(data, h.bufferSize)| == 0 ==>
      Handled(h, data, None, env).result.Fail?
      && Handled(h, data, None, env).result.error.cause.kind == ConnectionAborted
      && Handled(h, data, None, env).written == []
    ensures var line := Handler.ReadLine(data, h.bufferSize);
      |line| > 0 && !Utf8.Valid(line) ==>
        Handled(h, data, None, env).result.Fail?
        && Handled(h, data, None, env).result.error.cause.kind == InvalidData
        && Handled(h, data, None, env).written == []
  {
  }

  /** The handler the tests of src/requests.rs build by hand. */
  function TestHandler(bufferSize: nat, delegates: map<seq<byte>, Delegate>): RequestHandler {
    RequestHandler(bufferSize, delegates, UnknownDelegate)
  }

  /** The test of src/requests.rs for an unknown verb. */
  lemma UnknownVerbExample(data: seq<byte>, env: Env)
    requires data == Of("tag1 command arg1 arg2")
    ensures Handled(TestHandler(32, map[]), data, None, env)
         == Handler.Reply(Pass, Of("tag1 BAD Command 'command' unknown\n"))
  {
    var c := Command(Of("tag1"), Of("command"), [Of("arg1"), Of("arg2")]);
    Handler.UnknownVerbRead(data, 32);
    Handler.UnknownVerbParse(data, c);
    Handler.DispatchedAlways(data);
    Handler.UnknownVerbReply(c);
    UnknownAnswers(TestHandler(32, map[]), data, c, env);
  }

  /** The test of src/requests.rs for a line longer than the buffer. */
  lemma OverflowExample(data: seq<byte>, env: Env)
    requires data == Of("thisstringofbytesistoolong")
    ensures Handled(TestHandler(16, map[]), data, None, env)
         == Handler.Reply(Pass, Of("thisstringofbyte BAD Command '' unknown\n"))
  {
    var line := Of("thisstringofbyte");
    Handler.OverflowRead(data, line);
    Handler.OverflowLine(data, line);
    Handler.OverflowDispatch(line);
    Handler.OverflowReply(line);
    UnknownAnswers(TestHandler(16, map[]), data, Command(line, [], []), env);
  }

  /** A line dispatched as a verb with no delegate is answered by the
      default unknown-command handler. */
  lemma UnknownAnswers(h: RequestHandler, data: seq<byte>, c: Command, env: Env)
    requires WellFormed(h) && h.defaultHandler == UnknownDelegate
    requires |Handler.ReadLine(data, h.bufferSize)| > 0 && Utf8.Valid(Handler.ReadLine(data, h.bufferSize))
    requires Handler.Dispatched(Handler.ReadLine(data, h.bufferSize)) == Success(c) && c.command !in h.delegates
    ensures Handled(h, data, None, env) == Handler.Reply(Pass, Render(Handler.UnknownCommand(c)))
  {
    Dispatch(h, data, env);
    var r := Handler.UnknownCommand(c);
    assert Apply(h.defaultHandler, c, env) == [r];
    assert RenderAll([r]) == [] + Render(r) by {
      assert [r][..0] == [];
    }
  }

  /** The test of src/requests.rs for CAPABILITY: the registered handler
      answers, with its two lines in order. */
  lemma CapabilityExample(data: seq<byte>, env: Env)
    requires data == Of("tag1 capability\n")
    ensures Handled(TestHandler(32, map[CapabilityVerb := CapabilityDelegate]), data, None, env)
         == Handler.Reply(Pass, Of("* OK CAPABILITY IMAP4rev1\ntag1 OK CAPABILITY completed\n"))
  {
    var c := Command(Of("tag1"), CapabilityVerb, []);
    CapabilityRead(data);
    CapabilityParse(data, c);
    var h := TestHandler(32, map[CapabilityVerb := CapabilityDelegate]);
    CapabilityTable(h);
    CapabilityDispatch(h, data, c, env);
    CapabilityReply(c);
  }

  /** A whole line that parses goes to the handler registered under its
      verb. */
  lemma RegisteredAnswers(h: RequestHandler, data: seq<byte>, c: Command, env: Env)
    requires WellFormed(h) && c.command in h.delegates
    requires Handler.ReadLine(data, h.bufferSize) == data && |data| > 0 && Utf8.Valid(data)
    requires Parsed(data) == Success(c)
    ensures Handled(h, data, None, env) == Handler.Reply(Pass, RenderAll(Apply(h.delegates[c.command], c, env)))
  {
    Handler.DispatchedAlways(data);
    Dispatch(h, data, env);
  }

  // Each helper below states one step about the literals of the example above,
  // each in a context of its own: all together they are too costly for the solver.
  lemma CapabilityDispatch(h: RequestHandler, data: seq<byte>, c: Command, env: Env)
    requires WellFormed(h) && h.bufferSize == 32
    requires CapabilityVerb in h.delegates && h.delegates[CapabilityVerb] == CapabilityDelegate
    requires c.command == CapabilityVerb
    requires Handler.ReadLine(data, 32) == data && |data| > 0 && Utf8.Valid(data)
    requires Parsed(data) == Success(c)
    ensures Handled(h, data, None, env) == Handler.Reply(Pass, RenderAll(Capability(c)))
  {
    RegisteredAnswers(h, data, c, env);
    ApplyCapability(h.delegates[c.command], c, env);
  }

  lemma ApplyCapability(d: Delegate, c: Command, env: Env)
    requires d == CapabilityDelegate
    ensures Apply(d, c, env) == Capability(c)
  {
  }

  lemma CapabilityTable(h: RequestHandler)
    requires h == TestHandler(32, map[CapabilityVerb := CapabilityDelegate])
    ensures WellFormed(h) && h.bufferSize == 32
    ensures CapabilityVerb in h.delegates && h.delegates[CapabilityVerb] == CapabilityDelegate
  {
  }

  lemma CapabilityRead(data: seq<byte>)
    requires data == Of("tag1 capability\n")
    ensures Handler.ReadLine(data, 32) == data && |data| > 0 && Utf8.Valid(data)
  {
    var words := [Of("tag1"), Of("capability")];
    CapabilityBody(data, words, Seqs.Join(words, SP));
    CapabilityPieces(words);
    ReadText(data, words);
  }

  /** Words of text joined by spaces and closed by a line feed, within the
      limit, are read completely, and are valid. */
  lemma ReadText(data: seq<byte>, words: seq<seq<byte>>)
    requires forall i :: 0 <= i < |words| ==> Utf8.Valid(words[i]) && LF !in words[i]
    requires data == Seqs.Join(words, SP) + [LF] && |data| <= 32
    ensures Handler.ReadLine(data, 32) == data && |data| > 0 && Utf8.Valid(data)
  {
    var body := Seqs.Join(words, SP);
    JoinText(words);
    Handler.ReadFeedLine(body, 32);
    Utf8.AsciiValid([LF]);
    Utf8.ValidConcat(body, [LF]);
  }

  lemma CapabilityBody(data: seq<byte>, words: seq<seq<byte>>, body: seq<byte>)
    requires data == Of("tag1 capability\n") && words == [Of("tag1"), Of("capability")]
    requires body == Seqs.Join(words, SP)
    ensures data == body + [LF]
  {
    assert words[1..] == [Of("capability")];
    assert "tag1 capability\n" == "tag1" + " " + "capability" + "\n";
    OfConcat("tag1" + " " + "capability", "\n");
    OfConcat("tag1" + " ", "capability");
    OfConcat("tag1", " ");
  }

  lemma CapabilityPieces(words: seq<seq<byte>>)
    requires words == [Of("tag1"), Of("capability")]
    ensures forall i :: 0 <= i < |words| ==> Utf8.Valid(words[i]) && LF !in words[i]
  {
    forall i | 0 <= i < |words| ensures Utf8.Valid(words[i]) && LF !in words[i] {
      if i == 0 {
        AsciiWord("tag1");
      } else {
        AsciiWord("capability");
      }
    }
  }

  lemma CapabilityParse(data: seq<byte>, c: Command)
    requires data == Of("tag1 capability\n") && c == Command(Of("tag1"), CapabilityVerb, [])
    ensures Parsed(data) == Success(c)
  {
    var tag, verb := Of("tag1"), Of("capability\n");
    AsciiWord("tag1");
    CapabilityWord(verb);
    CapabilityLowered(verb);
    CapabilityJoined(data, tag, verb);
    ParseWords(tag, verb, []);
  }

  lemma CapabilityJoined(data: seq<byte>, tag: seq<byte>, verb: seq<byte>)
    requires data == Of("tag1 capability\n") && tag == Of("tag1") && verb == Of("capability\n")
    ensures data == Seqs.Join([tag, verb] + [], SP)
  {
    assert "tag1 capability\n" == "tag1" + " " + "capability\n";
    OfConcat("tag1", " capability\n");
    OfConcat(" ", "capability\n");
    assert [tag, verb] + [] == [tag, verb];
    assert [tag, verb][1..] == [verb];
  }

  lemma CapabilityWord(verb: seq<byte>)
    requires verb == Of("capability\n")
    ensures verb != [] && SP !in verb && Utf8.Valid(verb)
  {
    AsciiText("capability\n");
  }

  lemma CapabilityLowered(verb: seq<byte>)
    requires verb == Of("capability\n")
    ensures Lower(DropLineFeed(verb)) == CapabilityVerb
  {
    assert DropLineFeed(verb) == Of("capability");
  }

  lemma CapabilityReply(c: Command)
    requires c == Command(Of("tag1"), CapabilityVerb, [])
    ensures RenderAll(Capability(c)) == Of("* OK CAPABILITY IMAP4rev1\ntag1 OK CAPABILITY completed\n")
  {
    var r0 := Response(OK, [], Of("CAPABILITY IMAP4rev1"));
    var r1 := Response(OK, Of("tag1"), Of("CAPABILITY completed"));
    CapabilityResponses(c, r0, r1);
    RenderPair(r0, r1);
    CapabilityFirstRender(r0);
    CapabilitySecondRender(r1);
    CapabilityLines();
    OfConcat("* OK CAPABILITY IMAP4rev1\n", "tag1 OK CAPABILITY completed\n");
  }

  lemma CapabilityResponses(c: Command, r0: Response, r1: Response)
    requires c == Command(Of("tag1"), CapabilityVerb, [])
    requires r0 == Response(OK, [], Of("CAPABILITY IMAP4rev1"))
    requires r1 == Response(OK, Of("tag1"), Of("CAPABILITY completed"))
    ensures Capability(c) == [r0, r1]
  {
    Utf8.AsciiValid(Of("tag1"));
    Utf8.LossyOfValid(Of("tag1"));
  }

  /** Two responses render one after the other. */
  lemma RenderPair(r0: Response, r1: Response)
    ensures RenderAll([r0, r1]) == Render(r0) + Render(r1)
  {
    assert [r0, r1][..1] == [r0];
    assert [r0][..0] == [];
    assert RenderAll([r0]) == [] + Render(r0) == Render(r0);
  }

  lemma CapabilityFirstRender(r0: Response)
    requires r0 == Response(OK, [], Of("CAPABILITY IMAP4rev1"))
    ensures Render(r0) == Of("* OK CAPABILITY IMAP4rev1\n")
  {
    CapabilityFirstLine();
    Heads();
    assert Of("*") == Star;
    RenderText("* OK CAPABILITY IMAP4rev1\n", OK, "OK", "*", "CAPABILITY IMAP4rev1", "* OK ");
  }

  lemma CapabilitySecondRender(r1: Response)
    requires r1 == Response(OK, Of("tag1"), Of("CAPABILITY completed"))
    ensures Render(r1) == Of("tag1 OK CAPABILITY completed\n")
  {
    CapabilitySecondLine();
    Heads();
    RenderText("tag1 OK CAPABILITY completed\n", OK, "OK", "tag1", "CAPABILITY completed", "tag1 OK ");
  }

  lemma CapabilityLines()
    ensures "* OK CAPABILITY IMAP4rev1\ntag1 OK CAPABILITY completed\n"
         == "* OK CAPABILITY IMAP4rev1\n" + "tag1 OK CAPABILITY completed\n"
  {
  }

  lemma CapabilityFirstLine()
    ensures "* OK CAPABILITY IMAP4rev1\n" == "* OK " + "CAPABILITY IMAP4rev1" + "\n"
  {
  }

  lemma CapabilitySecondLine()
    ensures "tag1 OK CAPABILITY completed\n" == "tag1 OK " + "CAPABILITY completed" + "\n"
  {
  }
}
