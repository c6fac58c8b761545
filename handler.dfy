/** The request handler of src/handler.rs: one bounded line is read from the
    client, parsed, and answered by the default handler; `login` is accepted
    silently. */
module Handler {
  import opened Wrappers
  import opened Bytes
  import Utf8
  import opened Errors
  import opened Parser

  /** `String::from(from_utf8(tag).unwrap_or_default())`. */
  function TagText(tag: seq<byte>): (t: seq<byte>)
    ensures Utf8.Valid(tag) ==> t == tag
    ensures !Utf8.Valid(tag) ==> t == []
  {
    if Utf8.Valid(tag) then tag else []
  }

  /** `UnknownCommandHandler::handle`. */
  function UnknownCommand(c: Command): (r: Response)
    ensures r.status == BAD && r.tag == TagText(c.tag)
    ensures r.response == Of("Command '") + c.command + Of("' unknown")
  {
    NewResponse(BAD, TagText(c.tag), Of("Command '") + c.command + Of("' unknown"))
  }

  const Login: seq<byte> := [108, 111, 103, 105, 110]

  /** `LoginHandler::handle`: it asserts the verb and the argument count, so
      callers must supply both. */
  function LoginReply(c: Command): (r: Response)
    requires c.command == Login && |c.args| == 2
    ensures r.tag == TagText(c.tag)
    ensures r.status == OK <==> c.args[0] == Of("test") && c.args[1] == Of("test")
    ensures r.status == OK ==> r.response == Of("LOGIN completed.")
    ensures r.status != OK ==> r.status == NO && r.response == Of("LOGIN failed.")
  {
    if c.args[0] == Of("test") && c.args[1] == Of("test") then
      NewResponse(OK, TagText(c.tag), Of("LOGIN completed."))
    else
      NewResponse(NO, TagText(c.tag), Of("LOGIN failed."))
  }

  /** The two `Handle` implementations of this file. */
  datatype Delegate = UnknownCommandHandler | LoginHandler

  /** `RequestHandler`; its fields are private and only `new` builds it. */
  datatype RequestHandler = RequestHandler(
    bufferSize: nat,
    delegates: map<seq<byte>, Delegate>,
    defaultHandler: Delegate)

  /** `RequestHandler::new`: no delegates, `UnknownCommandHandler` as default. */
  function New(bufferSize: nat): (h: RequestHandler)
    ensures h.bufferSize == bufferSize && h.delegates == map[]
    ensures h.defaultHandler == UnknownCommandHandler
  {
    RequestHandler(bufferSize, map[], UnknownCommandHandler)
  }

  /** `take(limit).read_until(b'\n', ..)` on a stream delivering `data`: the
      bytes up to and including the first line feed, cut at `limit`. */
  function ReadLine(data: seq<byte>, limit: nat): (line: seq<byte>)
    ensures |line| <= limit && |line| <= |data| && line == data[..|line|]
    ensures forall i :: 0 <= i < |line| - 1 ==> line[i] != LF
    ensures |line| == limit || |line| == |data| || (|line| > 0 && line[|line| - 1] == LF)
    decreases limit
  {
    if limit == 0 || |data| == 0 then []
    else if data[0] == LF then [LF]
    else [data[0]] + ReadLine(data[1..], limit - 1)
  }

  const EmptyRead: string :=
    "Empty read indicates stream has been closed by client. Server side stream must also be closed."

  /** The command a line is dispatched as: the parsed command, or, for a
      parse error that is neither fatal nor ignorable, the recovered tag
      with an empty verb and no arguments. */
  function Dispatched(line: seq<byte>): Result<Command, ImapError> {
    var parsed := Parsed(line);
    if parsed.Success? then parsed
    else if ShouldPanic(parsed.error) || CanIgnore(parsed.error) then parsed
    else Success(Command(parsed.error.tag, [], []))
  }

  /** The outcome of one `handle` call and the bytes it writes. */
  datatype Reply = Reply(result: Outcome<ImapError>, written: seq<byte>)

  /** What `RequestHandler::handle` does when the stream delivers `data`, or
      when `read_until` reports `readError` instead. */
  function Handled(h: RequestHandler, data: seq<byte>, readError: Option<IoError>): Reply
    requires readError.Some? ==> Reported(readError.value)
  {
    if readError.Some? then Reply(Fail(Errors.New([], readError.value)), [])
    else
      var line := ReadLine(data, h.bufferSize);
      if |line| == 0 then Reply(Fail(Errors.New([], IoError(ConnectionAborted, EmptyRead))), [])
      else
        var c := Dispatched(line);
        if c.Failure? then Reply(Fail(c.error), [])
        else if c.value.command == Login then Reply(Pass, [])
        else Reply(Pass, Render(UnknownCommand(c.value)))
  }

  /** `HandleRequest::handle` for `RequestHandler`. */
  method Handle(h: RequestHandler, data: seq<byte>, readError: Option<IoError>, out: Output)
    returns (r: Outcome<ImapError>)
    requires h.defaultHandler == UnknownCommandHandler
    requires readError.Some? ==> Reported(readError.value)
    modifies out
    ensures r == Handled(h, data, readError).result
    ensures out.bytes == old(out.bytes) + Handled(h, data, readError).written
  {
    if readError.Some? {
      return Fail(Errors.New([], readError.value));
    }
    var buf := ReadLine(data, h.bufferSize);
    if |buf| == 0 {
      return Fail(Errors.New([], IoError(ConnectionAborted, EmptyRead)));
    }
    var parsed := Parser.Parse(buf);
    var command: Command;
    if parsed.Success? {
      command := parsed.value;
    } else {
      if ShouldPanic(parsed.error) {
        return Fail(parsed.error);
      }
      if CanIgnore(parsed.error) {
        return Fail(parsed.error);
      }
      command := Command(parsed.error.tag, [], []);
    }
    if command.command != Login {
      Respond(UnknownCommand(command), out);
    }
    return Pass;
  }

  /** Parsing never fails fatally, so every line read is dispatched; an
      unparseable line goes out under the tag `parse` recovered. */
  lemma DispatchedAlways(line: seq<byte>)
    ensures Dispatched(line).Success?
    ensures Parsed(line).Success? ==> Dispatched(line) == Parsed(line)
    ensures Parsed(line).Failure? ==> Dispatched(line) == Success(Command(Parsed(line).error.tag, [], []))
  {
    ParseOutcome(line);
  }

  /** A stream at its end (or a zero limit) aborts the connection, and
      nothing is written. */
  lemma EmptyReadAborts(h: RequestHandler, data: seq<byte>)
    requires |data| == 0 || h.bufferSize == 0
    ensures Handled(h, data, None).result.Fail?
    ensures ShouldPanic(Handled(h, data, None).result.error)
    ensures Handled(h, data, None).written == []
  {
  }

  /** A failing read is returned as it is, untagged, and nothing is written. */
  lemma ReadErrorReturned(h: RequestHandler, data: seq<byte>, e: IoError)
    requires Reported(e)
    ensures Handled(h, data, Some(e)) == Reply(Fail(Errors.New([], e)), [])
  {
  }

  /** A line that was read is always answered with `Ok`: nothing for
      `login`, one line from the default handler for any other verb. */
  lemma LineAnswered(h: RequestHandler, data: seq<byte>)
    requires |ReadLine(data, h.bufferSize)| > 0
    ensures var c := Dispatched(ReadLine(data, h.bufferSize));
      && Handled(h, data, None).result == Pass
      && c.Success?
      && (c.value.command == Login ==> Handled(h, data, None).written == [])
      && (c.value.command != Login ==> Handled(h, data, None).written == Render(UnknownCommand(c.value)))
  {
    DispatchedAlways(ReadLine(data, h.bufferSize));
  }

  /** A stream without a line feed within the limit is read up to the limit,
      and a short one completely. */
  lemma {:induction false} ReadLineNoFeed(data: seq<byte>, limit: nat)
    requires LF !in data[..if |data| < limit then |data| else limit]
    ensures ReadLine(data, limit) == data[..if |data| < limit then |data| else limit]
    decreases limit
  {
    if limit > 0 && |data| > 0 {
      assert data[0] == data[..if |data| < limit then |data| else limit][0];
      var n := if |data| < limit then |data| else limit;
      assert data[1..][..n - 1] == data[1..n];
      assert LF !in data[1..][..if |data| - 1 < limit - 1 then |data| - 1 else limit - 1] by {
        assert data[1..][..n - 1] == data[..n][1..];
      }
      ReadLineNoFeed(data[1..], limit - 1);
      assert data[..n] == [data[0]] + data[1..][..n - 1];
    }
  }

  /** A stream whose only line feed ends it, within the limit, is read
      completely. */
  lemma {:induction false} ReadLineThroughFeed(data: seq<byte>, limit: nat)
    requires 0 < |data| <= limit && data[|data| - 1] == LF && LF !in data[..|data| - 1]
    ensures ReadLine(data, limit) == data
    decreases limit
  {
    if |data| > 1 {
      assert data[0] == data[..|data| - 1][0];
      assert data[1..][..|data| - 2] == data[..|data| - 1][1..];
      ReadLineThroughFeed(data[1..], limit - 1);
      assert data == [data[0]] + data[1..];
    }
  }

  /** A stream without a line feed, no longer than the limit, is read
      completely. */
  lemma ReadWhole(data: seq<byte>, limit: nat)
    requires |data| <= limit && LF !in data
    ensures ReadLine(data, limit) == data
  {
    assert data[..|data|] == data;
    ReadLineNoFeed(data, limit);
  }

  /** A line without a line feed, closed by one, within the limit, is read
      completely. */
  lemma ReadFeedLine(body: seq<byte>, limit: nat)
    requires |body| < limit && LF !in body
    ensures ReadLine(body + [LF], limit) == body + [LF]
  {
    assert (body + [LF])[..|body|] == body;
    ReadLineThroughFeed(body + [LF], limit);
  }

  /** The test of src/handler.rs for an unknown verb. */
  lemma UnknownVerbExample(data: seq<byte>)
    requires data == Of("tag1 command arg1 arg2")
    ensures Handled(New(128), data, None)
         == Reply(Pass, Of("tag1 BAD Command 'command' unknown\n"))
  {
    var c := Command(Of("tag1"), Of("command"), [Of("arg1"), Of("arg2")]);
    UnknownVerbRead(data, 128);
    UnknownVerbParse(data, c);
    DispatchedAlways(data);
    UnknownVerbReply(c);
    UnknownVerbIsNotLogin(c);
    Answered(New(128), data, c);
  }

  lemma UnknownVerbIsNotLogin(c: Command)
    requires c.command == Of("command")
    ensures c.command != Login
  {
    assert |c.command| == 7;
  }

  // Each helper below states one step about the literals of the example above,
  // each in a context of its own: all together they are too costly for the solver.
  lemma UnknownVerbRead(data: seq<byte>, limit: nat)
    requires data == Of("tag1 command arg1 arg2") && limit >= 22
    ensures ReadLine(data, limit) == data && Utf8.Valid(data)
  {
    var words := [Of("tag1"), Of("command"), Of("arg1"), Of("arg2")];
    UnknownVerbJoin(data);
    assert [Of("tag1"), Of("command")] + [Of("arg1"), Of("arg2")] == words;
    UnknownVerbPieces(words);
    JoinText(words);
    ReadWhole(data, limit);
  }

  lemma UnknownVerbPieces(words: seq<seq<byte>>)
    requires words == [Of("tag1"), Of("command"), Of("arg1"), Of("arg2")]
    ensures forall i :: 0 <= i < |words| ==> Utf8.Valid(words[i]) && LF !in words[i]
  {
    forall i | 0 <= i < |words| ensures Utf8.Valid(words[i]) && LF !in words[i] {
      if i == 0 {
        AsciiWord("tag1");
      } else if i == 1 {
        AsciiWord("command");
      } else if i == 2 {
        AsciiWord("arg1");
      } else {
        AsciiWord("arg2");
      }
    }
  }

  lemma UnknownVerbParse(data: seq<byte>, c: Command)
    requires data == Of("tag1 command arg1 arg2")
    requires c == Command(Of("tag1"), Of("command"), [Of("arg1"), Of("arg2")])
    ensures Parsed(data) == Success(c)
  {
    UnknownVerbWords(Of("tag1"), Of("command"), [Of("arg1"), Of("arg2")]);
    UnknownVerbJoin(data);
    ParseWords(Of("tag1"), Of("command"), [Of("arg1"), Of("arg2")]);
    LowerCommand();
  }

  lemma LowerCommand()
    ensures Lower(DropLineFeed(Of("command"))) == Of("command")
  {
  }

  lemma UnknownVerbJoin(data: seq<byte>)
    requires data == Of("tag1 command arg1 arg2")
    ensures data == Seqs.Join([Of("tag1"), Of("command")] + [Of("arg1"), Of("arg2")], SP)
  {
    UnknownVerbHead();
    UnknownVerbLine();
    OfJoin4("tag1 command arg1 arg2", "tag1", "command", "arg1", "arg2");
    assert [Of("tag1"), Of("command")] + [Of("arg1"), Of("arg2")]
        == [Of("tag1"), Of("command"), Of("arg1"), Of("arg2")];
  }

  lemma UnknownVerbHead()
    ensures "tag1" + " " + "command" + " " == "tag1 command "
  {
  }

  lemma UnknownVerbLine()
    ensures "tag1 command " + "arg1" + " " + "arg2" == "tag1 command arg1 arg2"
  {
  }

  lemma UnknownVerbWords(tag: seq<byte>, verb: seq<byte>, args: seq<seq<byte>>)
    requires tag == Of("tag1") && verb == Of("command") && args == [Of("arg1"), Of("arg2")]
    ensures tag != [] && SP !in tag && Utf8.Valid(tag)
    ensures verb != [] && SP !in verb && Utf8.Valid(verb)
    ensures forall i :: 0 <= i < |args| ==>
      args[i] != [] && SP !in args[i] && Utf8.Valid(args[i]) && !IsLineEnd(args[i])
  {
    AsciiWord("tag1");
    AsciiWord("command");
    forall i | 0 <= i < |args|
      ensures args[i] != [] && SP !in args[i] && Utf8.Valid(args[i]) && !IsLineEnd(args[i])
    {
      if i == 0 {
        AsciiWord("arg1");
      } else {
        AsciiWord("arg2");
      }
    }
  }

  lemma UnknownVerbReply(c: Command)
    requires c == Command(Of("tag1"), Of("command"), [Of("arg1"), Of("arg2")])
    ensures Render(UnknownCommand(c)) == Of("tag1 BAD Command 'command' unknown\n")
  {
    UnknownVerbResponse(c);
    Heads();
    UnknownVerbText();
    RenderText("tag1 BAD Command 'command' unknown\n", BAD, "BAD", "tag1", "Command 'command' unknown", "tag1 BAD ");
  }

  lemma UnknownVerbResponse(c: Command)
    requires c == Command(Of("tag1"), Of("command"), [Of("arg1"), Of("arg2")])
    ensures UnknownCommand(c) == Response(BAD, Of("tag1"), Of("Command 'command' unknown"))
  {
    AsciiWord("tag1");
    UnknownVerbMessage();
  }

  lemma UnknownVerbMessage()
    ensures Of("Command '") + Of("command") + Of("' unknown") == Of("Command 'command' unknown")
  {
    OfConcat("Command '" + "command", "' unknown");
    OfConcat("Command '", "command");
    UnknownVerbChars();
  }

  lemma UnknownVerbChars()
    ensures "Command '" + "command" + "' unknown" == "Command 'command' unknown"
  {
  }

  lemma UnknownVerbText()
    ensures "tag1 BAD Command 'command' unknown\n"
         == "tag1 BAD " + "Command 'command' unknown" + "\n"
  {
  }

  /** The test of src/handler.rs for a line longer than the buffer: the
      first 16 bytes are read, parse finds no verb, and the recovered tag is
      answered as an unknown empty verb. */
  lemma OverflowExample(data: seq<byte>)
    requires data == Of("thisstringofbytesistoolong")
    ensures Handled(New(16), data, None)
         == Reply(Pass, Of("thisstringofbyte BAD Command '' unknown\n"))
  {
    var line := Of("thisstringofbyte");
    OverflowRead(data, line);
    OverflowDispatch(line);
    OverflowReply(line);
    Answered(New(16), data, Command(line, [], []));
  }

  /** A line dispatched as a verb other than `login` is answered with the
      default handler's reply. */
  lemma Answered(h: RequestHandler, data: seq<byte>, c: Command)
    requires |ReadLine(data, h.bufferSize)| > 0
    requires Dispatched(ReadLine(data, h.bufferSize)) == Success(c) && c.command != Login
    ensures Handled(h, data, None) == Reply(Pass, Render(UnknownCommand(c)))
  {
  }

  // Each helper below states one step about the literals of the example above,
  // each in a context of its own: all together they are too costly for the solver.
  lemma OverflowRead(data: seq<byte>, line: seq<byte>)
    requires data == Of("thisstringofbytesistoolong") && line == Of("thisstringofbyte")
    ensures ReadLine(data, 16) == line
  {
    OverflowLine(data, line);
    ReadLineNoFeed(data, 16);
  }

  lemma OverflowDispatch(line: seq<byte>)
    requires line == Of("thisstringofbyte")
    ensures Dispatched(line) == Success(Command(line, [], []))
  {
    AsciiWord("thisstringofbyte");
    PieceOf(line);
    ParseOutcome(line);
    DispatchedAlways(line);
  }

  lemma OverflowLine(data: seq<byte>, line: seq<byte>)
    requires data == Of("thisstringofbytesistoolong") && line == Of("thisstringofbyte")
    ensures |data| == 26 && data[..16] == line && LF !in line && SP !in line && line != []
    ensures Utf8.Valid(line)
  {
    AsciiWord("thisstringofbyte");
  }

  lemma OverflowReply(line: seq<byte>)
    requires line == Of("thisstringofbyte")
    ensures Render(UnknownCommand(Command(line, [], []))) == Of("thisstringofbyte BAD Command '' unknown\n")
  {
    OverflowResponse(line);
    Heads();
    OverflowText();
    RenderText("thisstringofbyte BAD Command '' unknown\n", BAD, "BAD", "thisstringofbyte", "Command '' unknown", "thisstringofbyte BAD ");
  }

  lemma OverflowResponse(line: seq<byte>)
    requires line == Of("thisstringofbyte")
    ensures UnknownCommand(Command(line, [], [])) == Response(BAD, line, Of("Command '' unknown"))
  {
    AsciiWord("thisstringofbyte");
    OverflowMessage();
  }

  lemma OverflowMessage()
    ensures Of("Command '") + [] + Of("' unknown") == Of("Command '' unknown")
  {
    OfConcat("Command '", "' unknown");
    assert "Command '" + "' unknown" == "Command '' unknown";
    assert Of("Command '") + [] == Of("Command '");
  }

  lemma OverflowText()
    ensures "thisstringofbyte BAD Command '' unknown\n"
         == "thisstringofbyte BAD " + "Command '' unknown" + "\n"
  {
  }

  /** The test of src/handler.rs for a successful login reply. */
  lemma LoginExample(tag: seq<byte>, test: seq<byte>)
    requires tag == Of("tag1") && test == Of("test")
    ensures Render(LoginReply(Command(tag, Login, [test, test]))) == Of("tag1 OK LOGIN completed.\n")
  {
    var reply := Response(OK, tag, Of("LOGIN completed."));
    assert LoginReply(Command(tag, Login, [test, test])) == reply by {
      Utf8.AsciiValid(tag);
    }
    assert Render(reply) == Of("tag1 OK LOGIN completed.\n") by {
      Heads();
      LoginText();
      RenderText("tag1 OK LOGIN completed.\n", OK, "OK", "tag1", "LOGIN completed.", "tag1 OK ");
    }
  }

  // The rendered text split at its head, apart from the example so that the
  // solver meets the literal alone.
  lemma LoginText()
    ensures "tag1 OK LOGIN completed.\n" == "tag1 OK " + "LOGIN completed." + "\n"
  {
  }
}
