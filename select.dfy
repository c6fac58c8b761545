/** The SELECT handler of src/handlers/select.rs (section 6.3.2 of RFC
    9051): its validation, its fixed reply, and the request loop that checks
    validity, then authentication, then emits a SELECT event and the reply. */
module Select {
  import opened Wrappers
  import opened Server
  import opened Connection
  import Chars

  const Name: string := "SELECT"

  const Completed: string := "[READ-WRITE] SELECT completed."
  const InsufficientArguments: string := "insufficient arguments"
  const Unauthenticated: string :=
    "cannot SELECT when un-authenticated. Please authenticate using LOGIN or AUTHENTICATE."

  /** The tag the unauthenticated reply carries, whatever the request's. */
  const FixedTag: string := "a1"

  /** `validate`: any other verb is accepted; SELECT needs an argument. */
  function Validate(c: Command): (r: Outcome<ParseError>)
    ensures r.Fail? <==> c.command == Name && NumArgs(c) < 1
  {
    if c.command != Name then Pass
    else if NumArgs(c) < 1 then Fail(ParseError)
    else Pass
  }

  /** The status lines of the reply, after `* `, up to the LIST line:
      each a first word and the text after it. */
  const Words: seq<string> := ["172", "OK", "OK", "FLAGS", "OK"]
  const Texts: seq<string> := [
    "EXISTS",
    "[UIDVALIDITY 3857529045] UIDs valid",
    "[UIDNEXT 4392] Predicted next UID",
    "(\\Answered \\Flagged \\Deleted \\Seen \\Draft)",
    "[PERMANENTFLAGS (\\Deleted \\Seen \\*)] Limited"]

  function Status(i: nat): string
    requires i < 5
  {
    Words[i] + " " + Texts[i]
  }

  /** `Response::from("* " + Status(i)).unwrap()`, written out; see
      `StatusParsed`. */
  const StatusResponses: seq<Response> := [
    Response("*", None, Status(0)),
    Response("*", Some(OK), Texts[1]),
    Response("*", Some(OK), Texts[2]),
    Response("*", None, Status(3)),
    Response("*", Some(OK), Texts[4])]

  /** The LIST line for `folder`, after `* `. */
  function List(folder: string): string {
    "LIST () \"/\" " + folder
  }

  /** The reply to a selection of `folder`: five status lines, the LIST
      line, and the tagged completion. */
  function Selected(tag: string, folder: string): (rs: seq<Response>)
    ensures |rs| == 7 && rs[..5] == StatusResponses
    ensures forall i :: 0 <= i < 6 ==> rs[i].tag == "*"
    ensures rs[5] == Response("*", None, List(folder))
    ensures rs[6] == NewResponse(tag, OK, Completed)
  {
    StatusResponses + [Response("*", None, List(folder)), NewResponse(tag, OK, Completed)]
  }

  /** Each status line is what `Response::from` makes of its text, and
      prints back as that text. */
  lemma StatusParsed(i: nat, line: string)
    requires i < 5 && line == "* " + Status(i)
    ensures ResponseFrom(line) == Success(StatusResponses[i])
    ensures ToString(StatusResponses[i]) == line
  {
    if i == 0 { StatusParsed0(line); }
    else if i == 1 { StatusParsed1(line); }
    else if i == 2 { StatusParsed2(line); }
    else if i == 3 { StatusParsed3(line); }
    else { StatusParsed4(line); }
  }

  lemma StatusParsed0(line: string)
    requires line == "* " + Status(0)
    ensures ResponseFrom(line) == Success(StatusResponses[0])
    ensures ToString(StatusResponses[0]) == line
  {
    var word, text := Words[0], Texts[0];
    assert line == "* " + word + " " + text;
    UntaggedWords(line, word, text);
  }

  lemma StatusParsed1(line: string)
    requires line == "* " + Status(1)
    ensures ResponseFrom(line) == Success(StatusResponses[1])
    ensures ToString(StatusResponses[1]) == line
  {
    var word, text := Words[1], Texts[1];
    assert line == "* " + word + " " + text;
    UntaggedWords(line, word, text);
  }

  lemma StatusParsed2(line: string)
    requires line == "* " + Status(2)
    ensures ResponseFrom(line) == Success(StatusResponses[2])
    ensures ToString(StatusResponses[2]) == line
  {
    var word, text := Words[2], Texts[2];
    assert line == "* " + word + " " + text;
    UntaggedWords(line, word, text);
  }

  lemma StatusParsed3(line: string)
    requires line == "* " + Status(3)
    ensures ResponseFrom(line) == Success(StatusResponses[3])
    ensures ToString(StatusResponses[3]) == line
  {
    var word, text := Words[3], Texts[3];
    assert line == "* " + word + " " + text;
    UntaggedWords(line, word, text);
  }

  lemma StatusParsed4(line: string)
    requires line == "* " + Status(4)
    ensures ResponseFrom(line) == Success(StatusResponses[4])
    ensures ToString(StatusResponses[4]) == line
  {
    var word, text := Words[4], Texts[4];
    assert line == "* " + word + " " + text;
    UntaggedWords(line, word, text);
  }

  /** The LIST line is what `Response::from` makes of its text, for any
      folder, and prints back as that text. */
  lemma ListParsed(folder: string)
    ensures ResponseFrom("* " + List(folder)) == Success(Response("*", None, List(folder)))
    ensures ToString(Response("*", None, List(folder))) == "* " + List(folder)
  {
    var text := "() \"/\" " + folder;
    assert "LIST" + " " + text == List(folder);
    UntaggedWords("* " + List(folder), "LIST", text);
  }

  /** `HandleCommand::handle`: always the reply for INBOX. */
  function Handle(c: Command): (r: Result<seq<Response>, ParseError>)
    ensures r.Success? && r.value == Selected(c.tag, "INBOX")
  {
    Success(Selected(c.tag, "INBOX"))
  }

  /** What the request loop sends for one request: at most one event, then
      one batch of responses. */
  datatype Decision = Decision(event: Option<Event>, responses: seq<Response>)

  /** The body of the `start` loop for one request. */
  function Decide(q: Request): Decision {
    if Validate(q.command).Fail? then
      Decision(None, [NewResponse(q.command.tag, BAD, InsufficientArguments)])
    else if !IsAuthenticated(q.context) then
      Decision(None, [NewResponse(FixedTag, NO, Unauthenticated)])
    else
      var folder := Arg(q.command, 0);
      Decision(Some(SELECT(folder)), Selected(q.command.tag, folder))
  }

  /** What the loop puts on its channels, in order. */
  datatype Sent = EventSent(event: Event) | Batch(responses: seq<Response>)

  function Emitted(d: Decision): seq<Sent> {
    match d.event
    case Some(e) => [EventSent(e), Batch(d.responses)]
    case None => [Batch(d.responses)]
  }

  /** The decision for each request, in order. */
  function Decisions(qs: seq<Request>): (ds: seq<Decision>)
    ensures |ds| == |qs| && forall i :: 0 <= i < |qs| ==> ds[i] == Decide(qs[i])
  {
    seq(|qs|, i requires 0 <= i < |qs| => Decide(qs[i]))
  }

  /** What the loop sends for decisions `ds`, one after the other. */
  function Emit(ds: seq<Decision>): seq<Sent> {
    if ds == [] then [] else Emit(ds[..|ds| - 1]) + Emitted(ds[|ds| - 1])
  }

  /** Everything the loop sends for `qs`, request after request. */
  function Trace(qs: seq<Request>): seq<Sent> {
    Emit(Decisions(qs))
  }

  lemma DecisionsSnoc(qs: seq<Request>, i: nat)
    requires i < |qs|
    ensures Decisions(qs[..i + 1]) == Decisions(qs[..i]) + [Decide(qs[i])]
  {
  }

  lemma EmitSnoc(ds: seq<Decision>, d: Decision)
    ensures Emit(ds + [d]) == Emit(ds) + Emitted(d)
  {
    assert (ds + [d])[..|ds|] == ds;
  }

  /** The `start` loop over the requests that arrive. */
  method Start(requests: seq<Request>) returns (trace: seq<Sent>)
    ensures trace == Trace(requests)
  {
    trace := [];
    for i := 0 to |requests|
      invariant trace == Emit(Decisions(requests[..i]))
    {
      var d := Decide(requests[i]);
      StartStep(trace, requests, i, d);
      if d.event.Some? {
        trace := trace + [EventSent(d.event.value)];
      }
      trace := trace + [Batch(d.responses)];
    }
    assert requests[..|requests|] == requests;
  }

  /** One more request through the loop: its event, if any, then its batch. */
  lemma StartStep(trace: seq<Sent>, requests: seq<Request>, i: nat, d: Decision)
    requires i < |requests| && d == Decide(requests[i])
    requires trace == Emit(Decisions(requests[..i]))
    ensures (if d.event.Some? then trace + [EventSent(d.event.value)] else trace) + [Batch(d.responses)]
         == Emit(Decisions(requests[..i + 1]))
  {
    DecisionsSnoc(requests, i);
    EmitSnoc(Decisions(requests[..i]), d);
  }

  /** The batches of a trace, in order. */
  function Batches(s: seq<Sent>): seq<seq<Response>> {
    if s == [] then []
    else Batches(s[..|s| - 1]) + (if s[|s| - 1].Batch? then [s[|s| - 1].responses] else [])
  }

  lemma {:induction false} BatchesConcat(a: seq<Sent>, b: seq<Sent>)
    decreases |b|
    ensures Batches(a + b) == Batches(a) + Batches(b)
  {
    if b == [] {
      assert a + b == a;
    } else {
      assert (a + b)[..|a + b| - 1] == a + b[..|b| - 1];
      assert (a + b)[|a + b| - 1] == b[|b| - 1];
      BatchesConcat(a, b[..|b| - 1]);
    }
  }

  lemma EmittedParts(d: Decision)
    ensures Batches(Emitted(d)) == [d.responses]
  {
    var s := Emitted(d);
    if d.event.Some? {
      var e := EventSent(d.event.value);
      assert Batches([e]) == [] by {
        assert [e][..0] == [];
      }
      assert s[..|s| - 1] == [e];
    } else {
      assert s[..|s| - 1] == [];
    }
  }

  /** The decisions' batches are sent one per decision, in order. */
  lemma {:induction false} EmitBatches(ds: seq<Decision>)
    decreases |ds|
    ensures |Batches(Emit(ds))| == |ds|
    ensures forall i :: 0 <= i < |ds| ==> Batches(Emit(ds))[i] == ds[i].responses
  {
    if ds != [] {
      var front, d := ds[..|ds| - 1], ds[|ds| - 1];
      assert ds == front + [d];
      EmitBatches(front);
      BatchesSnoc(front, d);
      ResponsesSnoc(Batches(Emit(front)), front, d);
    }
  }

  lemma BatchesSnoc(ds: seq<Decision>, d: Decision)
    ensures Batches(Emit(ds + [d])) == Batches(Emit(ds)) + [d.responses]
  {
    EmitSnoc(ds, d);
    BatchesConcat(Emit(ds), Emitted(d));
    EmittedParts(d);
  }

  lemma ResponsesSnoc(bs: seq<seq<Response>>, ds: seq<Decision>, d: Decision)
    requires |bs| == |ds| && forall i :: 0 <= i < |ds| ==> bs[i] == ds[i].responses
    ensures |bs + [d.responses]| == |ds + [d]|
    ensures forall i :: 0 <= i < |ds + [d]| ==> (bs + [d.responses])[i] == (ds + [d])[i].responses
  {
  }

  /** Each request gets exactly one batch, in arrival order. */
  lemma OneBatchEach(qs: seq<Request>)
    ensures |Batches(Trace(qs))| == |qs|
    ensures forall i :: 0 <= i < |qs| ==> Batches(Trace(qs))[i] == Decide(qs[i]).responses
  {
    EmitBatches(Decisions(qs));
  }

  /** A request that fails validation gets exactly one BAD with its own tag,
      and no event, even when unauthenticated: validity is checked first. */
  lemma InvalidFirst(q: Request)
    requires q.command.command == Name && |q.command.args| == 0
    ensures Decide(q) == Decision(None, [NewResponse(q.command.tag, BAD, InsufficientArguments)])
  {
  }

  /** A valid request on a context with no user gets exactly one NO tagged
      `a1`, whatever its own tag, and no event. */
  lemma UnauthenticatedFixedTag(q: Request)
    requires Validate(q.command).Pass? && q.context.user.None?
    ensures Decide(q) == Decision(None, [NewResponse(FixedTag, NO, Unauthenticated)])
  {
  }

  /** A valid request on an authenticated context emits exactly one SELECT
      of its first argument; the reply's LIST line names that folder and its
      last line carries the request's tag. */
  lemma AuthenticatedSelects(q: Request)
    requires Validate(q.command).Pass? && IsAuthenticated(q.context)
    ensures Decide(q).event == Some(SELECT(Arg(q.command, 0)))
    ensures |Decide(q).responses| == 7
    ensures ToString(Decide(q).responses[5]) == "* " + List(Arg(q.command, 0))
    ensures Decide(q).responses[6] == NewResponse(q.command.tag, OK, Completed)
  {
  }

  /** The SELECT event goes out before the reply. */
  lemma EventBeforeReply(q: Request)
    requires Validate(q.command).Pass? && IsAuthenticated(q.context)
    ensures Emitted(Decide(q)) == [EventSent(SELECT(Arg(q.command, 0))), Batch(Decide(q).responses)]
  {
  }

  /** The tests of src/handlers/select.rs for `a1 SELECT INBOX` and for
      `a1 SELECT` with no argument. */
  lemma Examples(user: User)
    ensures Validate(NewCommand("a1", "SELECT", ["INBOX"])) == Pass
    ensures Handle(NewCommand("a1", "SELECT", ["INBOX"])) == Success(Selected("a1", "INBOX"))
    ensures Decide(Request(NewCommand("a1", "SELECT", ["INBOX"]), Of(Some(user), None)))
         == Decision(Some(SELECT("INBOX")), Selected("a1", "INBOX"))
    ensures Decide(Request(NewCommand("a1", "SELECT", ["INBOX"]), Default()))
         == Decision(None, [NewResponse("a1", NO, Unauthenticated)])
    ensures Decide(Request(NewCommand("a1", "SELECT", []), Default()))
         == Decision(None, [NewResponse("a1", BAD, InsufficientArguments)])
  {
    assert Chars.Upper("SELECT") == "SELECT";
  }
}
