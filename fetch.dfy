/** The FETCH handler of src/handlers/fetch.rs: a fixed reply of one
    untagged message line and a tagged completion. */
module Fetch {
  import opened Wrappers
  import opened Server

  /** `name`. */
  const Name: string := "FETCH"

  const Completed: string := "FETCH completed."

  /** The untagged line of the reply, after `* `: its first word and the
      text after it. */
  const Word: string := "1"
  const Text: string := "FETCH (BODY[TEXT] {26}\r\nThis is a test email body.)"

  /** `Response::from("* " + Word + " " + Text).unwrap()`: the first word is
      no status word, so it stays in the message; see `MessageParsed`. */
  const Message: Response := Response("*", None, Word + " " + Text)

  /** `validate`: an argument is needed. The comparison of the verb with
      `name` has an empty branch, so any verb is accepted. */
  function Validate(c: Command): (r: Outcome<ParseError>)
    ensures r.Fail? <==> NumArgs(c) == 0
  {
    if NumArgs(c) < 1 then Fail(ParseError) else Pass
  }

  /** `handle`: the message line, then OK with the command's tag. */
  function Handle(c: Command): (r: Result<seq<Response>, ParseError>)
    ensures r.Success? && |r.value| == 2
    ensures r.value[0] == Message && r.value[0].tag == "*"
    ensures r.value[1] == NewResponse(c.tag, OK, Completed)
  {
    Success([Message, NewResponse(c.tag, OK, Completed)])
  }

  /** The untagged line is what `Response::from` makes of its text, so the
      `unwrap` cannot fail, and it prints back as that text. */
  lemma MessageParsed(line: string)
    requires line == "* " + Word + " " + Text
    ensures ResponseFrom(line) == Success(Message)
    ensures ToString(Message) == line
  {
    UntaggedWords(line, Word, Text);
  }

  /** The reply depends on the tag only: neither the arguments nor the verb
      change it. */
  lemma ArgumentsIgnored(tag: string, v1: string, v2: string, a1: seq<string>, a2: seq<string>)
    ensures Handle(Command(tag, v1, a1)) == Handle(Command(tag, v2, a2))
  {
  }

  /** The test of src/handlers/fetch.rs for `a1 FETCH 1`. */
  lemma Example()
    ensures Validate(NewCommand("a1", "FETCH", ["1"])) == Pass
    ensures Handle(NewCommand("a1", "FETCH", ["1"]))
         == Success([Message, NewResponse("a1", OK, "FETCH completed.")])
  {
  }
}
