/** The LOGIN command handler of src/handlers/login.rs. Its `handle` builds a
    reply with four fields (tag, status, verb, message), a `Response` shape
    of its own generation, so the reply type is declared here. */
module Login {
  import opened Wrappers
  import Chars
  import opened Server

  /** `name`. */
  const Name: string := "LOGIN"

  datatype Reply = Reply(tag: string, status: ResponseStatus, command: string, message: string)

  /** `validate`: two arguments are needed. The comparison of the verb with
      `name` has an empty branch, so any verb is accepted. */
  function Validate(c: Command): (r: Outcome<ParseError>)
    ensures r.Fail? <==> NumArgs(c) < 2
  {
    if NumArgs(c) < 2 then Fail(ParseError) else Pass
  }

  /** `handle`: always OK, echoing the tag and the verb. The user and
      password are read but not consulted. */
  function Handle(c: Command): (r: Result<Reply, ParseError>)
    ensures r.Success?
    ensures r.value.tag == c.tag && r.value.status == OK
    ensures r.value.command == c.command && r.value.message == "completed."
  {
    Success(Reply(c.tag, OK, c.command, "completed."))
  }

  /** The reply does not depend on the arguments. */
  lemma ArgumentsIgnored(tag: string, verb: string, a: seq<string>, b: seq<string>)
    ensures Handle(Command(tag, verb, a)) == Handle(Command(tag, verb, b))
  {
  }

  /** A command built by `Command::new` with any ASCII spelling of `login`
      is accepted when it has two arguments and is answered with the verb
      `LOGIN`. */
  lemma AnySpelling(tag: string, verb: string, args: seq<string>)
    requires Chars.EqIgnoreAsciiCase(verb, Name)
    ensures Validate(NewCommand(tag, verb, args)).Pass? <==> |args| >= 2
    ensures Handle(NewCommand(tag, verb, args)).value == Reply(tag, OK, Name, "completed.")
  {
    Chars.UpperOfEqIgnoreCase(verb, Name);
    assert Chars.Upper(Name) == Name;
  }

  /** The three tests of src/handlers/login.rs: "LOGIN", "login" and
      "Login" all validate and are answered `a1 OK LOGIN completed.`. */
  lemma Examples(args: seq<string>)
    requires args == ["my@email.com", "password"]
    ensures forall verb :: verb in ["LOGIN", "login", "Login"] ==>
      && Validate(NewCommand("a1", verb, args)) == Pass
      && Handle(NewCommand("a1", verb, args)) == Success(Reply("a1", OK, "LOGIN", "completed."))
  {
    forall verb | verb in ["LOGIN", "login", "Login"]
      ensures Validate(NewCommand("a1", verb, args)) == Pass
      ensures Handle(NewCommand("a1", verb, args)) == Success(Reply("a1", OK, "LOGIN", "completed."))
    {
      assert Chars.EqIgnoreAsciiCase(verb, Name);
      AnySpelling("a1", verb, args);
    }
  }
}
