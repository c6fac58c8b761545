/** `LoginHandler` of src/handlers/login_handler.rs, the byte-level LOGIN
    handler the builder of src/requests.rs installs. Its authenticator is
    the function `authenticate`: whether the user id and password given
    are accepted. */
module LoginHandler {
  import opened Bytes
  import Utf8
  import opened Parser

  const LoginVerb: seq<byte> := [108, 111, 103, 105, 110]

  const MissingArgument: string := "Missing argument. Command should be '<tag> LOGIN <userid> <password>'"

  /** `LoginHandler::handle`; the verb is asserted to be `login`. */
  function Handle(c: Command, authenticate: (seq<byte>, seq<byte>) -> bool): (rs: seq<Response>)
    requires c.command == LoginVerb
    ensures |rs| == 1 && rs[0].tag == Utf8.Lossy(c.tag)
    ensures |c.args| < 2 ==> rs[0].status == BAD && rs[0].response == Of(MissingArgument)
    ensures |c.args| >= 2 ==>
      && (rs[0].status == OK <==> authenticate(c.args[0], c.args[1]))
      && (rs[0].status == OK ==> rs[0].response == Of("LOGIN completed."))
      && (rs[0].status != OK ==> rs[0].status == NO && rs[0].response == Of("LOGIN failed."))
  {
    var tag := Utf8.Lossy(c.tag);
    if |c.args| < 2 then [NewResponse(BAD, tag, Of(MissingArgument))]
    else if authenticate(c.args[0], c.args[1]) then [NewResponse(OK, tag, Of("LOGIN completed."))]
    else [NewResponse(NO, tag, Of("LOGIN failed."))]
  }

  /** Only the first two arguments are consulted: extra arguments do not
      change the reply. */
  lemma ExtraArgumentsIgnored(c: Command, extra: seq<seq<byte>>, authenticate: (seq<byte>, seq<byte>) -> bool)
    requires c.command == LoginVerb && |c.args| >= 2
    ensures Handle(c.(args := c.args + extra), authenticate) == Handle(c, authenticate)
  {
    assert (c.args + extra)[0] == c.args[0] && (c.args + extra)[1] == c.args[1];
  }

  /** The reply is tagged with the command's tag whenever that tag is valid
      UTF-8, as every tag the parser produces is. */
  lemma ReplyTag(c: Command, authenticate: (seq<byte>, seq<byte>) -> bool)
    requires c.command == LoginVerb && Utf8.Valid(c.tag)
    ensures Handle(c, authenticate)[0].tag == c.tag
  {
    Utf8.LossyOfValid(c.tag);
  }

  /** The authenticator of the tests: a store holding the user `test`
      with password `test`. */
  function TestAccount(userid: seq<byte>, password: seq<byte>): bool {
    userid == Of("test") && password == Of("test")
  }

  /** The tests of src/handlers/login_handler.rs. */
  lemma LoginExamples(tag: seq<byte>)
    requires tag == Of("tag1")
    ensures Handle(Command(tag, LoginVerb, [Of("test"), Of("test")]), TestAccount)
         == [Response(OK, tag, Of("LOGIN completed."))]
    ensures Handle(Command(tag, LoginVerb, [Of("test")]), TestAccount)
         == [Response(BAD, tag, Of(MissingArgument))]
    ensures Handle(Command(tag, LoginVerb, [Of("test"), Of("badpassword")]), TestAccount)
         == [Response(NO, tag, Of("LOGIN failed."))]
  {
    Utf8.AsciiValid(tag);
    Utf8.LossyOfValid(tag);
    assert Of("badpassword") != Of("test") by {
      assert |Of("badpassword")| != |Of("test")|;
    }
  }
}
