/** The LOGOUT handler of src/handlers/logout.rs. */
module Logout {
  import opened Wrappers
  import opened Server

  /** `name`. */
  const Name: string := "LOGOUT"

  const Completed: string := "LOGOUT completed."

  /** `validate`: every command is accepted; the comparison of the verb
      with `name` has an empty branch. */
  function Validate(c: Command): (r: Outcome<ParseError>)
    ensures r == Pass
  {
    Pass
  }

  /** `handle`: exactly one OK with the command's tag. */
  function Handle(c: Command): (r: Result<seq<Response>, ParseError>)
    ensures r.Success? && |r.value| == 1
    ensures r.value[0] == NewResponse(c.tag, OK, Completed)
  {
    Success([NewResponse(c.tag, OK, Completed)])
  }

  /** The reply prints as `<tag> OK LOGOUT completed.`. */
  lemma ReplyText(c: Command)
    ensures ToString(Handle(c).value[0]) == c.tag + " OK " + Completed
  {
  }

  /** The test of src/handlers/logout.rs for `a1 LOGOUT`. */
  lemma Example()
    ensures Validate(NewCommand("a1", "LOGOUT", [])) == Pass
    ensures Handle(NewCommand("a1", "LOGOUT", [])) == Success([NewResponse("a1", OK, "LOGOUT completed.")])
  {
  }
}
