/** The command-handler registry of src/handlers/mod.rs: handlers kept in
    registration order, and a delegating handler that tries every handler
    registered under the command's verb in turn. */
module Handlers {
  import opened Wrappers
  import opened Server

  /** What a handler may fail with: a parse error, or any other error. */
  datatype HandlerError = Invalid(ParseError) | Other(description: string)

  /** A `HandleCommand` implementation: its name, and what `validate` and
      `handle` return for each command. */
  datatype CommandHandler = CommandHandler(
    name: string,
    validate: Command -> Outcome<HandlerError>,
    handle: Command -> Result<seq<Response>, HandlerError>)

  /** The reply when no registered handler takes the command. */
  function Unknown(c: Command): (r: Response)
    ensures r == NewResponse(c.tag, NO, "Command unknown")
  {
    NewResponse(c.tag, NO, "Command unknown")
  }

  /** `validate` over the handlers `hs`: the first error of a handler named
      like the verb, or success. */
  function Validated(hs: seq<CommandHandler>, c: Command): Outcome<HandlerError> {
    if hs == [] then Pass
    else if hs[0].name != c.command then Validated(hs[1..], c)
    else if hs[0].validate(c).Fail? then hs[0].validate(c)
    else Validated(hs[1..], c)
  }

  /** `handle` over the handlers `hs`: the responses of the first handler
      named like the verb whose `handle` succeeds, or the unknown-command
      reply. */
  function Delegated(hs: seq<CommandHandler>, c: Command): seq<Response> {
    if hs == [] then [Unknown(c)]
    else if hs[0].name != c.command then Delegated(hs[1..], c)
    else if hs[0].handle(c).Success? then hs[0].handle(c).value
    else Delegated(hs[1..], c)
  }

  /** The handlers of `hs` named like the verb, in order. */
  function Matching(hs: seq<CommandHandler>, c: Command): (m: seq<CommandHandler>)
    ensures |m| <= |hs|
    ensures forall h :: h in m ==> h in hs && h.name == c.command
  {
    if hs == [] then []
    else if hs[0].name == c.command then [hs[0]] + Matching(hs[1..], c)
    else Matching(hs[1..], c)
  }

  /** `DelegatingCommandHandler`. */
  class DelegatingCommandHandler {
    var handlers: seq<CommandHandler>

    /** `new`: no handlers. */
    constructor()
      ensures handlers == []
    {
      handlers := [];
    }

    /** `name`: the delegating handler answers to no verb of its own. */
    function Name(): (n: string)
      ensures |n| == 0
    {
      ""
    }

    /** `register_command`: append, keeping every earlier entry; a second
        handler with the same name is kept too. */
    method RegisterCommand(h: CommandHandler)
      modifies this
      ensures handlers == old(handlers) + [h]
    {
      handlers := handlers + [h];
    }

    /** `validate`: a `for` loop that skips other verbs and returns the
        first error. */
    method Validate(c: Command) returns (r: Outcome<HandlerError>)
      ensures r == Validated(handlers, c)
    {
      for i := 0 to |handlers|
        invariant Validated(handlers, c) == Validated(handlers[i..], c)
      {
        assert handlers[i..][1..] == handlers[i + 1..];
        var h := handlers[i];
        if h.name != c.command {
          continue;
        }
        var v := h.validate(c);
        if v.Fail? {
          return v;
        }
      }
      assert handlers[|handlers|..] == [];
      return Pass;
    }

    /** `handle`: a `for` loop that skips other verbs and failing handlers
        and returns the first success; it never fails itself. */
    method Handle(c: Command) returns (r: Result<seq<Response>, HandlerError>)
      ensures r == Success(Delegated(handlers, c))
    {
      for i := 0 to |handlers|
        invariant Delegated(handlers, c) == Delegated(handlers[i..], c)
      {
        assert handlers[i..][1..] == handlers[i + 1..];
        var h := handlers[i];
        if h.name != c.command {
          continue;
        }
        var res := h.handle(c);
        if res.Success? {
          return Success(res.value);
        }
      }
      assert handlers[|handlers|..] == [];
      return Success([Unknown(c)]);
    }
  }

  /** The handler at `i` answers when it is the first handler named like the
      verb whose `handle` succeeds. */
  lemma {:induction false} DelegatedFirst(hs: seq<CommandHandler>, c: Command, i: nat)
    requires i < |hs| && hs[i].name == c.command && hs[i].handle(c).Success?
    requires forall j :: 0 <= j < i && hs[j].name == c.command ==> hs[j].handle(c).Failure?
    ensures Delegated(hs, c) == hs[i].handle(c).value
  {
    if i > 0 {
      assert hs[0].name == c.command ==> hs[0].handle(c).Failure?;
      forall j | 0 <= j < i - 1 && hs[1..][j].name == c.command
        ensures hs[1..][j].handle(c).Failure?
      {
        assert hs[1..][j] == hs[j + 1];
      }
      DelegatedFirst(hs[1..], c, i - 1);
    }
  }

  /** When no handler named like the verb succeeds, the reply is exactly one
      NO "Command unknown" with the command's tag. */
  lemma {:induction false} DelegatedUnknown(hs: seq<CommandHandler>, c: Command)
    requires forall j :: 0 <= j < |hs| && hs[j].name == c.command ==> hs[j].handle(c).Failure?
    ensures Delegated(hs, c) == [NewResponse(c.tag, NO, "Command unknown")]
  {
    if hs != [] {
      assert hs[0].name == c.command ==> hs[0].handle(c).Failure?;
      forall j | 0 <= j < |hs| - 1 && hs[1..][j].name == c.command
        ensures hs[1..][j].handle(c).Failure?
      {
        assert hs[1..][j] == hs[j + 1];
      }
      DelegatedUnknown(hs[1..], c);
    }
  }

  /** `validate` returns the error of the first handler named like the verb
      that rejects the command. */
  lemma {:induction false} ValidatedFirst(hs: seq<CommandHandler>, c: Command, i: nat)
    requires i < |hs| && hs[i].name == c.command && hs[i].validate(c).Fail?
    requires forall j :: 0 <= j < i && hs[j].name == c.command ==> hs[j].validate(c).Pass?
    ensures Validated(hs, c) == hs[i].validate(c)
  {
    if i > 0 {
      assert hs[0].name == c.command ==> hs[0].validate(c).Pass?;
      forall j | 0 <= j < i - 1 && hs[1..][j].name == c.command
        ensures hs[1..][j].validate(c).Pass?
      {
        assert hs[1..][j] == hs[j + 1];
      }
      ValidatedFirst(hs[1..], c, i - 1);
    }
  }

  /** `validate` succeeds when no handler named like the verb rejects the
      command, in particular when none is named like it. */
  lemma {:induction false} ValidatedPass(hs: seq<CommandHandler>, c: Command)
    requires forall j :: 0 <= j < |hs| && hs[j].name == c.command ==> hs[j].validate(c).Pass?
    ensures Validated(hs, c) == Pass
  {
    if hs != [] {
      assert hs[0].name == c.command ==> hs[0].validate(c).Pass?;
      forall j | 0 <= j < |hs| - 1 && hs[1..][j].name == c.command
        ensures hs[1..][j].validate(c).Pass?
      {
        assert hs[1..][j] == hs[j + 1];
      }
      ValidatedPass(hs[1..], c);
    }
  }

  /** Handlers named otherwise are never consulted: both loops behave as if
      only the handlers named like the verb were registered. */
  lemma {:induction false} OnlyMatchingConsulted(hs: seq<CommandHandler>, c: Command)
    ensures Delegated(hs, c) == Delegated(Matching(hs, c), c)
    ensures Validated(hs, c) == Validated(Matching(hs, c), c)
  {
    if hs != [] {
      OnlyMatchingConsulted(hs[1..], c);
      if hs[0].name == c.command {
        assert ([hs[0]] + Matching(hs[1..], c))[1..] == Matching(hs[1..], c);
      }
    }
  }

  /** Registering a handler under another verb changes neither reply. */
  lemma {:induction false} RegisterOther(hs: seq<CommandHandler>, h: CommandHandler, c: Command)
    requires h.name != c.command
    ensures Delegated(hs + [h], c) == Delegated(hs, c)
    ensures Validated(hs + [h], c) == Validated(hs, c)
  {
    if hs == [] {
      assert ([] + [h])[1..] == [];
    } else {
      assert (hs + [h])[1..] == hs[1..] + [h];
      RegisterOther(hs[1..], h, c);
    }
  }

  /** A handler registered after one that already answers the verb is never
      reached, so registering a duplicate name cannot take over a verb. */
  lemma {:induction false} RegisterShadowed(hs: seq<CommandHandler>, h: CommandHandler, c: Command, i: nat)
    requires i < |hs| && hs[i].name == c.command && hs[i].handle(c).Success?
    ensures Delegated(hs + [h], c) == Delegated(hs, c)
  {
    if i > 0 {
      assert (hs + [h])[1..] == hs[1..] + [h];
      assert hs[1..][i - 1] == hs[i];
      RegisterShadowed(hs[1..], h, c, i - 1);
    }
  }
}
