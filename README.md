# TreasurMAP core, modelled in Dafny

TreasurMAP is an IMAP4rev2 server (RFC 9051) written in Rust. Its
repository holds several generations of the server's types side by side,
and they do not compile against each other. Each generation is
therefore modelled against its own types, in its own module. No types
are shared between generations:

- **The string generation** (`src/server.rs`):
  - `Command::parse` splits a line on every single space and strips one
    pair of matching quotes from each argument;
  - `Response::from` and `to_string` round-trip a response line;
  - the handlers built on these types are the registry
    (`src/handlers/mod.rs`) and the LOGIN, SELECT, FETCH and LOGOUT
    handlers;
  - the same types carry the session `Context`, the event-driven state
    manager and the line loop of `src/connection.rs`.
- **The byte generation** (`src/parser.rs`):
  - `Parser::parse` splits on the space byte, drops empty pieces,
    lower-cases the verb and recovers the tag when a later piece is not
    UTF-8;
  - `respond` writes `<tag> <STATUS> <text>\n`, with `*` standing for an
    empty tag;
  - two request handlers built on it (`src/handler.rs`,
    `src/requests.rs`) read one bounded line, parse it, fall back to a
    tag-only command on a parse error, and write the chosen handler's
    replies;
  - `src/requests.rs` also has a builder;
  - the LOGIN handler of `src/handlers/login_handler.rs` and the
    `BasicAuthenticator` of `src/auth.rs` belong here as well.
- **The in-memory stores**:
  - the user store and authenticator of `src/auth/inmemory.rs`;
  - the mailbox index of `src/index/`, which creates INBOX ReadOnly on
    its first request.

How the Rust constructs become Dafny:

- **State.** Objects whose fields change in place are classes. These are
  the connection, the handler registry, the builder, the user store and
  the mailbox index.
- **Pure code.** Everything else is functions over datatypes.
- **Trait objects** are modelled in one of two ways:
  - for the registry, a record of the handler's functions;
  - for the request handlers, a tag naming the implementation, plus the
    outside answers it needs as parameters.
- **Channel loops** become methods over sequences. Each is proved equal
  to a specification function (a fold over the requests).
- **Bytes and text.** UTF-8 well-formedness is a predicate (`Utf8.Valid`)
  and case mapping is ASCII only. Socket reads, writes and read errors
  are parameters and results.

Some behaviour looks unintended, but the model keeps it as the code has it:

- `src/handlers/select.rs:68` answers an unauthenticated SELECT with the
  fixed tag `a1`.
- `src/index/inmemory.rs:69` returns the created INBOX as ReadOnly, not
  with the requested permission.
- `src/handler.rs:120-122` writes nothing for `login`.

## Model

| member | source | states |
|---|---|---|
| Server.NewCommand | src/server.rs:54-60 | the verb is upper-cased (ASCII) and holds no lower-case letter; the tag and the argument list are kept unchanged and in order |
| Server.NumArgs | src/server.rs:73-75 | definition: the number of arguments of a command, against which `Server.Arg` is stated |
| Server.Arg | src/server.rs:67-75 | the argument at `position` when it is below the count, the empty string otherwise |
| Server.StatusText | src/server.rs:84-92 | definition: `Display` of a status, the words `OK`, `BAD` and `NO`; `Server.StatusRoundTrip` proves `Server.StatusFrom` its inverse |
| Server.StatusFrom | src/server.rs:94-101 | definition: `ResponseStatus::from`, the status named by `OK`, `BAD` or `NO` and `ParseError` for any other word |
| Server.StatusFromAccepts | src/server.rs:94-101 | `ResponseStatus::from` succeeds exactly on "OK", "BAD" and "NO" |
| Server.StatusRoundTrip | src/server.rs:84-101 | `from` inverts `Display` in both directions |
| Server.NewResponse | src/server.rs:112-118 | a response with the given tag, status and message |
| Server.ResponseFrom | src/server.rs:119-136 | definition: `Response::from` splits at every single space, fails below three fields, takes field 0 as the tag and field 1 as the status when it is a status word, and joins the rest back as the message |
| Server.ToString | src/server.rs:148-155 | definition: `<tag> <status> <message>`, or `<tag> <message>` when there is no status; `Server.ResponseRoundTrip` proves it inverts `Server.ResponseFrom` |
| Server.ResponseFromFields | src/server.rs:119-136 | `Response::from` fails exactly on fewer than three space-separated fields; otherwise the tag is field 0, the status is set only when field 1 is a status word, and the message is the remaining fields joined by single spaces, that is the rest of the line after the tag and, when present, the status word |
| Server.ResponseRoundTrip | src/server.rs:119-155 | every line with at least three fields parses, and its `to_string()` is the line itself |
| Server.TaggedLine | src/server.rs:119-155 | a space-free tag, a space, and a rest holding a space form a line that parses with that tag and prints back unchanged |
| Server.UntaggedParse | src/server.rs:119-136 | an untagged `* <word> <text>` line parses with tag `*`; the status is the word when it is a status word, and the message is the text, or the word and the text otherwise |
| Server.UntaggedWords | src/server.rs:119-155 | the same for a line given as its first word and its text, and such a line prints back unchanged |
| Server.StripQuotes | src/server.rs:177-188 | definition: an argument that starts and ends with `"`, or with `'`, loses its first and last character; its requires excludes the lone quote, on which the slice in the source panics |
| Server.Parse | src/server.rs:167-194 | definition: `Command::parse` splits at every single space, fails below two fields, and takes the tag, the verb as written and the quote-stripped arguments |
| Server.StripQuotesInverse | src/server.rs:179-187 | an argument wrapped in `"` or `'` loses exactly its first and last character; any other argument is unchanged |
| Server.ParseFailsIffNoSpace | src/server.rs:167-176 | `Command::parse` fails exactly when the line holds no space |
| Server.ParseJoin | src/server.rs:167-194 | parsing inverts writing a tag, a verb and quote-free arguments with single spaces; the verb keeps its case |
| Server.ParseQuoted | src/server.rs:177-188 | single- and double-quoted arguments come back without their quotes |
| Server.ParseEmptyVerb | src/server.rs:168-176 | `"a1 "` parses with tag `a1`, an empty verb and no arguments |
| Server.ParseStripsQuotesExample | src/server.rs:379-387 | the test line `a1 LOGIN 'me@email.com' "password"` parses to the command of the test |
| Errors.New | src/error.rs:11-16 | the tag bytes and the cause are kept exactly as given |
| Errors.ShouldPanic | src/error.rs:17-19 | definition: the cause is `ConnectionAborted` |
| Errors.CanIgnore | src/error.rs:20-22 | definition: the cause is `WouldBlock` or `TimedOut` |
| Errors.Classification | src/error.rs:17-22 | `should_panic` holds exactly for ConnectionAborted, `can_ignore` exactly for WouldBlock or TimedOut, and never both |
| Errors.InvalidInputIsRecoverable | src/error.rs:17-22 | an InvalidInput error, as every parser error is, is neither fatal nor ignorable |
| Parser.StatusText | src/parser.rs:45-53 | each status word is at least two bytes long, with no space and no line feed |
| Parser.StatusTextInjective | src/parser.rs:45-53 | the three status words are distinct |
| Parser.NewResponse | src/parser.rs:23-29 | a response with the given status, tag and text |
| Parser.From | src/parser.rs:30-36 | the tag is kept when it is valid UTF-8 and replaced by the empty tag otherwise; status and text are kept |
| Parser.Render | src/parser.rs:56-66 | definition: the bytes `respond` formats: the tag (`*` when empty), a space, the status word, a space, the text and a line feed |
| Parser.RenderFields | src/parser.rs:56-66 | a rendered response ends in a line feed; read back, its fields are the shown tag (`*` for an empty tag), the status word and the text |
| Parser.Respond | src/parser.rs:56-66 | appends exactly the rendered line to the output |
| Parser.Pieces | src/parser.rs:75 | every piece is non-empty and free of the space byte |
| Parser.GetTag | src/parser.rs:95-120 | succeeds exactly on a present, valid UTF-8 piece and returns it; otherwise an InvalidInput error with an empty tag |
| Parser.DropLineFeed | src/parser.rs:126-128 | at most one trailing line feed is removed, and one is whenever the piece ends in it |
| Parser.GetCommand | src/parser.rs:122-150 | succeeds exactly on a present, valid UTF-8 piece and returns it lower-cased without its trailing line feed; otherwise an InvalidInput error carrying the tag |
| Parser.Kept | src/parser.rs:158-162 | the pieces kept are exactly those that are not `\n` or `\r\n` |
| Parser.Args | src/parser.rs:152-178 | definition: `get_args` as a recursion over the pieces: `\n` and `\r\n` skipped, the first other piece that is not UTF-8 an `InvalidInput` error carrying the tag, else the pieces in order |
| Parser.ParsePieces | src/parser.rs:74-93 | definition: `parse` over the pieces of the line: the tag, then the verb, then the arguments, returning the first of their errors |
| Parser.Parsed | src/parser.rs:74-93 | definition: what `parse` returns for a line, `Parser.ParsePieces` of its pieces |
| Parser.ArgsMeaning | src/parser.rs:152-178 | `get_args` succeeds exactly when every piece other than `\n` and `\r\n` is valid UTF-8, and returns those pieces in order; otherwise an InvalidInput error carrying the tag |
| Parser.GetArgs | src/parser.rs:152-178 | the `while let` loop computes exactly the argument result above |
| Parser.Parse | src/parser.rs:74-93 | the method computes exactly the specification of `parse` |
| Parser.PiecesAt | src/parser.rs:75 | splitting at a space distributes over concatenation |
| Parser.LeadingSpaceIgnored | src/parser.rs:75 | a leading space changes neither the pieces nor the parse |
| Parser.TrailingSpaceIgnored | src/parser.rs:75 | a trailing space changes neither the pieces nor the parse |
| Parser.RepeatedSpaceIgnored | src/parser.rs:75 | a doubled space parses like a single one |
| Parser.PiecesRun | src/parser.rs:75 | any run of spaces separates pieces like a single space |
| Parser.PiecesJoin | src/parser.rs:75 | the pieces of non-empty space-free words joined by single spaces are the words |
| Parser.ParseOutcome | src/parser.rs:74-93 | how `parse` ends as a function of its pieces: no or ill-formed tag; no or ill-formed verb; an ill-formed argument; or success with the first piece as tag. Every error is InvalidInput |
| Parser.ParseWords | src/parser.rs:74-93 | a tag, a verb and arguments separated by single spaces parse to that tag, the lower-cased verb and those arguments |
| Parser.ParseSpacedWords | src/parser.rs:74-93 | runs of spaces around the words and a closing `\r\n` parse like single spaces |
| Parser.ParseExample | src/parser.rs:187-212 | `tag1 OTHER data` parses to tag `tag1`, verb `other` and argument `data` |
| Parser.ParseSpacedExample | src/parser.rs:214-227 | the test line with extra spaces and `\r\n` parses to the same command |
| Parser.ParseInvalidTagExample | src/parser.rs:229-241 | a non-UTF-8 tag gives an error with an empty tag |
| Parser.RenderText | src/parser.rs:56-66 | an ASCII response renders as the characters `<tag> <STATUS> <text>\n` |
| Parser.RespondOkExample | src/parser.rs:243-258 | renders `tag1 OK Your response\n` |
| Parser.RespondNoExample | src/parser.rs:259-274 | renders `tag1 NO Your response\n` |
| Parser.RespondBadExample | src/parser.rs:275-290 | renders `tag1 BAD Your response\n` |
| Parser.RespondUntaggedExample | src/parser.rs:291-306 | an empty tag renders as `* OK Your response\n` |
| Handler.TagText | src/handler.rs:37 | `from_utf8(..).unwrap_or_default()`: the tag when valid UTF-8, else empty |
| Handler.UnknownCommand | src/handler.rs:35-44 | BAD, with the command's tag and the text `Command '<verb>' unknown` |
| Handler.LoginReply | src/handler.rs:46-57 | for verb `login` with two arguments: OK "LOGIN completed." exactly when both arguments are `test`, else NO "LOGIN failed.", with the command's tag |
| Handler.New | src/handler.rs:67-76 | the buffer size as given, no delegates, and the unknown-command handler as default |
| Handler.ReadLine | src/handler.rs:84 | the bytes read are a prefix of the stream no longer than the limit, and stop after the first line feed, at the limit or at the end of the stream |
| Handler.Handle | src/handler.rs:79-139 | the method returns and writes exactly what the specification of one `handle` call says |
| Handler.Dispatched | src/handler.rs:102-118 | definition: the parsed command, the parse error itself when it is fatal or ignorable, else the recovered tag with an empty verb and no arguments |
| Handler.Handled | src/handler.rs:79-139 | definition: one `handle` call: an error `read_until` reports (never `Interrupted`, which it retries) is returned; an empty read aborts; a dispatched LOGIN writes nothing; any other verb writes the unknown-command line; both answer `Ok` |
| Handler.DispatchedAlways | src/handler.rs:102-118 | every line read is dispatched: the parsed command, or on a parse error the recovered tag with an empty verb and no arguments |
| Handler.EmptyReadAborts | src/handler.rs:84-91 | a zero-byte read returns a ConnectionAborted error and writes nothing |
| Handler.ReadErrorReturned | src/handler.rs:93-100 | an error `read_until` reports is returned with an empty tag, and nothing is written; `Interrupted` is excluded because `read_until` retries it |
| Handler.LineAnswered | src/handler.rs:119-138 | a line that was read ends in `Ok`; verb `login` writes nothing, and every other verb writes exactly the default handler's line |
| Handler.Answered | src/handler.rs:119-124 | a verb other than `login` is answered with the unknown-command line |
| Handler.ReadLineNoFeed | src/handler.rs:84 | without a line feed, the read stops at the limit or at the end of the stream |
| Handler.ReadLineThroughFeed | src/handler.rs:84 | a line ending in its only line feed, within the limit, is read whole |
| Handler.UnknownVerbExample | src/handler.rs:168-182 | `tag1 command arg1 arg2` writes `tag1 BAD Command 'command' unknown\n` |
| Handler.OverflowExample | src/handler.rs:184-200 | an over-long line writes `thisstringofbyte BAD Command '' unknown\n` |
| Handler.LoginExample | src/handler.rs:149-167 | the login test writes `tag1 OK LOGIN completed.\n` |
| Auth.New | src/auth.rs:18-23 | the username and password are stored unchanged |
| Auth.Authenticate | src/auth.rs:27-37 | Some exactly when both are `test`; the user carries the stored username and is marked authenticated |
| Auth.OnlyTestAccount | src/auth.rs:18-37 | only the credentials `test`/`test` are accepted, and they yield the stored user |
| LoginHandler.Handle | src/handlers/login_handler.rs:14-37 | for verb `login`: always one response, tagged with the lossily decoded tag. Fewer than two arguments give BAD "Missing argument…"; otherwise OK "LOGIN completed." when the authenticator accepts the first two arguments, else NO "LOGIN failed." |
| LoginHandler.ExtraArgumentsIgnored | src/handlers/login_handler.rs:25 | only the first two arguments are consulted |
| LoginHandler.ReplyTag | src/handlers/login_handler.rs:19-32 | a valid UTF-8 tag is echoed unchanged |
| LoginHandler.LoginExamples | src/handlers/login_handler.rs:48-147 | the replies of the tests: success, a missing password and a failed authentication |
| Requests.Capability | src/requests.rs:195-218 | the CAPABILITY reply: an untagged OK line, then a tagged OK |
| Requests.Apply | src/requests.rs:152-155 | definition: the `handle` of the delegate chosen for the command: the LOGIN handler with its authenticator, the CAPABILITY reply, the unknown-command reply, or an outside handler's answer |
| Requests.Target | src/requests.rs:152-155 | the handler registered under the verb if there is one, else the default |
| Requests.Built | src/requests.rs:75-104 | `build` keeps a registered `login` handler or adds one, always registers `capability`, keeps every other handler, installs the unknown-command default only when none was set, and uses the configured buffer size when positive, else 1024 |
| Requests.RequestHandlerBuilder.constructor | src/requests.rs:34-42 | no handlers, no default, buffer size 0, no parser |
| Requests.RequestHandlerBuilder.WithHandler | src/requests.rs:43-50 | registers the handler under the verb, replacing any earlier one; nothing else changes |
| Requests.RequestHandlerBuilder.WithDefaultHandler | src/requests.rs:51-57 | replaces any previous default; nothing else changes |
| Requests.RequestHandlerBuilder.WithUserStore | src/requests.rs:58-66 | puts a LOGIN handler over the store under `login`; nothing else changes |
| Requests.RequestHandlerBuilder.WithBufferSize | src/requests.rs:67-70 | sets the buffer size; nothing else changes |
| Requests.RequestHandlerBuilder.WithParser | src/requests.rs:71-74 | records the parser; nothing else changes |
| Requests.RequestHandlerBuilder.Build | src/requests.rs:75-104 | returns exactly the built handler described above |
| Requests.BuiltWellFormed | src/requests.rs:75-104 | when no LOGIN handler sits under another verb and the default is not one, the built handler never sends a command to a LOGIN handler under a verb other than `login` |
| Requests.RenderAll | src/requests.rs:156-157 | definition: the bytes of a batch of responses, each rendered as one line, in order |
| Requests.RespondAll | src/requests.rs:156-157 | writes every response of the batch, one line each, in order |
| Requests.Handled | src/requests.rs:108-159 | definition: one `handle` call: an error `read_line` reports (never `Interrupted`, which it retries) is returned, an empty read aborts, non-UTF-8 input is `InvalidData`, otherwise the dispatched command's target answers and its responses are written |
| Requests.Handle | src/requests.rs:108-159 | the method returns and writes exactly what the specification of one `handle` call says |
| Requests.Dispatch | src/requests.rs:135-157 | a valid line read is answered with `Ok`, and the target handler's responses are written in order |
| Requests.ReadFailures | src/requests.rs:114-132 | a zero-byte read aborts with `ConnectionAborted`, and a line that is not valid UTF-8 is the `InvalidData` error of `read_line`; neither writes anything |
| Requests.RegisteredAnswers | src/requests.rs:152-157 | a parsed line whose verb is registered is answered by that handler alone |
| Requests.CapabilityDispatch | src/requests.rs:152-157 | a `capability` line goes to the registered CAPABILITY handler |
| Requests.UnknownVerbExample | src/requests.rs:174-193 | `tag1 command arg1 arg2` writes `tag1 BAD Command 'command' unknown\n` |
| Requests.CapabilityExample | src/requests.rs:195-218 | `tag1 capability\n` writes `* OK CAPABILITY IMAP4rev1\ntag1 OK CAPABILITY completed\n` |
| Requests.OverflowExample | src/requests.rs:220-239 | an over-long line writes `thisstringofbyte BAD Command '' unknown\n` |
| Handlers.Unknown | src/handlers/mod.rs:60-64 | NO "Command unknown" with the command's tag |
| Handlers.Matching | src/handlers/mod.rs:39-41 | the handlers named like the verb, taken from the registered ones in order |
| Handlers.DelegatingCommandHandler.constructor | src/handlers/mod.rs:69-73 | starts with no handlers |
| Handlers.DelegatingCommandHandler.Name | src/handlers/mod.rs:33-35 | the empty name |
| Handlers.DelegatingCommandHandler.RegisterCommand | src/handlers/mod.rs:74-77 | appends at the end, keeping earlier entries and duplicates |
| Handlers.DelegatingCommandHandler.Validate | src/handlers/mod.rs:36-48 | the loop returns exactly the specification of `validate` |
| Handlers.DelegatingCommandHandler.Handle | src/handlers/mod.rs:49-65 | the loop always succeeds, with exactly the specification of `handle` |
| Handlers.Delegated | src/handlers/mod.rs:49-65 | definition: over the registered handlers in order, the responses of the first one named like the verb whose `handle` succeeds, else the single NO "Command unknown" |
| Handlers.Validated | src/handlers/mod.rs:36-48 | definition: over the registered handlers in order, the first error of one named like the verb, else success |
| Handlers.DelegatedFirst | src/handlers/mod.rs:49-59 | the reply is that of the first handler, in registration order, that is named like the verb and succeeds |
| Handlers.DelegatedUnknown | src/handlers/mod.rs:60-64 | when no matching handler succeeds, the reply is exactly one NO "Command unknown" with the tag |
| Handlers.ValidatedFirst | src/handlers/mod.rs:36-46 | `validate` returns the error of the first matching handler that rejects the command |
| Handlers.ValidatedPass | src/handlers/mod.rs:36-48 | `validate` succeeds when no matching handler rejects the command |
| Handlers.OnlyMatchingConsulted | src/handlers/mod.rs:36-59 | both loops behave as if only the handlers named like the verb were registered |
| Handlers.RegisterOther | src/handlers/mod.rs:74-77 | registering under another verb changes neither reply |
| Handlers.RegisterShadowed | src/handlers/mod.rs:49-59 | a handler registered after one that already answers is never reached |
| Login.Validate | src/handlers/login.rs:11-19 | fails exactly on fewer than two arguments; the verb check has no effect |
| Login.Handle | src/handlers/login.rs:20-32 | always succeeds with OK, the command's tag and verb, and the message "completed." |
| Login.ArgumentsIgnored | src/handlers/login.rs:20-32 | the reply does not depend on the arguments |
| Login.AnySpelling | src/handlers/login.rs:42-93 | for any ASCII spelling of LOGIN, validation passes exactly on two or more arguments and the reply verb is "LOGIN" |
| Login.Examples | src/handlers/login.rs:42-93 | the tests with "LOGIN", "login" and "Login" |
| AuthInMemory.Added | src/auth/inmemory.rs:30-38 | a name already present fails with UserAlreadyExists and leaves the map unchanged; otherwise the user is inserted under its name |
| AuthInMemory.InMemoryUserStore.constructor | src/auth/inmemory.rs:43-47 | a new store is empty |
| AuthInMemory.InMemoryUserStore.Get | src/auth/inmemory.rs:26-28 | the user stored under the name, or None exactly when there is none |
| AuthInMemory.InMemoryUserStore.Authenticate | src/auth/inmemory.rs:17-24 | the user stored under the principal's name, else DoesNotExist with that name |
| AuthInMemory.InMemoryUserStore.Add | src/auth/inmemory.rs:30-38 | the reply and the new map are exactly those of the insert-if-absent rule |
| AuthInMemory.InMemoryUserStore.WithUser | src/auth/inmemory.rs:48-55 | adds the user with the given hash; a duplicate name is excluded, as the `unwrap` aborts on it |
| AuthInMemory.AddedKeepsOthers | src/auth/inmemory.rs:30-38 | entries under other names are untouched, and `add` fails exactly when the name is taken |
| AuthInMemory.AddStores | src/auth/inmemory.rs:30-38 | after a successful add the user is stored under its name |
| AuthInMemory.PasswordIgnored | src/auth/inmemory.rs:17-24 | two principals with the same name and different passwords get the same answer |
| AuthInMemory.InMemoryAuthenticator.constructor | src/auth/inmemory.rs:62-66 | keeps the store it is given |
| AuthInMemory.InMemoryAuthenticator.Authenticate | src/auth/inmemory.rs:68-71 | exactly the store's answer |
| AuthInMemory.AuthenticateExample | src/auth/inmemory.rs:81-91 | the test store authenticates `test@email.com` and returns the stored user |
| Connection.Default | src/connection.rs:32-36 | no user and no folder: neither authenticated nor selected |
| Connection.IsAuthenticated | src/connection.rs:46-48 | definition: a user is present |
| Connection.IsSelected | src/connection.rs:49-51 | definition: a folder is present |
| Connection.Of | src/connection.rs:46-54 | stores both fields as given; authenticated exactly when a user is present, selected exactly when a folder is |
| Connection.Applied | src/connection.rs:83-101 | AUTH sets the user and keeps the folder; SELECT sets the folder and keeps the user; UNAUTH clears both |
| Connection.Forwarded | src/connection.rs:142-172 | every request sent names a registered verb and carries the current context; no more requests than lines |
| Connection.Connection.constructor | src/connection.rs:66-140 | a default context, the state manager running, and the greeting written |
| Connection.Managed | src/connection.rs:82-102 | definition: the state manager over a sequence of events: AUTH and SELECT replace one field each, UNAUTH clears both and ends the loop, and nothing after it is applied |
| Connection.Connection.ManageState | src/connection.rs:81-104 | the context and the running flag after the events are exactly those of the state-manager fold |
| Connection.Wire | src/connection.rs:105-118 | definition: the writer's text for a batch: each response's `to_string()` followed by CRLF, in order |
| Connection.Connection.Write | src/connection.rs:105-118 | appends each response's `to_string()` followed by CRLF, in order |
| Connection.Connection.HandleLines | src/connection.rs:142-172 | while running, sends exactly the requests of the line-loop specification and ends with its outcome; once shut down, sends nothing |
| Connection.UnauthStops | src/connection.rs:94-103 | UNAUTH clears both fields and stops the manager; nothing applies afterwards |
| Connection.ManagedConcat | src/connection.rs:82-102 | two batches of events are handled as the second continuing from where the first left off |
| Connection.ManagedWithoutUnauth | src/connection.rs:82-93 | without UNAUTH the manager keeps running, and without AUTH the user is unchanged |
| Connection.ManagedLastAuth | src/connection.rs:82-93 | without UNAUTH the user afterwards is the one of the last AUTH event, whatever SELECTs follow it |
| Connection.SelectUnchecked | src/connection.rs:89-93 | SELECT selects a folder even when nobody is logged in |
| Connection.WireConcat | src/connection.rs:105-118 | writing two batches writes them one after the other |
| Connection.GreetingText | src/connection.rs:119-126 | the first output is `* OK IMAP4rev2 server ready\r\n` |
| Connection.ParseFailureStops | src/connection.rs:166 | a line that does not parse ends the loop with the parse error and sends nothing more |
| Connection.UnregisteredDropped | src/connection.rs:167-171 | a line whose verb has no handler is dropped without a reply |
| Connection.RegisteredSent | src/connection.rs:167-171 | a line whose verb has a handler is sent, with the context, ahead of the later lines' requests |
| Select.Validate | src/handlers/select.rs:27-35 | fails exactly for the SELECT verb with no arguments |
| Select.Selected | src/handlers/select.rs:73-81 | seven responses: the five status lines, the untagged LIST line naming the folder, and a tagged OK "[READ-WRITE] SELECT completed." |
| Select.StatusParsed | src/handlers/select.rs:39-43 | each of the five status lines parses to the model's response and prints back unchanged |
| Select.ListParsed | src/handlers/select.rs:79 | the LIST line naming any folder parses untagged and prints back unchanged; the INBOX line of `SelectHandler` is its instance |
| Select.Handle | src/handlers/select.rs:36-47 | always the seven responses, for folder INBOX, ending with the command's tag |
| Select.Decide | src/handlers/select.rs:56-81 | definition: the loop body for one request: BAD "insufficient arguments" on a failed validation, NO tagged `a1` when unauthenticated, else a SELECT event for argument 0 and the selected reply |
| Select.Trace | src/handlers/select.rs:55-83 | definition: everything the loop sends for a sequence of requests, each request's event before its batch |
| Select.Decisions | src/handlers/select.rs:55-83 | one decision per request, in order |
| Select.Start | src/handlers/select.rs:54-86 | the loop sends exactly the events and batches of the specification trace |
| Select.BatchesConcat | src/handlers/select.rs:55-83 | the batches of two traces are those of each in turn |
| Select.EmitBatches | src/handlers/select.rs:55-83 | the trace of any decisions holds one batch per decision, in order |
| Select.OneBatchEach | src/handlers/select.rs:55-83 | each request gets exactly one response batch, in arrival order |
| Select.InvalidFirst | src/handlers/select.rs:56-66 | SELECT without arguments gets one BAD "insufficient arguments" with its tag and no event, even unauthenticated |
| Select.UnauthenticatedFixedTag | src/handlers/select.rs:67-70 | a valid request on an unauthenticated context gets one NO tagged `a1`, whatever its own tag, and no event |
| Select.AuthenticatedSelects | src/handlers/select.rs:71-81 | a valid authenticated request emits SELECT of its first argument; the LIST line names that folder and the last line carries the request's tag |
| Select.EventBeforeReply | src/handlers/select.rs:71-82 | the SELECT event is sent before the response batch |
| Select.Examples | src/handlers/select.rs:99-179 | the tests: a successful select, an unauthenticated one and one without arguments |
| Fetch.Validate | src/handlers/fetch.rs:23-31 | fails exactly when there are no arguments; the verb check has no effect |
| Fetch.Handle | src/handlers/fetch.rs:32-37 | exactly two responses: the untagged `* 1 FETCH …` line, then a tagged OK "FETCH completed." |
| Fetch.MessageParsed | src/handlers/fetch.rs:34 | the FETCH line parses untagged and prints back unchanged |
| Fetch.ArgumentsIgnored | src/handlers/fetch.rs:32-37 | the reply depends on neither the verb nor the arguments |
| Fetch.Example | src/handlers/fetch.rs:47-68 | the test's validation and reply |
| Logout.Validate | src/handlers/logout.rs:11-16 | always succeeds |
| Logout.Handle | src/handlers/logout.rs:17-23 | exactly one response: OK "LOGOUT completed." with the command's tag |
| Logout.ReplyText | src/handlers/logout.rs:18-22 | the reply prints as `<tag> OK LOGOUT completed.` |
| Logout.Example | src/handlers/logout.rs:33-53 | the test's validation and reply |
| Index.NewMailbox | src/index/mod.rs:37-44 | stores the name, count, flags and permission exactly as given |
| Index.Reply | src/index/mod.rs:52-59 | Some(mailbox) exactly when `get_mailbox` succeeds, None when it fails |
| IndexInMemory.Added | src/index/inmemory.rs:32-53 | an existing name fails with Exists and leaves the map unchanged; a new name gets count 0, no flags and ReadOnly, ignoring the supplied values |
| IndexInMemory.Served | src/index/mod.rs:50-64 | one reply per request |
| IndexInMemory.InMemoryIndex.constructor | src/index/inmemory.rs:12-16 | a new index is empty |
| IndexInMemory.InMemoryIndex.AddMailbox | src/index/inmemory.rs:32-53 | the reply and the new map are exactly those of the insert-if-absent rule |
| IndexInMemory.Got | src/index/inmemory.rs:54-74 | definition: a stored mailbox with the requested permission; else INBOX, in any ASCII case, inserted as a fresh ReadOnly mailbox; else `DoesNotExist` |
| IndexInMemory.InMemoryIndex.GetMailbox | src/index/inmemory.rs:54-74 | the reply and the new map are exactly those of the lookup rule |
| IndexInMemory.InMemoryIndex.Start | src/index/mod.rs:50-64 | the loop's replies and final map are exactly those of the fold over the requests |
| IndexInMemory.StoredMailbox | src/index/inmemory.rs:59-64 | a stored name comes back with the requested permission, the other fields as stored, and the map unchanged |
| IndexInMemory.InboxCreated | src/index/inmemory.rs:65-70 | a missing INBOX, in any ASCII case, is inserted as INBOX and returned ReadOnly whatever permission was asked for |
| IndexInMemory.OtherSpellingOfInbox | src/index/inmemory.rs:59-70 | once INBOX exists, another spelling of it fails with Exists from the insert |
| IndexInMemory.LowerInboxExample | src/index/inmemory.rs:59-70 | `inbox` after INBOX fails with Exists |
| IndexInMemory.MissingMailbox | src/index/inmemory.rs:71 | any other missing name fails with DoesNotExist and leaves the map unchanged |
| IndexInMemory.GotKeeps | src/index/inmemory.rs:54-74 | a lookup never removes or changes a stored mailbox, and adds at most INBOX |
| IndexInMemory.ServedInOrder | src/index/mod.rs:51-62 | request `i` is answered from the map left by the earlier requests |
| IndexInMemory.ServedConcat | src/index/mod.rs:51-62 | serving two runs of requests is serving the second on the map the first left |
| IndexInMemory.ServedKeeps | src/index/mod.rs:51-62 | across any requests, stored mailboxes stay as they were and a stored name is always answered |

## Left out

- Sockets, channels, locks and tasks. The TCP listener, `Server::listen`
  and `ServerBuilder` are not part of this model, nor is the spawning of
  the writer and state-manager tasks. Events, lines, requests and
  responses are handed over as sequences.
- Connection.Connection.HandleLines: it does not model read errors on a
  line (the `line?`) or send failures. The shutdown signal is taken as
  fixed for one call, so UNAUTH arriving in the middle of a batch of
  lines is not modelled.
- Connection.Connection.HandleLines: the joins after the line loop
  (src/connection.rs:173-181) are not modelled, and the model returns
  the loop's result at once. In the source those joins do not complete:
  `drop(&self.responder)` drops only a reference, so the sender held by
  the connection stays alive, the writer's receive loop never ends, and
  `writer.await` never returns. `handle` therefore never returns `Ok(())`
  once its loop has ended, and the `Pass` the model gives there is not
  observable in the source.
- Parser.Respond, Connection.Connection.Write, Handler.Handle,
  Requests.RespondAll, Requests.Handle: every `write` is taken to put the
  whole line out. The source calls `Write::write`, not `write_all`
  (src/parser.rs:61-63, src/connection.rs:114-115), which may write only
  a prefix, and it ignores the count. Short writes and the panics of the
  `expect` and `unwrap` on a failed write are not modelled.
- Server.Parse, Handler.LoginReply, Requests.Handled,
  AuthInMemory.InMemoryUserStore.WithUser: panics of the source become
  preconditions. `Server.Parse` requires `NoLoneQuote`
  because a lone `"` or `'` argument makes the slice
  (src/server.rs:181-184) panic. `Handler.LoginReply` requires the verb
  `login` and exactly two arguments, as its `assert_eq!`s do
  (src/handler.rs:47-48). Every Requests member that routes a command
  requires `Requests.WellFormed`, so no LOGIN handler is reached by
  another verb and the `assert_eq!` of src/handlers/login_handler.rs:15
  holds. `AuthInMemory.InMemoryUserStore.WithUser` requires a name not
  yet stored, because the `unwrap` of src/auth/inmemory.rs:53 panics on
  `UserAlreadyExists`. The model says nothing about inputs on which these
  panic.
- Connection.Connection.HandleLines, Connection.Forwarded: the context is
  read once per call, whereas the source reads `self.state` afresh for
  each line (src/connection.rs:168), so an event the state manager
  applies between two lines of one call (an AUTH after a LOGIN line, say)
  is not seen by the later request. Interleaving the line loop with the
  manager is not modelled.
- Connection.Connection.ManageState: the channel closing without UNAUTH
  still signals shutdown in the source. The model only notes that the
  manager keeps running in that case.
- Select.Start: send failures (the `?` on each send) are not modelled;
  every send is taken to succeed.
- IndexInMemory.InMemoryIndex.Start: `Index::start` is the trait's
  default method. It is modelled on the one implementation,
  `InMemoryIndex`.
- IndexInMemory.InMemoryIndex.Start: the panic on a closed reply channel
  (the `unwrap`) is not modelled, nor is the warning log. Nor is the
  race between dropping the read lock and inserting INBOX.
- IndexInMemory.InMemoryIndex.AddMailbox: mailbox names are `PathBuf`s
  in the source. They are modelled as the text they were made from, so
  the `to_str().unwrap()` failure on non-Unicode paths is not modelled.
- Password hashing (`Password::new`) is not modelled: a user's password
  hash is whatever the caller supplies.
- UTF-8 decoding is modelled as a validity predicate, and
  `from_utf8_lossy` as a model of its replacement rule. Case mapping is
  ASCII only, where Rust's `to_uppercase`/`to_lowercase` map all of
  Unicode.
- LoginHandler.Handle: the authenticator is passed in as a function of
  the two arguments, because the `BasicAuth::from` it calls is not part
  of this model.
- Requests.Capability: src/requests.rs:9 imports `CapabilityHandler`
  and `UnknownCommandHandler` from `crate::handlers`, but
  src/handlers/mod.rs, which holds the registry of the other generation,
  defines neither. Their replies are taken from the tests of
  src/requests.rs (lines 174-239).
- Requests.RequestHandlerBuilder.WithUserStore: the store is
  a number that identifies it. What it accepts is an outside answer
  given to the handler.
- Logging (`debug!`, `error!`, `trace!`, `warn!`) is not modelled.
- The handlers' `name()` methods are the constants `Login.Name`,
  `Fetch.Name`, `Logout.Name` and `Select.Name`.
- src/mailbox.rs, src/main.rs, src/util.rs, src/auth/mod.rs and
  src/auth/error.rs are not part of this model, nor is the end-to-end
  test `tests/server_tests.rs` or the configuration defaults of
  `src/server.rs`.
- IMAP literals, per-mailbox locking, the worker pool and idle timeouts
  do not exist in the source.
