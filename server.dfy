/** The string-level command and response types of src/server.rs, used by
    the connection, the handler registry and the SELECT, FETCH and LOGOUT
    handlers. */
module Server {
  import opened Wrappers
  import opened Seqs
  import Chars

  /** `ParseError`, a unit error. */
  datatype ParseError = ParseError

  datatype Command = Command(tag: string, command: string, args: seq<string>)

  datatype ResponseStatus = OK | BAD | NO

  datatype Response = Response(tag: string, status: Option<ResponseStatus>, message: string)

  /** `Command::new`: the verb is upper-cased, tag and arguments are kept. */
  function NewCommand(tag: string, verb: string, args: seq<string>): (c: Command)
    ensures c.tag == tag && c.args == args
    ensures c.command == Chars.Upper(verb)
    ensures forall i :: 0 <= i < |c.command| ==> !Chars.IsLower(c.command[i])
  {
    Command(tag, Chars.Upper(verb), args)
  }

  /** `Command::arg`: the argument at `position`, or "" past the end. */
  function Arg(c: Command, position: nat): (a: string)
    ensures position < NumArgs(c) ==> a == c.args[position]
    ensures position >= NumArgs(c) ==> a == ""
  {
    if |c.args| <= position then "" else c.args[position]
  }

  function NumArgs(c: Command): nat { |c.args| }

  /** `Display for ResponseStatus`. */
  function StatusText(s: ResponseStatus): string {
    match s
    case OK => "OK"
    case BAD => "BAD"
    case NO => "NO"
  }

  /** `ResponseStatus::from`. */
  function StatusFrom(s: string): Result<ResponseStatus, ParseError> {
    if s == "OK" then Success(OK)
    else if s == "BAD" then Success(BAD)
    else if s == "NO" then Success(NO)
    else Failure(ParseError)
  }

  /** `ResponseStatus::from` accepts exactly the three status words. */
  lemma StatusFromAccepts(s: string)
    ensures StatusFrom(s).Success? <==> s in {"OK", "BAD", "NO"}
  {
  }

  /** `ResponseStatus::from` inverts `Display`, in both directions. */
  lemma StatusRoundTrip(st: ResponseStatus, s: string)
    ensures StatusFrom(StatusText(st)) == Success(st)
    ensures StatusFrom(s).Success? ==> StatusText(StatusFrom(s).value) == s
  {
  }

  /** `Response::new`. */
  function NewResponse(tag: string, status: ResponseStatus, message: string): (r: Response)
    ensures r.tag == tag && r.status == Some(status) && r.message == message
  {
    Response(tag, Some(status), message)
  }

  /** `Response::from`: at least three space-separated fields; field 1 is the
      status when it is a status word, otherwise part of the message. */
  function ResponseFrom(s: string): Result<Response, ParseError> {
    var c := Split(s, ' ');
    if |c| < 3 then Failure(ParseError)
    else
      var st := StatusFrom(c[1]);
      Success(Response(c[0], st.ToOption(),
        if st.Success? then Join(c[2..], ' ') else Join(c[1..], ' ')))
  }

  /** `to_string` of a response. */
  function ToString(r: Response): string {
    match r.status
    case Some(st) => r.tag + " " + StatusText(st) + " " + r.message
    case None => r.tag + " " + r.message
  }

  /** `Response::from` fails exactly on fewer than three fields, and on
      success the tag is the text before the first space, the status is
      present exactly when the second field is a status word, and the
      message is the rest of the line after the tag and that status word:
      the remaining fields joined by single spaces. */
  lemma ResponseFromFields(s: string)
    ensures ResponseFrom(s).Failure? <==> |Split(s, ' ')| < 3
    ensures ResponseFrom(s).Success? ==>
      var r := ResponseFrom(s).value;
      && ' ' !in r.tag
      && |r.tag| < |s| && s[..|r.tag|] == r.tag && s[|r.tag|] == ' '
      && (r.status.Some? <==> Split(s, ' ')[1] in {"OK", "BAD", "NO"})
    ensures ResponseFrom(s).Success? ==>
      var r := ResponseFrom(s).value;
      r.message == Join(Split(s, ' ')[if r.status.Some? then 2 else 1..], ' ')
    ensures ResponseFrom(s).Success? && ResponseFrom(s).value.status.None? ==>
      var r := ResponseFrom(s).value;
      r.message == s[|r.tag| + 1..]
    ensures ResponseFrom(s).Success? && ResponseFrom(s).value.status.Some? ==>
      var r := ResponseFrom(s).value;
      var n := |r.tag| + 1 + |StatusText(r.status.value)| + 1;
      n <= |s| && s[..n] == r.tag + " " + StatusText(r.status.value) + " " && r.message == s[n..]
  {
    var c := Split(s, ' ');
    if |c| >= 3 {
      SplitFree(s, ' ');
      JoinSplit(s, ' ');
      JoinFirst(c, ' ');
      assert s == c[0] + [' '] + Join(c[1..], ' ');
      ResponseRoundTrip(s);
      var r := ResponseFrom(s).value;
      if r.status.Some? {
        var head := r.tag + " " + StatusText(r.status.value) + " ";
        assert s == head + r.message;
        assert s[..|head|] == head;
      } else {
        assert s == r.tag + " " + r.message;
      }
    }
  }

  /** Round trip: a line with at least three fields parses, and printing the
      parsed response gives the line back. */
  lemma {:induction false} ResponseRoundTrip(s: string)
    requires |Split(s, ' ')| >= 3
    ensures ResponseFrom(s).Success?
    ensures ToString(ResponseFrom(s).value) == s
  {
    var c := Split(s, ' ');
    JoinSplit(s, ' ');
    JoinFirst(c, ' ');
    JoinFirst(c[1..], ' ');
    assert c[1..][1..] == c[2..];
    var st := StatusFrom(c[1]);
    if st.Success? {
      StatusRoundTrip(st.value, c[1]);
    }
  }

  /** A line made of a space-free tag, a space, and a rest that contains a
      space parses with that tag. */
  lemma TaggedLine(tag: string, rest: string, k: nat)
    requires ' ' !in tag && k < |rest| && rest[k] == ' '
    ensures |Split(tag + " " + rest, ' ')| >= 3
    ensures ResponseFrom(tag + " " + rest).Success?
    ensures ResponseFrom(tag + " " + rest).value.tag == tag
    ensures ToString(ResponseFrom(tag + " " + rest).value) == tag + " " + rest
  {
    var s := tag + " " + rest;
    assert s == tag + [' '] + rest;
    SplitAt(tag, rest, ' ');
    SplitWithout(tag, ' ');
    SplitHasTwo(rest, ' ');
    ResponseRoundTrip(s);
  }

  /** An untagged line `* <word> <text>`, whose first word after the star
      ends at `k`, parses with tag `*`; the word is the status when it is a
      status word, else the start of the message. */
  lemma UntaggedParse(rest: string, k: nat)
    requires k < |rest| && rest[k] == ' ' && ' ' !in rest[..k]
    ensures var st := StatusFrom(rest[..k]);
      ResponseFrom("* " + rest)
      == Success(Response("*", st.ToOption(), if st.Success? then rest[k + 1..] else rest))
  {
    var word, text := rest[..k], rest[k + 1..];
    assert rest == word + [' '] + text;
    assert "* " + rest == "*" + [' '] + rest;
    SplitAt("*", rest, ' ');
    SplitAt(word, text, ' ');
    SplitWithout("*", ' ');
    SplitWithout(word, ' ');
    var c := Split("* " + rest, ' ');
    assert c == ["*", word] + Split(text, ' ');
    assert c[1..] == Split(rest, ' ');
    assert c[2..] == Split(text, ' ');
    JoinSplit(rest, ' ');
    JoinSplit(text, ' ');
  }

  /** The same, for a line written as its first word and the rest; the
      response prints back as the line. */
  lemma UntaggedWords(line: string, word: string, text: string)
    requires ' ' !in word && line == "* " + word + " " + text
    ensures var st := StatusFrom(word);
      ResponseFrom(line)
      == Success(Response("*", st.ToOption(), if st.Success? then text else word + " " + text))
    ensures ToString(ResponseFrom(line).value) == line
  {
    var rest := word + " " + text;
    assert rest[|word|] == ' ' && rest[..|word|] == word && rest[|word| + 1..] == text;
    assert line == "* " + rest;
    UntaggedParse(rest, |word|);
    ResponseFromFields(line);
    ResponseRoundTrip(line);
  }

  // ---------------------------------------------------------------------
  // Command::parse

  /** An argument wrapped in `q`: what `parse` strips. */
  predicate Quoted(arg: string, q: char) {
    |arg| >= 1 && arg[0] == q && arg[|arg| - 1] == q
  }

  /** A single quote character on its own: `parse` panics slicing it. */
  predicate LoneQuote(arg: string) { arg == "\"" || arg == "'" }

  /** The quote stripping `parse` applies to each argument. */
  function StripQuotes(arg: string): string
    requires !LoneQuote(arg)
  {
    if Quoted(arg, '"') || Quoted(arg, '\'') then arg[1..|arg| - 1] else arg
  }

  /** `parse` does not panic on `line`: no argument field is a lone quote. */
  predicate NoLoneQuote(line: string) {
    var v := Split(line, ' ');
    forall i :: 2 <= i < |v| ==> !LoneQuote(v[i])
  }

  /** `Command::parse`: split on every single space; field 0 is the tag,
      field 1 the verb (case kept), the rest are arguments with one layer of
      matching quotes removed. */
  function Parse(line: string): Result<Command, ParseError>
    requires NoLoneQuote(line)
  {
    var v := Split(line, ' ');
    if |v| < 2 then Failure(ParseError)
    else
      Success(Command(v[0], v[1],
        seq(|v| - 2, i requires 0 <= i < |v| - 2 => StripQuotes(v[i + 2]))))
  }

  /** Stripping removes exactly one matching pair of quotes and leaves any
      other argument alone. */
  lemma StripQuotesInverse(x: string, q: char, arg: string)
    requires q == '"' || q == '\''
    requires !LoneQuote(arg)
    ensures StripQuotes([q] + x + [q]) == x
    ensures !Quoted(arg, '"') && !Quoted(arg, '\'') ==> StripQuotes(arg) == arg
  {
    var a := [q] + x + [q];
    assert a[1..|a| - 1] == x;
  }

  /** Parsing fails exactly when the line contains no space. */
  lemma ParseFailsIffNoSpace(line: string)
    requires NoLoneQuote(line)
    ensures Parse(line).Failure? <==> ' ' !in line
  {
    SplitHasTwo(line, ' ');
  }

  predicate Unquoted(args: seq<string>) {
    forall i :: 0 <= i < |args| ==> !Quoted(args[i], '"') && !Quoted(args[i], '\'')
  }

  /** Parsing inverts writing a command out with single spaces: the tag,
      the verb (in its own case) and every argument come back unchanged and
      in order, empty pieces included. */
  lemma ParseJoin(tag: string, verb: string, args: seq<string>)
    requires Free([tag, verb] + args, ' ') && Unquoted(args)
    ensures NoLoneQuote(Join([tag, verb] + args, ' '))
    ensures Parse(Join([tag, verb] + args, ' ')) == Success(Command(tag, verb, args))
  {
    var parts := [tag, verb] + args;
    SplitJoin(parts, ' ');
    var line := Join(parts, ' ');
    assert Split(line, ' ') == parts;
    forall i | 2 <= i < |parts| ensures !LoneQuote(parts[i]) {
      assert parts[i] == args[i - 2];
    }
    var c := Parse(line).value;
    assert parts[0] == tag && parts[1] == verb;
    assert |c.args| == |args|;
    forall i | 0 <= i < |args| ensures c.args[i] == args[i] {
      assert parts[i + 2] == args[i];
      assert c.args[i] == StripQuotes(parts[i + 2]);
    }
    assert c.args == args;
  }

  function Quote(q: char, x: string): string { [q] + x + [q] }

  /** Quoted arguments come back without their quotes. */
  lemma ParseQuoted(line: string, tag: string, verb: string, x: string, y: string)
    requires Free([tag, verb, x, y], ' ')
    requires line == Join([tag, verb, Quote('\'', x), Quote('"', y)], ' ')
    ensures NoLoneQuote(line)
    ensures Parse(line) == Success(Command(tag, verb, [x, y]))
  {
    var qx := Quote('\'', x);
    var qy := Quote('"', y);
    var parts := [tag, verb, qx, qy];
    var plain := [tag, verb, x, y];
    assert ' ' !in plain[0] && ' ' !in plain[1] && ' ' !in plain[2] && ' ' !in plain[3];
    assert ' ' !in qx && ' ' !in qy;
    assert Free(parts, ' ');
    SplitJoin(parts, ' ');
    StripQuotesInverse(x, '\'', "");
    StripQuotesInverse(y, '"', "");
    var c := Parse(line).value;
    assert c.args == [StripQuotes(qx), StripQuotes(qy)];
  }

  /** `"a1 "` parses with an empty verb and no arguments. */
  lemma ParseEmptyVerb()
    ensures NoLoneQuote("a1 ")
    ensures Parse("a1 ") == Success(Command("a1", "", []))
  {
    assert "a1 " == "a1" + [' '] + "";
    SplitAt("a1", "", ' ');
    SplitWithout("a1", ' ');
    assert Split("a1 ", ' ') == ["a1", ""];
    assert Parse("a1 ").value.args == [];
  }

  /** The test of src/server.rs: quotes are stripped from both arguments and
      the result equals `Command::new` on the same pieces. */
  lemma ParseStripsQuotesExample(line: string)
    requires line == "a1 LOGIN 'me@email.com' \"password\""
    ensures NoLoneQuote(line)
    ensures Parse(line) == Success(NewCommand("a1", "LOGIN", ["me@email.com", "password"]))
  {
    LoginLineJoined(line);
    ParseLoginLine(line);
  }

  lemma LoginLineJoined(line: string)
    requires line == "a1 LOGIN 'me@email.com' \"password\""
    ensures line == Join(["a1", "LOGIN", Quote('\'', "me@email.com"), Quote('"', "password")], ' ')
  {
    var a, b := Quote('\'', "me@email.com"), Quote('"', "password");
    Join4("a1", "LOGIN", a, b, ' ');
    LoginQuotes(a, b);
    LoginLineText();
  }

  lemma LoginQuotes(a: string, b: string)
    requires a == Quote('\'', "me@email.com") && b == Quote('"', "password")
    ensures "a1" + [' '] + "LOGIN" + [' '] + a + [' '] + b
         == "a1 LOGIN " + "'me@email.com'" + " " + "\"password\""
  {
    assert "a1" + [' '] + "LOGIN" + [' '] == "a1 LOGIN ";
    assert a == "'me@email.com'";
    assert b == "\"password\"";
  }

  lemma LoginLineText()
    ensures "a1 LOGIN " + "'me@email.com'" + " " + "\"password\"" == "a1 LOGIN 'me@email.com' \"password\""
  {
  }

  lemma ParseLoginLine(line: string)
    requires line == Join(["a1", "LOGIN", Quote('\'', "me@email.com"), Quote('"', "password")], ' ')
    ensures NoLoneQuote(line)
    ensures Parse(line) == Success(NewCommand("a1", "LOGIN", ["me@email.com", "password"]))
  {
    var parts := ["a1", "LOGIN", "me@email.com", "password"];
    assert Free(parts, ' ') by {
      forall i | 0 <= i < 4 ensures ' ' !in parts[i] {
        assert ' ' !in "me@email.com";
        assert ' ' !in "password";
      }
    }
    ParseQuoted(line, "a1", "LOGIN", "me@email.com", "password");
    assert Chars.Upper("LOGIN") == "LOGIN";
  }
}
