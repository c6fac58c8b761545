/** The byte-level parser generation of src/parser.rs: a request line is
    split on the space byte with empty pieces dropped, the verb is
    lower-cased, and every failure carries the tag recovered so far.
    Responses are rendered as `<tag> <STATUS> <text>\n`, with `*` for an
    untagged response (sections 2.2.2 and 7.1 of RFC 9051). */
module Parser {
  import opened Wrappers
  import opened Bytes
  import opened Seqs
  import Utf8
  import opened Errors

  /** `parser::Command`. The `String` verb is kept as its UTF-8 bytes. */
  datatype Command = Command(tag: seq<byte>, command: seq<byte>, args: seq<seq<byte>>)

  datatype CompletionStatus = OK | NO | BAD

  /** `parser::Response`; its two `String` fields are kept as bytes. */
  datatype Response = Response(status: CompletionStatus, tag: seq<byte>, response: seq<byte>)

  /** `Display for CompletionStatus`. */
  function StatusText(s: CompletionStatus): (t: seq<byte>)
    ensures |t| >= 2 && SP !in t && LF !in t
  {
    match s
    case OK => [79, 75]
    case NO => [78, 79]
    case BAD => [66, 65, 68]
  }

  /** The three status words are distinct. */
  lemma StatusTextInjective(a: CompletionStatus, b: CompletionStatus)
    ensures StatusText(a) == StatusText(b) <==> a == b
  {
    if a != b {
      assert StatusText(a)[0] != StatusText(b)[0];
    }
  }

  /** `Response::new`. */
  function NewResponse(status: CompletionStatus, tag: seq<byte>, response: seq<byte>): (r: Response)
    ensures r.status == status && r.tag == tag && r.response == response
  {
    Response(status, tag, response)
  }

  /** `Response::from`: a tag that is not valid UTF-8 is replaced by the
      empty tag (`unwrap_or_default`). */
  function From(status: CompletionStatus, tag: seq<byte>, response: seq<byte>): (r: Response)
    ensures r.status == status && r.response == response
    ensures Utf8.Valid(tag) ==> r.tag == tag
    ensures !Utf8.Valid(tag) ==> r.tag == []
  {
    Response(status, if Utf8.Valid(tag) then tag else [], response)
  }

  const Star: seq<byte> := [42]

  /** The tag a rendered response starts with. */
  function ShownTag(tag: seq<byte>): seq<byte> {
    if tag == [] then Star else tag
  }

  /** The bytes `respond` writes. */
  function Render(r: Response): seq<byte> {
    ShownTag(r.tag) + [SP] + StatusText(r.status) + [SP] + r.response + [LF]
  }

  /** A rendered response is one line: it ends with a line feed, and read back
      field by field it gives the tag (or `*` for an empty tag), the status
      word and the text, as long as the tag holds no space. */
  lemma {:induction false} RenderFields(r: Response)
    requires SP !in r.tag
    ensures |Render(r)| > 0 && Render(r)[|Render(r)| - 1] == LF
    ensures var f := Split(Render(r)[..|Render(r)| - 1], SP);
      |f| >= 3 && f[0] == ShownTag(r.tag) && f[1] == StatusText(r.status)
      && Join(f[2..], SP) == r.response
  {
    var t, s, x := ShownTag(r.tag), StatusText(r.status), r.response;
    var body := Render(r)[..|Render(r)| - 1];
    assert body == t + [SP] + (s + [SP] + x);
    SplitTwo(t, s, x, SP);
    assert ([t, s] + Split(x, SP))[2..] == Split(x, SP);
    JoinSplit(x, SP);
  }

  /** The output buffer `respond` writes into (a `Vec<u8>` in the tests). */
  class Output {
    var bytes: seq<byte>

    constructor()
      ensures bytes == []
    {
      bytes := [];
    }
  }

  /** `Response::respond`: appends the rendered line to the output. */
  method Respond(r: Response, out: Output)
    modifies out
    ensures out.bytes == old(out.bytes) + Render(r)
  {
    out.bytes := out.bytes + Render(r);
  }

  /** The pieces `parse` reads: split on the space byte, empty pieces dropped. */
  function Pieces(input: seq<byte>): (p: seq<seq<byte>>)
    ensures forall i :: 0 <= i < |p| ==> p[i] != [] && SP !in p[i]
  {
    SplitFree(input, SP);
    NonEmptyFree(Split(input, SP), SP);
    NonEmpty(Split(input, SP))
  }

  const NoTag := "Tag not provided. Expected <tag SPACE command [arguments]>"
  const BadTag := "Tag is not a valid UTF-8 string. Expected <tag SPACE command [arguments]>"
  const NoCommand := "Command not provided. Expected <tag SPACE command [arguments]>"
  const BadCommand := "Provided command is not a valid UTF-8 string"

  /** The text of an `InvalidInput` error. */
  function Invalid(message: string): IoError { IoError(InvalidInput, message) }

  /** `get_tag`. */
  function GetTag(piece: Option<seq<byte>>): (r: Result<seq<byte>, ImapError>)
    ensures r.Success? <==> piece.Some? && Utf8.Valid(piece.value)
    ensures r.Success? ==> r.value == piece.value
    ensures r.Failure? ==> r.error.tag == [] && r.error.cause.kind == InvalidInput
  {
    match piece
    case None =>
      Failure(New([], Invalid(NoTag)))
    case Some(bytes) =>
      if Utf8.Valid(bytes) then Success(bytes)
      else Failure(New([], Invalid(BadTag)))
  }

  /** `s` with a single trailing line feed removed. */
  function DropLineFeed(s: seq<byte>): (r: seq<byte>)
    ensures s == r || s == r + [LF]
    ensures |s| > 0 && s[|s| - 1] == LF ==> s == r + [LF]
  {
    if |s| > 0 && s[|s| - 1] == LF then s[..|s| - 1] else s
  }

  /** `get_command`: the verb loses one trailing `\n` and is lower-cased;
      a missing or ill-formed verb is an error carrying the tag. */
  function GetCommand(tag: seq<byte>, piece: Option<seq<byte>>): (r: Result<seq<byte>, ImapError>)
    ensures r.Success? <==> piece.Some? && Utf8.Valid(piece.value)
    ensures r.Success? ==> r.value == Lower(DropLineFeed(piece.value))
    ensures r.Failure? ==> r.error.tag == tag && r.error.cause.kind == InvalidInput
  {
    match piece
    case None =>
      Failure(New(tag, Invalid(NoCommand)))
    case Some(bytes) =>
      if Utf8.Valid(bytes) then Success(Lower(DropLineFeed(bytes)))
      else Failure(New(tag, Invalid(BadCommand)))
  }

  /** An argument piece `get_args` skips: exactly `\n` or `\r\n`. */
  predicate IsLineEnd(piece: seq<byte>) {
    piece == [LF] || piece == [CR, LF]
  }

  function HexDigit(d: int): char
    requires 0 <= d < 16
  {
    if d < 10 then ('0' as int + d) as char else ('a' as int + d - 10) as char
  }

  /** Rust's `{:02x?}` on a byte slice: `[c0, c1]`. */
  function HexList(s: seq<byte>): string {
    "[" + HexItems(s) + "]"
  }

  function HexItems(s: seq<byte>): string
    decreases |s|
  {
    if |s| == 0 then ""
    else
      var item := [HexDigit(s[0] as int / 16), HexDigit(s[0] as int % 16)];
      if |s| == 1 then item else item + ", " + HexItems(s[1..])
  }

  function ArgError(tag: seq<byte>, arg: seq<byte>): ImapError {
    New(tag, Invalid("Provided arg " + HexList(arg) + " is not a valid UTF-8 string"))
  }

  /** The argument pieces `get_args` keeps, in order. */
  function Kept(pieces: seq<seq<byte>>): (k: seq<seq<byte>>)
    ensures |k| <= |pieces|
    ensures forall x :: x in k ==> x in pieces && !IsLineEnd(x)
    ensures forall x :: x in pieces && !IsLineEnd(x) ==> x in k
    decreases |pieces|
  {
    if |pieces| == 0 then []
    else if IsLineEnd(pieces[0]) then Kept(pieces[1..])
    else [pieces[0]] + Kept(pieces[1..])
  }

  /** What `get_args` returns: the kept pieces, or the error for the first
      kept piece that is not valid UTF-8. */
  function Args(tag: seq<byte>, pieces: seq<seq<byte>>): Result<seq<seq<byte>>, ImapError>
    decreases |pieces|
  {
    if |pieces| == 0 then Success([])
    else if IsLineEnd(pieces[0]) then Args(tag, pieces[1..])
    else if !Utf8.Valid(pieces[0]) then Failure(ArgError(tag, pieces[0]))
    else Prepend([pieces[0]], Args(tag, pieces[1..]))
  }

  function Prepend(front: seq<seq<byte>>, r: Result<seq<seq<byte>>, ImapError>): Result<seq<seq<byte>>, ImapError> {
    if r.Success? then Success(front + r.value) else r
  }

  predicate AllValid(pieces: seq<seq<byte>>) {
    forall i :: 0 <= i < |pieces| ==> Utf8.Valid(pieces[i])
  }

  lemma AllValidCons(x: seq<byte>, rest: seq<seq<byte>>)
    ensures AllValid([x] + rest) <==> Utf8.Valid(x) && AllValid(rest)
  {
    if Utf8.Valid(x) && AllValid(rest) {
      forall i | 0 <= i < |[x] + rest| ensures Utf8.Valid(([x] + rest)[i]) {
        if i > 0 {
          assert ([x] + rest)[i] == rest[i - 1];
        }
      }
    }
    if AllValid([x] + rest) {
      assert ([x] + rest)[0] == x;
      forall i | 0 <= i < |rest| ensures Utf8.Valid(rest[i]) {
        assert ([x] + rest)[i + 1] == rest[i];
      }
    }
  }

  /** `get_args` succeeds exactly when every kept piece is valid UTF-8, and
      then returns the kept pieces; otherwise its error carries the tag. */
  lemma {:induction false} ArgsMeaning(tag: seq<byte>, pieces: seq<seq<byte>>)
    ensures Args(tag, pieces).Success? <==> AllValid(Kept(pieces))
    ensures Args(tag, pieces).Success? ==> Args(tag, pieces).value == Kept(pieces)
    ensures Args(tag, pieces).Failure? ==>
      Args(tag, pieces).error.tag == tag && Args(tag, pieces).error.cause.kind == InvalidInput
    decreases |pieces|
  {
    if |pieces| > 0 {
      ArgsMeaning(tag, pieces[1..]);
      if !IsLineEnd(pieces[0]) {
        AllValidCons(pieces[0], Kept(pieces[1..]));
      }
    }
  }

  /** `get_args`: walks the argument pieces, skipping line ends, and stops
      at the first piece that is not valid UTF-8. */
  method GetArgs(tag: seq<byte>, pieces: seq<seq<byte>>) returns (r: Result<seq<seq<byte>>, ImapError>)
    ensures r == Args(tag, pieces)
  {
    var args: seq<seq<byte>> := [];
    var i := 0;
    assert pieces[0..] == pieces;
    PrependNothing(Args(tag, pieces));
    while i < |pieces|
      invariant 0 <= i <= |pieces|
      invariant Args(tag, pieces) == Prepend(args, Args(tag, pieces[i..]))
    {
      var arg := pieces[i];
      assert pieces[i..][1..] == pieces[i + 1..];
      if IsLineEnd(arg) {
        i := i + 1;
        continue;
      }
      if !Utf8.Valid(arg) {
        return Failure(ArgError(tag, arg));
      }
      PrependTwice(args, [arg], Args(tag, pieces[i + 1..]));
      args := args + [arg];
      i := i + 1;
    }
    assert pieces[i..] == [];
    assert args + [] == args;
    return Success(args);
  }

  lemma PrependNothing(r: Result<seq<seq<byte>>, ImapError>)
    ensures Prepend([], r) == r
  {
    if r.Success? {
      assert [] + r.value == r.value;
    }
  }

  lemma PrependTwice(a: seq<seq<byte>>, b: seq<seq<byte>>, r: Result<seq<seq<byte>>, ImapError>)
    ensures Prepend(a, Prepend(b, r)) == Prepend(a + b, r)
  {
    if r.Success? {
      assert a + (b + r.value) == (a + b) + r.value;
    }
  }

  /** What `Parser::parse` returns for `input`. */
  function Parsed(input: seq<byte>): Result<Command, ImapError> {
    ParsePieces(Pieces(input))
  }

  function ParsePieces(p: seq<seq<byte>>): Result<Command, ImapError> {
    var tag := GetTag(if |p| > 0 then Some(p[0]) else None);
    if tag.Failure? then Failure(tag.error)
    else
      var verb := GetCommand(tag.value, if |p| > 1 then Some(p[1]) else None);
      if verb.Failure? then Failure(verb.error)
      else
        var args := Args(tag.value, if |p| > 2 then p[2..] else []);
        if args.Failure? then Failure(args.error)
        else Success(Command(tag.value, verb.value, args.value))
  }

  /** `Parser::parse`. */
  method Parse(input: seq<byte>) returns (r: Result<Command, ImapError>)
    ensures r == Parsed(input)
  {
    var p := Pieces(input);
    var tag := GetTag(if |p| > 0 then Some(p[0]) else None);
    if tag.Failure? {
      return Failure(tag.error);
    }
    var verb := GetCommand(tag.value, if |p| > 1 then Some(p[1]) else None);
    if verb.Failure? {
      return Failure(verb.error);
    }
    var args := GetArgs(tag.value, if |p| > 2 then p[2..] else []);
    if args.Failure? {
      return Failure(args.error);
    }
    return Success(Command(tag.value, verb.value, args.value));
  }

  /** Splitting at a space and dropping empty pieces distributes over the
      two sides of that space. */
  lemma PiecesAt(a: seq<byte>, b: seq<byte>)
    ensures Pieces(a + [SP] + b) == Pieces(a) + Pieces(b)
  {
    SplitAt(a, b, SP);
    NonEmptyConcat(Split(a, SP), Split(b, SP));
  }

  lemma PiecesOfNothing()
    ensures Pieces([]) == []
  {
    assert Split([], SP) == [[]];
  }

  /** Leading, trailing and repeated spaces do not change what is parsed. */
  lemma LeadingSpaceIgnored(a: seq<byte>)
    ensures Pieces([SP] + a) == Pieces(a)
    ensures Parsed([SP] + a) == Parsed(a)
  {
    PiecesAt([], a);
    PiecesOfNothing();
    assert [] + [SP] + a == [SP] + a;
  }

  lemma TrailingSpaceIgnored(a: seq<byte>)
    ensures Pieces(a + [SP]) == Pieces(a)
    ensures Parsed(a + [SP]) == Parsed(a)
  {
    PiecesAt(a, []);
    PiecesOfNothing();
    assert a + [SP] + [] == a + [SP];
    assert Pieces(a) + [] == Pieces(a);
  }

  lemma RepeatedSpaceIgnored(a: seq<byte>, b: seq<byte>)
    ensures Pieces(a + [SP, SP] + b) == Pieces(a + [SP] + b)
    ensures Parsed(a + [SP, SP] + b) == Parsed(a + [SP] + b)
  {
    assert a + [SP, SP] + b == (a + [SP]) + [SP] + b;
    PiecesAt(a + [SP], b);
    PiecesAt(a, b);
    TrailingSpaceIgnored(a);
  }

  /** How `parse` ends, as a function of the pieces: no tag or an ill-formed
      tag gives an error with the empty tag; no verb or an ill-formed verb
      an error with the tag; otherwise the kept arguments, or an error with
      the tag if one of them is ill-formed. Every error is `InvalidInput`. */
  lemma ParseOutcome(input: seq<byte>)
    ensures var p := Pieces(input);
      && ((|p| == 0 || !Utf8.Valid(p[0])) ==>
            Parsed(input).Failure? && Parsed(input).error.tag == [])
      && ((|p| >= 1 && Utf8.Valid(p[0]) && (|p| == 1 || !Utf8.Valid(p[1]))) ==>
            Parsed(input).Failure? && Parsed(input).error.tag == p[0])
      && ((|p| >= 2 && Utf8.Valid(p[0]) && Utf8.Valid(p[1])) ==>
            (Parsed(input).Success? <==>
               AllValid(Kept(p[2..])))
            && (Parsed(input).Success? ==>
                 Parsed(input).value == Command(p[0], Lower(DropLineFeed(p[1])), Kept(p[2..])))
            && (Parsed(input).Failure? ==> Parsed(input).error.tag == p[0]))
    ensures Parsed(input).Failure? ==> Parsed(input).error.cause.kind == InvalidInput
  {
    var p := Pieces(input);
    if |p| == 0 || !Utf8.Valid(p[0]) {
      TagMissing(p);
    } else if |p| == 1 || !Utf8.Valid(p[1]) {
      VerbMissing(p);
    } else {
      ArgsOutcome(p);
    }
  }

  lemma TagMissing(p: seq<seq<byte>>)
    requires |p| == 0 || !Utf8.Valid(p[0])
    ensures ParsePieces(p).Failure? && ParsePieces(p).error.tag == []
    ensures ParsePieces(p).error.cause.kind == InvalidInput
  {
    var tag := GetTag(if |p| > 0 then Some(p[0]) else None);
    assert tag.Failure?;
    assert ParsePieces(p) == Failure(tag.error);
  }

  lemma VerbMissing(p: seq<seq<byte>>)
    requires |p| >= 1 && Utf8.Valid(p[0]) && (|p| == 1 || !Utf8.Valid(p[1]))
    ensures ParsePieces(p).Failure? && ParsePieces(p).error.tag == p[0]
    ensures ParsePieces(p).error.cause.kind == InvalidInput
  {
    var tag := GetTag(Some(p[0]));
    assert tag == Success(p[0]);
    var verb := GetCommand(p[0], if |p| > 1 then Some(p[1]) else None);
    assert verb.Failure?;
    assert ParsePieces(p) == Failure(verb.error);
  }

  lemma ArgsOutcome(p: seq<seq<byte>>)
    requires |p| >= 2 && Utf8.Valid(p[0]) && Utf8.Valid(p[1])
    ensures ParsePieces(p).Success? <==> AllValid(Kept(p[2..]))
    ensures ParsePieces(p).Success? ==>
      ParsePieces(p).value == Command(p[0], Lower(DropLineFeed(p[1])), Kept(p[2..]))
    ensures ParsePieces(p).Failure? ==>
      ParsePieces(p).error.tag == p[0] && ParsePieces(p).error.cause.kind == InvalidInput
  {
    ArgsMeaning(p[0], p[2..]);
    if |p| == 2 {
      assert p[2..] == [];
    }
  }

  /** Dropping empty pieces keeps a sequence with none. */
  lemma {:induction false} NonEmptyKeepsAll(parts: seq<seq<byte>>)
    requires forall i :: 0 <= i < |parts| ==> parts[i] != []
    ensures NonEmpty(parts) == parts
    decreases |parts|
  {
    if |parts| > 0 {
      NonEmptyKeepsAll(parts[1..]);
      assert parts == [parts[0]] + parts[1..];
    }
  }

  /** No piece is dropped when none is a line end. */
  lemma {:induction false} KeptAll(pieces: seq<seq<byte>>)
    requires forall i :: 0 <= i < |pieces| ==> !IsLineEnd(pieces[i])
    ensures Kept(pieces) == pieces
    decreases |pieces|
  {
    if |pieces| > 0 {
      KeptAll(pieces[1..]);
      assert pieces == [pieces[0]] + pieces[1..];
    }
  }

  /** The pieces of words joined by single spaces are the words. */
  lemma PiecesJoin(words: seq<seq<byte>>)
    requires |words| >= 1
    requires forall i :: 0 <= i < |words| ==> words[i] != [] && SP !in words[i]
    ensures Pieces(Join(words, SP)) == words
  {
    SplitJoin(words, SP);
    NonEmptyKeepsAll(words);
  }

  /** `parse` succeeds on a tag, a verb and arguments separated by single
      spaces when all are well formed and no argument is a line end: the
      command holds the tag, the lower-cased verb and the arguments in
      order. */
  lemma ParseWords(tag: seq<byte>, verb: seq<byte>, args: seq<seq<byte>>)
    requires tag != [] && verb != [] && SP !in tag && SP !in verb
    requires Utf8.Valid(tag) && Utf8.Valid(verb)
    requires forall i :: 0 <= i < |args| ==>
      args[i] != [] && SP !in args[i] && Utf8.Valid(args[i]) && !IsLineEnd(args[i])
    ensures Parsed(Join([tag, verb] + args, SP))
         == Success(Command(tag, Lower(DropLineFeed(verb)), args))
  {
    var words := [tag, verb] + args;
    WordsPieces(tag, verb, args);
    KeptAll(args);
    assert AllValid(args);
    assert words[2..] == args;
    ArgsOutcome(words);
  }

  lemma WordsPieces(tag: seq<byte>, verb: seq<byte>, args: seq<seq<byte>>)
    requires tag != [] && verb != [] && SP !in tag && SP !in verb
    requires forall i :: 0 <= i < |args| ==> args[i] != [] && SP !in args[i]
    ensures Pieces(Join([tag, verb] + args, SP)) == [tag, verb] + args
  {
    WordsFree(tag, verb, args);
    PiecesJoin([tag, verb] + args);
  }

  lemma WordsFree(tag: seq<byte>, verb: seq<byte>, args: seq<seq<byte>>)
    requires tag != [] && verb != [] && SP !in tag && SP !in verb
    requires forall i :: 0 <= i < |args| ==> args[i] != [] && SP !in args[i]
    ensures forall i :: 0 <= i < |[tag, verb] + args| ==>
      ([tag, verb] + args)[i] != [] && SP !in ([tag, verb] + args)[i]
  {
    var words := [tag, verb] + args;
    forall i | 0 <= i < |words| ensures words[i] != [] && SP !in words[i] {
      if i == 0 {
        assert words[i] == tag;
      } else if i == 1 {
        assert words[i] == verb;
      } else {
        assert words[i] == args[i - 2];
      }
    }
  }

  lemma PieceOf(s: seq<byte>)
    requires s != [] && SP !in s
    ensures Pieces(s) == [s]
  {
    SplitWithout(s, SP);
  }

  function Spaces(n: nat): (s: seq<byte>)
    ensures |s| == n && forall i :: 0 <= i < n ==> s[i] == SP
  {
    seq(n, _ => SP)
  }

  /** A run of spaces separates pieces like a single space. */
  lemma {:induction false} PiecesRun(a: seq<byte>, n: nat, b: seq<byte>)
    requires n >= 1
    ensures Pieces(a + Spaces(n) + b) == Pieces(a) + Pieces(b)
    decreases n
  {
    if n == 1 {
      assert Spaces(1) == [SP];
      PiecesAt(a, b);
    } else {
      assert a + Spaces(n) + b == a + [SP] + (Spaces(n - 1) + b);
      PiecesAt(a, Spaces(n - 1) + b);
      PiecesRun([], n - 1, b);
      assert [] + Spaces(n - 1) + b == Spaces(n - 1) + b;
      PiecesOfNothing();
    }
  }

  /** Three words with runs of spaces between them are its three pieces. */
  lemma PiecesWordsRun(tag: seq<byte>, verb: seq<byte>, arg: seq<byte>, n1: nat, n2: nat)
    requires n1 >= 1 && n2 >= 1
    requires tag != [] && verb != [] && arg != []
    requires SP !in tag && SP !in verb && SP !in arg
    ensures Pieces(tag + Spaces(n1) + verb + Spaces(n2) + arg) == [tag, verb, arg]
  {
    PiecesRun(tag + Spaces(n1) + verb, n2, arg);
    PiecesRun(tag, n1, verb);
    PieceOf(tag);
    PieceOf(verb);
    PieceOf(arg);
    assert [tag] + [verb] + [arg] == [tag, verb, arg];
  }

  /** Words with runs of spaces before, between and after them, and a final
      `\r\n` piece, give exactly those words and the line end as pieces. */
  lemma PiecesSpaced(input: seq<byte>, tag: seq<byte>, verb: seq<byte>, arg: seq<byte>,
                     n0: nat, n1: nat, n2: nat, n3: nat)
    requires n1 >= 1 && n2 >= 1 && n3 >= 1
    requires input == Spaces(n0) + tag + Spaces(n1) + verb + Spaces(n2) + arg + Spaces(n3) + [CR, LF]
    requires tag != [] && verb != [] && arg != []
    requires SP !in tag && SP !in verb && SP !in arg
    ensures Pieces(input) == [tag, verb, arg, [CR, LF]]
  {
    var w := tag + Spaces(n1) + verb + Spaces(n2) + arg;
    var rest := w + Spaces(n3) + [CR, LF];
    assert input == Spaces(n0) + rest;
    PiecesRun(w, n3, [CR, LF]);
    PiecesWordsRun(tag, verb, arg, n1, n2);
    PieceOf([CR, LF]);
    assert Pieces(rest) == [tag, verb, arg] + [[CR, LF]];
    PiecesLead(n0, rest);
  }

  /** Leading spaces, however many, add no piece. */
  lemma PiecesLead(n: nat, rest: seq<byte>)
    ensures Pieces(Spaces(n) + rest) == Pieces(rest)
  {
    if n > 0 {
      PiecesRun([], n, rest);
      PiecesOfNothing();
      assert [] + Spaces(n) + rest == Spaces(n) + rest;
    } else {
      assert Spaces(n) + rest == rest;
    }
  }

  /** Such a line parses as if single spaces separated the words; the line
      end is not an argument. */
  lemma ParseSpacedWords(input: seq<byte>, tag: seq<byte>, verb: seq<byte>, arg: seq<byte>,
                         n0: nat, n1: nat, n2: nat, n3: nat)
    requires n1 >= 1 && n2 >= 1 && n3 >= 1
    requires input == Spaces(n0) + tag + Spaces(n1) + verb + Spaces(n2) + arg + Spaces(n3) + [CR, LF]
    requires tag != [] && verb != [] && arg != []
    requires SP !in tag && SP !in verb && SP !in arg
    requires Utf8.Valid(tag) && Utf8.Valid(verb) && Utf8.Valid(arg) && !IsLineEnd(arg)
    ensures Parsed(input) == Success(Command(tag, Lower(DropLineFeed(verb)), [arg]))
  {
    PiecesSpaced(input, tag, verb, arg, n0, n1, n2, n3);
    var p := Pieces(input);
    assert p[2..] == [arg, [CR, LF]];
    assert Kept([arg, [CR, LF]]) == [arg] by {
      assert [arg, [CR, LF]][1..] == [[CR, LF]];
      assert [[CR, LF]][1..] == [];
    }
    ArgsMeaning(tag, [arg, [CR, LF]]);
    AllValidCons(arg, []);
  }

  /** The bytes of a concatenation are the concatenated bytes. */
  lemma OfConcat(a: string, b: string)
    ensures Of(a + b) == Of(a) + Of(b)
  {
  }

  /** The bytes of ASCII text are valid UTF-8 and hold a space or a line
      feed exactly where the text does. */
  lemma AsciiText(s: string)
    requires forall i :: 0 <= i < |s| ==> s[i] as int < 128
    ensures Utf8.Valid(Of(s))
    ensures SP in Of(s) <==> ' ' in s
    ensures LF in Of(s) <==> '\n' in s
  {
    Utf8.AsciiValid(Of(s));
    if SP in Of(s) {
      var i :| 0 <= i < |s| && Of(s)[i] == SP;
      assert s[i] == ' ';
    }
    if LF in Of(s) {
      var i :| 0 <= i < |s| && Of(s)[i] == LF;
      assert s[i] == '\n';
    }
  }

  /** Printable ASCII without spaces makes a well-formed piece. */
  lemma AsciiWord(s: string)
    requires forall i :: 0 <= i < |s| ==> ' ' < s[i] <= '~'
    ensures SP !in Of(s) && LF !in Of(s) && Utf8.Valid(Of(s)) && !IsLineEnd(Of(s))
  {
    Utf8.AsciiValid(Of(s));
  }

  /** Valid words without line feeds, joined by single spaces, make valid
      text without line feeds. */
  lemma {:induction false} JoinText(words: seq<seq<byte>>)
    requires forall i :: 0 <= i < |words| ==> Utf8.Valid(words[i]) && LF !in words[i]
    ensures Utf8.Valid(Join(words, SP)) && LF !in Join(words, SP)
    decreases |words|
  {
    if |words| > 1 {
      assert forall i :: 0 <= i < |words| - 1 ==> words[1..][i] == words[i + 1];
      JoinText(words[1..]);
      Utf8.AsciiValid([SP]);
      Utf8.ValidConcat(words[0], [SP]);
      Utf8.ValidConcat(words[0] + [SP], Join(words[1..], SP));
    }
  }

  /** ASCII words separated by single spaces are the bytes of those words
      joined by the space byte. */
  lemma OfJoin3(s: string, a: string, b: string, c: string)
    requires s == a + " " + b + " " + c
    ensures Of(s) == Join([Of(a), Of(b), Of(c)], SP)
  {
    Seqs.Join3(Of(a), Of(b), Of(c), SP);
    OfConcat(a + " " + b + " ", c);
    OfConcat(a + " " + b, " ");
    OfConcat(a + " ", b);
    OfConcat(a, " ");
  }

  lemma OfJoin4(s: string, a: string, b: string, c: string, d: string)
    requires s == a + " " + b + " " + c + " " + d
    ensures Of(s) == Join([Of(a), Of(b), Of(c), Of(d)], SP)
  {
    Seqs.Join4(Of(a), Of(b), Of(c), Of(d), SP);
    OfConcat(a + " " + b + " " + c + " ", d);
    OfConcat(a + " " + b + " " + c, " ");
    OfConcat(a + " " + b + " ", c);
    OfConcat(a + " " + b, " ");
    OfConcat(a + " ", b);
    OfConcat(a, " ");
  }

  /** The words of the tests of src/parser.rs are well-formed pieces. */
  lemma TestWords(tag: seq<byte>, verb: seq<byte>, arg: seq<byte>)
    requires tag == Of("tag1") && verb == Of("OTHER") && arg == Of("data")
    ensures tag != [] && SP !in tag && Utf8.Valid(tag)
    ensures verb != [] && SP !in verb && Utf8.Valid(verb)
    ensures arg != [] && SP !in arg && Utf8.Valid(arg) && !IsLineEnd(arg)
  {
    AsciiWord("tag1");
    AsciiWord("OTHER");
    AsciiWord("data");
  }

  lemma LowerOther(verb: seq<byte>)
    requires verb == Of("OTHER")
    ensures Lower(DropLineFeed(verb)) == Of("other")
  {
  }

  /** The tests of src/parser.rs: the tag is the first piece, the verb is
      lower-cased, and the first argument is the third piece. */
  lemma ParseExample(input: seq<byte>)
    requires input == Of("tag1 OTHER data")
    ensures Parsed(input) == Success(Command(Of("tag1"), Of("other"), [Of("data")]))
  {
    var tag, verb, arg := Of("tag1"), Of("OTHER"), Of("data");
    TestWords(tag, verb, arg);
    ExampleLine();
    OfJoin3("tag1 OTHER data", "tag1", "OTHER", "data");
    ParseThree(tag, verb, arg);
    LowerOther(verb);
  }

  /** A line of three words parses as tag, verb and one argument. */
  lemma ParseThree(tag: seq<byte>, verb: seq<byte>, arg: seq<byte>)
    requires tag != [] && verb != [] && arg != []
    requires SP !in tag && SP !in verb && SP !in arg
    requires Utf8.Valid(tag) && Utf8.Valid(verb) && Utf8.Valid(arg) && !IsLineEnd(arg)
    ensures Parsed(Join([tag, verb, arg], SP)) == Success(Command(tag, Lower(DropLineFeed(verb)), [arg]))
  {
    assert [tag, verb] + [arg] == [tag, verb, arg];
    ParseWords(tag, verb, [arg]);
  }

  lemma ExampleLine()
    ensures "tag1 OTHER data" == "tag1" + " " + "OTHER" + " " + "data"
  {
  }

  /** The test of src/parser.rs with extra spaces and a closing `\r\n`. */
  lemma ParseSpacedExample(input: seq<byte>)
    requires input == Of("   tag1    OTHER    data     \r\n")
    ensures Parsed(input) == Success(Command(Of("tag1"), Of("other"), [Of("data")]))
  {
    TestWords(Of("tag1"), Of("OTHER"), Of("data"));
    SpacedLine(input);
    ParseSpacedWords(input, Of("tag1"), Of("OTHER"), Of("data"), 3, 4, 4, 5);
    LowerOther(Of("OTHER"));
  }

  lemma SpacedLine(input: seq<byte>)
    requires input == Of("   tag1    OTHER    data     \r\n")
    ensures input == Spaces(3) + Of("tag1") + Spaces(4) + Of("OTHER") + Spaces(4) + Of("data") + Spaces(5) + [CR, LF]
  {
    assert "   tag1    OTHER    data     \r\n" == "   " + "tag1" + "    " + "OTHER" + "    " + "data" + "     " + "\r\n";
    OfConcat("   " + "tag1" + "    " + "OTHER" + "    " + "data" + "     ", "\r\n");
    OfConcat("   " + "tag1" + "    " + "OTHER" + "    " + "data", "     ");
    OfConcat("   " + "tag1" + "    " + "OTHER" + "    ", "data");
    OfConcat("   " + "tag1" + "    " + "OTHER", "    ");
    OfConcat("   " + "tag1" + "    ", "OTHER");
    OfConcat("   " + "tag1", "    ");
    OfConcat("   ", "tag1");
    assert Of("   ") == Spaces(3);
    assert Of("    ") == Spaces(4);
    assert Of("     ") == Spaces(5);
    assert Of("\r\n") == [CR, LF];
  }

  /** The test of src/parser.rs with an ill-formed tag: the error has no tag. */
  lemma ParseInvalidTagExample(input: seq<byte>)
    requires input == [0xC0, 0xC1, 0xF5, 0xF6, 0xF7, 0xF8, 0xF9, 0xFA, 0xFB, 0xFC, 0xFD, 0xFE, 0xFF] + [SP] + Of("test")
    ensures Parsed(input).Failure? && Parsed(input).error.tag == []
  {
    var bad: seq<byte> := [0xC0, 0xC1, 0xF5, 0xF6, 0xF7, 0xF8, 0xF9, 0xFA, 0xFB, 0xFC, 0xFD, 0xFE, 0xFF];
    var test := Of("test");
    AsciiWord("test");
    assert SP !in bad;
    PiecesPair(bad, test);
    Utf8.InvalidLead(bad);
    assert GetTag(Some(bad)).Failure?;
  }

  /** Two pieces around a single space. */
  lemma PiecesPair(a: seq<byte>, b: seq<byte>)
    requires a != [] && b != [] && SP !in a && SP !in b
    ensures Pieces(a + [SP] + b) == [a, b]
  {
    PiecesAt(a, b);
    PieceOf(a);
    PieceOf(b);
  }

  /** A response with ASCII tag and text renders as the characters of
      `<tag> <STATUS> <text>\n`. */
  lemma RenderText(line: string, st: CompletionStatus, word: string, tag: string, text: string, head: string)
    requires Of(word) == StatusText(st) && tag != []
    requires head == tag + " " + word + " " && line == head + text + "\n"
    ensures Render(Response(st, Of(tag), Of(text))) == Of(line)
  {
    OfConcat(head + text, "\n");
    OfConcat(head, text);
    OfConcat(tag + " " + word, " ");
    OfConcat(tag + " ", word);
    OfConcat(tag, " ");
  }

  /** The line heads of the tests: a tag, a status word, and their spaces. */
  lemma Heads()
    ensures "tag1 OK " == "tag1" + " " + "OK" + " "
    ensures "tag1 NO " == "tag1" + " " + "NO" + " "
    ensures "tag1 BAD " == "tag1" + " " + "BAD" + " "
    ensures "* OK " == "*" + " " + "OK" + " "
    ensures "thisstringofbyte BAD " == "thisstringofbyte" + " " + "BAD" + " "
  {
  }

  /** The tests of src/parser.rs for `respond`. */
  lemma RespondOkExample()
    ensures Render(Response(OK, Of("tag1"), Of("Your response"))) == Of("tag1 OK Your response\n")
  {
    Heads();
    RespondOkLine();
    RenderText("tag1 OK Your response\n", OK, "OK", "tag1", "Your response", "tag1 OK ");
  }

  lemma RespondOkLine()
    ensures "tag1 OK Your response\n" == "tag1 OK " + "Your response" + "\n"
  {
  }

  lemma RespondNoExample()
    ensures Render(Response(NO, Of("tag1"), Of("Your response"))) == Of("tag1 NO Your response\n")
  {
    Heads();
    RespondNoLine();
    RenderText("tag1 NO Your response\n", NO, "NO", "tag1", "Your response", "tag1 NO ");
  }

  lemma RespondNoLine()
    ensures "tag1 NO Your response\n" == "tag1 NO " + "Your response" + "\n"
  {
  }

  lemma RespondBadExample()
    ensures Render(Response(BAD, Of("tag1"), Of("Your response"))) == Of("tag1 BAD Your response\n")
  {
    Heads();
    RespondBadLine();
    RenderText("tag1 BAD Your response\n", BAD, "BAD", "tag1", "Your response", "tag1 BAD ");
  }

  lemma RespondBadLine()
    ensures "tag1 BAD Your response\n" == "tag1 BAD " + "Your response" + "\n"
  {
  }

  lemma RespondUntaggedExample()
    ensures Render(Response(OK, [], Of("Your response"))) == Of("* OK Your response\n")
  {
    assert Of("*") == Star;
    Heads();
    RespondUntaggedLine();
    RenderText("* OK Your response\n", OK, "OK", "*", "Your response", "* OK ");
  }

  lemma RespondUntaggedLine()
    ensures "* OK Your response\n" == "* OK " + "Your response" + "\n"
  {
  }
}
