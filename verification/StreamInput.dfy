/** The stream-json input reader of the command line (apps/cli/src/stream-input.ts). */
module StreamInput {
  import opened Lines
  import opened Options
  import opened Text

  const MAX_STREAM_JSON_LINE_CHARS: nat := 1_000_000

  /** A content block of a user message: only text blocks carry text. */
  datatype Block = TextBlock(text: string) | OtherBlock

  /** What a parsed line can be, as far as the reader looks into it. */
  datatype Envelope =
    | NotUser
    | UserText(text: string)
    | UserContent(content: string)
    | UserBlocks(blocks: seq<Block>)
    | UserOther

  datatype Error = InvalidJson(lineNo: nat, line: string) | NoText(lineNo: nat, line: string) | LineTooLong(lineNo: nat)

  /** The texts yielded so far, and the error that ended the stream, if any. */
  datatype Output = Output(texts: seq<string>, error: Option<Error>)

  function BlockText(blocks: seq<Block>): string {
    if blocks == [] then ""
    else (if blocks[0].TextBlock? then blocks[0].text else "") + BlockText(blocks[1..])
  }

  function ExtractUserText(e: Envelope): Option<string> {
    match e
    case NotUser | UserOther => None
    case UserText(text) => Some(text)
    case UserContent(content) => Some(content)
    case UserBlocks(blocks) => if BlockText(blocks) == "" then None else Some(BlockText(blocks))
  }

  /** One complete line: nothing, one text, or an error. */
  function HandleLine(parse: string -> Option<Envelope>, line: string, lineNo: nat): Output {
    if IsBlank(line) then Output([], None)
    else match parse(line)
      case None => Output([], Some(InvalidJson(lineNo, line)))
      case Some(envelope) =>
        match ExtractUserText(envelope)
        case None => Output([], None)
        case Some(text) => if text == "" then Output([], Some(NoText(lineNo, line))) else Output([text], None)
  }

  /** The text of a list of blocks is that of its text blocks, one after the other. */
  lemma {:induction false} BlocksText(a: seq<Block>, b: seq<Block>, text: string)
    ensures BlockText(a + b) == BlockText(a) + BlockText(b)
    ensures BlockText([TextBlock(text)]) == text && BlockText([OtherBlock]) == ""
    decreases a
  {
    assert [TextBlock(text)][1..] == [] && [OtherBlock][1..] == [];
    if a == [] {
      assert a + b == b;
    } else {
      BlocksText(a[1..], b, text);
      assert (a + b)[1..] == a[1..] + b;
    }
  }

  /** A user's turn says this, in one of its three forms. */
  predicate Says(e: Envelope, text: string) {
    e == UserText(text) || e == UserContent(text) || (e.UserBlocks? && text != "" && BlockText(e.blocks) == text)
  }

  /**
   * What a line yields: the text of a user's turn, if there is any; an error, if it is neither blank nor JSON, or if it
   * is a turn whose text is given and empty; and nothing otherwise.
   */
  lemma LineYields(parse: string -> Option<Envelope>, line: string, lineNo: nat, text: string)
    ensures
      var out, read := HandleLine(parse, line, lineNo), parse(line);
      && (out == Output([text], None) <==> !IsBlank(line) && read.Some? && text != "" && Says(read.value, text))
      && (out == Output([], Some(InvalidJson(lineNo, line))) <==> !IsBlank(line) && read.None?)
      && (out == Output([], Some(NoText(lineNo, line))) <==> !IsBlank(line) && read.Some? && Says(read.value, ""))
      && (out == Output([], None) <==>
           IsBlank(line) || (read.Some? && forall said :: !Says(read.value, said)))
  {
    var read := parse(line);
    if read.Some? && ExtractUserText(read.value).Some? {
      assert Says(read.value, ExtractUserText(read.value).value);
    }
  }

  /** What the reader does with one line and its number. */
  type Handler = (string, nat) -> Output

  function LineHandler(parse: string -> Option<Envelope>): Handler {
    (line: string, lineNo: nat) => HandleLine(parse, line, lineNo)
  }

  /** The meaning of a whole input: its lines in order, up to the first error. */
  function ReadPieces(handle: Handler, cut: Cut<char>, lineNo: nat): Output
    decreases |cut.pieces|
  {
    if cut.pieces == [] then Output([], if cut.overlong then Some(LineTooLong(lineNo + 1)) else None)
    else
      var first := handle(cut.pieces[0].line, lineNo + 1);
      if first.error.Some? then first
      else
        var later := ReadPieces(handle, Cut(cut.pieces[1..], cut.overlong), lineNo + 1);
        Output(first.texts + later.texts, later.error)
  }

  /**
   * Reads the input as its chunks arrive. `chunkSizes` is the stream's choice of how to cut the input; what
   * is yielded does not depend on it.
   */
  method ReadStreamJsonInput(parse: string -> Option<Envelope>, input: string, chunkSizes: nat -> nat)
    returns (out: Output)
    ensures out == ReadPieces(LineHandler(parse), Segment(input, '\n', 0, MAX_STREAM_JSON_LINE_CHARS), 0)
  {
    RemainingIsPieces(LineHandler(parse), input, 0, 0, [], Segment(input, '\n', 0, MAX_STREAM_JSON_LINE_CHARS));
    out := ReadChunks(LineHandler(parse), input, chunkSizes);
  }

  /** The outer loop: one chunk after another. */
  method ReadChunks(handle: Handler, input: string, chunkSizes: nat -> nat) returns (out: Output)
    ensures out == Remaining(handle, input, 0, 0, [])
  {
    hide Remaining, IndexOf;
    var buffer := "";
    var lineNo := 0;
    var position := 0;
    out := Output([], None);
    while position < |input|
      invariant Pends(input, buffer, position)
      invariant Free(buffer, '\n') && |buffer| <= MAX_STREAM_JSON_LINE_CHARS
      invariant out.error.None?
      invariant
        Remaining(handle, input, 0, 0, []) == Remaining(handle, input, position - |buffer|, lineNo, out.texts)
    {
      var size := ReadSize(|input|, position, chunkSizes(position));
      Extends(input, buffer, position, position + size);
      buffer := buffer + input[position..position + size];
      position := position + size;
      out, buffer, lineNo := ReadComplete(handle, input, position, out.texts, buffer, lineNo);
      if out.error.Some? { return; }
      if |buffer| > MAX_STREAM_JSON_LINE_CHARS {
        Overlong(handle, input, buffer, position, lineNo, out.texts);
        return Output(out.texts, Some(LineTooLong(lineNo + 1)));
      }
    }
    LastLine(handle, input, buffer, lineNo, out.texts);
    if |buffer| > 0 {
      lineNo := lineNo + 1;
      var last := handle(buffer, lineNo);
      out := Output(out.texts + last.texts, last.error);
    }
  }

  /** The inner loop: consumes every line the buffer completes. */
  method ReadComplete(
    handle: Handler, ghost input: string, ghost position: nat, texts: seq<string>, unread: string, line: nat)
    returns (out: Output, buffer: string, lineNo: nat)
    requires Pends(input, unread, position)
    ensures Pends(input, buffer, position)
    ensures
      Remaining(handle, input, position - |unread|, line, texts) ==
      if out.error.Some? then out else Remaining(handle, input, position - |buffer|, lineNo, out.texts)
    ensures out.error.None? ==> Free(buffer, '\n')
  {
    hide Remaining;
    out, buffer, lineNo := Output(texts, None), unread, line;
    var newline := IndexOf(buffer, '\n', 0);
    while newline < |buffer|
      invariant Pends(input, buffer, position) && out.error.None?
      invariant newline == IndexOf(buffer, '\n', 0)
      invariant
        Remaining(handle, input, position - |unread|, line, texts) ==
        Remaining(handle, input, position - |buffer|, lineNo, out.texts)
      decreases |buffer|
    {
      NextLine(handle, input, buffer, position, newline, lineNo, out.texts);
      if newline > MAX_STREAM_JSON_LINE_CHARS {
        return Output(out.texts, Some(LineTooLong(lineNo + 1))), buffer, lineNo;
      }
      var rawLine := buffer[..newline];
      buffer := buffer[newline + 1..];
      lineNo := lineNo + 1;
      var handled := handle(rawLine, lineNo);
      out := Output(out.texts + handled.texts, handled.error);
      if handled.error.Some? { return; }
      newline := IndexOf(buffer, '\n', 0);
    }
  }

  /** What is left to read from offset `at`, after `texts` were yielded. */
  ghost function Remaining(handle: Handler, input: string, at: nat, lineNo: nat, texts: seq<string>): Output
    decreases |input| - at
  {
    if at >= |input| then Output(texts, None)
    else
      var i := IndexOf(input, '\n', at);
      if i - at > MAX_STREAM_JSON_LINE_CHARS then Output(texts, Some(LineTooLong(lineNo + 1)))
      else
        var first := handle(input[at..i], lineNo + 1);
        if first.error.Some? then Output(texts + first.texts, first.error)
        else Remaining(handle, input, i + 1, lineNo + 1, texts + first.texts)
  }

  lemma NextLine(
    handle: Handler, input: string, buffer: string, position: nat, newline: nat, lineNo: nat, texts: seq<string>)
    requires Pends(input, buffer, position)
    requires newline == IndexOf(buffer, '\n', 0) < |buffer|
    ensures Pends(input, buffer[newline + 1..], position)
    ensures
      var first := handle(buffer[..newline], lineNo + 1);
      Remaining(handle, input, position - |buffer|, lineNo, texts) ==
      if newline > MAX_STREAM_JSON_LINE_CHARS then Output(texts, Some(LineTooLong(lineNo + 1)))
      else if first.error.Some? then Output(texts + first.texts, first.error)
      else Remaining(handle, input, position - |buffer[newline + 1..]|, lineNo + 1, texts + first.texts)
  {
    NextNewline(input, '\n', buffer, position, newline);
  }

  lemma Overlong(handle: Handler, input: string, buffer: string, position: nat, lineNo: nat, texts: seq<string>)
    requires Pends(input, buffer, position)
    requires Free(buffer, '\n') && |buffer| > MAX_STREAM_JSON_LINE_CHARS
    ensures
      Remaining(handle, input, position - |buffer|, lineNo, texts) == Output(texts, Some(LineTooLong(lineNo + 1)))
  {
    NoNewline(input, '\n', buffer, position);
  }

  lemma LastLine(handle: Handler, input: string, buffer: string, lineNo: nat, texts: seq<string>)
    requires Pends(input, buffer, |input|)
    requires Free(buffer, '\n') && |buffer| <= MAX_STREAM_JSON_LINE_CHARS
    ensures
      Remaining(handle, input, |input| - |buffer|, lineNo, texts) ==
      if |buffer| == 0 then Output(texts, None)
      else
        var last := handle(buffer, lineNo + 1);
        Output(texts + last.texts, last.error)
  {
    if |buffer| > 0 {
      NoNewline(input, '\n', buffer, |input|);
      assert input[|input| - |buffer|..|input|] == buffer;
    }
  }

  lemma FirstPiece(handle: Handler, p: Piece<char>, rest: Cut<char>, lineNo: nat)
    ensures
      var first := handle(p.line, lineNo + 1);
      var later := ReadPieces(handle, rest, lineNo + 1);
      ReadPieces(handle, Cut([p] + rest.pieces, rest.overlong), lineNo) ==
      if first.error.Some? then first else Output(first.texts + later.texts, later.error)
  {
    assert ([p] + rest.pieces)[1..] == rest.pieces;
  }

  lemma {:induction false} RemainingIsPieces(
    handle: Handler, input: string, at: nat, lineNo: nat, texts: seq<string>, cut: Cut<char>)
    requires cut == Segment(input, '\n', at, MAX_STREAM_JSON_LINE_CHARS)
    ensures
      var rest := ReadPieces(handle, cut, lineNo);
      Remaining(handle, input, at, lineNo, texts) == Output(texts + rest.texts, rest.error)
    decreases |input| - at
  {
    hide Remaining, ReadPieces, Segment, IndexOf;
    var i := if at < |input| then IndexOf(input, '\n', at) else at;
    if at < |input| { SegmentStep(input, '\n', at, MAX_STREAM_JSON_LINE_CHARS); }
    if at >= |input| || i - at > MAX_STREAM_JSON_LINE_CHARS || i == |input| {
      LastPieces(handle, input, at, lineNo, texts);
    } else {
      var p, rest := Piece(input[at..i], i + 1), Segment(input, '\n', i + 1, MAX_STREAM_JSON_LINE_CHARS);
      PieceRead(handle, input, at, lineNo, texts, p, rest);
      RemainingIsPieces(handle, input, i + 1, lineNo + 1, texts + handle(p.line, lineNo + 1).texts, rest);
    }
  }

  lemma LastPieces(handle: Handler, input: string, at: nat, lineNo: nat, texts: seq<string>)
    requires at < |input| ==>
      var i := IndexOf(input, '\n', at); i - at > MAX_STREAM_JSON_LINE_CHARS || i == |input|
    ensures
      var rest := ReadPieces(handle, Segment(input, '\n', at, MAX_STREAM_JSON_LINE_CHARS), lineNo);
      Remaining(handle, input, at, lineNo, texts) == Output(texts + rest.texts, rest.error)
  {
    if at < |input| && |input| - at <= MAX_STREAM_JSON_LINE_CHARS {
      assert input[at..|input|] == input[at..];
      PieceRead(handle, input, at, lineNo, texts, Piece(input[at..], |input|), Cut([], false));
    }
  }

  lemma PieceRead(
    handle: Handler, input: string, at: nat, lineNo: nat, texts: seq<string>, p: Piece<char>, rest: Cut<char>)
    requires at < |input| && p.line == input[at..IndexOf(input, '\n', at)]
    requires |p.line| <= MAX_STREAM_JSON_LINE_CHARS
    ensures
      var first := handle(p.line, lineNo + 1);
      var later := ReadPieces(handle, rest, lineNo + 1);
      var all := ReadPieces(handle, Cut([p] + rest.pieces, rest.overlong), lineNo);
      if first.error.Some? then Remaining(handle, input, at, lineNo, texts) == Output(texts + all.texts, all.error)
      else
        && Remaining(handle, input, at, lineNo, texts) ==
           Remaining(handle, input, IndexOf(input, '\n', at) + 1, lineNo + 1, texts + first.texts)
        && texts + all.texts == texts + first.texts + later.texts
        && all.error == later.error
  {
    FirstPiece(handle, p, rest, lineNo);
    var first, later := handle(p.line, lineNo + 1), ReadPieces(handle, rest, lineNo + 1);
    assert texts + (first.texts + later.texts) == texts + first.texts + later.texts;
  }
}
