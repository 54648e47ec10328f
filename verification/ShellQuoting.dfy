/** Quoting for a POSIX shell, against the shell's own reading (apps/cli/src/runner.ts, apps/cli/src/ssh-runner.ts). */
module ShellQuoting {
  import opened Basics
  import opened Options
  import opened Splitting
  import opened Text

  // ---- how a shell cuts its input into tokens (IEEE Std 1003.1, XCU sections 2.2.1, 2.2.2 and 2.3) --------

  datatype Token = Word(text: string) | Operator(symbol: string)

  /**
   * A word, with its text and with its shape: the text as it is written, with a `'` for every quoted character and
   * for every opening quote. Or a control operator or newline.
   */
  datatype Lexeme = Written(text: string, shape: string) | Sign(symbol: string)

  /** A word in progress. */
  datatype Part = Part(text: string, shape: string)

  predicate IsBlankChar(c: char) { c == ' ' || c == '\t' }

  /** Double quotes, expansions and redirections, wherever they are not quoted. */
  predicate IsSpecial(c: char) { c == '"' || c == '$' || c == '`' || c == '<' || c == '>' }

  predicate IsOperatorChar(c: char) { c == '&' || c == '|' || c == ';' || c == '(' || c == ')' }

  /** A word in progress becomes a lexeme. */
  function Flush(word: Option<Part>): seq<Lexeme> {
    if word.Some? then [Written(word.value.text, word.value.shape)] else []
  }

  function PartOf(word: Option<Part>): Part {
    if word.Some? then word.value else Part("", "")
  }

  /** One more character, not quoted; one that is quoted; an opening quote. */
  function Add(word: Option<Part>, c: char): Option<Part> {
    Some(Part(PartOf(word).text + [c], PartOf(word).shape + [c]))
  }

  function Hide(word: Option<Part>, c: char): Option<Part> {
    Some(Part(PartOf(word).text + [c], PartOf(word).shape + "'"))
  }

  function Open(word: Option<Part>): Option<Part> {
    Some(Part(PartOf(word).text, PartOf(word).shape + "'"))
  }

  function Prepend<T>(first: seq<T>, rest: Option<seq<T>>): Option<seq<T>> {
    if rest.None? then None else Some(first + rest.value)
  }

  /**
   * The lexemes of `s`, with a word in progress, inside single quotes or not. None when the text is incomplete, or
   * holds an unquoted character that always means more than itself.
   */
  function Lex(s: string, word: Option<Part>, quoted: bool): Option<seq<Lexeme>> {
    if s == "" then
      if quoted then None else Some(Flush(word))
    else
      var c := s[0];
      if quoted then
        if c == '\'' then Lex(s[1..], word, false) else Lex(s[1..], Hide(word, c), true)
      else if c == '\'' then Lex(s[1..], Open(word), true)
      else if c == '\\' then
        if |s| == 1 then None
        else if s[1] == '\n' then Lex(s[2..], word, false)
        else Lex(s[2..], Hide(word, s[1]), false)
      else if IsBlankChar(c) then Prepend(Flush(word), Lex(s[1..], None, false))
      else if c == '\n' then Prepend(Flush(word) + [Sign("\n")], Lex(s[1..], None, false))
      else if IsOperatorChar(c) then
        if |s| > 1 && s[1] == c && (c == '&' || c == '|' || c == ';') then
          Prepend(Flush(word) + [Sign([c, c])], Lex(s[2..], None, false))
        else Prepend(Flush(word) + [Sign([c])], Lex(s[1..], None, false))
      else if IsSpecial(c) then None
      else Lex(s[1..], Add(word, c), false)
  }

  // ---- which words stand for themselves (XCU sections 2.3, 2.4, 2.6.1, 2.10.2 and 2.13) -------------------

  /**
   * From `[` at `i` to `]` at `j`: a bracket expression of a pattern. The first character in it, after a `!` too, may
   * be a `]` that does not end it; a slash may not be in it.
   */
  predicate BracketAt(shape: string, i: nat, j: nat) {
    && i + 1 < j < |shape| && shape[i] == '[' && shape[j] == ']' && '/' !in shape[i..j]
    && (shape[i + 1] == '!' ==> i + 2 < j)
  }

  /** No comment, no tilde prefix and no pattern: whatever the files are, the word stands for its text. */
  predicate Literal(shape: string) {
    && '*' !in shape && '?' !in shape && (shape != "" ==> shape[0] != '#' && shape[0] != '~')
    && forall i: nat, j: nat | i < j < |shape| :: !BracketAt(shape, i, j)
  }

  predicate IsNameChar(c: char) { 'a' <= c <= 'z' || 'A' <= c <= 'Z' || '0' <= c <= '9' || c == '_' }

  /** The characters of these classes, by code point. */
  lemma CharsAre(c: char)
    ensures IsBlankChar(c) <==> c as int in {32, 9}
    ensures IsSpecial(c) <==> c as int in {34, 36, 96, 60, 62}
    ensures IsOperatorChar(c) <==> c as int in {38, 124, 59, 40, 41}
    ensures IsNameChar(c) <==>
      97 <= c as int <= 122 || 65 <= c as int <= 90 || 48 <= c as int <= 57 || c as int == 95
  {
  }

  /** Brackets that are a pattern, and brackets that are not: nothing in them, or a slash. */
  lemma BracketsAre()
    ensures !Literal("[a]") && !Literal("[]]") && !Literal("[!a]") && !Literal("x[!]]")
    ensures Literal("[]") && Literal("[!]") && Literal("[/]") && Literal("a]") && Literal("[[") && Literal("]]")
  {
    assert "[a]"[0..2] == "[a" && BracketAt("[a]", 0, 2);
    assert "[]]"[0..2] == "[]" && BracketAt("[]]", 0, 2);
    assert "[!a]"[0..3] == "[!a" && BracketAt("[!a]", 0, 3);
    assert "x[!]]"[1..4] == "[!]" && BracketAt("x[!]]", 1, 4);
    assert "[/]"[0..2][1] == '/';
  }

  predicate IsName(s: string) {
    s != "" && !('0' <= s[0] <= '9') && forall c <- s :: IsNameChar(c)
  }

  const RESERVED: seq<string> := [
    "!", "{", "}", "case", "do", "done", "elif", "else", "esac", "fi", "for", "if", "in", "then", "until", "while",
    "[[", "]]", "function", "select"]

  /** Words that are reserved, or may be, as the first word of a command. */
  predicate IsReserved(shape: string) {
    shape in RESERVED || (shape != "" && shape[|shape| - 1] == ':' && IsName(shape[..|shape| - 1]))
  }

  /** `NAME=`, and any value. */
  predicate IsAssignment(shape: string) {
    exists k :: 0 <= k < |shape| && shape[k] == '=' && IsName(shape[..k])
  }

  /** A lexeme that is taken as it is written; `head`: as the first word of a command. */
  predicate Taken(l: Lexeme, head: bool) {
    l.Written? ==> Literal(l.shape) && (head ==> !IsReserved(l.shape) && !IsAssignment(l.shape))
  }

  function TokenOf(l: Lexeme): Token {
    match l
    case Written(text, _) => Word(text)
    case Sign(symbol) => Operator(symbol)
  }

  /** The tokens, if every word stands for itself. A command begins at the start and after every operator. */
  function Meaning(ls: seq<Lexeme>, head: bool): Option<seq<Token>> {
    if ls == [] then Some([])
    else if !Taken(ls[0], head) then None
    else Prepend([TokenOf(ls[0])], Meaning(ls[1..], ls[0].Sign?))
  }

  /** What a shell makes of a command line. */
  function Tokens(line: string): Option<seq<Token>> {
    var ls := Lex(line, None, false);
    if ls.None? then None else Meaning(ls.value, true)
  }

  function Words(texts: seq<string>): (r: seq<Token>)
    ensures |r| == |texts| && forall k :: 0 <= k < |r| ==> r[k] == Word(texts[k])
  {
    seq(|texts|, k requires 0 <= k < |texts| => Word(texts[k]))
  }

  // ---- quoting one value ----------------------------------------------------------------------------------

  function ShellQuote(value: string): string {
    "'" + JoinWith(SplitOn(value, '\''), "'\\''") + "'"
  }

  /** The inside of the quotes, character by character. */
  function Inside(value: string): string {
    if value == "" then "" else (if value[0] == '\'' then "'\\''" else [value[0]]) + Inside(value[1..])
  }

  lemma {:induction false} QuoteIsInside(value: string)
    ensures JoinWith(SplitOn(value, '\''), "'\\''") == Inside(value)
    decreases value
  {
    if value != "" {
      QuoteIsInside(value[1..]);
      var rest := SplitOn(value[1..], '\'');
      if value[0] == '\'' {
        JoinStep("", rest, "'\\''");
      } else {
        JoinLonger(value[0], rest, "'\\''");
      }
    }
  }

  /** The shape of a quoted value, after the opening quote. */
  function Marks(value: string): string {
    if value == "" then "" else (if value[0] == '\'' then "''" else "'") + Marks(value[1..])
  }

  function ShapeOfQuoted(value: string): string { "'" + Marks(value) }

  lemma {:induction false} MarksAreMarks(value: string)
    ensures forall c <- Marks(value) :: c == '\''
    decreases value
  {
    if value != "" { MarksAreMarks(value[1..]); }
  }

  lemma LexCons(c: char, rest: string, word: Option<Part>)
    ensures Lex([c] + rest, word, true) == if c == '\'' then Lex(rest, word, false) else Lex(rest, Hide(word, c), true)
    ensures c == '\'' ==> Lex([c] + rest, word, false) == Lex(rest, Open(word), true)
  {
    assert ([c] + rest)[1..] == rest;
  }

  /** `'\''` inside a quoted text is a quote character. */
  lemma LexQuoteChar(rest: string, word: Option<Part>)
    ensures Lex("'\\''" + rest, word, true) == Lex(rest, Open(Hide(word, '\'')), true)
  {
    var escaped := ['\\'] + (['\''] + (['\''] + rest));
    assert "'\\''" + rest == ['\''] + escaped;
    LexCons('\'', escaped, word);
    assert escaped[2..] == ['\''] + rest && escaped[1] == '\'';
    assert Lex(escaped, word, false) == Lex(['\''] + rest, Hide(word, '\''), false);
    LexCons('\'', rest, Hide(word, '\''));
  }

  /** A word to which a quoted value is added. */
  function Quoted(word: Part, value: string): Part {
    Part(word.text + value, word.shape + Marks(value))
  }

  lemma {:induction false} LexInside(value: string, rest: string, word: Part)
    ensures Lex(Inside(value) + ("'" + rest), Some(word), true) == Lex(rest, Some(Quoted(word, value)), false)
    decreases value
  {
    hide Lex;
    if value == "" {
      assert Inside(value) + ("'" + rest) == ['\''] + rest && Quoted(word, value) == word;
      LexCons('\'', rest, Some(word));
    } else {
      hide Inside;
      var more := Inside(value[1..]) + ("'" + rest);
      InsideFirst(value, "'" + rest);
      var next := Part(word.text + [value[0]], word.shape + if value[0] == '\'' then "''" else "'");
      QuotedFirst(word, value);
      LexInside(value[1..], rest, next);
      if value[0] == '\'' {
        LexQuoteChar(more, Some(word));
        assert word.shape + "'" + "'" == word.shape + "''";
      } else {
        LexCons(value[0], more, Some(word));
      }
    }
  }

  lemma InsideFirst(value: string, rest: string)
    requires value != ""
    ensures Inside(value) + rest ==
      (if value[0] == '\'' then "'\\''" else [value[0]]) + (Inside(value[1..]) + rest)
  {
    Associate(if value[0] == '\'' then "'\\''" else [value[0]], Inside(value[1..]), rest);
  }

  lemma QuotedFirst(word: Part, value: string)
    requires value != ""
    ensures
      var next := Part(word.text + [value[0]], word.shape + if value[0] == '\'' then "''" else "'");
      Quoted(next, value[1..]) == Quoted(word, value)
  {
    Associate(word.text, [value[0]], value[1..]);
    assert [value[0]] + value[1..] == value;
    Associate(word.shape, if value[0] == '\'' then "''" else "'", Marks(value[1..]));
  }

  /** A quoted value is read as itself, whatever it holds and whatever follows. */
  lemma QuotedIsRead(value: string, rest: string, word: Option<Part>)
    ensures Lex(ShellQuote(value) + rest, word, false) ==
      Lex(rest, Some(Part(PartOf(word).text + value, PartOf(word).shape + ShapeOfQuoted(value))), false)
    ensures forall c <- ShapeOfQuoted(value) :: c == '\''
  {
    hide Lex;
    QuoteIsInside(value);
    MarksAreMarks(value);
    assert ShellQuote(value) + rest == ['\''] + (Inside(value) + ("'" + rest));
    LexCons('\'', Inside(value) + ("'" + rest), word);
    LexInside(value, rest, Open(word).value);
    Associate(PartOf(word).shape, "'", Marks(value));
  }

  // ---- command lines --------------------------------------------------------------------------------------

  predicate IsSafeChar(c: char) {
    || 'a' <= c <= 'z' || 'A' <= c <= 'Z' || '0' <= c <= '9'
    || c == '_' || c == '.' || c == '/' || c == ':' || c == '@' || c == '=' || c == '-'
  }

  lemma SafeCharsAre(c: char)
    ensures IsSafeChar(c) <==>
      97 <= c as int <= 122 || 65 <= c as int <= 90 || 48 <= c as int <= 57 ||
      c as int in {95, 46, 47, 58, 64, 61, 45}
  {
  }

  /** `/^[\w./:@=-]+$/`. */
  predicate IsSafe(arg: string) {
    arg != "" && forall c <- arg :: IsSafeChar(c)
  }

  function Rendered(arg: string): string {
    if IsSafe(arg) then arg else ShellQuote(arg)
  }

  function RenderedAll(args: seq<string>): (r: seq<string>)
    ensures |r| == |args| && forall k :: 0 <= k < |r| ==> r[k] == Rendered(args[k])
  {
    seq(|args|, k requires 0 <= k < |args| => Rendered(args[k]))
  }

  function FormatCommandLine(binary: string, args: seq<string>): string {
    JoinWith([binary] + RenderedAll(args), " ")
  }

  /** A piece of a command line that is read as one lexeme, before a blank or at the end. */
  ghost predicate ReadsAs(piece: string, l: Lexeme) {
    forall rest: string :: rest == "" || rest[0] == ' ' ==>
      Lex(piece + rest, None, false) == Prepend([l], if rest == "" then Some([]) else Lex(rest[1..], None, false))
  }

  /** A character that stands for itself inside a word. */
  predicate IsPlainChar(c: char) {
    c != '\'' && c != '\\' && c != '\n' && !IsBlankChar(c) && !IsOperatorChar(c) && !IsSpecial(c)
  }

  /** A text that a shell takes as it is, written without quotes as the first word of a command. */
  predicate IsPlain(word: string) {
    && word != "" && (forall c <- word :: IsPlainChar(c))
    && Literal(word) && !IsReserved(word) && !IsAssignment(word)
  }

  lemma SafeIsLiteral(arg: string)
    requires IsSafe(arg)
    ensures (forall c <- arg :: IsPlainChar(c)) && Literal(arg)
  {
    forall c | c in arg ensures IsPlainChar(c) && c !in "*?#~[" { assert IsSafeChar(c); }
    forall i: nat, j: nat | i < j < |arg| ensures !BracketAt(arg, i, j) { assert arg[i] in arg; }
    assert arg[0] in arg;
  }

  /** Nothing in a quoted value means more than itself. */
  lemma MarkedIsTaken(shape: string)
    requires shape != "" && forall c <- shape :: c == '\''
    ensures Literal(shape) && !IsReserved(shape) && !IsAssignment(shape)
  {
    assert shape[0] in shape && shape[|shape| - 1] in shape;
    forall i: nat, j: nat | i < j < |shape| ensures !BracketAt(shape, i, j) { assert shape[i] in shape; }
    forall k | 0 <= k < |shape| ensures shape[k] != '=' { assert shape[k] in shape; }
    assert forall r <- RESERVED :: r[0] != '\'';
  }

  lemma PlainStep(c: char, rest: string, word: Option<Part>)
    requires IsPlainChar(c)
    ensures Lex([c] + rest, word, false) == Lex(rest, Add(word, c), false)
  {
    assert ([c] + rest)[1..] == rest && ([c] + rest)[0] == c;
  }

  lemma {:induction false} PlainIsRead(arg: string, rest: string, word: Part)
    requires forall c <- arg :: IsPlainChar(c)
    ensures Lex(arg + rest, Some(word), false) == Lex(rest, Some(Part(word.text + arg, word.shape + arg)), false)
    decreases arg
  {
    hide Lex, IsPlainChar;
    if arg == "" {
      assert arg + rest == rest && word.text + arg == word.text && word.shape + arg == word.shape;
    } else {
      assert arg[0] in arg && arg + rest == [arg[0]] + (arg[1..] + rest);
      PlainStep(arg[0], arg[1..] + rest, Some(word));
      PlainIsRead(arg[1..], rest, Part(word.text + [arg[0]], word.shape + [arg[0]]));
      assert word.text + [arg[0]] + arg[1..] == word.text + arg;
      assert word.shape + [arg[0]] + arg[1..] == word.shape + arg;
    }
  }

  lemma WordEnds(rest: string, word: Part)
    requires rest == "" || rest[0] == ' '
    ensures Lex(rest, Some(word), false) ==
      Prepend([Written(word.text, word.shape)], if rest == "" then Some([]) else Lex(rest[1..], None, false))
  {
    var l := Written(word.text, word.shape);
    assert [l] + [] == [l];
  }

  lemma PlainReadsAs(arg: string)
    requires arg != "" && forall c <- arg :: IsPlainChar(c)
    ensures ReadsAs(arg, Written(arg, arg))
  {
    hide Lex;
    forall rest: string | rest == "" || rest[0] == ' '
      ensures Lex(arg + rest, None, false) ==
        Prepend([Written(arg, arg)], if rest == "" then Some([]) else Lex(rest[1..], None, false))
    {
      FirstChar(arg, rest);
      PlainIsRead(arg[1..], rest, Part([arg[0]], [arg[0]]));
      assert [arg[0]] + arg[1..] == arg;
      WordEnds(rest, Part(arg, arg));
    }
  }

  lemma SafeReadsAs(arg: string)
    requires IsSafe(arg)
    ensures ReadsAs(arg, Written(arg, arg)) && Taken(Written(arg, arg), false)
  {
    hide ReadsAs, IsPlainChar, Literal;
    SafeIsLiteral(arg);
    PlainReadsAs(arg);
  }

  lemma FirstChar(arg: string, rest: string)
    requires arg != "" && forall c <- arg :: IsPlainChar(c)
    ensures Lex(arg + rest, None, false) == Lex(arg[1..] + rest, Some(Part([arg[0]], [arg[0]])), false)
    ensures forall c <- arg[1..] :: IsPlainChar(c)
  {
    hide Lex, IsPlainChar;
    assert arg[0] in arg && arg + rest == [arg[0]] + (arg[1..] + rest);
    PlainStep(arg[0], arg[1..] + rest, None);
    assert "" + [arg[0]] == [arg[0]];
    forall c | c in arg[1..] ensures c in arg { }
  }

  lemma QuotedReadsAs(value: string)
    ensures ReadsAs(ShellQuote(value), Written(value, ShapeOfQuoted(value)))
    ensures Taken(Written(value, ShapeOfQuoted(value)), true) && Taken(Written(value, ShapeOfQuoted(value)), false)
  {
    hide Lex, Marks, Literal, IsReserved, IsAssignment;
    var shape := ShapeOfQuoted(value);
    forall rest: string | rest == "" || rest[0] == ' '
      ensures Lex(ShellQuote(value) + rest, None, false) ==
        Prepend([Written(value, shape)], if rest == "" then Some([]) else Lex(rest[1..], None, false))
    {
      QuotedIsRead(value, rest, None);
      assert "" + value == value && "" + shape == shape;
      WordEnds(rest, Part(value, shape));
    }
    QuotedIsRead(value, "", None);
    MarkedIsTaken(shape);
  }

  /** A blank between tokens is skipped. */
  lemma AndIsOver(rest: string)
    requires rest == "" || rest[0] == ' '
    ensures Lex(rest, None, false) == if rest == "" then Some([]) else Lex(rest[1..], None, false)
  {
    if rest != "" {
      var more := Lex(rest[1..], None, false);
      assert more.Some? ==> [] + more.value == more.value;
    }
  }

  lemma AndReadsAs()
    ensures ReadsAs("&&", Sign("&&"))
  {
    forall rest: string | rest == "" || rest[0] == ' '
      ensures Lex("&&" + rest, None, false) ==
        Prepend([Sign("&&")], if rest == "" then Some([]) else Lex(rest[1..], None, false))
    {
      assert ("&&" + rest)[2..] == rest && ['&', '&'] == "&&";
      assert Flush(None) + [Sign("&&")] == [Sign("&&")];
      assert rest == "" ==> Lex(rest, None, false) == Some([]);
      AndIsOver(rest);
    }
  }

  /** A piece that is read as one token, as the first word of a command or not. */
  ghost predicate Piece(piece: string, token: Token, head: bool) {
    exists l :: ReadsAs(piece, l) && Taken(l, head) && TokenOf(l) == token
  }

  /** Pieces joined by spaces are read one by one. */
  lemma {:induction false} JoinedIsRead(pieces: seq<string>, tokens: seq<Token>, head: bool) returns (ls: seq<Lexeme>)
    requires Reads(pieces, tokens, head)
    ensures Lex(JoinWith(pieces, " "), None, false) == Some(ls) && Meaning(ls, head) == Some(tokens)
    decreases pieces
  {
    hide Lex, Taken, TokenOf, ReadsAs;
    if pieces == [] {
      NothingIsRead(head);
      ls := [];
    } else {
      assert Piece(pieces[0], tokens[0], HeadAt(tokens, 0, head));
      var l :| ReadsAs(pieces[0], l) && Taken(l, head) && TokenOf(l) == tokens[0];
      SignIsOperator(l);
      if |pieces| == 1 {
        ReadThen(pieces[0], l, "");
        assert pieces[0] + "" == pieces[0];
        ls := [l];
        assert [l] + [] == ls && ls[1..] == [];
        assert [tokens[0]] + [] == tokens;
      } else {
        var rest := " " + JoinWith(pieces[1..], " ");
        assert JoinWith(pieces, " ") == pieces[0] + rest && rest[1..] == JoinWith(pieces[1..], " ");
        ReadThen(pieces[0], l, rest);
        ReadsRest(pieces, tokens, head);
        var more := JoinedIsRead(pieces[1..], tokens[1..], l.Sign?);
        ls := [l] + more;
        assert ls[1..] == more && [tokens[0]] + tokens[1..] == tokens;
      }
    }
  }

  lemma ReadThen(piece: string, l: Lexeme, rest: string)
    requires ReadsAs(piece, l) && (rest == "" || rest[0] == ' ')
    ensures Lex(piece + rest, None, false) == Prepend([l], if rest == "" then Some([]) else Lex(rest[1..], None, false))
  {
    hide Lex;
  }

  lemma ReadsRest(pieces: seq<string>, tokens: seq<Token>, head: bool)
    requires Reads(pieces, tokens, head) && pieces != []
    ensures Reads(pieces[1..], tokens[1..], tokens[0].Operator?)
  {
    hide Piece;
    forall k | 0 <= k < |pieces| - 1
      ensures Piece(pieces[1..][k], tokens[1..][k], HeadAt(tokens[1..], k, tokens[0].Operator?))
    {
      assert Piece(pieces[k + 1], tokens[k + 1], HeadAt(tokens, k + 1, head));
    }
  }

  lemma SignIsOperator(l: Lexeme)
    ensures l.Sign? <==> TokenOf(l).Operator?
  {
  }

  lemma NothingIsRead(head: bool)
    ensures Lex("", None, false) == Some([]) && Meaning([], head) == Some([])
  {
  }

  /** The first word of a command follows an operator. */
  predicate HeadAt(tokens: seq<Token>, k: nat, head: bool)
    requires k < |tokens|
  {
    if k == 0 then head else tokens[k - 1].Operator?
  }

  /** Every piece is read as its token. */
  ghost predicate Reads(pieces: seq<string>, tokens: seq<Token>, head: bool) {
    && |pieces| == |tokens|
    && forall k :: 0 <= k < |pieces| ==> Piece(pieces[k], tokens[k], HeadAt(tokens, k, head))
  }

  lemma AllRead(pieces: seq<string>, tokens: seq<Token>)
    requires Reads(pieces, tokens, true)
    ensures Tokens(JoinWith(pieces, " ")) == Some(tokens)
  {
    hide Lex, Meaning;
    var ls := JoinedIsRead(pieces, tokens, true);
  }

  lemma SafePiece(arg: string)
    requires IsSafe(arg)
    ensures Piece(arg, Word(arg), false)
  {
    hide ReadsAs, Taken;
    SafeReadsAs(arg);
    assert TokenOf(Written(arg, arg)) == Word(arg);
  }

  lemma QuotedPiece(value: string, head: bool)
    ensures Piece(ShellQuote(value), Word(value), head)
  {
    hide ReadsAs, Taken, ShapeOfQuoted;
    QuotedReadsAs(value);
    assert TokenOf(Written(value, ShapeOfQuoted(value))) == Word(value);
  }

  lemma PlainPiece(word: string)
    requires IsPlain(word)
    ensures Piece(word, Word(word), true)
  {
    hide ReadsAs, IsPlainChar, Literal, IsReserved, IsAssignment;
    PlainReadsAs(word);
    assert Taken(Written(word, word), true) && TokenOf(Written(word, word)) == Word(word);
  }

  lemma FirstIsHead(texts: seq<string>, k: nat)
    requires k < |texts|
    ensures HeadAt(Words(texts), k, true) <==> k == 0
  {
  }

  lemma RenderedPiece(arg: string)
    ensures Piece(Rendered(arg), Word(arg), false)
  {
    hide Piece, ShellQuote, IsSafe;
    if IsSafe(arg) { SafePiece(arg); } else { QuotedPiece(arg, false); }
  }

  /** A rendered command line is read as exactly the binary and its arguments. */
  lemma CommandLineIsRead(binary: string, args: seq<string>)
    requires IsPlain(binary)
    ensures Tokens(FormatCommandLine(binary, args)) == Some(Words([binary] + args))
  {
    hide Piece, Rendered, IsPlain, Tokens, JoinWith, HeadAt;
    var pieces, tokens := [binary] + RenderedAll(args), Words([binary] + args);
    forall k | 0 <= k < |pieces| ensures Piece(pieces[k], tokens[k], HeadAt(tokens, k, true)) {
      FirstIsHead([binary] + args, k);
      if k == 0 { PlainPiece(binary); } else { RenderedPiece(args[k - 1]); }
    }
    AllRead(pieces, tokens);
  }

  // ---- which binaries may be written as they are ----------------------------------------------------------

  function TextLength(ls: seq<Lexeme>): nat {
    if ls == [] then 0 else (if ls[0].Written? then |ls[0].text| else 0) + TextLength(ls[1..])
  }

  lemma {:induction false} TextLengthConcat(a: seq<Lexeme>, b: seq<Lexeme>)
    ensures TextLength(a + b) == TextLength(a) + TextLength(b)
    decreases a
  {
    if a == [] {
      assert a + b == b;
    } else {
      TextLengthConcat(a[1..], b);
      assert (a + b)[1..] == a[1..] + b;
    }
  }

  function Length(word: Option<Part>): nat { |PartOf(word).text| }

  lemma FlushLength(word: Option<Part>, more: seq<Lexeme>)
    requires forall k :: 0 <= k < |more| ==> !more[k].Written?
    requires |more| <= 1
    ensures TextLength(Flush(word) + more) == Length(word)
  {
    TextLengthConcat(Flush(word), more);
    if more != [] { assert more[1..] == []; }
  }

  /** Lexing writes no more characters into words than it reads, and as many only when every one is plain. */
  lemma {:induction false} LexShortens(s: string, word: Option<Part>, quoted: bool)
    ensures Lex(s, word, quoted).Some? ==> TextLength(Lex(s, word, quoted).value) <= |s| + Length(word)
    ensures Lex(s, word, quoted).Some? && !quoted && TextLength(Lex(s, word, quoted).value) == |s| + Length(word) ==>
      forall k :: 0 <= k < |s| ==> IsPlainChar(s[k])
    decreases |s|
  {
    hide TextLength, IsSpecial, IsOperatorChar, IsBlankChar;
    FlushLength(word, []);
    assert Flush(word) + [] == Flush(word);
    if s != "" {
      var c := s[0];
      if quoted {
        if c == '\'' { LexShortens(s[1..], word, false); } else { LexShortens(s[1..], Hide(word, c), true); }
      } else if c == '\'' {
        LexShortens(s[1..], Open(word), true);
      } else if c == '\\' {
        if |s| > 1 { LexShortens(s[2..], if s[1] == '\n' then word else Hide(word, s[1]), false); }
      } else if IsBlankChar(c) {
        LexShortensAfter(s, 1, word, []);
      } else if c == '\n' {
        LexShortensAfter(s, 1, word, [Sign("\n")]);
      } else if IsOperatorChar(c) {
        LexShortensAfter(s, 1, word, [Sign([c])]);
        if |s| > 1 { LexShortensAfter(s, 2, word, [Sign([c, c])]); }
      } else if !IsSpecial(c) {
        LexShortens(s[1..], Add(word, c), false);
      }
    }
  }

  /** What ends a word writes nothing itself. */
  lemma {:induction false} LexShortensAfter(s: string, n: nat, word: Option<Part>, more: seq<Lexeme>)
    requires 0 < n <= |s| && |more| <= 1 && forall k :: 0 <= k < |more| ==> !more[k].Written?
    ensures
      var rest := Prepend(Flush(word) + more, Lex(s[n..], None, false));
      rest.Some? ==> TextLength(rest.value) < |s| + Length(word)
    decreases |s|, 0
  {
    hide Lex, TextLength;
    LexShortens(s[n..], None, false);
    FlushLength(word, more);
    if Lex(s[n..], None, false).Some? {
      TextLengthConcat(Flush(word) + more, Lex(s[n..], None, false).value);
    }
  }

  /** A text that is read as one word, itself, is plain. */
  lemma ReadIsPlain(binary: string)
    requires Tokens(binary) == Some([Word(binary)])
    ensures IsPlain(binary)
  {
    hide Lex, IsPlainChar, Literal, IsReserved, IsAssignment;
    var ls := Lex(binary, None, false).value;
    OneWord(ls, binary);
    LexShortens(binary, None, false);
    assert forall k :: 0 <= k < |binary| ==> IsPlainChar(binary[k]);
    if binary == "" {
      NothingIsRead(true);
    } else {
      assert binary + "" == binary;
      PlainReadsAs(binary);
      assert ReadsAs(binary, Written(binary, binary));
      assert [Written(binary, binary)] + [] == [Written(binary, binary)];
    }
  }

  lemma {:induction false} MeaningLength(ls: seq<Lexeme>, head: bool)
    ensures Meaning(ls, head).Some? ==> |Meaning(ls, head).value| == |ls|
    decreases ls
  {
    hide Taken, TokenOf;
    if ls != [] { MeaningLength(ls[1..], ls[0].Sign?); }
  }

  lemma OneWord(ls: seq<Lexeme>, text: string)
    requires Meaning(ls, true) == Some([Word(text)])
    ensures |ls| == 1 && ls[0].Written? && ls[0].text == text && Taken(ls[0], true) && TextLength(ls) == |text|
  {
    hide Taken;
    var rest := ls[1..];
    var more := Meaning(rest, ls[0].Sign?).value;
    assert [TokenOf(ls[0])] + more == [Word(text)];
    assert TokenOf(ls[0]) == ([TokenOf(ls[0])] + more)[0] == Word(text);
    assert |[TokenOf(ls[0])] + more| == 1 + |more|;
    MeaningLength(rest, ls[0].Sign?);
    assert ls == [ls[0]];
  }

  /** The binary is written as it is: that is right, whatever the arguments, if and only if it is plain. */
  lemma RightIffPlain(binary: string)
    ensures IsPlain(binary) <==>
      forall args: seq<string> :: Tokens(FormatCommandLine(binary, args)) == Some(Words([binary] + args))
  {
    hide Tokens, IsPlain, IsSafe;
    if IsPlain(binary) {
      forall args: seq<string> ensures Tokens(FormatCommandLine(binary, args)) == Some(Words([binary] + args)) {
        CommandLineIsRead(binary, args);
      }
    } else if Tokens(FormatCommandLine(binary, [])) == Some(Words([binary] + [])) {
      assert [binary] + RenderedAll([]) == [binary] && FormatCommandLine(binary, []) == binary;
      assert Words([binary] + []) == [Word(binary)];
      ReadIsPlain(binary);
    }
  }

  lemma PlainWithout(word: string)
    requires word != "" && (forall c <- word :: IsPlainChar(c) && c != '*' && c != '?' && c != '=')
    requires word[0] != '#' && word[0] != '~' && word[|word| - 1] != ':' && word !in RESERVED
    requires '[' !in word || ']' !in word
    ensures IsPlain(word)
  {
    forall i: nat, j: nat | i < j < |word| ensures !BracketAt(word, i, j) { assert word[i] in word && word[j] in word; }
    forall k | 0 <= k < |word| ensures word[k] != '=' { assert word[k] in word; }
  }

  /** Characters that mean more at the start of a word, or as a word, are plain inside one. */
  lemma PlainInside(c: char)
    requires c in "#~!{}[]"
    ensures IsPlain(['a', c, 'b'])
  {
    hide IsPlain;
    assert forall r <- RESERVED :: r != ['a', c, 'b'];
    PlainWithout(['a', c, 'b']);
  }

  lemma NotPlain()
    ensures !IsPlain("#a") && !IsPlain("~a") && !IsPlain("!") && !IsPlain("a[b]") && !IsPlain("if") && !IsPlain("A=b")
  {
    assert "a[b]"[1..3] == "[b";
    assert BracketAt("a[b]", 1, 3);
    assert "A=b"[..1] == "A";
    assert "A=b"[1] == '=';
  }

  // ---- remote runs ----------------------------------------------------------------------------------------

  datatype SshRunnerOptions = SshRunnerOptions(
    host: string, port: Option<real>, identityFile: Option<string>, workspacePath: string, binary: Option<string>,
    task: string, maxCostUsd: Option<real>, maxDurationSeconds: Option<real>, model: Option<string>,
    provider: Option<string>, permissionMode: Option<string>, outputFormat: Option<string>)

  datatype SshArgs = Args(args: seq<string>) | NoHost | NotAbsolute | BadPort

  const DEFAULT_REMOTE_BINARY: string := "seekforge"

  /** Set, and not empty. */
  predicate Given(s: Option<string>) { s.Some? && s.value != "" }

  predicate PortOk(port: real) { port.Floor as real == port && 1.0 <= port <= 65_535.0 }

  function Binary(opts: SshRunnerOptions): string {
    if opts.binary.Some? then opts.binary.value else DEFAULT_REMOTE_BINARY
  }

  /** A flag is written with its value, or not at all. */
  function FlagWords(flag: string, value: Option<string>): seq<string> {
    if value.Some? then [flag, value.value] else []
  }

  function Number(n: Option<real>, text: real -> string): Option<string> {
    if n.Some? then Some(text(n.value)) else None
  }

  function NonEmpty(s: Option<string>): Option<string> {
    if Given(s) then s else None
  }

  /** The words the remote shell is meant to read, after `cd <workspace> &&`; `text` writes numbers. */
  function RunWords(opts: SshRunnerOptions, text: real -> string): seq<string> {
    [Binary(opts), "run", opts.task, "-y"]
    + FlagWords("--max-cost", Number(opts.maxCostUsd, text))
    + FlagWords("--max-duration", Number(opts.maxDurationSeconds, text))
    + FlagWords("-m", NonEmpty(opts.model))
    + FlagWords("--provider", NonEmpty(opts.provider))
    + FlagWords("--permission-mode", NonEmpty(opts.permissionMode))
    + FlagWords("--output-format", NonEmpty(opts.outputFormat))
  }

  /** What the remote shell is meant to see: a change of directory, one operator, and the run. */
  function RemoteTokens(opts: SshRunnerOptions, text: real -> string): seq<Token> {
    [Word("cd"), Word(opts.workspacePath), Operator("&&")] + Words(RunWords(opts, text))
  }

  function LocalArgs(opts: SshRunnerOptions, text: real -> string): seq<string> {
    (if opts.port.Some? then ["-p", text(opts.port.value)] else [])
    + (if Given(opts.identityFile) then ["-i", opts.identityFile.value] else [])
    + ["-o", "BatchMode=yes", "-o", "RequestTTY=no", "-o", "ForwardAgent=no", "-o", "ForwardX11=no", opts.host]
  }

  /** A flag and this value stand next to each other, at an even place. */
  predicate PairAt(words: seq<string>, k: nat, flag: string, value: string) {
    k % 2 == 0 && k + 1 < |words| && words[k] == flag && words[k + 1] == value
  }

  ghost predicate HasPair(words: seq<string>, flag: string, value: string) {
    exists k: nat :: PairAt(words, k, flag, value)
  }

  lemma PairsConcat(a: seq<string>, b: seq<string>, flag: string, value: string)
    requires |a| % 2 == 0
    ensures HasPair(a + b, flag, value) <==> HasPair(a, flag, value) || HasPair(b, flag, value)
  {
    hide PairAt;
    if HasPair(a, flag, value) {
      var k: nat :| PairAt(a, k, flag, value);
      PairInside(a, k, flag, value);
      PairOnTheLeft(a, b, k, flag, value);
    }
    if HasPair(b, flag, value) {
      var k: nat :| PairAt(b, k, flag, value);
      PairOnTheRight(a, b, k, flag, value);
    }
    if HasPair(a + b, flag, value) {
      var k: nat :| PairAt(a + b, k, flag, value);
      if k < |a| { PairOnTheLeft(a, b, k, flag, value); } else { PairOnTheRight(a, b, k - |a|, flag, value); }
    }
  }

  lemma PairInside(words: seq<string>, k: nat, flag: string, value: string)
    requires PairAt(words, k, flag, value)
    ensures k < |words|
  {
  }

  lemma PairOnTheLeft(a: seq<string>, b: seq<string>, k: nat, flag: string, value: string)
    requires |a| % 2 == 0 && k < |a|
    ensures PairAt(a + b, k, flag, value) <==> PairAt(a, k, flag, value)
  {
    if k % 2 == 0 { assert k + 1 < |a|; }
  }

  lemma PairOnTheRight(a: seq<string>, b: seq<string>, k: nat, flag: string, value: string)
    requires |a| % 2 == 0
    ensures PairAt(a + b, |a| + k, flag, value) <==> PairAt(b, k, flag, value)
  {
    assert (|a| + k) % 2 == k % 2;
  }

  lemma FlagPair(f: string, v: Option<string>, flag: string, value: string)
    ensures HasPair(FlagWords(f, v), flag, value) <==> f == flag && v == Some(value)
    ensures |FlagWords(f, v)| % 2 == 0
  {
    if f == flag && v == Some(value) { assert PairAt(FlagWords(f, v), 0, flag, value); }
  }

  /** The option is set, to a text that is not empty where it is a text. */
  predicate Wanted(opts: SshRunnerOptions, text: real -> string, flag: string, value: string) {
    || (flag == "--max-cost" && opts.maxCostUsd.Some? && value == text(opts.maxCostUsd.value))
    || (flag == "--max-duration" && opts.maxDurationSeconds.Some? && value == text(opts.maxDurationSeconds.value))
    || (flag == "-m" && opts.model == Some(value) && value != "")
    || (flag == "--provider" && opts.provider == Some(value) && value != "")
    || (flag == "--permission-mode" && opts.permissionMode == Some(value) && value != "")
    || (flag == "--output-format" && opts.outputFormat == Some(value) && value != "")
  }

  /** The words of a run: the binary, `run`, the task, `-y`, and then every option that is set, each with its value. */
  lemma RunWordsSay(opts: SshRunnerOptions, text: real -> string, flag: string, value: string)
    ensures
      var words := RunWords(opts, text);
      && |words| >= 4 && |words| % 2 == 0 && words[1] == "run" && words[2] == opts.task && words[3] == "-y"
      && words[0] == (match opts.binary case Some(b) => b case None => "seekforge")
      && (HasPair(words[4..], flag, value) <==> Wanted(opts, text, flag, value))
  {
    hide FlagWords, HasPair;
    var cost := FlagWords("--max-cost", Number(opts.maxCostUsd, text));
    var duration := FlagWords("--max-duration", Number(opts.maxDurationSeconds, text));
    var model := FlagWords("-m", NonEmpty(opts.model));
    var provider := FlagWords("--provider", NonEmpty(opts.provider));
    var mode := FlagWords("--permission-mode", NonEmpty(opts.permissionMode));
    var format := FlagWords("--output-format", NonEmpty(opts.outputFormat));
    FlagPair("--max-cost", Number(opts.maxCostUsd, text), flag, value);
    FlagPair("--max-duration", Number(opts.maxDurationSeconds, text), flag, value);
    FlagPair("-m", NonEmpty(opts.model), flag, value);
    FlagPair("--provider", NonEmpty(opts.provider), flag, value);
    FlagPair("--permission-mode", NonEmpty(opts.permissionMode), flag, value);
    FlagPair("--output-format", NonEmpty(opts.outputFormat), flag, value);
    var all := cost + duration + model + provider + mode + format;
    assert RunWords(opts, text) == [Binary(opts), "run", opts.task, "-y"] + all;
    PairsConcat(cost, duration, flag, value);
    PairsConcat(cost + duration, model, flag, value);
    PairsConcat(cost + duration + model, provider, flag, value);
    PairsConcat(cost + duration + model + provider, mode, flag, value);
    PairsConcat(cost + duration + model + provider + mode, format, flag, value);
  }

  /** Ports are the whole numbers from 1 to 65535. */
  lemma PortsAre(n: int, port: real)
    ensures PortOk(n as real) <==> 1 <= n <= 65_535
    ensures PortOk(port) ==> port == port.Floor as real
  {
  }

  lemma ReadsMore(pieces: seq<string>, before: seq<Token>, words: seq<string>, flag: string, value: string)
    requires Reads(pieces, before + Words(words), true) && IsSafe(flag) && words != []
    ensures Reads(pieces + [flag, ShellQuote(value)], before + Words(words + [flag, value]), true)
  {
    hide Piece, IsSafe, ShellQuote;
    SafePiece(flag);
    QuotedPiece(value, false);
    var tokens, more := before + Words(words), before + Words(words + [flag, value]);
    assert more == tokens + [Word(flag), Word(value)];
    var n := |tokens|;
    assert tokens[n - 1] == Word(words[|words| - 1]);
    forall k | 0 <= k < n + 2 ensures Piece((pieces + [flag, ShellQuote(value)])[k], more[k], HeadAt(more, k, true)) {
      if k < n { assert Piece(pieces[k], tokens[k], HeadAt(tokens, k, true)) && more[k] == tokens[k]; }
    }
  }

  lemma FlagsAreSafe()
    ensures IsSafe("cd") && IsSafe("run") && IsSafe("-y") && IsSafe("--max-cost") && IsSafe("--max-duration") &&
      IsSafe("-m")
    ensures IsSafe("--provider") && IsSafe("--permission-mode") && IsSafe("--output-format")
  {
  }

  /** A flag and its value, if there is one, are added to the remote command. */
  method PushFlag(
    remote: seq<string>, ghost before: seq<Token>, ghost words: seq<string>, flag: string, value: Option<string>)
    returns (r: seq<string>)
    requires Reads(remote, before + Words(words), true) && IsSafe(flag) && words != []
    ensures Reads(r, before + Words(words + FlagWords(flag, value)), true)
  {
    r := remote;
    if value.Some? {
      ReadsMore(remote, before, words, flag, value.value);
      r := remote + [flag, ShellQuote(value.value)];
    } else {
      assert words + [] == words;
    }
  }

  lemma CdIsPlain()
    ensures IsPlain("cd")
  {
    assert forall r <- RESERVED :: r != "cd";
    assert Literal("cd") by { assert forall c <- "cd" :: c != '['; }
    assert !IsAssignment("cd");
  }

  lemma AndPiece()
    ensures Piece("&&", Operator("&&"), false)
  {
    hide ReadsAs;
    AndReadsAs();
    assert Taken(Sign("&&"), false) && TokenOf(Sign("&&")) == Operator("&&");
  }

  lemma RemoteStart(opts: SshRunnerOptions)
    ensures Reads(
      ["cd", ShellQuote(opts.workspacePath), "&&", ShellQuote(Binary(opts)), "run", ShellQuote(opts.task), "-y"],
      [Word("cd"), Word(opts.workspacePath), Operator("&&")] + Words([Binary(opts), "run", opts.task, "-y"]), true)
  {
    hide Piece, ReadsAs, IsSafe, IsPlain, ShellQuote;
    FlagsAreSafe();
    CdIsPlain();
    PlainPiece("cd");
    QuotedPiece(opts.workspacePath, false);
    AndPiece();
    QuotedPiece(Binary(opts), true);
    SafePiece("run");
    QuotedPiece(opts.task, false);
    SafePiece("-y");
  }

  /**
   * The arguments of `ssh`. The last one is the remote command, which a remote shell reads as exactly the intended
   * words, whatever text they hold, with one operator.
   */
  method BuildSshRunArgs(opts: SshRunnerOptions, text: real -> string) returns (r: SshArgs)
    ensures r.NoHost? <==> IsBlank(opts.host)
    ensures r.NotAbsolute? <==> !IsBlank(opts.host) && !("/" <= opts.workspacePath)
    ensures r.BadPort? <==>
      !IsBlank(opts.host) && "/" <= opts.workspacePath && opts.port.Some? && !PortOk(opts.port.value)
    ensures r.Args? ==>
      && |r.args| == |LocalArgs(opts, text)| + 1 && r.args[..|r.args| - 1] == LocalArgs(opts, text)
      && Tokens(r.args[|r.args| - 1]) == Some(RemoteTokens(opts, text))
  {
    hide Piece, IsSafe, Reads, ShellQuote, Words, Tokens;
    if IsBlank(opts.host) { return NoHost; }
    if !("/" <= opts.workspacePath) { return NotAbsolute; }
    var args: seq<string> := [];
    if opts.port.Some? {
      if !PortOk(opts.port.value) { return BadPort; }
      args := args + ["-p", text(opts.port.value)];
    }
    if Given(opts.identityFile) { args := args + ["-i", opts.identityFile.value]; }
    args := args + [
      "-o", "BatchMode=yes", "-o", "RequestTTY=no", "-o", "ForwardAgent=no", "-o", "ForwardX11=no", opts.host];
    assert args == LocalArgs(opts, text);
    var command := RemoteCommand(opts, text);
    args := args + [command];
    return Args(args);
  }

  method RemoteCommand(opts: SshRunnerOptions, text: real -> string) returns (command: string)
    ensures Tokens(command) == Some(RemoteTokens(opts, text))
  {
    hide Piece, IsSafe, ShellQuote, Words, Tokens, FlagWords, Reads, Number, NonEmpty;
    FlagsAreSafe();
    RemoteStart(opts);
    var binary := if opts.binary.Some? then opts.binary.value else DEFAULT_REMOTE_BINARY;
    var remote := ["cd", ShellQuote(opts.workspacePath), "&&", ShellQuote(binary), "run", ShellQuote(opts.task), "-y"];
    ghost var before := [Word("cd"), Word(opts.workspacePath), Operator("&&")];
    ghost var words := [Binary(opts), "run", opts.task, "-y"];
    remote := PushFlag(remote, before, words, "--max-cost", Number(opts.maxCostUsd, text));
    words := words + FlagWords("--max-cost", Number(opts.maxCostUsd, text));
    remote := PushFlag(remote, before, words, "--max-duration", Number(opts.maxDurationSeconds, text));
    words := words + FlagWords("--max-duration", Number(opts.maxDurationSeconds, text));
    remote := PushFlag(remote, before, words, "-m", NonEmpty(opts.model));
    words := words + FlagWords("-m", NonEmpty(opts.model));
    remote := PushFlag(remote, before, words, "--provider", NonEmpty(opts.provider));
    words := words + FlagWords("--provider", NonEmpty(opts.provider));
    remote := PushFlag(remote, before, words, "--permission-mode", NonEmpty(opts.permissionMode));
    words := words + FlagWords("--permission-mode", NonEmpty(opts.permissionMode));
    remote := PushFlag(remote, before, words, "--output-format", NonEmpty(opts.outputFormat));
    words := words + FlagWords("--output-format", NonEmpty(opts.outputFormat));
    AllRead(remote, before + Words(words));
    command := JoinWith(remote, " ");
  }
}
