/** The chunked line visitor of the server's project files (apps/server/src/config.ts). */
module LineVisitor {
  import opened Lines

  newtype byte = x: int | 0 <= x < 256
  type Bytes = seq<byte>
  const NL: byte := 10

  datatype Outcome<S> = Visited(state: S) | RangeError

  /**
   * Visits the file line by line. `shortReads` is the operating system's choice of how much each read
   * returns; the result does not depend on it. A missing file visits nothing.
   */
  method VisitProjectFileLines<S>(
    file: Content, maxLineBytes: int, init: S, visit: (S, Piece<byte>) -> (S, bool), startOffset: int,
    shortReads: nat -> nat)
    returns (r: Outcome<S>)
    ensures r.RangeError? <==> maxLineBytes <= 0 || startOffset < 0
    ensures !r.RangeError? && file.Absent? ==> r.state == init
    ensures !r.RangeError? && file.Present? ==>
      r.state == Fold(Segment(file.bytes, NL, startOffset, maxLineBytes).pieces, init, visit)
  {
    if maxLineBytes <= 0 { return RangeError; }
    if startOffset < 0 { return RangeError; }
    if file.Absent? { return Visited(init); }
    RestIsFold(file.bytes, startOffset, maxLineBytes, init, visit);
    var s := VisitChunks(file.bytes, maxLineBytes, init, visit, startOffset, shortReads);
    return Visited(s);
  }

  /** The outer loop: one read after another. */
  method VisitChunks<S>(
    b: Bytes, maxLineBytes: nat, init: S, visit: (S, Piece<byte>) -> (S, bool), startOffset: nat,
    shortReads: nat -> nat)
    returns (s: S)
    ensures s == Rest(b, startOffset, maxLineBytes, init, visit)
  {
    hide Rest, IndexOf;
    var pending: Bytes := [];
    var position := startOffset;
    s := init;
    var stopped := false;
    while position < |b|
      invariant Pends(b, pending, position) || pending == []
      invariant |pending| <= maxLineBytes && Free(pending, NL)
      invariant Rest(b, startOffset, maxLineBytes, init, visit) == Rest(b, position - |pending|, maxLineBytes, s, visit)
    {
      var bytesRead := ReadSize(|b|, position, shortReads(position));
      Extends(b, pending, position, position + bytesRead);
      pending := pending + b[position..position + bytesRead];
      position := position + bytesRead;
      s, pending, stopped := VisitComplete(b, pending, position, maxLineBytes, s, visit);
      if stopped { return; }
      if |pending| > maxLineBytes {
        Overlong(b, pending, position, maxLineBytes, s, visit);
        return;
      }
    }
    LastLine(b, pending, position, maxLineBytes, s, visit);
    if |pending| > 0 && |pending| <= maxLineBytes {
      s := visit(s, Piece(pending, position)).0;
    }
  }

  /** The inner loop: visits every line the pending bytes complete. */
  method VisitComplete<S>(
    ghost b: Bytes, unread: Bytes, position: nat, maxLineBytes: nat, init: S, visit: (S, Piece<byte>) -> (S, bool))
    returns (s: S, pending: Bytes, stopped: bool)
    requires Pends(b, unread, position)
    ensures Pends(b, pending, position) && |pending| <= |unread|
    ensures
      Rest(b, position - |unread|, maxLineBytes, init, visit) ==
      if stopped then s else Rest(b, position - |pending|, maxLineBytes, s, visit)
    ensures !stopped ==> Free(pending, NL)
  {
    hide Rest;
    s, pending := init, unread;
    var newline := IndexOf(pending, NL, 0);
    while newline < |pending|
      invariant Pends(b, pending, position) && |pending| <= |unread|
      invariant newline == IndexOf(pending, NL, 0)
      invariant
        Rest(b, position - |unread|, maxLineBytes, init, visit) == Rest(b, position - |pending|, maxLineBytes, s, visit)
      decreases |pending|
    {
      NextLine(b, pending, position, newline, maxLineBytes, s, visit);
      if newline > maxLineBytes { return s, pending, true; }
      var line := pending[..newline];
      pending := pending[newline + 1..];
      var nextOffset := position - |pending|;
      var (s', more) := visit(s, Piece(line, nextOffset));
      s := s';
      if !more { return s, pending, true; }
      newline := IndexOf(pending, NL, 0);
    }
    stopped := false;
  }

  /** A project file's content, or its absence. */
  datatype Content = Absent | Present(bytes: Bytes)

  /** What visiting the rest of the file, from `at`, makes of `s`. */
  ghost function Rest<S>(b: Bytes, at: nat, max: nat, s: S, visit: (S, Piece<byte>) -> (S, bool)): S
    decreases |b| - at
  {
    if at >= |b| then s
    else
      var i := IndexOf(b, NL, at);
      if i - at > max then s
      else if i == |b| then visit(s, Piece(b[at..], |b|)).0
      else
        var step := visit(s, Piece(b[at..i], i + 1));
        if step.1 then Rest(b, i + 1, max, step.0, visit) else step.0
  }

  /** One line of the fold. */
  lemma RestStep<S>(b: Bytes, at: nat, max: nat, s: S, visit: (S, Piece<byte>) -> (S, bool))
    requires at < |b|
    ensures
      var i := IndexOf(b, NL, at);
      var next := if i == |b| then i else i + 1;
      var step := visit(s, Piece(b[at..i], next));
      Rest(b, at, max, s, visit) ==
      if i - at > max then s else if step.1 then Rest(b, next, max, step.0, visit) else step.0
  {
    assert b[at..|b|] == b[at..];
  }

  lemma RestEnd<S>(b: Bytes, at: nat, max: nat, s: S, visit: (S, Piece<byte>) -> (S, bool))
    requires at >= |b|
    ensures Rest(b, at, max, s, visit) == s
  {
  }

  lemma {:induction false} RestIsFold<S>(b: Bytes, at: nat, max: nat, s: S, visit: (S, Piece<byte>) -> (S, bool))
    ensures Rest(b, at, max, s, visit) == Fold(Segment(b, NL, at, max).pieces, s, visit)
    decreases |b| - at
  {
    if at < |b| {
      var i := IndexOf(b, NL, at);
      if i - at > max {
      } else if i == |b| {
        FoldFirst(Piece(b[at..], |b|), [], s, visit);
      } else {
        var p := Piece(b[at..i], i + 1);
        FoldFirst(p, Segment(b, NL, i + 1, max).pieces, s, visit);
        RestIsFold(b, i + 1, max, visit(s, p).0, visit);
      }
    }
  }

  /** The first newline in the pending bytes ends the next line of the file. */
  lemma NextLine<S>(
    b: Bytes, pending: Bytes, position: nat, newline: nat, max: nat, s: S, visit: (S, Piece<byte>) -> (S, bool))
    requires Pends(b, pending, position)
    requires newline == IndexOf(pending, NL, 0) < |pending|
    ensures Pends(b, pending[newline + 1..], position)
    ensures
      var next := position - |pending[newline + 1..]|;
      var step := visit(s, Piece(pending[..newline], next));
      Rest(b, position - |pending|, max, s, visit) ==
      if newline > max then s else if step.1 then Rest(b, next, max, step.0, visit) else step.0
  {
    NextNewline(b, NL, pending, position, newline);
  }

  /** Bytes left over at the end of the file are its last, unterminated line. */
  lemma LastLine<S>(
    b: Bytes, pending: Bytes, position: nat, max: nat, s: S, visit: (S, Piece<byte>) -> (S, bool))
    requires |pending| <= max && Free(pending, NL) && position >= |b|
    requires Pends(b, pending, position) || pending == []
    ensures
      Rest(b, position - |pending|, max, s, visit) ==
      if |pending| > 0 then visit(s, Piece(pending, position)).0 else s
  {
    if |pending| > 0 {
      assert b[position - |pending|..position] == b[position - |pending|..] == pending;
      NoNewline(b, NL, pending, position);
    }
  }

  /** Pending bytes past the limit without a newline begin an overlong line. */
  lemma Overlong<S>(
    b: Bytes, pending: Bytes, position: nat, max: nat, s: S, visit: (S, Piece<byte>) -> (S, bool))
    requires Pends(b, pending, position)
    requires Free(pending, NL) && |pending| > max
    ensures Rest(b, position - |pending|, max, s, visit) == s
  {
    NoNewline(b, NL, pending, position);
  }
}
