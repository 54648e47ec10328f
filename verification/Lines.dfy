/** Cutting a stream at its newlines: what the two chunked readers of the repository compute, whatever the chunks. */
module Lines {

  /** One line, without its newline, and the offset just past that newline (or the end of input). */
  datatype Piece<T> = Piece(line: seq<T>, next: nat)

  /** The lines before the first overlong one, and whether there is an overlong one. */
  datatype Cut<T> = Cut(pieces: seq<Piece<T>>, overlong: bool)

  /** First index of `x` in `s` at or after `from`; `|s|` when there is none. */
  function IndexOf<T(==)>(s: seq<T>, x: T, from: nat): (i: nat)
    requires from <= |s|
    ensures from <= i <= |s|
    ensures forall k :: from <= k < i ==> s[k] != x
    ensures i < |s| ==> s[i] == x
    decreases |s| - from
  {
    if from == |s| || s[from] == x then from else IndexOf(s, x, from + 1)
  }

  /** The newline-separated lines of `b` from offset `at`, stopping at the first one longer than `max`. */
  function Segment<T(==)>(b: seq<T>, nl: T, at: nat, max: nat): Cut<T>
    decreases |b| - at
  {
    if at >= |b| then Cut([], false)
    else
      var i := IndexOf(b, nl, at);
      if i - at > max then Cut([], true)
      else if i == |b| then Cut([Piece(b[at..], |b|)], false)
      else
        var rest := Segment(b, nl, i + 1, max);
        Cut([Piece(b[at..i], i + 1)] + rest.pieces, rest.overlong)
  }

  /** A fold that the step may stop. */
  function Fold<T, S>(ps: seq<Piece<T>>, s: S, step: (S, Piece<T>) -> (S, bool)): S
  {
    if ps == [] then s
    else
      var (s', more) := step(s, ps[0]);
      if more then Fold(ps[1..], s', step) else s'
  }

  lemma FoldFirst<T, S>(p: Piece<T>, rest: seq<Piece<T>>, s: S, step: (S, Piece<T>) -> (S, bool))
    ensures Fold([p] + rest, s, step) == if step(s, p).1 then Fold(rest, step(s, p).0, step) else step(s, p).0
  {
    assert ([p] + rest)[1..] == rest;
  }

  /** How much one read at `position` returns: any positive count up to the end, as the reader's source wishes. */
  function ReadSize(size: nat, position: nat, wish: nat): (n: nat)
    ensures n == 0 <==> position >= size
    ensures position < size ==> position + n <= size
    ensures 0 < wish && position + wish <= size ==> n == wish
  {
    if position >= size then 0 else if wish == 0 then 1 else if wish > size - position then size - position else wish
  }

  /** A newline-free stretch up to a newline, or to the end, is the whole look-ahead of IndexOf. */
  lemma {:induction false} IndexOfIs<T>(b: seq<T>, nl: T, at: nat, i: nat)
    requires at <= i <= |b|
    requires nl !in b[at..i]
    requires i < |b| ==> b[i] == nl
    ensures IndexOf(b, nl, at) == i
    decreases i - at
  {
    if at < i {
      assert b[at] == b[at..i][0];
      IndexOfIs(b, nl, at + 1, i);
    }
  }

  /** A newline-free stretch is skipped. */
  lemma {:induction false} IndexOfPast<T>(b: seq<T>, nl: T, at: nat, i: nat)
    requires at <= i <= |b|
    requires nl !in b[at..i]
    ensures IndexOf(b, nl, at) == IndexOf(b, nl, i)
    decreases i - at
  {
    if at < i {
      assert b[at] == b[at..i][0];
      IndexOfPast(b, nl, at + 1, i);
    }
  }

  lemma SegmentStep<T>(b: seq<T>, nl: T, at: nat, max: nat)
    requires at < |b|
    ensures
      var i := IndexOf(b, nl, at);
      var rest := Segment(b, nl, i + 1, max);
      Segment(b, nl, at, max) ==
      if i - at > max then Cut([], true)
      else Cut([Piece(b[at..i], if i == |b| then i else i + 1)] + rest.pieces, rest.overlong)
  {
    assert b[at..|b|] == b[at..];
  }

  /** Reading may resume at the offset any visited line reported: the rest is exactly the later lines. */
  lemma {:induction false} Resume<T>(b: seq<T>, nl: T, at: nat, max: nat, k: nat)
    requires k < |Segment(b, nl, at, max).pieces|
    ensures
      var whole := Segment(b, nl, at, max);
      var rest := Segment(b, nl, whole.pieces[k].next, max);
      whole.pieces[k + 1..] == rest.pieces && whole.overlong == rest.overlong
    decreases k
  {
    var whole, later := Segment(b, nl, at, max), Segment(b, nl, IndexOf(b, nl, at) + 1, max);
    if k == 0 {
      assert whole.pieces[1..] == later.pieces;
    } else {
      Resume(b, nl, IndexOf(b, nl, at) + 1, max, k - 1);
      assert whole.pieces[k] == later.pieces[k - 1];
      assert whole.pieces[k + 1..] == later.pieces[k..];
    }
  }

  /** Offsets strictly increase, so an offset names at most one line. */
  lemma {:induction false} OffsetsIncrease<T>(b: seq<T>, nl: T, at: nat, max: nat)
    ensures forall k :: 0 <= k < |Segment(b, nl, at, max).pieces| ==> at < Segment(b, nl, at, max).pieces[k].next <= |b|
    ensures forall j, k :: 0 <= j < k < |Segment(b, nl, at, max).pieces| ==>
      Segment(b, nl, at, max).pieces[j].next < Segment(b, nl, at, max).pieces[k].next
    decreases |b| - at
  {
    if at < |b| {
      var i := IndexOf(b, nl, at);
      if i - at <= max && i < |b| {
        OffsetsIncrease(b, nl, i + 1, max);
      }
    }
  }

  /** The part of `b` that was read, up to `position`, but not yet consumed. */
  ghost predicate Pends<T>(b: seq<T>, pending: seq<T>, position: nat) {
    && |pending| <= position <= |b|
    && forall i :: 0 <= i < |pending| ==> pending[i] == b[position - |pending| + i]
  }

  ghost predicate Free<T>(s: seq<T>, nl: T) {
    forall k :: 0 <= k < |s| ==> s[k] != nl
  }

  lemma Extends<T>(b: seq<T>, pending: seq<T>, position: nat, end: nat)
    requires Pends(b, pending, position) || pending == []
    requires position <= end <= |b|
    ensures Pends(b, pending + b[position..end], end)
    ensures end - |pending + b[position..end]| == position - |pending|
  {
  }

  /** The first newline among the pending elements ends the next line of the whole input. */
  lemma NextNewline<T>(b: seq<T>, nl: T, pending: seq<T>, position: nat, newline: nat)
    requires Pends(b, pending, position)
    requires newline == IndexOf(pending, nl, 0) < |pending|
    ensures Pends(b, pending[newline + 1..], position)
    ensures IndexOf(b, nl, position - |pending|) == position - |pending| + newline
    ensures b[position - |pending|..position - |pending| + newline] == pending[..newline]
  {
    var at := position - |pending|;
    assert b[at..at + newline] == pending[..newline];
    assert b[at + newline] == pending[newline];
    IndexOfIs(b, nl, at, at + newline);
  }

  /** Without a newline among the pending elements the next one is not before `position`. */
  lemma NoNewline<T>(b: seq<T>, nl: T, pending: seq<T>, position: nat)
    requires Pends(b, pending, position) && Free(pending, nl)
    ensures IndexOf(b, nl, position - |pending|) == IndexOf(b, nl, position)
  {
    assert b[position - |pending|..position] == pending;
    IndexOfPast(b, nl, position - |pending|, position);
  }

  /** Where line `k` starts: after the one before it. */
  function StartOf<T>(pieces: seq<Piece<T>>, at: nat, k: nat): nat
    requires k <= |pieces|
  {
    if k == 0 then at else pieces[k - 1].next
  }

  /** Every line is the stretch up to the next newline, or to the end, and within the limit. */
  lemma {:induction false} LinesAreCut<T>(b: seq<T>, nl: T, at: nat, max: nat, k: nat)
    requires k < |Segment(b, nl, at, max).pieces|
    ensures
      var pieces := Segment(b, nl, at, max).pieces;
      var start, line := StartOf(pieces, at, k), pieces[k].line;
      var end := start + |line|;
      && end <= |b| && line == b[start..end] && Free(line, nl) && |line| <= max
      && (if end < |b| then b[end] == nl && pieces[k].next == end + 1 else pieces[k].next == |b|)
    decreases k
  {
    hide Segment, IndexOf;
    PiecesMeanInput(b, nl, at, max);
    SegmentStep(b, nl, at, max);
    var i := IndexOf(b, nl, at);
    if k > 0 {
      var later := Segment(b, nl, i + 1, max).pieces;
      PiecesMeanInput(b, nl, i + 1, max);
      LinesAreCut(b, nl, i + 1, max, k - 1);
      assert Segment(b, nl, at, max).pieces[k] == later[k - 1];
      assert k > 1 ==> Segment(b, nl, at, max).pieces[k - 1] == later[k - 2];
    }
  }

  lemma PiecesMeanInput<T>(b: seq<T>, nl: T, at: nat, max: nat)
    ensures Segment(b, nl, at, max).pieces != [] ==> at < |b|
  {
  }

  lemma NothingToCut<T>(b: seq<T>, nl: T, max: nat)
    ensures Segment(b, nl, |b|, max) == Cut([], false)
  {
  }

  lemma PastTheEnd<T>(b: seq<T>, nl: T, max: nat)
    ensures Segment(b, nl, |b| + 1, max) == Cut([], false)
  {
  }

  lemma LastStart<T>(pieces: seq<Piece<T>>, at: nat)
    ensures StartOf(pieces, at, |pieces|) == if pieces == [] then at else pieces[|pieces| - 1].next
  {
  }

  /** Cutting stops at the end of the input, or at a line longer than the limit. */
  lemma {:induction false} CutIsComplete<T>(b: seq<T>, nl: T, at: nat, max: nat)
    requires at <= |b|
    ensures
      var cut := Segment(b, nl, at, max);
      var end := StartOf(cut.pieces, at, |cut.pieces|);
      end <= |b| && if cut.overlong then IndexOf(b, nl, end) - end > max else end == |b|
    decreases |b| - at
  {
    hide Segment, StartOf, IndexOf;
    var cut := Segment(b, nl, at, max);
    if at == |b| {
      NothingToCut(b, nl, max);
      LastStart(cut.pieces, at);
    } else {
      SegmentStep(b, nl, at, max);
      LastStart(cut.pieces, at);
      var i := IndexOf(b, nl, at);
      if i - at <= max {
        var next := if i == |b| then i else i + 1;
        if i < |b| { CutIsComplete(b, nl, next, max); } else { PastTheEnd(b, nl, max); }
        LastStart(Segment(b, nl, i + 1, max).pieces, next);
      }
    }
  }
}
