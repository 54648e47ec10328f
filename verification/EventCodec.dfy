/**
 * A codec of events that has every property the event logs rely on: so these properties agree with each other, and
 * with the white space the code treats as blank (apps/server/src/run-ledger.ts). Numbers are written in unary.
 */
module EventCodec {
  import opened Basics
  import opened Lines
  import opened LineVisitor
  import opened EventLog

  const COMMA: byte := 44
  const STROKE: byte := 49
  const OPEN: byte := 123
  const CLOSE: byte := 125

  function Strokes(n: nat): Bytes {
    if n == 0 then [] else [STROKE] + Strokes(n - 1)
  }

  function Numbers(ns: seq<nat>): Bytes {
    if ns == [] then [] else Strokes(ns[0]) + ([COMMA] + Numbers(ns[1..]))
  }

  function Codes(s: string): (ns: seq<nat>)
    ensures |ns| == |s| && forall k :: 0 <= k < |s| ==> ns[k] == s[k] as nat
  {
    seq(|s|, k requires 0 <= k < |s| => s[k] as nat)
  }

  function Fields(e: RunEvent): seq<nat> {
    [|e.runId|, if e.seqNo < 0 then 1 else 0, if e.seqNo < 0 then -e.seqNo else e.seqNo]
    + Codes(e.runId) + Codes(e.frame)
  }

  function Encode(e: RunEvent): (line: Bytes)
    ensures line != [] && line[0] == OPEN && line[|line| - 1] == CLOSE
  {
    [OPEN] + Numbers(Fields(e)) + [CLOSE]
  }

  /** `line` is the line of `e`, after JSON white space. */
  ghost predicate Says(line: Bytes, space: Bytes, e: RunEvent) {
    Safe(e) && IsJsonSpace(space) && line == space + Encode(e)
  }

  ghost function Decode(line: Bytes): Decoded {
    if IsBlankLine(line) then Blank
    else if exists space, e :: Says(line, space, e) then
      var space, e :| Says(line, space, e);
      Event(e)
    else Bad
  }

  // ---- lines of different events differ -------------------------------------------------------------------

  lemma {:induction false} StrokesDiffer(a: nat, x: Bytes, b: nat, y: Bytes)
    requires Strokes(a) + ([COMMA] + x) == Strokes(b) + ([COMMA] + y)
    ensures a == b && x == y
    decreases a
  {
    var s, t := Strokes(a) + ([COMMA] + x), Strokes(b) + ([COMMA] + y);
    if a == 0 || b == 0 {
      assert s[0] == t[0];
      assert s[1..] == t[1..];
      assert a == 0 ==> s[1..] == x;
      assert b == 0 ==> t[1..] == y;
    } else {
      assert s[1..] == Strokes(a - 1) + ([COMMA] + x) && t[1..] == Strokes(b - 1) + ([COMMA] + y);
      StrokesDiffer(a - 1, x, b - 1, y);
    }
  }

  lemma {:induction false} NumbersDiffer(a: seq<nat>, b: seq<nat>)
    requires Numbers(a) == Numbers(b)
    ensures a == b
    decreases a
  {
    if a != [] && b != [] {
      StrokesDiffer(a[0], Numbers(a[1..]), b[0], Numbers(b[1..]));
      NumbersDiffer(a[1..], b[1..]);
      assert a == [a[0]] + a[1..] && b == [b[0]] + b[1..];
    }
  }

  lemma CodesDiffer(s: string, t: string)
    requires Codes(s) == Codes(t)
    ensures s == t
  {
    assert |s| == |Codes(s)| == |t|;
    forall k | 0 <= k < |s| ensures s[k] == t[k] {
      assert Codes(s)[k] == s[k] as nat && Codes(t)[k] == t[k] as nat;
    }
  }

  lemma EncodeDiffers(d: RunEvent, e: RunEvent)
    requires Encode(d) == Encode(e)
    ensures d == e
  {
    hide Numbers, Codes;
    var s, t := Encode(d), Encode(e);
    assert s[1..|s| - 1] == Numbers(Fields(d)) && t[1..|t| - 1] == Numbers(Fields(e));
    NumbersDiffer(Fields(d), Fields(e));
    var f, n := Fields(d), |d.runId|;
    assert f[0] == n && Fields(e)[0] == |e.runId|;
    assert f[1] == Fields(e)[1] && f[2] == Fields(e)[2];
    assert f[3..3 + n] == Codes(d.runId) && Fields(e)[3..3 + n] == Codes(e.runId);
    assert f[3 + n..] == Codes(d.frame) && Fields(e)[3 + n..] == Codes(e.frame);
    CodesDiffer(d.runId, e.runId);
    CodesDiffer(d.frame, e.frame);
  }

  lemma {:induction false} NumbersBytes(ns: seq<nat>)
    ensures forall x <- Numbers(ns) :: x == STROKE || x == COMMA
    decreases ns
  {
    if ns != [] {
      StrokesBytes(ns[0]);
      NumbersBytes(ns[1..]);
    }
  }

  lemma {:induction false} StrokesBytes(n: nat)
    ensures forall x <- Strokes(n) :: x == STROKE
    decreases n
  {
    if n > 0 { StrokesBytes(n - 1); }
  }

  /** A line of an event closes once, at its end. */
  lemma EncodeBytes(e: RunEvent)
    ensures NL !in Encode(e)
    ensures forall k :: 0 <= k < |Encode(e)| - 1 ==> Encode(e)[k] != CLOSE
  {
    hide Numbers;
    NumbersBytes(Fields(e));
    var inner := Numbers(Fields(e));
    forall k | 0 <= k < |Encode(e)| - 1 ensures Encode(e)[k] != CLOSE {
      if k > 0 { assert Encode(e)[k] == inner[k - 1] && inner[k - 1] in inner; }
    }
  }

  // ---- lines of events among other lines ------------------------------------------------------------------

  lemma {:induction false} BlankIsNotOpen(line: Bytes)
    requires IsBlankLine(line)
    ensures OPEN !in line
    decreases line
  {
    if line != [] {
      var n := SpaceSize(line);
      BlankIsNotOpen(line[n..]);
      assert line == line[..n] + line[n..];
      forall k | 0 <= k < n ensures line[k] != OPEN { SpaceIsNotOpen(line, k); }
    }
  }

  lemma SpaceIsNotOpen(line: Bytes, k: nat)
    requires k < SpaceSize(line)
    ensures line[k] != OPEN
  {
    if SpaceSize(line) == 2 {
      assert line[..2][k] == line[k];
    } else if SpaceSize(line) == 3 {
      assert line[..3][k] == line[k];
      assert k < 2 ==> line[..2][k] == line[k];
    }
  }

  /** The first brace tells where white space ends. */
  lemma FirstOpen(a: Bytes, x: Bytes, b: Bytes, y: Bytes)
    requires OPEN !in a && OPEN !in b && x != [] && y != [] && x[0] == OPEN && y[0] == OPEN && a + x == b + y
    ensures a == b && x == y
  {
    IndexOfIs(a + x, OPEN, 0, |a|);
    IndexOfIs(b + y, OPEN, 0, |b|);
    assert a == (a + x)[..|a|] && b == (b + y)[..|b|];
    assert x == (a + x)[|a|..] && y == (b + y)[|b|..];
  }

  lemma NotOpen(space: Bytes)
    requires IsJsonSpace(space) || IsBlankLine(space)
    ensures OPEN !in space
  {
    if IsJsonSpace(space) { JsonSpaceIsBlank(space); }
    BlankIsNotOpen(space);
  }

  lemma NotBlank(line: Bytes, more: Bytes)
    requires OPEN in more
    ensures !IsBlankLine(line + more)
  {
    if IsBlankLine(line + more) { BlankIsNotOpen(line + more); }
  }

  lemma AfterSpace(space: Bytes, e: RunEvent)
    requires OPEN !in space
    ensures Decode(space + Encode(e)) == if IsJsonSpace(space) && Safe(e) then Event(e) else Bad
  {
    hide Encode, IsJsonSpace, IsBlankLine;
    var line := space + Encode(e);
    assert Encode(e)[0] == OPEN;
    NotBlank(space, Encode(e));
    forall space', e' | Says(line, space', e') ensures space' == space && e' == e {
      NotOpen(space');
      FirstOpen(space, Encode(e), space', Encode(e'));
      EncodeDiffers(e, e');
    }
    if IsJsonSpace(space) && Safe(e) { assert Says(line, space, e); }
  }

  lemma AfterEvent(line: Bytes, e: RunEvent)
    requires Decode(line).Event?
    ensures Decode(line + Encode(e)) == Bad
  {
    hide Encode, IsJsonSpace, IsBlankLine;
    var space, first :| Says(line, space, first);
    NotOpen(space);
    NotBlank(line, Encode(e));
    forall space', e' ensures !Says(line + Encode(e), space', e') {
      if Says(line + Encode(e), space', e') {
        NotOpen(space');
        Associate(space, Encode(first), Encode(e));
        FirstOpen(space, Encode(first) + Encode(e), space', Encode(e'));
        assert (Encode(first) + Encode(e))[|Encode(first)| - 1] == CLOSE;
        EncodeBytes(e');
      }
    }
  }

  /** A codec that the logs can rely on. */
  ghost function SampleCodec(): Codec { Codec(Decode, Encode) }

  lemma SomeCodecIsFaithful()
    ensures Faithful(SampleCodec())
  {
    hide Decode, Encode, IsJsonSpace, IsBlankLine;
    var c := SampleCodec();
    forall line: Bytes ensures c.decode(line).Blank? <==> IsBlankLine(line) { DecodeBlank(line); }
    forall e ensures NL !in c.encode(e) { EncodeBytes(e); }
    forall line: Bytes, e | IsJsonSpace(line)
      ensures c.decode(line + c.encode(e)) == if Safe(e) then Event(e) else Bad
    {
      NotOpen(line);
      AfterSpace(line, e);
    }
    forall line: Bytes, e | IsBlankLine(line) && !IsJsonSpace(line) ensures c.decode(line + c.encode(e)) == Bad {
      NotOpen(line);
      AfterSpace(line, e);
    }
    forall line: Bytes, e | c.decode(line).Event? ensures c.decode(line + c.encode(e)) == Bad { AfterEvent(line, e); }
  }

  lemma DecodeBlank(line: Bytes)
    ensures Decode(line).Blank? <==> IsBlankLine(line)
  {
  }
}
