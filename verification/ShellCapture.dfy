/** The bounded capture of a command's output (apps/cli/src/shell-capture.ts). */
module ShellCapture {

  /** `Buffer.concat`. */
  function Concat<T>(chunks: seq<seq<T>>): seq<T> {
    if chunks == [] then [] else chunks[0] + Concat(chunks[1..])
  }

  /** The last `max` elements, or all of them. */
  function Last<T>(s: seq<T>, max: nat): (r: seq<T>)
    ensures |r| == if |s| <= max then |s| else max
  {
    if |s| <= max then s else s[|s| - max..]
  }

  lemma {:induction false} ConcatAdd<T>(chunks: seq<seq<T>>, chunk: seq<T>)
    ensures Concat(chunks + [chunk]) == Concat(chunks) + chunk
    decreases chunks
  {
    if chunks == [] {
      assert chunks + [chunk] == [chunk] && [chunk][1..] == [];
      assert Concat([chunk]) == chunk + Concat([]);
    } else {
      ConcatAdd(chunks[1..], chunk);
      assert (chunks + [chunk])[1..] == chunks[1..] + [chunk];
    }
  }

  /** What was kept of the past is enough to know the future: older elements never come back. */
  lemma LastOfMore<T>(past: seq<T>, more: seq<T>, max: nat)
    ensures Last(Last(past, max) + more, max) == Last(past + more, max)
  {
    var kept := Last(past, max);
    if |past| > max {
      assert past == past[..|past| - max] + kept;
      assert past + more == past[..|past| - max] + (kept + more);
      LastOfSuffix(past[..|past| - max], kept + more, max);
    }
  }

  lemma LastOfSuffix<T>(dropped: seq<T>, rest: seq<T>, max: nat)
    requires |rest| >= max
    ensures Last(dropped + rest, max) == Last(rest, max)
  {
  }

  /** Taking `n` elements off the front. */
  lemma TrimFirst<T>(first: seq<T>, rest: seq<seq<T>>, n: nat)
    requires n <= |first|
    ensures Concat([first[n..]] + rest) == Concat([first] + rest)[n..]
  {
    assert ([first[n..]] + rest)[1..] == rest && ([first] + rest)[1..] == rest;
  }

  /** One capture: what the `collect` callback of a run shares. */
  class Capture<T(0)> {
    const maxBytes: nat
    /** Keep the tail when there is too much; otherwise too much is a failure. */
    const tail: bool
    var chunks: seq<seq<T>>
    var outputBytes: int
    var settled: bool
    /** Everything received until the capture settled. */
    ghost var stream: seq<T>

    ghost predicate Valid()
      reads this
    {
      && outputBytes == |Concat(chunks)|
      && (tail ==> !settled && Concat(chunks) == Last(stream, maxBytes))
      && (!tail ==> Concat(chunks) == stream && (settled <==> |stream| > maxBytes))
    }

    constructor (maxBytes: nat, tail: bool)
      ensures Valid() && this.maxBytes == maxBytes && this.tail == tail && stream == []
    {
      this.maxBytes, this.tail := maxBytes, tail;
      chunks, outputBytes, settled, stream := [], 0, false, [];
    }

    /** A chunk of output arrives. */
    method Collect(chunk: seq<T>)
      requires Valid()
      modifies this
      ensures Valid()
      ensures stream == if old(settled) then old(stream) else old(stream) + chunk
    {
      if settled { return; }
      hide Last;
      ConcatAdd(chunks, chunk);
      LastOfMore(stream, chunk, maxBytes);
      stream := stream + chunk;
      outputBytes := outputBytes + |chunk|;
      chunks := chunks + [chunk];
      ghost var all := Concat(chunks);
      LastIs(all, maxBytes);
      if outputBytes <= maxBytes { return; }
      if !tail {
        settled := true;
        return;
      }
      DropFront();
    }

    /** Drops whole chunks from the front, then trims the first one, to the last `maxBytes` bytes. */
    method DropFront()
      requires outputBytes == |Concat(chunks)| && outputBytes > maxBytes
      modifies this`chunks, this`outputBytes
      ensures Concat(chunks) == Last(old(Concat(chunks)), maxBytes) && outputBytes == |Concat(chunks)|
    {
      ghost var all := Concat(chunks);
      while |chunks| > 1 && outputBytes - |chunks[0]| >= maxBytes
        invariant outputBytes == |Concat(chunks)| && maxBytes <= outputBytes <= |all|
        invariant Concat(chunks) == all[|all| - outputBytes..]
        decreases |chunks|
      {
        assert Concat(chunks) == chunks[0] + Concat(chunks[1..]);
        assert all[|all| - outputBytes..][|chunks[0]|..] == all[|all| - (outputBytes - |chunks[0]|)..];
        outputBytes := outputBytes - |chunks[0]|;
        chunks := chunks[1..];
      }
      if |chunks| > 0 && outputBytes > maxBytes {
        var first := chunks[0];
        FirstHolds(chunks, outputBytes - maxBytes);
        TrimFirst(first, chunks[1..], outputBytes - maxBytes);
        assert chunks == [first] + chunks[1..];
        assert all[|all| - outputBytes..][outputBytes - maxBytes..] == all[|all| - maxBytes..];
        chunks := chunks[0 := first[outputBytes - maxBytes..]];
        assert chunks == [first[outputBytes - maxBytes..]] + chunks[1..];
        outputBytes := maxBytes;
      }
    }

    /**
     * What the capture reports: the last bytes of the whole stream, however it was cut; or a stream that was
     * too long.
     */
    method Output() returns (r: seq<T>)
      requires Valid()
      ensures tail ==> r == Last(stream, maxBytes)
      ensures !tail ==> r == stream && (settled <==> |r| > maxBytes)
    {
      r := Concat(chunks);
    }
  }

  lemma LastIs<T>(s: seq<T>, max: nat)
    ensures |s| <= max ==> Last(s, max) == s
  {
  }

  /** When dropping the first chunk would drop too much, the excess lies inside it. */
  lemma FirstHolds<T>(chunks: seq<seq<T>>, n: nat)
    requires chunks != [] && n <= |Concat(chunks)|
    requires |chunks| > 1 ==> |Concat(chunks)| - |chunks[0]| < |Concat(chunks)| - n
    ensures n <= |chunks[0]|
  {
    if |chunks| == 1 { assert chunks[1..] == []; }
  }

  /** A whole stream in any number of chunks: the tail depends on the stream only. */
  method CaptureTail<T(0)>(pieces: seq<seq<T>>, maxBytes: nat) returns (r: seq<T>)
    ensures r == Last(Concat(pieces), maxBytes)
  {
    hide Last;
    var capture := new Capture<T>(maxBytes, true);
    assert pieces[..0] == [];
    for i := 0 to |pieces|
      invariant capture.Valid() && capture.tail && capture.maxBytes == maxBytes
      invariant capture.stream == Concat(pieces[..i])
      modifies capture
    {
      ConcatAdd(pieces[..i], pieces[i]);
      assert pieces[..i + 1] == pieces[..i] + [pieces[i]];
      capture.Collect(pieces[i]);
    }
    assert pieces[..|pieces|] == pieces;
    r := capture.Output();
  }
}
