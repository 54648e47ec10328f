/**
 * Run event logs: validation, paging, repair and appending, on the bytes of the file
 * (apps/server/src/run-ledger.ts).
 */
module EventLog {
  import opened Basics
  import opened Lines
  import opened LineVisitor
  import opened Decimals
  import opened Text

  const RUN_EVENT_MAX_LINE_BYTES: nat := 1_000_000
  const RUN_EVENT_REPLAY_LIMIT: nat := 500

  /** An event; `frame` stands for its time stamp and its frame. */
  datatype RunEvent = RunEvent(runId: string, seqNo: int, frame: string)

  /** What a line can be: white space, something that is not an event record, or an event record. */
  datatype Decoded = Blank | Bad | Event(event: RunEvent)

  /** How events are written as lines, and lines read as events. */
  datatype Codec = Codec(decode: Bytes -> Decoded, encode: RunEvent -> Bytes)

  /** How many bytes a character takes that `trim` removes, at the start of a text in UTF-8; 0 for any other. */
  function SpaceSize(b: Bytes): (n: nat)
    ensures n <= |b|
  {
    if b != [] && (9 <= b[0] <= 13 || b[0] == 32) then 1
    else if |b| > 1 && b[..2] == [0xC2, 0xA0] then 2
    else if |b| > 2 && b[..2] == [0xE2, 0x80] &&
      (0x80 <= b[2] <= 0x8A || b[2] == 0xA8 || b[2] == 0xA9 || b[2] == 0xAF) then 3
    else if |b| > 2 && b[..3] in {[0xE1, 0x9A, 0x80], [0xE2, 0x81, 0x9F], [0xE3, 0x80, 0x80], [0xEF, 0xBB, 0xBF]} then 3
    else 0
  }

  /** The bytes of a character in UTF-8. */
  function Utf8(c: char): (b: Bytes)
    ensures b != []
  {
    var n := c as int;
    if n < 0x80 then [n as byte]
    else if n < 0x800 then [(0xC0 + n / 64) as byte, (0x80 + n % 64) as byte]
    else if n < 0x1_0000 then [(0xE0 + n / 4096) as byte, (0x80 + n / 64 % 64) as byte, (0x80 + n % 64) as byte]
    else
      [(0xF0 + n / 262144) as byte, (0x80 + n / 4096 % 64) as byte, (0x80 + n / 64 % 64) as byte,
       (0x80 + n % 64) as byte]
  }

  /** The characters found at the start of a text are exactly those `trim` removes, by their bytes. */
  lemma SpaceSizeIs(c: char, rest: Bytes)
    ensures SpaceSize(Utf8(c) + rest) == if IsSpace(c) then |Utf8(c)| else 0
  {
    var b, n := Utf8(c) + rest, c as int;
    assert b[0] == Utf8(c)[0];
    if 0x80 <= n < 0x800 {
      assert b[..2] == Utf8(c);
      LeadsTwo(b);
    } else if 0x800 <= n < 0x1_0000 {
      assert b[1] == Utf8(c)[1] && b[2] == Utf8(c)[2];
      LeadsThree(b);
      ThreeBytes(n);
    } else if 0x1_0000 <= n {
      assert b[..2] == Utf8(c)[..2];
    }
  }

  lemma LeadsTwo(b: Bytes)
    requires |b| > 1 && 0xC0 <= b[0] < 0xE0
    ensures SpaceSize(b) == if b[0] == 0xC2 && b[1] == 0xA0 then 2 else 0
  {
    assert b[..2] == [b[0], b[1]];
    assert |b| > 2 ==> b[..3] == [b[0], b[1], b[2]];
  }

  lemma LeadsThree(b: Bytes)
    requires |b| > 2 && 0xE0 <= b[0] < 0xF0
    ensures SpaceSize(b) ==
      if (b[0] == 0xE2 && b[1] == 0x80 && (0x80 <= b[2] <= 0x8A || b[2] == 0xA8 || b[2] == 0xA9 || b[2] == 0xAF))
        || (b[0] == 0xE1 && b[1] == 0x9A && b[2] == 0x80) || (b[0] == 0xE2 && b[1] == 0x81 && b[2] == 0x9F)
        || (b[0] == 0xE3 && b[1] == 0x80 && b[2] == 0x80) || (b[0] == 0xEF && b[1] == 0xBB && b[2] == 0xBF) then 3
      else 0
  {
    assert b[..2] == [b[0], b[1]] && b[..3] == [b[0], b[1], b[2]];
  }

  /** The three bytes of a character determine it. */
  lemma ThreeBytes(n: int)
    requires 0x800 <= n < 0x1_0000
    ensures n == n / 4096 * 4096 + n / 64 % 64 * 64 + n % 64
  {
  }

  /** `line.trim() === ""`. */
  predicate IsBlankLine(line: Bytes) {
    line == [] || (SpaceSize(line) > 0 && IsBlankLine(line[SpaceSize(line)..]))
  }

  /** White space that JSON allows around a value: less than `trim` removes. */
  predicate IsJsonSpace(line: Bytes) {
    forall x <- line :: x == 9 || x == 13 || x == 32
  }

  lemma {:induction false} JsonSpaceIsBlank(line: Bytes)
    requires IsJsonSpace(line)
    ensures IsBlankLine(line)
    decreases line
  {
    if line != [] {
      assert line[0] in line;
      assert forall x <- line[1..] :: x in line;
      JsonSpaceIsBlank(line[1..]);
    }
  }

  /** Events whose number `Number.isSafeInteger` accepts. */
  predicate Safe(e: RunEvent) { -MAX_SAFE_INTEGER <= e.seqNo <= MAX_SAFE_INTEGER }

  /**
   * What the code relies on. A line is blank when `trim` leaves nothing of it. An event is written on one line; that
   * line, after JSON white space too, reads back as the event if its number is safe, and as no event otherwise. After
   * other white space, or after another event, it does not parse.
   */
  ghost predicate Faithful(c: Codec) {
    && (forall line: Bytes :: c.decode(line).Blank? <==> IsBlankLine(line))
    && (forall e :: NL !in c.encode(e))
    && (forall line: Bytes, e :: IsJsonSpace(line) ==>
         c.decode(line + c.encode(e)) == if Safe(e) then Event(e) else Bad)
    && (forall line: Bytes, e :: IsBlankLine(line) && !IsJsonSpace(line) ==> c.decode(line + c.encode(e)) == Bad)
    && (forall line: Bytes, e :: c.decode(line).Event? ==> c.decode(line + c.encode(e)) == Bad)
  }

  /** An event that may follow the sequence number `last` in the log of run `id`. */
  predicate Follows(id: string, e: RunEvent, last: int) {
    e.runId == id && e.seqNo > last && e.seqNo > 0
  }

  /** An accepted event, and the offset just past its line. */
  datatype Hit = Hit(event: RunEvent, next: nat)

  /** Where the line that starts at `at` ends, and where the next one starts. */
  function LineEnd(b: Bytes, at: nat): (i: nat)
    requires at < |b|
    ensures at <= i <= |b|
  {
    IndexOf(b, NL, at)
  }

  function NextLineStart(b: Bytes, at: nat): (n: nat)
    requires at < |b|
    ensures at < n <= |b|
  {
    var i := LineEnd(b, at);
    if i == |b| then i else i + 1
  }

  /** The longest valid prefix of the events from offset `at`, after sequence number `last`. */
  function ValidFrom(c: Codec, id: string, b: Bytes, at: nat, last: int): seq<Hit>
    decreases |b| - at
  {
    if at >= |b| || LineEnd(b, at) - at > RUN_EVENT_MAX_LINE_BYTES then []
    else
      var next := NextLineStart(b, at);
      match c.decode(b[at..LineEnd(b, at)])
      case Blank => ValidFrom(c, id, b, next, last)
      case Bad => []
      case Event(e) => if Follows(id, e, last) then [Hit(e, next)] + ValidFrom(c, id, b, next, e.seqNo) else []
  }

  lemma ValidStep(c: Codec, id: string, b: Bytes, at: nat, last: int)
    ensures
      ValidFrom(c, id, b, at, last) ==
      if at >= |b| || LineEnd(b, at) - at > RUN_EVENT_MAX_LINE_BYTES then []
      else
        var next := NextLineStart(b, at);
        var line := c.decode(b[at..LineEnd(b, at)]);
        if line.Blank? then ValidFrom(c, id, b, next, last)
        else if line.Event? && Follows(id, line.event, last) then
          [Hit(line.event, next)] + ValidFrom(c, id, b, next, line.event.seqNo)
        else []
  {
  }

  function Events(hits: seq<Hit>): seq<RunEvent> {
    seq(|hits|, i requires 0 <= i < |hits| => hits[i].event)
  }

  /** The last sequence number of a run of hits that followed `last`. */
  function LastOf(hits: seq<Hit>, last: int): int {
    if hits == [] then last else hits[|hits| - 1].event.seqNo
  }

  /** The hits of a file: none when it does not exist. */
  function Hits(c: Codec, id: string, file: Content): seq<Hit> {
    if file.Absent? then [] else ValidFrom(c, id, file.bytes, 0, 0)
  }

  /** Hits in increasing order of sequence number and of offset, all past `at` and `last`. */
  ghost predicate Increasing(id: string, hits: seq<Hit>, at: nat, last: int, size: nat) {
    && (forall i :: 0 <= i < |hits| ==> Follows(id, hits[i].event, last) && at < hits[i].next <= size)
    && (forall i, j :: 0 <= i < j < |hits| ==>
         hits[i].event.seqNo < hits[j].event.seqNo && hits[i].next < hits[j].next)
  }

  lemma IncreasingStep(id: string, h: Hit, rest: seq<Hit>, at: nat, last: int, size: nat)
    requires Follows(id, h.event, last) && at < h.next <= size
    requires Increasing(id, rest, h.next, h.event.seqNo, size)
    ensures Increasing(id, [h] + rest, at, last, size)
  {
    var hits := [h] + rest;
    forall i | 0 <= i < |hits| ensures Follows(id, hits[i].event, last) && at < hits[i].next <= size {
      if i > 0 { assert hits[i] == rest[i - 1]; }
    }
  }

  lemma {:induction false} SeqsIncrease(c: Codec, id: string, b: Bytes, at: nat, last: int)
    ensures Increasing(id, ValidFrom(c, id, b, at, last), at, last, |b|)
    decreases |b| - at
  {
    hide IndexOf;
    if at < |b| && LineEnd(b, at) - at <= RUN_EVENT_MAX_LINE_BYTES {
      var next := NextLineStart(b, at);
      var line := c.decode(b[at..LineEnd(b, at)]);
      if line.Blank? {
        SeqsIncrease(c, id, b, next, last);
      } else if line.Event? && Follows(id, line.event, last) {
        var rest := ValidFrom(c, id, b, next, line.event.seqNo);
        SeqsIncrease(c, id, b, next, line.event.seqNo);
        IncreasingStep(id, Hit(line.event, next), rest, at, last, |b|);
      }
    }
  }

  /** Reading may resume just past any event, knowing its sequence number: what follows is what follows it. */
  lemma {:induction false} ResumeAfter(c: Codec, id: string, b: Bytes, at: nat, last: int, k: nat)
    requires k < |ValidFrom(c, id, b, at, last)|
    ensures
      var hits := ValidFrom(c, id, b, at, last);
      ValidFrom(c, id, b, hits[k].next, hits[k].event.seqNo) == hits[k + 1..]
    decreases |b| - at
  {
    var hits := ValidFrom(c, id, b, at, last);
    var next := NextLineStart(b, at);
    var line := c.decode(b[at..LineEnd(b, at)]);
    if line.Blank? {
      ResumeAfter(c, id, b, next, last, k);
    } else {
      var rest := ValidFrom(c, id, b, next, line.event.seqNo);
      assert hits == [Hit(line.event, next)] + rest;
      if k > 0 {
        ResumeAfter(c, id, b, next, line.event.seqNo, k - 1);
        assert hits[k] == rest[k - 1];
        assert hits[k + 1..] == rest[k..];
      }
    }
  }

  // ---- pages ----------------------------------------------------------------------------------------------

  datatype Page = Page(events: seq<RunEvent>, nextAfterSeq: int, hasMore: bool)

  /** How many hits there are, from the start, up to sequence number `after`. */
  function Skipped(hits: seq<Hit>, after: int): (k: nat)
    ensures k <= |hits|
    ensures forall i :: 0 <= i < k ==> hits[i].event.seqNo <= after
    ensures k < |hits| ==> hits[k].event.seqNo > after
  {
    if hits == [] || hits[0].event.seqNo > after then 0
    else
      var k := Skipped(hits[1..], after);
      assert forall i :: 0 < i < k + 1 ==> hits[i] == hits[1..][i - 1];
      k + 1
  }

  /** The hits with a sequence number above `after`: a suffix, as numbers increase. */
  function Later(hits: seq<Hit>, after: int): seq<Hit> {
    hits[Skipped(hits, after)..]
  }

  /** The page of at most `limit` events after `after`. */
  function PageOf(hits: seq<Hit>, after: int, limit: nat): Page {
    var later := Later(hits, after);
    var n := Min(limit, |later|);
    Page(Events(later[..n]), if n == 0 then after else later[n - 1].event.seqNo, |later| > limit)
  }

  /** The offset just past the last event of that page. */
  function OffsetAfter(hits: seq<Hit>, after: int, limit: nat, start: nat): nat {
    var later := Later(hits, after);
    var n := Min(limit, |later|);
    if n == 0 then start else later[n - 1].next
  }

  datatype PageState = PageState(lastSeq: int, events: seq<RunEvent>, hasMore: bool, nextOffset: nat)

  /** What the reader does with one line. */
  function ReadLine(c: Codec, id: string, after: int, limit: nat, st: PageState, p: Piece<byte>): (PageState, bool) {
    match c.decode(p.line)
    case Blank => (st, true)
    case Bad => (st, false)
    case Event(e) =>
      if !Follows(id, e, st.lastSeq) then (st, false)
      else
        var seen := st.(lastSeq := e.seqNo);
        if e.seqNo <= after then (seen, true)
        else if |st.events| == limit then (seen.(hasMore := true), false)
        else (seen.(events := st.events + [e], nextOffset := p.next), true)
  }

  function PageVisitor(c: Codec, id: string, after: int, limit: nat): (PageState, Piece<byte>) -> (PageState, bool) {
    (st, p) => ReadLine(c, id, after, limit, st, p)
  }

  predicate RunIdOk(id: string) {
    && |id| > 4 && id[..4] == "run-"
    && forall c <- id[4..] :: 'A' <= c <= 'Z' || 'a' <= c <= 'z' || '0' <= c <= '9' || c == '-'
  }

  /** `/^run-[A-Za-z0-9-]+$/`, by code point. */
  lemma RunIdsAre(s: string)
    ensures RunIdOk("run-" + s) <==>
      s != "" && forall c <- s ::
        65 <= c as int <= 90 || 97 <= c as int <= 122 || 48 <= c as int <= 57 || c as int == 45
  {
    assert ("run-" + s)[..4] == "run-" && ("run-" + s)[4..] == s;
  }

  predicate IsBase36(s: string) {
    forall c <- s :: 'a' <= c <= 'z' || '0' <= c <= '9'
  }

  /** The ids `runId` makes, from a time in base 36 and random bytes in hexadecimal, name logs. */
  lemma MadeIdsAreOk(time: string, random: string)
    requires IsBase36(time) && IsBase36(random)
    ensures RunIdOk("run-" + time + "-" + random)
  {
    var id := "run-" + time + "-" + random;
    assert id[..4] == "run-" && id[4..] == time + "-" + random;
  }

  /** No id that names a log leads out of the directory of logs. */
  lemma OkIdsAreNames(id: string)
    requires '/' in id || '\\' in id || '.' in id || !("run-" <= id) || id == "run-"
    ensures !RunIdOk(id)
  {
    assert |id| > 4 && id[..4] == "run-" ==> id == "run-" + id[4..];
  }

  /** One page of a log, read from `startOffset`. */
  method ReadRunEventPageAt(
    c: Codec, file: Content, id: string, afterSeq: int, limit: int, startOffset: nat, shortReads: nat -> nat)
    returns (page: Page, nextOffset: nat)
    ensures !RunIdOk(id) || afterSeq < 0 || limit <= 0 ==>
      page == Page([], afterSeq, false) && nextOffset == startOffset
    ensures RunIdOk(id) && afterSeq >= 0 && limit > 0 ==>
      var hits := if file.Absent? then []
        else ValidFrom(c, id, file.bytes, startOffset, if startOffset > 0 then afterSeq else 0);
      page == PageOf(hits, afterSeq, limit) && nextOffset == OffsetAfter(hits, afterSeq, limit, startOffset)
  {
    if !RunIdOk(id) || afterSeq < 0 || limit <= 0 {
      return Page([], afterSeq, false), startOffset;
    }
    hide *;
    var start := PageState(if startOffset > 0 then afterSeq else 0, [], false, startOffset);
    var r := VisitProjectFileLines(
      file, RUN_EVENT_MAX_LINE_BYTES, start, PageVisitor(c, id, afterSeq, limit), startOffset, shortReads);
    var st := r.state;
    ghost var hits := if file.Absent? then []
      else ValidFrom(c, id, file.bytes, startOffset, if startOffset > 0 then afterSeq else 0);
    EndsAtOnce(start, afterSeq, limit);
    if file.Present? {
      RestIsFold(file.bytes, startOffset, RUN_EVENT_MAX_LINE_BYTES, start, PageVisitor(c, id, afterSeq, limit));
      ReadFrom(c, id, afterSeq, limit, file.bytes, startOffset, start);
    }
    PageFrom(hits, afterSeq, limit, startOffset, start.lastSeq, st);
    page := Page(
      st.events, if st.events == [] then afterSeq else st.events[|st.events| - 1].seqNo, st.hasMore);
    nextOffset := st.nextOffset;
  }

  /** The page made of the state in which reading ended. */
  lemma PageFrom(hits: seq<Hit>, after: int, limit: nat, start: nat, last: int, st: PageState)
    requires EndsIn(PageState(last, [], false, start), hits, after, limit, st)
    ensures
      PageOf(hits, after, limit) ==
      Page(st.events, if st.events == [] then after else st.events[|st.events| - 1].seqNo, st.hasMore)
    ensures OffsetAfter(hits, after, limit, start) == st.nextOffset
  {
    hide Later;
    var later := Later(hits, after);
    var n := Min(limit, |later|);
    assert st.events == Events(later[..n]);
    if n > 0 { assert later[..n][n - 1] == later[n - 1]; }
  }

  /** From state `st`, reading `hits` ends in `end`: the hits after `after` are added until the page is full. */
  ghost predicate EndsIn(st: PageState, hits: seq<Hit>, after: int, limit: nat, end: PageState)
    requires |st.events| <= limit
  {
    var later := Later(hits, after);
    var n := Min(limit - |st.events|, |later|);
    && end.events == st.events + Events(later[..n])
    && end.hasMore == (|later| > limit - |st.events|)
    && end.nextOffset == (if n == 0 then st.nextOffset else later[n - 1].next)
  }

  lemma EndsAtOnce(st: PageState, after: int, limit: nat)
    requires |st.events| <= limit && !st.hasMore
    ensures EndsIn(st, [], after, limit, st)
  {
    assert st.events + Events([]) == st.events;
  }

  /** An event up to `after` is only noted. */
  lemma EndsSkipping(st: PageState, h: Hit, rest: seq<Hit>, after: int, limit: nat, end: PageState)
    requires |st.events| <= limit && h.event.seqNo <= after
    requires EndsIn(st.(lastSeq := h.event.seqNo), rest, after, limit, end)
    ensures EndsIn(st, [h] + rest, after, limit, end)
  {
    assert ([h] + rest)[1..] == rest;
    assert Later([h] + rest, after) == Later(rest, after);
  }

  lemma LaterAll(hits: seq<Hit>, after: int)
    requires hits != [] ==> hits[0].event.seqNo > after
    ensures Later(hits, after) == hits
  {
  }

  /** A later event is added when the page has room. */
  lemma EndsAdding(st: PageState, h: Hit, rest: seq<Hit>, after: int, limit: nat, end: PageState)
    requires |st.events| < limit && h.event.seqNo > after
    requires rest != [] ==> rest[0].event.seqNo > after
    requires EndsIn(
      st.(lastSeq := h.event.seqNo, events := st.events + [h.event], nextOffset := h.next), rest, after, limit, end)
    ensures EndsIn(st, [h] + rest, after, limit, end)
  {
    hide Later, Events;
    LaterAll(rest, after);
    LaterAll([h] + rest, after);
    var n := Min(limit - |st.events| - 1, |rest|);
    FirstEvents(h, rest, n);
    KeptAssociate(st.events, h.event, Events(rest[..n]));
  }

  lemma FirstEvents(h: Hit, rest: seq<Hit>, n: nat)
    requires n <= |rest|
    ensures Events(([h] + rest)[..n + 1]) == [h.event] + Events(rest[..n])
    ensures ([h] + rest)[n] == if n == 0 then h else rest[n - 1]
  {
  }

  /** A later event that finds the page full ends the reading. */
  lemma EndsFull(st: PageState, h: Hit, rest: seq<Hit>, after: int, limit: nat)
    requires |st.events| == limit && h.event.seqNo > after
    ensures EndsIn(st, [h] + rest, after, limit, st.(lastSeq := h.event.seqNo, hasMore := true))
  {
    LaterAll([h] + rest, after);
    assert st.events + Events(([h] + rest)[..0]) == st.events;
  }

  lemma {:induction false} ReadFrom(c: Codec, id: string, after: int, limit: nat, b: Bytes, at: nat, st: PageState)
    requires |st.events| <= limit && !st.hasMore
    ensures EndsIn(st, ValidFrom(c, id, b, at, st.lastSeq), after, limit,
      Rest(b, at, RUN_EVENT_MAX_LINE_BYTES, st, PageVisitor(c, id, after, limit)))
    decreases |b| - at, 0
  {
    hide Rest, IndexOf, ValidFrom, EndsIn;
    ValidStep(c, id, b, at, st.lastSeq);
    EndsAtOnce(st, after, limit);
    if at >= |b| {
      RestEnd(b, at, RUN_EVENT_MAX_LINE_BYTES, st, PageVisitor(c, id, after, limit));
    } else {
      RestStep(b, at, RUN_EVENT_MAX_LINE_BYTES, st, PageVisitor(c, id, after, limit));
      var next := NextLineStart(b, at);
      var line := c.decode(b[at..LineEnd(b, at)]);
      if LineEnd(b, at) - at > RUN_EVENT_MAX_LINE_BYTES {
      } else if line.Blank? {
        ReadFrom(c, id, after, limit, b, next, st);
      } else if line.Event? && Follows(id, line.event, st.lastSeq) {
        ReadEvent(c, id, after, limit, b, next, st, line.event);
      }
    }
  }

  lemma {:induction false} ReadEvent(
    c: Codec, id: string, after: int, limit: nat, b: Bytes, next: nat, st: PageState, e: RunEvent)
    requires |st.events| <= limit && !st.hasMore && Follows(id, e, st.lastSeq) && next <= |b|
    ensures
      var seen := st.(lastSeq := e.seqNo);
      var visitor := PageVisitor(c, id, after, limit);
      EndsIn(st, [Hit(e, next)] + ValidFrom(c, id, b, next, e.seqNo), after, limit,
        if e.seqNo <= after then Rest(b, next, RUN_EVENT_MAX_LINE_BYTES, seen, visitor)
        else if |st.events| == limit then seen.(hasMore := true)
        else Rest(b, next, RUN_EVENT_MAX_LINE_BYTES, seen.(events := st.events + [e], nextOffset := next), visitor))
    decreases |b| - next, 1
  {
    hide Rest, IndexOf, ValidFrom, EndsIn, Follows;
    var rest := ValidFrom(c, id, b, next, e.seqNo);
    var seen, visitor := st.(lastSeq := e.seqNo), PageVisitor(c, id, after, limit);
    FirstIsLater(c, id, b, next, e.seqNo);
    if e.seqNo <= after {
      ReadFrom(c, id, after, limit, b, next, seen);
      EndsSkipping(st, Hit(e, next), rest, after, limit, Rest(b, next, RUN_EVENT_MAX_LINE_BYTES, seen, visitor));
    } else if |st.events| < limit {
      var more := seen.(events := st.events + [e], nextOffset := next);
      ReadFrom(c, id, after, limit, b, next, more);
      EndsAdding(st, Hit(e, next), rest, after, limit, Rest(b, next, RUN_EVENT_MAX_LINE_BYTES, more, visitor));
    } else {
      EndsFull(st, Hit(e, next), rest, after, limit);
    }
  }

  lemma FirstIsLater(c: Codec, id: string, b: Bytes, at: nat, last: int)
    ensures
      var hits := ValidFrom(c, id, b, at, last);
      hits != [] ==> hits[0].event.seqNo > last
  {
    SeqsIncrease(c, id, b, at, last);
  }

  // ---- cursors --------------------------------------------------------------------------------------------

  /** What a reader that starts at `offset` finds, having been told the last sequence number before it. */
  function HitsAt(c: Codec, id: string, file: Content, after: int, offset: nat): seq<Hit> {
    if file.Absent? then [] else ValidFrom(c, id, file.bytes, offset, if offset > 0 then after else 0)
  }

  /** `offset` is the start of the file, or lies just past the event numbered `after`. */
  ghost predicate CursorAt(c: Codec, id: string, file: Content, after: int, offset: nat) {
    offset == 0 ||
    exists k :: 0 <= k < |Hits(c, id, file)| &&
      Hits(c, id, file)[k].next == offset && Hits(c, id, file)[k].event.seqNo == after
  }

  lemma {:induction false} SkippedIs(hits: seq<Hit>, after: int, k: nat)
    requires k <= |hits| && (forall i :: 0 <= i < k ==> hits[i].event.seqNo <= after)
    requires k < |hits| ==> hits[k].event.seqNo > after
    ensures Skipped(hits, after) == k
    decreases k
  {
    if k > 0 {
      assert forall i :: 0 <= i < k - 1 ==> hits[1..][i] == hits[i + 1];
      SkippedIs(hits[1..], after, k - 1);
    }
  }

  /** A reader that resumes at a cursor sees the same later events as one that starts from byte 0. */
  lemma CursorSeesTheRest(c: Codec, id: string, file: Content, after: int, offset: nat)
    requires CursorAt(c, id, file, after, offset)
    ensures Later(HitsAt(c, id, file, after, offset), after) == Later(Hits(c, id, file), after)
  {
    hide ValidFrom;
    if offset > 0 {
      var hits := Hits(c, id, file);
      var k :| 0 <= k < |hits| && hits[k].next == offset && hits[k].event.seqNo == after;
      SeqsIncrease(c, id, file.bytes, 0, 0);
      ResumeAfter(c, id, file.bytes, 0, 0, k);
      SkippedIs(hits, after, k + 1);
      LaterAll(hits[k + 1..], after);
    }
  }

  /** The page read at a cursor is the page read from byte 0, and leaves a cursor behind. */
  lemma CursorPage(c: Codec, id: string, file: Content, after: int, offset: nat, limit: nat)
    requires CursorAt(c, id, file, after, offset)
    ensures
      var hits := HitsAt(c, id, file, after, offset);
      var page := PageOf(hits, after, limit);
      && page == PageOf(Hits(c, id, file), after, limit)
      && CursorAt(c, id, file, page.nextAfterSeq, OffsetAfter(hits, after, limit, offset))
  {
    hide ValidFrom, Events, Later;
    CursorSeesTheRest(c, id, file, after, offset);
    var hits := Hits(c, id, file);
    var later := Later(hits, after);
    var n := Min(limit, |later|);
    if n > 0 {
      LaterIsSuffix(hits, after);
      assert hits[|hits| - |later| + n - 1] == later[n - 1];
    }
  }

  lemma LaterIsSuffix(hits: seq<Hit>, after: int)
    ensures |Later(hits, after)| <= |hits| && Later(hits, after) == hits[|hits| - |Later(hits, after)|..]
  {
  }

  // ---- replaying everything -------------------------------------------------------------------------------

  /** A client that asks for page after page until there is no more. */
  function Replay(hits: seq<Hit>, after: int, limit: nat): seq<RunEvent>
    requires limit > 0 && forall i, j :: 0 <= i < j < |hits| ==> hits[i].event.seqNo < hits[j].event.seqNo
    decreases |Later(hits, after)|
  {
    var page := PageOf(hits, after, limit);
    if !page.hasMore then page.events
    else
      NextPage(hits, after, limit);
      page.events + Replay(hits, page.nextAfterSeq, limit)
  }

  lemma NextPage(hits: seq<Hit>, after: int, limit: nat)
    requires limit > 0 && PageOf(hits, after, limit).hasMore
    requires forall i, j :: 0 <= i < j < |hits| ==> hits[i].event.seqNo < hits[j].event.seqNo
    ensures Later(hits, PageOf(hits, after, limit).nextAfterSeq) == Later(hits, after)[limit..]
  {
    hide Skipped;
    var k := Skipped(hits, after) + limit;
    var next := PageOf(hits, after, limit).nextAfterSeq;
    assert Later(hits, after)[limit - 1] == hits[k - 1];
    SkippedIs(hits, next, k);
  }

  /** Replaying from sequence number 0 yields every event of the longest valid prefix once, in order. */
  lemma ReplayIsComplete(c: Codec, id: string, file: Content, limit: nat)
    requires limit > 0
    ensures forall i, j :: 0 <= i < j < |Hits(c, id, file)| ==>
      Hits(c, id, file)[i].event.seqNo < Hits(c, id, file)[j].event.seqNo
    ensures Replay(Hits(c, id, file), 0, limit) == Events(Hits(c, id, file))
  {
    hide ValidFrom, Replay, Events;
    var hits := Hits(c, id, file);
    if file.Present? { SeqsIncrease(c, id, file.bytes, 0, 0); }
    ReplayLater(hits, 0, limit);
    LaterAll(hits, 0);
  }

  lemma {:induction false} ReplayLater(hits: seq<Hit>, after: int, limit: nat)
    requires limit > 0 && forall i, j :: 0 <= i < j < |hits| ==> hits[i].event.seqNo < hits[j].event.seqNo
    ensures Replay(hits, after, limit) == Events(Later(hits, after))
    decreases |Later(hits, after)|
  {
    hide Later;
    var later := Later(hits, after);
    if |later| > limit {
      NextPage(hits, after, limit);
      ReplayLater(hits, PageOf(hits, after, limit).nextAfterSeq, limit);
      assert Events(later) == Events(later[..limit]) + Events(later[limit..]);
    } else {
      assert later[..|later|] == later;
    }
  }

  // ---- appending ------------------------------------------------------------------------------------------

  /** Every line from `at` is blank or the next event, within the length limit and ended by a newline. */
  predicate Sound(c: Codec, id: string, b: Bytes, at: nat, last: int)
    decreases |b| - at
  {
    at >= |b| ||
    (LineEnd(b, at) < |b| && LineEnd(b, at) - at <= RUN_EVENT_MAX_LINE_BYTES &&
     match c.decode(b[at..LineEnd(b, at)])
     case Blank => Sound(c, id, b, NextLineStart(b, at), last)
     case Bad => false
     case Event(e) => Follows(id, e, last) && Sound(c, id, b, NextLineStart(b, at), e.seqNo))
  }

  lemma {:induction false} IndexOfInPrefix(b: Bytes, more: Bytes, at: nat)
    requires at <= |b| && IndexOf(b, NL, at) < |b|
    ensures IndexOf(b + more, NL, at) == IndexOf(b, NL, at)
    decreases |b| - at
  {
    if b[at] != NL {
      IndexOfInPrefix(b, more, at + 1);
    }
  }

  /** A line ended by a newline is the same line when more follows. */
  lemma LineInPrefix(b: Bytes, more: Bytes, at: nat)
    requires at < |b| && LineEnd(b, at) < |b|
    ensures LineEnd(b + more, at) == LineEnd(b, at) && NextLineStart(b + more, at) == NextLineStart(b, at)
    ensures (b + more)[at..LineEnd(b, at)] == b[at..LineEnd(b, at)]
  {
    IndexOfInPrefix(b, more, at);
  }

  /** A line added at the end is the last line. */
  lemma LineAtEnd(b: Bytes, line: Bytes)
    requires NL !in line
    ensures
      var b' := b + (line + [NL]);
      && LineEnd(b', |b|) == |b| + |line| && NextLineStart(b', |b|) == |b'|
      && b'[|b|..LineEnd(b', |b|)] == line
  {
    var b' := b + (line + [NL]);
    assert b'[|b|..|b| + |line|] == line;
    IndexOfIs(b', NL, |b|, |b| + |line|);
  }

  /** Appending the line of a next event to a sound log adds exactly that event. */
  lemma {:induction false} AppendLine(c: Codec, id: string, b: Bytes, at: nat, last: int, line: Bytes, e: RunEvent)
    requires Sound(c, id, b, at, last) && at <= |b|
    requires NL !in line && |line| <= RUN_EVENT_MAX_LINE_BYTES && c.decode(line) == Event(e)
    requires Follows(id, e, LastOf(ValidFrom(c, id, b, at, last), last))
    ensures
      var b' := b + (line + [NL]);
      && Sound(c, id, b', at, last)
      && ValidFrom(c, id, b', at, last) == ValidFrom(c, id, b, at, last) + [Hit(e, |b'|)]
    decreases |b| - at
  {
    hide Follows, IndexOf;
    var b' := b + (line + [NL]);
    ValidStep(c, id, b, at, last);
    ValidStep(c, id, b', at, last);
    if at == |b| {
      LineAtEnd(b, line);
      assert ValidFrom(c, id, b', |b'|, e.seqNo) == [];
      assert [Hit(e, |b'|)] + [] == [] + [Hit(e, |b'|)];
    } else {
      LineInPrefix(b, line + [NL], at);
      var next := NextLineStart(b, at);
      var first := c.decode(b[at..LineEnd(b, at)]);
      if first.Blank? {
        AppendLine(c, id, b, next, last, line, e);
      } else {
        var rest := ValidFrom(c, id, b, next, first.event.seqNo);
        LastOfStep(Hit(first.event, next), rest, last);
        AppendLine(c, id, b, next, first.event.seqNo, line, e);
        assert [Hit(first.event, next)] + (rest + [Hit(e, |b'|)]) == [Hit(first.event, next)] + rest + [Hit(e, |b'|)];
      }
    }
  }

  lemma LastOfStep(h: Hit, rest: seq<Hit>, last: int)
    ensures LastOf([h] + rest, last) == LastOf(rest, h.event.seqNo)
  {
  }

  // ---- repair ---------------------------------------------------------------------------------------------

  /** The lines repair keeps, and whether it met one it cannot keep. */
  datatype Kept = Kept(lines: seq<Bytes>, invalid: bool)

  /** Repair's view of the lines from `at`: it knows no length limit. */
  function KeptFrom(c: Codec, id: string, b: Bytes, at: nat, last: int): Kept
    decreases |b| - at
  {
    if at >= |b| then Kept([], false)
    else
      var line, next := b[at..LineEnd(b, at)], NextLineStart(b, at);
      match c.decode(line)
      case Blank => KeptFrom(c, id, b, next, last)
      case Bad => Kept([], true)
      case Event(e) =>
        if !Follows(id, e, last) then Kept([], true)
        else
          var rest := KeptFrom(c, id, b, next, e.seqNo);
          Kept([line] + rest.lines, rest.invalid)
  }

  /** The lines, each ended by a newline. */
  function Unlines(lines: seq<Bytes>): Bytes {
    if lines == [] then [] else Unlines(lines[..|lines| - 1]) + (lines[|lines| - 1] + [NL])
  }

  /** The bytes of a log after repair. */
  function Repaired(c: Codec, id: string, b: Bytes): Bytes {
    var kept := KeptFrom(c, id, b, 0, 0);
    if kept.invalid then Unlines(kept.lines) else b
  }

  /** Keeps the longest valid prefix of a log; rewrites the file only when something follows that prefix. */
  method RepairJsonLines(c: Codec, id: string, file: Content) returns (r: Content, rewritten: bool)
    ensures file.Absent? ==> r == file && !rewritten
    ensures file.Present? ==>
      r == Present(Repaired(c, id, file.bytes)) && rewritten == KeptFrom(c, id, file.bytes, 0, 0).invalid
  {
    hide IndexOf, Follows, Unlines;
    if file.Absent? { return file, false; }
    var raw := file.bytes;
    var kept: seq<Bytes> := [];
    var invalid, previousSeq, at := false, 0, 0;
    ghost var goal := KeptFrom(c, id, raw, 0, 0);
    assert [] + goal.lines == goal.lines;
    while at < |raw| && !invalid
      invariant at <= |raw|
      invariant !invalid ==> goal == Kept(
        kept + KeptFrom(c, id, raw, at, previousSeq).lines, KeptFrom(c, id, raw, at, previousSeq).invalid)
      invariant invalid ==> goal == Kept(kept, true)
      decreases |raw| - at, !invalid
    {
      var line := raw[at..LineEnd(raw, at)];
      var value := c.decode(line);
      if value.Blank? {
        at := NextLineStart(raw, at);
      } else if value.Event? && Follows(id, value.event, previousSeq) {
        KeptAssociate(kept, line, KeptFrom(c, id, raw, NextLineStart(raw, at), value.event.seqNo).lines);
        previousSeq := value.event.seqNo;
        kept := kept + [line];
        at := NextLineStart(raw, at);
      } else {
        invalid := true;
      }
    }
    assert kept + [] == kept;
    return if invalid then Present(Unlines(kept)) else file, invalid;
  }

  lemma KeptAssociate<T>(kept: seq<T>, line: T, rest: seq<T>)
    ensures kept + ([line] + rest) == kept + [line] + rest
  {
  }

  /**
   * A sound log, or one followed by a line that is neither blank nor the next event (a torn write) and anything
   * after it. What this leaves out: a line longer than the limit, and a last line that is blank, or a next event, and
   * has no newline.
   */
  predicate Recoverable(c: Codec, id: string, b: Bytes, at: nat, last: int)
    decreases |b| - at
  {
    at >= |b| ||
    match c.decode(b[at..LineEnd(b, at)])
    case Blank =>
      LineEnd(b, at) < |b| && LineEnd(b, at) - at <= RUN_EVENT_MAX_LINE_BYTES &&
      Recoverable(c, id, b, NextLineStart(b, at), last)
    case Bad => true
    case Event(e) =>
      !Follows(id, e, last) ||
      (LineEnd(b, at) < |b| && LineEnd(b, at) - at <= RUN_EVENT_MAX_LINE_BYTES &&
       Recoverable(c, id, b, NextLineStart(b, at), e.seqNo))
  }

  /** No line is over the limit, up to the first that repair does not keep. */
  predicate WithinLimit(c: Codec, id: string, b: Bytes, at: nat, last: int)
    decreases |b| - at
  {
    at >= |b| ||
    match c.decode(b[at..LineEnd(b, at)])
    case Blank =>
      LineEnd(b, at) - at <= RUN_EVENT_MAX_LINE_BYTES && WithinLimit(c, id, b, NextLineStart(b, at), last)
    case Bad => true
    case Event(e) =>
      Follows(id, e, last) ==>
        LineEnd(b, at) - at <= RUN_EVENT_MAX_LINE_BYTES && WithinLimit(c, id, b, NextLineStart(b, at), e.seqNo)
  }

  lemma {:induction false} RecoverableIsWithin(c: Codec, id: string, b: Bytes, at: nat, last: int)
    requires Recoverable(c, id, b, at, last)
    ensures WithinLimit(c, id, b, at, last)
    ensures !KeptFrom(c, id, b, at, last).invalid ==> Sound(c, id, b, at, last)
    decreases |b| - at
  {
    hide IndexOf, Follows;
    if at < |b| {
      var value := c.decode(b[at..LineEnd(b, at)]);
      if value.Blank? {
        RecoverableIsWithin(c, id, b, NextLineStart(b, at), last);
      } else if value.Event? && Follows(id, value.event, last) {
        RecoverableIsWithin(c, id, b, NextLineStart(b, at), value.event.seqNo);
      }
    }
  }

  /** Lines that are, one after the other, the lines of next events. */
  predicate Chained(c: Codec, id: string, lines: seq<Bytes>, last: int) {
    lines == [] ||
    (NL !in lines[0] && |lines[0]| <= RUN_EVENT_MAX_LINE_BYTES && c.decode(lines[0]).Event? &&
     Follows(id, c.decode(lines[0]).event, last) && Chained(c, id, lines[1..], c.decode(lines[0]).event.seqNo))
  }

  function EventsOf(c: Codec, lines: seq<Bytes>): seq<RunEvent>
    requires forall line <- lines :: c.decode(line).Event?
  {
    seq(|lines|, i requires 0 <= i < |lines| => assert lines[i] in lines; c.decode(lines[i]).event)
  }

  lemma {:induction false} ChainedAreEvents(c: Codec, id: string, lines: seq<Bytes>, last: int)
    requires Chained(c, id, lines, last)
    ensures forall line <- lines :: c.decode(line).Event?
    decreases lines
  {
    if lines != [] {
      ChainedAreEvents(c, id, lines[1..], c.decode(lines[0]).event.seqNo);
      assert lines == [lines[0]] + lines[1..];
    }
  }

  /** What repair keeps of a log is its longest valid prefix, when no line is over the limit. */
  lemma {:induction false} KeepsValidPrefix(c: Codec, id: string, b: Bytes, at: nat, last: int)
    requires WithinLimit(c, id, b, at, last)
    ensures
      var kept := KeptFrom(c, id, b, at, last);
      && Chained(c, id, kept.lines, last)
      && (forall line <- kept.lines :: c.decode(line).Event?)
      && EventsOf(c, kept.lines) == Events(ValidFrom(c, id, b, at, last))
    decreases |b| - at
  {
    hide IndexOf, Follows;
    if at < |b| {
      var line, next := b[at..LineEnd(b, at)], NextLineStart(b, at);
      var value := c.decode(line);
      if value.Blank? {
        KeepsValidPrefix(c, id, b, next, last);
      } else if value.Event? && Follows(id, value.event, last) {
        var e := value.event;
        KeepsValidPrefix(c, id, b, next, e.seqNo);
        var rest := KeptFrom(c, id, b, next, e.seqNo);
        LineHasNoNewline(b, at);
        assert ([line] + rest.lines)[1..] == rest.lines;
        var hits := ValidFrom(c, id, b, next, e.seqNo);
        assert Events([Hit(e, next)] + hits) == [e] + Events(hits);
        assert EventsOf(c, [line] + rest.lines) == [e] + EventsOf(c, rest.lines);
      }
    }
  }

  lemma LineHasNoNewline(b: Bytes, at: nat)
    requires at < |b|
    ensures NL !in b[at..LineEnd(b, at)]
  {
  }

  lemma {:induction false} ChainedInit(c: Codec, id: string, lines: seq<Bytes>, last: int)
    requires Chained(c, id, lines, last) && lines != []
    ensures
      var n := |lines| - 1;
      && Chained(c, id, lines[..n], last)
      && (n > 0 ==> c.decode(lines[n - 1]).Event?)
      && NL !in lines[n] && |lines[n]| <= RUN_EVENT_MAX_LINE_BYTES && c.decode(lines[n]).Event?
      && Follows(id, c.decode(lines[n]).event, if n == 0 then last else c.decode(lines[n - 1]).event.seqNo)
    decreases lines
  {
    hide Follows;
    var n := |lines| - 1;
    if n > 0 {
      ChainedInit(c, id, lines[1..], c.decode(lines[0]).event.seqNo);
      assert lines[..n][1..] == lines[1..][..n - 1];
    }
  }

  /** Lines of next events, written out, are a sound log of those events. */
  lemma {:induction false} UnlinesSound(c: Codec, id: string, lines: seq<Bytes>)
    requires Chained(c, id, lines, 0) && forall line <- lines :: c.decode(line).Event?
    ensures Sound(c, id, Unlines(lines), 0, 0)
    ensures Events(ValidFrom(c, id, Unlines(lines), 0, 0)) == EventsOf(c, lines)
    decreases lines
  {
    hide Follows, ValidFrom, Sound;
    if lines == [] {
      NothingIsSound(c, id);
    } else {
      var n := |lines| - 1;
      var e := c.decode(lines[n]).event;
      ChainedInit(c, id, lines, 0);
      UnlinesSound(c, id, lines[..n]);
      var hits := ValidFrom(c, id, Unlines(lines[..n]), 0, 0);
      assert |hits| == |Events(hits)| == n;
      if n > 0 { assert Events(hits)[n - 1] == c.decode(lines[n - 1]).event; }
      AppendLine(c, id, Unlines(lines[..n]), 0, 0, lines[n], e);
      assert Events(hits + [Hit(e, |Unlines(lines)|)]) == Events(hits) + [e];
      assert EventsOf(c, lines) == EventsOf(c, lines[..n]) + [e];
    }
  }

  lemma NothingIsSound(c: Codec, id: string)
    ensures Sound(c, id, [], 0, 0) && ValidFrom(c, id, [], 0, 0) == []
  {
  }

  /** The first `k` of these lines are the lines of these hits. */
  ghost predicate LinesOf(c: Codec, id: string, lines: seq<Bytes>, k: nat, last: int, hits: seq<Hit>) {
    && k <= |lines| && Chained(c, id, lines[..k], last)
    && (forall line <- lines[..k] :: c.decode(line).Event?)
    && EventsOf(c, lines[..k]) == Events(hits)
  }

  lemma LineMore(
    c: Codec, id: string, line: Bytes, rest: seq<Bytes>, k: nat, last: int, e: RunEvent, next: nat, hits: seq<Hit>)
    requires LinesOf(c, id, rest, k, e.seqNo, hits)
    requires NL !in line && |line| <= RUN_EVENT_MAX_LINE_BYTES && c.decode(line) == Event(e) && Follows(id, e, last)
    ensures LinesOf(c, id, [line] + rest, k + 1, last, [Hit(e, next)] + hits)
  {
    hide Follows;
    var first := [line] + rest[..k];
    assert ([line] + rest)[..k + 1] == first && first[1..] == rest[..k];
    assert Events([Hit(e, next)] + hits) == [e] + Events(hits);
    assert EventsOf(c, first) == [e] + EventsOf(c, rest[..k]);
  }

  /** The valid prefix of any log is made of the first lines that repair keeps. */
  lemma {:induction false} ValidIsKept(c: Codec, id: string, b: Bytes, at: nat, last: int) returns (k: nat)
    ensures LinesOf(c, id, KeptFrom(c, id, b, at, last).lines, k, last, ValidFrom(c, id, b, at, last))
    decreases |b| - at
  {
    hide IndexOf, Follows, LinesOf, ValidFrom;
    ValidStep(c, id, b, at, last);
    k := 0;
    NoLines(c, id, KeptFrom(c, id, b, at, last).lines, last);
    if at < |b| && LineEnd(b, at) - at <= RUN_EVENT_MAX_LINE_BYTES {
      var line, next := b[at..LineEnd(b, at)], NextLineStart(b, at);
      var value := c.decode(line);
      if value.Blank? {
        k := ValidIsKept(c, id, b, next, last);
      } else if value.Event? && Follows(id, value.event, last) {
        var e := value.event;
        var more := ValidIsKept(c, id, b, next, e.seqNo);
        k := more + 1;
        LineHasNoNewline(b, at);
        var hits := ValidFrom(c, id, b, next, e.seqNo);
        LineMore(c, id, line, KeptFrom(c, id, b, next, e.seqNo).lines, more, last, e, next, hits);
      }
    }
  }

  lemma NoLines(c: Codec, id: string, lines: seq<Bytes>, last: int)
    ensures LinesOf(c, id, lines, 0, last, [])
  {
  }

  /** What follows a sound log takes no event from it. */
  lemma {:induction false} SoundThenMore(c: Codec, id: string, b: Bytes, more: Bytes, at: nat, last: int)
    requires Sound(c, id, b, at, last) && at <= |b|
    ensures ValidFrom(c, id, b, at, last) <= ValidFrom(c, id, b + more, at, last)
    decreases |b| - at
  {
    hide IndexOf, Follows;
    ValidStep(c, id, b, at, last);
    if at < |b| {
      LineInPrefix(b, more, at);
      ValidStep(c, id, b + more, at, last);
      var value := c.decode(b[at..LineEnd(b, at)]);
      SoundThenMore(c, id, b, more, NextLineStart(b, at), if value.Blank? then last else value.event.seqNo);
    }
  }

  lemma {:induction false} UnlinesPrefix(lines: seq<Bytes>, k: nat) returns (more: Bytes)
    requires k <= |lines|
    ensures Unlines(lines) == Unlines(lines[..k]) + more
    decreases lines
  {
    var n := |lines| - 1;
    if k == |lines| {
      assert lines[..k] == lines;
      more := [];
    } else {
      var m := UnlinesPrefix(lines[..n], k);
      assert lines[..n][..k] == lines[..k];
      more := m + (lines[n] + [NL]);
      Associate(Unlines(lines[..k]), m, lines[n] + [NL]);
    }
  }

  /** Repair loses no valid event, of any log. */
  lemma RepairLosesNothing(c: Codec, id: string, b: Bytes)
    ensures Events(ValidFrom(c, id, b, 0, 0)) <= Events(ValidFrom(c, id, Repaired(c, id, b), 0, 0))
  {
    hide ValidFrom, Sound, Chained, KeptFrom, EventsOf, Events, Unlines;
    var kept := KeptFrom(c, id, b, 0, 0);
    if kept.invalid {
      var k := ValidIsKept(c, id, b, 0, 0);
      UnlinesSound(c, id, kept.lines[..k]);
      var more := UnlinesPrefix(kept.lines, k);
      SoundThenMore(c, id, Unlines(kept.lines[..k]), more, 0, 0);
      EventsPrefix(
        ValidFrom(c, id, Unlines(kept.lines[..k]), 0, 0), ValidFrom(c, id, Unlines(kept.lines), 0, 0));
    }
  }

  lemma EventsPrefix(a: seq<Hit>, b: seq<Hit>)
    requires a <= b
    ensures Events(a) <= Events(b)
  {
    assert |Events(a)| == |a| && |Events(b)| == |b|;
  }

  /**
   * Repairing a log keeps exactly its longest valid prefix, when no line up to the first bad one is over the limit; and
   * makes it sound, when besides the last line kept has its newline.
   */
  lemma RepairKeepsEvents(c: Codec, id: string, b: Bytes)
    requires WithinLimit(c, id, b, 0, 0)
    ensures Events(ValidFrom(c, id, Repaired(c, id, b), 0, 0)) == Events(ValidFrom(c, id, b, 0, 0))
    ensures Recoverable(c, id, b, 0, 0) ==> Sound(c, id, Repaired(c, id, b), 0, 0)
  {
    hide ValidFrom, Sound, Chained, KeptFrom, EventsOf, Events, Recoverable, WithinLimit;
    KeepsValidPrefix(c, id, b, 0, 0);
    var kept := KeptFrom(c, id, b, 0, 0);
    if kept.invalid {
      UnlinesSound(c, id, kept.lines);
    } else if Recoverable(c, id, b, 0, 0) {
      RecoverableIsWithin(c, id, b, 0, 0);
    }
  }

  /** A sound log needs no repair, and can be appended to. */
  lemma {:induction false} SoundIsAppendable(c: Codec, id: string, b: Bytes, at: nat, last: int, size: nat)
    requires Sound(c, id, b, at, last)
    ensures !KeptFrom(c, id, b, at, last).invalid && Appendable(b, at, size)
    decreases |b| - at
  {
    hide IndexOf, Follows;
    if at < |b| {
      var value := c.decode(b[at..LineEnd(b, at)]);
      SoundIsAppendable(c, id, b, NextLineStart(b, at), if value.Blank? then last else value.event.seqNo, size);
    }
  }

  // ---- what an append makes of the log --------------------------------------------------------------------

  /**
   * No line from `at` is over the limit, and the last one ends in a newline, or is JSON white space that leaves room
   * for `size` more bytes.
   */
  predicate Appendable(b: Bytes, at: nat, size: nat)
    decreases |b| - at
  {
    at >= |b| ||
    (LineEnd(b, at) - at <= RUN_EVENT_MAX_LINE_BYTES &&
     if LineEnd(b, at) < |b| then Appendable(b, NextLineStart(b, at), size)
     else IsJsonSpace(b[at..]) && |b| - at + size <= RUN_EVENT_MAX_LINE_BYTES)
  }

  /** No line from `at` is over the limit, and the last one is an event without its newline. */
  predicate EndsInEvent(c: Codec, b: Bytes, at: nat)
    decreases |b| - at
  {
    at < |b| && LineEnd(b, at) - at <= RUN_EVENT_MAX_LINE_BYTES &&
    if LineEnd(b, at) < |b| then EndsInEvent(c, b, NextLineStart(b, at)) else c.decode(b[at..]).Event?
  }

  /** A line that ends in a newline stops every reader: it is over the limit, or neither blank nor the next event. */
  predicate Blocked(c: Codec, id: string, b: Bytes, at: nat, last: int)
    decreases |b| - at
  {
    at < |b| && LineEnd(b, at) < |b| &&
    (LineEnd(b, at) - at > RUN_EVENT_MAX_LINE_BYTES ||
     match c.decode(b[at..LineEnd(b, at)])
     case Blank => Blocked(c, id, b, NextLineStart(b, at), last)
     case Bad => true
     case Event(e) => Follows(id, e, last) ==> Blocked(c, id, b, NextLineStart(b, at), e.seqNo))
  }

  function WithoutLast<T>(s: seq<T>): seq<T> {
    if s == [] then [] else s[..|s| - 1]
  }

  /** The hits of a log to which `e` was appended: one more, the same, or one less. */
  function AfterAppend(c: Codec, id: string, b: Bytes, at: nat, last: int, e: RunEvent): seq<Hit> {
    var hits, line := ValidFrom(c, id, b, at, last), c.encode(e);
    if Blocked(c, id, b, at, last) then hits
    else if Appendable(b, at, |line|) && Safe(e) then hits + [Hit(e, |b + (line + [NL])|)]
    else if EndsInEvent(c, b, at) then WithoutLast(hits)
    else hits
  }

  lemma BlockedStep(c: Codec, id: string, b: Bytes, at: nat, last: int)
    requires at < |b| && LineEnd(b, at) < |b| && LineEnd(b, at) - at <= RUN_EVENT_MAX_LINE_BYTES
    ensures
      var line := c.decode(b[at..LineEnd(b, at)]);
      Blocked(c, id, b, at, last) ==
      if line.Blank? then Blocked(c, id, b, NextLineStart(b, at), last)
      else line.Event? && Follows(id, line.event, last) ==> Blocked(c, id, b, NextLineStart(b, at), line.event.seqNo)
  {
  }

  /** A line without a newline at the end is joined by what is appended. */
  lemma JoinedLine(b: Bytes, at: nat, line: Bytes)
    requires at < |b| && LineEnd(b, at) == |b| && NL !in line
    ensures
      var b' := b + (line + [NL]);
      && LineEnd(b', at) == |b| + |line| && NextLineStart(b', at) == |b'|
      && b'[at..LineEnd(b', at)] == b[at..] + line
  {
    var b' := b + (line + [NL]);
    var joined := b[at..] + line;
    assert b'[at..|b| + |line|] == joined;
    forall k | 0 <= k < |joined| ensures joined[k] != NL {
      if k < |b| - at { assert joined[k] == b[at + k]; } else { assert joined[k] in line; }
    }
    IndexOfIs(b', NL, at, |b| + |line|);
  }

  /** A log is blocked for good: what is appended is not read. */
  lemma {:induction false} BlockedThenMore(c: Codec, id: string, b: Bytes, more: Bytes, at: nat, last: int)
    requires Blocked(c, id, b, at, last)
    ensures Blocked(c, id, b + more, at, last) && ValidFrom(c, id, b + more, at, last) == ValidFrom(c, id, b, at, last)
    decreases |b| - at
  {
    hide IndexOf, Follows;
    LineInPrefix(b, more, at);
    ValidStep(c, id, b, at, last);
    ValidStep(c, id, b + more, at, last);
    var value := c.decode(b[at..LineEnd(b, at)]);
    if LineEnd(b, at) - at > RUN_EVENT_MAX_LINE_BYTES || value.Bad? {
    } else if value.Blank? {
      BlockedThenMore(c, id, b, more, NextLineStart(b, at), last);
    } else if Follows(id, value.event, last) {
      BlockedThenMore(c, id, b, more, NextLineStart(b, at), value.event.seqNo);
    }
  }

  lemma ReadsItself(c: Codec, e: RunEvent)
    requires Faithful(c)
    ensures NL !in c.encode(e) && c.decode(c.encode(e)) == if Safe(e) then Event(e) else Bad
  {
    var nothing: Bytes := [];
    assert IsJsonSpace(nothing) && nothing + c.encode(e) == c.encode(e);
  }

  /** A log that ends in a newline gains the event as a line of its own. */
  lemma AppendAtEnd(c: Codec, id: string, b: Bytes, last: int, e: RunEvent)
    requires Faithful(c) && |c.encode(e)| <= RUN_EVENT_MAX_LINE_BYTES && Follows(id, e, last)
    ensures
      var b' := b + (c.encode(e) + [NL]);
      && ValidFrom(c, id, b', |b|, last) == AfterAppend(c, id, b, |b|, last, e)
      && (if Safe(e) then Sound(c, id, b', |b|, last) else Blocked(c, id, b', |b|, last))
  {
    hide Follows, Faithful, LineEnd, NextLineStart, ValidFrom, Sound, Blocked, Appendable, EndsInEvent;
    var line := c.encode(e);
    var b' := b + (line + [NL]);
    ReadsItself(c, e);
    LineAtEnd(b, line);
    NothingAtEnd(c, id, b, last, |line|);
    LastLine(c, id, b', |b|, last);
    assert [Hit(e, |b'|)] == [] + [Hit(e, |b'|)];
  }

  /** A last line that ends in a newline. */
  lemma LastLine(c: Codec, id: string, b: Bytes, at: nat, last: int)
    requires at < |b| && LineEnd(b, at) - at <= RUN_EVENT_MAX_LINE_BYTES && LineEnd(b, at) < |b|
    requires NextLineStart(b, at) == |b|
    ensures
      var line := c.decode(b[at..LineEnd(b, at)]);
      if line.Event? && Follows(id, line.event, last) then
        ValidFrom(c, id, b, at, last) == [Hit(line.event, |b|)] && Sound(c, id, b, at, last)
      else ValidFrom(c, id, b, at, last) == [] && (line.Bad? ==> Blocked(c, id, b, at, last))
  {
    hide Follows, IndexOf;
    ValidStep(c, id, b, at, last);
    forall n: int ensures ValidFrom(c, id, b, |b|, n) == [] && Sound(c, id, b, |b|, n) {}
  }

  /** A last line that has no newline is joined by the event. */
  lemma AppendJoins(c: Codec, id: string, b: Bytes, at: nat, last: int, e: RunEvent)
    requires Faithful(c) && at < |b| && LineEnd(b, at) == |b| && !KeptFrom(c, id, b, at, last).invalid
    requires |c.encode(e)| <= RUN_EVENT_MAX_LINE_BYTES && Follows(id, e, LastOf(ValidFrom(c, id, b, at, last), last))
    ensures
      var b' := b + (c.encode(e) + [NL]);
      && ValidFrom(c, id, b', at, last) == AfterAppend(c, id, b, at, last, e)
      && (if Appendable(b, at, |c.encode(e)|) && Safe(e) then Sound(c, id, b', at, last)
          else Blocked(c, id, b', at, last))
      && (EndsInEvent(c, b, at) ==> Recoverable(c, id, b', at, last))
  {
    hide Follows, IndexOf, IsBlankLine, IsJsonSpace;
    var line := c.encode(e);
    var b' := b + (line + [NL]);
    if IsJsonSpace(b[at..]) { JsonSpaceIsBlank(b[at..]); }
    ValidStep(c, id, b, at, last);
    ValidStep(c, id, b', at, last);
    JoinedLine(b, at, line);
    assert b[at..LineEnd(b, at)] == b[at..];
    assert ValidFrom(c, id, b, |b|, last) == [] && ValidFrom(c, id, b', |b'|, e.seqNo) == [];
    assert [Hit(e, |b'|)] + [] == [] + [Hit(e, |b'|)];
  }

  /**
   * What an append makes of a log that was repaired, or is blocked: readers see one more event, the same ones, or,
   * where the last event had no newline, one less. Unless the event is seen, the log is blocked from then on.
   */
  lemma {:induction false} AppendOutcome(c: Codec, id: string, b: Bytes, at: nat, last: int, e: RunEvent)
    requires Faithful(c) && at <= |b| && |c.encode(e)| <= RUN_EVENT_MAX_LINE_BYTES
    requires Blocked(c, id, b, at, last) ||
      (!KeptFrom(c, id, b, at, last).invalid && Follows(id, e, LastOf(ValidFrom(c, id, b, at, last), last)))
    ensures
      var b' := b + (c.encode(e) + [NL]);
      && ValidFrom(c, id, b', at, last) == AfterAppend(c, id, b, at, last, e)
      && (if !Blocked(c, id, b, at, last) && Appendable(b, at, |c.encode(e)|) && Safe(e) then Sound(c, id, b', at, last)
          else Blocked(c, id, b', at, last))
      && (!Blocked(c, id, b, at, last) && EndsInEvent(c, b, at) ==> Recoverable(c, id, b', at, last))
    decreases |b| - at
  {
    hide Faithful, KeptFrom, LastOf, ValidFrom, Sound, Recoverable, Blocked, Appendable, EndsInEvent;
    if Blocked(c, id, b, at, last) {
      BlockedThenMore(c, id, b, c.encode(e) + [NL], at, last);
    } else if at == |b| {
      NothingAtEnd(c, id, b, last, |c.encode(e)|);
      AppendAtEnd(c, id, b, last, e);
    } else if LineEnd(b, at) == |b| {
      AppendJoins(c, id, b, at, last, e);
    } else {
      AppendLater(c, id, b, at, last, e);
    }
  }

  lemma NothingAtEnd(c: Codec, id: string, b: Bytes, last: int, size: nat)
    ensures Appendable(b, |b|, size) && !EndsInEvent(c, b, |b|) && !Blocked(c, id, b, |b|, last)
    ensures ValidFrom(c, id, b, |b|, last) == [] && LastOf([], last) == last
  {
  }

  /** A first line that has its newline stays as it is. */
  lemma {:induction false} AppendLater(c: Codec, id: string, b: Bytes, at: nat, last: int, e: RunEvent)
    requires Faithful(c) && at < |b| && LineEnd(b, at) < |b| && |c.encode(e)| <= RUN_EVENT_MAX_LINE_BYTES
    requires !Blocked(c, id, b, at, last) && !KeptFrom(c, id, b, at, last).invalid
    requires Follows(id, e, LastOf(ValidFrom(c, id, b, at, last), last))
    ensures
      var b' := b + (c.encode(e) + [NL]);
      && ValidFrom(c, id, b', at, last) == AfterAppend(c, id, b, at, last, e)
      && (if Appendable(b, at, |c.encode(e)|) && Safe(e) then Sound(c, id, b', at, last)
          else Blocked(c, id, b', at, last))
      && (EndsInEvent(c, b, at) ==> Recoverable(c, id, b', at, last))
    decreases |b| - at, 0
  {
    hide Follows, IndexOf, Faithful;
    var line := c.encode(e) + [NL];
    var b', next := b + line, NextLineStart(b, at);
    ValidStep(c, id, b, at, last);
    ValidStep(c, id, b', at, last);
    LineInPrefix(b, line, at);
    var first := c.decode(b[at..LineEnd(b, at)]);
    if first.Blank? {
      AppendOutcome(c, id, b, next, last, e);
    } else {
      var h, rest := Hit(first.event, next), ValidFrom(c, id, b, next, first.event.seqNo);
      LastOfStep(h, rest, last);
      AppendOutcome(c, id, b, next, first.event.seqNo, e);
      EndsInHit(c, id, b, next, first.event.seqNo);
      FirstOfOutcome(h, rest, Hit(e, |b'|));
    }
  }

  /** An unended event at the end is the last hit. */
  lemma {:induction false} EndsInHit(c: Codec, id: string, b: Bytes, at: nat, last: int)
    requires !KeptFrom(c, id, b, at, last).invalid
    ensures EndsInEvent(c, b, at) ==> ValidFrom(c, id, b, at, last) != []
    decreases |b| - at
  {
    hide Follows, IndexOf;
    if at < |b| {
      ValidStep(c, id, b, at, last);
      var value := c.decode(b[at..LineEnd(b, at)]);
      if LineEnd(b, at) == |b| {
        assert b[at..LineEnd(b, at)] == b[at..];
      } else if value.Blank? {
        EndsInHit(c, id, b, NextLineStart(b, at), last);
      }
    }
  }

  lemma FirstOfOutcome(h: Hit, rest: seq<Hit>, added: Hit)
    ensures [h] + (rest + [added]) == [h] + rest + [added]
    ensures rest != [] ==> [h] + WithoutLast(rest) == WithoutLast([h] + rest)
  {
  }

  /** A log that needs no repair and is blocked has a line over the limit, and so is not appendable. */
  lemma {:induction false} BlockedIsNotAppendable(c: Codec, id: string, b: Bytes, at: nat, last: int, size: nat)
    requires !KeptFrom(c, id, b, at, last).invalid && Appendable(b, at, size)
    ensures !Blocked(c, id, b, at, last)
    decreases |b| - at
  {
    hide Follows, IndexOf;
    if at < |b| && LineEnd(b, at) < |b| {
      var value := c.decode(b[at..LineEnd(b, at)]);
      BlockedIsNotAppendable(c, id, b, NextLineStart(b, at), if value.Blank? then last else value.event.seqNo, size);
    }
  }

  /**
   * After repair, an append of the next event extends the log by exactly it if and only if the log is appendable, and
   * the number is safe.
   */
  lemma AppendExtendsIff(c: Codec, id: string, b: Bytes, e: RunEvent)
    requires Faithful(c) && !KeptFrom(c, id, b, 0, 0).invalid && |c.encode(e)| <= RUN_EVENT_MAX_LINE_BYTES
    requires e.runId == id && e.seqNo == LastOf(ValidFrom(c, id, b, 0, 0), 0) + 1
    ensures
      var after := ValidFrom(c, id, b + (c.encode(e) + [NL]), 0, 0);
      Events(after) == Events(ValidFrom(c, id, b, 0, 0)) + [e] <==> Appendable(b, 0, |c.encode(e)|) && Safe(e)
  {
    hide ValidFrom, Sound, Faithful, Appendable, KeptFrom, Blocked, EndsInEvent, Recoverable;
    SeqsIncrease(c, id, b, 0, 0);
    AppendOutcome(c, id, b, 0, 0, e);
    var hits, after := ValidFrom(c, id, b, 0, 0), ValidFrom(c, id, b + (c.encode(e) + [NL]), 0, 0);
    assert |Events(after)| == |after| && |Events(hits)| == |hits|;
    if Appendable(b, 0, |c.encode(e)|) && Safe(e) {
      BlockedIsNotAppendable(c, id, b, 0, 0, |c.encode(e)|);
      assert Events(hits + [Hit(e, |b + (c.encode(e) + [NL])|)]) == Events(hits) + [e];
    }
  }

  /** A log that holds one form feed: it counts as blank and is not repaired, yet the event written after it is lost. */
  lemma FormFeedLosesEvent(c: Codec, id: string, e: RunEvent)
    requires Faithful(c) && e.runId == id && e.seqNo == 1 && |c.encode(e)| <= RUN_EVENT_MAX_LINE_BYTES
    ensures
      var b: Bytes := [12];
      && Repaired(c, id, b) == b && LastOf(ValidFrom(c, id, b, 0, 0), 0) + 1 == e.seqNo
      && ValidFrom(c, id, b + (c.encode(e) + [NL]), 0, 0) == []
  {
    hide Faithful, ValidFrom, KeptFrom;
    var b: Bytes := [12];
    FormFeedIsBlank(c, id);
    AppendOutcome(c, id, b, 0, 0, e);
  }

  lemma FormFeedIsBlank(c: Codec, id: string)
    requires Faithful(c)
    ensures
      var b: Bytes := [12];
      && LineEnd(b, 0) == 1 && IsBlankLine(b) && !IsJsonSpace(b) && c.decode(b).Blank? && c.decode(b[0..]).Blank?
      && KeptFrom(c, id, b, 0, 0) == Kept([], false) && ValidFrom(c, id, b, 0, 0) == []
  {
    var b: Bytes := [12];
    assert SpaceSize(b) == 1 && b[1..] == [] && 12 in b;
    assert b[0..] == b && b[0..1] == b;
    assert IndexOf(b, NL, 1) == 1;
    assert KeptFrom(c, id, b, 1, 0) == Kept([], false) && ValidFrom(c, id, b, 1, 0) == [];
  }

  /**
   * An event that lacks only its newline is lost with the event appended after it: to readers at once, and for good
   * with the next repair, which leaves the events before it.
   */
  lemma UnendedEventIsLost(c: Codec, id: string, b: Bytes, e: RunEvent)
    requires Faithful(c) && !KeptFrom(c, id, b, 0, 0).invalid && |c.encode(e)| <= RUN_EVENT_MAX_LINE_BYTES
    requires e.runId == id && e.seqNo == LastOf(ValidFrom(c, id, b, 0, 0), 0) + 1
    requires EndsInEvent(c, b, 0)
    ensures
      var hits, b' := ValidFrom(c, id, b, 0, 0), b + (c.encode(e) + [NL]);
      && hits != [] && ValidFrom(c, id, b', 0, 0) == WithoutLast(hits)
      && Events(ValidFrom(c, id, Repaired(c, id, b'), 0, 0)) == Events(WithoutLast(hits))
  {
    hide ValidFrom, Sound, Faithful, Appendable, KeptFrom, Blocked, EndsInEvent, Recoverable, Repaired;
    SeqsIncrease(c, id, b, 0, 0);
    AppendOutcome(c, id, b, 0, 0, e);
    EndsInHit(c, id, b, 0, 0);
    EndsOneWay(c, id, b, 0, 0, |c.encode(e)|);
    RecoverableIsWithin(c, id, b + (c.encode(e) + [NL]), 0, 0);
    RepairKeepsEvents(c, id, b + (c.encode(e) + [NL]));
  }

  /** A log that ends in an unended event is neither appendable nor blocked. */
  lemma {:induction false} EndsOneWay(c: Codec, id: string, b: Bytes, at: nat, last: int, size: nat)
    requires Faithful(c) && EndsInEvent(c, b, at) && !KeptFrom(c, id, b, at, last).invalid
    ensures !Blocked(c, id, b, at, last) && !Appendable(b, at, size)
    decreases |b| - at
  {
    hide Follows, IndexOf, IsJsonSpace;
    var value := c.decode(b[at..LineEnd(b, at)]);
    if LineEnd(b, at) < |b| {
      EndsOneWay(c, id, b, NextLineStart(b, at), if value.Blank? then last else value.event.seqNo, size);
    } else {
      assert b[at..LineEnd(b, at)] == b[at..];
      if IsJsonSpace(b[at..]) { JsonSpaceIsBlank(b[at..]); }
    }
  }

  /** Every line from `at` ends in a newline. */
  predicate Ended(b: Bytes, at: nat)
    decreases |b| - at
  {
    at >= |b| || (LineEnd(b, at) < |b| && Ended(b, NextLineStart(b, at)))
  }

  /** The number of the event on the last of these lines. */
  function LastKept(c: Codec, lines: seq<Bytes>, last: int): int {
    if lines == [] then last
    else
      var line := c.decode(lines[|lines| - 1]);
      if line.Event? then line.event.seqNo else last
  }

  /** Lines that are, one after the other, the lines of next events, however long. */
  predicate Linked(c: Codec, id: string, lines: seq<Bytes>) {
    lines == [] ||
    (var n := |lines| - 1;
     && Linked(c, id, lines[..n]) && NL !in lines[n] && c.decode(lines[n]).Event?
     && Follows(id, c.decode(lines[n]).event, LastKept(c, lines[..n], 0)))
  }

  /** What is kept from `at` follows what was kept before. */
  lemma {:induction false} KeptLinks(c: Codec, id: string, b: Bytes, at: nat, last: int, before: seq<Bytes>)
    requires Linked(c, id, before) && LastKept(c, before, 0) == last
    ensures Linked(c, id, before + KeptFrom(c, id, b, at, last).lines)
    decreases |b| - at
  {
    hide Follows, IndexOf;
    assert before + [] == before;
    if at < |b| {
      var line, next := b[at..LineEnd(b, at)], NextLineStart(b, at);
      var value := c.decode(line);
      if value.Blank? {
        KeptLinks(c, id, b, next, last, before);
      } else if value.Event? && Follows(id, value.event, last) {
        LineHasNoNewline(b, at);
        assert (before + [line])[..|before|] == before;
        KeptLinks(c, id, b, next, value.event.seqNo, before + [line]);
        KeptAssociate(before, line, KeptFrom(c, id, b, next, value.event.seqNo).lines);
      }
    }
  }

  /** A line of a next event at the end is kept as the last one. */
  lemma {:induction false} KeptAppend(c: Codec, id: string, b: Bytes, at: nat, last: int, line: Bytes)
    requires at <= |b| && Ended(b, at) && !KeptFrom(c, id, b, at, last).invalid && NL !in line && c.decode(line).Event?
    requires Follows(id, c.decode(line).event, LastKept(c, KeptFrom(c, id, b, at, last).lines, last))
    ensures
      var b' := b + (line + [NL]);
      Ended(b', at) && KeptFrom(c, id, b', at, last) == Kept(KeptFrom(c, id, b, at, last).lines + [line], false)
    decreases |b| - at
  {
    hide Follows, IndexOf;
    var b' := b + (line + [NL]);
    if at == |b| {
      LineAtEnd(b, line);
      assert KeptFrom(c, id, b', |b'|, c.decode(line).event.seqNo) == Kept([], false);
    } else {
      LineInPrefix(b, line + [NL], at);
      var next := NextLineStart(b, at);
      var first := b[at..LineEnd(b, at)];
      var value := c.decode(first);
      if value.Blank? {
        KeptAppend(c, id, b, next, last, line);
      } else {
        var rest := KeptFrom(c, id, b, next, value.event.seqNo).lines;
        LastKeptIsEvent(c, id, b, next, value.event.seqNo);
        LastKeptStep(c, first, rest, last);
        KeptAppend(c, id, b, next, value.event.seqNo, line);
        Associate([first], rest, [line]);
      }
    }
  }

  lemma {:induction false} LastKeptIsEvent(c: Codec, id: string, b: Bytes, at: nat, last: int)
    ensures
      var lines := KeptFrom(c, id, b, at, last).lines;
      lines != [] ==> c.decode(lines[|lines| - 1]).Event?
    decreases |b| - at
  {
    hide IndexOf, Follows;
    if at < |b| {
      var value, next := c.decode(b[at..LineEnd(b, at)]), NextLineStart(b, at);
      if value.Blank? {
        LastKeptIsEvent(c, id, b, next, last);
      } else if value.Event? && Follows(id, value.event, last) {
        LastKeptIsEvent(c, id, b, next, value.event.seqNo);
      }
    }
  }

  lemma LastKeptStep(c: Codec, first: Bytes, rest: seq<Bytes>, last: int)
    requires c.decode(first).Event?
    ensures LastKept(c, [first] + rest, last) ==
      if rest == [] then c.decode(first).event.seqNo
      else if c.decode(rest[|rest| - 1]).Event? then LastKept(c, rest, c.decode(first).event.seqNo)
      else last
  {
  }

  lemma {:induction false} UnlinesKept(c: Codec, id: string, lines: seq<Bytes>)
    requires Linked(c, id, lines)
    ensures KeptFrom(c, id, Unlines(lines), 0, 0) == Kept(lines, false) && Ended(Unlines(lines), 0)
    decreases lines
  {
    hide Follows, KeptFrom, Ended;
    if lines == [] {
      NothingKept(c, id);
    } else {
      var n := |lines| - 1;
      UnlinesKept(c, id, lines[..n]);
      KeptAppend(c, id, Unlines(lines[..n]), 0, 0, lines[n]);
      assert lines == lines[..n] + [lines[n]];
    }
  }

  lemma NothingKept(c: Codec, id: string)
    ensures KeptFrom(c, id, [], 0, 0) == Kept([], false) && Ended([], 0)
  {
  }

  /** What repair leaves needs no further repair. */
  lemma RepairedIsKept(c: Codec, id: string, b: Bytes)
    ensures !KeptFrom(c, id, Repaired(c, id, b), 0, 0).invalid
  {
    hide KeptFrom;
    var kept := KeptFrom(c, id, b, 0, 0);
    if kept.invalid {
      KeptLinks(c, id, b, 0, 0, []);
      assert [] + kept.lines == kept.lines;
      UnlinesKept(c, id, kept.lines);
    }
  }

  // ---- the last sequence number ---------------------------------------------------------------------------

  function SeqVisitor(c: Codec, id: string): (int, Piece<byte>) -> (int, bool) {
    (last: int, p: Piece<byte>) =>
      match c.decode(p.line)
      case Blank => (last, true)
      case Bad => (last, false)
      case Event(e) => if Follows(id, e, last) then (e.seqNo, true) else (last, false)
  }

  /** The sequence number of the last event of the longest valid prefix; 0 when there is none. */
  method LastSeq(c: Codec, id: string, file: Content, shortReads: nat -> nat) returns (last: int)
    ensures last == LastOf(Hits(c, id, file), 0)
  {
    hide Rest, ValidFrom, LastOf, SeqVisitor;
    var r := VisitProjectFileLines(file, RUN_EVENT_MAX_LINE_BYTES, 0, SeqVisitor(c, id), 0, shortReads);
    if file.Present? {
      RestIsFold(file.bytes, 0, RUN_EVENT_MAX_LINE_BYTES, 0, SeqVisitor(c, id));
      LastFrom(c, id, file.bytes, 0, 0);
    }
    HitsOf(c, id, file);
    return r.state;
  }

  lemma HitsOf(c: Codec, id: string, file: Content)
    ensures Hits(c, id, file) == if file.Absent? then [] else ValidFrom(c, id, file.bytes, 0, 0)
    ensures file.Absent? ==> LastOf(Hits(c, id, file), 0) == 0
  {
  }

  lemma {:induction false} LastFrom(c: Codec, id: string, b: Bytes, at: nat, last: int)
    ensures Rest(b, at, RUN_EVENT_MAX_LINE_BYTES, last, SeqVisitor(c, id)) ==
      LastOf(ValidFrom(c, id, b, at, last), last)
    decreases |b| - at
  {
    hide Rest, IndexOf, ValidFrom, Follows;
    ValidStep(c, id, b, at, last);
    if at >= |b| {
      RestEnd(b, at, RUN_EVENT_MAX_LINE_BYTES, last, SeqVisitor(c, id));
    } else {
      RestStep(b, at, RUN_EVENT_MAX_LINE_BYTES, last, SeqVisitor(c, id));
      var next := NextLineStart(b, at);
      var line := c.decode(b[at..LineEnd(b, at)]);
      if LineEnd(b, at) - at <= RUN_EVENT_MAX_LINE_BYTES {
        if line.Blank? {
          LastFrom(c, id, b, next, last);
        } else if line.Event? && Follows(id, line.event, last) {
          LastFrom(c, id, b, next, line.event.seqNo);
          LastOfStep(Hit(line.event, next), ValidFrom(c, id, b, next, line.event.seqNo), last);
        }
      }
    }
  }
}
