/**
 * The run manager of one workspace: its caches, its counters, and the files behind them
 * (apps/server/src/run-ledger.ts).
 */
module RunManagement {
  import opened Basics
  import opened Options
  import opened Lines
  import opened LineVisitor
  import opened EventLog
  import opened Sorting
  import opened RunLedger
  import opened LedgerProcesses

  /** One event log and the stamp of its last write. */
  datatype LogFile = LogFile(bytes: Bytes, stamp: nat)

  /** How far a client has replayed a log: read when the log is still the same file. */
  datatype ReplayCursor = ReplayCursor(afterSeq: int, offset: nat, identity: Option<nat>)

  const RUN_REPLAY_CURSOR_CACHE_SIZE: nat := 512

  // ---- logs and what is remembered of them ----------------------------------------------------------------

  function LogIdentity(logs: map<string, LogFile>, id: string): Option<nat> {
    if id in logs then Some(logs[id].stamp) else None
  }

  function LogContent(logs: map<string, LogFile>, id: string): Content {
    if id in logs then Present(logs[id].bytes) else Absent
  }

  function LogBytes(logs: map<string, LogFile>, id: string): Bytes {
    if id in logs then logs[id].bytes else []
  }

  ghost predicate Stamped(logs: map<string, LogFile>, clock: nat) {
    forall id <- logs :: logs[id].stamp <= clock
  }

  /** A cursor whose file has not changed lies where it says it lies. */
  ghost predicate CursorsOk(c: Codec, cursors: map<string, ReplayCursor>, logs: map<string, LogFile>, clock: nat) {
    forall id <- cursors ::
      && (cursors[id].identity.Some? ==> cursors[id].identity.value <= clock)
      && (cursors[id].identity.None? ==> cursors[id].offset == 0)
      && (cursors[id].identity == LogIdentity(logs, id) ==>
           CursorAt(c, id, LogContent(logs, id), cursors[id].afterSeq, cursors[id].offset))
  }

  /**
   * A log whose number is remembered needs no repair, and the number is the last one in it; or it is blocked, because
   * an event was appended that nobody can read.
   */
  ghost predicate SeqOk(c: Codec, id: string, last: int, file: Content) {
    var b := if file.Absent? then [] else file.bytes;
    Blocked(c, id, b, 0, 0) || (Sound(c, id, b, 0, 0) && last == LastOf(Hits(c, id, file), 0))
  }

  ghost predicate SeqsOk(c: Codec, seqs: map<string, int>, logs: map<string, LogFile>) {
    forall id <- seqs :: SeqOk(c, id, seqs[id], LogContent(logs, id))
  }

  /** What an event is appended to: a log whose number is remembered as it is, any other after repair. */
  function Ready(c: Codec, id: string, seqs: map<string, int>, logs: map<string, LogFile>): Bytes {
    if id in seqs then LogBytes(logs, id) else Repaired(c, id, LogBytes(logs, id))
  }

  function NextNumber(c: Codec, id: string, seqs: map<string, int>, logs: map<string, LogFile>): int {
    (if id in seqs then seqs[id] else LastOf(Hits(c, id, Present(Ready(c, id, seqs, logs))), 0)) + 1
  }

  /** Every log is the same, was written since, or is gone. */
  ghost predicate Later'(logs: map<string, LogFile>, clock: nat, logs': map<string, LogFile>, clock': nat) {
    clock <= clock' && forall id <- logs' :: (id in logs && logs'[id] == logs[id]) || clock < logs'[id].stamp <= clock'
  }

  /** Whatever happens to the files, in this process or another, cursors stay right or go unused. */
  lemma CursorsSurvive(
    c: Codec, cursors: map<string, ReplayCursor>, logs: map<string, LogFile>, clock: nat,
    logs': map<string, LogFile>, clock': nat)
    requires CursorsOk(c, cursors, logs, clock) && Stamped(logs, clock) && Later'(logs, clock, logs', clock')
    ensures CursorsOk(c, cursors, logs', clock') && Stamped(logs', clock')
  {
    forall id | id in cursors && cursors[id].identity == LogIdentity(logs', id)
      ensures CursorAt(c, id, LogContent(logs', id), cursors[id].afterSeq, cursors[id].offset)
    {
      if id in logs' {
        assert logs'[id] == logs[id];
      }
    }
  }

  lemma CursorsWith(
    c: Codec, cursors: map<string, ReplayCursor>, logs: map<string, LogFile>, clock: nat, id: string,
    cursor: ReplayCursor)
    requires CursorsOk(c, cursors, logs, clock) && Stamped(logs, clock) && cursor.identity == LogIdentity(logs, id)
    requires CursorAt(c, id, LogContent(logs, id), cursor.afterSeq, cursor.offset)
    ensures CursorsOk(c, cursors[id := cursor], logs, clock)
  {
    hide CursorAt;
    AbsentOffset(c, id, LogContent(logs, id), cursor.afterSeq, cursor.offset);
  }

  lemma CursorsWithout(
    c: Codec, cursors: map<string, ReplayCursor>, logs: map<string, LogFile>, clock: nat, id: string)
    requires CursorsOk(c, cursors, logs, clock)
    ensures CursorsOk(c, cursors - {id}, logs, clock)
  {
  }

  /** What is remembered of other logs is as good when one is removed, with all that was remembered of it. */
  lemma NothingLeftOf(
    c: Codec, cursors: map<string, ReplayCursor>, seqs: map<string, int>, logs: map<string, LogFile>, clock: nat,
    id: string)
    requires CursorsOk(c, cursors, logs, clock) && SeqsOk(c, seqs, logs) && Stamped(logs, clock)
    ensures CursorsOk(c, cursors - {id}, logs - {id}, clock) && SeqsOk(c, seqs - {id}, logs - {id})
    ensures Stamped(logs - {id}, clock)
  {
    hide CursorAt, SeqOk;
  }

  // ---- the files of a workspace ---------------------------------------------------------------------------

  /** The ledger file and the event logs; every write stamps what it writes. */
  class ProjectFiles {
    var ledger: Disk
    var logs: map<string, LogFile>
    var logClock: nat

    constructor ()
      ensures ledger == Disk(None, 0) && logs == map[] && logClock == 0
    {
      ledger, logs, logClock := Disk(None, 0), map[], 0;
    }

    /** Replaces a log atomically. */
    method WriteLog(id: string, bytes: Bytes)
      modifies this`logs, this`logClock
      ensures logClock == old(logClock) + 1 && logs == old(logs)[id := LogFile(bytes, logClock)]
    {
      logClock := logClock + 1;
      logs := logs[id := LogFile(bytes, logClock)];
    }

    /** Appends to a log, creating it when there is none. */
    method AppendLog(id: string, bytes: Bytes)
      modifies this`logs, this`logClock
      ensures logClock == old(logClock) + 1
      ensures logs == old(logs)[id := LogFile(LogBytes(old(logs), id) + bytes, logClock)]
    {
      logClock := logClock + 1;
      logs := logs[id := LogFile(LogBytes(logs, id) + bytes, logClock)];
    }

    method RemoveLog(id: string)
      modifies this`logs
      ensures logs == old(logs) - {id}
    {
      logs := logs - {id};
    }
  }

  // ---- the manager ----------------------------------------------------------------------------------------

  /** What an update may change. */
  datatype Patch = Patch(
    status: Option<Status>, sessionId: Option<string>, costUsd: Option<real>, error: Option<string>)

  function Merge<T>(patched: Option<T>, current: Option<T>): Option<T> {
    if patched.Some? then patched else current
  }

  /** `{ ...current, ...patch, updatedAt: now }`. */
  function Patched(current: RunRecord, patch: Patch, now: int): RunRecord {
    RunRecord(
      current.runId, if patch.status.Some? then patch.status.value else current.status, now,
      Detail(Merge(patch.sessionId, current.detail.sessionId), Merge(patch.costUsd, current.detail.costUsd),
             Merge(patch.error, current.detail.error)))
  }

  /** `r` is `current` with what `patch` gives, and nothing else, changed. */
  predicate Updates(r: RunRecord, current: RunRecord, patch: Patch, now: int) {
    && r.runId == current.runId && r.updatedAt == now
    && (patch.status.Some? ==> r.status == patch.status.value)
    && (patch.status.None? ==> r.status == current.status)
    && (patch.sessionId.Some? ==> r.detail.sessionId == patch.sessionId)
    && (patch.sessionId.None? ==> r.detail.sessionId == current.detail.sessionId)
    && (patch.costUsd.Some? ==> r.detail.costUsd == patch.costUsd)
    && (patch.costUsd.None? ==> r.detail.costUsd == current.detail.costUsd)
    && (patch.error.Some? ==> r.detail.error == patch.error)
    && (patch.error.None? ==> r.detail.error == current.detail.error)
  }

  lemma PatchedUpdates(current: RunRecord, patch: Patch, now: int)
    ensures Updates(Patched(current, patch, now), current, patch, now)
  {
  }

  /** What a prune removed, and how many runs are left. */
  datatype PruneResult = PruneResult(removed: seq<string>, kept: nat)

  datatype FrameResult = Appended(event: RunEvent) | TooLarge

  function FindRun(records: seq<RunRecord>, id: string): Option<RunRecord> {
    if records == [] then None
    else if records[0].runId == id then Some(records[0])
    else FindRun(records[1..], id)
  }

  lemma {:induction false} FindRunIs(records: seq<RunRecord>, id: string)
    ensures FindRun(records, id).Some? ==>
      FindRun(records, id).value in records && FindRun(records, id).value.runId == id
    ensures FindRun(records, id).None? ==> forall r <- records :: r.runId != id
    decreases records
  {
    if records != [] {
      FindRunIs(records[1..], id);
      assert records == [records[0]] + records[1..];
    }
  }

  /** Looking a run up in the ledger gives its latest record. */
  lemma FindsLatest(lines: seq<Line>, id: string)
    ensures FindRun(ReadLedger(lines), id) == Latest(lines, id)
  {
    hide ReadLedger, LatestIn, OnePerRun;
    ReadLedgerIsLatest(lines);
    FindRunIs(ReadLedger(lines), id);
    LatestHasId(Records(lines), id);
  }

  /** A change of status of a terminal run is refused. */
  predicate Refused(current: RunRecord, patch: Patch) {
    Terminal(current.status) && patch.status.Some? && patch.status.value != current.status
  }

  function NewRun(id: string, now: int): RunRecord { RunRecord(id, Queued, now, Detail(None, None, None)) }

  /** What a manager is asked to do to the ledger; each call brings the policy in force and the time. */
  datatype Op =
    | CreateRun(id: string, policy: Policy, now: int)
    | UpdateRun(id: string, patch: Patch, policy: Policy, now: int)
    | PruneRuns(policy: Policy, now: int)

  function Appending(
    disk: Disk, cache: Option<LedgerState>, r: RunRecord, policy: Policy, now: int): (Disk, Option<LedgerState>)
  {
    var (after, state) := Append(disk, cache, r, policy, now);
    (after, Some(state))
  }

  /** What becomes of the ledger and of what is remembered of it. */
  function Do(disk: Disk, cache: Option<LedgerState>, op: Op): (Disk, Option<LedgerState>) {
    match op
    case CreateRun(id, policy, now) => Appending(disk, cache, NewRun(id, now), policy, now)
    case UpdateRun(id, patch, policy, now) =>
      var current := Latest(LedgerLines(disk), id);
      if current.None? || Refused(current.value, patch) then (disk, cache)
      else Appending(disk, cache, Patched(current.value, patch, now), policy, now)
    case PruneRuns(policy, now) =>
      var (after, state) := LedgerProcesses.Prune(disk, cache, policy, now);
      (after, Some(state))
  }

  /** Terminal runs stay as they are, or are pruned. */
  ghost predicate Absorbed(before: seq<Line>, after: seq<Line>) {
    forall id :: Latest(before, id).Some? && Terminal(Latest(before, id).value.status) && Latest(after, id).Some? ==>
      Latest(after, id).value.status == Latest(before, id).value.status
  }

  predicate NoTwice(order: seq<string>) {
    forall i, j :: 0 <= i < j < |order| ==> order[i] != order[j]
  }

  lemma {:induction false} WithoutNoTwice(order: seq<string>, id: string)
    requires NoTwice(order)
    ensures NoTwice(Without(order, id)) && NoTwice(Without(order, id) + [id])
    decreases order
  {
    if order != [] {
      var rest := order[1..];
      assert forall k :: 0 <= k < |rest| ==> rest[k] == order[k + 1];
      WithoutNoTwice(rest, id);
      assert order[0] !in rest;
      var kept := Without(rest, id);
      forall i, j | 0 <= i < j < |[order[0]] + kept| ensures ([order[0]] + kept)[i] != ([order[0]] + kept)[j] {
        assert kept[j - 1] in kept;
      }
      forall k | 0 <= k < |Without(order, id)| ensures Without(order, id)[k] != id {
        assert Without(order, id)[k] in Without(order, id);
      }
    }
  }

  lemma FirstGone(order: seq<string>)
    requires order != [] && NoTwice(order)
    ensures NoTwice(order[1..]) && forall x :: x in order[1..] <==> x in order && x != order[0]
  {
    var rest := order[1..];
    assert order == [order[0]] + rest;
    assert forall k :: 0 <= k < |rest| ==> rest[k] == order[k + 1];
  }

  function Without(order: seq<string>, id: string): (r: seq<string>)
    ensures |r| <= |order| && (id in order ==> |r| < |order|)
    ensures forall x :: x in r <==> x in order && x != id
  {
    if order == [] then []
    else
      assert order == [order[0]] + order[1..];
      (if order[0] == id then [] else [order[0]]) + Without(order[1..], id)
  }

  class RunManager {
    const project: ProjectFiles
    const codec: Codec

    /** Runs this process is working on. */
    var active: set<string>
    /** Last sequence number of logs this process writes. */
    var seqNos: map<string, int>
    var ledger: Option<LedgerState>
    /** Replay cursors, and their keys from the least to the most recently used. */
    var replayCursors: map<string, ReplayCursor>
    var cursorOrder: seq<string>
    var started: nat
    var completed: nat
    var failed: nat
    var cancelled: nat

    /** Runs that entered the waiting state, and runs that were live when this manager started. */
    ghost var parked: nat
    ghost const inherited: nat

    /** Every cache agrees with the files. */
    ghost predicate Valid()
      reads this, project
    {
      && Faithful(codec)
      && Coherent(project.ledger, ledger)
      && Stamped(project.logs, project.logClock)
      && SeqsOk(codec, seqNos, project.logs)
      && CursorsOk(codec, replayCursors, project.logs, project.logClock)
      && replayCursors.Keys == (set id <- cursorOrder) && |cursorOrder| <= RUN_REPLAY_CURSOR_CACHE_SIZE
      && NoTwice(cursorOrder)
    }

    /** Every run that was started is accounted for. */
    ghost predicate Balanced()
      reads this, project
    {
      started + inherited == completed + failed + cancelled + parked + LiveRuns(LedgerLines(project.ledger))
    }

    constructor (project: ProjectFiles, codec: Codec)
      requires Faithful(codec) && Stamped(project.logs, project.logClock) && Coherent(project.ledger, None)
      ensures this.project == project && this.codec == codec
      ensures Valid() && Balanced()
      ensures active == {} && started == completed == failed == cancelled == 0
    {
      this.project, this.codec := project, codec;
      active, seqNos, ledger, replayCursors, cursorOrder := {}, map[], None, map[], [];
      started, completed, failed, cancelled, parked := 0, 0, 0, 0, 0;
      inherited := LiveRuns(LedgerLines(project.ledger));
    }

    // ---- replay -------------------------------------------------------------------------------------------

    /** Where reading starts: at the cursor, if it is for this page of this very file, else at the start. */
    function StartOffset(id: string, afterSeq: int): nat
      reads this, project
    {
      if id in replayCursors && replayCursors[id].afterSeq == afterSeq &&
        replayCursors[id].identity == LogIdentity(project.logs, id)
      then replayCursors[id].offset
      else 0
    }

    /**
     * One page of a run's events: exactly the page a scan of the whole log would give. It is read from the cursor, if
     * that applies, and the cursor moves to the end of the page.
     */
    method EventPage(id: string, afterSeq: int, shortReads: nat -> nat) returns (page: Page)
      requires Valid()
      modifies this`replayCursors, this`cursorOrder
      ensures Valid()
      ensures page ==
        if RunIdOk(id) && afterSeq >= 0 then
          PageOf(Hits(codec, id, LogContent(project.logs, id)), afterSeq, RUN_EVENT_REPLAY_LIMIT)
        else Page([], afterSeq, false)
      ensures
        var start, content := old(StartOffset(id, afterSeq)), LogContent(project.logs, id);
        var offset :=
          if RunIdOk(id) && afterSeq >= 0 then
            OffsetAfter(HitsAt(codec, id, content, afterSeq, start), afterSeq, RUN_EVENT_REPLAY_LIMIT, start)
          else start;
        id in replayCursors &&
        replayCursors[id] == ReplayCursor(page.nextAfterSeq, offset, LogIdentity(project.logs, id))
    {
      hide CursorAt, PageOf, OffsetAfter, Hits, ValidFrom, SeqsOk, RunIdOk, Coherent, Faithful, CursorsOk,
        Stamped, Without;
      var identity := LogIdentity(project.logs, id);
      var startOffset := 0;
      if id in replayCursors && replayCursors[id].afterSeq == afterSeq && replayCursors[id].identity == identity {
        startOffset := replayCursors[id].offset;
      }
      ghost var content := LogContent(project.logs, id);
      StartsAtCursor(codec, replayCursors, project.logs, project.logClock, id, afterSeq, startOffset);
      CursorPage(codec, id, content, afterSeq, startOffset, RUN_EVENT_REPLAY_LIMIT);
      var nextOffset;
      page, nextOffset := ReadRunEventPageAt(
        codec, LogContent(project.logs, id), id, afterSeq, RUN_EVENT_REPLAY_LIMIT, startOffset, shortReads);
      RememberCursor(id, ReplayCursor(page.nextAfterSeq, nextOffset, identity));
    }

    /** Makes a cursor the most recently used one; the least recently used one may go. */
    method RememberCursor(id: string, cursor: ReplayCursor)
      requires Valid()
      requires cursor.identity == LogIdentity(project.logs, id)
      requires CursorAt(codec, id, LogContent(project.logs, id), cursor.afterSeq, cursor.offset)
      modifies this`replayCursors, this`cursorOrder
      ensures Valid()
      ensures id in replayCursors && replayCursors[id] == cursor
      ensures forall other <- replayCursors ::
        other == id || (other in old(replayCursors) && replayCursors[other] == old(replayCursors)[other])
      ensures
        var others := Without(old(cursorOrder), id);
        if |others| < 512 then cursorOrder == others + [id] && replayCursors == old(replayCursors)[id := cursor]
        else
          && cursorOrder == others[1..] + [id]
          && replayCursors == old(replayCursors)[id := cursor] - {others[0]}
    {
      hide CursorAt, CursorsOk, Hits, SeqsOk, Coherent, Faithful, Without, NoTwice;
      WithoutNoTwice(cursorOrder, id);
      CursorsWith(codec, replayCursors, project.logs, project.logClock, id, cursor);
      var others := Without(cursorOrder, id);
      cursorOrder := others + [id];
      replayCursors := replayCursors[id := cursor];
      if |cursorOrder| > RUN_REPLAY_CURSOR_CACHE_SIZE {
        var oldest := cursorOrder[0];
        assert oldest == others[0] && others[0] in others;
        FirstGone(cursorOrder);
        CursorsWithout(codec, replayCursors, project.logs, project.logClock, oldest);
        cursorOrder := cursorOrder[1..];
        replayCursors := replayCursors - {oldest};
      }
    }

    // ---- event frames -------------------------------------------------------------------------------------

    /**
     * The sequence number of the next event. On the first touch of a run the log is repaired and read;
     * later the remembered number is as good.
     */
    method NextSeq(id: string, shortReads: nat -> nat) returns (next: int)
      requires Valid()
      modifies project`logs, project`logClock
      ensures Valid()
      ensures LogBytes(project.logs, id) == Ready(codec, id, seqNos, old(project.logs))
      ensures next == NextNumber(codec, id, seqNos, old(project.logs))
      ensures forall other :: other != id ==> LogContent(project.logs, other) == LogContent(old(project.logs), other)
      ensures Later'(old(project.logs), old(project.logClock), project.logs, project.logClock)
    {
      hide CursorsOk, Hits, Sound, Coherent, LastOf, Faithful, KeptFrom;
      if id in seqNos { return seqNos[id] + 1; }
      ghost var logs, clock := project.logs, project.logClock;
      var file := LogContent(project.logs, id);
      NothingToRepair(codec, id);
      var repaired, rewritten := RepairJsonLines(codec, id, file);
      if rewritten {
        project.WriteLog(id, repaired.bytes);
      }
      OneLogChanged(logs, clock, project.logs, project.logClock, id);
      CursorsSurvive(codec, replayCursors, logs, clock, project.logs, project.logClock);
      HitsOfBytes(codec, id, LogContent(project.logs, id));
      HitsOfBytes(codec, id, Present(Ready(codec, id, seqNos, logs)));
      var last := LastSeq(codec, id, LogContent(project.logs, id), shortReads);
      next := last + 1;
    }

    /**
     * Appends one event to a run's log, numbered one past the last. What readers see of the log then, whatever it
     * held, is said by `AfterAppend`: one more event, the same ones, or one less. After a torn write it is one more.
     */
    method AppendFrame(id: string, frame: string, cacheSequence: bool, shortReads: nat -> nat) returns (r: FrameResult)
      requires Valid()
      modifies this`seqNos, project`logs, project`logClock
      ensures Valid()
      ensures forall other :: other != id ==> LogContent(project.logs, other) == LogContent(old(project.logs), other)
      ensures seqNos - {id} == old(seqNos) - {id}
      ensures
        var ready := Ready(codec, id, old(seqNos), old(project.logs));
        var event := RunEvent(id, NextNumber(codec, id, old(seqNos), old(project.logs)), frame);
        var line := codec.encode(event);
        if |line| > RUN_EVENT_MAX_LINE_BYTES then
          r == TooLarge && LogBytes(project.logs, id) == ready && seqNos == old(seqNos)
        else
          && r == Appended(event) && LogBytes(project.logs, id) == ready + (line + [NL])
          && (id in seqNos <==> cacheSequence) && (cacheSequence ==> seqNos[id] == event.seqNo)
      ensures
        var ready := Ready(codec, id, old(seqNos), old(project.logs));
        ExtendsLog(codec, id, old(project.logs), ready, project.logs, r)
    {
      hide CursorsOk, Hits, ValidFrom, Sound, Recoverable, Coherent, LastOf, Faithful, Later', Ready, NextNumber,
        ExtendsLog, SeqsOk, SeqOk, Appendable, Blocked;
      ghost var first, seqs := project.logs, seqNos;
      var nextSeq := NextSeq(id, shortReads);
      ReadyToExtend(codec, id, seqs, first);
      var event := RunEvent(id, nextSeq, frame);
      var serialized := codec.encode(event);
      if |serialized| > RUN_EVENT_MAX_LINE_BYTES {
        NotExtended(codec, id, seqs, first, project.logs);
        return TooLarge;
      }
      ghost var logs, clock := project.logs, project.logClock;
      project.AppendLog(id, serialized + [NL]);
      Extended(codec, id, seqs, first, project.logs, event);
      OneLogChanged(logs, clock, project.logs, project.logClock, id);
      CursorsSurvive(codec, replayCursors, logs, clock, project.logs, project.logClock);
      SeqsAfterAppend(codec, id, seqNos, logs, seqNos[id := nextSeq], project.logs);
      SeqsAfterAppend(codec, id, seqNos, logs, seqNos - {id}, project.logs);
      if cacheSequence {
        seqNos := seqNos[id := nextSeq];
      } else {
        seqNos := seqNos - {id};
      }
      r := Appended(event);
    }

    // ---- the ledger ---------------------------------------------------------------------------------------

    /** Repairs and recounts the ledger on the first touch, or when another process wrote to it. */
    method EnsureLedger()
      requires Valid()
      modifies this`ledger, project`ledger
      ensures Valid() && ledger.Some?
      ensures (project.ledger, ledger.value) == LedgerProcesses.EnsureLedger(old(project.ledger), old(ledger))
    {
      hide CursorsOk, SeqsOk, Clean, LineCount, Repair, Faithful, Stamped, Records;
      EnsureIsExact(project.ledger, ledger);
      if ledger.None? || ledger.value.identity != Identity(project.ledger) {
        if !Clean(LedgerLines(project.ledger)) {
          project.ledger := Write(project.ledger, Repair(LedgerLines(project.ledger)));
        }
        ledger := Some(LedgerState(LineCount(LedgerLines(project.ledger)), Identity(project.ledger)));
      }
    }

    /**
     * Collapses the ledger to the retained runs, and forgets the others: their event logs are removed, and
     * with them what was remembered about these logs. What is removed is exactly what the ledger lost.
     */
    method CompactLedger(policy: Policy, now: int) returns (result: PruneResult)
      requires Valid() && ledger.Some?
      modifies this`ledger, this`seqNos, this`replayCursors, this`cursorOrder, project`ledger, project`logs
      ensures Valid() && ledger.Some?
      ensures (project.ledger, ledger.value) == LedgerProcesses.CompactLedger(old(project.ledger), policy, now)
      ensures Removed(LedgerLines(old(project.ledger)), LedgerLines(project.ledger), result.removed)
      ensures Forgotten(old(project.logs), project.logs, result.removed)
      ensures forall id <- seqNos :: id in old(seqNos) && id !in result.removed && seqNos[id] == old(seqNos)[id]
      ensures result.kept == LineCount(LedgerLines(project.ledger))
    {
      hide CursorsOk, SeqsOk, Clean, LineCount, Faithful, Stamped, Retained, Compacted, ReadLedger, LatestIn;
      ghost var before := LedgerLines(project.ledger);
      CompactedLatest(before, policy, now, "");
      CompactionBoundsLines(before, policy, now);
      var all := ReadLedger(LedgerLines(project.ledger));
      var retained := Retained(all, policy, now);
      var lines := Compacted(LedgerLines(project.ledger), policy, now);
      CompactedSize(before, policy, now);
      project.ledger := Write(project.ledger, lines);
      ledger := Some(LedgerState(|lines|, Identity(project.ledger)));
      var removed := Forget(all, retained);
      RemovedExactly(before, policy, now, removed);
      result := PruneResult(removed, |retained|);
    }

    method ForgetRun(id: string)
      requires Valid()
      modifies this`seqNos, this`replayCursors, this`cursorOrder, project`logs
      ensures Valid()
      ensures seqNos == old(seqNos) - {id} && project.logs == old(project.logs) - {id}
      ensures replayCursors == old(replayCursors) - {id}
    {
      hide Coherent, Faithful, CursorsOk, SeqsOk, Stamped, NoTwice, Without;
      NothingLeftOf(codec, replayCursors, seqNos, project.logs, project.logClock, id);
      seqNos := seqNos - {id};
      replayCursors := replayCursors - {id};
      WithoutNoTwice(cursorOrder, id);
      cursorOrder := Without(cursorOrder, id);
      project.RemoveLog(id);
    }

    /** Drops what belongs to the runs of `all` that are not retained. */
    method Forget(all: seq<RunRecord>, retained: seq<RunRecord>) returns (removed: seq<string>)
      requires Valid()
      modifies this`seqNos, this`replayCursors, this`cursorOrder, project`logs
      ensures Valid()
      ensures forall id :: id in removed <==>
        (exists r :: r in all && r.runId == id) && forall r <- retained :: r.runId != id
      ensures Forgotten(old(project.logs), project.logs, removed)
      ensures forall id <- seqNos :: id in old(seqNos) && id !in removed && seqNos[id] == old(seqNos)[id]
    {
      hide Valid, Coherent, Faithful, Sound, Hits, SeqsOk, CursorsOk, Stamped;
      removed := [];
      for i := 0 to |all|
        invariant Valid()
        invariant forall id :: id in removed <==>
          (exists r :: r in all[..i] && r.runId == id) && forall r <- retained :: r.runId != id
        invariant Forgotten(old(project.logs), project.logs, removed)
        invariant forall id <- seqNos :: id in old(seqNos) && id !in removed && seqNos[id] == old(seqNos)[id]
      {
        var id := all[i].runId;
        if !(exists r :: r in retained && r.runId == id) {
          ForgetRun(id);
          removed := removed + [id];
        }
      }
      assert all[..|all|] == all;
    }

    /** Appends a record to the ledger, and compacts the ledger once it is long. */
    method AppendRecord(r: RunRecord, policy: Policy, now: int)
      requires Valid()
      modifies this`ledger, this`seqNos, this`replayCursors, this`cursorOrder, project`ledger, project`logs
      ensures Valid()
      ensures ledger.Some?
      ensures (project.ledger, ledger.value) == Append(old(project.ledger), old(ledger), r, policy, now)
      ensures LogsFollowLedger(old(project.logs), project.logs, LedgerLines(project.ledger))
      ensures forall id <- seqNos :: id in old(seqNos) && seqNos[id] == old(seqNos)[id]
    {
      hide CursorsOk, SeqsOk, Clean, LineCount, Faithful, Stamped, LatestIn, Records, Compacted;
      EnsureIsExact(project.ledger, ledger);
      EnsureLedger();
      RecordsAppend(LedgerLines(project.ledger), r);
      project.ledger := Write(project.ledger, LedgerLines(project.ledger) + [Rec(r)]);
      ledger := Some(LedgerState(ledger.value.lines + 1, Identity(project.ledger)));
      if ledger.value.lines > RUNS_LEDGER_COMPACTION_THRESHOLD {
        var _ := CompactLedger(policy, now);
      }
    }

    /** Applies the retention policy now. */
    method Prune(policy: Policy, now: int) returns (result: PruneResult)
      requires Valid()
      modifies this`ledger, this`seqNos, this`replayCursors, this`cursorOrder, project`ledger, project`logs
      ensures Valid() && (old(Balanced()) ==> Balanced())
      ensures (project.ledger, ledger) == Do(old(project.ledger), old(ledger), PruneRuns(policy, now))
      ensures Removed(LedgerLines(old(project.ledger)), LedgerLines(project.ledger), result.removed)
      ensures Forgotten(old(project.logs), project.logs, result.removed)
      ensures Absorbed(LedgerLines(old(project.ledger)), LedgerLines(project.ledger))
      ensures result.kept == LineCount(LedgerLines(project.ledger))
    {
      hide CursorsOk, SeqsOk, Clean, LineCount, Faithful, Stamped, LatestIn, Records, Compacted, LiveRuns, Coherent;
      ghost var before, cache := project.ledger, ledger;
      PruneKeeps(before, cache, policy, now);
      forall id ensures
          var b := Latest(LedgerLines(before), id);
          var a := Latest(LedgerLines(LedgerProcesses.Prune(before, cache, policy, now).0), id);
          (a.Some? ==> a == b) && (IsLive(b) ==> a == b)
      {
        PruneLatest(before, cache, policy, now, id);
      }
      EnsureIsExact(before, cache);
      EnsureLedger();
      SameLatest(LedgerLines(before), LedgerLines(project.ledger));
      result := CompactLedger(policy, now);
    }

    // ---- runs ---------------------------------------------------------------------------------------------

    /** Every run as a reader of the ledger sees it. */
    method Get(id: string) returns (r: Option<RunRecord>)
      requires Valid()
      ensures r == Latest(LedgerLines(project.ledger), id)
    {
      FindsLatest(LedgerLines(project.ledger), id);
      r := FindRun(ReadLedger(LedgerLines(project.ledger)), id);
    }

    /** What an append for `r` means for every run: compaction never loses a live one. */
    twostate predicate OnlyChanged(r: RunRecord)
      reads this, project
    {
      forall id ::
        var expected := if id == r.runId then Some(r) else Latest(LedgerLines(old(project.ledger)), id);
        var after := Latest(LedgerLines(project.ledger), id);
        (after.Some? ==> after == expected) && (IsLive(expected) ==> after == expected)
    }

    /** Appends a record and keeps the count of live runs in step. */
    method Record(r: RunRecord, policy: Policy, now: int)
      requires Valid()
      modifies this`ledger, this`seqNos, this`replayCursors, this`cursorOrder, project`ledger, project`logs
      ensures Valid() && OnlyChanged(r)
      ensures (project.ledger, ledger) == Appending(old(project.ledger), old(ledger), r, policy, now)
      ensures LiveRuns(LedgerLines(project.ledger)) == LiveRuns(LedgerLines(old(project.ledger)))
        + One(IsLiveRun(r)) - One(IsLive(Latest(LedgerLines(old(project.ledger)), r.runId)))
      ensures LineCount(LedgerLines(project.ledger)) <=
        Max(RUNS_LEDGER_COMPACTION_THRESHOLD, LiveRuns(LedgerLines(project.ledger)) + MaxTerminal(policy))
      ensures LogsFollowLedger(old(project.logs), project.logs, LedgerLines(project.ledger))
      ensures forall id <- seqNos :: id in old(seqNos) && seqNos[id] == old(seqNos)[id]
    {
      hide CursorsOk, SeqsOk, Clean, LineCount, Faithful, Stamped, LatestIn, Records, LiveRuns, Append;
      ghost var before, cache := project.ledger, ledger;
      AppendRecord(r, policy, now);
      AppendKeeps(before, cache, r, policy, now);
      forall id ensures
          var expected := if id == r.runId then Some(r) else Latest(LedgerLines(before), id);
          var after := Latest(LedgerLines(project.ledger), id);
          (after.Some? ==> after == expected) && (IsLive(expected) ==> after == expected)
      {
        AppendLatest(before, cache, r, policy, now, id);
      }
    }

    /** Queues a new run. */
    method Create(freshId: string, policy: Policy, now: int) returns (r: RunRecord)
      requires Valid() && Latest(LedgerLines(project.ledger), freshId).None?
      modifies this, project
      ensures Valid() && (old(Balanced()) ==> Balanced())
      ensures r == NewRun(freshId, now)
      ensures (project.ledger, ledger) == Do(old(project.ledger), old(ledger), CreateRun(freshId, policy, now))
      ensures Latest(LedgerLines(project.ledger), freshId) == Some(r) && OnlyChanged(r)
      ensures Absorbed(LedgerLines(old(project.ledger)), LedgerLines(project.ledger))
      ensures started == old(started) + 1 && completed == old(completed) && failed == old(failed)
      ensures cancelled == old(cancelled) && parked == old(parked) && active == old(active)
    {
      hide CursorsOk, SeqsOk, Coherent, Faithful, Stamped, LatestIn, Records, LiveRuns;
      r := NewRun(freshId, now);
      Record(r, policy, now);
      started := started + 1;
    }

    /**
     * Changes a run. An unknown run is left alone; so is a terminal run whose status would change.
     * Entering a terminal state is counted once, and drops what is remembered of the run.
     */
    method Update(id: string, patch: Patch, policy: Policy, now: int) returns (r: Option<RunRecord>)
      requires Valid()
      modifies this, project
      ensures Valid() && (old(Balanced()) ==> Balanced())
      ensures Absorbed(LedgerLines(old(project.ledger)), LedgerLines(project.ledger))
      ensures (project.ledger, ledger) == Do(old(project.ledger), old(ledger), UpdateRun(id, patch, policy, now))
      ensures LogsFollowLedger(old(project.logs), project.logs, LedgerLines(project.ledger))
      ensures
        var current := Latest(LedgerLines(old(project.ledger)), id);
        if current.None? || Refused(current.value, patch) then
          r == current && project.ledger == old(project.ledger) && project.logs == old(project.logs) &&
          seqNos == old(seqNos) && active == old(active) &&
          unchanged(`started, `completed, `failed, `cancelled, `parked)
        else
          && r == Some(Patched(current.value, patch, now)) && Updates(r.value, current.value, patch, now)
          && OnlyChanged(r.value)
          && (Enters(patch) ==> id !in seqNos)
          && active == (if Enters(patch) then old(active) - {id} else old(active))
          && parked == old(parked) + One(IsLive(current) && patch.status == Some(Waiting))
          && started == old(started)
          && completed == old(completed) + One(IsLive(current) && patch.status == Some(Succeeded))
          && failed == old(failed) + One(IsLive(current) && patch.status == Some(Failed))
          && cancelled == old(cancelled) + One(IsLive(current) && patch.status == Some(Cancelled))
    {
      hide CursorsOk, SeqsOk, Coherent, Faithful, Stamped, LatestIn, Records, LiveRuns, LineCount, Append, MaxTerminal,
        LedgerLines, Filter, Values, Updates;
      LatestHasId(Records(LedgerLines(project.ledger)), id);
      var current := Get(id);
      if current.None? { return None; }
      if Terminal(current.value.status) && patch.status.Some? && patch.status.value != current.value.status {
        return current;
      }
      var next := Patched(current.value, patch, now);
      PatchedUpdates(current.value, patch, now);
      Record(next, policy, now);
      if Enters(patch) {
        LeaveWork(id, patch.status.value, IsLiveRun(current.value));
      }
      r := Some(next);
    }

    /** A run entered a terminal state. */
    method LeaveWork(id: string, status: Status, wasLive: bool)
      requires Valid()
      modifies this`active, this`seqNos, this`completed, this`failed, this`cancelled, this`parked
      ensures Valid() && seqNos == old(seqNos) - {id} && active == old(active) - {id}
      ensures completed == old(completed) + One(wasLive && status.Succeeded?)
      ensures failed == old(failed) + One(wasLive && status.Failed?)
      ensures cancelled == old(cancelled) + One(wasLive && status.Cancelled?)
      ensures parked == old(parked) + One(wasLive && status.Waiting?)
    {
      hide Coherent, Faithful, Sound, Hits, CursorsOk;
      active := active - {id};
      seqNos := seqNos - {id};
      if wasLive {
        if status == Succeeded { completed := completed + 1; }
        if status == Failed { failed := failed + 1; }
        if status == Cancelled { cancelled := cancelled + 1; }
        if status == Waiting { parked := parked + 1; }
      }
    }

    /** Takes a run into work. */
    method Start(id: string, policy: Policy, now: int) returns (r: Option<RunRecord>)
      requires Valid()
      modifies this, project
      ensures Valid() && (old(Balanced()) ==> Balanced())
      ensures Absorbed(LedgerLines(old(project.ledger)), LedgerLines(project.ledger))
      ensures (project.ledger, ledger) ==
        Do(old(project.ledger), old(ledger), UpdateRun(id, START_RUNNING, policy, now))
      ensures
        var current := Latest(LedgerLines(old(project.ledger)), id);
        if IsLive(current) then
          r == Some(current.value.(status := Running, updatedAt := now)) && Latest(LedgerLines(project.ledger), id) == r
        else r == current && project.ledger == old(project.ledger)
      ensures active == old(active) + {id}
      ensures unchanged(`started, `completed, `failed, `cancelled)
    {
      hide CursorsOk, SeqsOk, Coherent, Faithful, Stamped, LatestIn, Records, LiveRuns;
      LatestHasId(Records(LedgerLines(project.ledger)), id);
      active := active + {id};
      r := Update(id, START_RUNNING, policy, now);
    }

    /** Cancels a live run, and says so in its event log; the last event's number is then forgotten. */
    method Cancel(id: string, policy: Policy, now: int, shortReads: nat -> nat)
      returns (r: Option<RunRecord>, frame: Option<FrameResult>)
      requires Valid()
      modifies this, project
      ensures Valid() && (old(Balanced()) ==> Balanced())
      ensures Absorbed(LedgerLines(old(project.ledger)), LedgerLines(project.ledger))
      ensures IsLive(Latest(LedgerLines(old(project.ledger)), id)) ==>
        (project.ledger, ledger) == Do(old(project.ledger), old(ledger), UpdateRun(id, CANCELLED_BY_USER, policy, now))
      ensures
        var current := Latest(LedgerLines(old(project.ledger)), id);
        if !IsLive(current) then
          r == current && frame.None? && ledger == old(ledger) && project.ledger == old(project.ledger) &&
          project.logs == old(project.logs)
        else
          && r == Some(Patched(current.value, CANCELLED_BY_USER, now)) && OnlyChanged(r.value)
          && cancelled == old(cancelled) + 1 && id !in active
          && frame.Some? && (frame.value.Appended? ==> id !in seqNos)
          && (Latest(LedgerLines(project.ledger), id).Some? ==>
               ExtendsLog(
                 codec, id, old(project.logs), Ready(codec, id, map[], old(project.logs)), project.logs, frame.value))
    {
      hide CursorsOk, SeqsOk, Coherent, Faithful, Stamped, LatestIn, Records, LiveRuns, Recoverable, Hits,
        Sound, LastOf, ExtendsLog, Do;
      r := Get(id);
      frame := None;
      if r.None? || !IsLiveRun(r.value) { return; }
      LatestHasId(Records(LedgerLines(project.ledger)), id);
      ghost var logs := project.logs;
      r := Update(id, CANCELLED_BY_USER, policy, now);
      ghost var between := project.logs;
      var appended := AppendFrame(id, CANCELLED_FRAME, false, shortReads);
      frame := Some(appended);
      if Latest(LedgerLines(project.ledger), id).Some? {
        assert LogBytes(between, id) == LogBytes(logs, id);
        SameLogSame(codec, id, logs, between, project.logs, appended);
      }
    }
  }

  lemma SameLogSame(
    c: Codec, id: string, logs: map<string, LogFile>, same: map<string, LogFile>, after: map<string, LogFile>,
      r: FrameResult)
    requires LogContent(logs, id) == LogContent(same, id)
    requires ExtendsLog(c, id, same, Ready(c, id, map[], same), after, r)
    ensures ExtendsLog(c, id, logs, Ready(c, id, map[], logs), after, r)
  {
    hide Hits, Recoverable, Appendable, Repaired;
  }

  const START_RUNNING := Patch(Some(Running), None, None, None)
  const CANCELLED_BY_USER := Patch(Some(Cancelled), None, None, Some("cancelled by user"))
  const CANCELLED_FRAME: string := "error: cancelled by user"

  predicate Enters(patch: Patch) {
    patch.status.Some? && Terminal(patch.status.value)
  }

  /** What a reader of the ledger lost. */
  ghost predicate Removed(before: seq<Line>, after: seq<Line>, removed: seq<string>) {
    forall id :: id in removed <==> Latest(before, id).Some? && Latest(after, id).None?
  }

  ghost predicate Forgotten(logs: map<string, LogFile>, logs': map<string, LogFile>, removed: seq<string>) {
    logs' == map id | id in logs && id !in removed :: logs[id]
  }

  /** No log of a run that is still in the ledger is touched. */
  ghost predicate LogsFollowLedger(logs: map<string, LogFile>, logs': map<string, LogFile>, after: seq<Line>) {
    && (forall id <- logs' :: id in logs && logs'[id] == logs[id])
    && (forall id <- logs :: Latest(after, id).Some? ==> id in logs')
  }

  lemma SameLatest(a: seq<Line>, b: seq<Line>)
    requires Records(a) == Records(b)
    ensures forall id :: Latest(a, id) == Latest(b, id)
  {
  }

  lemma CompactedSize(lines: seq<Line>, policy: Policy, now: int)
    ensures |Compacted(lines, policy, now)| == |Retained(ReadLedger(lines), policy, now)|
  {
    hide Retained, ReadLedger;
    var retained := Retained(ReadLedger(lines), policy, now);
    SortKeeps(retained, UpdatedAt);
    assert |SortBy(retained, UpdatedAt)| == |multiset(SortBy(retained, UpdatedAt))| == |multiset(retained)|;
  }

  /** The runs of the ledger that compaction does not retain are those it loses. */
  lemma RemovedExactly(lines: seq<Line>, policy: Policy, now: int, removed: seq<string>)
    requires forall id :: id in removed <==>
      (exists r :: r in ReadLedger(lines) && r.runId == id) &&
      forall r <- Retained(ReadLedger(lines), policy, now) :: r.runId != id
    ensures Removed(lines, Compacted(lines, policy, now), removed)
  {
    hide Retained, ReadLedger, Compacted, LatestIn, Records, OnePerRun;
    ReadLedgerIsLatest(lines);
    forall id ensures id in removed <==> Latest(lines, id).Some? && Latest(Compacted(lines, policy, now), id).None? {
      CompactedLatest(lines, policy, now, id);
      LatestHasId(Records(lines), id);
      var after := Latest(Compacted(lines, policy, now), id);
      if after.Some? { LatestHasId(Records(lines), id); }
    }
  }

  /**
   * What an append to `ready`, the log after repair, makes of the events of `before`. Repair loses no event that was
   * seen; the append does what `AfterAppend` says, numbered one past the last event seen unless the log is blocked.
   * A log with a torn end is sound after repair, and an append to a sound log adds exactly its event.
   */
  ghost predicate ExtendsLog(
    c: Codec, id: string, before: map<string, LogFile>, ready: Bytes, after: map<string, LogFile>, r: FrameResult)
  {
    var was := Events(Hits(c, id, LogContent(before, id)));
    var kept := Hits(c, id, Present(ready));
    var now := Hits(c, id, LogContent(after, id));
    && was <= Events(kept)
    && (Recoverable(c, id, LogBytes(before, id), 0, 0) && ready == Repaired(c, id, LogBytes(before, id)) ==>
         was == Events(kept) && Sound(c, id, ready, 0, 0))
    && (r.TooLarge? ==> now == kept)
    && (r.Appended? ==>
         && (Blocked(c, id, ready, 0, 0) || r.event.seqNo == LastOf(kept, 0) + 1)
         && now == AfterAppend(c, id, ready, 0, 0, r.event)
         && (Sound(c, id, ready, 0, 0) && Safe(r.event) ==> Events(now) == Events(kept) + [r.event]))
  }

  lemma NothingToRepair(c: Codec, id: string)
    ensures Repaired(c, id, []) == []
  {
  }

  lemma HitsOfBytes(c: Codec, id: string, file: Content)
    ensures Hits(c, id, file) == ValidFrom(c, id, if file.Absent? then [] else file.bytes, 0, 0)
  {
    NothingIsSound(c, id);
  }

  /** A log that an event is appended to is blocked, or holds only white space and next events; and what it had. */
  lemma ReadyToExtend(c: Codec, id: string, seqs: map<string, int>, logs: map<string, LogFile>)
    requires SeqsOk(c, seqs, logs)
    ensures
      var b, ready := LogBytes(logs, id), Ready(c, id, seqs, logs);
      && (Blocked(c, id, ready, 0, 0) ||
          (!KeptFrom(c, id, ready, 0, 0).invalid &&
           NextNumber(c, id, seqs, logs) == LastOf(ValidFrom(c, id, ready, 0, 0), 0) + 1))
      && Events(ValidFrom(c, id, b, 0, 0)) <= Events(ValidFrom(c, id, ready, 0, 0))
      && (Recoverable(c, id, b, 0, 0) && ready == Repaired(c, id, b) ==>
           && Events(ValidFrom(c, id, b, 0, 0)) == Events(ValidFrom(c, id, ready, 0, 0))
           && Sound(c, id, ready, 0, 0))
  {
    hide ValidFrom, Sound, Recoverable, KeptFrom, Repaired, Events, Blocked;
    var b := LogBytes(logs, id);
    HitsOfBytes(c, id, LogContent(logs, id));
    HitsOfBytes(c, id, Present(Ready(c, id, seqs, logs)));
    if Recoverable(c, id, b, 0, 0) {
      RecoverableIsWithin(c, id, b, 0, 0);
      RepairKeepsEvents(c, id, b);
    }
    if id in seqs {
      assert SeqOk(c, id, seqs[id], LogContent(logs, id));
      if Sound(c, id, b, 0, 0) { SoundIsAppendable(c, id, b, 0, 0, 0); }
    } else {
      RepairedIsKept(c, id, b);
      RepairLosesNothing(c, id, b);
    }
  }

  lemma NotExtended(
    c: Codec, id: string, seqs: map<string, int>, logs: map<string, LogFile>, after: map<string, LogFile>)
    requires SeqsOk(c, seqs, logs) && LogBytes(after, id) == Ready(c, id, seqs, logs)
    ensures ExtendsLog(c, id, logs, Ready(c, id, seqs, logs), after, TooLarge)
  {
    hide ValidFrom, Sound, Recoverable, KeptFrom, Ready, NextNumber, Events, Hits, Appendable, Blocked, SeqsOk,
      Repaired;
    ReadyToExtend(c, id, seqs, logs);
    HitsOfBytes(c, id, LogContent(logs, id));
    HitsOfBytes(c, id, LogContent(after, id));
    HitsOfBytes(c, id, Present(Ready(c, id, seqs, logs)));
  }

  lemma Extended(
    c: Codec, id: string, seqs: map<string, int>, logs: map<string, LogFile>, after: map<string, LogFile>, e: RunEvent)
    requires Faithful(c) && SeqsOk(c, seqs, logs)
    requires e.runId == id && e.seqNo == NextNumber(c, id, seqs, logs) && |c.encode(e)| <= RUN_EVENT_MAX_LINE_BYTES
    requires LogBytes(after, id) == Ready(c, id, seqs, logs) + (c.encode(e) + [NL])
    ensures ExtendsLog(c, id, logs, Ready(c, id, seqs, logs), after, Appended(e))
    ensures SeqOk(c, id, e.seqNo, LogContent(after, id))
  {
    hide ValidFrom, Sound, Recoverable, KeptFrom, Ready, NextNumber, Events, Hits, Appendable, Faithful, SeqsOk, LastOf,
      Blocked, EndsInEvent, Repaired;
    var ready := Ready(c, id, seqs, logs);
    ReadyToExtend(c, id, seqs, logs);
    HitsOfBytes(c, id, LogContent(logs, id));
    HitsOfBytes(c, id, LogContent(after, id));
    HitsOfBytes(c, id, Present(ready));
    if !Blocked(c, id, ready, 0, 0) { FollowsLast(c, id, ready, e); }
    AppendOutcome(c, id, ready, 0, 0, e);
    if Sound(c, id, ready, 0, 0) {
      SoundIsAppendable(c, id, ready, 0, 0, |c.encode(e)|);
      BlockedIsNotAppendable(c, id, ready, 0, 0, |c.encode(e)|);
    }
    var hits, added := ValidFrom(c, id, ready, 0, 0), Hit(e, |ready + (c.encode(e) + [NL])|);
    OneMoreEvent(hits, added);
  }

  lemma FollowsLast(c: Codec, id: string, b: Bytes, e: RunEvent)
    requires e.runId == id && e.seqNo == LastOf(ValidFrom(c, id, b, 0, 0), 0) + 1
    ensures Follows(id, e, LastOf(ValidFrom(c, id, b, 0, 0), 0))
  {
    hide ValidFrom;
    SeqsIncrease(c, id, b, 0, 0);
  }

  lemma OneMoreEvent(hits: seq<Hit>, added: Hit)
    ensures Events(hits + [added]) == Events(hits) + [added.event] && LastOf(hits + [added], 0) == added.event.seqNo
  {
  }

  /** Numbers remembered of other logs are not affected. */
  lemma SeqsAfterAppend(
    c: Codec, id: string, seqs: map<string, int>, logs: map<string, LogFile>, seqs': map<string, int>,
    logs': map<string, LogFile>)
    requires SeqsOk(c, seqs, logs) && seqs' - {id} == seqs - {id}
    requires forall other :: other != id ==> LogContent(logs', other) == LogContent(logs, other)
    requires id in seqs' ==> SeqOk(c, id, seqs'[id], LogContent(logs', id))
    ensures SeqsOk(c, seqs', logs')
  {
    hide SeqOk;
    forall other | other in seqs' ensures SeqOk(c, other, seqs'[other], LogContent(logs', other)) {
      if other != id {
        assert other in seqs' - {id};
        assert (seqs' - {id})[other] == (seqs - {id})[other];
      }
    }
  }

  lemma OneLogChanged(logs: map<string, LogFile>, clock: nat, logs': map<string, LogFile>, clock': nat, id: string)
    requires (logs' == logs && clock' == clock) || (clock' == clock + 1 && id in logs' &&
      logs' == logs[id := LogFile(logs'[id].bytes, clock')])
    ensures Later'(logs, clock, logs', clock')
  {
  }

  lemma AtStart(c: Codec, id: string, file: Content, after: int)
    ensures CursorAt(c, id, file, after, 0)
  {
  }

  lemma AbsentOffset(c: Codec, id: string, file: Content, after: int, offset: nat)
    ensures CursorAt(c, id, file, after, offset) && file.Absent? ==> offset == 0
  {
  }

  /** A cursor that is used lies just past the event it names. */
  lemma StartsAtCursor(
    c: Codec, cursors: map<string, ReplayCursor>, logs: map<string, LogFile>, clock: nat, id: string,
      after: int, start: nat)
    requires CursorsOk(c, cursors, logs, clock)
    requires start == 0 ||
      (id in cursors && cursors[id].afterSeq == after && cursors[id].identity == LogIdentity(logs, id) &&
       cursors[id].offset == start)
    ensures CursorAt(c, id, LogContent(logs, id), after, start)
  {
    AtStart(c, id, LogContent(logs, id), after);
  }
}
