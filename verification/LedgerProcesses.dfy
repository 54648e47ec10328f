/** The run ledger shared by several server processes, step by step (apps/server/src/run-ledger.ts). */
module LedgerProcesses {
  import opened Basics
  import opened Options
  import opened Sorting
  import opened RunLedger

  /** The ledger file and the stamp of its last write: two different contents never share a stamp. */
  datatype File = File(lines: seq<Line>, stamp: nat)
  datatype Disk = Disk(file: Option<File>, clock: nat)

  /** What one process remembers of the ledger: a line count, and the identity of the file it counted. */
  datatype LedgerState = LedgerState(lines: nat, identity: Option<nat>)

  function Identity(disk: Disk): Option<nat> {
    if disk.file.None? then None else Some(disk.file.value.stamp)
  }

  function LedgerLines(disk: Disk): seq<Line> {
    if disk.file.None? then [] else disk.file.value.lines
  }

  /** Any write gives the file a new identity. */
  function Write(disk: Disk, lines: seq<Line>): Disk {
    Disk(Some(File(lines, disk.clock + 1)), disk.clock + 1)
  }

  /** Trusts the remembered count while the file is the one that was counted; else repairs and recounts. */
  function EnsureLedger(disk: Disk, cache: Option<LedgerState>): (Disk, LedgerState) {
    if cache.Some? && cache.value.identity == Identity(disk) then (disk, cache.value)
    else
      var repaired := if Clean(LedgerLines(disk)) then disk else Write(disk, Repair(LedgerLines(disk)));
      (repaired, LedgerState(LineCount(LedgerLines(repaired)), Identity(repaired)))
  }

  /** Collapses the log to the retained runs. */
  function CompactLedger(disk: Disk, policy: Policy, now: int): (Disk, LedgerState) {
    var lines := Compacted(LedgerLines(disk), policy, now);
    var written := Write(disk, lines);
    (written, LedgerState(|lines|, Identity(written)))
  }

  /** After a write that makes the count `lines`, compact once the log is long. */
  function Counted(written: Disk, lines: nat, policy: Policy, now: int): (Disk, LedgerState) {
    if lines > RUNS_LEDGER_COMPACTION_THRESHOLD then CompactLedger(written, policy, now)
    else (written, LedgerState(lines, Identity(written)))
  }

  /** One append under the ledger lease: repair if needed, append, and compact once the log is long. */
  function Append(disk: Disk, cache: Option<LedgerState>, r: RunRecord, policy: Policy, now: int): (Disk, LedgerState) {
    var (ensured, state) := EnsureLedger(disk, cache);
    Counted(Write(ensured, LedgerLines(ensured) + [Rec(r)]), state.lines + 1, policy, now)
  }

  /** One prune under the ledger lease. */
  function Prune(disk: Disk, cache: Option<LedgerState>, policy: Policy, now: int): (Disk, LedgerState) {
    CompactLedger(EnsureLedger(disk, cache).0, policy, now)
  }

  /** A remembered count is exact whenever the file is still the one it was taken from. */
  ghost predicate Coherent(disk: Disk, cache: Option<LedgerState>) {
    && (disk.file.Some? ==> disk.file.value.stamp <= disk.clock)
    && (cache.Some? ==>
         && (cache.value.identity.Some? ==> cache.value.identity.value <= disk.clock)
         && (cache.value.identity == Identity(disk) ==>
              Clean(LedgerLines(disk)) && cache.value.lines == LineCount(LedgerLines(disk))))
  }

  /** The ledger a process works on: nothing to repair, exactly counted, and with every record it had. */
  lemma EnsureIsExact(disk: Disk, cache: Option<LedgerState>)
    requires Coherent(disk, cache)
    ensures
      var (ensured, state) := EnsureLedger(disk, cache);
      && Clean(LedgerLines(ensured)) && Records(LedgerLines(ensured)) == Records(LedgerLines(disk))
      && state == LedgerState(LineCount(LedgerLines(ensured)), Identity(ensured))
      && disk.clock <= ensured.clock && (ensured.file.Some? ==> ensured.file.value.stamp <= ensured.clock)
      && (ensured == disk || (ensured.clock > disk.clock && Identity(ensured) == Some(ensured.clock)))
  {
    RepairKeepsRecords(LedgerLines(disk));
  }

  /** An append adds its record, and keeps every other live run and every record compaction retains. */
  lemma AppendKeeps(disk: Disk, cache: Option<LedgerState>, r: RunRecord, policy: Policy, now: int)
    requires Coherent(disk, cache)
    ensures
      var (after, state) := Append(disk, cache, r, policy, now);
      && after.clock > disk.clock && Identity(after) == Some(after.clock)
      && Clean(LedgerLines(after)) && state == LedgerState(LineCount(LedgerLines(after)), Identity(after))
      && LineCount(LedgerLines(after)) <=
         Max(RUNS_LEDGER_COMPACTION_THRESHOLD, LiveRuns(LedgerLines(after)) + MaxTerminal(policy))
      && LiveRuns(LedgerLines(after)) ==
         LiveRuns(LedgerLines(disk)) + One(IsLiveRun(r)) - One(IsLive(Latest(LedgerLines(disk), r.runId)))
  {
    hide Clean, Repair, Records, Compacted, LineCount, LiveRuns, Latest;
    var (ensured, state) := EnsureLedger(disk, cache);
    EnsureIsExact(disk, cache);
    var lines := LedgerLines(ensured) + [Rec(r)];
    RecordsAppend(LedgerLines(ensured), r);
    LiveRunsAppend(LedgerLines(ensured), r);
    SameRecords(LedgerLines(disk), LedgerLines(ensured), r.runId);
    CompactedLatest(lines, policy, now, r.runId);
    CompactionBoundsLines(lines, policy, now);
    CompactionKeepsLiveRuns(lines, policy, now);
  }

  lemma SameRecords(a: seq<Line>, b: seq<Line>, id: string)
    requires Records(a) == Records(b)
    ensures Latest(a, id) == Latest(b, id) && LiveRuns(a) == LiveRuns(b)
  {
  }

  /** What an append does to the run `id` as readers see it. */
  lemma AppendLatest(disk: Disk, cache: Option<LedgerState>, r: RunRecord, policy: Policy, now: int, id: string)
    requires Coherent(disk, cache)
    ensures
      var expected := if id == r.runId then Some(r) else Latest(LedgerLines(disk), id);
      var after := Latest(LedgerLines(Append(disk, cache, r, policy, now).0), id);
      && (after.Some? ==> after == expected)
      && (IsLive(expected) ==> after == expected)
  {
    hide Clean, Repair, Records, Compacted, LineCount, LatestIn;
    var (ensured, state) := EnsureLedger(disk, cache);
    EnsureIsExact(disk, cache);
    RecordsAppend(LedgerLines(ensured), r);
    LatestAppend(Records(LedgerLines(ensured)), r, id);
    CompactionLosesNoLiveRun(LedgerLines(ensured) + [Rec(r)], policy, now, id);
  }

  lemma PruneKeeps(disk: Disk, cache: Option<LedgerState>, policy: Policy, now: int)
    requires Coherent(disk, cache)
    ensures
      var (after, state) := Prune(disk, cache, policy, now);
      && after.clock > disk.clock && Identity(after) == Some(after.clock)
      && Clean(LedgerLines(after)) && state == LedgerState(LineCount(LedgerLines(after)), Identity(after))
      && LineCount(LedgerLines(after)) <= LiveRuns(LedgerLines(after)) + MaxTerminal(policy)
      && LiveRuns(LedgerLines(after)) == LiveRuns(LedgerLines(disk))
  {
    hide Clean, Repair, Records, Compacted, LineCount, LiveRuns;
    var (ensured, state) := EnsureLedger(disk, cache);
    EnsureIsExact(disk, cache);
    SameRecords(LedgerLines(disk), LedgerLines(ensured), "");
    CompactedLatest(LedgerLines(ensured), policy, now, "");
    CompactionBoundsLines(LedgerLines(ensured), policy, now);
    CompactionKeepsLiveRuns(LedgerLines(ensured), policy, now);
  }

  lemma PruneLatest(disk: Disk, cache: Option<LedgerState>, policy: Policy, now: int, id: string)
    requires Coherent(disk, cache)
    ensures
      var before, after := Latest(LedgerLines(disk), id), Latest(LedgerLines(Prune(disk, cache, policy, now).0), id);
      && (after.Some? ==> after == before)
      && (IsLive(before) ==> after == before)
  {
    hide Clean, Repair, Records, Compacted, LineCount, LatestIn;
    var (ensured, state) := EnsureLedger(disk, cache);
    EnsureIsExact(disk, cache);
    SameRecords(LedgerLines(disk), LedgerLines(ensured), id);
    CompactionLosesNoLiveRun(LedgerLines(ensured), policy, now, id);
  }

  // ---- many processes -------------------------------------------------------------------------------------

  type Pid = nat

  /** The disk, whether its last line lacks its newline, and what each process remembers of it. */
  datatype World = World(disk: Disk, open: bool, caches: map<Pid, LedgerState>)

  datatype Step =
    | AppendStep(p: Pid, record: RunRecord, policy: Policy, now: int)
    | PruneStep(p: Pid, policy: Policy, now: int)
    /** A process dies in an append: it has written part of the record, or all of it but the newline. */
    | TornWrite(p: Pid, left: Line)
    /** A process starts again, remembering nothing. */
    | Restart(p: Pid)

  function CacheOf(w: World, p: Pid): Option<LedgerState> {
    if p in w.caches then Some(w.caches[p]) else None
  }

  predicate Allowed(step: Step) {
    step.TornWrite? ==> !step.left.Blank?
  }

  /** What a process appends would join a line that lacks its newline: repair finds nothing wrong with that line. */
  predicate Joins(w: World, p: Pid) {
    w.open && LedgerLines(w.disk) != [] && EnsureLedger(w.disk, CacheOf(w, p)).0 == w.disk
  }

  /** A record that is joined to another does not parse. */
  function Joined(lines: seq<Line>): seq<Line>
    requires lines != []
  {
    lines[..|lines| - 1] + [Bad]
  }

  /** Leased steps are atomic; steps of different processes interleave in any order. */
  function Next(w: World, step: Step): World {
    match step
    case AppendStep(p, r, policy, now) =>
      var (disk, state) := if Joins(w, p) then AppendJoined(w.disk, CacheOf(w, p), policy, now)
        else Append(w.disk, CacheOf(w, p), r, policy, now);
      World(disk, false, w.caches[p := state])
    case PruneStep(p, policy, now) =>
      var (disk, state) := Prune(w.disk, CacheOf(w, p), policy, now);
      World(disk, false, w.caches[p := state])
    case TornWrite(p, left) =>
      var ensured := EnsureLedger(w.disk, CacheOf(w, p)).0;
      var lines := if Joins(w, p) then Joined(LedgerLines(w.disk)) else LedgerLines(ensured) + [left];
      World(Write(ensured, lines), true, w.caches - {p})
    case Restart(p) => w.(caches := w.caches - {p})
  }

  /** An append that joins the last line: the process counts a line more. */
  function AppendJoined(disk: Disk, cache: Option<LedgerState>, policy: Policy, now: int): (Disk, LedgerState)
    requires LedgerLines(disk) != []
  {
    Counted(Write(disk, Joined(LedgerLines(disk))), EnsureLedger(disk, cache).1.lines + 1, policy, now)
  }

  /** Every process's remembered count is exact while it applies. */
  ghost predicate AllCoherent(w: World) {
    forall p: Pid :: Coherent(w.disk, CacheOf(w, p))
  }

  /** The ledger needs no repair, and its last line lacks its newline. */
  predicate Unended(w: World) {
    w.open && LedgerLines(w.disk) != [] && Clean(LedgerLines(w.disk))
  }

  lemma JoinsIffUnended(w: World, p: Pid)
    requires Coherent(w.disk, CacheOf(w, p))
    ensures Joins(w, p) <==> Unended(w)
  {
    hide Clean, LineCount, Repair;
  }

  lemma NextCoherent(w: World, step: Step)
    requires AllCoherent(w) && (step.AppendStep? ==> !Unended(w))
    ensures AllCoherent(Next(w, step))
  {
    hide Append, Prune, Clean, LineCount, EnsureLedger, Joins, Unended, Coherent;
    var w' := Next(w, step);
    match step
    case AppendStep(p, r, policy, now) =>
      assert Coherent(w.disk, CacheOf(w, p));
      JoinsIffUnended(w, p);
      AppendKeeps(w.disk, CacheOf(w, p), r, policy, now);
      StaleElsewhere(w, w', p);
    case PruneStep(p, policy, now) =>
      assert Coherent(w.disk, CacheOf(w, p));
      PruneKeeps(w.disk, CacheOf(w, p), policy, now);
      StaleElsewhere(w, w', p);
    case TornWrite(p, left) =>
      assert Coherent(w.disk, CacheOf(w, p));
      EnsureIsExact(w.disk, CacheOf(w, p));
      forall q: Pid ensures Coherent(w'.disk, CacheOf(w', q)) {
        assert Coherent(w.disk, CacheOf(w, q));
        Stale(w.disk, w'.disk, CacheOf(w, q));
      }
    case Restart(p) =>
      forall q: Pid ensures Coherent(w'.disk, CacheOf(w', q)) {
        assert Coherent(w.disk, CacheOf(w, q));
        Forgets(w.disk, CacheOf(w, q));
      }
  }

  /** A write makes what was remembered before it stale, never wrong. */
  lemma Stale(disk: Disk, disk': Disk, cache: Option<LedgerState>)
    requires Coherent(disk, cache) && disk'.clock > disk.clock && Identity(disk') == Some(disk'.clock)
    ensures Coherent(disk', cache) && Coherent(disk', None)
  {
    hide Clean, LineCount;
  }

  lemma Forgets(disk: Disk, cache: Option<LedgerState>)
    requires Coherent(disk, cache)
    ensures Coherent(disk, None)
  {
    hide Clean, LineCount;
  }

  /** A write by one process makes what the others remember stale, never wrong. */
  lemma StaleElsewhere(w: World, w': World, p: Pid)
    requires AllCoherent(w)
    requires w'.disk.clock > w.disk.clock && Identity(w'.disk) == Some(w'.disk.clock)
    requires p in w'.caches && Clean(LedgerLines(w'.disk))
    requires w'.caches[p] == LedgerState(LineCount(LedgerLines(w'.disk)), Identity(w'.disk))
    requires w'.caches == w.caches[p := w'.caches[p]]
    ensures AllCoherent(w')
  {
    hide Clean, LineCount;
    forall q: Pid ensures Coherent(w'.disk, CacheOf(w', q)) {
      assert Coherent(w.disk, CacheOf(w, q));
    }
  }

  /** Readers see no change from text that is no record after the valid prefix. */
  lemma {:induction false} TornTailUnseen(lines: seq<Line>, tail: seq<Line>)
    requires tail != [] && tail[0].Bad?
    ensures Records(lines + tail) == Records(lines)
    decreases lines
  {
    if lines == [] {
      assert lines + tail == tail;
    } else {
      assert (lines + tail)[0] == lines[0] && (lines + tail)[1..] == lines[1..] + tail;
      TornTailUnseen(lines[1..], tail);
    }
  }

  /** The record a step writes whole. */
  function WrittenBy(step: Step): Option<RunRecord> {
    match step
    case AppendStep(_, r, _, _) => Some(r)
    case TornWrite(_, left) => if left.Rec? then Some(left.record) else None
    case _ => None
  }

  /** The record of run `id` after a step that writes it, or leaves it. */
  function Following(step: Step, id: string, before: Option<RunRecord>): Option<RunRecord> {
    if WrittenBy(step).Some? && WrittenBy(step).value.runId == id then WrittenBy(step) else before
  }

  /** A step that writes to the end of a ledger that lacks its last newline. */
  predicate Joining(w: World, step: Step) {
    (step.AppendStep? || step.TornWrite?) && Unended(w)
  }

  /**
   * One step: a run changes only by a record written for it, and disappears only by compaction and only when terminal.
   */
  lemma StepKeepsRuns(w: World, step: Step, id: string)
    requires AllCoherent(w) && Allowed(step) && !Joining(w, step)
    ensures
      var expected := Following(step, id, Latest(LedgerLines(w.disk), id));
      var after := Latest(LedgerLines(Next(w, step).disk), id);
      && (after.Some? ==> after == expected)
      && (IsLive(expected) ==> after == expected)
  {
    hide Append, Prune, LatestIn, Records, Coherent, Joins, Unended;
    match step
    case AppendStep(p, r, policy, now) =>
      assert Coherent(w.disk, CacheOf(w, p));
      JoinsIffUnended(w, p);
      AppendLatest(w.disk, CacheOf(w, p), r, policy, now, id);
    case PruneStep(p, policy, now) =>
      assert Coherent(w.disk, CacheOf(w, p));
      PruneLatest(w.disk, CacheOf(w, p), policy, now, id);
    case TornWrite(p, left) =>
      assert Coherent(w.disk, CacheOf(w, p));
      JoinsIffUnended(w, p);
      TornKeeps(w.disk, CacheOf(w, p), left, id);
    case Restart(p) =>
  }

  lemma TornKeeps(disk: Disk, cache: Option<LedgerState>, left: Line, id: string)
    requires Coherent(disk, cache) && !left.Blank?
    ensures
      var ensured := LedgerLines(EnsureLedger(disk, cache).0);
      && Clean(ensured)
      && Latest(ensured + [left], id) ==
         if left.Rec? && left.record.runId == id then Some(left.record) else Latest(LedgerLines(disk), id)
  {
    hide EnsureLedger, LatestIn, Records, Clean, LineCount;
    EnsureIsExact(disk, cache);
    var ensured := LedgerLines(EnsureLedger(disk, cache).0);
    if left.Rec? {
      RecordsAppend(ensured, left.record);
      LatestAppend(Records(ensured), left.record, id);
    } else {
      TornTailUnseen(ensured, [left]);
    }
  }

  function Run(w: World, steps: seq<Step>): World
    decreases steps
  {
    if steps == [] then w else Run(Next(w, steps[0]), steps[1..])
  }

  /** The last record written whole for `id`; `before` when there is none. */
  function LastAppended(steps: seq<Step>, id: string, before: Option<RunRecord>): Option<RunRecord>
    decreases steps
  {
    if steps == [] then before else LastAppended(steps[1..], id, Following(steps[0], id, before))
  }

  /** The states a run goes through: before any step, and after each record for it. */
  predicate AlwaysLive(steps: seq<Step>, id: string, before: Option<RunRecord>)
    decreases steps
  {
    IsLive(before) && (steps != [] ==> AlwaysLive(steps[1..], id, Following(steps[0], id, before)))
  }

  /** Whether a step leaves a record that lacks only its newline. */
  predicate LeavesUnended(step: Step, unended: bool) {
    if step.Restart? then unended else step.TornWrite? && step.left.Rec?
  }

  /** No process writes to the ledger next after one died with all of its record written but the newline. */
  predicate Apart(steps: seq<Step>, unended: bool)
    decreases steps
  {
    steps == [] ||
    ((steps[0].AppendStep? || steps[0].TornWrite? ==> !unended) &&
     Apart(steps[1..], LeavesUnended(steps[0], unended)))
  }

  lemma UnendedNext(w: World, step: Step)
    requires AllCoherent(w) && Allowed(step) && !Joining(w, step)
    ensures Unended(Next(w, step)) <==> LeavesUnended(step, Unended(w))
  {
    hide Append, Prune, LineCount, EnsureLedger, Coherent;
    if step.TornWrite? {
      assert Coherent(w.disk, CacheOf(w, step.p));
      EnsureIsExact(w.disk, CacheOf(w, step.p));
      JoinsIffUnended(w, step.p);
    }
  }

  /**
   * Over any interleaving of appends, prunes, torn writes and restarts of any number of processes in which no write
   * joins an unended record: what a reader sees of a run is the last record written for it, as long as the run was
   * live throughout; and every remembered count stays exact.
   */
  lemma {:induction false} RunsAreNeverLost(w: World, steps: seq<Step>, id: string, before: Option<RunRecord>)
    requires AllCoherent(w) && (forall step <- steps :: Allowed(step)) && Apart(steps, Unended(w))
    requires before == Latest(LedgerLines(w.disk), id)
    ensures AllCoherent(Run(w, steps))
    ensures AlwaysLive(steps, id, before) ==>
      Latest(LedgerLines(Run(w, steps).disk), id) == LastAppended(steps, id, before)
    decreases steps
  {
    hide AllCoherent, Next, Latest, Unended;
    if steps != [] {
      var first := steps[0];
      assert first in steps;
      NextCoherent(w, first);
      StepKeepsRuns(w, first, id);
      UnendedNext(w, first);
      RunsAreNeverLost(Next(w, first), steps[1..], id, Latest(LedgerLines(Next(w, first).disk), id));
      if AlwaysLive(steps, id, before) { LiveNow(steps[1..], id, Following(first, id, before)); }
    }
  }

  lemma LiveNow(steps: seq<Step>, id: string, before: Option<RunRecord>)
    requires AlwaysLive(steps, id, before)
    ensures IsLive(before)
  {
  }

  // ---- a record without its newline -----------------------------------------------------------------------

  /** Readers of a joined ledger see what stood before its last line. */
  lemma JoinedUnseen(lines: seq<Line>)
    requires lines != []
    ensures Records(Joined(lines)) == Records(lines[..|lines| - 1]) && !Clean(Joined(lines))
  {
    TornTailUnseen(lines[..|lines| - 1], [Bad]);
    assert Bad in Joined(lines);
  }

  /** What compaction after a write may take from what readers see. */
  lemma CountedLatest(written: Disk, lines: nat, policy: Policy, now: int, id: string)
    ensures
      var before, after := Latest(LedgerLines(written), id),
        Latest(LedgerLines(Counted(written, lines, policy, now).0), id);
      && (after.Some? ==> after == before)
      && (IsLive(before) ==> after == before)
  {
    hide LatestIn, Records, Compacted;
    CompactionLosesNoLiveRun(LedgerLines(written), policy, now, id);
  }

  /**
   * An append after a process died with all of its record written but the newline: neither record is seen, by any
   * reader. Every run is as it was before both.
   */
  lemma JoiningLosesBoth(w: World, step: Step, id: string)
    requires AllCoherent(w) && step.AppendStep? && Unended(w)
    ensures
      var lines := LedgerLines(w.disk);
      var before, after := Latest(lines[..|lines| - 1], id), Latest(LedgerLines(Next(w, step).disk), id);
      && (after.Some? ==> after == before)
      && (IsLive(before) ==> after == before)
  {
    hide LatestIn, Records, Clean, Counted, EnsureLedger, Coherent, Joined;
    assert Coherent(w.disk, CacheOf(w, step.p));
    JoinsIffUnended(w, step.p);
    JoinedUnseen(LedgerLines(w.disk));
    var written := Write(w.disk, Joined(LedgerLines(w.disk)));
    CountedLatest(written, EnsureLedger(w.disk, CacheOf(w, step.p)).1.lines + 1, step.policy, step.now, id);
  }

  /**
   * The process that joined the lines takes the ledger for the one it counted, and does not repair it: what it appends
   * afterwards is not seen either, until it compacts or another process writes.
   */
  lemma MisledAppendsUnseen(disk: Disk, cache: LedgerState, r: RunRecord, policy: Policy, now: int, id: string)
    requires cache.identity == Identity(disk) && !Clean(LedgerLines(disk))
    ensures
      var (end, state) := Append(disk, Some(cache), r, policy, now);
      var before, after := Latest(LedgerLines(disk), id), Latest(LedgerLines(end), id);
      && (after.Some? ==> after == before)
      && (IsLive(before) ==> after == before)
      && (cache.lines + 1 <= RUNS_LEDGER_COMPACTION_THRESHOLD ==>
           after == before && state.identity == Identity(end) && !Clean(LedgerLines(end)))
  {
    hide LatestIn, Compacted;
    var lines := LedgerLines(disk);
    var written := Write(disk, lines + [Rec(r)]);
    AfterBadUnseen(lines, r);
    CountedLatest(written, cache.lines + 1, policy, now, id);
  }

  lemma {:induction false} AfterBadUnseen(lines: seq<Line>, r: RunRecord)
    requires !Clean(lines)
    ensures Records(lines + [Rec(r)]) == Records(lines) && !Clean(lines + [Rec(r)])
    decreases lines
  {
    var bad :| bad in lines && bad.Bad?;
    assert bad in lines + [Rec(r)];
    if !lines[0].Bad? {
      assert lines == [lines[0]] + lines[1..];
      assert bad in lines[1..];
      assert (lines + [Rec(r)])[0] == lines[0] && (lines + [Rec(r)])[1..] == lines[1..] + [Rec(r)];
      AfterBadUnseen(lines[1..], r);
    }
  }

  // ---- the length of the log ------------------------------------------------------------------------------

  /** A remembered count is no less than the true one, while it applies. */
  ghost predicate Enough(disk: Disk, cache: Option<LedgerState>) {
    && (disk.file.Some? ==> disk.file.value.stamp <= disk.clock)
    && (cache.Some? ==>
         && (cache.value.identity.Some? ==> cache.value.identity.value <= disk.clock)
         && (cache.value.identity == Identity(disk) ==> cache.value.lines >= LineCount(LedgerLines(disk))))
  }

  ghost predicate AllEnough(w: World) {
    forall p: Pid :: Enough(w.disk, CacheOf(w, p))
  }

  lemma EnsureIsEnough(disk: Disk, cache: Option<LedgerState>)
    requires Enough(disk, cache)
    ensures
      var (ensured, state) := EnsureLedger(disk, cache);
      && Enough(ensured, Some(state)) && state.identity == Identity(ensured) && disk.clock <= ensured.clock
      && state.lines >= LineCount(LedgerLines(ensured))
  {
    hide Clean, LineCount, Repair;
  }

  lemma CountedIsEnough(written: Disk, lines: nat, policy: Policy, now: int)
    requires Identity(written) == Some(written.clock) && lines >= LineCount(LedgerLines(written))
    ensures
      var (after, state) := Counted(written, lines, policy, now);
      && after.clock >= written.clock && Identity(after) == Some(after.clock) && state.identity == Identity(after)
      && state.lines >= LineCount(LedgerLines(after))
      && LineCount(LedgerLines(after)) <=
         Max(RUNS_LEDGER_COMPACTION_THRESHOLD, LiveRuns(LedgerLines(after)) + MaxTerminal(policy))
  {
    hide LineCount, LiveRuns, Compacted;
    CompactionBoundsLines(LedgerLines(written), policy, now);
    CompactionKeepsLiveRuns(LedgerLines(written), policy, now);
  }

  lemma CountOneMore(lines: seq<Line>, line: Line)
    ensures LineCount(lines + [line]) <= LineCount(lines) + 1
    ensures lines != [] ==> LineCount(Joined(lines)) <= LineCount(lines) + 1
  {
    FilterConcat(lines, [line], NotBlank);
    if lines != [] {
      var n := |lines| - 1;
      FilterConcat(lines[..n], [Bad], NotBlank);
      FilterConcat(lines[..n], [lines[n]], NotBlank);
      assert lines == lines[..n] + [lines[n]];
    }
  }

  /** What an append leaves, joined or not. */
  lemma AppendIsEnough(w: World, step: Step)
    requires step.AppendStep? && Enough(w.disk, CacheOf(w, step.p))
    ensures
      var w' := Next(w, step);
      && w'.disk.clock > w.disk.clock && Identity(w'.disk) == Some(w'.disk.clock)
      && w'.caches[step.p].identity == Identity(w'.disk)
      && w'.caches[step.p].lines >= LineCount(LedgerLines(w'.disk))
      && LineCount(LedgerLines(w'.disk)) <=
         Max(RUNS_LEDGER_COMPACTION_THRESHOLD, LiveRuns(LedgerLines(w'.disk)) + MaxTerminal(step.policy))
  {
    hide LineCount, LiveRuns, EnsureLedger, Counted, Joined, MaxTerminal;
    var (ensured, state) := EnsureLedger(w.disk, CacheOf(w, step.p));
    EnsureIsEnough(w.disk, CacheOf(w, step.p));
    CountOneMore(LedgerLines(ensured), Rec(step.record));
    CountedIsEnough(
      Write(ensured, LedgerLines(ensured) + [Rec(step.record)]), state.lines + 1, step.policy, step.now);
    if Joins(w, step.p) {
      CountedIsEnough(Write(w.disk, Joined(LedgerLines(w.disk))), state.lines + 1, step.policy, step.now);
    }
  }

  lemma NextEnough(w: World, step: Step)
    requires AllEnough(w)
    ensures AllEnough(Next(w, step))
  {
    hide LineCount, LiveRuns, EnsureLedger, Joins, Append, AppendJoined, CompactLedger, Compacted;
    var w' := Next(w, step);
    assert Enough(w.disk, CacheOf(w, step.p));
    EnsureIsEnough(w.disk, CacheOf(w, step.p));
    if step.AppendStep? {
      AppendIsEnough(w, step);
    } else if step.PruneStep? {
      CompactIsEnough(EnsureLedger(w.disk, CacheOf(w, step.p)).0, step.policy, step.now);
    }
    forall q: Pid ensures Enough(w'.disk, CacheOf(w', q)) { assert Enough(w.disk, CacheOf(w, q)); }
  }

  lemma CompactIsEnough(disk: Disk, policy: Policy, now: int)
    ensures
      var (after, state) := CompactLedger(disk, policy, now);
      && after.clock > disk.clock && Identity(after) == Some(after.clock) && state.identity == Identity(after)
      && state.lines >= LineCount(LedgerLines(after))
  {
    hide LineCount, Compacted;
    CompactionBoundsLines(LedgerLines(disk), policy, now);
  }

  lemma {:induction false} RunEnough(w: World, steps: seq<Step>)
    requires AllEnough(w)
    ensures AllEnough(Run(w, steps))
    decreases steps
  {
    hide AllEnough, Next;
    if steps != [] {
      NextEnough(w, steps[0]);
      RunEnough(Next(w, steps[0]), steps[1..]);
    }
  }

  /** After any interleaving, joined records too, the process that appends last leaves no more lines than the bound. */
  lemma AppendBoundsTheLog(w: World, steps: seq<Step>, last: Step)
    requires AllEnough(w) && last.AppendStep?
    ensures
      var end := Next(Run(w, steps), last);
      LineCount(LedgerLines(end.disk)) <=
      Max(1000, LiveRuns(LedgerLines(end.disk)) + Cap(last.policy))
  {
    hide LineCount, LiveRuns, Next, Enough, MaxTerminal, Cap;
    PolicyIs(last.policy, last.now, last.record);
    RunEnough(w, steps);
    var before := Run(w, steps);
    assert Enough(before.disk, CacheOf(before, last.p));
    AppendIsEnough(before, last);
  }
}
