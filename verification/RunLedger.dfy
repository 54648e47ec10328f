/** The append-only ledger of runs: what its lines mean, and what compaction keeps (apps/server/src/run-ledger.ts). */
module RunLedger {
  import opened Basics
  import opened Options
  import opened Sorting

  datatype Status = Queued | Running | Waiting | Succeeded | Failed | Cancelled

  predicate Terminal(s: Status) {
    s.Waiting? || s.Succeeded? || s.Failed? || s.Cancelled?
  }

  /** The fields an update may set besides the status. */
  datatype Detail = Detail(sessionId: Option<string>, costUsd: Option<real>, error: Option<string>)

  datatype RunRecord = RunRecord(runId: string, status: Status, updatedAt: int, detail: Detail)

  /** A ledger line: white space, something that is not a record, or a record. */
  datatype Line = Blank | Bad | Rec(record: RunRecord)

  /** The records of the longest valid prefix. */
  function Records(lines: seq<Line>): seq<RunRecord> {
    if lines == [] || lines[0].Bad? then []
    else (if lines[0].Rec? then [lines[0].record] else []) + Records(lines[1..])
  }

  /** The last record of a run. */
  function LatestIn(records: seq<RunRecord>, id: string): Option<RunRecord> {
    if records == [] then None
    else
      var n := |records| - 1;
      if records[n].runId == id then Some(records[n]) else LatestIn(records[..n], id)
  }

  /** The state of run `id`, as a reader of these lines sees it. */
  function Latest(lines: seq<Line>, id: string): Option<RunRecord> {
    LatestIn(Records(lines), id)
  }

  // ---- reading the ledger ---------------------------------------------------------------------------------

  /** `latest.set(record.runId, record)`: a run keeps the place of its first record. */
  function SetRecord(values: seq<RunRecord>, r: RunRecord): seq<RunRecord> {
    if values == [] then [r]
    else if values[0].runId == r.runId then [r] + values[1..]
    else [values[0]] + SetRecord(values[1..], r)
  }

  function Values(records: seq<RunRecord>): seq<RunRecord> {
    if records == [] then []
    else SetRecord(Values(records[..|records| - 1]), records[|records| - 1])
  }

  function Age(r: RunRecord): int { -r.updatedAt }
  function UpdatedAt(r: RunRecord): int { r.updatedAt }

  /** One record per run, most recently updated first. */
  function ReadLedger(lines: seq<Line>): seq<RunRecord> {
    SortBy(Values(Records(lines)), Age)
  }

  /** At most one record per run. */
  ghost predicate OnePerRun(values: seq<RunRecord>) {
    && (forall a, b :: a in values && b in values && a.runId == b.runId ==> a == b)
    && (forall a :: a in values ==> multiset(values)[a] == 1)
  }

  lemma {:induction false} SetRecordKeeps(values: seq<RunRecord>, r: RunRecord)
    requires OnePerRun(values)
    ensures OnePerRun(SetRecord(values, r))
    ensures forall a :: a in SetRecord(values, r) <==> a == r || (a in values && a.runId != r.runId)
    decreases values
  {
    if values != [] {
      var first, rest := values[0], values[1..];
      FirstIsAlone(values);
      if first.runId == r.runId {
        assert multiset([r] + rest) == multiset{r} + multiset(rest);
        assert r !in rest;
      } else {
        SetRecordKeeps(rest, r);
        var changed := SetRecord(rest, r);
        assert multiset([first] + changed) == multiset{first} + multiset(changed);
        assert first !in changed;
      }
    }
  }

  lemma FirstIsAlone(values: seq<RunRecord>)
    requires OnePerRun(values) && values != []
    ensures OnePerRun(values[1..])
    ensures forall a :: a in values <==> a == values[0] || a in values[1..]
    ensures forall a :: a in values[1..] ==> a.runId != values[0].runId
  {
    var first, rest := values[0], values[1..];
    assert values == [first] + rest && first in values;
    assert multiset(values) == multiset{first} + multiset(rest);
    assert multiset(values)[first] == 1 + multiset(rest)[first];
    assert multiset(rest)[first] == 0;
    assert first !in rest;
    forall a | a in rest ensures multiset(rest)[a] == 1 {
      assert a in values && a != first;
      assert multiset(values)[a] == multiset(rest)[a];
    }
  }

  /** The map of latest records holds exactly the last record of every run. */
  lemma {:induction false} ValuesAreLatest(records: seq<RunRecord>)
    ensures OnePerRun(Values(records))
    ensures forall a :: a in Values(records) <==> LatestIn(records, a.runId) == Some(a)
    decreases records
  {
    if records != [] {
      var n := |records| - 1;
      ValuesAreLatest(records[..n]);
      SetRecordKeeps(Values(records[..n]), records[n]);
      forall a ensures a in Values(records) <==> LatestIn(records, a.runId) == Some(a) {
        LatestHasId(records, a.runId);
      }
    }
  }

  lemma {:induction false} LatestHasId(records: seq<RunRecord>, id: string)
    ensures LatestIn(records, id).Some? ==>
      LatestIn(records, id).value.runId == id && LatestIn(records, id).value in records
    decreases records
  {
    if records != [] && records[|records| - 1].runId != id {
      LatestHasId(records[..|records| - 1], id);
      assert records == records[..|records| - 1] + [records[|records| - 1]];
    }
  }

  lemma OnePerRunPermuted(a: seq<RunRecord>, b: seq<RunRecord>)
    requires OnePerRun(a) && multiset(a) == multiset(b)
    ensures OnePerRun(b) && forall r :: r in a <==> r in b
  {
    forall r ensures r in a <==> r in b { assert r in multiset(a) <==> r in multiset(b); }
  }

  /** Reading yields exactly the latest record of every run, most recently updated first. */
  lemma ReadLedgerIsLatest(lines: seq<Line>)
    ensures OnePerRun(ReadLedger(lines))
    ensures forall r :: r in ReadLedger(lines) <==> Latest(lines, r.runId) == Some(r)
    ensures SortedBy(ReadLedger(lines), Age)
  {
    hide OnePerRun, LatestIn, Values, SortBy, Records;
    ValuesAreLatest(Records(lines));
    SortKeeps(Values(Records(lines)), Age);
    OnePerRunPermuted(Values(Records(lines)), ReadLedger(lines));
  }

  // ---- repair and line counts -----------------------------------------------------------------------------

  /** Every line is white space or a record. */
  predicate Clean(lines: seq<Line>) {
    forall line <- lines :: !line.Bad?
  }

  function Written(records: seq<RunRecord>): seq<Line> {
    seq(|records|, i requires 0 <= i < |records| => Rec(records[i]))
  }

  /** Repair rewrites a ledger to its longest valid prefix when something else follows it. */
  function Repair(lines: seq<Line>): seq<Line> {
    if Clean(lines) then lines else Written(Records(lines))
  }

  predicate NotBlank(line: Line) { !line.Blank? }

  function LineCount(lines: seq<Line>): nat {
    |Filter(lines, NotBlank)|
  }

  lemma {:induction false} RecordsOfWritten(records: seq<RunRecord>)
    ensures Clean(Written(records)) && Records(Written(records)) == records && LineCount(Written(records)) == |records|
    decreases records
  {
    if records != [] {
      RecordsOfWritten(records[1..]);
      assert Written(records)[1..] == Written(records[1..]);
      assert records == [records[0]] + records[1..];
    }
  }

  /** Repair changes no record a reader sees, and leaves only lines a reader reads. */
  lemma RepairKeepsRecords(lines: seq<Line>)
    ensures Clean(Repair(lines)) && Records(Repair(lines)) == Records(lines)
  {
    RecordsOfWritten(Records(lines));
  }

  /** Appending to a ledger that is all read adds exactly the record. */
  lemma {:induction false} RecordsAppend(lines: seq<Line>, r: RunRecord)
    requires Clean(lines)
    ensures Clean(lines + [Rec(r)]) && Records(lines + [Rec(r)]) == Records(lines) + [r]
    ensures LineCount(lines + [Rec(r)]) == LineCount(lines) + 1
    decreases lines
  {
    if lines == [] {
      assert lines + [Rec(r)] == [Rec(r)];
      assert [Rec(r)][1..] == [];
    } else {
      var rest := lines[1..];
      assert lines[0] in lines && lines == [lines[0]] + rest;
      assert (lines + [Rec(r)])[1..] == rest + [Rec(r)];
      RecordsAppend(rest, r);
      var first := if lines[0].Rec? then [lines[0].record] else [];
      assert first + (Records(rest) + [r]) == first + Records(rest) + [r];
    }
  }

  lemma LatestAppend(records: seq<RunRecord>, r: RunRecord, id: string)
    ensures LatestIn(records + [r], id) == if r.runId == id then Some(r) else LatestIn(records, id)
  {
    assert (records + [r])[..|records|] == records;
  }

  // ---- compaction -----------------------------------------------------------------------------------------

  const RUNS_LEDGER_COMPACTION_THRESHOLD: nat := 1000
  const RUNS_LEDGER_MAX_RETAINED: nat := 500
  const RUN_RETENTION_MAX_COUNT: nat := 100_000
  const RUN_RETENTION_MAX_AGE_DAYS: real := 36_500.0

  datatype Policy = Policy(maxTerminalRuns: Option<int>, maxAgeDays: Option<real>)

  /** The cap in force: a policy outside its range means the default. */
  function MaxTerminal(policy: Policy): nat {
    match policy.maxTerminalRuns
    case Some(n) => if 0 <= n <= RUN_RETENTION_MAX_COUNT then n else RUNS_LEDGER_MAX_RETAINED
    case None => RUNS_LEDGER_MAX_RETAINED
  }

  /** The oldest update that is kept, in milliseconds; None when age does not matter. */
  function Cutoff(policy: Policy, now: int): Option<real> {
    match policy.maxAgeDays
    case Some(days) =>
      if 0.0 < days <= RUN_RETENTION_MAX_AGE_DAYS then Some(now as real - days * 24.0 * 60.0 * 60.0 * 1000.0) else None
    case None => None
  }

  predicate RecentEnough(cutoff: Option<real>, r: RunRecord) {
    cutoff.None? || r.updatedAt as real >= cutoff.value
  }

  predicate IsTerminalRun(r: RunRecord) { Terminal(r.status) }
  predicate IsLiveRun(r: RunRecord) { !Terminal(r.status) }

  /** The terminal runs inside the age cutoff, most recently updated first. */
  function Candidates(all: seq<RunRecord>, policy: Policy, now: int): seq<RunRecord> {
    Filter(Filter(all, IsTerminalRun), r => RecentEnough(Cutoff(policy, now), r))
  }

  /** Every live run, and the most recently updated terminal ones up to the cap. */
  function Retained(all: seq<RunRecord>, policy: Policy, now: int): seq<RunRecord> {
    Filter(all, IsLiveRun) + Take(Candidates(all, policy, now), MaxTerminal(policy))
  }

  /** The rewritten ledger: one line per retained run, oldest update first. */
  function Compacted(lines: seq<Line>, policy: Policy, now: int): seq<Line> {
    Written(SortBy(Retained(ReadLedger(lines), policy, now), UpdatedAt))
  }

  /** How many runs are queued or running. */
  function LiveRuns(lines: seq<Line>): nat {
    |Filter(Values(Records(lines)), IsLiveRun)|
  }

  lemma {:induction false} FilterOnePerRun(values: seq<RunRecord>, p: RunRecord -> bool)
    requires OnePerRun(values)
    ensures OnePerRun(Filter(values, p))
    decreases values
  {
    if values != [] {
      FirstIsAlone(values);
      FilterOnePerRun(values[1..], p);
      forall a ensures a in Filter(values, p) <==> a in values && p(a) { FilterMember(values, p, a); }
      forall a ensures a in Filter(values[1..], p) <==> a in values[1..] && p(a) { FilterMember(values[1..], p, a); }
      if p(values[0]) {
        assert multiset(Filter(values, p)) == multiset{values[0]} + multiset(Filter(values[1..], p));
      } else {
        assert Filter(values, p) == Filter(values[1..], p);
      }
    }
  }

  lemma {:induction false} LatestOfOne(records: seq<RunRecord>, r: RunRecord)
    requires forall a, b :: a in records && b in records && a.runId == b.runId ==> a == b
    requires r in records
    ensures LatestIn(records, r.runId) == Some(r)
    decreases records
  {
    var n := |records| - 1;
    assert records == records[..n] + [records[n]];
    if records[n].runId != r.runId {
      LatestOfOne(records[..n], r);
    }
  }

  lemma TakeMembers<T>(s: seq<T>, n: nat, x: T)
    ensures x in Take(s, n) ==> x in s
    ensures multiset(Take(s, n)) <= multiset(s)
  {
    assert s == Take(s, n) + s[|Take(s, n)|..];
  }

  lemma TakeOnePerRun(values: seq<RunRecord>, n: nat)
    requires OnePerRun(values)
    ensures OnePerRun(Take(values, n))
  {
    var kept := Take(values, n);
    forall a | a in kept ensures a in values && multiset(kept)[a] == 1 {
      TakeMembers(values, n, a);
      assert a in multiset(kept);
    }
  }

  /** Which runs are retained. */
  lemma RetainedMembers(all: seq<RunRecord>, policy: Policy, now: int)
    requires OnePerRun(all)
    ensures
      var kept := Take(Candidates(all, policy, now), MaxTerminal(policy));
      && OnePerRun(Retained(all, policy, now))
      && (forall r :: r in kept ==> r in all && IsTerminalRun(r) && RecentEnough(Cutoff(policy, now), r))
      && (forall r :: r in Retained(all, policy, now) <==> r in kept || (r in all && IsLiveRun(r)))
  {
    hide OnePerRun, Filter, Cutoff, RecentEnough, MaxTerminal;
    var live, terminal := Filter(all, IsLiveRun), Filter(all, IsTerminalRun);
    var recent := (r: RunRecord) => RecentEnough(Cutoff(policy, now), r);
    var candidates := Candidates(all, policy, now);
    var kept := Take(candidates, MaxTerminal(policy));
    FilterOnePerRun(all, IsLiveRun);
    FilterOnePerRun(all, IsTerminalRun);
    FilterOnePerRun(terminal, recent);
    TakeOnePerRun(candidates, MaxTerminal(policy));
    forall r ensures r in live <==> r in all && IsLiveRun(r) { FilterMember(all, IsLiveRun, r); }
    forall r | r in kept ensures r in all && IsTerminalRun(r) && RecentEnough(Cutoff(policy, now), r) {
      TakeMembers(candidates, MaxTerminal(policy), r);
      FilterMember(terminal, recent, r);
      FilterMember(all, IsTerminalRun, r);
    }
    Disjoint(all, live, kept);
  }

  lemma Disjoint(all: seq<RunRecord>, live: seq<RunRecord>, kept: seq<RunRecord>)
    requires OnePerRun(all) && OnePerRun(live) && OnePerRun(kept)
    requires forall r :: r in live ==> r in all && IsLiveRun(r)
    requires forall r :: r in kept ==> r in all && IsTerminalRun(r)
    ensures OnePerRun(live + kept)
  {
    forall r | r in live + kept ensures multiset(live + kept)[r] == 1 {
      if r in live { assert r !in kept; } else { assert r in kept; }
    }
  }

  /** What a reader sees after compaction: the retained runs, unchanged. */
  lemma CompactedLatest(lines: seq<Line>, policy: Policy, now: int, id: string)
    ensures Clean(Compacted(lines, policy, now))
    ensures
      var after := Latest(Compacted(lines, policy, now), id);
      && (after.Some? ==> after == Latest(lines, id) && after.value in Retained(ReadLedger(lines), policy, now))
      && (forall r :: r in Retained(ReadLedger(lines), policy, now) && r.runId == id ==> after == Some(r))
  {
    hide OnePerRun, LatestIn, Retained, ReadLedger, SortBy, Records;
    var all := ReadLedger(lines);
    var retained := Retained(all, policy, now);
    var ordered := SortBy(retained, UpdatedAt);
    ReadLedgerIsLatest(lines);
    RetainedMembers(all, policy, now);
    SortKeeps(retained, UpdatedAt);
    OnePerRunPermuted(retained, ordered);
    RecordsOfWritten(ordered);
    LatestHasId(ordered, id);
    OneIsOne(ordered);
    forall r | r in retained && r.runId == id ensures LatestIn(ordered, id) == Some(r) { LatestOfOne(ordered, r); }
  }

  lemma OneIsOne(values: seq<RunRecord>)
    requires OnePerRun(values)
    ensures forall a, b :: a in values && b in values && a.runId == b.runId ==> a == b
  {
  }

  // ---- what compaction promises ---------------------------------------------------------------------------

  /** A queued or running run is kept, and every kept run keeps its latest record. */
  lemma CompactionLosesNoLiveRun(lines: seq<Line>, policy: Policy, now: int, id: string)
    ensures
      var before, after := Latest(lines, id), Latest(Compacted(lines, policy, now), id);
      && (after.Some? ==> after == before)
      && (before.Some? && IsLiveRun(before.value) ==> after == before)
  {
    hide Retained, LatestIn, SortBy, Records, Candidates, OnePerRun;
    CompactedLatest(lines, policy, now, id);
    ReadLedgerIsLatest(lines);
    RetainedMembers(ReadLedger(lines), policy, now);
    LatestHasId(Records(lines), id);
  }

  /** Sorted sequences: what is cut off comes after what is kept. */
  lemma TakeIsFirst(s: seq<RunRecord>, n: nat, kept: RunRecord, cut: RunRecord)
    requires SortedBy(s, Age) && kept in Take(s, n) && cut in s && cut !in Take(s, n)
    ensures |Take(s, n)| == n && kept.updatedAt >= cut.updatedAt
  {
    var i :| 0 <= i < |Take(s, n)| && Take(s, n)[i] == kept;
    var rest := s[|Take(s, n)|..];
    assert s == Take(s, n) + rest;
    var j :| 0 <= j < |rest| && rest[j] == cut;
    assert Age(s[i]) <= Age(s[|Take(s, n)| + j]);
  }

  const DAY_MS: real := 86_400_000.0

  /** The policy limits the age of terminal runs: to more than no days, and to no more than a hundred years. */
  predicate LimitsAge(policy: Policy) {
    policy.maxAgeDays.Some? && 0.0 < policy.maxAgeDays.value <= 36_500.0
  }

  /** Updated longer ago than the policy allows. */
  predicate TooOld(policy: Policy, r: RunRecord, now: int) {
    LimitsAge(policy) && (r.updatedAt as real) < now as real - policy.maxAgeDays.value * DAY_MS
  }

  /** How many terminal runs the policy allows. */
  function Cap(policy: Policy): nat {
    if policy.maxTerminalRuns.Some? && 0 <= policy.maxTerminalRuns.value <= 100_000
    then policy.maxTerminalRuns.value
    else 500
  }

  lemma PolicyIs(policy: Policy, now: int, r: RunRecord)
    ensures MaxTerminal(policy) == Cap(policy) && (RecentEnough(Cutoff(policy, now), r) <==> !TooOld(policy, r, now))
  {
    if LimitsAge(policy) {
      var days := policy.maxAgeDays.value;
      assert days * 24.0 * 60.0 * 60.0 * 1000.0 == days * DAY_MS;
    }
  }

  /** How many terminal runs a reader sees. */
  function TerminalRuns(lines: seq<Line>): nat {
    |Filter(Values(Records(lines)), IsTerminalRun)|
  }

  lemma {:induction false} AllTerminal(values: seq<RunRecord>)
    requires forall a :: a in values ==> IsTerminalRun(a)
    ensures Filter(values, IsTerminalRun) == values
    decreases values
  {
    if values != [] {
      assert values[0] in values;
      AllTerminal(values[1..]);
    }
  }

  lemma {:induction false} NoneTerminal(values: seq<RunRecord>)
    ensures Filter(Filter(values, IsLiveRun), IsTerminalRun) == []
    decreases values
  {
    if values != [] {
      NoneTerminal(values[1..]);
      if IsLiveRun(values[0]) {
        assert ([values[0]] + Filter(values[1..], IsLiveRun))[1..] == Filter(values[1..], IsLiveRun);
      } else {
        assert Filter(values, IsLiveRun) == Filter(values[1..], IsLiveRun);
      }
    }
  }

  /** The terminal runs a reader sees after compaction are the chosen ones. */
  lemma TerminalRunsKept(lines: seq<Line>, policy: Policy, now: int)
    ensures TerminalRuns(Compacted(lines, policy, now)) ==
      |Take(Candidates(ReadLedger(lines), policy, now), MaxTerminal(policy))|
  {
    hide OnePerRun, Filter, Records, Values, SortBy, Candidates, Take;
    var all := ReadLedger(lines);
    var kept := Take(Candidates(all, policy, now), MaxTerminal(policy));
    var retained := Retained(all, policy, now);
    var ordered := SortBy(retained, UpdatedAt);
    ReadLedgerIsLatest(lines);
    RetainedMembers(all, policy, now);
    SortKeeps(retained, UpdatedAt);
    OnePerRunPermuted(retained, ordered);
    RecordsOfWritten(ordered);
    ValuesOfOnePerRun(ordered);
    SortCount(retained, UpdatedAt, IsTerminalRun);
    FilterConcat(Filter(all, IsLiveRun), kept, IsTerminalRun);
    NoneTerminal(all);
    AllTerminal(kept);
  }

  /**
   * A run that is dropped is a terminal one that is older than the policy allows, or one for which the cap has no
   * room: then readers see as many terminal runs as it allows, and none of them was updated earlier.
   */
  lemma CompactionDropsOldest(lines: seq<Line>, policy: Policy, now: int, dropped: RunRecord)
    requires Latest(lines, dropped.runId) == Some(dropped)
    requires Latest(Compacted(lines, policy, now), dropped.runId).None?
    ensures Terminal(dropped.status)
    ensures
      || TooOld(policy, dropped, now)
      || (TerminalRuns(Compacted(lines, policy, now)) == Cap(policy) &&
          forall r: RunRecord :: Latest(Compacted(lines, policy, now), r.runId) == Some(r) && Terminal(r.status) ==>
            r.updatedAt >= dropped.updatedAt)
  {
    hide Retained, LatestIn, SortBy, Records, OnePerRun, Filter, Cutoff, RecentEnough, MaxTerminal, Take, TooOld, Cap;
    var all := ReadLedger(lines);
    ReadLedgerIsLatest(lines);
    RetainedMembers(all, policy, now);
    CompactedLatest(lines, policy, now, dropped.runId);
    PolicyIs(policy, now, dropped);
    TerminalRunsKept(lines, policy, now);
    var terminal := Filter(all, IsTerminalRun);
    var recent := (r: RunRecord) => RecentEnough(Cutoff(policy, now), r);
    var candidates := Candidates(all, policy, now);
    FilterMember(all, IsTerminalRun, dropped);
    FilterMember(terminal, recent, dropped);
    FilterSorted(all, Age, IsTerminalRun);
    FilterSorted(terminal, Age, recent);
    if !TooOld(policy, dropped, now) {
      CutMeansFull(candidates, MaxTerminal(policy), dropped);
      forall r: RunRecord | Latest(Compacted(lines, policy, now), r.runId) == Some(r) && Terminal(r.status)
        ensures r.updatedAt >= dropped.updatedAt
      {
        CompactedLatest(lines, policy, now, r.runId);
        TakeIsFirst(candidates, MaxTerminal(policy), r, dropped);
      }
    }
  }

  /** No kept terminal run is older than the policy allows, and there are no more of them than it allows. */
  lemma CompactionKeepsRecent(lines: seq<Line>, policy: Policy, now: int, kept: RunRecord)
    requires Latest(Compacted(lines, policy, now), kept.runId) == Some(kept) && Terminal(kept.status)
    ensures !TooOld(policy, kept, now)
    ensures TerminalRuns(Compacted(lines, policy, now)) <= Cap(policy)
  {
    hide Retained, LatestIn, SortBy, Records, OnePerRun, Filter, Cutoff, RecentEnough, MaxTerminal, TooOld, Cap,
      Candidates;
    ReadLedgerIsLatest(lines);
    RetainedMembers(ReadLedger(lines), policy, now);
    CompactedLatest(lines, policy, now, kept.runId);
    PolicyIs(policy, now, kept);
    TerminalRunsKept(lines, policy, now);
  }

  lemma CutMeansFull(s: seq<RunRecord>, n: nat, cut: RunRecord)
    requires cut in s && cut !in Take(s, n)
    ensures |Take(s, n)| == n
  {
  }

  /** The compacted ledger has a line for every live run and for no more terminal runs than the cap. */
  lemma CompactionBoundsLines(lines: seq<Line>, policy: Policy, now: int)
    ensures |Compacted(lines, policy, now)| <= LiveRuns(lines) + MaxTerminal(policy)
    ensures LineCount(Compacted(lines, policy, now)) == |Compacted(lines, policy, now)|
  {
    hide Filter, Records, Values, Candidates;
    var all := ReadLedger(lines);
    SortCount(Values(Records(lines)), Age, IsLiveRun);
    var retained := Retained(all, policy, now);
    SortKeeps(retained, UpdatedAt);
    RecordsOfWritten(SortBy(retained, UpdatedAt));
    assert |SortBy(retained, UpdatedAt)| == |multiset(SortBy(retained, UpdatedAt))| == |multiset(retained)|;
  }

  // ---- counting live runs ---------------------------------------------------------------------------------

  function One(b: bool): nat { if b then 1 else 0 }

  predicate IsLive(r: Option<RunRecord>) { r.Some? && IsLiveRun(r.value) }

  lemma {:induction false} LiveAfterSet(values: seq<RunRecord>, r: RunRecord)
    requires OnePerRun(values)
    ensures
      |Filter(SetRecord(values, r), IsLiveRun)| ==
      |Filter(values, IsLiveRun)| + One(IsLiveRun(r)) -
      One(exists a :: a in values && a.runId == r.runId && IsLiveRun(a))
    decreases values
  {
    if values == [] {
      assert [r][1..] == [];
    } else {
      var first, rest := values[0], values[1..];
      FirstIsAlone(values);
      if first.runId == r.runId {
        assert ([r] + rest)[1..] == rest;
        assert (exists a :: a in values && a.runId == r.runId && IsLiveRun(a)) == IsLiveRun(first);
      } else {
        LiveAfterSet(rest, r);
        assert ([first] + SetRecord(rest, r))[1..] == SetRecord(rest, r);
        assert (exists a :: a in values && a.runId == r.runId && IsLiveRun(a)) ==
          (exists a :: a in rest && a.runId == r.runId && IsLiveRun(a));
      }
    }
  }

  /** A new record changes the number of live runs by what it changes about its own run. */
  lemma LiveRunsAppend(lines: seq<Line>, r: RunRecord)
    requires Clean(lines)
    ensures LiveRuns(lines + [Rec(r)]) == LiveRuns(lines) + One(IsLiveRun(r)) - One(IsLive(Latest(lines, r.runId)))
  {
    hide OnePerRun, Filter, SetRecord, Records, Clean, LatestIn;
    RecordsAppend(lines, r);
    var records := Records(lines);
    assert (records + [r])[..|records|] == records;
    ValuesAreLatest(records);
    LiveAfterSet(Values(records), r);
    LatestHasId(records, r.runId);
    assert (exists a :: a in Values(records) && a.runId == r.runId && IsLiveRun(a)) == IsLive(Latest(lines, r.runId));
  }

  lemma {:induction false} ValuesOfOnePerRun(records: seq<RunRecord>)
    requires OnePerRun(records)
    ensures Values(records) == records
    decreases records
  {
    if records != [] {
      var n := |records| - 1;
      var before, r := records[..n], records[n];
      LastIsAlone(records);
      ValuesOfOnePerRun(before);
      SetRecordNew(before, r);
      assert records == before + [r];
    }
  }

  lemma LastIsAlone(values: seq<RunRecord>)
    requires OnePerRun(values) && values != []
    ensures OnePerRun(values[..|values| - 1])
    ensures forall a :: a in values[..|values| - 1] ==> a.runId != values[|values| - 1].runId
  {
    var before, last := values[..|values| - 1], values[|values| - 1];
    assert values == before + [last] && last in values;
    assert multiset(values) == multiset(before) + multiset{last};
    assert multiset(values)[last] == 1 + multiset(before)[last];
    assert last !in before;
    forall a | a in before ensures multiset(before)[a] == 1 {
      assert a in values && a != last;
      assert multiset(values)[a] == multiset(before)[a];
    }
  }

  lemma {:induction false} SetRecordNew(values: seq<RunRecord>, r: RunRecord)
    requires forall a :: a in values ==> a.runId != r.runId
    ensures SetRecord(values, r) == values + [r]
    decreases values
  {
    if values != [] {
      assert values[0] in values;
      SetRecordNew(values[1..], r);
      assert values == [values[0]] + values[1..];
    }
  }

  lemma {:induction false} FilterTwice(values: seq<RunRecord>)
    ensures Filter(Filter(values, IsLiveRun), IsLiveRun) == Filter(values, IsLiveRun)
    decreases values
  {
    if values != [] {
      FilterTwice(values[1..]);
      if IsLiveRun(values[0]) {
        assert ([values[0]] + Filter(values[1..], IsLiveRun))[1..] == Filter(values[1..], IsLiveRun);
      } else {
        assert Filter(values, IsLiveRun) == Filter(values[1..], IsLiveRun);
      }
    }
  }

  lemma {:induction false} NoneLive(values: seq<RunRecord>)
    requires forall a :: a in values ==> IsTerminalRun(a)
    ensures Filter(values, IsLiveRun) == []
    decreases values
  {
    if values != [] {
      assert values[0] in values;
      NoneLive(values[1..]);
    }
  }

  /** Compaction keeps the number of live runs. */
  lemma CompactionKeepsLiveRuns(lines: seq<Line>, policy: Policy, now: int)
    ensures LiveRuns(Compacted(lines, policy, now)) == LiveRuns(lines)
  {
    hide OnePerRun, Filter, Records, Values, SortBy, Candidates, Take;
    var all := ReadLedger(lines);
    var kept := Take(Candidates(all, policy, now), MaxTerminal(policy));
    var retained := Retained(all, policy, now);
    var ordered := SortBy(retained, UpdatedAt);
    ReadLedgerIsLatest(lines);
    RetainedMembers(all, policy, now);
    SortKeeps(retained, UpdatedAt);
    OnePerRunPermuted(retained, ordered);
    RecordsOfWritten(ordered);
    ValuesOfOnePerRun(ordered);
    SortCount(retained, UpdatedAt, IsLiveRun);
    FilterConcat(Filter(all, IsLiveRun), kept, IsLiveRun);
    FilterTwice(all);
    NoneLive(kept);
    SortCount(Values(Records(lines)), Age, IsLiveRun);
  }
}
