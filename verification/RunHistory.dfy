/** What one manager does to its ledger over any sequence of calls (apps/server/src/run-ledger.ts). */
module RunHistory {
  import opened Options
  import opened RunLedger
  import opened LedgerProcesses
  import opened RunManagement

  /** The ledger file, and what the manager remembers of it. */
  datatype Books = Books(disk: Disk, cache: Option<LedgerState>)

  function After(b: Books, op: Op): Books {
    var (disk, cache) := Do(b.disk, b.cache, op);
    Books(disk, cache)
  }

  function AfterAll(b: Books, ops: seq<Op>): Books
    decreases ops
  {
    if ops == [] then b else AfterAll(After(b, ops[0]), ops[1..])
  }

  ghost predicate Ok(b: Books) { Coherent(b.disk, b.cache) }

  function Seen(b: Books, id: string): Option<RunRecord> {
    Latest(LedgerLines(b.disk), id)
  }

  /** The ids of created runs are new: none was ever used before. */
  predicate NewIds(ops: seq<Op>, used: set<string>)
    decreases ops
  {
    ops == [] ||
    (if ops[0].CreateRun? then ops[0].id !in used && NewIds(ops[1..], used + {ops[0].id}) else NewIds(ops[1..], used))
  }

  /** A run that readers see only with this status, or not at all. */
  predicate SettledAs(b: Books, id: string, status: Status) {
    Seen(b, id).Some? ==> Seen(b, id).value.status == status
  }

  lemma AppendingOk(b: Books, r: RunRecord, policy: Policy, now: int, id: string)
    requires Ok(b)
    ensures
      var (disk, cache) := Appending(b.disk, b.cache, r, policy, now);
      var expected := if id == r.runId then Some(r) else Seen(b, id);
      && Ok(Books(disk, cache))
      && (Seen(Books(disk, cache), id).Some? ==> Seen(Books(disk, cache), id) == expected)
  {
    hide Clean, LineCount, Append, LatestIn, Records;
    AppendKeeps(b.disk, b.cache, r, policy, now);
    AppendLatest(b.disk, b.cache, r, policy, now, id);
  }

  /** A call on a manager keeps its books, and a settled run settled, unless it creates a run of that id. */
  lemma StepSettled(b: Books, op: Op, id: string, status: Status)
    requires Ok(b)
    ensures Ok(After(b, op))
    ensures SettledAs(b, id, status) && Terminal(status) && !(op.CreateRun? && op.id == id) ==>
      SettledAs(After(b, op), id, status)
  {
    hide Coherent, Appending, LatestIn, Records, Clean, LineCount;
    match op
    case CreateRun(created, policy, now) =>
      AppendingOk(b, NewRun(created, now), policy, now, id);
    case UpdateRun(other, patch, policy, now) =>
      var current := Seen(b, other);
      if current.Some? && !Refused(current.value, patch) {
        LatestHasId(Records(LedgerLines(b.disk)), other);
        AppendingOk(b, Patched(current.value, patch, now), policy, now, id);
      }
    case PruneRuns(policy, now) =>
      PruneOk(b, policy, now, id);
  }

  lemma PruneOk(b: Books, policy: Policy, now: int, id: string)
    requires Ok(b)
    ensures Ok(After(b, PruneRuns(policy, now)))
    ensures Seen(After(b, PruneRuns(policy, now)), id).Some? ==>
      Seen(After(b, PruneRuns(policy, now)), id) == Seen(b, id)
  {
    hide Clean, LineCount, LedgerProcesses.Prune, LatestIn, Records;
    PruneKeeps(b.disk, b.cache, policy, now);
    PruneLatest(b.disk, b.cache, policy, now, id);
  }

  lemma {:induction false} SettledForGood(b: Books, ops: seq<Op>, used: set<string>, id: string, status: Status)
    requires Ok(b) && NewIds(ops, used) && id in used && SettledAs(b, id, status) && Terminal(status)
    ensures Ok(AfterAll(b, ops)) && SettledAs(AfterAll(b, ops), id, status)
    decreases ops
  {
    hide Ok, After, SettledAs;
    if ops != [] {
      StepSettled(b, ops[0], id, status);
      SettledForGood(
        After(b, ops[0]), ops[1..], if ops[0].CreateRun? then used + {ops[0].id} else used, id, status);
    }
  }

  lemma {:induction false} BooksOk(b: Books, ops: seq<Op>)
    requires Ok(b)
    ensures Ok(AfterAll(b, ops))
    decreases ops
  {
    hide Ok, After;
    if ops != [] {
      StepSettled(b, ops[0], "", Failed);
      BooksOk(After(b, ops[0]), ops[1..]);
    }
  }

  function Used(ops: seq<Op>, used: set<string>): set<string>
    decreases ops
  {
    if ops == [] then used else Used(ops[1..], if ops[0].CreateRun? then used + {ops[0].id} else used)
  }

  lemma {:induction false} UsedGrows(ops: seq<Op>, used: set<string>)
    ensures used <= Used(ops, used)
    decreases ops
  {
    if ops != [] { UsedGrows(ops[1..], if ops[0].CreateRun? then used + {ops[0].id} else used); }
  }

  /** Every run readers see has a used id. */
  lemma {:induction false} SeenIsUsed(b: Books, ops: seq<Op>, used: set<string>, id: string)
    requires Ok(b) && (Seen(b, id).Some? ==> id in used)
    ensures Seen(AfterAll(b, ops), id).Some? ==> id in Used(ops, used)
    decreases ops
  {
    hide Ok, Seen, After;
    if ops != [] {
      StepSettled(b, ops[0], "", Failed);
      SeenAfter(b, ops[0], id);
      SeenIsUsed(After(b, ops[0]), ops[1..], if ops[0].CreateRun? then used + {ops[0].id} else used, id);
    }
  }

  lemma SeenAfter(b: Books, op: Op, id: string)
    requires Ok(b)
    ensures Seen(After(b, op), id).Some? ==> Seen(b, id).Some? || (op.CreateRun? && op.id == id)
  {
    hide Coherent, Appending, LatestIn, Records, Clean, LineCount;
    match op
    case CreateRun(created, policy, now) =>
      AppendingOk(b, NewRun(created, now), policy, now, id);
    case UpdateRun(other, patch, policy, now) =>
      var current := Seen(b, other);
      if current.Some? && !Refused(current.value, patch) {
        LatestHasId(Records(LedgerLines(b.disk)), other);
        AppendingOk(b, Patched(current.value, patch, now), policy, now, id);
      }
    case PruneRuns(policy, now) =>
      PruneOk(b, policy, now, id);
  }

  lemma {:induction false} NewIdsSplit(ops: seq<Op>, more: seq<Op>, used: set<string>)
    requires NewIds(ops + more, used)
    ensures NewIds(ops, used) && NewIds(more, Used(ops, used))
    decreases ops
  {
    if ops == [] {
      assert ops + more == more;
    } else {
      assert (ops + more)[0] == ops[0] && (ops + more)[1..] == ops[1..] + more;
      NewIdsSplit(ops[1..], more, if ops[0].CreateRun? then used + {ops[0].id} else used);
    }
  }

  lemma {:induction false} AfterBoth(b: Books, ops: seq<Op>, more: seq<Op>)
    ensures AfterAll(b, ops + more) == AfterAll(AfterAll(b, ops), more)
    decreases ops
  {
    hide After;
    if ops == [] {
      assert ops + more == more;
    } else {
      assert (ops + more)[0] == ops[0] && (ops + more)[1..] == ops[1..] + more;
      AfterBoth(After(b, ops[0]), ops[1..], more);
    }
  }

  /**
   * Over any sequence of creates, updates, starts, cancels and prunes of one manager whose new runs get new ids: once a
   * run is seen in a terminal state, it is never seen in another one.
   */
  lemma TerminalForGood(b: Books, ops: seq<Op>, more: seq<Op>, used: set<string>, id: string)
    requires Ok(b) && NewIds(ops + more, used) && (Seen(b, id).Some? ==> id in used)
    requires Seen(AfterAll(b, ops), id).Some? && Terminal(Seen(AfterAll(b, ops), id).value.status)
    ensures Seen(AfterAll(b, ops + more), id).Some? ==>
      Seen(AfterAll(b, ops + more), id).value.status == Seen(AfterAll(b, ops), id).value.status
  {
    hide Ok, After, Seen;
    var middle := AfterAll(b, ops);
    NewIdsSplit(ops, more, used);
    AfterBoth(b, ops, more);
    BooksOk(b, ops);
    SeenIsUsed(b, ops, used, id);
    SettledForGood(middle, more, Used(ops, used), id, Seen(middle, id).value.status);
  }
}
