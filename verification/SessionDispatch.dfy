/** Subagent managers kept per session, and the resources they hold back (apps/server/src/session-dispatch.ts). */
module SessionDispatch {
  import opened Basics
  import opened Options

  /** A session's manager, the runs using it, the resources of ended runs it still needs, and its poll timer. */
  datatype Entry = Entry(id: string, manager: nat, runs: nat, disposers: seq<nat>, timer: bool)

  /** A dispose callback that ran: was a dispatch of its session running, and was the session being closed? */
  datatype Ran = Ran(disposer: nat, busy: bool, closing: bool)

  predicate InUse(e: Entry, running: set<nat>) {
    e.runs > 0 || e.disposers != [] || e.manager in running
  }

  function Position(entries: seq<Entry>, id: string): (i: nat)
    ensures i <= |entries|
    ensures i < |entries| ==> entries[i].id == id
    ensures forall j :: 0 <= j < i ==> entries[j].id != id
  {
    FirstIndex(entries, (e: Entry) => e.id == id)
  }

  // ---- pending disposers ----------------------------------------------------------------------------------

  function Pending(entries: seq<Entry>): seq<nat> {
    if entries == [] then [] else entries[0].disposers + Pending(entries[1..])
  }

  lemma {:induction false} PendingConcat(a: seq<Entry>, b: seq<Entry>)
    ensures Pending(a + b) == Pending(a) + Pending(b)
    decreases a
  {
    if a == [] {
      assert a + b == b;
    } else {
      PendingConcat(a[1..], b);
      assert (a + b)[1..] == a[1..] + b && (a + b)[0] == a[0];
    }
  }

  /** The callbacks of one entry, apart from those of the others. */
  lemma PendingAt(entries: seq<Entry>, i: nat, e: Entry)
    requires i < |entries|
    ensures multiset(Pending(entries[i := e])) ==
      multiset(Pending(entries[..i] + entries[i + 1..])) + multiset(e.disposers)
  {
    var before, after := entries[..i], entries[i + 1..];
    PendingConcat(before, after);
    PendingConcat(before, [e] + after);
    assert entries[i := e] == before + ([e] + after);
    assert ([e] + after)[1..] == after && ([e] + after)[0] == e;
    Rotate(Pending(before), e.disposers, Pending(after));
  }

  lemma Rotate(a: seq<nat>, b: seq<nat>, c: seq<nat>)
    ensures multiset(a + (b + c)) == multiset(a + c) + multiset(b)
  {
  }

  function Disposers(ran: seq<Ran>): (r: seq<nat>)
    ensures |r| == |ran| && forall i :: 0 <= i < |r| ==> r[i] == ran[i].disposer
  {
    seq(|ran|, i requires 0 <= i < |ran| => ran[i].disposer)
  }

  function AllRan(disposers: seq<nat>, busy: bool, closing: bool): (r: seq<Ran>)
    ensures Disposers(r) == disposers
  {
    seq(|disposers|, i requires 0 <= i < |disposers| => Ran(disposers[i], busy, closing))
  }

  /** Every callback that was given either ran or is pending, as often as it was given. */
  ghost predicate OnceEach(given: multiset<nat>, ran: seq<Ran>, entries: seq<Entry>) {
    multiset(Disposers(ran) + Pending(entries)) == given
  }

  /** A callback runs while a dispatch of its session is running only when the session is closed. */
  ghost predicate Polite(ran: seq<Ran>) {
    forall i :: 0 <= i < |ran| && ran[i].busy ==> ran[i].closing
  }

  lemma Insert(a: seq<nat>, b: seq<nat>, c: seq<nat>, bc: seq<nat>)
    requires multiset(bc) == multiset(c) + multiset(b)
    ensures multiset(a + bc) == multiset(a + b + c)
  {
    assert multiset(a + b + c) == multiset(a) + multiset(b) + multiset(c);
  }

  lemma RunKeeps(given: multiset<nat>, ran: seq<Ran>, before: seq<Entry>, after: seq<Entry>, e: Entry,
                 busy: bool, closing: bool)
    requires OnceEach(given, ran, before) && Polite(ran) && (busy && e.disposers != [] ==> closing)
    requires multiset(Pending(before)) == multiset(Pending(after)) + multiset(e.disposers)
    ensures OnceEach(given, ran + AllRan(e.disposers, busy, closing), after)
    ensures Polite(ran + AllRan(e.disposers, busy, closing))
  {
    hide Pending, Disposers;
    var more := AllRan(e.disposers, busy, closing);
    assert Disposers(ran + more) == Disposers(ran) + e.disposers;
    Insert(Disposers(ran), e.disposers, Pending(after), Pending(before));
  }

  // ---- eviction -------------------------------------------------------------------------------------------

  /** What dropping up to `excess` entries that nothing uses leaves, and what it drops. */
  function Kept(entries: seq<Entry>, excess: int, running: set<nat>): seq<Entry> {
    if entries == [] || excess <= 0 then entries
    else if InUse(entries[0], running) then [entries[0]] + Kept(entries[1..], excess, running)
    else Kept(entries[1..], excess - 1, running)
  }

  function Victims(entries: seq<Entry>, excess: int, running: set<nat>): seq<Entry> {
    if entries == [] || excess <= 0 then []
    else if InUse(entries[0], running) then Victims(entries[1..], excess, running)
    else [entries[0]] + Victims(entries[1..], excess - 1, running)
  }

  function Used(entries: seq<Entry>, running: set<nat>): (r: seq<Entry>)
    ensures forall e :: e in r <==> e in entries && InUse(e, running)
  {
    if entries == [] then []
    else
      assert entries == [entries[0]] + entries[1..];
      (if InUse(entries[0], running) then [entries[0]] else []) + Used(entries[1..], running)
  }

  /** The point up to which entries that nothing uses are dropped. */
  function EvictionPoint(entries: seq<Entry>, excess: int, running: set<nat>): (point: nat)
    ensures point <= |entries|
  {
    if entries == [] || excess <= 0 then 0
    else 1 + EvictionPoint(entries[1..], if InUse(entries[0], running) then excess else excess - 1, running)
  }

  lemma {:induction false} KeptIs(entries: seq<Entry>, excess: int, running: set<nat>)
    ensures
      var point := EvictionPoint(entries, excess, running);
      Kept(entries, excess, running) == Used(entries[..point], running) + entries[point..]
    decreases entries
  {
    hide InUse;
    if entries != [] && excess > 0 {
      var first, rest := entries[0], entries[1..];
      var excess' := if InUse(first, running) then excess else excess - 1;
      var p := EvictionPoint(rest, excess', running);
      KeptIs(rest, excess', running);
      assert entries[..p + 1] == [first] + rest[..p] && entries[p + 1..] == rest[p..];
      UsedFirst(first, rest[..p], running);
      Associate([first], Used(rest[..p], running), rest[p..]);
    }
  }

  lemma {:induction false} VictimsAre(entries: seq<Entry>, excess: int, running: set<nat>)
    ensures
      var point := EvictionPoint(entries, excess, running);
      forall v :: v in Victims(entries, excess, running) ==> v in entries[..point] && !InUse(v, running)
    decreases entries
  {
    hide InUse;
    if entries != [] && excess > 0 {
      var first, rest := entries[0], entries[1..];
      var excess' := if InUse(first, running) then excess else excess - 1;
      VictimsAre(rest, excess', running);
      assert entries[..EvictionPoint(rest, excess', running) + 1] ==
        [first] + rest[..EvictionPoint(rest, excess', running)];
    }
  }

  lemma {:induction false} VictimsCount(entries: seq<Entry>, excess: int, running: set<nat>)
    ensures |Kept(entries, excess, running)| + |Victims(entries, excess, running)| == |entries|
    ensures excess >= 0 ==> |Victims(entries, excess, running)| <= excess
    ensures |Victims(entries, excess, running)| >= excess || EvictionPoint(entries, excess, running) == |entries|
    decreases entries
  {
    hide InUse;
    if entries != [] && excess > 0 {
      VictimsCount(entries[1..], if InUse(entries[0], running) then excess else excess - 1, running);
    }
  }

  /**
   * The victims are the first entries, in order, that nothing uses: up to some point all such entries go, after it
   * none does. Either the excess is gone, or everything left has a run, a pending callback or a running dispatch.
   */
  lemma EvictsLeastRecent(entries: seq<Entry>, excess: int, running: set<nat>) returns (point: nat)
    ensures point <= |entries|
    ensures Kept(entries, excess, running) == Used(entries[..point], running) + entries[point..]
    ensures forall e :: e in Used(entries[..point], running) <==>
      e in entries[..point] && (e.runs > 0 || e.disposers != [] || e.manager in running)
    ensures forall v <- Victims(entries, excess, running) ::
      v in entries[..point] && v.runs == 0 && v.disposers == [] && v.manager !in running
    ensures |Kept(entries, excess, running)| + |Victims(entries, excess, running)| == |entries|
    ensures excess >= 0 ==> |Victims(entries, excess, running)| <= excess
    ensures |Victims(entries, excess, running)| >= excess || point == |entries|
  {
    hide InUse, Kept, Victims, Used;
    KeptIs(entries, excess, running);
    VictimsAre(entries, excess, running);
    VictimsCount(entries, excess, running);
    point := EvictionPoint(entries, excess, running);
    forall e: Entry ensures InUse(e, running) <==> e.runs > 0 || e.disposers != [] || e.manager in running {
      InUseIs(e, running);
    }
  }

  lemma InUseIs(e: Entry, running: set<nat>)
    ensures InUse(e, running) <==> e.runs > 0 || e.disposers != [] || e.manager in running
  {
  }

  lemma UsedFirst(first: Entry, rest: seq<Entry>, running: set<nat>)
    ensures Used([first] + rest, running) == (if InUse(first, running) then [first] else []) + Used(rest, running)
  {
    assert ([first] + rest)[1..] == rest;
  }

  function Managers(entries: seq<Entry>): seq<nat> {
    seq(|entries|, i requires 0 <= i < |entries| => entries[i].manager)
  }

  /** One step of the eviction loop. */
  lemma EvictStep(all: seq<Entry>, i: nat, excess: int, running: set<nat>)
    requires i < |all| && excess > 0
    ensures
      var excess' := if InUse(all[i], running) then excess else excess - 1;
      && Kept(all[i..], excess, running) ==
         (if InUse(all[i], running) then [all[i]] else []) + Kept(all[i + 1..], excess', running)
      && Managers(Victims(all[i..], excess, running)) ==
         (if InUse(all[i], running) then [] else [all[i].manager]) + Managers(Victims(all[i + 1..], excess', running))
  {
    assert all[i..][1..] == all[i + 1..];
    var excess' := if InUse(all[i], running) then excess else excess - 1;
    var rest := Victims(all[i + 1..], excess', running);
    assert Managers([all[i]] + rest) == [all[i].manager] + Managers(rest);
  }

  /** Nothing in use is dropped, and nothing pending is lost. */
  lemma {:induction false} EvictionKeeps(entries: seq<Entry>, excess: int, running: set<nat>)
    ensures forall e :: e in Kept(entries, excess, running) ==> e in entries
    ensures forall e :: e in entries && (e.runs > 0 || e.disposers != [] || e.manager in running) ==>
      e in Kept(entries, excess, running)
    ensures forall e :: e in entries ==> e in Kept(entries, excess, running) || e in Victims(entries, excess, running)
    ensures forall v :: v in Victims(entries, excess, running) ==>
      v in entries && v.runs == 0 && v.disposers == [] && v.manager !in running
    ensures Pending(Kept(entries, excess, running)) == Pending(entries)
    decreases entries
  {
    if entries != [] && excess > 0 {
      assert entries == [entries[0]] + entries[1..];
      EvictionKeeps(entries[1..], if InUse(entries[0], running) then excess else excess - 1, running);
    }
  }

  // ---- order of use ---------------------------------------------------------------------------------------

  /** Entries stand in the order in which they were last attached. */
  ghost predicate ByUse(entries: seq<Entry>, attachedAt: map<string, nat>, clock: nat) {
    && (forall i :: 0 <= i < |entries| ==> entries[i].id in attachedAt && attachedAt[entries[i].id] < clock)
    && (forall i, j :: 0 <= i < j < |entries| ==> Before(attachedAt, entries[i], entries[j]))
  }

  ghost predicate Before(attachedAt: map<string, nat>, a: Entry, b: Entry) {
    a.id in attachedAt && b.id in attachedAt && attachedAt[a.id] < attachedAt[b.id]
  }

  /** Every entry is counted exactly, has a timer exactly while callbacks are pending, and none once all is closed. */
  ghost predicate EntryOk(e: Entry, closed: bool, using: multiset<string>, mixed: set<string>) {
    && (e.timer <==> e.disposers != [])
    && (closed ==> e.disposers == [])
    && (e.id !in mixed ==> e.runs == using[e.id])
  }

  ghost predicate EntriesOk(entries: seq<Entry>, closed: bool, using: multiset<string>, mixed: set<string>) {
    && (forall i :: 0 <= i < |entries| ==> EntryOk(entries[i], closed, using, mixed))
    && (forall id :: Position(entries, id) == |entries| && id !in mixed ==> using[id] == 0)
  }

  function RemoveAt(entries: seq<Entry>, i: nat): (r: seq<Entry>)
    requires i < |entries|
    ensures |r| == |entries| - 1
    ensures forall j :: 0 <= j < |r| ==> r[j] == entries[if j < i then j else j + 1]
  {
    entries[..i] + entries[i + 1..]
  }

  /** The entries once a run of session `id` attached: its entry is the last one, with one more run. */
  function Touched(entries: seq<Entry>, id: string, candidate: nat): (r: seq<Entry>)
    ensures r != [] && r[|r| - 1].id == id
  {
    var i := Position(entries, id);
    if i < |entries| then RemoveAt(entries, i) + [entries[i].(runs := entries[i].runs + 1)]
    else entries + [Entry(id, candidate, 1, [], false)]
  }

  lemma RemovedByUse(entries: seq<Entry>, attachedAt: map<string, nat>, clock: nat, p: nat)
    requires ByUse(entries, attachedAt, clock) && p < |entries|
    ensures ByUse(RemoveAt(entries, p), attachedAt, clock)
    ensures forall i :: 0 <= i < |RemoveAt(entries, p)| ==> RemoveAt(entries, p)[i].id != entries[p].id
  {
    hide RemoveAt;
    var after := RemoveAt(entries, p);
    forall i | 0 <= i < |after| ensures after[i].id != entries[p].id {
      assert i < p ==> Before(attachedAt, entries[i], entries[p]);
      assert i >= p ==> Before(attachedAt, entries[p], entries[i + 1]);
    }
    forall i, j | 0 <= i < j < |after| ensures Before(attachedAt, after[i], after[j]) {
      assert Before(attachedAt, entries[if i < p then i else i + 1], entries[if j < p then j else j + 1]);
    }
  }

  lemma AppendedByUse(entries: seq<Entry>, attachedAt: map<string, nat>, clock: nat, e: Entry)
    requires ByUse(entries, attachedAt, clock) && forall i :: 0 <= i < |entries| ==> entries[i].id != e.id
    ensures ByUse(entries + [e], attachedAt[e.id := clock], clock + 1)
  {
    var after := entries + [e];
    forall i, j | 0 <= i < j < |after| ensures Before(attachedAt[e.id := clock], after[i], after[j]) {
      if j < |entries| { assert Before(attachedAt, entries[i], entries[j]); }
    }
  }

  lemma TouchedByUse(entries: seq<Entry>, attachedAt: map<string, nat>, clock: nat, id: string, candidate: nat)
    requires ByUse(entries, attachedAt, clock)
    ensures ByUse(Touched(entries, id, candidate), attachedAt[id := clock], clock + 1)
  {
    hide Touched, ByUse, Position, RemoveAt;
    TouchedIs(entries, id, candidate);
    var p := Position(entries, id);
    if p < |entries| {
      RemovedByUse(entries, attachedAt, clock, p);
      AppendedByUse(RemoveAt(entries, p), attachedAt, clock, entries[p].(runs := entries[p].runs + 1));
    } else {
      AppendedByUse(entries, attachedAt, clock, Entry(id, candidate, 1, [], false));
    }
  }

  lemma TouchedOk(entries: seq<Entry>, attachedAt: map<string, nat>, clock: nat, closed: bool,
                  using: multiset<string>, mixed: set<string>, id: string, candidate: nat)
    requires ByUse(entries, attachedAt, clock) && EntriesOk(entries, closed, using, mixed)
    ensures EntriesOk(Touched(entries, id, candidate), closed, using + multiset{id}, mixed)
  {
    var p := Position(entries, id);
    var after, using' := Touched(entries, id, candidate), using + multiset{id};
    forall i | 0 <= i < |after| ensures EntryOk(after[i], closed, using', mixed) {
      if i < |after| - 1 {
        var i' := if i < p then i else i + 1;
        assert p < i' ==> Before(attachedAt, entries[p], entries[i']);
        assert EntryOk(entries[i'], closed, using, mixed);
      } else if p < |entries| {
        assert EntryOk(entries[p], closed, using, mixed);
      }
    }
    forall other | Position(after, other) == |after| && other !in mixed ensures using'[other] == 0 {
      assert after[|after| - 1].id == id;
      StillThere(entries, id, candidate, other);
    }
  }

  lemma StillThere(entries: seq<Entry>, id: string, candidate: nat, other: string)
    requires other != id
    ensures Position(entries, other) < |entries| ==>
      Position(Touched(entries, id, candidate), other) < |Touched(entries, id, candidate)|
  {
    var p, q := Position(entries, id), Position(entries, other);
    var after := Touched(entries, id, candidate);
    if q < |entries| {
      assert after[if q < p then q else q - 1] == entries[q];
    }
  }

  lemma PendingLast(entries: seq<Entry>, e: Entry)
    ensures Pending(entries + [e]) == Pending(entries) + e.disposers
  {
    PendingConcat(entries, [e]);
    assert Pending([e]) == e.disposers + Pending([e][1..]);
  }

  lemma TouchedPending(entries: seq<Entry>, id: string, candidate: nat)
    ensures multiset(Pending(Touched(entries, id, candidate))) == multiset(Pending(entries))
  {
    hide Touched, Position, Pending;
    TouchedIs(entries, id, candidate);
    var p := Position(entries, id);
    if p < |entries| {
      PendingAt(entries, p, entries[p]);
      assert entries[p := entries[p]] == entries;
      PendingLast(RemoveAt(entries, p), entries[p].(runs := entries[p].runs + 1));
    } else {
      PendingLast(entries, Entry(id, candidate, 1, [], false));
    }
  }

  lemma FirstBefore(entries: seq<Entry>, attachedAt: map<string, nat>, clock: nat)
    requires ByUse(entries, attachedAt, clock) && entries != []
    ensures ByUse(entries[1..], attachedAt, clock) && ByUse([entries[0]], attachedAt, clock)
    ensures forall e :: e in entries[1..] ==> Before(attachedAt, entries[0], e)
  {
    var rest := entries[1..];
    forall i, j | 0 <= i < j < |rest| ensures Before(attachedAt, rest[i], rest[j]) {
      assert Before(attachedAt, entries[i + 1], entries[j + 1]);
    }
    forall e | e in rest ensures Before(attachedAt, entries[0], e) {
      var k :| 0 <= k < |rest| && rest[k] == e;
      assert Before(attachedAt, entries[0], entries[k + 1]);
    }
  }

  lemma PutFirst(first: Entry, rest: seq<Entry>, attachedAt: map<string, nat>, clock: nat)
    requires ByUse([first], attachedAt, clock) && ByUse(rest, attachedAt, clock)
    requires forall e :: e in rest ==> Before(attachedAt, first, e)
    ensures ByUse([first] + rest, attachedAt, clock)
  {
    var all := [first] + rest;
    assert [first][0] == first;
    forall i, j | 0 <= i < j < |all| ensures Before(attachedAt, all[i], all[j]) {
      assert all[j] == rest[j - 1] && rest[j - 1] in rest;
      assert i > 0 ==> Before(attachedAt, rest[i - 1], rest[j - 1]);
    }
  }

  lemma {:induction false} KeptByUse(
    entries: seq<Entry>, excess: int, running: set<nat>, attachedAt: map<string, nat>, clock: nat)
    requires ByUse(entries, attachedAt, clock)
    ensures ByUse(Kept(entries, excess, running), attachedAt, clock)
    decreases entries
  {
    hide ByUse, Before, InUse;
    if entries != [] && excess > 0 {
      var first, rest := entries[0], entries[1..];
      var excess' := if InUse(first, running) then excess else excess - 1;
      FirstBefore(entries, attachedAt, clock);
      KeptByUse(rest, excess', running, attachedAt, clock);
      EvictionKeeps(rest, excess', running);
      PutFirst(first, Kept(rest, excess', running), attachedAt, clock);
    }
  }

  lemma KeptOk(entries: seq<Entry>, excess: int, running: set<nat>, closed: bool, using: multiset<string>,
    mixed: set<string>)
    requires EntriesOk(entries, closed, using, mixed)
    ensures EntriesOk(Kept(entries, excess, running), closed, using, mixed)
  {
    EvictionKeeps(entries, excess, running);
    var kept := Kept(entries, excess, running);
    forall i | 0 <= i < |kept| ensures EntryOk(kept[i], closed, using, mixed) {
      assert kept[i] in entries;
    }
    forall id | Position(kept, id) == |kept| && id !in mixed ensures using[id] == 0 {
      var p := Position(entries, id);
      if p < |entries| {
        assert EntryOk(entries[p], closed, using, mixed) && entries[p] in entries;
        assert entries[p] !in kept;
      }
    }
  }

  /** Changing one entry, and how often its session is in use. */
  lemma ReplacedOk(entries: seq<Entry>, attachedAt: map<string, nat>, clock: nat, closed: bool,
                   using: multiset<string>, using': multiset<string>, mixed: set<string>, p: nat, e: Entry)
    requires ByUse(entries, attachedAt, clock) && EntriesOk(entries, closed, using, mixed)
    requires p < |entries| && e.id == entries[p].id && EntryOk(e, closed, using', mixed)
    requires forall id :: id != e.id ==> using'[id] == using[id]
    ensures ByUse(entries[p := e], attachedAt, clock) && EntriesOk(entries[p := e], closed, using', mixed)
  {
    var after := entries[p := e];
    forall j, k | 0 <= j < k < |after| ensures Before(attachedAt, after[j], after[k]) {
      assert Before(attachedAt, entries[j], entries[k]);
    }
    forall j | 0 <= j < |after| ensures EntryOk(after[j], closed, using', mixed) {
      assert EntryOk(entries[j], closed, using, mixed);
      assert j < p ==> Before(attachedAt, entries[j], entries[p]);
      assert p < j ==> Before(attachedAt, entries[p], entries[j]);
    }
    forall id ensures Position(after, id) == |after| ==> Position(entries, id) == |entries| && id != e.id {
      var q := Position(entries, id);
      assert after[p].id == e.id;
      if q < |entries| { assert after[q].id == id; }
    }
  }

  lemma PendingSame(entries: seq<Entry>, p: nat, e: Entry)
    requires p < |entries| && e.disposers == entries[p].disposers
    ensures multiset(Pending(entries[p := e])) == multiset(Pending(entries))
  {
    PendingAt(entries, p, e);
    PendingAt(entries, p, entries[p]);
    assert entries[p := entries[p]] == entries;
  }

  /** A run of session `id` ended. */
  function Released(e: Entry): Entry {
    if e.runs > 0 then e.(runs := e.runs - 1) else e
  }

  function HeldBack(e: Entry, dispose: nat): Entry {
    e.(disposers := e.disposers + [dispose], timer := true)
  }

  lemma HeldBackMore(e: Entry, dispose: nat)
    ensures Released(e).disposers == e.disposers && HeldBack(Released(e), dispose).disposers == e.disposers + [dispose]
  {
  }

  lemma ReleaseKeeps(entries: seq<Entry>, attachedAt: map<string, nat>, clock: nat, closed: bool,
                     using: multiset<string>, mixed: set<string>, id: string, dispose: nat)
    requires ByUse(entries, attachedAt, clock) && EntriesOk(entries, closed, using, mixed)
    ensures
      var p := Position(entries, id);
      var using' := using - multiset{id};
      && (p == |entries| ==> EntriesOk(entries, closed, using', mixed))
      && (p < |entries| ==>
           var released := entries[p := Released(entries[p])];
           var held := entries[p := HeldBack(Released(entries[p]), dispose)];
           && ByUse(released, attachedAt, clock) && EntriesOk(released, closed, using', mixed)
           && (!closed ==> ByUse(held, attachedAt, clock) && EntriesOk(held, closed, using', mixed)))
  {
    hide ByUse;
    var p := Position(entries, id);
    var using' := using - multiset{id};
    if p < |entries| {
      assert EntryOk(entries[p], closed, using, mixed);
      ReplacedOk(entries, attachedAt, clock, closed, using, using', mixed, p, Released(entries[p]));
      if !closed {
        ReplacedOk(entries, attachedAt, clock, closed, using, using', mixed, p,
          HeldBack(Released(entries[p]), dispose));
      }
    } else {
      forall i | 0 <= i < |entries| ensures EntryOk(entries[i], closed, using', mixed) {
        assert EntryOk(entries[i], closed, using, mixed);
      }
    }
  }

  /** A callback that runs at once, */
  lemma GivenAndRun(given: multiset<nat>, ran: seq<Ran>, before: seq<Entry>, after: seq<Entry>, dispose: nat,
                    busy: bool, closed: bool)
    requires OnceEach(given, ran, before) && Polite(ran) && (busy ==> closed)
    requires multiset(Pending(before)) == multiset(Pending(after))
    ensures OnceEach(given + multiset{dispose}, ran + AllRan([dispose], busy, closed), after)
    ensures Polite(ran + AllRan([dispose], busy, closed))
  {
    hide Pending, Disposers, AllRan, Polite;
    var more := AllRan([dispose], busy, closed);
    DisposersMore(ran, [dispose], busy, closed);
    PoliteMore(ran, [dispose], busy, closed);
    OneMore(Disposers(ran), dispose, Pending(before), Pending(after));
  }

  lemma DisposersMore(ran: seq<Ran>, disposers: seq<nat>, busy: bool, closing: bool)
    ensures Disposers(ran + AllRan(disposers, busy, closing)) == Disposers(ran) + disposers
  {
    var more := AllRan(disposers, busy, closing);
    assert Disposers(more) == disposers;
    assert |Disposers(ran + more)| == |ran| + |disposers|;
  }

  lemma PoliteMore(ran: seq<Ran>, disposers: seq<nat>, busy: bool, closing: bool)
    requires Polite(ran) && (busy ==> closing)
    ensures Polite(ran + AllRan(disposers, busy, closing))
  {
  }

  lemma OneMore(a: seq<nat>, x: nat, before: seq<nat>, after: seq<nat>)
    requires multiset(before) == multiset(after)
    ensures multiset(a + [x] + after) == multiset(a + before) + multiset{x}
  {
  }

  /** and one that is held back. */
  lemma GivenAndPending(given: multiset<nat>, ran: seq<Ran>, entries: seq<Entry>, p: nat, e: Entry, dispose: nat)
    requires OnceEach(given, ran, entries) && p < |entries| && e.disposers == entries[p].disposers + [dispose]
    ensures OnceEach(given + multiset{dispose}, ran, entries[p := e]) && dispose in Pending(entries[p := e])
  {
    hide Pending;
    PendingAt(entries, p, e);
    PendingAt(entries, p, entries[p]);
    assert entries[p := entries[p]] == entries;
    var was, now := Pending(entries), Pending(entries[p := e]);
    assert multiset(now) == multiset(was) + multiset{dispose};
    assert dispose in multiset(now);
    assert multiset(Disposers(ran) + now) == multiset(Disposers(ran) + was) + multiset{dispose};
  }

  /** Where a session's entry is; past the end when there is no session, or none of it. */
  function Slot(entries: seq<Entry>, id: Option<string>): nat {
    if id.Some? then Position(entries, id.value) else |entries|
  }

  function UsingAfter(using: multiset<string>, id: Option<string>): multiset<string> {
    if id.Some? then using - multiset{id.value} else using
  }

  function Ended(entries: seq<Entry>, p: nat): seq<Entry> {
    if p < |entries| then entries[p := Released(entries[p])] else entries
  }

  function Held(entries: seq<Entry>, p: nat, dispose: nat): seq<Entry> {
    if p < |entries| then entries[p := HeldBack(Released(entries[p]), dispose)] else entries
  }

  lemma HeldIs(entries: seq<Entry>, p: nat, dispose: nat)
    requires p < |entries|
    ensures p < |Ended(entries, p)|
    ensures Ended(entries, p)[p := HeldBack(Ended(entries, p)[p], dispose)] == Held(entries, p, dispose)
  {
  }

  /** A release whose callback runs now keeps everything. */
  lemma RunsNow(entries: seq<Entry>, attachedAt: map<string, nat>, clock: nat, closed: bool, using: multiset<string>,
                mixed: set<string>, given: multiset<nat>, ran: seq<Ran>, id: Option<string>, dispose: nat, busy: bool)
    requires OnceEach(given, ran, entries) && Polite(ran) && (busy ==> closed)
    requires ByUse(entries, attachedAt, clock) && EntriesOk(entries, closed, using, mixed)
    ensures
      var after := Ended(entries, Slot(entries, id));
      var ran' := ran + AllRan([dispose], busy, closed);
      && OnceEach(given + multiset{dispose}, ran', after) && Polite(ran')
      && ByUse(after, attachedAt, clock) && EntriesOk(after, closed, UsingAfter(using, id), mixed)
  {
    hide OnceEach, Polite, ByUse, EntriesOk, Position, Pending, Released, HeldBack, AllRan;
    var p := Slot(entries, id);
    if id.Some? {
      ReleaseKeeps(entries, attachedAt, clock, closed, using, mixed, id.value, dispose);
    }
    if p < |entries| {
      HeldBackMore(entries[p], dispose);
      PendingSame(entries, p, Released(entries[p]));
    }
    GivenAndRun(given, ran, entries, Ended(entries, p), dispose, busy, closed);
  }

  /** A release whose callback is held back keeps everything. */
  lemma HoldsBack(entries: seq<Entry>, attachedAt: map<string, nat>, clock: nat, using: multiset<string>,
                  mixed: set<string>, given: multiset<nat>, ran: seq<Ran>, id: Option<string>, dispose: nat)
    requires OnceEach(given, ran, entries)
    requires ByUse(entries, attachedAt, clock) && EntriesOk(entries, false, using, mixed)
    requires Slot(entries, id) < |entries|
    ensures
      var after := Held(entries, Slot(entries, id), dispose);
      && OnceEach(given + multiset{dispose}, ran, after) && dispose in Pending(after)
      && ByUse(after, attachedAt, clock) && EntriesOk(after, false, UsingAfter(using, id), mixed)
  {
    hide OnceEach, ByUse, EntriesOk, Position, Pending, Released, HeldBack;
    var p := Slot(entries, id);
    ReleaseKeeps(entries, attachedAt, clock, false, using, mixed, id.value, dispose);
    HeldBackMore(entries[p], dispose);
    GivenAndPending(given, ran, entries, p, HeldBack(Released(entries[p]), dispose), dispose);
  }

  lemma PollKeeps(entries: seq<Entry>, attachedAt: map<string, nat>, clock: nat, closed: bool, using: multiset<string>,
                  mixed: set<string>, given: multiset<nat>, ran: seq<Ran>, p: nat)
    requires OnceEach(given, ran, entries) && Polite(ran)
    requires ByUse(entries, attachedAt, clock) && EntriesOk(entries, closed, using, mixed) && p < |entries|
    ensures
      var e := entries[p];
      var after := entries[p := e.(disposers := [], timer := false)];
      && OnceEach(given, ran + AllRan(e.disposers, false, false), after)
      && Polite(ran + AllRan(e.disposers, false, false))
      && ByUse(after, attachedAt, clock) && EntriesOk(after, closed, using, mixed)
  {
    hide Pending, Polite, OnceEach, ByUse;
    var e := entries[p].(disposers := [], timer := false);
    assert EntryOk(entries[p], closed, using, mixed);
    PendingAt(entries, p, e);
    PendingAt(entries, p, entries[p]);
    assert entries[p := entries[p]] == entries;
    RunKeeps(given, ran, entries, entries[p := e], entries[p], false, false);
    ReplacedOk(entries, attachedAt, clock, closed, using, using, mixed, p, e);
  }

  lemma CloseKeeps(entries: seq<Entry>, attachedAt: map<string, nat>, clock: nat, closed: bool, using: multiset<string>,
                   mixed: set<string>, given: multiset<nat>, ran: seq<Ran>, running: set<nat>, id: string)
    requires OnceEach(given, ran, entries) && Polite(ran)
    requires ByUse(entries, attachedAt, clock) && EntriesOk(entries, closed, using, mixed)
    ensures
      var p := Position(entries, id);
      var mixed' := if using[id] > 0 then mixed + {id} else mixed;
      && (p == |entries| ==> EntriesOk(entries, closed, using, mixed'))
      && (p < |entries| ==>
           var e, after := entries[p], RemoveAt(entries, p);
           var ran' := ran + AllRan(e.disposers, e.manager in running, true);
           && OnceEach(given, ran', after) && Polite(ran') && Position(after, id) == |after|
           && ByUse(after, attachedAt, clock) && EntriesOk(after, closed, using, mixed'))
  {
    hide Pending, Polite, OnceEach, ByUse, EntriesOk, RemoveAt;
    var p := Position(entries, id);
    RemovedOk(entries, attachedAt, clock, closed, using, mixed, id);
    if p < |entries| {
      PendingAt(entries, p, entries[p]);
      assert entries[p := entries[p]] == entries;
      assert RemoveAt(entries, p) == entries[..p] + entries[p + 1..];
      RunKeeps(given, ran, entries, RemoveAt(entries, p), entries[p], entries[p].manager in running, true);
      RemovedByUse(entries, attachedAt, clock, p);
    }
  }

  lemma RemovedOk(entries: seq<Entry>, attachedAt: map<string, nat>, clock: nat, closed: bool, using: multiset<string>,
                  mixed: set<string>, id: string)
    requires ByUse(entries, attachedAt, clock) && EntriesOk(entries, closed, using, mixed)
    ensures
      var p := Position(entries, id);
      var mixed' := if using[id] > 0 then mixed + {id} else mixed;
      EntriesOk(if p < |entries| then RemoveAt(entries, p) else entries, closed, using, mixed')
  {
    hide ByUse, RemoveAt;
    var p := Position(entries, id);
    var mixed' := if using[id] > 0 then mixed + {id} else mixed;
    forall i | 0 <= i < |entries| ensures EntryOk(entries[i], closed, using, mixed') {
      assert EntryOk(entries[i], closed, using, mixed);
    }
    if p < |entries| {
      var after := RemoveAt(entries, p);
      forall other | other !in mixed' && using[other] > 0 ensures Position(after, other) < |after| {
        StaysAfterRemoval(entries, p, other);
      }
    }
  }

  lemma StaysAfterRemoval(entries: seq<Entry>, p: nat, id: string)
    requires p < |entries| && Position(entries, id) < |entries| && Position(entries, id) != p
    ensures Position(RemoveAt(entries, p), id) < |RemoveAt(entries, p)|
  {
    hide RemoveAt;
    var q := Position(entries, id);
    assert RemoveAt(entries, p)[if q < p then q else q - 1] == entries[q];
  }

  /** One session is disposed during shutdown. */
  lemma DisposeKeeps(given: multiset<nat>, ran: seq<Ran>, entries: seq<Entry>, i: nat, running: set<nat>)
    requires i < |entries| && OnceEach(given, ran, entries[i..]) && Polite(ran)
    ensures
      var ran' := ran + AllRan(entries[i].disposers, entries[i].manager in running, true);
      OnceEach(given, ran', entries[i + 1..]) && Polite(ran')
    ensures Managers(entries[..i + 1]) == Managers(entries[..i]) + [entries[i].manager]
  {
    hide Polite, OnceEach;
    var rest := entries[i..];
    assert rest[1..] == entries[i + 1..] && rest[0] == entries[i];
    assert Pending(rest) == entries[i].disposers + Pending(entries[i + 1..]);
    RunKeeps(given, ran, rest, entries[i + 1..], entries[i], entries[i].manager in running, true);
  }

  lemma NothingLeft(attachedAt: map<string, nat>, clock: nat, using: multiset<string>, mixed: set<string>)
    requires forall id :: id in using ==> id in mixed
    ensures ByUse([], attachedAt, clock) && EntriesOk([], true, using, mixed)
  {
  }

  lemma AllRanOnce(given: multiset<nat>, ran: seq<Ran>)
    requires OnceEach(given, ran, [])
    ensures multiset(Disposers(ran)) == given
  {
    assert Disposers(ran) + [] == Disposers(ran);
  }

  lemma Reassociate<T>(a: seq<T>, x: T, b: seq<T>)
    ensures a + ([x] + b) == a + [x] + b && a + ([] + b) == a + b
  {
  }

  lemma IdleRunsNothing(e: Entry, running: set<nat>, ran: seq<Ran>)
    requires !InUse(e, running)
    ensures ran + AllRan(e.disposers, e.manager in running, true) == ran
  {
  }

  /** The eviction loop before entry `i`: `kept` and `disposed` so far, and `excess` still to go. */
  ghost predicate Evicting(
    all: seq<Entry>, total: int, first: seq<nat>, running: set<nat>, i: nat, excess: int, kept: seq<Entry>,
    disposed: seq<nat>)
  {
    && i <= |all|
    && kept + Kept(all[i..], excess, running) == Kept(all, total, running)
    && disposed + Managers(Victims(all[i..], excess, running)) == first + Managers(Victims(all, total, running))
  }

  lemma EvictStart(all: seq<Entry>, total: int, first: seq<nat>, running: set<nat>)
    ensures Evicting(all, total, first, running, 0, total, [], first)
  {
    assert all[0..] == all;
  }

  lemma EvictNext(
    all: seq<Entry>, total: int, first: seq<nat>, running: set<nat>, i: nat, excess: int, kept: seq<Entry>,
    disposed: seq<nat>)
    requires Evicting(all, total, first, running, i, excess, kept, disposed) && i < |all| && excess > 0
    ensures InUse(all[i], running) ==>
      Evicting(all, total, first, running, i + 1, excess, kept + [all[i]], disposed) &&
      kept + all[i..] == kept + [all[i]] + all[i + 1..]
    ensures !InUse(all[i], running) ==>
      Evicting(all, total, first, running, i + 1, excess - 1, kept, disposed + [all[i].manager])
  {
    hide Kept, Victims, InUse, Managers;
    EvictStep(all, i, excess, running);
    assert all[i..] == [all[i]] + all[i + 1..];
    Reassociate(kept, all[i], all[i + 1..]);
    Reassociate(kept, all[i], Kept(all[i + 1..], if InUse(all[i], running) then excess else excess - 1, running));
    Reassociate(disposed, all[i].manager,
      Managers(Victims(all[i + 1..], if InUse(all[i], running) then excess else excess - 1, running)));
  }

  lemma EvictEnd(
    all: seq<Entry>, total: int, first: seq<nat>, running: set<nat>, i: nat, excess: int, kept: seq<Entry>,
    disposed: seq<nat>)
    requires Evicting(all, total, first, running, i, excess, kept, disposed) && (i == |all| || excess <= 0)
    ensures kept + all[i..] == Kept(all, total, running)
    ensures disposed == first + Managers(Victims(all, total, running))
  {
    assert Managers([]) == [];
  }

  lemma SamePending(given: multiset<nat>, ran: seq<Ran>, before: seq<Entry>, after: seq<Entry>)
    requires OnceEach(given, ran, before) && multiset(Pending(before)) == multiset(Pending(after))
    ensures OnceEach(given, ran, after)
  {
    hide Pending;
  }

  lemma TouchedIs(entries: seq<Entry>, id: string, candidate: nat)
    ensures
      var p := Position(entries, id);
      Touched(entries, id, candidate) ==
      if p < |entries| then RemoveAt(entries, p) + [entries[p].(runs := entries[p].runs + 1)]
      else entries + [Entry(id, candidate, 1, [], false)]
  {
    hide Position, RemoveAt;
  }

  /** After eviction the entries are within the cap, or all in use. */
  lemma AllUsed(entries: seq<Entry>, excess: int, running: set<nat>)
    ensures |Kept(entries, excess, running)| <= |entries| - excess ||
      forall e <- Kept(entries, excess, running) :: e.runs > 0 || e.disposers != [] || e.manager in running
  {
    hide Kept, Victims, InUse;
    var point := EvictsLeastRecent(entries, excess, running);
    if point == |entries| {
      assert entries[point..] == [];
    }
  }

  lemma {:induction false} KeptPosition(entries: seq<Entry>, excess: int, running: set<nat>, e: Entry,
                                        attachedAt: map<string, nat>, clock: nat)
    requires e in entries && InUse(e, running) && ByUse(entries, attachedAt, clock)
    ensures
      var kept := Kept(entries, excess, running);
      var p := Position(kept, e.id);
      p < |kept| && kept[p] == e
  {
    hide Kept, InUse;
    EvictionKeeps(entries, excess, running);
    InUseIs(e, running);
    KeptByUse(entries, excess, running, attachedAt, clock);
    var kept := Kept(entries, excess, running);
    var k :| 0 <= k < |kept| && kept[k] == e;
    var p := Position(kept, e.id);
    DistinctIds(kept, attachedAt, clock, p, k);
  }

  lemma DistinctIds(entries: seq<Entry>, attachedAt: map<string, nat>, clock: nat, j: nat, k: nat)
    requires ByUse(entries, attachedAt, clock) && j < |entries| && k < |entries|
    ensures entries[j].id == entries[k].id ==> j == k
  {
    assert j < k ==> Before(attachedAt, entries[j], entries[k]);
    assert k < j ==> Before(attachedAt, entries[k], entries[j]);
  }

  /**
   * From `before` to `after` only entries are gone that had no run, no pending callback and no running dispatch; and of
   * these, whatever stays was used more recently than whatever is gone.
   */
  ghost predicate LeastRecentGone(before: seq<Entry>, after: seq<Entry>, running: set<nat>) {
    && (forall e <- after :: e in before)
    && (forall e <- before :: e in after || (e.runs == 0 && e.disposers == [] && e.manager !in running))
    && (forall i, j :: 0 <= i < j < |before| && before[i] in after && before[j] !in after ==>
         before[i].runs > 0 || before[i].disposers != [] || before[i].manager in running)
  }

  lemma {:induction false} KeptIsRecent(
    entries: seq<Entry>, excess: int, running: set<nat>, attachedAt: map<string, nat>, clock: nat)
    requires ByUse(entries, attachedAt, clock)
    ensures LeastRecentGone(entries, Kept(entries, excess, running), running)
    decreases entries
  {
    hide Kept, Victims, ByUse, Used, InUse, EvictionPoint, Pending;
    EvictionKeeps(entries, excess, running);
    var point := EvictsLeastRecent(entries, excess, running);
    var kept := Kept(entries, excess, running);
    forall i, j | 0 <= i < j < |entries| && entries[i] in kept && entries[j] !in kept
      ensures entries[i].runs > 0 || entries[i].disposers != [] || entries[i].manager in running
    {
      InSuffix(entries, point, j);
      NotInSuffix(entries, point, i, attachedAt, clock);
    }
  }

  lemma InSuffix(entries: seq<Entry>, point: nat, j: nat)
    requires j < |entries| && point <= |entries|
    ensures point <= j ==> entries[j] in entries[point..]
  {
    if point <= j { assert entries[point..][j - point] == entries[j]; }
  }

  lemma NotInSuffix(entries: seq<Entry>, point: nat, i: nat, attachedAt: map<string, nat>, clock: nat)
    requires i < point <= |entries| && ByUse(entries, attachedAt, clock)
    ensures entries[i] !in entries[point..]
  {
    forall k | point <= k < |entries| ensures entries[k] != entries[i] {
      DistinctIds(entries, attachedAt, clock, i, k);
    }
  }

  /** Nothing goes unless there are more entries than the cap. */
  lemma NoMoreThanNeeded(entries: seq<Entry>, maxIdle: int, running: set<nat>)
    ensures
      var kept := Kept(entries, |entries| - maxIdle, running);
      |kept| >= maxIdle || kept == entries
  {
    hide Kept, Victims, Used;
    var point := EvictsLeastRecent(entries, |entries| - maxIdle, running);
    if |entries| <= maxIdle { KeptAll(entries, |entries| - maxIdle, running); }
  }

  lemma KeptAll(entries: seq<Entry>, excess: int, running: set<nat>)
    requires excess <= 0
    ensures Kept(entries, excess, running) == entries
  {
  }

  /** What eviction after attaching takes: no more than needed, the least recently used first, and nothing in use. */
  lemma AttachEvicts(entries: seq<Entry>, attachedAt: map<string, nat>, clock: nat, running: set<nat>, id: string,
                     candidate: nat, maxIdle: int)
    requires ByUse(entries, attachedAt, clock)
    ensures
      var touched := Touched(entries, id, candidate);
      var kept := Kept(touched, |touched| - maxIdle, running);
      && (|kept| <= maxIdle || forall e <- kept :: e.runs > 0 || e.disposers != [] || e.manager in running)
      && LeastRecentGone(touched, kept, running) && (|kept| >= maxIdle || kept == touched)
  {
    hide ByUse, Position, Touched, Kept, Victims, LeastRecentGone;
    var touched := Touched(entries, id, candidate);
    var excess := |touched| - maxIdle;
    TouchedByUse(entries, attachedAt, clock, id, candidate);
    AllUsed(touched, excess, running);
    KeptIsRecent(touched, excess, running, attachedAt[id := clock], clock + 1);
    NoMoreThanNeeded(touched, maxIdle, running);
  }

  /** Attaching, eviction included, keeps everything; the session attached to is there. */
  lemma AttachKeeps(
    entries: seq<Entry>, attachedAt: map<string, nat>, clock: nat, closed: bool, using: multiset<string>,
    mixed: set<string>, given: multiset<nat>, ran: seq<Ran>, running: set<nat>, id: string, candidate: nat,
    maxIdle: int)
    requires OnceEach(given, ran, entries) && ByUse(entries, attachedAt, clock) &&
      EntriesOk(entries, closed, using, mixed)
    ensures
      var touched := Touched(entries, id, candidate);
      var kept := Kept(touched, |touched| - maxIdle, running);
      var p := Position(kept, id);
      && OnceEach(given, ran, kept) && ByUse(kept, attachedAt[id := clock], clock + 1)
      && EntriesOk(kept, closed, using + multiset{id}, mixed)
      && p < |kept| && kept[p] == touched[|touched| - 1]
  {
    hide ByUse, EntriesOk, OnceEach, Position, Touched, Kept, Victims, Pending, LeastRecentGone;
    var touched := Touched(entries, id, candidate);
    var excess := |touched| - maxIdle;
    TouchedByUse(entries, attachedAt, clock, id, candidate);
    TouchedOk(entries, attachedAt, clock, closed, using, mixed, id, candidate);
    TouchedPending(entries, id, candidate);
    SamePending(given, ran, entries, touched);
    KeptByUse(touched, excess, running, attachedAt[id := clock], clock + 1);
    KeptOk(touched, excess, running, closed, using + multiset{id}, mixed);
    EvictionKeeps(touched, excess, running);
    SamePending(given, ran, touched, Kept(touched, excess, running));
    TouchedIs(entries, id, candidate);
    KeptPosition(touched, excess, running, touched[|touched| - 1], attachedAt[id := clock], clock + 1);
  }

  class SessionDispatchRegistry {
    const maxIdle: int
    var entries: seq<Entry>
    var closed: bool
    /** The managers with a running dispatch, and those that were disposed. */
    var running: set<nat>
    var disposed: seq<nat>
    /** The dispose callbacks that ran. */
    var ran: seq<Ran>

    /** The callbacks given to Release; the runs attached and not yet released; the sessions closed while in use. */
    ghost var given: multiset<nat>
    ghost var using: multiset<string>
    ghost var mixed: set<string>
    ghost var attachedAt: map<string, nat>
    ghost var clock: nat

    ghost predicate Valid()
      reads this
    {
      && OnceEach(given, ran, entries) && Polite(ran)
      && ByUse(entries, attachedAt, clock)
      && EntriesOk(entries, closed, using, mixed)
    }

    constructor (maxIdle: int)
      ensures Valid() && entries == [] && !closed && ran == [] && this.maxIdle == maxIdle
    {
      this.maxIdle := maxIdle;
      entries, closed, running, disposed, ran := [], false, {}, [], [];
      given, using, mixed, attachedAt, clock := multiset{}, multiset{}, {}, map[], 0;
    }

    /** Dispatches start and settle on their own. */
    method DispatchesChange(running: set<nat>)
      requires Valid()
      modifies this`running
      ensures Valid() && this.running == running
    {
      this.running := running;
    }

    method RunAll(disposers: seq<nat>, busy: bool, closing: bool)
      modifies this`ran
      ensures ran == old(ran) + AllRan(disposers, busy, closing)
    {
      for i := 0 to |disposers|
        invariant ran == old(ran) + AllRan(disposers[..i], busy, closing)
      {
        ran := ran + [Ran(disposers[i], busy, closing)];
      }
      assert disposers[..|disposers|] == disposers;
    }

    method DisposeEntry(e: Entry)
      modifies this`ran, this`disposed
      ensures disposed == old(disposed) + [e.manager]
      ensures ran == old(ran) + AllRan(e.disposers, e.manager in running, true)
    {
      disposed := disposed + [e.manager];
      RunAll(e.disposers, e.manager in running, true);
    }

    /** A run starts using its session's manager; sessions beyond the cap that nothing uses are dropped. */
    method Attach(id: string, candidate: nat) returns (manager: nat)
      requires Valid()
      modifies this
      ensures Valid() && closed == old(closed) && ran == old(ran) && running == old(running) && given == old(given)
      ensures using == old(using) + multiset{id} && mixed == old(mixed)
      ensures
        var p := Position(old(entries), id);
        manager == if p < |old(entries)| then old(entries)[p].manager else candidate
      ensures
        var touched := Touched(old(entries), id, candidate);
        && entries == Kept(touched, |touched| - maxIdle, running)
        && disposed == old(disposed) + Managers(Victims(touched, |touched| - maxIdle, running))
      ensures |entries| <= maxIdle || forall e <- entries :: e.runs > 0 || e.disposers != [] || e.manager in running
      ensures LeastRecentGone(Touched(old(entries), id, candidate), entries, running)
      ensures |entries| >= maxIdle || entries == Touched(old(entries), id, candidate)
      ensures Position(entries, id) < |entries| && entries[Position(entries, id)].manager == manager
    {
      hide OnceEach, Polite, ByUse, EntriesOk, Position, Touched, Kept, Victims, InUse, LeastRecentGone, Managers,
        RemoveAt;
      AttachKeeps(entries, attachedAt, clock, closed, using, mixed, given, ran, running, id, candidate, maxIdle);
      AttachEvicts(entries, attachedAt, clock, running, id, candidate, maxIdle);
      TouchedIs(entries, id, candidate);
      ghost var touched := Touched(entries, id, candidate);
      var p := Position(entries, id);
      var entry := Entry(id, candidate, 0, [], false);
      if p < |entries| {
        entry := entries[p];
        entries := RemoveAt(entries, p);
      }
      entry := entry.(runs := entry.runs + 1);
      entries := entries + [entry];
      using, attachedAt, clock := using + multiset{id}, attachedAt[id := clock], clock + 1;
      Evict();
      manager := entry.manager;
    }

    /** Drops the least recently used sessions beyond the cap that nothing is using. */
    method Evict()
      modifies this`entries, this`disposed, this`ran
      ensures ran == old(ran)
      ensures entries == Kept(old(entries), |old(entries)| - maxIdle, running)
      ensures disposed == old(disposed) + Managers(Victims(old(entries), |old(entries)| - maxIdle, running))
    {
      hide InUse, Kept, Victims, Evicting, Managers;
      var all, excess := entries, |entries| - maxIdle;
      ghost var first := disposed;
      var kept: seq<Entry> := [];
      var i := 0;
      EvictStart(all, excess, disposed, running);
      while i < |all| && excess > 0
        invariant i <= |all| && entries == kept + all[i..] && ran == old(ran)
        invariant Evicting(all, |all| - maxIdle, first, running, i, excess, kept, disposed)
      {
        var entry := all[i];
        EvictNext(all, |all| - maxIdle, first, running, i, excess, kept, disposed);
        if InUse(entry, running) {
          kept := kept + [entry];
        } else {
          entries := kept + all[i + 1..];
          IdleRunsNothing(entry, running, ran);
          DisposeEntry(entry);
          excess := excess - 1;
        }
        i := i + 1;
      }
      EvictEnd(all, |all| - maxIdle, first, running, i, excess, kept, disposed);
    }

    /**
     * A run ended. Its resources go now; or later, if a dispatch of its session may still use them.
     * Without a session there is nothing to wait for.
     */
    method Release(id: Option<string>, dispose: nat)
      requires Valid()
      modifies this`entries, this`ran, this`given, this`using
      ensures Valid() && given == old(given) + multiset{dispose} && using == UsingAfter(old(using), id)
      ensures
        var p := Slot(old(entries), id);
        var busy := p < |old(entries)| && old(entries)[p].manager in running;
        if busy && !closed then
          ran == old(ran) && dispose in Pending(entries) && entries == Held(old(entries), p, dispose)
        else ran == old(ran) + AllRan([dispose], busy, closed) && entries == Ended(old(entries), p)
    {
      hide OnceEach, Polite, ByUse, EntriesOk, Slot, Pending, Ended, Held, UsingAfter, AllRan;
      ghost var was, before, used := entries, given, using;
      given, using := given + multiset{dispose}, UsingAfter(using, id);
      var p := Slot(entries, id);
      var busy := p < |entries| && entries[p].manager in running;
      if closed || !busy {
        RunsNow(was, attachedAt, clock, closed, used, mixed, before, ran, id, dispose, busy);
        EndRun(p);
        RunAll([dispose], busy, closed);
      } else {
        HoldsBack(was, attachedAt, clock, used, mixed, before, ran, id, dispose);
        EndRun(p);
        HoldBack(p, dispose);
        HeldIs(was, p, dispose);
      }
    }

    /** One run less uses the session. */
    method EndRun(p: nat)
      modifies this`entries
      ensures entries == Ended(old(entries), p) && |entries| == |old(entries)|
    {
      if p < |entries| {
        if entries[p].runs > 0 {
          entries := entries[p := entries[p].(runs := entries[p].runs - 1)];
        }
      }
    }

    /** Keeps a callback until the session's timer finds nothing running. */
    method HoldBack(p: nat, dispose: nat)
      requires p < |entries|
      modifies this`entries
      ensures entries == old(entries)[p := HeldBack(old(entries)[p], dispose)]
    {
      entries := entries[p := entries[p].(disposers := entries[p].disposers + [dispose])];
      if !entries[p].timer {
        entries := entries[p := entries[p].(timer := true)];
      }
    }

    /** The timer of a session fires: what it holds back is released once no dispatch of it is running. */
    method Poll(p: nat)
      requires Valid() && p < |entries| && entries[p].timer
      modifies this`entries, this`ran
      ensures Valid()
      ensures
        var e := old(entries)[p];
        if e.manager in running then entries == old(entries) && ran == old(ran)
        else
          && entries == old(entries)[p := e.(disposers := [], timer := false)]
          && ran == old(ran) + AllRan(e.disposers, false, false)
    {
      hide OnceEach, Polite, ByUse, EntriesOk, Pending;
      if entries[p].manager in running { return; }
      PollKeeps(entries, attachedAt, clock, closed, using, mixed, given, ran, p);
      var disposers := entries[p].disposers;
      entries := entries[p := entries[p].(timer := false)];
      entries := entries[p := entries[p].(disposers := [])];
      assert entries == old(entries)[p := old(entries)[p].(disposers := [], timer := false)];
      RunAll(disposers, false, false);
    }

    /** The session is gone: its manager is disposed and everything it held back is released. */
    method Close(id: string)
      requires Valid()
      modifies this`entries, this`ran, this`disposed, this`mixed
      ensures Valid() && Position(entries, id) == |entries|
      ensures
        var p := Position(old(entries), id);
        if p == |old(entries)| then entries == old(entries) && ran == old(ran) && disposed == old(disposed)
        else
          var e := old(entries)[p];
          && entries == RemoveAt(old(entries), p) && disposed == old(disposed) + [e.manager]
          && ran == old(ran) + AllRan(e.disposers, e.manager in running, true)
      ensures mixed == if using[id] > 0 then old(mixed) + {id} else old(mixed)
    {
      hide OnceEach, Polite, ByUse, EntriesOk, Position, Pending, RemoveAt;
      CloseKeeps(entries, attachedAt, clock, closed, using, mixed, given, ran, running, id);
      mixed := if using[id] > 0 then mixed + {id} else mixed;
      var p := Position(entries, id);
      if p == |entries| { return; }
      var entry := entries[p];
      entries := RemoveAt(entries, p);
      DisposeEntry(entry);
    }

    /** Shutdown: every manager is disposed, and every callback that was ever given has now run exactly once. */
    method DisposeAll()
      requires Valid()
      modifies this`entries, this`ran, this`disposed, this`closed, this`mixed
      ensures Valid() && closed && entries == [] && disposed == old(disposed) + Managers(old(entries))
      ensures multiset(Disposers(ran)) == given
    {
      hide OnceEach, Polite, ByUse, EntriesOk, Pending, Disposers;
      closed := true;
      assert entries[0..] == entries && Managers(entries[..0]) == [];
      for i := 0 to |entries|
        invariant closed && entries == old(entries)
        invariant OnceEach(given, ran, entries[i..]) && Polite(ran)
        invariant disposed == old(disposed) + Managers(entries[..i])
      {
        DisposeKeeps(given, ran, entries, i, running);
        DisposeEntry(entries[i]);
      }
      ghost var all := entries;
      assert all[|all|..] == [] && all[..|all|] == all;
      entries := [];
      mixed := mixed + (set id | id in using);
      AllRanOnce(given, ran);
      NothingLeft(attachedAt, clock, using, mixed);
    }

    // ---- what holds in every reachable state --------------------------------------------------------------

    /** A session with an unreleased run is in the registry, unless it was closed under that run. */
    lemma SessionsInUseStay(id: string)
      requires Valid()
      ensures using[id] > 0 && id !in mixed ==>
        Position(entries, id) < |entries| && entries[Position(entries, id)].runs == using[id]
    {
      if Position(entries, id) < |entries| {
        assert EntryOk(entries[Position(entries, id)], closed, using, mixed);
      }
    }

    /** A session's timer is set exactly while it holds something back. */
    lemma TimerIffPending(p: nat)
      requires Valid() && p < |entries|
      ensures entries[p].timer <==> entries[p].disposers != []
    {
      assert EntryOk(entries[p], closed, using, mixed);
    }

    /** Once the registry is closed nothing is held back: every callback ever given has run exactly once. */
    lemma ClosedHoldsNothing()
      requires Valid() && closed
      ensures multiset(Disposers(ran)) == given
    {
      hide Polite, ByUse, Disposers;
      forall e | e in entries ensures e.disposers == [] {
        var i :| 0 <= i < |entries| && entries[i] == e;
        assert EntryOk(entries[i], closed, using, mixed);
      }
      NoneHeld(entries);
      AllRanOnce(given, ran);
    }
  }

  lemma {:induction false} NoneHeld(entries: seq<Entry>)
    requires forall e :: e in entries ==> e.disposers == []
    ensures Pending(entries) == []
    decreases entries
  {
    if entries != [] {
      assert entries[0] in entries;
      NoneHeld(entries[1..]);
    }
  }
}
