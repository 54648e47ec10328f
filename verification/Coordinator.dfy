/** Serialising the operations of one server on each repository (apps/server/src/coordinator.ts). */
module Coordination {
  import opened Options

  /**
   * How far a request is. The promise other requests wait for, its tail, settles after its body has settled;
   * after that a callback of its own removes the repository's entry if the entry is still this tail.
   */
  datatype Phase = Waiting | Running | Settled | TailSettled | Cleaned

  /** A request on a repository; `previous` is the request whose tail it was chained to. */
  datatype Request = Request(key: string, idle: bool, previous: Option<nat>, phase: Phase)

  /** An operation whose repository key is still being resolved. */
  datatype Submission = Submission(key: string, idle: bool)

  predicate Started(r: Request) { !r.phase.Waiting? }
  predicate Done(r: Request) { r.phase.TailSettled? || r.phase.Cleaned? }
  predicate BodyRuns(r: Request) { r.phase.Running? }

  /** How many transitions a request still has to make. */
  function ToGo(r: Request): nat {
    match r.phase
    case Waiting => 4
    case Running => 3
    case Settled => 2
    case TailSettled => 1
    case Cleaned => 0
  }

  function TotalToGo(requests: seq<Request>): nat {
    if requests == [] then 0 else ToGo(requests[0]) + TotalToGo(requests[1..])
  }

  lemma {:induction false} OneStepLess(requests: seq<Request>, i: nat, r: Request)
    requires i < |requests| && ToGo(r) < ToGo(requests[i])
    ensures TotalToGo(requests[i := r]) < TotalToGo(requests)
    decreases i
  {
    if i == 0 {
      assert requests[0 := r][1..] == requests[1..];
    } else {
      OneStepLess(requests[1..], i - 1, r);
      assert requests[i := r][1..] == requests[1..][i - 1 := r];
    }
  }

  lemma {:induction false} OneRequestMore(requests: seq<Request>, r: Request)
    ensures TotalToGo(requests + [r]) == TotalToGo(requests) + ToGo(r)
    decreases requests
  {
    if requests == [] {
      assert requests + [r] == [r] && [r][1..] == [];
    } else {
      OneRequestMore(requests[1..], r);
      assert (requests + [r])[1..] == requests[1..] + [r];
    }
  }

  // ---- what every step keeps ------------------------------------------------------------------------------

  /** An installed tail belongs to the last request on its repository; no tail means nothing is pending. */
  ghost predicate TailsValid(locks: map<string, nat>, requests: seq<Request>) {
    && (forall k <- locks ::
         && locks[k] < |requests| && requests[locks[k]].key == k && !requests[locks[k]].phase.Cleaned?
         && forall j :: locks[k] < j < |requests| ==> requests[j].key != k)
    && (forall i :: 0 <= i < |requests| && requests[i].key !in locks ==> Done(requests[i]))
  }

  /** Request `i` is chained to the one just before it on its repository, unless all before it are done. */
  ghost predicate Chained(requests: seq<Request>, i: nat)
    requires i < |requests|
  {
    if requests[i].previous.Some? then
      var p := requests[i].previous.value;
      p < i && requests[p].key == requests[i].key && forall j :: p < j < i ==> requests[j].key != requests[i].key
    else EarlierDone(requests, i)
  }

  ghost predicate EarlierDone(requests: seq<Request>, i: nat)
    requires i < |requests|
  {
    forall j :: 0 <= j < i && requests[j].key == requests[i].key ==> Done(requests[j])
  }

  ghost predicate ChainValid(requests: seq<Request>) {
    forall i :: 0 <= i < |requests| ==> Chained(requests, i)
  }

  /** A body begins only when every earlier request on the repository is done. */
  ghost predicate Serial(requests: seq<Request>) {
    forall i :: 0 <= i < |requests| && Started(requests[i]) ==> EarlierDone(requests, i)
  }

  /** Bodies began once each, and on every repository in the order of the requests. */
  ghost predicate InOrder(requests: seq<Request>, begun: seq<nat>) {
    && (forall i <- begun :: i < |requests| && Started(requests[i]))
    && (forall i :: 0 <= i < |requests| && Started(requests[i]) ==> i in begun)
    && (forall a, b :: 0 <= a < b < |begun| ==> begun[a] != begun[b])
    && (forall a, b :: 0 <= a < b < |begun| && SameKey(requests, begun[a], begun[b]) ==> begun[a] < begun[b])
  }

  /** An idle attempt is never between running and finished. */
  ghost predicate IdleIsBrief(requests: seq<Request>) {
    forall i :: 0 <= i < |requests| && requests[i].idle ==> requests[i].phase.Running? || requests[i].phase.Cleaned?
  }

  /** A request is tracked at least until its body has settled. */
  ghost predicate Tracked(requests: seq<Request>, operations: set<nat>) {
    && (forall i <- operations :: i < |requests|)
    && (forall i :: 0 <= i < |requests| && (requests[i].phase.Waiting? || requests[i].phase.Running?) ==>
        i in operations)
  }

  /**
   * What became of the operations whose key was found: every ordinary one, and every idle one that was let in, has a
   * request of its own, in the order in which they obtained their keys.
   */
  ghost predicate Answered(known: seq<Submission>, took: seq<Option<nat>>, requests: seq<Request>) {
    && |known| == |took|
    && (forall k :: 0 <= k < |known| ==> Answers(known[k], took[k], requests))
    && (forall j, k :: 0 <= j < k < |took| && took[j].Some? && took[k].Some? ==> took[j].value < took[k].value)
  }

  ghost predicate Answers(s: Submission, id: Option<nat>, requests: seq<Request>) {
    if id.None? then s.idle
    else id.value < |requests| && requests[id.value].key == s.key && requests[id.value].idle == s.idle
  }

  lemma OneMoreAnswer(
    known: seq<Submission>, took: seq<Option<nat>>, before: seq<Request>, s: Submission, id: Option<nat>,
    after: seq<Request>)
    requires Answered(known, took, before) && before <= after && Answers(s, id, after)
    requires id.Some? ==> id.value == |before|
    ensures Answered(known + [s], took + [id], after)
  {
    forall k | 0 <= k < |known| ensures Answers(known[k], took[k], after) { assert Answers(known[k], took[k], before); }
    forall j | 0 <= j < |took| && took[j].Some? ensures took[j].value < |before| {
      assert Answers(known[j], took[j], before);
    }
  }

  predicate SameKey(requests: seq<Request>, i: nat, j: nat) {
    i < |requests| && j < |requests| && requests[i].key == requests[j].key
  }

  function Moved(requests: seq<Request>, id: nat, phase: Phase): (r: seq<Request>)
    requires id < |requests|
    ensures |r| == |requests| && forall i :: 0 <= i < |r| ==>
      r[i].key == requests[i].key && r[i].previous == requests[i].previous && r[i].idle == requests[i].idle &&
      (i != id ==> r[i] == requests[i])
    ensures r[id].phase == phase
  {
    requests[id := requests[id].(phase := phase)]
  }

  /** A request that only gets further keeps every chain, */
  lemma MoveKeepsChain(requests: seq<Request>, id: nat, phase: Phase)
    requires id < |requests| && ChainValid(requests)
    requires Done(requests[id]) ==> phase.TailSettled? || phase.Cleaned?
    ensures ChainValid(Moved(requests, id, phase))
  {
    hide Moved;
    var after := Moved(requests, id, phase);
    forall i | 0 <= i < |requests| ensures Chained(after, i) {
      assert Chained(requests, i);
    }
  }

  /** and the serial order, if it had begun or everything before it is done. */
  lemma MoveKeepsSerial(requests: seq<Request>, id: nat, phase: Phase)
    requires id < |requests| && Serial(requests)
    requires Done(requests[id]) ==> phase.TailSettled? || phase.Cleaned?
    requires Started(requests[id]) || EarlierDone(requests, id)
    ensures Serial(Moved(requests, id, phase))
  {
    hide Moved;
    var after := Moved(requests, id, phase);
    forall i | 0 <= i < |requests| && Started(after[i]) ensures EarlierDone(after, i) {
      assert EarlierDone(requests, i);
    }
  }

  lemma MoveKeepsOrder(requests: seq<Request>, begun: seq<nat>, id: nat, phase: Phase)
    requires id < |requests| && InOrder(requests, begun) && Started(requests[id]) && !phase.Waiting?
    ensures InOrder(Moved(requests, id, phase), begun)
  {
    hide Moved;
    var after := Moved(requests, id, phase);
    forall i | 0 <= i < |after| && Started(after[i]) ensures i in begun {
      assert Started(requests[i]);
    }
    forall a, b | 0 <= a < b < |begun| && SameKey(after, begun[a], begun[b]) ensures begun[a] < begun[b] {
      assert SameKey(requests, begun[a], begun[b]);
    }
  }

  lemma MoveKeepsTails(locks: map<string, nat>, requests: seq<Request>, id: nat, phase: Phase)
    requires id < |requests| && TailsValid(locks, requests) && !phase.Cleaned?
    requires Done(requests[id]) ==> phase.TailSettled?
    ensures TailsValid(locks, Moved(requests, id, phase))
  {
    hide Moved;
  }

  /** Removing an entry only when it is the request's own leaves every later tail in place. */
  function Unlocked(locks: map<string, nat>, key: string, id: nat): map<string, nat> {
    if key in locks && locks[key] == id then locks - {key} else locks
  }

  lemma CleanUpKeepsTails(locks: map<string, nat>, requests: seq<Request>, id: nat)
    requires id < |requests| && TailsValid(locks, requests)
    requires Done(requests[id]) || EarlierDone(requests, id)
    requires Serial(requests) && Started(requests[id])
    ensures TailsValid(Unlocked(locks, requests[id].key, id), Moved(requests, id, Cleaned))
    ensures (exists j :: id < j < |requests| && requests[j].key == requests[id].key) ==>
      Unlocked(locks, requests[id].key, id) == locks
  {
    hide Moved;
    var after, locks' := Moved(requests, id, Cleaned), Unlocked(locks, requests[id].key, id);
    forall i | 0 <= i < |after| && after[i].key !in locks' ensures Done(after[i]) {
      if i != id && requests[i].key in locks {
        assert EarlierDone(requests, id);
      }
    }
  }

  /** A new request, chained to the installed tail if there is one. */
  lemma AddKeepsAll(locks: map<string, nat>, requests: seq<Request>, begun: seq<nat>, key: string)
    requires TailsValid(locks, requests) && ChainValid(requests) && Serial(requests) && InOrder(requests, begun)
    ensures
      var r := Request(key, false, if key in locks then Some(locks[key]) else None, Waiting);
      var after, locks' := requests + [r], locks[key := |requests|];
      TailsValid(locks', after) && ChainValid(after) && Serial(after) && InOrder(after, begun)
  {
    var r := Request(key, false, if key in locks then Some(locks[key]) else None, Waiting);
    var after := requests + [r];
    forall i | 0 <= i < |after| ensures Chained(after, i) && (Started(after[i]) ==> EarlierDone(after, i)) {
      if i < |requests| {
        assert Chained(requests, i) && after[i] == requests[i];
        assert Started(requests[i]) ==> EarlierDone(requests, i);
      }
    }
    GrowsInOrder(requests, begun, r);
  }

  lemma GrowsInOrder(requests: seq<Request>, begun: seq<nat>, r: Request)
    requires InOrder(requests, begun) && !Started(r)
    ensures InOrder(requests + [r], begun)
  {
    var after := requests + [r];
    forall i <- begun ensures i < |after| && Started(after[i]) { assert after[i] == requests[i]; }
    forall a, b | 0 <= a < b < |begun| && SameKey(after, begun[a], begun[b]) ensures begun[a] < begun[b] {
      assert begun[a] in begun && begun[b] in begun;
      assert SameKey(requests, begun[a], begun[b]);
    }
  }

  /** A body that begins joins the bodies that began, after all earlier ones on its repository. */
  lemma BeginKeepsOrder(requests: seq<Request>, begun: seq<nat>, id: nat)
    requires id < |requests| && requests[id].phase.Waiting? && InOrder(requests, begun) && Serial(requests)
    ensures InOrder(Moved(requests, id, Running), begun + [id])
  {
    hide Moved;
    var after, begun' := Moved(requests, id, Running), begun + [id];
    forall i | 0 <= i < |after| && Started(after[i]) ensures i in begun' {
      assert i != id ==> Started(requests[i]);
    }
    forall a, b | 0 <= a < b < |begun'|
      ensures begun'[a] != begun'[b] && (SameKey(after, begun'[a], begun'[b]) ==> begun'[a] < begun'[b])
    {
      assert begun'[a] == begun[a] && begun[a] in begun;
      if b < |begun| {
        assert SameKey(after, begun[a], begun[b]) ==> SameKey(requests, begun[a], begun[b]);
      } else if SameKey(after, begun[a], id) {
        assert EarlierDone(requests, begun[a]);
      }
    }
  }

  /** Whatever a request waits for having settled, everything before it is done. */
  lemma PreviousDoneMeansAllDone(requests: seq<Request>, id: nat)
    requires id < |requests| && ChainValid(requests) && Serial(requests)
    requires requests[id].previous.Some? ==>
      requests[id].previous.value < |requests| && Done(requests[requests[id].previous.value])
    ensures EarlierDone(requests, id)
  {
    assert Chained(requests, id);
    if requests[id].previous.Some? {
      var p := requests[id].previous.value;
      assert EarlierDone(requests, p);
    }
  }

  lemma StartedMeansEarlierDone(requests: seq<Request>, id: nat)
    requires id < |requests| && Serial(requests) && Started(requests[id])
    ensures EarlierDone(requests, id)
  {
  }

  /** No other body runs on the repository of a request that may begin. */
  lemma NoneRunsBeside(requests: seq<Request>, id: nat)
    requires id < |requests| && Serial(requests) && EarlierDone(requests, id) && requests[id].phase.Waiting?
    ensures forall i :: 0 <= i < |requests| && i != id && requests[i].key == requests[id].key ==> !BodyRuns(requests[i])
  {
    forall i | 0 <= i < |requests| && i != id && requests[i].key == requests[id].key ensures !BodyRuns(requests[i]) {
      assert BodyRuns(requests[i]) ==> EarlierDone(requests, i);
    }
  }

  /** A reservation on a repository without pending requests. */
  lemma ReserveKeepsAll(locks: map<string, nat>, requests: seq<Request>, begun: seq<nat>, key: string)
    requires TailsValid(locks, requests) && ChainValid(requests) && Serial(requests) && InOrder(requests, begun)
    requires key !in locks
    ensures
      var after, locks' := requests + [Request(key, true, None, Running)], locks[key := |requests|];
      && TailsValid(locks', after) && ChainValid(after) && Serial(after) && InOrder(after, begun + [|requests|])
      && EarlierDone(after, |requests|)
  {
    hide InOrder;
    var waiting := requests + [Request(key, true, None, Waiting)];
    var after := requests + [Request(key, true, None, Running)];
    forall i | 0 <= i < |after|
      ensures Chained(after, i) && (Started(after[i]) ==> EarlierDone(after, i)) && EarlierDone(waiting, |requests|)
      ensures Started(waiting[i]) ==> EarlierDone(waiting, i)
    {
      if i < |requests| {
        assert Chained(requests, i) && after[i] == requests[i];
        assert Started(requests[i]) ==> EarlierDone(requests, i);
      }
    }
    GrowsInOrder(requests, begun, waiting[|requests|]);
    BeginKeepsOrder(waiting, begun, |requests|);
    assert Moved(waiting, |requests|, Running) == after;
  }

  /** Later requests, and requests that get further, change no answer. */
  lemma OnlyGrows(known: seq<Submission>, took: seq<Option<nat>>, requests: seq<Request>)
    requires Answered(known, took, requests)
    ensures forall r :: Answered(known, took, requests + [r])
  {
    forall r ensures Answered(known, took, requests + [r]) {
      forall k | 0 <= k < |known| ensures Answers(known[k], took[k], requests + [r]) {
        assert Answers(known[k], took[k], requests);
      }
    }
  }

  /** Every operation is being looked up, was found, or was not. */
  ghost predicate Balanced(
    submitted: multiset<Submission>, known: seq<Submission>, failed: multiset<Submission>, resolving: seq<Submission>)
  {
    submitted == multiset(known) + failed + multiset(resolving)
  }

  lemma OneLooked(
    submitted: multiset<Submission>, known: seq<Submission>, failed: multiset<Submission>, resolving: seq<Submission>,
    n: nat)
    requires Balanced(submitted, known, failed, resolving) && n < |resolving|
    ensures Balanced(submitted, known + [resolving[n]], failed, resolving[..n] + resolving[n + 1..])
    ensures Balanced(submitted, known, failed + multiset{resolving[n]}, resolving[..n] + resolving[n + 1..])
  {
    assert resolving == resolving[..n] + [resolving[n]] + resolving[n + 1..];
  }

  lemma OneSubmitted(
    submitted: multiset<Submission>, known: seq<Submission>, failed: multiset<Submission>, resolving: seq<Submission>,
    s: Submission)
    requires Balanced(submitted, known, failed, resolving)
    ensures Balanced(submitted + multiset{s}, known, failed, resolving + [s])
  {
  }

  lemma NothingLeft(submitted: multiset<Submission>, known: seq<Submission>, failed: multiset<Submission>)
    requires Balanced(submitted, known, failed, [])
    ensures submitted == multiset(known) + failed
  {
  }

  /** The first `n` arrivals. */
  ghost function Came(arrivals: seq<Submission>, n: nat): multiset<Submission>
    requires n <= |arrivals|
  {
    multiset(arrivals[..n])
  }

  lemma OneMore(arrivals: seq<Submission>, n: nat)
    requires n < |arrivals|
    ensures Came(arrivals, n + 1) == Came(arrivals, n) + multiset{arrivals[n]}
  {
    assert arrivals[..n + 1] == arrivals[..n] + [arrivals[n]];
  }

  lemma NoneCame(arrivals: seq<Submission>)
    ensures Came(arrivals, 0) == multiset{}
  {
  }

  lemma ItAnswers(s: Submission, id: Option<nat>, before: seq<Request>, after: seq<Request>)
    requires
      if id.None? then s.idle && after == before
      else id.value == |before| && exists r :: after == before + [r] && r.key == s.key && r.idle == s.idle
    ensures before <= after && Answers(s, id, after)
  {
  }

  lemma MoveKeepsAnswers(known: seq<Submission>, took: seq<Option<nat>>, requests: seq<Request>, id: nat, phase: Phase)
    requires id < |requests| && Answered(known, took, requests)
    ensures Answered(known, took, requests[id := requests[id].(phase := phase)])
  {
    forall k | 0 <= k < |known| ensures Answers(known[k], took[k], requests[id := requests[id].(phase := phase)]) {
      assert Answers(known[k], took[k], requests);
    }
  }

  class ServerCoordinator {
    /** The request whose tail is installed for a repository. */
    var repositoryLocks: map<string, nat>
    /** All requests so far, in the order in which they obtained their repository's key. */
    var requests: seq<Request>
    /** What `drain` waits for: operations whose key is being resolved, and requests that have not settled. */
    var resolving: seq<Submission>
    var operations: set<nat>
    /** The order in which bodies began. */
    ghost var begun: seq<nat>
    /** All operations so far; those whose key was found, with their requests; and those whose key was not. */
    ghost var submitted: multiset<Submission>
    ghost var known: seq<Submission>
    ghost var took: seq<Option<nat>>
    ghost var failed: multiset<Submission>

    ghost predicate Valid()
      reads this
    {
      && TailsValid(repositoryLocks, requests) && ChainValid(requests) && Serial(requests)
      && InOrder(requests, begun) && IdleIsBrief(requests) && Tracked(requests, operations)
      && Answered(known, took, requests) && Balanced(submitted, known, failed, resolving)
    }

    constructor ()
      ensures Valid() && repositoryLocks == map[] && requests == [] && resolving == [] && operations == {} &&
        begun == [] && submitted == multiset{}
    {
      repositoryLocks, requests, resolving, operations, begun := map[], [], [], {}, [];
      submitted, known, took, failed := multiset{}, [], [], multiset{};
    }

    /** An operation arrives: it is tracked at once, and its key is looked up. */
    method Submit(s: Submission)
      requires Valid()
      modifies this`resolving, this`submitted
      ensures Valid() && resolving == old(resolving) + [s] && submitted == old(submitted) + multiset{s}
    {
      hide TailsValid, ChainValid, Serial, InOrder, IdleIsBrief, Answered, Tracked, Balanced;
      OneSubmitted(submitted, known, failed, resolving, s);
      resolving := resolving + [s];
      submitted := submitted + multiset{s};
    }

    /**
     * The key of an operation is known, or cannot be found: then the operation has failed. An ordinary operation is
     * chained to the installed tail, and its own is installed; an idle one runs at once, or is turned away.
     */
    method Resolve(n: nat, found: bool, admitted: bool)
      requires Valid() && n < |resolving|
      modifies this
      ensures Valid() && resolving == old(resolving)[..n] + old(resolving)[n + 1..] && submitted == old(submitted)
      ensures Weight(this, 0) < old(Weight(this, 0))
      ensures
        var s, id := old(resolving)[n], |old(requests)|;
        var installed := if s.key in old(repositoryLocks) then Some(old(repositoryLocks)[s.key]) else None;
        if found && !s.idle then
          && requests == old(requests) + [Request(s.key, false, installed, Waiting)]
          && repositoryLocks == old(repositoryLocks)[s.key := id] && operations == old(operations) + {id}
          && begun == old(begun) && known == old(known) + [s] && took == old(took) + [Some(id)]
        else if found && admitted && s.key !in old(repositoryLocks) then
          && requests == old(requests) + [Request(s.key, true, None, Running)]
          && repositoryLocks == old(repositoryLocks)[s.key := id] && operations == old(operations) + {id}
          && begun == old(begun) + [id] && known == old(known) + [s] && took == old(took) + [Some(id)]
        else
          && requests == old(requests) && repositoryLocks == old(repositoryLocks) && operations == old(operations)
          && begun == old(begun)
          && (if found then known == old(known) + [s] && took == old(took) + [None]
              else known == old(known) && took == old(took) && failed == old(failed) + multiset{s})
    {
      hide TailsValid, ChainValid, Serial, InOrder, IdleIsBrief, Answered, Tracked, TotalToGo, Answers, Balanced;
      var s := resolving[n];
      ghost var before := requests;
      ghost var id: Option<nat> := None;
      if found {
        if s.idle {
          id := TryWithIdleAgentMutation(s.key, admitted);
          if id.Some? { OneRequestMore(before, requests[id.value]); }
        } else {
          var request := WithRepository(s.key);
          OneRequestMore(before, requests[request]);
          id := Some(request);
        }
        ItAnswers(s, id, before, requests);
        OneMoreAnswer(known, took, before, s, id, requests);
      }
      Answer(n, found, id);
    }

    /** An operation is no longer looked up. */
    method Answer(n: nat, found: bool, ghost id: Option<nat>)
      requires Valid() && n < |resolving|
      requires found ==> Answered(known + [resolving[n]], took + [id], requests)
      modifies this`resolving, this`known, this`took, this`failed
      ensures Valid() && resolving == old(resolving)[..n] + old(resolving)[n + 1..]
      ensures
        var s := old(resolving)[n];
        if found then known == old(known) + [s] && took == old(took) + [id] && failed == old(failed)
        else known == old(known) && took == old(took) && failed == old(failed) + multiset{s}
    {
      hide TailsValid, ChainValid, Serial, InOrder, IdleIsBrief, Answered, Tracked, Balanced;
      OneLooked(submitted, known, failed, resolving, n);
      ghost var s := resolving[n];
      resolving := resolving[..n] + resolving[n + 1..];
      if found { known, took := known + [s], took + [id]; } else { failed := failed + multiset{s}; }
    }

    /** A settled operation is no longer tracked. */
    method Forget(id: nat)
      requires Valid() && id in operations && !requests[id].phase.Waiting? && !requests[id].phase.Running?
      modifies this`operations
      ensures Valid() && operations == old(operations) - {id}
    {
      operations := operations - {id};
    }

    /** A request obtains its key: it is chained to the installed tail and installs its own. */
    method WithRepository(key: string) returns (id: nat)
      requires Valid()
      modifies this`requests, this`repositoryLocks, this`operations
      ensures Valid()
      ensures id == |old(requests)| && repositoryLocks == old(repositoryLocks)[key := id] && begun == old(begun)
      ensures operations == old(operations) + {id}
      ensures
        var previous := if key in old(repositoryLocks) then Some(old(repositoryLocks)[key]) else None;
        requests == old(requests) + [Request(key, false, previous, Waiting)]
    {
      hide TailsValid, ChainValid, Serial, InOrder, Answered, Balanced;
      OnlyGrows(known, took, requests);
      AddKeepsAll(repositoryLocks, requests, begun, key);
      var previous := if key in repositoryLocks then Some(repositoryLocks[key]) else None;
      id := |requests|;
      requests := requests + [Request(key, false, previous, Waiting)];
      operations := operations + {id};
      repositoryLocks := repositoryLocks[key := id];
    }

    /** The promise a request waits for has settled. */
    predicate MayBegin(id: nat)
      requires id < |requests|
      reads this
    {
      requests[id].phase.Waiting? &&
      (requests[id].previous.None? ||
       (requests[id].previous.value < |requests| && Done(requests[requests[id].previous.value])))
    }

    /** A body begins: by then every earlier request on the repository is done. */
    method Begin(id: nat)
      requires Valid() && id < |requests| && MayBegin(id)
      modifies this`requests, this`begun
      ensures Valid() && requests == old(requests)[id := old(requests)[id].(phase := Running)]
      ensures begun == old(begun) + [id]
      ensures forall i :: 0 <= i < id && requests[i].key == requests[id].key ==> Done(requests[i])
      ensures forall i :: 0 <= i < |requests| && i != id && requests[i].key == requests[id].key ==>
        !BodyRuns(requests[i])
    {
      hide TailsValid, ChainValid, Serial, InOrder, Answered, Balanced;
      PreviousDoneMeansAllDone(requests, id);
      NoneRunsBeside(requests, id);
      MoveKeepsTails(repositoryLocks, requests, id, Running);
      MoveKeepsChain(requests, id, Running);
      MoveKeepsAnswers(known, took, requests, id, Running);
      MoveKeepsSerial(requests, id, Running);
      BeginKeepsOrder(requests, begun, id);
      requests := requests[id := requests[id].(phase := Running)];
      begun := begun + [id];
    }

    /** A body returns or throws. */
    method Settle(id: nat)
      requires Valid() && id < |requests| && requests[id].phase.Running? && !requests[id].idle
      modifies this`requests
      ensures Valid() && requests == old(requests)[id := old(requests)[id].(phase := Settled)]
    {
      hide TailsValid, ChainValid, Serial, InOrder, Answered, Balanced;
      MoveKeepsTails(repositoryLocks, requests, id, Settled);
      MoveKeepsChain(requests, id, Settled);
      MoveKeepsAnswers(known, took, requests, id, Settled);
      MoveKeepsSerial(requests, id, Settled);
      MoveKeepsOrder(requests, begun, id, Settled);
      requests := requests[id := requests[id].(phase := Settled)];
    }

    /** The tail settles, whether the body returned or threw. */
    method SettleTail(id: nat)
      requires Valid() && id < |requests| && requests[id].phase.Settled?
      modifies this`requests
      ensures Valid() && requests == old(requests)[id := old(requests)[id].(phase := TailSettled)]
    {
      hide TailsValid, ChainValid, Serial, InOrder, Answered, Balanced;
      MoveKeepsTails(repositoryLocks, requests, id, TailSettled);
      MoveKeepsChain(requests, id, TailSettled);
      MoveKeepsAnswers(known, took, requests, id, TailSettled);
      MoveKeepsSerial(requests, id, TailSettled);
      MoveKeepsOrder(requests, begun, id, TailSettled);
      requests := requests[id := requests[id].(phase := TailSettled)];
    }

    /** Removes the entry of a settled tail, but never the tail of a later request. */
    method CleanUp(id: nat)
      requires Valid() && id < |requests| && requests[id].phase.TailSettled?
      modifies this`requests, this`repositoryLocks
      ensures Valid() && requests == old(requests)[id := old(requests)[id].(phase := Cleaned)]
      ensures forall k :: k != requests[id].key ==>
        (k in repositoryLocks <==> k in old(repositoryLocks)) &&
        (k in repositoryLocks ==> repositoryLocks[k] == old(repositoryLocks)[k])
      ensures (exists j :: id < j < |requests| && requests[j].key == requests[id].key) ==>
        repositoryLocks == old(repositoryLocks)
    {
      hide TailsValid, ChainValid, Serial, InOrder, Answered, Balanced;
      StartedMeansEarlierDone(requests, id);
      CleanUpKeepsTails(repositoryLocks, requests, id);
      MoveKeepsChain(requests, id, Cleaned);
      MoveKeepsAnswers(known, took, requests, id, Cleaned);
      MoveKeepsSerial(requests, id, Cleaned);
      MoveKeepsOrder(requests, begun, id, Cleaned);
      var key := requests[id].key;
      requests := requests[id := requests[id].(phase := Cleaned)];
      if key in repositoryLocks && repositoryLocks[key] == id {
        repositoryLocks := repositoryLocks - {key};
      }
    }

    /**
     * An attempt to run while the repository is idle. `admitted` says whether the leases, the guard and the signal
     * let it; all of that is decided without giving up control, so a refused attempt leaves no trace.
     */
    method TryWithIdleAgentMutation(key: string, admitted: bool) returns (id: Option<nat>)
      requires Valid()
      modifies this`requests, this`repositoryLocks, this`operations, this`begun
      ensures Valid()
      ensures id.Some? <==> admitted && key !in old(repositoryLocks)
      ensures id.Some? ==>
        && operations == old(operations) + {id.value}
        && id.value == |old(requests)| && requests == old(requests) + [Request(key, true, None, Running)]
        && repositoryLocks == old(repositoryLocks)[key := id.value] && begun == old(begun) + [id.value]
        && forall i :: 0 <= i < |old(requests)| && requests[i].key == key ==> Done(requests[i])
      ensures id.None? ==> unchanged(this)
    {
      if key in repositoryLocks || !admitted {
        return None;
      }
      hide TailsValid, ChainValid, Serial, InOrder, Answered, Balanced;
      OnlyGrows(known, took, requests);
      ReserveKeepsAll(repositoryLocks, requests, begun, key);
      var reservation := |requests|;
      requests := requests + [Request(key, true, None, Running)];
      repositoryLocks := repositoryLocks[key := reservation];
      operations := operations + {reservation};
      begun := begun + [reservation];
      id := Some(reservation);
    }

    /** The idle body ends: the reservation is settled and removed in one step. */
    method FinishIdle(id: nat)
      requires Valid() && id < |requests| && requests[id].idle && requests[id].phase.Running?
      modifies this`requests, this`repositoryLocks
      ensures Valid() && requests == old(requests)[id := old(requests)[id].(phase := Cleaned)]
      ensures (exists j :: id < j < |requests| && requests[j].key == requests[id].key) ==>
        repositoryLocks == old(repositoryLocks)
    {
      hide TailsValid, ChainValid, Serial, InOrder, Answered, Balanced;
      StartedMeansEarlierDone(requests, id);
      CleanUpKeepsTails(repositoryLocks, requests, id);
      MoveKeepsChain(requests, id, Cleaned);
      MoveKeepsAnswers(known, took, requests, id, Cleaned);
      MoveKeepsSerial(requests, id, Cleaned);
      MoveKeepsOrder(requests, begun, id, Cleaned);
      var key := requests[id].key;
      requests := requests[id := requests[id].(phase := Cleaned)];
      if key in repositoryLocks && repositoryLocks[key] == id {
        repositoryLocks := repositoryLocks - {key};
      }
    }

    // ---- what holds in every reachable state --------------------------------------------------------------

    /** At most one body runs on a repository. */
    lemma AtMostOneBodyRuns(i: nat, j: nat)
      requires Valid() && i < |requests| && j < |requests| && requests[i].key == requests[j].key
      ensures BodyRuns(requests[i]) && BodyRuns(requests[j]) ==> i == j
    {
      hide TailsValid, ChainValid, InOrder;
      assert Started(requests[i]) ==> EarlierDone(requests, i);
      assert Started(requests[j]) ==> EarlierDone(requests, j);
    }

    /** A repository has an entry exactly as long as the last request on it is not cleaned up. */
    lemma EntryMeansPending(key: string)
      requires Valid()
      ensures key in repositoryLocks ==>
        exists i :: 0 <= i < |requests| && requests[i].key == key && !requests[i].phase.Cleaned?
      ensures key !in repositoryLocks ==> forall i :: 0 <= i < |requests| && requests[i].key == key ==>
        Done(requests[i])
    {
      if key in repositoryLocks {
        var last := repositoryLocks[key];
        assert requests[last].key == key && !requests[last].phase.Cleaned?;
      }
    }

    predicate Enabled(i: nat)
      requires i < |requests|
      reads this
    {
      match requests[i].phase
      case Waiting => MayBegin(i)
      case Running => true
      case Settled => !requests[i].idle
      case TailSettled => true
      case Cleaned => false
    }

    /** No deadlock: while anything is pending, something can go on. */
    lemma SomethingIsEnabled(i: nat) returns (next: nat)
      requires Valid() && i < |requests| && !requests[i].phase.Cleaned?
      ensures next <= i && Enabled(next)
      decreases i
    {
      if Enabled(i) {
        next := i;
      } else {
        assert Chained(requests, i);
        next := SomethingIsEnabled(requests[i].previous.value);
      }
    }

    /** One step of an enabled request. */
    method Advance(i: nat)
      requires Valid() && i < |requests| && Enabled(i)
      modifies this`requests, this`repositoryLocks, this`begun
      ensures Valid()
      ensures TotalToGo(requests) < TotalToGo(old(requests)) && |requests| == |old(requests)|
    {
      hide TailsValid, ChainValid, Serial, InOrder, TotalToGo, Answered, Balanced;
      ghost var before := requests;
      match requests[i].phase {
        case Waiting => Begin(i);
        case Running => if requests[i].idle { FinishIdle(i); } else { Settle(i); }
        case Settled => SettleTail(i);
        case TailSettled => CleanUp(i);
      }
      OneStepLess(before, i, requests[i]);
    }

    /** Whatever is scheduled next, everything comes to its end: every body begun, and no entry left. */
    method RunToEnd()
      requires Valid()
      modifies this
      ensures Valid() && |requests| == |old(requests)|
      ensures forall i :: 0 <= i < |requests| ==> requests[i].phase.Cleaned? && i in begun
      ensures repositoryLocks == map[]
    {
      while exists i :: 0 <= i < |requests| && !requests[i].phase.Cleaned?
        invariant Valid() && |requests| == |old(requests)|
        decreases TotalToGo(requests)
      {
        ghost var pending :| 0 <= pending < |requests| && !requests[pending].phase.Cleaned?;
        ghost var enabled := SomethingIsEnabled(pending);
        var next :| 0 <= next < |requests| && Enabled(next);
        Advance(next);
      }
      forall k ensures k !in repositoryLocks {
        EntryMeansPending(k);
      }
    }

    /** Some tracked operation can be forgotten, or something can go on. */
    lemma TrackedCanGoOn(id: nat)
      requires Valid() && id in operations
      ensures
        || (!requests[id].phase.Waiting? && !requests[id].phase.Running?)
        || exists i :: 0 <= i < |requests| && Enabled(i)
    {
      if requests[id].phase.Waiting? || requests[id].phase.Running? {
        var next := SomethingIsEnabled(id);
      }
    }

    /** One thing that happens to what is tracked: a key is found or not, a request goes on, or one is forgotten. */
    method GoOn()
      requires Valid() && (resolving != [] || operations != {})
      modifies this
      ensures Valid() && submitted == old(submitted) && old(known) <= known && old(took) <= took
      ensures Weight(this, 0) < old(Weight(this, 0))
    {
      hide TailsValid, ChainValid, Serial, InOrder, IdleIsBrief, TotalToGo, MayBegin, Answered, Balanced;
      if operations != {} {
        ghost var tracked :| tracked in operations;
        TrackedCanGoOn(tracked);
      }
      if
      case resolving != [] =>
        var n :| 0 <= n < |resolving|;
        var found: bool, admitted: bool := *, *;
        Resolve(n, found, admitted);
      case exists i :: 0 <= i < |requests| && Enabled(i) =>
        var next :| 0 <= next < |requests| && Enabled(next);
        Advance(next);
      case exists i :: i in operations && !requests[i].phase.Waiting? && !requests[i].phase.Running? =>
        var id :| id in operations && !requests[id].phase.Waiting? && !requests[id].phase.Running?;
        ghost var before := operations;
        Forget(id);
        assert before == operations + {id};
    }

    /**
     * Draining, while more operations arrive, as long as there are any: in whatever order things happen it ends, and
     * then no operation is tracked, and every one was answered. Each ordinary one whose key was found has a request
     * of its own, whose body began and settled.
     */
    method Drain(arrivals: seq<Submission>) returns (left: seq<Submission>)
      requires Valid()
      modifies this
      ensures Valid() && resolving == [] && operations == {}
      ensures |left| <= |arrivals| && left == arrivals[|arrivals| - |left|..]
      ensures submitted == old(submitted) + Came(arrivals, |arrivals| - |left|)
      ensures multiset(known) + failed == submitted && old(known) <= known && old(took) <= took
      ensures forall k :: 0 <= k < |known| && !known[k].idle ==>
        took[k].Some? && took[k].value in begun && Served(took[k].value, known[k])
      ensures forall i :: 0 <= i < |requests| ==>
        i in begun && !requests[i].phase.Waiting? && !requests[i].phase.Running?
    {
      hide TailsValid, ChainValid, Serial, InOrder, IdleIsBrief, TotalToGo, Answered, Tracked, Served, Balanced, Came;
      left := arrivals;
      NoneCame(arrivals);
      while resolving != [] || operations != {}
        invariant Valid() && |left| <= |arrivals| && left == arrivals[|arrivals| - |left|..]
        invariant submitted == old(submitted) + Came(arrivals, |arrivals| - |left|)
        invariant old(known) <= known && old(took) <= took
        decreases Weight(this, |left|)
      {
        if
        case left != [] =>
          OneMore(arrivals, |arrivals| - |left|);
          Submit(left[0]);
          left := left[1..];
        case true =>
          GoOn();
      }
      AllBegun();
      AllServed();
      NothingLeft(submitted, known, failed);
    }

    /** A request of this operation, whose body has settled. */
    predicate Served(id: nat, s: Submission)
      reads this
    {
      && id < |requests| && requests[id].key == s.key && requests[id].idle == s.idle
      && !requests[id].phase.Waiting? && !requests[id].phase.Running?
    }

    lemma AllServed()
      requires Valid() && operations == {}
      ensures forall k :: 0 <= k < |known| && !known[k].idle ==>
        took[k].Some? && took[k].value in begun && Served(took[k].value, known[k])
    {
      hide TailsValid, ChainValid, Serial, InOrder;
      AllBegun();
      forall k | 0 <= k < |known| && !known[k].idle
        ensures took[k].Some? && took[k].value in begun && Served(took[k].value, known[k])
      {
        assert Answers(known[k], took[k], requests);
      }
    }

    lemma AllBegun()
      requires Valid() && operations == {}
      ensures forall i :: 0 <= i < |requests| ==>
        i in begun && !requests[i].phase.Waiting? && !requests[i].phase.Running?
    {
      forall i | 0 <= i < |requests| ensures i in begun && !requests[i].phase.Waiting? && !requests[i].phase.Running? {
        assert i !in operations;
      }
    }
  }

  /** How much is left to happen, with so many arrivals to come. */
  ghost function Weight(c: ServerCoordinator, arrivals: nat): nat
    reads c
  {
    7 * arrivals + 6 * |c.resolving| + TotalToGo(c.requests) + |c.operations|
  }
}
