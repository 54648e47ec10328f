/** Reserving names for worktrees across await points (apps/server/src/worktrees.ts, apps/server/src/workspaces.ts). */
module Worktrees {
  import opened Basics
  import opened Options
  import opened Decimals

  datatype Workspace = Workspace(id: string, path: string)

  datatype WorktreeRecord = WorktreeRecord(
    id: string, slug: string, branch: string, path: string, baseId: string, basePath: string)

  predicate IsWorktreeId(id: string) { "wt-" <= id }

  function IdOf(slug: string): string { "wt-" + slug }

  lemma IdsDiffer(a: string, b: string)
    ensures IsWorktreeId(IdOf(a)) && (IdOf(a) == IdOf(b) ==> a == b)
  {
    assert IdOf(a)[3..] == a && IdOf(b)[3..] == b;
  }

  function Ids(workspaces: seq<Workspace>): set<string> {
    set w <- workspaces :: w.id
  }

  /** The registered workspaces, in order, the default first; ids are unique. */
  class WorkspaceRegistry {
    var workspaces: seq<Workspace>
    var byId: map<string, Workspace>

    ghost predicate Valid()
      reads this
    {
      && workspaces != []
      && (forall i, j :: 0 <= i < j < |workspaces| ==> workspaces[i].id != workspaces[j].id)
      && (forall w <- workspaces :: w.id in byId && byId[w.id] == w)
      && byId.Keys == Ids(workspaces)
    }

    constructor (list: seq<Workspace>)
      requires list != [] && forall i, j :: 0 <= i < j < |list| ==> list[i].id != list[j].id
      ensures Valid() && workspaces == list
    {
      workspaces := list;
      byId := map i | 0 <= i < |list| :: list[i].id := list[i];
      new;
      forall w | w in list ensures w.id in byId && byId[w.id] == w {
        var i :| 0 <= i < |list| && list[i] == w;
        assert list[i].id in byId;
      }
    }

    /** Adds a workspace, unless its id is taken: that is an error. */
    method Register(w: Workspace) returns (ok: bool)
      requires Valid()
      modifies this
      ensures Valid() && (ok <==> w.id !in old(byId))
      ensures ok ==> workspaces == old(workspaces) + [w] && byId == old(byId)[w.id := w]
      ensures !ok ==> unchanged(this)
    {
      if w.id in byId { return false; }
      forall x | x in workspaces ensures x.id != w.id { assert x.id in byId; }
      workspaces := workspaces + [w];
      byId := byId[w.id := w];
      return true;
    }

    /** Removes a workspace; removing the default is an error. */
    method Unregister(id: string) returns (ok: bool)
      requires Valid()
      modifies this
      ensures Valid() && (ok <==> old(workspaces)[0].id != id)
      ensures ok ==> byId == old(byId) - {id} && workspaces[0] == old(workspaces)[0]
      ensures !ok ==> unchanged(this)
    {
      if workspaces[0].id == id { return false; }
      hide IndexOfId, Removed, Ids;
      RemovedIs(workspaces, id);
      RemovedIds(workspaces, id);
      Drop(id);
      byId := byId - {id};
      return true;
    }

    /** Takes the workspace with this id, if there is one, out of the list. */
    method Drop(id: string)
      modifies this`workspaces
      ensures workspaces == Removed(old(workspaces), id)
    {
      hide IndexOfId;
      var i := IndexOfId(workspaces, id);
      if i < |workspaces| {
        workspaces := workspaces[..i] + workspaces[i + 1..];
      }
    }
  }

  function Removed(workspaces: seq<Workspace>, id: string): seq<Workspace> {
    var i := IndexOfId(workspaces, id);
    if i < |workspaces| then workspaces[..i] + workspaces[i + 1..] else workspaces
  }

  function IndexOfId(workspaces: seq<Workspace>, id: string): (i: nat)
    ensures i <= |workspaces|
    ensures i < |workspaces| ==> workspaces[i].id == id
    ensures forall j :: 0 <= j < i ==> workspaces[j].id != id
  {
    FirstIndex(workspaces, (w: Workspace) => w.id == id)
  }

  lemma RemovedAt(workspaces: seq<Workspace>, id: string, k: nat)
    ensures
      var i, left := IndexOfId(workspaces, id), Removed(workspaces, id);
      && |left| == |workspaces| - (if i < |workspaces| then 1 else 0)
      && (k < |left| ==> left[k] == workspaces[if k < i then k else k + 1])
  {
    hide IndexOfId;
  }

  /** Removing an id takes away its workspace, and nothing else. */
  lemma RemovedIs(workspaces: seq<Workspace>, id: string)
    requires forall i, j :: 0 <= i < j < |workspaces| ==> workspaces[i].id != workspaces[j].id
    ensures
      var left, i := Removed(workspaces, id), IndexOfId(workspaces, id);
      && left == (if i < |workspaces| then workspaces[..i] + workspaces[i + 1..] else workspaces)
      && (forall i, j :: 0 <= i < j < |left| ==> left[i].id != left[j].id)
      && (forall w <- left :: w in workspaces && w.id != id)
      && (workspaces != [] && workspaces[0].id != id ==> left != [] && left[0] == workspaces[0])
  {
    hide IndexOfId, Removed;
    var i, left := IndexOfId(workspaces, id), Removed(workspaces, id);
    RemovedUnfolds(workspaces, id);
    RemovedAt(workspaces, id, 0);
    forall j, k | 0 <= j < k < |left| ensures left[j].id != left[k].id {
      RemovedAt(workspaces, id, j);
      RemovedAt(workspaces, id, k);
    }
    forall w | w in left ensures w in workspaces && w.id != id {
      var k :| 0 <= k < |left| && left[k] == w;
      RemovedAt(workspaces, id, k);
    }
  }

  lemma RemovedUnfolds(workspaces: seq<Workspace>, id: string)
    ensures
      var i := IndexOfId(workspaces, id);
      Removed(workspaces, id) == if i < |workspaces| then workspaces[..i] + workspaces[i + 1..] else workspaces
  {
  }

  lemma RemovedIds(workspaces: seq<Workspace>, id: string)
    requires forall w <- Removed(workspaces, id) :: w in workspaces && w.id != id
    ensures Ids(Removed(workspaces, id)) == Ids(workspaces) - {id}
  {
    hide IndexOfId, Removed;
    var i, left := IndexOfId(workspaces, id), Removed(workspaces, id);
    forall x | x in Ids(workspaces) && x != id ensures x in Ids(left) {
      var k :| 0 <= k < |workspaces| && workspaces[k].id == x;
      var k' := if k < i then k else k - 1;
      RemovedAt(workspaces, id, k');
      assert left[k'] == workspaces[k] && left[k'] in left;
    }
  }

  // ---- creating worktrees ---------------------------------------------------------------------------------

  const MAX_CANDIDATES: nat := 1000

  function Candidate(wanted: string, n: nat): string {
    if n == 1 then wanted else wanted + "-" + Digits(n)
  }

  /** The first candidate is the name itself, the second has `-2` after it, and no two are the same. */
  lemma CandidatesDiffer(wanted: string, m: nat, n: nat)
    requires 1 <= m < n
    ensures Candidate(wanted, 1) == wanted && Candidate(wanted, 2) == wanted + "-2"
    ensures Candidate(wanted, m) != Candidate(wanted, n)
  {
    hide Digits;
    TwoIsTwo();
    assert |Candidate(wanted, n)| > |wanted|;
    if Candidate(wanted, m) == Candidate(wanted, n) {
      if m > 1 {
        assert Candidate(wanted, m)[|wanted| + 1..] == Digits(m) && Candidate(wanted, n)[|wanted| + 1..] == Digits(n);
        DigitsDiffer(m, n);
      }
    }
  }

  lemma TwoIsTwo()
    ensures Digits(2) == "2"
  {
  }

  /** Where a create stands between two awaits. */
  datatype Create =
    /** About to ask whether a candidate is taken. */
    | Probing(base: Workspace, wanted: string, candidate: nat)
    /** Waiting for git to say whether the candidate's branch exists. */
    | Checking(base: Workspace, wanted: string, candidate: nat)
    /** Waiting for git to make the worktree. */
    | Creating(base: Workspace, slug: string)
    | Created(record: WorktreeRecord)
    /** An ordinary workspace got the id first: the checkout stays behind, unregistered. */
    | DuplicateId
    | FromWorktree | TooMany | GitFailed

  datatype Checkout = Checkout(path: string, branch: string)

  /** Creates that hold a slug hold it alone, in the reserved set, and no worktree has it. */
  ghost predicate Reserved(creates: map<nat, Create>, reserved: set<string>, managed: set<string>) {
    && (forall o <- creates :: creates[o].Creating? ==> creates[o].slug in reserved)
    && (forall o <- creates, p <- creates ::
         creates[o].Creating? && creates[p].Creating? && creates[o].slug == creates[p].slug ==> o == p)
    && (forall slug <- reserved ::
         IdOf(slug) !in managed && exists o :: o in creates && creates[o].Creating? && creates[o].slug == slug)
  }

  class WorktreeManager {
    const registry: WorkspaceRegistry
    var byId: map<string, WorktreeRecord>
    var reservedSlugs: set<string>
    /** The creates under way, and the worktrees being removed: a worktree's lock admits one removal at a time. */
    var creates: map<nat, Create>
    var removing: set<string>
    /** The ids of the workspaces that are no worktrees: those there at the start, and those opened since. */
    ghost var ordinary: set<string>

    ghost predicate Valid()
      reads this, registry
    {
      && registry.Valid() && registry.workspaces[0].id in ordinary
      && registry.byId.Keys == byId.Keys + ordinary && byId.Keys !! ordinary
      && (forall id <- byId :: byId[id].id == id && byId[id].id == IdOf(byId[id].slug))
      && removing <= byId.Keys
      && Reserved(creates, reservedSlugs, byId.Keys)
      && (forall o <- creates :: creates[o].Probing? || creates[o].Checking? ==> 1 <= creates[o].candidate <= 1000)
    }

    constructor (registry: WorkspaceRegistry)
      requires registry.Valid()
      ensures Valid() && this.registry == registry && byId == map[] && creates == map[]
      ensures ordinary == registry.byId.Keys
    {
      this.registry := registry;
      byId, reservedSlugs, creates, removing := map[], {}, map[], {};
      ordinary := registry.byId.Keys;
      new;
      assert registry.workspaces[0] in registry.workspaces;
    }

    /** A user opens a folder: it is registered unless its id is. */
    method OpenWorkspace(w: Workspace)
      requires Valid()
      modifies this`ordinary, registry
      ensures Valid()
      ensures
        if w.id in old(registry.byId) then ordinary == old(ordinary) && registry.byId == old(registry.byId)
        else ordinary == old(ordinary) + {w.id} && registry.byId == old(registry.byId)[w.id := w]
    {
      hide Reserved, Ids, IdOf, IsWorktreeId;
      if w.id !in registry.byId {
        var ok := registry.Register(w);
        ordinary := ordinary + {w.id};
      }
    }

    /** A user closes a workspace: a worktree, an unknown id and the default workspace are refused. */
    method CloseWorkspace(id: string) returns (ok: bool)
      requires Valid()
      modifies this`ordinary, registry
      ensures Valid()
      ensures ok <==> id in old(ordinary) && id != old(registry.workspaces)[0].id
      ensures ordinary == if ok then old(ordinary) - {id} else old(ordinary)
      ensures registry.byId == if ok then old(registry.byId) - {id} else old(registry.byId)
    {
      hide Reserved, Ids, IdOf, IsWorktreeId;
      if id in byId || id !in registry.byId { return false; }
      ok := registry.Unregister(id);
      if ok { ordinary := ordinary - {id}; }
    }

    /** A create gets its turn on the base repository. */
    method StartCreate(o: nat, base: Workspace, wanted: string)
      requires Valid() && o !in creates
      modifies this`creates
      ensures Valid()
      ensures creates == old(creates)[o := if base.id in byId then FromWorktree else Probing(base, wanted, 1)]
    {
      hide Reserved;
      var c := if base.id in byId then FromWorktree else Probing(base, wanted, 1);
      OtherKeeps(creates, reservedSlugs, byId.Keys, o, c);
      creates := creates[o := c];
    }

    predicate Taken(slug: string)
      reads this, registry
    {
      slug in reservedSlugs || IdOf(slug) in registry.byId
    }

    static function NextCandidate(base: Workspace, wanted: string, n: nat): Create {
      if n < MAX_CANDIDATES then Probing(base, wanted, n + 1) else TooMany
    }

    /** Asks whether the candidate is reserved or registered; if not, git is asked next. */
    method Probe(o: nat)
      requires Valid() && o in creates && creates[o].Probing?
      modifies this`creates
      ensures Valid()
      ensures
        var c := old(creates)[o];
        creates == old(creates)[o :=
          var slug := Candidate(c.wanted, c.candidate);
          if slug !in reservedSlugs && "wt-" + slug !in registry.byId then Checking(c.base, c.wanted, c.candidate)
          else if c.candidate == 1000 then TooMany
          else Probing(c.base, c.wanted, c.candidate + 1)]
    {
      hide Reserved, Candidate;
      var c := creates[o];
      OtherKeeps(creates, reservedSlugs, byId.Keys, o, NextCandidate(c.base, c.wanted, c.candidate));
      OtherKeeps(creates, reservedSlugs, byId.Keys, o, Checking(c.base, c.wanted, c.candidate));
      if Taken(Candidate(c.wanted, c.candidate)) {
        creates := creates[o := NextCandidate(c.base, c.wanted, c.candidate)];
      } else {
        creates := creates[o := Checking(c.base, c.wanted, c.candidate)];
      }
    }

    /**
     * Git answers, or fails. Meanwhile another create may have taken the candidate: that is asked again before the
     * slug is reserved.
     */
    method BranchChecked(o: nat, branchExists: Option<bool>)
      requires Valid() && o in creates && creates[o].Checking?
      modifies this`creates, this`reservedSlugs
      ensures Valid()
      ensures
        var c := old(creates)[o];
        var slug := Candidate(c.wanted, c.candidate);
        if branchExists == None then creates == old(creates)[o := GitFailed] && reservedSlugs == old(reservedSlugs)
        else if branchExists.value || slug in old(reservedSlugs) || "wt-" + slug in registry.byId then
          creates == old(creates)[o :=
            if c.candidate == 1000 then TooMany else Probing(c.base, c.wanted, c.candidate + 1)] &&
          reservedSlugs == old(reservedSlugs)
        else creates == old(creates)[o := Creating(c.base, slug)] && reservedSlugs == old(reservedSlugs) + {slug}
    {
      hide Reserved, Candidate;
      var c := creates[o];
      OtherKeeps(creates, reservedSlugs, byId.Keys, o, NextCandidate(c.base, c.wanted, c.candidate));
      OtherKeeps(creates, reservedSlugs, byId.Keys, o, GitFailed);
      if branchExists == None {
        creates := creates[o := GitFailed];
        return;
      }
      var slug := Candidate(c.wanted, c.candidate);
      if branchExists.value || Taken(slug) {
        creates := creates[o := NextCandidate(c.base, c.wanted, c.candidate)];
        return;
      }
      ReserveKeeps(creates, reservedSlugs, byId.Keys, o, c.base, slug);
      reservedSlugs := reservedSlugs + {slug};
      creates := creates[o := Creating(c.base, slug)];
    }

    /** Git has failed to make the worktree: the slug is free again. */
    method WorktreeNotMade(o: nat)
      requires Valid() && o in creates && creates[o].Creating?
      modifies this`creates, this`reservedSlugs
      ensures Valid() && creates == old(creates)[o := GitFailed]
      ensures reservedSlugs == old(reservedSlugs) - {old(creates)[o].slug}
    {
      hide Reserved, IdOf, IsWorktreeId, Ids;
      var slug := creates[o].slug;
      ReleaseKeeps(creates, reservedSlugs, byId.Keys, o, GitFailed);
      creates := creates[o := GitFailed];
      reservedSlugs := reservedSlugs - {slug};
    }

    /**
     * Git has made the worktree. Registering it meets a duplicate id exactly if an ordinary workspace got that id since
     * the slug was reserved; no other create, and no other worktree, can be in the way.
     */
    method WorktreeMade(o: nat, made: Checkout) returns (ok: bool)
      requires Valid() && o in creates && creates[o].Creating?
      modifies this`creates, this`reservedSlugs, this`byId, registry
      ensures Valid()
      ensures reservedSlugs == old(reservedSlugs) - {old(creates)[o].slug}
      ensures ok <==> IdOf(old(creates)[o].slug) !in ordinary
      ensures
        var c := old(creates)[o];
        var r := WorktreeRecord(IdOf(c.slug), c.slug, made.branch, made.path, c.base.id, c.base.path);
        if ok then
          && creates == old(creates)[o := Created(r)]
          && r.id !in old(byId) && byId == old(byId)[r.id := r]
          && registry.byId == old(registry.byId)[r.id := Workspace(r.id, r.path)]
        else creates == old(creates)[o := DuplicateId] && byId == old(byId) && registry.byId == old(registry.byId)
    {
      hide Reserved, IdOf, IsWorktreeId, Ids;
      var c := creates[o];
      var r := WorktreeRecord(IdOf(c.slug), c.slug, made.branch, made.path, c.base.id, c.base.path);
      IdsDiffer(c.slug, c.slug);
      ReleaseKeeps(creates, reservedSlugs, byId.Keys, o, Created(r));
      ReleaseKeeps(creates, reservedSlugs, byId.Keys, o, DuplicateId);
      ok := registry.Register(Workspace(r.id, r.path));
      if ok {
        ghost var managed := byId.Keys;
        byId := byId[r.id := r];
        assert byId.Keys == managed + {r.id};
        creates := creates[o := Created(r)];
      } else {
        creates := creates[o := DuplicateId];
      }
      reservedSlugs := reservedSlugs - {c.slug};
    }

    /** A removal gets the worktree's lock. */
    method StartRemove(id: string) returns (found: bool)
      requires Valid() && id !in removing
      modifies this`removing
      ensures Valid() && (found <==> id in byId)
      ensures removing == if found then old(removing) + {id} else old(removing)
    {
      found := id in byId;
      if found { removing := removing + {id}; }
    }

    /** Git has removed the worktree, or failed. */
    method WorktreeRemoved(id: string, ok: bool)
      requires Valid() && id in removing
      modifies this`byId, this`removing, registry
      ensures Valid() && removing == old(removing) - {id}
      ensures byId == (if ok then old(byId) - {id} else old(byId))
      ensures registry.byId == (if ok then old(registry.byId) - {id} else old(registry.byId))
    {
      hide Ids, IdOf, IsWorktreeId, Reserved;
      FewerManaged(creates, reservedSlugs, byId.Keys, id);
      removing := removing - {id};
      if ok {
        var unregistered := registry.Unregister(id);
        byId := byId - {id};
      }
    }

    // ---- what holds in every reachable state --------------------------------------------------------------

    /** Creates under way hold different slugs, and no worktree has one of them. */
    lemma SlugsAreDistinct(o: nat, p: nat)
      requires Valid() && o in creates && p in creates && creates[o].Creating? && creates[p].Creating?
      ensures creates[o].slug == creates[p].slug ==> o == p
      ensures IdOf(creates[o].slug) !in byId
      ensures IdOf(creates[o].slug) in registry.byId ==> IdOf(creates[o].slug) in ordinary
    {
    }

    /**
     * The manager's worktrees are exactly the registered workspaces with a worktree id, if and only if no ordinary
     * workspace has such an id.
     */
    lemma ManagedIffRegistered()
      requires Valid()
      ensures (forall id <- ordinary :: !IsWorktreeId(id)) <==>
        (forall id :: id in byId <==> IsWorktreeId(id) && exists w :: w in registry.workspaces && w.id == id)
    {
      forall id ensures id in registry.byId <==> exists w :: w in registry.workspaces && w.id == id {
        assert id in registry.byId <==> id in Ids(registry.workspaces);
      }
      forall id | id in byId ensures IsWorktreeId(id) { IdsDiffer(byId[id].slug, ""); }
    }
  }

  lemma ReserveKeeps(creates: map<nat, Create>, reserved: set<string>, managed: set<string>, o: nat,
    base: Workspace, slug: string)
    requires Reserved(creates, reserved, managed) && o in creates && creates[o].Checking?
    requires slug !in reserved && IdOf(slug) !in managed
    ensures Reserved(creates[o := Creating(base, slug)], reserved + {slug}, managed)
  {
    var after := creates[o := Creating(base, slug)];
    forall s | s in reserved + {slug}
      ensures IdOf(s) !in managed && exists p :: p in after && after[p].Creating? && after[p].slug == s
    {
      if s == slug {
        assert after[o].slug == slug;
      } else {
        var p :| p in creates && creates[p].Creating? && creates[p].slug == s;
        assert after[p] == creates[p];
      }
    }
  }

  lemma FewerManaged(creates: map<nat, Create>, reserved: set<string>, managed: set<string>, id: string)
    requires Reserved(creates, reserved, managed)
    ensures Reserved(creates, reserved, managed - {id})
  {
  }

  lemma OtherKeeps(creates: map<nat, Create>, reserved: set<string>, managed: set<string>, o: nat, c: Create)
    requires Reserved(creates, reserved, managed) && !c.Creating? && (o in creates ==> !creates[o].Creating?)
    ensures Reserved(creates[o := c], reserved, managed)
  {
    var after := creates[o := c];
    forall s | s in reserved ensures exists p :: p in after && after[p].Creating? && after[p].slug == s {
      var p :| p in creates && creates[p].Creating? && creates[p].slug == s;
      assert after[p] == creates[p];
    }
  }

  lemma ReleaseKeeps(creates: map<nat, Create>, reserved: set<string>, managed: set<string>, o: nat, c: Create)
    requires Reserved(creates, reserved, managed) && o in creates && creates[o].Creating? && !c.Creating?
    ensures
      var slug := creates[o].slug;
      && IdOf(slug) !in managed
      && Reserved(creates[o := c], reserved - {slug}, managed)
      && Reserved(creates[o := c], reserved - {slug}, managed + {IdOf(slug)})
  {
    var slug := creates[o].slug;
    var after := creates[o := c];
    forall s | s in reserved - {slug}
      ensures IdOf(s) !in managed + {IdOf(slug)}
      ensures exists p :: p in after && after[p].Creating? && after[p].slug == s
    {
      IdsDiffer(s, slug);
      var p :| p in creates && creates[p].Creating? && creates[p].slug == s;
      assert after[p] == creates[p];
    }
  }
}
