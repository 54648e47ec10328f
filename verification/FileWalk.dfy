/** The breadth-first walk of a workspace, and the cached listing on it (apps/server/src/file-scan-search.ts). */
module FileWalk {
  import opened Basics
  import opened Sorting

  // ---- directory trees ------------------------------------------------------------------------------------

  /** What a directory holds; a directory may refuse to be read. */
  datatype Node =
    | File(name: string)
    | Directory(name: string, readable: bool, children: seq<Node>)
    | Link(name: string)
    | Other(name: string)

  /** The directories that are always skipped, and the ignore rules: a frame per directory. */
  datatype Rules<!F> = Rules(floor: set<string>, root: F, ignores: (F, string, bool) -> bool, descend: (F, string) -> F)

  /** Where a character stands by its first UTF-16 code unit: surrogates come before U+E000 and what follows it. */
  function Rank(c: char): nat {
    if '\U{e000}' <= c <= '\U{ffff}' then c as int + 0x11_0000 else c as int
  }

  /** Order of strings by code unit. */
  predicate Less(a: string, b: string) {
    b != "" && (a == "" || Rank(a[0]) < Rank(b[0]) || (a[0] == b[0] && Less(a[1..], b[1..])))
  }

  /** The UTF-16 code units of a text. */
  function Units(s: string): seq<nat> {
    if s == "" then []
    else
      var n := s[0] as int;
      (if n < 0x1_0000 then [n] else [0xD800 + (n - 0x1_0000) / 0x400, 0xDC00 + (n - 0x1_0000) % 0x400]) + Units(s[1..])
  }

  predicate Precedes(a: seq<nat>, b: seq<nat>) {
    b != [] && (a == [] || a[0] < b[0] || (a[0] == b[0] && Precedes(a[1..], b[1..])))
  }

  /** The order is that of the code units, one after the other. */
  lemma {:induction false} LessIsByUnit(a: string, b: string)
    ensures Less(a, b) <==> Precedes(Units(a), Units(b))
    decreases a
  {
    if a != "" && b != "" {
      var m, n := a[0] as int, b[0] as int;
      var x, y := Units(a[1..]), Units(b[1..]);
      if m == n {
        LessIsByUnit(a[1..], b[1..]);
        Skip(m, x, y);
      } else if m >= 0x1_0000 && n >= 0x1_0000 {
        Pairs(m - 0x1_0000, n - 0x1_0000);
        assert Units(a)[1..][0] == 0xDC00 + (m - 0x1_0000) % 0x400;
        assert Units(b)[1..][0] == 0xDC00 + (n - 0x1_0000) % 0x400;
      }
    }
  }

  lemma Skip(n: nat, x: seq<nat>, y: seq<nat>)
    ensures Precedes([n] + x, [n] + y) <==> Precedes(x, y)
    ensures forall k: nat :: Precedes([n, k] + x, [n, k] + y) <==> Precedes(x, y)
  {
    assert ([n] + x)[1..] == x && ([n] + y)[1..] == y;
    forall k: nat ensures Precedes([n, k] + x, [n, k] + y) <==> Precedes(x, y) {
      assert ([n, k] + x)[1..] == [k] + x && ([n, k] + y)[1..] == [k] + y;
      assert ([k] + x)[1..] == x && ([k] + y)[1..] == y;
    }
  }

  lemma Pairs(m: nat, n: nat)
    ensures m < n <==> m / 0x400 < n / 0x400 || (m / 0x400 == n / 0x400 && m % 0x400 < n % 0x400)
  {
  }

  lemma {:induction false} LessTrans(a: string, b: string, c: string)
    requires !Less(b, a) && !Less(c, b)
    ensures !Less(c, a)
    decreases a, b, c
  {
    if a != "" && b != "" && c != "" && a[0] == b[0] == c[0] {
      LessTrans(a[1..], b[1..], c[1..]);
    }
  }

  lemma {:induction false} LessAsymmetric(a: string, b: string)
    ensures !(Less(a, b) && Less(b, a))
    decreases a
  {
    if a != "" && b != "" && a[0] == b[0] { LessAsymmetric(a[1..], b[1..]); }
  }

  function InsertEntry(e: Node, s: seq<Node>): seq<Node> {
    if s == [] || Less(e.name, s[0].name) then [e] + s else [s[0]] + InsertEntry(e, s[1..])
  }

  /** `entries.sort(…)` by name; equal names, which a directory does not have, would keep their order. */
  function SortEntries(s: seq<Node>): seq<Node> {
    if s == [] then [] else InsertEntry(s[|s| - 1], SortEntries(s[..|s| - 1]))
  }

  ghost predicate ByName(s: seq<Node>) {
    forall i, j :: 0 <= i < j < |s| ==> !Less(s[j].name, s[i].name)
  }

  lemma {:induction false} InsertByName(e: Node, s: seq<Node>)
    requires ByName(s)
    ensures ByName(InsertEntry(e, s)) && forall x :: x in InsertEntry(e, s) <==> x == e || x in s
    decreases s
  {
    if s != [] {
      assert s == [s[0]] + s[1..];
      if Less(e.name, s[0].name) {
        LessAsymmetric(e.name, s[0].name);
        LessAsymmetric(s[0].name, s[0].name);
        forall k | 0 <= k < |s| ensures !Less(s[k].name, e.name) {
          LessTrans(e.name, s[0].name, s[k].name);
        }
      } else {
        InsertByName(e, s[1..]);
        var rest := InsertEntry(e, s[1..]);
        forall k | 0 <= k < |rest| ensures !Less(rest[k].name, s[0].name) {
          assert rest[k] in rest;
        }
      }
    }
  }

  /** The entries of a directory are visited in order of their names. */
  lemma {:induction false} SortedByName(s: seq<Node>)
    ensures ByName(SortEntries(s))
    decreases s
  {
    if s != [] {
      SortedByName(s[..|s| - 1]);
      InsertByName(s[|s| - 1], SortEntries(s[..|s| - 1]));
    }
  }

  // ---- what a directory contributes -----------------------------------------------------------------------

  /** A directory waiting to be read. */
  datatype Item<!F> = Item(rel: string, frame: F, children: seq<Node>, readable: bool)

  function ChildRel(rel: string, name: string): string {
    if rel == "" then name else rel + "/" + name
  }

  predicate KeptFile<F>(r: Rules<F>, rel: string, frame: F, e: Node) {
    e.File? && !r.ignores(frame, ChildRel(rel, e.name), false)
  }

  predicate KeptDirectory<F>(r: Rules<F>, rel: string, frame: F, e: Node) {
    e.Directory? && e.name !in r.floor && !("." <= e.name) && !r.ignores(frame, ChildRel(rel, e.name), true)
  }

  function Enter<F>(r: Rules<F>, rel: string, frame: F, e: Node): Item<F>
    requires e.Directory?
  {
    var child := ChildRel(rel, e.name);
    Item(child, r.descend(frame, child), e.children, e.readable)
  }

  function FilesIn<F>(r: Rules<F>, rel: string, frame: F, entries: seq<Node>): seq<string> {
    if entries == [] then []
    else
      (if KeptFile(r, rel, frame, entries[0]) then [ChildRel(rel, entries[0].name)] else [])
      + FilesIn(r, rel, frame, entries[1..])
  }

  function DirsIn<F>(r: Rules<F>, rel: string, frame: F, entries: seq<Node>): seq<Item<F>> {
    if entries == [] then []
    else
      (if KeptDirectory(r, rel, frame, entries[0]) then [Enter(r, rel, frame, entries[0])] else [])
      + DirsIn(r, rel, frame, entries[1..])
  }

  function Entries<F>(i: Item<F>): seq<Node> {
    if i.readable then SortEntries(i.children) else []
  }

  function Files<F>(r: Rules<F>, i: Item<F>): seq<string> { FilesIn(r, i.rel, i.frame, Entries(i)) }
  function Dirs<F>(r: Rules<F>, i: Item<F>): seq<Item<F>> { DirsIn(r, i.rel, i.frame, Entries(i)) }

  // ---- sizes ----------------------------------------------------------------------------------------------

  function Size(e: Node): nat {
    match e
    case Directory(_, _, children) => 1 + SizeAll(children)
    case _ => 1
  }

  function SizeAll(s: seq<Node>): nat {
    if s == [] then 0 else Size(s[0]) + SizeAll(s[1..])
  }

  function QueueSize<F>(queue: seq<Item<F>>): nat {
    if queue == [] then 0 else 1 + SizeAll(queue[0].children) + QueueSize(queue[1..])
  }

  lemma {:induction false} SizeInsert(e: Node, s: seq<Node>)
    ensures SizeAll(InsertEntry(e, s)) == Size(e) + SizeAll(s)
    decreases s
  {
    if s != [] && !Less(e.name, s[0].name) {
      SizeInsert(e, s[1..]);
      assert ([s[0]] + InsertEntry(e, s[1..]))[1..] == InsertEntry(e, s[1..]);
    } else {
      assert ([e] + s)[1..] == s;
    }
  }

  lemma {:induction false} SizeConcat(a: seq<Node>, b: seq<Node>)
    ensures SizeAll(a + b) == SizeAll(a) + SizeAll(b)
    decreases a
  {
    if a == [] {
      assert a + b == b;
    } else {
      SizeConcat(a[1..], b);
      assert (a + b)[1..] == a[1..] + b;
    }
  }

  lemma {:induction false} SizeSort(s: seq<Node>)
    ensures SizeAll(SortEntries(s)) == SizeAll(s)
    decreases s
  {
    if s != [] {
      var n := |s| - 1;
      SizeSort(s[..n]);
      SizeInsert(s[n], SortEntries(s[..n]));
      SizeConcat(s[..n], [s[n]]);
      assert s == s[..n] + [s[n]] && [s[n]][1..] == [];
    }
  }

  lemma {:induction false} QueueConcat<F>(a: seq<Item<F>>, b: seq<Item<F>>)
    ensures QueueSize(a + b) == QueueSize(a) + QueueSize(b)
    decreases a
  {
    if a == [] {
      assert a + b == b;
    } else {
      QueueConcat(a[1..], b);
      assert (a + b)[1..] == a[1..] + b;
    }
  }

  lemma {:induction false} DirsInSmaller<F>(r: Rules<F>, rel: string, frame: F, entries: seq<Node>)
    ensures QueueSize(DirsIn(r, rel, frame, entries)) <= SizeAll(entries)
    decreases entries
  {
    if entries != [] {
      DirsInSmaller(r, rel, frame, entries[1..]);
      var rest := DirsIn(r, rel, frame, entries[1..]);
      if KeptDirectory(r, rel, frame, entries[0]) {
        var first := Enter(r, rel, frame, entries[0]);
        assert ([first] + rest)[1..] == rest;
      } else {
        assert [] + rest == rest;
      }
    }
  }

  /** Reading a directory leaves less to read. */
  lemma DirsSmaller<F>(r: Rules<F>, i: Item<F>)
    ensures QueueSize(Dirs(r, i)) <= SizeAll(i.children)
  {
    DirsInSmaller(r, i.rel, i.frame, Entries(i));
    SizeSort(i.children);
  }

  // ---- three walks ----------------------------------------------------------------------------------------

  /** Level by level: the files of all directories of a level, then the level below. */
  function FilesOfAll<F>(r: Rules<F>, level: seq<Item<F>>): seq<string> {
    if level == [] then [] else Files(r, level[0]) + FilesOfAll(r, level[1..])
  }

  function DirsOfAll<F>(r: Rules<F>, level: seq<Item<F>>): seq<Item<F>> {
    if level == [] then [] else Dirs(r, level[0]) + DirsOfAll(r, level[1..])
  }

  lemma {:induction false} LevelSmaller<F>(r: Rules<F>, level: seq<Item<F>>)
    ensures QueueSize(DirsOfAll(r, level)) + |level| <= QueueSize(level)
    decreases level
  {
    if level != [] {
      LevelSmaller(r, level[1..]);
      DirsSmaller(r, level[0]);
      QueueConcat(Dirs(r, level[0]), DirsOfAll(r, level[1..]));
    }
  }

  function LevelOrder<F>(r: Rules<F>, level: seq<Item<F>>): seq<string>
    decreases QueueSize(level)
  {
    if level == [] then []
    else
      LevelSmaller(r, level);
      FilesOfAll(r, level) + LevelOrder(r, DirsOfAll(r, level))
  }

  /** With a queue: directories found are read after those already waiting. */
  function FromQueue<F>(r: Rules<F>, queue: seq<Item<F>>): seq<string>
    decreases QueueSize(queue)
  {
    if queue == [] then []
    else
      DirsSmaller(r, queue[0]);
      QueueConcat(queue[1..], Dirs(r, queue[0]));
      Files(r, queue[0]) + FromQueue(r, queue[1..] + Dirs(r, queue[0]))
  }

  /** Depth first, in the order in which the file system lists entries. */
  function DepthFirst<F>(r: Rules<F>, rel: string, frame: F, entries: seq<Node>): seq<string>
    decreases entries
  {
    if entries == [] then [] else DepthFirstEntry(r, rel, frame, entries[0]) + DepthFirst(r, rel, frame, entries[1..])
  }

  function DepthFirstEntry<F>(r: Rules<F>, rel: string, frame: F, e: Node): seq<string>
    decreases e
  {
    if KeptFile(r, rel, frame, e) then [ChildRel(rel, e.name)]
    else if KeptDirectory(r, rel, frame, e) && e.readable then
      var child := ChildRel(rel, e.name);
      DepthFirst(r, child, r.descend(frame, child), e.children)
    else []
  }

  function DepthFirstItem<F>(r: Rules<F>, i: Item<F>): seq<string> {
    if i.readable then DepthFirst(r, i.rel, i.frame, i.children) else []
  }

  function DepthFirstAll<F>(r: Rules<F>, queue: seq<Item<F>>): seq<string> {
    if queue == [] then [] else DepthFirstItem(r, queue[0]) + DepthFirstAll(r, queue[1..])
  }

  /** A queue that starts with a level and goes on with what was found: first the level's files. */
  lemma {:induction false} QueueFinishesLevel<F>(r: Rules<F>, level: seq<Item<F>>, found: seq<Item<F>>)
    ensures FromQueue(r, level + found) == FilesOfAll(r, level) + FromQueue(r, found + DirsOfAll(r, level))
    decreases level
  {
    hide Files, Dirs;
    if level == [] {
      assert level + found == found && found + [] == found;
    } else {
      var first, rest := level[0], level[1..];
      assert (level + found)[1..] + Dirs(r, first) == rest + (found + Dirs(r, first));
      QueueFinishesLevel(r, rest, found + Dirs(r, first));
      assert found + Dirs(r, first) + DirsOfAll(r, rest) == found + DirsOfAll(r, level);
    }
  }

  /** The queue visits files level by level. */
  lemma {:induction false} QueueIsLevelOrder<F>(r: Rules<F>, level: seq<Item<F>>)
    ensures FromQueue(r, level) == LevelOrder(r, level)
    decreases QueueSize(level)
  {
    hide FromQueue, FilesOfAll, DirsOfAll;
    if level == [] {
      QueueEmpty(r);
    } else {
      assert level + [] == level && [] + DirsOfAll(r, level) == DirsOfAll(r, level);
      QueueFinishesLevel(r, level, []);
      LevelSmaller(r, level);
      QueueIsLevelOrder(r, DirsOfAll(r, level));
    }
  }

  lemma QueueEmpty<F>(r: Rules<F>)
    ensures FromQueue(r, []) == []
  {
  }

  // ---- every file once ------------------------------------------------------------------------------------

  lemma Regroup(a: multiset<string>, b: multiset<string>, c: multiset<string>, d: multiset<string>)
    ensures (a + b) + (c + d) == (a + c) + (b + d)
    ensures a + (b + c) == b + (a + c)
  {
  }

  lemma {:induction false} DepthFirstConcat<F>(r: Rules<F>, rel: string, frame: F, a: seq<Node>, b: seq<Node>)
    ensures DepthFirst(r, rel, frame, a + b) == DepthFirst(r, rel, frame, a) + DepthFirst(r, rel, frame, b)
    decreases a
  {
    hide DepthFirstEntry;
    if a == [] {
      assert a + b == b;
    } else {
      DepthFirstConcat(r, rel, frame, a[1..], b);
      var ab := a + b;
      assert ab[1..] == a[1..] + b && ab[0] == a[0];
    }
  }

  lemma {:induction false} DepthFirstInsert<F>(r: Rules<F>, rel: string, frame: F, e: Node, s: seq<Node>)
    ensures multiset(DepthFirst(r, rel, frame, InsertEntry(e, s))) ==
      multiset(DepthFirst(r, rel, frame, [e])) + multiset(DepthFirst(r, rel, frame, s))
    decreases s
  {
    hide DepthFirst, Less;
    if s == [] || Less(e.name, s[0].name) {
      DepthFirstConcat(r, rel, frame, [e], s);
    } else {
      DepthFirstInsert(r, rel, frame, e, s[1..]);
      DepthFirstConcat(r, rel, frame, [s[0]], InsertEntry(e, s[1..]));
      DepthFirstConcat(r, rel, frame, [s[0]], s[1..]);
      assert [s[0]] + s[1..] == s;
      Regroup(multiset(DepthFirst(r, rel, frame, [s[0]])), multiset(DepthFirst(r, rel, frame, [e])),
        multiset(DepthFirst(r, rel, frame, s[1..])), multiset{});
    }
  }

  /** The order in which a directory is visited changes no file. */
  lemma {:induction false} DepthFirstSort<F>(r: Rules<F>, rel: string, frame: F, s: seq<Node>)
    ensures multiset(DepthFirst(r, rel, frame, SortEntries(s))) == multiset(DepthFirst(r, rel, frame, s))
    decreases s
  {
    hide DepthFirst;
    if s != [] {
      var n := |s| - 1;
      DepthFirstSort(r, rel, frame, s[..n]);
      DepthFirstInsert(r, rel, frame, s[n], SortEntries(s[..n]));
      DepthFirstConcat(r, rel, frame, s[..n], [s[n]]);
      assert s == s[..n] + [s[n]];
    }
  }

  /** The files below some entries are those among them, and those below the directories among them. */
  lemma {:induction false} EntriesSplit<F>(r: Rules<F>, rel: string, frame: F, entries: seq<Node>)
    ensures multiset(DepthFirst(r, rel, frame, entries)) ==
      multiset(FilesIn(r, rel, frame, entries)) + multiset(DepthFirstAll(r, DirsIn(r, rel, frame, entries)))
    decreases entries
  {
    hide KeptFile, KeptDirectory, DepthFirstEntry, DepthFirstAll;
    if entries == [] {
      NoneBelow(r);
    } else {
      var e, rest := entries[0], entries[1..];
      EntriesSplit(r, rel, frame, rest);
      EntrySplit(r, rel, frame, e);
      KeptIsOne(r, rel, frame, e);
      var file := if KeptFile(r, rel, frame, e) then [ChildRel(rel, e.name)] else [];
      var dir := if KeptDirectory(r, rel, frame, e) then [Enter(r, rel, frame, e)] else [];
      DepthFirstAllConcat(r, dir, DirsIn(r, rel, frame, rest));
      SplitStep(DepthFirstEntry(r, rel, frame, e), file, DepthFirstAll(r, dir), DepthFirst(r, rel, frame, rest),
        FilesIn(r, rel, frame, rest), DepthFirstAll(r, DirsIn(r, rel, frame, rest)));
    }
  }

  lemma NoneBelow<F>(r: Rules<F>)
    ensures DepthFirstAll(r, []) == []
  {
  }

  lemma SplitStep(entry: seq<string>, file: seq<string>, inside: seq<string>,
                  below: seq<string>, files: seq<string>, found: seq<string>)
    requires multiset(entry) == multiset(file) + multiset(inside) &&
      multiset(below) == multiset(files) + multiset(found)
    ensures multiset(entry + below) == multiset(file + files) + multiset(inside + found)
  {
  }

  lemma EntrySplit<F>(r: Rules<F>, rel: string, frame: F, e: Node)
    ensures multiset(DepthFirstEntry(r, rel, frame, e)) ==
      multiset(if KeptFile(r, rel, frame, e) then [ChildRel(rel, e.name)] else []) +
      multiset(DepthFirstAll(r, if KeptDirectory(r, rel, frame, e) then [Enter(r, rel, frame, e)] else []))
  {
    hide KeptFile, KeptDirectory, DepthFirst;
    KeptIsOne(r, rel, frame, e);
    if KeptDirectory(r, rel, frame, e) {
      var entered := Enter(r, rel, frame, e);
      assert [entered][1..] == [];
      assert DepthFirstAll(r, [entered]) == DepthFirstItem(r, entered) + [];
    }
  }

  lemma KeptIsOne<F>(r: Rules<F>, rel: string, frame: F, e: Node)
    ensures KeptFile(r, rel, frame, e) ==> !KeptDirectory(r, rel, frame, e)
    ensures KeptDirectory(r, rel, frame, e) ==> e.Directory?
  {
  }

  lemma {:induction false} DepthFirstAllConcat<F>(r: Rules<F>, a: seq<Item<F>>, b: seq<Item<F>>)
    ensures DepthFirstAll(r, a + b) == DepthFirstAll(r, a) + DepthFirstAll(r, b)
    decreases a
  {
    hide DepthFirstItem;
    if a == [] {
      assert a + b == b;
    } else {
      DepthFirstAllConcat(r, a[1..], b);
      assert (a + b)[1..] == a[1..] + b && (a + b)[0] == a[0];
    }
  }

  lemma ItemSplit<F>(r: Rules<F>, i: Item<F>)
    ensures multiset(DepthFirstItem(r, i)) == multiset(Files(r, i)) + multiset(DepthFirstAll(r, Dirs(r, i)))
  {
    hide DepthFirst;
    if i.readable {
      DepthFirstSort(r, i.rel, i.frame, i.children);
      EntriesSplit(r, i.rel, i.frame, SortEntries(i.children));
    }
  }

  /** The walk visits exactly the files a recursive descent would, each as often: no file is lost or repeated. */
  lemma {:induction false} QueueVisitsAll<F>(r: Rules<F>, queue: seq<Item<F>>)
    ensures multiset(FromQueue(r, queue)) == multiset(DepthFirstAll(r, queue))
    decreases QueueSize(queue)
  {
    hide DepthFirstItem, Files, Dirs;
    if queue != [] {
      var first, rest := queue[0], queue[1..];
      DirsSmaller(r, first);
      QueueConcat(rest, Dirs(r, first));
      QueueVisitsAll(r, rest + Dirs(r, first));
      DepthFirstAllConcat(r, rest, Dirs(r, first));
      ItemSplit(r, first);
      Regroup(multiset(Files(r, first)), multiset(DepthFirstAll(r, rest)),
        multiset(DepthFirstAll(r, Dirs(r, first))), multiset{});
      VisitsAllStep(
        Files(r, first), FromQueue(r, rest + Dirs(r, first)), DepthFirstItem(r, first), DepthFirstAll(r, rest),
        DepthFirstAll(r, Dirs(r, first)));
    }
  }

  lemma VisitsAllStep(files: seq<string>, below: seq<string>, item: seq<string>, rest: seq<string>, found: seq<string>)
    requires multiset(below) == multiset(rest + found) && multiset(item) == multiset(files) + multiset(found)
    ensures multiset(files + below) == multiset(item + rest)
  {
  }

  // ---- the bounded walk -----------------------------------------------------------------------------------

  datatype FileList = FileList(files: seq<string>, truncated: bool)

  function RootItem<F>(r: Rules<F>, root: Node): Item<F>
    requires root.Directory?
  {
    Item("", r.root, root.children, root.readable)
  }

  /** All files of a workspace, level by level. */
  function AllFiles<F>(r: Rules<F>, root: Node): seq<string>
    requires root.Directory?
  {
    LevelOrder(r, [RootItem(r, root)])
  }

  /** The walk with a limit: the first `limit` files of the full walk, and whether there are more. */
  method WalkWorkspaceFiles<F>(r: Rules<F>, root: Node, limit: nat) returns (list: FileList)
    requires root.Directory?
    ensures list == FileList(Take(AllFiles(r, root), limit), |AllFiles(r, root)| > limit)
  {
    hide FromQueue, LevelOrder, FilesIn, DirsIn, KeptFile, KeptDirectory, QueueSize, Entries;
    ghost var all := AllFiles(r, root);
    QueueIsLevelOrder(r, [RootItem(r, root)]);
    var files: seq<string> := [];
    var queue := [RootItem(r, root)];
    assert files + FromQueue(r, queue) == all;
    while queue != []
      invariant files + FromQueue(r, queue) == all && |files| <= limit
      decreases QueueSize(queue)
    {
      var item := queue[0];
      ghost var before := queue;
      QueueStep(r, queue);
      queue := queue[1..];
      var entries := Entries(item);
      ghost var rest := FromQueue(r, before[1..] + Dirs(r, item));
      assert entries[0..] == entries;
      Associate(files, Files(r, item), rest);
      for k := 0 to |entries|
        invariant |files| <= limit
        invariant files + FilesIn(r, item.rel, item.frame, entries[k..]) + rest == all
        invariant queue + DirsIn(r, item.rel, item.frame, entries[k..]) == before[1..] + Dirs(r, item)
      {
        var entry := entries[k];
        EntryStep(r, item.rel, item.frame, entries, k);
        ghost var filesLeft := FilesIn(r, item.rel, item.frame, entries[k + 1..]);
        if KeptDirectory(r, item.rel, item.frame, entry) {
          KeptIsOne(r, item.rel, item.frame, entry);
          queue := queue + [Enter(r, item.rel, item.frame, entry)];
        } else if KeptFile(r, item.rel, item.frame, entry) {
          var child := ChildRel(item.rel, entry.name);
          CutHere(files, child, filesLeft, rest);
          if |files| >= limit {
            return FileList(files, true);
          }
          files := files + [child];
        }
      }
      NoEntries(r, item.rel, item.frame, entries);
      assert files + [] == files && queue + [] == queue;
    }
    NothingQueued(r, files);
    return FileList(files, false);
  }

  lemma CutHere(files: seq<string>, child: string, left: seq<string>, rest: seq<string>)
    ensures
      var all := files + ([child] + left) + rest;
      all == files + [child] + left + rest && Take(all, |files|) == files && |all| > |files|
  {
  }

  lemma QueueStep<F>(r: Rules<F>, queue: seq<Item<F>>)
    requires queue != []
    ensures FromQueue(r, queue) == Files(r, queue[0]) + FromQueue(r, queue[1..] + Dirs(r, queue[0]))
    ensures QueueSize(queue[1..] + Dirs(r, queue[0])) < QueueSize(queue)
  {
    DirsSmaller(r, queue[0]);
    QueueConcat(queue[1..], Dirs(r, queue[0]));
  }

  lemma EntryStep<F>(r: Rules<F>, rel: string, frame: F, entries: seq<Node>, k: nat)
    requires k < |entries|
    ensures FilesIn(r, rel, frame, entries[k..]) ==
      (if KeptFile(r, rel, frame, entries[k]) then [ChildRel(rel, entries[k].name)] else [])
      + FilesIn(r, rel, frame, entries[k + 1..])
    ensures DirsIn(r, rel, frame, entries[k..]) ==
      (if KeptDirectory(r, rel, frame, entries[k]) then [Enter(r, rel, frame, entries[k])] else [])
      + DirsIn(r, rel, frame, entries[k + 1..])
  {
    assert entries[k..][1..] == entries[k + 1..];
  }

  lemma NoEntries<F>(r: Rules<F>, rel: string, frame: F, entries: seq<Node>)
    ensures FilesIn(r, rel, frame, entries[|entries|..]) == [] && DirsIn(r, rel, frame, entries[|entries|..]) == []
  {
  }

  lemma NothingQueued<F>(r: Rules<F>, files: seq<string>)
    ensures files + FromQueue(r, []) == files
  {
  }

  /** Every file of the workspace is listed as often as it is there. */
  lemma AllFilesOnce<F>(r: Rules<F>, root: Node)
    requires root.Directory?
    ensures multiset(AllFiles(r, root)) == multiset(DepthFirstItem(r, RootItem(r, root)))
  {
    hide FromQueue, LevelOrder, DepthFirstItem;
    var queue := [RootItem(r, root)];
    QueueIsLevelOrder(r, queue);
    QueueVisitsAll(r, queue);
    assert queue[1..] == [] && DepthFirstItem(r, queue[0]) + [] == DepthFirstItem(r, queue[0]);
  }

  // ---- which files are listed -----------------------------------------------------------------------------

  /** The entry of this name is a file, or a readable directory with a file at the rest of the path. */
  ghost predicate StandsAt(e: Node, parts: seq<string>)
    decreases parts, 0
  {
    && parts != [] && e.name == parts[0]
    && (if |parts| == 1 then e.File? else e.Directory? && e.readable && FileAt(e.children, parts[1..]))
  }

  ghost predicate FileAt(entries: seq<Node>, parts: seq<string>)
    decreases parts, 1
  {
    exists e <- entries :: StandsAt(e, parts)
  }

  /**
   * Nothing on the path is ignored, and it leads through no directory that is always skipped, or whose name begins
   * with a dot.
   */
  predicate Offered<F>(r: Rules<F>, rel: string, frame: F, parts: seq<string>)
    decreases parts
  {
    && parts != []
    && var child := ChildRel(rel, parts[0]);
    if |parts| == 1 then !r.ignores(frame, child, false)
    else
      && parts[0] !in r.floor && (parts[0] == "" || parts[0][0] != '.') && !r.ignores(frame, child, true)
      && Offered(r, child, r.descend(frame, child), parts[1..])
  }

  /** The names on the path, with slashes between them. */
  function PathOf(rel: string, parts: seq<string>): string
    decreases parts
  {
    if parts == [] then rel else PathOf(if rel == "" then parts[0] else rel + "/" + parts[0], parts[1..])
  }

  lemma {:induction false} EntryListed<F>(r: Rules<F>, rel: string, frame: F, e: Node, path: string)
    returns (parts: seq<string>)
    requires path in DepthFirstEntry(r, rel, frame, e)
    ensures StandsAt(e, parts) && Offered(r, rel, frame, parts) && path == PathOf(rel, parts)
    decreases e, 1
  {
    hide DepthFirst;
    var child := ChildRel(rel, e.name);
    if KeptFile(r, rel, frame, e) {
      parts := [e.name];
      assert PathOf(child, parts[1..]) == child;
    } else {
      var below := Listed(r, child, r.descend(frame, child), e.children, path);
      parts := [e.name] + below;
      assert parts[1..] == below;
    }
  }

  lemma {:induction false} Listed<F>(r: Rules<F>, rel: string, frame: F, entries: seq<Node>, path: string)
    returns (parts: seq<string>)
    requires path in DepthFirst(r, rel, frame, entries)
    ensures FileAt(entries, parts) && Offered(r, rel, frame, parts) && path == PathOf(rel, parts)
    decreases entries, 0
  {
    hide DepthFirstEntry, Offered, StandsAt, PathOf;
    if path in DepthFirstEntry(r, rel, frame, entries[0]) {
      parts := EntryListed(r, rel, frame, entries[0], path);
    } else {
      parts := Listed(r, rel, frame, entries[1..], path);
      var e :| e in entries[1..] && StandsAt(e, parts);
      assert e in entries;
    }
  }

  lemma {:induction false} ListsEntry<F>(r: Rules<F>, rel: string, frame: F, e: Node, parts: seq<string>)
    requires StandsAt(e, parts) && Offered(r, rel, frame, parts)
    ensures PathOf(rel, parts) in DepthFirstEntry(r, rel, frame, e)
    decreases parts, 0
  {
    hide DepthFirst;
    var child := ChildRel(rel, e.name);
    if |parts| == 1 {
      assert parts[1..] == [] && PathOf(child, []) == child;
    } else {
      Lists(r, child, r.descend(frame, child), e.children, parts[1..]);
    }
  }

  lemma {:induction false} Lists<F>(r: Rules<F>, rel: string, frame: F, entries: seq<Node>, parts: seq<string>)
    requires FileAt(entries, parts) && Offered(r, rel, frame, parts)
    ensures PathOf(rel, parts) in DepthFirst(r, rel, frame, entries)
    decreases parts, 1
  {
    hide DepthFirstEntry, Offered, StandsAt, PathOf;
    var e :| e in entries && StandsAt(e, parts);
    ListsEntry(r, rel, frame, e, parts);
    AmongEntries(r, rel, frame, entries, e, PathOf(rel, parts));
  }

  lemma {:induction false} AmongEntries<F>(
    r: Rules<F>, rel: string, frame: F, entries: seq<Node>, e: Node, path: string)
    requires e in entries && path in DepthFirstEntry(r, rel, frame, e)
    ensures path in DepthFirst(r, rel, frame, entries)
    decreases entries
  {
    hide DepthFirstEntry;
    if e != entries[0] {
      assert entries == [entries[0]] + entries[1..];
      AmongEntries(r, rel, frame, entries[1..], e, path);
    }
  }

  /** A path is listed exactly if a file stands there, through readable directories, and the rules offer it. */
  lemma ListedIff<F>(r: Rules<F>, root: Node, path: string)
    requires root.Directory?
    ensures path in AllFiles(r, root) <==>
      root.readable && exists parts ::
        FileAt(root.children, parts) && Offered(r, "", r.root, parts) && path == PathOf("", parts)
  {
    hide AllFiles, DepthFirst, FileAt, Offered, PathOf;
    AllFilesOnce(r, root);
    SameMembers(AllFiles(r, root), DepthFirstItem(r, RootItem(r, root)), path);
    if path in AllFiles(r, root) {
      var parts := Listed(r, "", r.root, root.children, path);
    }
    if exists parts ::
      root.readable && FileAt(root.children, parts) && Offered(r, "", r.root, parts) && path == PathOf("", parts)
    {
      var parts :| FileAt(root.children, parts) && Offered(r, "", r.root, parts) && path == PathOf("", parts);
      Lists(r, "", r.root, root.children, parts);
    }
  }

  lemma SameMembers(a: seq<string>, b: seq<string>, x: string)
    requires multiset(a) == multiset(b)
    ensures x in a <==> x in b
  {
    assert x in a <==> x in multiset(a);
    assert x in b <==> x in multiset(b);
  }

  // ---- different places, different paths ------------------------------------------------------------------

  predicate NameOk(name: string) { name != "" && '/' !in name }

  /** Entries of one directory have different names, and names hold no slash; so do the entries below them. */
  ghost predicate WellNamed(entries: seq<Node>) {
    && (forall k :: 0 <= k < |entries| ==> NameOk(entries[k].name))
    && (forall j, k :: 0 <= j < k < |entries| ==> entries[j].name != entries[k].name)
    && (forall k :: 0 <= k < |entries| && entries[k].Directory? ==> WellNamed(entries[k].children))
  }

  /** The path is that of the entry `name`, or of something below it. */
  predicate Under(path: string, rel: string, name: string) {
    path == ChildRel(rel, name) || ChildRel(rel, name) + "/" <= path
  }

  /** What precedes the first slash. */
  function Head(s: string): string {
    if s == "" || s[0] == '/' then "" else [s[0]] + Head(s[1..])
  }

  lemma {:induction false} HeadIs(s: string, name: string)
    requires '/' !in name && (s == name || name + "/" <= s)
    ensures Head(s) == name
    decreases name
  {
    if name != "" {
      assert name[0] in name && name[0] == s[0];
      assert name + "/" <= s ==> (name + "/")[1..] == name[1..] + "/";
      HeadIs(s[1..], name[1..]);
      assert name == [name[0]] + name[1..];
    }
  }

  lemma UnderOneName(path: string, rel: string, name: string)
    requires NameOk(name) && Under(path, rel, name)
    ensures
      var skip := if rel == "" then 0 else |rel| + 1;
      skip <= |path| && Head(path[skip..]) == name
  {
    var skip := if rel == "" then 0 else |rel| + 1;
    assert path[skip..] == name || name + "/" <= path[skip..];
    HeadIs(path[skip..], name);
  }

  lemma {:induction false} EntryUnder<F>(r: Rules<F>, rel: string, frame: F, e: Node, path: string)
    requires path in DepthFirstEntry(r, rel, frame, e) && NameOk(e.name)
    requires e.Directory? ==> WellNamed(e.children)
    ensures Under(path, rel, e.name)
    decreases e, 1
  {
    hide DepthFirst;
    if !KeptFile(r, rel, frame, e) {
      var child := ChildRel(rel, e.name);
      var k := EntriesUnder(r, child, r.descend(frame, child), e.children, path);
      assert ChildRel(child, e.children[k].name) == child + "/" + e.children[k].name;
    }
  }

  lemma {:induction false} EntriesUnder<F>(r: Rules<F>, rel: string, frame: F, entries: seq<Node>, path: string)
    returns (k: nat)
    requires path in DepthFirst(r, rel, frame, entries) && WellNamed(entries)
    ensures k < |entries| && Under(path, rel, entries[k].name)
    decreases entries, 0
  {
    hide DepthFirstEntry, Under;
    if path in DepthFirstEntry(r, rel, frame, entries[0]) {
      EntryUnder(r, rel, frame, entries[0], path);
      k := 0;
    } else {
      var later := EntriesUnder(r, rel, frame, entries[1..], path);
      k := later + 1;
    }
  }

  ghost predicate Distinct(paths: seq<string>) {
    forall p :: multiset(paths)[p] <= 1
  }

  lemma DistinctConcat(a: seq<string>, b: seq<string>)
    requires Distinct(a) && Distinct(b) && forall p :: p in a ==> p !in b
    ensures Distinct(a + b)
  {
    forall p ensures multiset(a + b)[p] <= 1 {
      assert p in a <==> multiset(a)[p] > 0;
      assert p in b <==> multiset(b)[p] > 0;
    }
  }

  lemma {:induction false} EntriesDistinct<F>(r: Rules<F>, rel: string, frame: F, entries: seq<Node>)
    requires WellNamed(entries)
    ensures Distinct(DepthFirst(r, rel, frame, entries))
    decreases entries, 0
  {
    if entries != [] {
      var e, rest := entries[0], entries[1..];
      EntryDistinct(r, rel, frame, e);
      EntriesDistinct(r, rel, frame, rest);
      forall p | p in DepthFirstEntry(r, rel, frame, e) ensures p !in DepthFirst(r, rel, frame, rest) {
        EntryUnder(r, rel, frame, e, p);
        UnderOneName(p, rel, e.name);
        if p in DepthFirst(r, rel, frame, rest) {
          var k := EntriesUnder(r, rel, frame, rest, p);
          UnderOneName(p, rel, rest[k].name);
        }
      }
      DistinctConcat(DepthFirstEntry(r, rel, frame, e), DepthFirst(r, rel, frame, rest));
    }
  }

  lemma {:induction false} EntryDistinct<F>(r: Rules<F>, rel: string, frame: F, e: Node)
    requires e.Directory? ==> WellNamed(e.children)
    ensures Distinct(DepthFirstEntry(r, rel, frame, e))
    decreases e, 1
  {
    hide DepthFirst;
    if !KeptFile(r, rel, frame, e) && KeptDirectory(r, rel, frame, e) && e.readable {
      var child := ChildRel(rel, e.name);
      EntriesDistinct(r, child, r.descend(frame, child), e.children);
    }
  }

  lemma DistinctMeans(paths: seq<string>, i: nat, j: nat)
    requires Distinct(paths) && i < j < |paths|
    ensures paths[i] != paths[j]
  {
    assert paths == paths[..j] + paths[j..];
    assert multiset(paths) == multiset(paths[..j]) + multiset(paths[j..]);
    assert paths[..j][i] == paths[i] && paths[j..][0] == paths[j];
    assert multiset(paths)[paths[j]] >= multiset(paths[..j])[paths[j]] + 1;
    assert paths[i] in multiset(paths[..j]);
  }

  /** In a well-named tree no path is listed twice. */
  lemma ListedOnce<F>(r: Rules<F>, root: Node, i: nat, j: nat)
    requires root.Directory? && WellNamed(root.children) && i < j < |AllFiles(r, root)|
    ensures AllFiles(r, root)[i] != AllFiles(r, root)[j]
  {
    hide AllFiles, WellNamed, DepthFirst;
    AllFilesOnce(r, root);
    EntriesDistinct(r, "", r.root, root.children);
    DistinctMeans(AllFiles(r, root), i, j);
  }

  // ---- the cached listing ---------------------------------------------------------------------------------

  const FILE_LIST_LIMIT: nat := 2000
  const FILES_CACHE_TTL_MS: int := 3_000

  datatype FilesCacheEntry = FilesCacheEntry(ts: int, list: FileList)

  predicate OccursAt(s: string, needle: string, i: nat) {
    i + |needle| <= |s| && s[i..i + |needle|] == needle
  }

  predicate Includes(s: string, needle: string) {
    exists i :: 0 <= i <= |s| && OccursAt(s, needle, i)
  }

  /** What a query selects; `lower` is the case mapping. */
  function Selects(q: string, lower: string -> string): string -> bool {
    f => Includes(lower(f), lower(q))
  }

  function Matching(files: seq<string>, q: string, lower: string -> string): seq<string> {
    Filter(files, Selects(q, lower))
  }

  lemma {:induction false} FilterAll(files: seq<string>, p: string -> bool)
    requires forall f :: p(f)
    ensures Filter(files, p) == files
    decreases files
  {
    if files != [] { FilterAll(files[1..], p); }
  }

  /** An empty query selects everything. */
  lemma EmptyNeedle(files: seq<string>, q: string, lower: string -> string)
    requires lower(q) == ""
    ensures Matching(files, q, lower) == files
  {
    forall f ensures Selects(q, lower)(f) {
      assert OccursAt(lower(f), lower(q), 0);
    }
    FilterAll(files, Selects(q, lower));
  }

  lemma TakeSplits(all: seq<string>, n: nat)
    ensures |Take(all, n)| <= |all| && all == Take(all, n) + all[|Take(all, n)|..]
    ensures |all| <= n ==> Take(all, n) == all
  {
  }

  /** What a bounded walk selects is the beginning of what the full walk selects. */
  lemma MatchingPrefix(all: seq<string>, n: nat, q: string, lower: string -> string)
    ensures Matching(Take(all, n), q, lower) <= Matching(all, q, lower)
    ensures |all| <= n ==> Matching(Take(all, n), q, lower) == Matching(all, q, lower)
  {
    hide Filter, Selects, Take;
    TakeSplits(all, n);
    FilterConcat(Take(all, n), all[|Take(all, n)|..], Selects(q, lower));
  }

  class FileLister<F> {
    const rules: Rules<F>
    const lower: string -> string
    /** The workspaces as they are now. */
    var trees: map<string, Node>
    var filesCache: map<string, FilesCacheEntry>
    /** The workspaces as they were when they were walked. */
    ghost var walked: map<string, Node>

    ghost predicate Valid()
      reads this
    {
      && (forall root <- filesCache ::
           && root in walked && walked[root].Directory?
           && var all := AllFiles(rules, walked[root]);
           filesCache[root].list == FileList(Take(all, FILE_LIST_LIMIT), |all| > FILE_LIST_LIMIT))
      && forall root <- trees :: trees[root].Directory?
    }

    constructor (rules: Rules<F>, trees: map<string, Node>, lower: string -> string)
      requires forall root <- trees :: trees[root].Directory?
      ensures Valid() && this.rules == rules && this.trees == trees && this.lower == lower && filesCache == map[]
    {
      this.rules, this.trees, this.lower, filesCache, walked := rules, trees, lower, map[], map[];
    }

    /** Files come and go at any time. */
    method TreesChange(trees: map<string, Node>)
      requires Valid() && forall root <- trees :: trees[root].Directory?
      modifies this`trees
      ensures Valid() && this.trees == trees
    {
      this.trees := trees;
    }

    /** Walks a workspace again unless it was walked within the last three seconds. */
    method Refresh(root: string, now: int)
      requires Valid() && root in trees
      modifies this`filesCache, this`walked
      ensures Valid() && root in filesCache
      ensures
        if root in old(filesCache) && now - old(filesCache)[root].ts < 3_000 then
          filesCache == old(filesCache) && walked == old(walked)
        else
          && filesCache[root].ts == now && filesCache - {root} == old(filesCache) - {root}
          && walked == old(walked)[root := trees[root]]
    {
      hide AllFiles, Take;
      if root !in filesCache || now - filesCache[root].ts >= FILES_CACHE_TTL_MS {
        var list := WalkWorkspaceFiles(rules, trees[root], FILE_LIST_LIMIT);
        filesCache := filesCache[root := FilesCacheEntry(now, list)];
        walked := walked[root := trees[root]];
      }
    }

    /**
     * Lists the files a query selects: the first `limit` of those the walk gives that was made within the last three
     * seconds; or, if that walk was cut and more are asked for, a new walk that goes as far. `truncated` is set exactly
     * when the walk was cut, or more matched than were asked for.
     */
    method ListWorkspaceFiles(root: string, q: string, limit: nat, now: int) returns (r: FileList)
      requires Valid() && root in trees
      modifies this`filesCache, this`walked
      ensures Valid() && root in filesCache
      ensures now - filesCache[root].ts < 3_000
      ensures
        if root in old(filesCache) && now - old(filesCache)[root].ts < 3_000 then walked == old(walked)
        else walked == old(walked)[root := trees[root]]
      ensures
        var again := limit > FILE_LIST_LIMIT && |AllFiles(rules, walked[root])| > FILE_LIST_LIMIT;
        var all := AllFiles(rules, if again then trees[root] else walked[root]);
        var reach := if again then limit else FILE_LIST_LIMIT;
        var matching := Matching(Take(all, reach), q, lower);
        && r.files == Take(matching, limit) && (r.truncated <==> |all| > reach || |matching| > limit)
        && r.files <= Matching(all, q, lower) && (!r.truncated ==> r.files == Matching(all, q, lower))
    {
      hide AllFiles, Matching, Filter, Selects;
      Refresh(root, now);
      var list := filesCache[root].list;
      if limit > FILE_LIST_LIMIT && list.truncated {
        list := WalkWorkspaceFiles(rules, trees[root], limit);
      }
      var matched := list.files;
      if lower(q) != "" {
        matched := Filter(list.files, Selects(q, lower));
      }
      MatchedIs(list.files, q, lower);
      r := if |matched| > limit then FileList(matched[..limit], true) else FileList(matched, list.truncated);
      ghost var again := limit > FILE_LIST_LIMIT && |AllFiles(rules, walked[root])| > FILE_LIST_LIMIT;
      ghost var all := AllFiles(rules, if again then trees[root] else walked[root]);
      ListingIsPrefix(all, if again then limit else FILE_LIST_LIMIT, limit, q, lower, r);
    }
  }

  /** What is listed is the beginning of all that match, and all of it unless truncated. */
  lemma ListingIsPrefix(all: seq<string>, reach: nat, limit: nat, q: string, lower: string -> string, r: FileList)
    requires r.files == Take(Matching(Take(all, reach), q, lower), limit)
    requires r.truncated <==> |all| > reach || |Matching(Take(all, reach), q, lower)| > limit
    ensures r.files <= Matching(all, q, lower) && |r.files| <= limit
    ensures !r.truncated ==> r.files == Matching(all, q, lower)
    ensures r.truncated <==> |all| > reach || |Matching(all, q, lower)| > limit
  {
    hide Matching;
    MatchingPrefix(all, reach, q, lower);
    TakeSplits(Matching(Take(all, reach), q, lower), limit);
  }

  lemma MatchedIs(files: seq<string>, q: string, lower: string -> string)
    ensures Matching(files, q, lower) == if lower(q) != "" then Filter(files, Selects(q, lower)) else files
  {
    if lower(q) == "" { EmptyNeedle(files, q, lower); }
  }
}
