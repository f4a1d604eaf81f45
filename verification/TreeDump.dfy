/**
 * How mkfs walks a source directory and queues its jobs (`erofs_mkfs_dump_tree`, `lib/inode.c`): each
 * inode is handled when a dentry first names it, directories wait on a chain linked through the inodes
 * themselves, and a directory's own blocks are queued once its dentries have been gone through.
 */
module TreeDump {
  import opened Options

  // ----- the source directory ----------------------------------------------------------

  /**
   * An inode of the source file system: whether it is written in the 32-byte form, whether handling it
   * fails before its job is queued, and what its dentries name (`.` and `..` excluded). Only a
   * directory has dentries.
   */
  datatype Inode = Inode(isDir: bool, compact: bool, fails: bool, dentries: seq<nat>)

  predicate TreeOk(tree: seq<Inode>, root: nat) {
    && root < |tree| && tree[root].isDir
    && (forall i, k :: 0 <= i < |tree| && 0 <= k < |tree[i].dentries| ==>
          tree[i].dentries[k] < |tree| && tree[i].isDir)
  }

  predicate Path(tree: seq<Inode>, root: nat, p: seq<nat>) {
    && |p| > 0 && p[0] == root
    && (forall k :: 0 <= k < |p| ==> p[k] < |tree|)
    && (forall k :: 0 < k < |p| ==> p[k] in tree[p[k - 1]].dentries)
  }

  ghost predicate Reachable(tree: seq<Inode>, root: nat, i: nat) {
    exists p :: Path(tree, root, p) && p[|p| - 1] == i
  }

  lemma RootIsReachable(tree: seq<Inode>, root: nat)
    requires TreeOk(tree, root)
    ensures Reachable(tree, root, root)
  {
    assert Path(tree, root, [root]);
  }

  lemma DentryIsReachable(tree: seq<Inode>, root: nat, d: nat, k: nat)
    requires TreeOk(tree, root) && Reachable(tree, root, d)
    requires d < |tree| && k < |tree[d].dentries|
    ensures Reachable(tree, root, tree[d].dentries[k])
  {
    var p :| Path(tree, root, p) && p[|p| - 1] == d;
    assert Path(tree, root, p + [tree[d].dentries[k]]);
  }

  // ----- jobs --------------------------------------------------------------------------

  /** `NonDir` and `Dir` place an inode; `DirBlocks` writes a directory's dentries and lets it go. */
  datatype Job = NonDir(ino: nat) | Dir(ino: nat) | DirBlocks(ino: nat)

  function InodeJob(tree: seq<Inode>, i: nat): Job
    requires i < |tree|
  {
    if tree[i].isDir then Dir(i) else NonDir(i)
  }

  predicate NoRepeats(log: seq<Job>) {
    forall p, q :: 0 <= p < |log| && 0 <= q < |log| && log[p] == log[q] ==> p == q
  }

  lemma AppendNew(log: seq<Job>, job: Job)
    requires NoRepeats(log) && job !in log
    ensures NoRepeats(log + [job])
    ensures forall j :: j in log + [job] <==> j in log || j == job
  {
  }

  /** A mark is the parent an inode was first found under; nothing marked so far has failed. */
  predicate Clean(tree: seq<Inode>, parent: seq<Option<nat>>)
    requires |parent| == |tree|
  {
    forall i :: 0 <= i < |tree| && parent[i].Some? ==> !tree[i].fails
  }

  predicate ChildrenIn(tree: seq<Inode>, log: seq<Job>, d: nat)
    requires d < |tree|
  {
    forall k :: 0 <= k < |tree[d].dentries| ==>
      tree[d].dentries[k] < |tree| && InodeJob(tree, tree[d].dentries[k]) in log
  }

  /** What must be queued before the blocks of `d` may be: its own inode, its parent's, its children's. */
  predicate Ready(tree: seq<Inode>, parent: seq<Option<nat>>, log: seq<Job>, d: nat)
    requires |parent| == |tree| && d < |tree|
  {
    && Dir(d) in log
    && parent[d].Some? && Dir(parent[d].value) in log
    && (Clean(tree, parent) ==> ChildrenIn(tree, log, d))
  }

  predicate Ordered(tree: seq<Inode>, parent: seq<Option<nat>>, log: seq<Job>)
    requires |parent| == |tree|
  {
    forall p :: 0 <= p < |log| && log[p].DirBlocks? ==>
      log[p].ino < |tree| && Ready(tree, parent, log[..p], log[p].ino)
  }

  // ----- link counts -------------------------------------------------------------------

  function Subdirs(tree: seq<Inode>, names: seq<nat>): nat {
    if names == [] then 0
    else
      var last := names[|names| - 1];
      Subdirs(tree, names[..|names| - 1]) + if last < |tree| && tree[last].isDir then 1 else 0
  }

  /** The count an inode starts with: a directory's covers `.`, `..` and its subdirectories. */
  function StartLinks(tree: seq<Inode>, i: nat): nat
    requires i < |tree|
  {
    if !tree[i].isDir then 1
    else
      var n := 2 + Subdirs(tree, tree[i].dentries);
      if n > 65535 && tree[i].compact then 1 else n
  }

  function Times(names: seq<nat>, i: nat): nat {
    if names == [] then 0
    else Times(names[..|names| - 1], i) + if names[|names| - 1] == i then 1 else 0
  }

  lemma TimesAppend(names: seq<nat>, c: nat)
    ensures forall i :: Times(names + [c], i) == Times(names, i) + if i == c then 1 else 0
  {
    assert (names + [c])[..|names|] == names;
  }

  lemma {:induction false} TimesConcat(names: seq<nat>, more: seq<nat>, i: nat)
    ensures Times(names + more, i) == Times(names, i) + Times(more, i)
  {
    if more == [] {
      assert names + more == names;
    } else {
      assert (names + more)[..|names + more| - 1] == names + more[..|more| - 1];
      TimesConcat(names, more[..|more| - 1], i);
    }
  }

  /** How often the dentries of the directories `dirs`, those below `n` only, name `i`. */
  function Named(tree: seq<Inode>, dirs: set<nat>, n: nat, i: nat): nat
    requires n <= |tree|
  {
    if n == 0 then 0
    else Named(tree, dirs, n - 1, i) + if n - 1 in dirs then Times(tree[n - 1].dentries, i) else 0
  }

  lemma {:induction false} NamedGrows(tree: seq<Inode>, dirs: set<nat>, d: nat, n: nat, i: nat)
    requires n <= |tree| && d < |tree| && d !in dirs
    ensures Named(tree, dirs + {d}, n, i) ==
            Named(tree, dirs, n, i) + if d < n then Times(tree[d].dentries, i) else 0
  {
    if n > 0 {
      NamedGrows(tree, dirs, d, n - 1, i);
    }
  }

  lemma {:induction false} NoNames(tree: seq<Inode>, n: nat, i: nat)
    requires n <= |tree|
    ensures Named(tree, {}, n, i) == 0
  {
    if n > 0 {
      NoNames(tree, n - 1, i);
    }
  }

  /** `seen` are all the dentries of the directories `dirs`, in some order. */
  predicate AllSeen(tree: seq<Inode>, dirs: set<nat>, seen: seq<nat>) {
    forall i :: 0 <= i < |tree| ==> Times(seen, i) == Named(tree, dirs, |tree|, i)
  }

  lemma SeenMore(tree: seq<Inode>, dirs: set<nat>, seen: seq<nat>, d: nat)
    requires AllSeen(tree, dirs, seen) && d < |tree| && d !in dirs
    ensures AllSeen(tree, dirs + {d}, seen + tree[d].dentries)
  {
    forall i | 0 <= i < |tree|
      ensures Times(seen + tree[d].dentries, i) == Named(tree, dirs + {d}, |tree|, i)
    {
      TimesConcat(seen, tree[d].dentries, i);
      NamedGrows(tree, dirs, d, |tree|, i);
    }
  }

  ghost function ReachableDirs(tree: seq<Inode>, root: nat): set<nat> {
    set i | 0 <= i < |tree| && tree[i].isDir && Reachable(tree, root, i)
  }

  /** How many dentries of reachable directories name `i`. */
  ghost function Links(tree: seq<Inode>, root: nat, i: nat): nat {
    Named(tree, ReachableDirs(tree, root), |tree|, i)
  }

  function WrittenDirs(tree: seq<Inode>, log: seq<Job>): set<nat> {
    set i | 0 <= i < |tree| && DirBlocks(i) in log
  }

  /** `seen` holds the dentries gone through so far. */
  predicate Counted(tree: seq<Inode>, root: nat, parent: seq<Option<nat>>, nlink: seq<nat>, seen: seq<nat>)
    requires |parent| == |nlink| == |tree|
  {
    forall i :: 0 <= i < |tree| ==>
      if parent[i].None? then nlink[i] == 1 && Times(seen, i) == 0
      else if tree[i].fails then true
      else if i == root then nlink[i] == StartLinks(tree, i) + Times(seen, i)
      else Times(seen, i) >= 1 && nlink[i] == StartLinks(tree, i) + Times(seen, i) - 1
  }

  // ----- what every step keeps ---------------------------------------------------------

  predicate Marked(tree: seq<Inode>, parent: seq<Option<nat>>, log: seq<Job>)
    requires |parent| == |tree|
  {
    forall i :: 0 <= i < |tree| && parent[i].Some? ==>
      parent[i].value < |tree| && Dir(parent[i].value) in log
  }

  ghost predicate OnlyReachable(tree: seq<Inode>, root: nat, parent: seq<Option<nat>>)
    requires |parent| == |tree|
  {
    forall i :: 0 <= i < |tree| && parent[i].Some? ==> Reachable(tree, root, i)
  }

  /** An inode job is queued exactly for each marked inode whose handling did not fail. */
  predicate Placed(tree: seq<Inode>, parent: seq<Option<nat>>, log: seq<Job>)
    requires |parent| == |tree|
  {
    && (forall i :: 0 <= i < |tree| ==>
          (InodeJob(tree, i) in log <==> parent[i].Some? && !tree[i].fails))
    && (forall j :: j in log ==> j.ino < |tree| && (j.DirBlocks? || j == InodeJob(tree, j.ino)))
  }

  /** The blocks are queued of each placed directory that no longer waits in `open`. */
  predicate Written(tree: seq<Inode>, parent: seq<Option<nat>>, log: seq<Job>, open: set<nat>)
    requires |parent| == |tree|
  {
    && (forall i :: i in open ==> i < |tree| && Dir(i) in log)
    && (forall i :: 0 <= i < |tree| ==> (DirBlocks(i) in log <==> Dir(i) in log && i !in open))
  }

  ghost predicate Invariant(tree: seq<Inode>, root: nat, parent: seq<Option<nat>>, log: seq<Job>, open: set<nat>) {
    && |parent| == |tree| && root < |tree| && parent[root].Some?
    && NoRepeats(log)
    && Marked(tree, parent, log)
    && OnlyReachable(tree, root, parent)
    && Placed(tree, parent, log)
    && Written(tree, parent, log, open)
    && Ordered(tree, parent, log)
  }

  lemma OrderedGrows(tree: seq<Inode>, parent: seq<Option<nat>>, parent': seq<Option<nat>>, log: seq<Job>, job: Job)
    requires |parent'| == |parent| == |tree| && Ordered(tree, parent, log)
    requires forall i :: 0 <= i < |tree| && parent[i].Some? ==> parent'[i] == parent[i]
    requires job.DirBlocks? ==> job.ino < |tree| && Ready(tree, parent', log, job.ino)
    ensures Ordered(tree, parent', log + [job])
    ensures Ordered(tree, parent', log)
  {
    forall p | 0 <= p < |log| && log[p].DirBlocks?
      ensures Ready(tree, parent', log[..p], log[p].ino)
    {
      assert Ready(tree, parent, log[..p], log[p].ino);
      if Clean(tree, parent') {
        assert Clean(tree, parent);
      }
    }
    forall p | 0 <= p < |log + [job]| && (log + [job])[p].DirBlocks?
      ensures (log + [job])[p].ino < |tree| && Ready(tree, parent', (log + [job])[..p], (log + [job])[p].ino)
    {
      assert (log + [job])[..p] == log[..p];
      if p == |log| {
        assert log[..p] == log;
      } else {
        assert Ready(tree, parent', log[..p], log[p].ino);
      }
    }
  }

  lemma DirIsMarked(tree: seq<Inode>, parent: seq<Option<nat>>, log: seq<Job>, dir: nat)
    requires |parent| == |tree| && Placed(tree, parent, log)
    ensures Dir(dir) in log ==> dir < |tree| && tree[dir].isDir && parent[dir].Some? && !tree[dir].fails
  {
    if Dir(dir) in log {
      assert Dir(dir) == InodeJob(tree, Dir(dir).ino);
    }
  }

  lemma MarkMore(tree: seq<Inode>, root: nat, parent: seq<Option<nat>>, log: seq<Job>, c: nat, dir: nat)
    requires |parent| == |tree| && c < |tree| && dir < |tree| && Dir(dir) in log
    requires Marked(tree, parent, log) && OnlyReachable(tree, root, parent) && Reachable(tree, root, c)
    ensures Marked(tree, parent[c := Some(dir)], log)
    ensures OnlyReachable(tree, root, parent[c := Some(dir)])
    ensures Marked(tree, parent[c := Some(dir)], log + [InodeJob(tree, c)])
  {
    hide Reachable;
  }

  lemma PlaceOne(tree: seq<Inode>, parent: seq<Option<nat>>, log: seq<Job>, open: set<nat>, c: nat, dir: nat)
    requires |parent| == |tree| && c < |tree| && parent[c].None? && !tree[c].fails
    requires Placed(tree, parent, log) && Written(tree, parent, log, open) && NoRepeats(log)
    ensures var log' := log + [InodeJob(tree, c)];
            && NoRepeats(log')
            && Placed(tree, parent[c := Some(dir)], log')
            && Written(tree, parent[c := Some(dir)], log', open + if tree[c].isDir then {c} else {})
  {
    var job := InodeJob(tree, c);
    AppendNew(log, job);
    hide NoRepeats;
    DirIsMarked(tree, parent, log, c);
  }

  lemma WriteOne(tree: seq<Inode>, parent: seq<Option<nat>>, log: seq<Job>, open: set<nat>, dir: nat)
    requires |parent| == |tree| && dir in open
    requires Placed(tree, parent, log) && Written(tree, parent, log, open) && NoRepeats(log)
    ensures var log' := log + [DirBlocks(dir)];
            && NoRepeats(log')
            && Placed(tree, parent, log')
            && Written(tree, parent, log', open - {dir})
  {
    DirIsMarked(tree, parent, log, dir);
    AppendNew(log, DirBlocks(dir));
    hide NoRepeats;
  }

  /** A first visit that fails marks the inode and queues nothing. */
  lemma FailedVisitKeeps(tree: seq<Inode>, root: nat, parent: seq<Option<nat>>, log: seq<Job>, open: set<nat>,
                         dir: nat, k: nat)
    requires TreeOk(tree, root) && Invariant(tree, root, parent, log, open)
    requires dir in open && dir < |tree| && k < |tree[dir].dentries|
    requires var c := tree[dir].dentries[k]; parent[c].None? && tree[c].fails
    ensures Invariant(tree, root, parent[tree[dir].dentries[k] := Some(dir)], log, open)
  {
    var c := tree[dir].dentries[k];
    DirIsMarked(tree, parent, log, dir);
    DentryIsReachable(tree, root, dir, k);
    MarkMore(tree, root, parent, log, c, dir);
    OrderedGrows(tree, parent, parent[c := Some(dir)], log, NonDir(c));
    assert Placed(tree, parent[c := Some(dir)], log) by {
      hide Ordered, NoRepeats, Marked, OnlyReachable, Written;
    }
    hide Ordered, NoRepeats, Marked, OnlyReachable, Placed;
  }

  /** A first visit that works queues the inode's job; a directory then waits. */
  lemma VisitKeeps(tree: seq<Inode>, root: nat, parent: seq<Option<nat>>, log: seq<Job>, open: set<nat>,
                   dir: nat, k: nat)
    requires TreeOk(tree, root) && Invariant(tree, root, parent, log, open)
    requires dir in open && dir < |tree| && k < |tree[dir].dentries|
    requires var c := tree[dir].dentries[k]; parent[c].None? && !tree[c].fails
    ensures var c := tree[dir].dentries[k];
            Invariant(tree, root, parent[c := Some(dir)], log + [InodeJob(tree, c)],
                      open + if tree[c].isDir then {c} else {})
  {
    var c := tree[dir].dentries[k];
    DirIsMarked(tree, parent, log, dir);
    DentryIsReachable(tree, root, dir, k);
    MarkMore(tree, root, parent, log, c, dir);
    OrderedGrows(tree, parent, parent[c := Some(dir)], log, InodeJob(tree, c));
    PlaceOne(tree, parent, log, open, c, dir);
    hide Ordered, NoRepeats, OnlyReachable, Placed, Written;
  }

  /** Queueing the blocks of a directory whose dentries are done with. */
  lemma WriteKeeps(tree: seq<Inode>, root: nat, parent: seq<Option<nat>>, log: seq<Job>, open: set<nat>, dir: nat)
    requires TreeOk(tree, root) && Invariant(tree, root, parent, log, open) && dir in open && dir < |tree|
    requires Clean(tree, parent) ==> ChildrenIn(tree, log, dir)
    ensures Invariant(tree, root, parent, log + [DirBlocks(dir)], open - {dir})
  {
    DirIsMarked(tree, parent, log, dir);
    WriteOne(tree, parent, log, open, dir);
    assert Ready(tree, parent, log, dir);
    OrderedGrows(tree, parent, parent, log, DirBlocks(dir));
    assert Marked(tree, parent, log + [DirBlocks(dir)]) by {
      hide Ordered, NoRepeats, OnlyReachable, Placed, Written;
    }
    hide Ordered, NoRepeats, OnlyReachable, Placed, Written, Marked;
  }

  /** Everything reachable is marked once nothing waits and nothing failed. */
  lemma {:induction false} MarkedAlong(tree: seq<Inode>, root: nat, parent: seq<Option<nat>>, log: seq<Job>,
                                       p: seq<nat>)
    requires TreeOk(tree, root) && Invariant(tree, root, parent, log, {})
    requires Clean(tree, parent) && Path(tree, root, p)
    ensures parent[p[|p| - 1]].Some?
  {
    if |p| > 1 {
      var d, c := p[|p| - 2], p[|p| - 1];
      MarkedAlong(tree, root, parent, log, p[..|p| - 1]);
      assert c in tree[d].dentries;
      assert InodeJob(tree, d) in log && DirBlocks(d) in log;
      var q :| 0 <= q < |log| && log[q] == DirBlocks(d);
      assert Ready(tree, parent, log[..q], d) && ChildrenIn(tree, log[..q], d);
      assert InodeJob(tree, c) in log;
    }
  }

  // ----- the walk ----------------------------------------------------------------------

  function First(s: seq<nat>): Option<nat> {
    if s == [] then None else Some(s[0])
  }

  /** The chain through `next_dirwrite` that starts at `head` holds `work`. */
  predicate Chain(next: seq<Option<nat>>, head: Option<nat>, work: seq<nat>) {
    && head == First(work)
    && (forall k :: 0 <= k < |work| ==> work[k] < |next| && next[work[k]] == First(work[k + 1..]))
    && (forall j, k :: 0 <= j < k < |work| ==> work[j] != work[k])
  }

  /** The same with the last link still to be written; `last` says where it is, `None` being `head`. */
  predicate OpenChain(next: seq<Option<nat>>, head: Option<nat>, last: Option<nat>, work: seq<nat>) {
    && (work != [] ==> head == Some(work[0]))
    && last == (if work == [] then None else Some(work[|work| - 1]))
    && (forall k :: 0 <= k < |work| ==> work[k] < |next|)
    && (forall k :: 0 <= k < |work| - 1 ==> next[work[k]] == Some(work[k + 1]))
    && (forall j, k :: 0 <= j < k < |work| ==> work[j] != work[k])
  }

  function Elements(s: seq<nat>): set<nat> {
    set i | i in s
  }

  /** `*last = value`, where `last` points at the local `head` or at an inode's `next_dirwrite`. */
  function Linked(next: seq<Option<nat>>, last: Option<nat>, value: Option<nat>): seq<Option<nat>>
    requires last.Some? ==> last.value < |next|
  {
    if last.Some? then next[last.value := value] else next
  }

  lemma LinkOne(next: seq<Option<nat>>, head: Option<nat>, last: Option<nat>, work: seq<nat>, c: nat)
    requires OpenChain(next, head, last, work) && c < |next| && c !in work
    ensures OpenChain(Linked(next, last, Some(c)), if last.None? then Some(c) else head, Some(c), work + [c])
  {
  }

  lemma Disjoint(work: seq<nat>, waiting: seq<nat>)
    requires forall j, k :: 0 <= j < k < |work| ==> work[j] != work[k]
    requires forall j, k :: 0 <= j < k < |waiting| ==> waiting[j] != waiting[k]
    requires forall i :: i in work ==> i !in waiting
    ensures forall j, k :: 0 <= j < k < |work + waiting| ==> (work + waiting)[j] != (work + waiting)[k]
  {
    var all := work + waiting;
    forall j, k | 0 <= j < k < |all|
      ensures all[j] != all[k]
    {
      if j < |work| <= k {
        assert work[j] in work && waiting[k - |work|] in waiting;
      }
    }
  }

  lemma LinkRest(next: seq<Option<nat>>, head: Option<nat>, last: Option<nat>, work: seq<nat>, rest: Option<nat>,
                 waiting: seq<nat>)
    requires OpenChain(next, head, last, work) && Chain(next, rest, waiting)
    requires forall i :: i in work ==> i !in waiting
    ensures Chain(Linked(next, last, rest), if last.None? then rest else head, work + waiting)
  {
    var all := work + waiting;
    Disjoint(work, waiting);
    forall k | 0 <= k < |all|
      ensures all[k] < |next|
      ensures Linked(next, last, rest)[all[k]] == First(all[k + 1..])
    {
      if k >= |work| {
        var m := k - |work|;
        assert waiting[m] in waiting && all[k] !in work;
        assert next[waiting[m]] == First(waiting[m + 1..]);
      } else if k < |work| - 1 {
        assert all[k] == work[k] && work[k] != work[|work| - 1];
        assert all[k + 1] == work[k + 1];
      } else {
        assert all[k] == last.value;
        assert waiting != [] ==> all[k + 1] == waiting[0];
      }
    }
  }

  /** Other links do not touch the chain. */
  lemma LinkApart(next: seq<Option<nat>>, last: Option<nat>, value: Option<nat>, rest: Option<nat>, waiting: seq<nat>)
    requires Chain(next, rest, waiting)
    requires last.Some? ==> last.value < |next| && last.value !in waiting
    ensures Chain(Linked(next, last, value), rest, waiting)
  {
  }

  lemma CountFirst(tree: seq<Inode>, root: nat, parent: seq<Option<nat>>, nlink: seq<nat>, seen: seq<nat>,
                   c: nat, dir: nat)
    requires |parent| == |nlink| == |tree| && Counted(tree, root, parent, nlink, seen)
    requires c < |tree| && c != root && parent[c].None?
    ensures nlink[c] == 1
    ensures Counted(tree, root, parent[c := Some(dir)], nlink[c := StartLinks(tree, c)], seen + [c])
    ensures tree[c].fails ==> Counted(tree, root, parent[c := Some(dir)], nlink, seen)
  {
    TimesAppend(seen, c);
    hide StartLinks, Times;
  }

  lemma CountAgain(tree: seq<Inode>, root: nat, parent: seq<Option<nat>>, nlink: seq<nat>, seen: seq<nat>,
                   c: nat)
    requires |parent| == |nlink| == |tree| && Counted(tree, root, parent, nlink, seen)
    requires c < |tree| && parent[c].Some?
    ensures Counted(tree, root, parent, nlink[c := nlink[c] + 1], seen + [c])
  {
    TimesAppend(seen, c);
    hide StartLinks, Times;
  }

  lemma OpenAreMarked(tree: seq<Inode>, root: nat, parent: seq<Option<nat>>, log: seq<Job>, open: set<nat>)
    requires Invariant(tree, root, parent, log, open)
    ensures |parent| == |tree| && root < |tree| && parent[root].Some?
    ensures forall i :: i in open ==> i < |tree| && parent[i].Some? && DirBlocks(i) !in log
  {
    hide Ordered, OnlyReachable, NoRepeats, Marked;
    forall i | i in open
      ensures i < |tree| && parent[i].Some?
    {
      DirIsMarked(tree, parent, log, i);
    }
  }

  /**
   * In the middle of the dentries of `dir`: `found` are its subdirectories so far, `waiting` the other
   * directories on the chain, `seen` the dentries counted.
   */
  datatype Walk = Walk(dir: nat, head: Option<nat>, last: Option<nat>, found: seq<nat>, rest: Option<nat>,
                       waiting: seq<nat>, seen: seq<nat>)

  ghost predicate WalkOk(tree: seq<Inode>, root: nat, parent: seq<Option<nat>>, log: seq<Job>,
                         next: seq<Option<nat>>, nlink: seq<nat>, w: Walk)
  {
    && TreeOk(tree, root) && |parent| == |next| == |nlink| == |tree| && w.dir < |tree|
    && Invariant(tree, root, parent, log, Open(w))
    && Counted(tree, root, parent, nlink, w.seen)
    && OpenChain(next, w.head, w.last, w.found) && Chain(next, w.rest, w.waiting)
    && (w.last.Some? ==> w.last.value in w.found && w.last.value < |tree|)
    && w.dir !in w.found && w.dir !in w.waiting && (forall i :: i in w.found ==> i !in w.waiting)
  }

  function Open(w: Walk): set<nat> {
    Elements(w.found + w.waiting) + {w.dir}
  }

  function Found(tree: seq<Inode>, w: Walk, c: nat): Walk
    requires c < |tree|
  {
    var w' := w.(seen := w.seen + [c]);
    if tree[c].isDir then
      w'.(head := if w.last.None? then Some(c) else w.head, last := Some(c), found := w.found + [c])
    else w'
  }

  lemma FirstVisit(tree: seq<Inode>, root: nat, parent: seq<Option<nat>>, log: seq<Job>,
                   next: seq<Option<nat>>, nlink: seq<nat>, w: Walk, k: nat)
    requires WalkOk(tree, root, parent, log, next, nlink, w) && k < |tree[w.dir].dentries|
    requires parent[tree[w.dir].dentries[k]].None?
    ensures var c := tree[w.dir].dentries[k];
            && nlink[c] == 1
            && (tree[c].fails ==> WalkOk(tree, root, parent[c := Some(w.dir)], log, next, nlink, w))
            && (!tree[c].fails ==>
                  WalkOk(tree, root, parent[c := Some(w.dir)], log + [InodeJob(tree, c)],
                         if tree[c].isDir then Linked(next, w.last, Some(c)) else next,
                         nlink[c := StartLinks(tree, c)], Found(tree, w, c)))
  {
    hide Invariant, Counted, OpenChain, Chain, StartLinks, Times;
    var c := tree[w.dir].dentries[k];
    OpenAreMarked(tree, root, parent, log, Open(w));
    OpenFound(tree, w, c);
    hide Open;
    CountFirst(tree, root, parent, nlink, w.seen, c, w.dir);
    if tree[c].fails {
      FailedVisitKeeps(tree, root, parent, log, Open(w), w.dir, k);
    } else {
      VisitKeeps(tree, root, parent, log, Open(w), w.dir, k);
      if tree[c].isDir {
        LinkOne(next, w.head, w.last, w.found, c);
        LinkApart(next, w.last, Some(c), w.rest, w.waiting);
      }
    }
  }

  lemma OpenFound(tree: seq<Inode>, w: Walk, c: nat)
    requires c < |tree|
    ensures Open(Found(tree, w, c)) == Open(w) + if tree[c].isDir then {c} else {}
    ensures w.dir in Open(w)
    ensures c !in Open(w) ==> c != w.dir && c !in w.found && c !in w.waiting
    ensures c in Open(w) <==> c == w.dir || c in w.found || c in w.waiting
  {
  }

  lemma LaterVisit(tree: seq<Inode>, root: nat, parent: seq<Option<nat>>, log: seq<Job>,
                   next: seq<Option<nat>>, nlink: seq<nat>, w: Walk, c: nat)
    requires WalkOk(tree, root, parent, log, next, nlink, w) && c < |tree| && parent[c].Some?
    ensures WalkOk(tree, root, parent, log, next, nlink[c := nlink[c] + 1], w.(seen := w.seen + [c]))
  {
    hide Invariant, Counted, OpenChain, Chain, Times;
    CountAgain(tree, root, parent, nlink, w.seen, c);
    assert Open(w.(seen := w.seen + [c])) == Open(w);
    hide Open;
  }

  /** The dentries of a directory are done with. */
  lemma WalkEnds(tree: seq<Inode>, root: nat, parent: seq<Option<nat>>, log: seq<Job>,
                 next: seq<Option<nat>>, nlink: seq<nat>, w: Walk)
    requires WalkOk(tree, root, parent, log, next, nlink, w)
    requires Clean(tree, parent) ==> forall k :: 0 <= k < |tree[w.dir].dentries| ==> parent[tree[w.dir].dentries[k]].Some?
    ensures Chain(Linked(next, w.last, w.rest), if w.last.None? then w.rest else w.head, w.found + w.waiting)
    ensures Invariant(tree, root, parent, log + [DirBlocks(w.dir)], Elements(w.found + w.waiting))
  {
    LinkRest(next, w.head, w.last, w.found, w.rest, w.waiting);
    if Clean(tree, parent) {
      MarkedArePlaced(tree, parent, log, w.dir);
    }
    WriteKeeps(tree, root, parent, log, Open(w), w.dir);
    assert Open(w) - {w.dir} == Elements(w.found + w.waiting);
  }

  lemma MarkedArePlaced(tree: seq<Inode>, parent: seq<Option<nat>>, log: seq<Job>, d: nat)
    requires |parent| == |tree| && Placed(tree, parent, log) && Clean(tree, parent) && d < |tree|
    requires forall k :: 0 <= k < |tree[d].dentries| ==> tree[d].dentries[k] < |tree|
    requires forall k :: 0 <= k < |tree[d].dentries| ==> parent[tree[d].dentries[k]].Some?
    ensures ChildrenIn(tree, log, d)
  {
  }

  // ----- what the walk leaves ----------------------------------------------------------

  /** The facts a finished walk leaves behind. */
  ghost predicate Dumped(tree: seq<Inode>, root: nat, ok: bool, log: seq<Job>, parent: seq<Option<nat>>,
                         nlink: seq<nat>)
  {
    && TreeOk(tree, root) && |parent| == |nlink| == |tree|
    && ok == !tree[root].fails
    && (!ok ==> log == [])
    && (ok ==> Invariant(tree, root, parent, log, {}))
    && (ok && Clean(tree, parent) ==>
          exists seen :: AllSeen(tree, WrittenDirs(tree, log), seen) && Counted(tree, root, parent, nlink, seen))
  }

  ghost predicate NoneFails(tree: seq<Inode>, root: nat) {
    forall i :: 0 <= i < |tree| && Reachable(tree, root, i) ==> !tree[i].fails
  }

  ghost predicate AllPlaced(tree: seq<Inode>, root: nat, log: seq<Job>) {
    forall i :: 0 <= i < |tree| && Reachable(tree, root, i) ==> InodeJob(tree, i) in log
  }

  /** Inode jobs for exactly the reachable inodes, block jobs for exactly the directories among them. */
  ghost predicate Complete(tree: seq<Inode>, root: nat, log: seq<Job>) {
    forall i :: 0 <= i < |tree| ==>
      && (InodeJob(tree, i) in log <==> Reachable(tree, root, i))
      && (DirBlocks(i) in log <==> Reachable(tree, root, i) && tree[i].isDir)
  }

  /** Each reachable inode starts with its own count and gains one for every further dentry naming it. */
  ghost predicate LinksCounted(tree: seq<Inode>, root: nat, nlink: seq<nat>) {
    forall i :: 0 <= i < |tree| && i < |nlink| && Reachable(tree, root, i) ==>
      nlink[i] + (if i == root then 0 else 1) == StartLinks(tree, i) + Links(tree, root, i)
  }

  /** The dentries of a directory that name directories. */
  ghost function SubdirSlots(tree: seq<Inode>, i: nat): set<nat>
    requires i < |tree|
  {
    set k: nat | k < |tree[i].dentries| && tree[i].dentries[k] < |tree| && tree[tree[i].dentries[k]].isDir
  }

  /**
   * A directory that has one name, or none as the root, ends with `.`, `..` and its subdirectories
   * counted, or with 1 if that is more than the 32-byte form holds; a file with its names counted.
   */
  ghost predicate LinksRight(tree: seq<Inode>, root: nat, nlink: seq<nat>) {
    forall i :: 0 <= i < |tree| && i < |nlink| && Reachable(tree, root, i) ==>
      if tree[i].isDir then
        Links(tree, root, i) == (if i == root then 0 else 1) ==>
          var n := 2 + |SubdirSlots(tree, i)|;
          nlink[i] == if tree[i].compact && n > 65535 then 1 else n
      else nlink[i] == Links(tree, root, i)
  }

  lemma {:induction false} SubdirsCount(tree: seq<Inode>, names: seq<nat>)
    ensures Subdirs(tree, names) == |set k: nat | k < |names| && names[k] < |tree| && tree[names[k]].isDir|
  {
    var slots := set k: nat | k < |names| && names[k] < |tree| && tree[names[k]].isDir;
    if names == [] {
      assert slots == {};
    } else {
      var n := |names| - 1;
      var init := names[..n];
      SubdirsCount(tree, init);
      var before := set k: nat | k < |init| && init[k] < |tree| && tree[init[k]].isDir;
      if names[n] < |tree| && tree[names[n]].isDir {
        assert slots == before + {n};
      } else {
        assert slots == before;
      }
    }
  }

  lemma CountedIsRight(tree: seq<Inode>, root: nat, nlink: seq<nat>)
    requires TreeOk(tree, root) && LinksCounted(tree, root, nlink)
    ensures LinksRight(tree, root, nlink)
  {
    hide Reachable, Links;
    forall i | 0 <= i < |tree|
      ensures tree[i].isDir ==> Subdirs(tree, tree[i].dentries) == |SubdirSlots(tree, i)|
    {
      SubdirsCount(tree, tree[i].dentries);
      assert SubdirSlots(tree, i) == set k: nat | k < |tree[i].dentries| && tree[i].dentries[k] < |tree| && tree[tree[i].dentries[k]].isDir;
    }
    hide SubdirSlots, Subdirs;
  }

  lemma EveryoneIsMarked(tree: seq<Inode>, root: nat, parent: seq<Option<nat>>, log: seq<Job>)
    requires TreeOk(tree, root) && Invariant(tree, root, parent, log, {}) && Clean(tree, parent)
    ensures forall i :: 0 <= i < |tree| ==> (parent[i].Some? <==> Reachable(tree, root, i))
  {
    forall i | 0 <= i < |tree| && Reachable(tree, root, i)
      ensures parent[i].Some?
    {
      var p :| Path(tree, root, p) && p[|p| - 1] == i;
      MarkedAlong(tree, root, parent, log, p);
    }
  }

  lemma WrittenAreDirs(tree: seq<Inode>, root: nat, parent: seq<Option<nat>>, log: seq<Job>)
    requires |parent| == |tree| && Placed(tree, parent, log) && Written(tree, parent, log, {})
    ensures forall i :: 0 <= i < |tree| ==>
              && (DirBlocks(i) in log <==> tree[i].isDir && parent[i].Some? && !tree[i].fails)
              && (InodeJob(tree, i) in log <==> parent[i].Some? && !tree[i].fails)
  {
    forall i | 0 <= i < |tree|
      ensures DirBlocks(i) in log <==> tree[i].isDir && parent[i].Some? && !tree[i].fails
    {
      DirIsMarked(tree, parent, log, i);
      assert InodeJob(tree, i) in log <==> parent[i].Some? && !tree[i].fails;
    }
  }

  lemma WalkIsComplete(tree: seq<Inode>, root: nat, ok: bool, log: seq<Job>, parent: seq<Option<nat>>,
                       nlink: seq<nat>)
    requires Dumped(tree, root, ok, log, parent, nlink) && ok
    requires NoneFails(tree, root)
    ensures Complete(tree, root, log) && LinksCounted(tree, root, nlink)
  {
    hide Ordered, Marked, NoRepeats, Written, Reachable, StartLinks, Named, Times, Placed;
    assert Clean(tree, parent);
    EveryoneIsMarked(tree, root, parent, log);
    WrittenAreDirs(tree, root, parent, log);
    assert WrittenDirs(tree, log) == ReachableDirs(tree, root);
    assert Complete(tree, root, log);
    var seen :| AllSeen(tree, WrittenDirs(tree, log), seen) && Counted(tree, root, parent, nlink, seen);
    LinksFollow(tree, root, parent, nlink, seen);
  }

  lemma LinksFollow(tree: seq<Inode>, root: nat, parent: seq<Option<nat>>, nlink: seq<nat>, seen: seq<nat>)
    requires |parent| == |nlink| == |tree| && Counted(tree, root, parent, nlink, seen) && Clean(tree, parent)
    requires AllSeen(tree, ReachableDirs(tree, root), seen)
    requires forall i :: 0 <= i < |tree| ==> (parent[i].Some? <==> Reachable(tree, root, i))
    ensures LinksCounted(tree, root, nlink)
  {
    hide ReachableDirs, Reachable, StartLinks, Named, Times;
  }

  /** Whether any inode failed shows in the jobs, never in the value returned. */
  lemma AllPlacedExactly(tree: seq<Inode>, root: nat, ok: bool, log: seq<Job>, parent: seq<Option<nat>>,
                         nlink: seq<nat>)
    requires Dumped(tree, root, ok, log, parent, nlink) && ok
    ensures AllPlaced(tree, root, log) <==> NoneFails(tree, root)
  {
    if NoneFails(tree, root) {
      WalkIsComplete(tree, root, ok, log, parent, nlink);
    }
  }

  /**
   * A file that cannot be handled: the walk still reports success and the directory's blocks, which
   * name it, are queued without it.
   */
  lemma LostFailure(ok: bool, log: seq<Job>, parent: seq<Option<nat>>, nlink: seq<nat>)
    requires Dumped([Inode(true, true, false, [1]), Inode(false, true, true, [])], 0, ok, log, parent, nlink)
    ensures ok && DirBlocks(0) in log && NonDir(1) !in log
  {
    var tree := [Inode(true, true, false, [1]), Inode(false, true, true, [])];
    WrittenAreDirs(tree, 0, parent, log);
    assert InodeJob(tree, 1) == NonDir(1);
  }

  // ----- link counts on disk -----------------------------------------------------------

  /** `i_nlink` in the image: 16 bits in the 32-byte form, which is chosen while the count is still 1. */
  function StoredLinks(compact: bool, n: nat): nat {
    if compact then n % 65536 else n
  }

  /** A file's count is its number of names; the stored one is right unless it is short of bits. */
  lemma StoredLinksExactly(tree: seq<Inode>, root: nat, log: seq<Job>, parent: seq<Option<nat>>,
                           nlink: seq<nat>, i: nat)
    requires Dumped(tree, root, true, log, parent, nlink) && NoneFails(tree, root)
    requires i < |tree| && !tree[i].isDir && Reachable(tree, root, i)
    ensures |nlink| == |tree| && nlink[i] == Links(tree, root, i)
    ensures StoredLinks(tree[i].compact, nlink[i]) == Links(tree, root, i) <==>
            !tree[i].compact || Links(tree, root, i) <= 65535
  {
    hide Reachable, Links, Dumped, NoneFails, Complete, StoredLinks;
    WalkIsComplete(tree, root, true, log, parent, nlink);
    RootIsNoFile(tree, root, log, parent, nlink);
    Fits(tree[i].compact, nlink[i]);
  }

  lemma Fits(compact: bool, n: nat)
    ensures StoredLinks(compact, n) == n <==> !compact || n <= 65535
  {
  }

  lemma RootIsNoFile(tree: seq<Inode>, root: nat, log: seq<Job>, parent: seq<Option<nat>>, nlink: seq<nat>)
    requires Dumped(tree, root, true, log, parent, nlink)
    ensures |nlink| == |tree| && root < |tree| && tree[root].isDir
  {
    hide Invariant, Counted, Clean;
  }

  lemma {:induction false} TimesSame(n: nat)
    ensures Times(seq(n, i => 1), 1) == n
  {
    if n > 0 {
      assert seq(n, i => 1)[..n - 1] == seq(n - 1, i => 1);
      TimesSame(n - 1);
    }
  }

  /** One file under 65536 names is stored with no links at all. */
  lemma LinksWrap(log: seq<Job>, parent: seq<Option<nat>>, nlink: seq<nat>)
    requires Dumped([Inode(true, true, false, seq(65536, i => 1)), Inode(false, true, false, [])], 0, true,
                    log, parent, nlink)
    ensures |nlink| > 1 && StoredLinks(true, nlink[1]) == 0
  {
    hide Dumped, Links;
    var tree := [Inode(true, true, false, seq(65536, i => 1)), Inode(false, true, false, [])];
    ManyNames(tree);
    StoredLinksExactly(tree, 0, log, parent, nlink, 1);
  }

  lemma ManyNames(tree: seq<Inode>)
    requires tree == [Inode(true, true, false, seq(65536, i => 1)), Inode(false, true, false, [])]
    ensures TreeOk(tree, 0) && NoneFails(tree, 0) && Reachable(tree, 0, 1)
    ensures Links(tree, 0, 1) == 65536
  {
    TimesSame(65536);
    RootIsReachable(tree, 0);
    DentryIsReachable(tree, 0, 0, 0);
    hide Times, Reachable;
    var dirs := ReachableDirs(tree, 0);
    assert dirs == {0};
    assert Named(tree, dirs, 0, 1) == 0;
    assert Named(tree, dirs, 1, 1) == 65536;
  }

  function Unwritten(tree: seq<Inode>, log: seq<Job>): set<nat> {
    set i | 0 <= i < |tree| && DirBlocks(i) !in log
  }

  lemma WrittenGrows(tree: seq<Inode>, log: seq<Job>, d: nat)
    requires d < |tree|
    ensures WrittenDirs(tree, log + [DirBlocks(d)]) == WrittenDirs(tree, log) + {d}
  {
  }

  lemma UnwrittenShrinks(tree: seq<Inode>, log: seq<Job>, log': seq<Job>, d: nat)
    requires WrittenDirs(tree, log') == WrittenDirs(tree, log) + {d}
    requires d < |tree| && DirBlocks(d) !in log
    ensures Unwritten(tree, log') < Unwritten(tree, log)
    ensures d !in WrittenDirs(tree, log)
  {
    assert d in WrittenDirs(tree, log');
    assert d in Unwritten(tree, log) && d !in Unwritten(tree, log');
    forall i | i in Unwritten(tree, log')
      ensures i in Unwritten(tree, log)
    {
      assert i !in WrittenDirs(tree, log');
    }
  }

  /** Only the root is marked and queued. */
  lemma DumpRoot(tree: seq<Inode>, root: nat, parent: seq<Option<nat>>, log: seq<Job>, nlink: seq<nat>)
    requires TreeOk(tree, root) && !tree[root].fails && |parent| == |nlink| == |tree|
    requires log == [Dir(root)] && nlink[root] == StartLinks(tree, root)
    requires parent[root] == Some(root)
    requires forall i :: 0 <= i < |tree| && i != root ==> parent[i].None? && nlink[i] == 1
    ensures Elements([root]) == {root}
    ensures Invariant(tree, root, parent, log, {root})
    ensures Counted(tree, root, parent, nlink, [])
    ensures AllSeen(tree, WrittenDirs(tree, log), [])
  {
    RootIsReachable(tree, root);
    forall i | 0 <= i < |tree|
      ensures Named(tree, {}, |tree|, i) == 0
    {
      NoNames(tree, |tree|, i);
    }
    assert WrittenDirs(tree, log) == {};
    hide Reachable, StartLinks, Named;
  }

  lemma WalkBegins(tree: seq<Inode>, root: nat, parent: seq<Option<nat>>, log: seq<Job>, next: seq<Option<nat>>,
                   nlink: seq<nat>, work: seq<nat>, seen: seq<nat>, w: Walk)
    requires TreeOk(tree, root) && |parent| == |next| == |nlink| == |tree| && work != []
    requires Invariant(tree, root, parent, log, Elements(work)) && Counted(tree, root, parent, nlink, seen)
    requires Chain(next, Some(work[0]), work)
    requires w == Walk(work[0], None, None, [], next[work[0]], work[1..], seen)
    ensures WalkOk(tree, root, parent, log, next, nlink, w)
    ensures DirBlocks(work[0]) !in log
  {
    hide Invariant, Counted, Times, StartLinks;
    OpenAreMarked(tree, root, parent, log, Elements(work));
    assert work == [work[0]] + work[1..];
    assert Open(w) == Elements(work);
    assert work[0] in Elements(work);
    ChainRest(next, work);
    hide Open, Elements, Chain;
  }

  lemma NothingWaits(next: seq<Option<nat>>, work: seq<nat>)
    requires Chain(next, None, work)
    ensures Elements(work) == {}
  {
  }

  lemma ChainRest(next: seq<Option<nat>>, work: seq<nat>)
    requires work != [] && Chain(next, Some(work[0]), work)
    ensures work[0] < |next| && work[0] !in work[1..]
    ensures Chain(next, next[work[0]], work[1..])
  {
    forall k | 0 <= k < |work| - 1
      ensures work[1..][k] < |next| && next[work[1..][k]] == First(work[1..][k + 1..])
    {
      assert next[work[k + 1]] == First(work[k + 1 + 1..]);
      assert work[1..][k + 1..] == work[k + 1 + 1..];
    }
  }

  class Dumper {
    const tree: seq<Inode>
    const root: nat
    var log: seq<Job>
    var parent: seq<Option<nat>>
    var next: seq<Option<nat>>
    var nlink: seq<nat>

    constructor (tree: seq<Inode>, root: nat)
      requires TreeOk(tree, root)
      ensures this.tree == tree && this.root == root && log == []
      ensures |parent| == |next| == |nlink| == |tree|
      ensures forall i :: 0 <= i < |tree| ==> parent[i] == None && nlink[i] == 1
    {
      this.tree, this.root := tree, root;
      log := [];
      parent, next := seq(|tree|, i => None), seq(|tree|, i => None);
      nlink := seq(|tree|, i => 1);
    }

    method DirLinks(dir: nat) returns (n: nat)
      requires TreeOk(tree, root) && dir < |tree| && tree[dir].isDir
      ensures n == StartLinks(tree, dir)
    {
      var names := tree[dir].dentries;
      n := 2;
      for k := 0 to |names|
        invariant n == 2 + Subdirs(tree, names[..k])
      {
        assert names[..k + 1][..k] == names[..k];
        if tree[names[k]].isDir {
          n := n + 1;
        }
      }
      assert names[..|names|] == names;
      if n > 65535 && tree[dir].compact {
        n := 1;
      }
    }

    /** Mark an inode, handle it and queue its job. */
    method HandleInode(c: nat) returns (ok: bool)
      requires TreeOk(tree, root) && c < |tree| && |nlink| == |tree| && nlink[c] == 1
      modifies `log, `nlink
      ensures ok == !tree[c].fails
      ensures !ok ==> log == old(log) && nlink == old(nlink)
      ensures ok ==> log == old(log) + [InodeJob(tree, c)] && nlink == old(nlink)[c := StartLinks(tree, c)]
    {
      if tree[c].fails {
        return false;
      }
      if tree[c].isDir {
        var n := DirLinks(c);
        nlink := nlink[c := n];
        log := log + [Dir(c)];
      } else {
        log := log + [NonDir(c)];
      }
      return true;
    }

    ghost predicate Walking(w: Walk)
      reads this
    {
      WalkOk(tree, root, parent, log, next, nlink, w)
    }

    method Visit(dir: nat, k: nat, head: Option<nat>, last: Option<nat>, ghost w: Walk)
      returns (ok: bool, head': Option<nat>, last': Option<nat>, ghost w': Walk)
      requires Walking(w) && w.dir == dir && w.head == head && w.last == last
      requires k < |tree[dir].dentries|
      modifies `log, `parent, `next, `nlink
      ensures Walking(w') && w'.head == head' && w'.last == last'
      ensures w'.(found := w.found, head := head, last := last, seen := w.seen) == w
      ensures |parent| == |tree| && parent[tree[dir].dentries[k]].Some?
      ensures WrittenDirs(tree, log) == WrittenDirs(tree, old(log))
      ensures forall i :: 0 <= i < |tree| && old(parent)[i].Some? ==> parent[i] == old(parent)[i]
      ensures if ok then w'.seen == w.seen + [tree[dir].dentries[k]] else !Clean(tree, parent)
    {
      hide Invariant, Counted, OpenChain, Chain, StartLinks, Open;
      var c := tree[dir].dentries[k];
      ok, head', last', w' := true, head, last, w;
      if parent[c].None? {
        FirstVisit(tree, root, parent, log, next, nlink, w, k);
        hide WalkOk;
        assert tree[c].fails ==> !Clean(tree, parent[c := Some(dir)]);
        hide Clean;
        parent := parent[c := Some(dir)];
        ok := HandleInode(c);
        if ok {
          w' := Found(tree, w, c);
          if tree[c].isDir {
            next := Linked(next, last, Some(c));
            head', last' := if last.None? then Some(c) else head, Some(c);
          }
        }
      } else {
        LaterVisit(tree, root, parent, log, next, nlink, w, c);
        hide WalkOk;
        nlink := nlink[c := nlink[c] + 1];
        w' := w.(seen := w.seen + [c]);
      }
    }

    /**
     * Go through the dentries of `dir`, put its subdirectories before those that wait and queue its
     * blocks. A dentry whose inode fails ends the loop and nothing else.
     */
    method WalkDir(dir: nat, rest: Option<nat>, ghost w: Walk)
      returns (head: Option<nat>, ghost w': Walk)
      requires Walking(w) && w == Walk(dir, None, None, [], rest, w.waiting, w.seen)
      modifies `log, `parent, `next, `nlink
      ensures |parent| == |next| == |nlink| == |tree|
      ensures Chain(next, head, w'.found + w.waiting)
      ensures Invariant(tree, root, parent, log, Elements(w'.found + w.waiting))
      ensures WrittenDirs(tree, log) == WrittenDirs(tree, old(log)) + {dir}
      ensures Counted(tree, root, parent, nlink, w'.seen)
      ensures Clean(tree, parent) ==>
                Clean(tree, old(parent)) && w'.seen == w.seen + tree[dir].dentries
    {
      hide Invariant, Counted, OpenChain, Chain, StartLinks, Open;
      var last: Option<nat> := None;
      var names := tree[dir].dentries;
      var k, ok := 0, true;
      head, w' := None, w;
      while k < |names| && ok
        invariant k <= |names|
        invariant Walking(w') && w'.(found := [], head := None, last := None, seen := w.seen) == w
        invariant w'.head == head && w'.last == last
        invariant |parent| == |tree| && WrittenDirs(tree, log) == WrittenDirs(tree, old(log))
        invariant forall i :: 0 <= i < |tree| && old(parent)[i].Some? ==> parent[i] == old(parent)[i]
        invariant forall j :: 0 <= j < k ==> parent[names[j]].Some?
        invariant if ok then w'.seen == w.seen + names[..k] else !Clean(tree, parent)
        decreases |names| - k
      {
        ok, head, last, w' := Visit(dir, k, head, last, w');
        assert names[..k + 1] == names[..k] + [names[k]];
        k := k + 1;
      }
      WalkEnds(tree, root, parent, log, next, nlink, w');
      next := Linked(next, last, rest);
      head := if last.None? then rest else head;
      WrittenGrows(tree, log, dir);
      log := log + [DirBlocks(dir)];
      assert names[..|names|] == names;
    }

    method DumpAll() returns (ok: bool)
      requires TreeOk(tree, root) && log == []
      requires |parent| == |next| == |nlink| == |tree|
      requires forall i :: 0 <= i < |tree| ==> parent[i] == None && nlink[i] == 1
      modifies `log, `parent, `next, `nlink
      ensures Dumped(tree, root, ok, log, parent, nlink)
    {
      parent := parent[root := Some(root)];
      next := next[root := None];
      ok := HandleInode(root);
      if !ok {
        return;
      }
      DumpRoot(tree, root, parent, log, nlink);
      var dumpdir := Some(root);
      ghost var work, seen := [root], [];
      hide Invariant, Counted, AllSeen, WrittenDirs, Unwritten, Chain, Elements, StartLinks, Clean;
      while dumpdir.Some?
        invariant |parent| == |next| == |nlink| == |tree|
        invariant Invariant(tree, root, parent, log, Elements(work))
        invariant Chain(next, dumpdir, work)
        invariant Counted(tree, root, parent, nlink, seen)
        invariant Clean(tree, parent) ==> AllSeen(tree, WrittenDirs(tree, log), seen)
        decreases Unwritten(tree, log)
      {
        var dir := dumpdir.value;
        ghost var w := Walk(dir, None, None, [], next[dir], work[1..], seen);
        WalkBegins(tree, root, parent, log, next, nlink, work, seen, w);
        ghost var written, was := WrittenDirs(tree, log), log;
        dumpdir, w := WalkDir(dir, next[dir], w);
        if Clean(tree, parent) {
          SeenMore(tree, written, seen, dir);
        }
        UnwrittenShrinks(tree, was, log, dir);
        work, seen := w.found + work[1..], w.seen;
      }
      NothingWaits(next, work);
    }

    /**
     * `erofs_mkfs_dump_tree`, for a build from a source directory. No job is queued twice, a directory's
     * blocks come after the inodes they name, and everything reachable is queued if and only if nothing
     * reachable fails; only a failure of the root itself is reported.
     */
    method Dump() returns (ok: bool)
      requires TreeOk(tree, root) && log == []
      requires |parent| == |next| == |nlink| == |tree|
      requires forall i :: 0 <= i < |tree| ==> parent[i] == None && nlink[i] == 1
      modifies `log, `parent, `next, `nlink
      ensures Dumped(tree, root, ok, log, parent, nlink)
      ensures ok <==> !tree[root].fails
      ensures ok ==> NoRepeats(log) && Ordered(tree, parent, log)
      ensures ok ==> (AllPlaced(tree, root, log) <==> NoneFails(tree, root))
      ensures ok && NoneFails(tree, root) ==> Complete(tree, root, log) && LinksRight(tree, root, nlink)
    {
      ok := DumpAll();
      if ok {
        AllPlacedExactly(tree, root, ok, log, parent, nlink);
        if NoneFails(tree, root) {
          WalkIsComplete(tree, root, ok, log, parent, nlink);
          CountedIsRight(tree, root, nlink);
        }
      }
      hide AllPlaced, NoneFails, Complete, LinksCounted, LinksRight;
    }
  }
}
