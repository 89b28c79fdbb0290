/**
 Which files the garbage collector removes, in terms of what is known of each file from the disk and
 from the info log of its directory.
 */
module GcVerdict {
  import opened GcBuckets
  import opened GarbageCollector
  import opened GcRun
  import opened GcLogs
  import Info = CacheInfo

  // ---- One file ----

  predicate HasExpired(po: Policy, f: Node) { f.expires != 0 && f.expires <= po.curTime && !po.keepExpired }

  /** Not checked for as long as files are kept at most. */
  predicate IsOutdated(po: Policy, f: Node) { f.lastChecked != 0 && f.lastChecked + po.cleanDef <= po.curTime }

  /** Not used for as long as files are kept unused. */
  predicate IsIdle(po: Policy, f: Node) {
    f.lastAccess != 0 && f.maxUnused != 0 && f.lastAccess + f.maxUnused <= po.curTime
  }

  /** A pass with threshold t has no use for the file. */
  predicate IsDue(po: Policy, f: Node, t: real) {
    HasExpired(po, f) || IsOutdated(po, f) || IsIdle(po, f) || po.calculateValue(f) < t
  }

  lemma DueIsBelow(po: Policy, f: Node, t: real)
    requires f.directory.NoDirectory? && t > 0.0
    ensures EvaluatedNode(po, f) == f.(value := EvaluatedNode(po, f).value)
    ensures EvaluatedNode(po, f).value < t <==> IsDue(po, f, t)
  {
  }

  // ---- A pass over a directory in memory ----

  /** The files below a directory that satisfy p. */
  function FilesThat(dir: string, nodes: seq<Node>, p: Node -> bool): seq<Item>
    decreases nodes
  {
    if nodes == [] then []
    else
      var n := nodes[0];
      (if n.directory.Directory? then FilesThat(n.directory.dirname, n.directory.nodes, p)
       else if p(n) then [Item(dir, n.filename, n.bytes)]
       else []) + FilesThat(dir, nodes[1..], p)
  }

  lemma {:induction false} DueAreSelected(po: Policy, dir: string, nodes: seq<Node>, t: real)
    requires t > 0.0
    ensures Select(dir, EvaluatedNodes(po, nodes), Under(t)) == FilesThat(dir, nodes, n => IsDue(po, n, t))
    ensures Select(dir, EvaluatedNodes(po, nodes), AtLeast(t)) == FilesThat(dir, nodes, n => !IsDue(po, n, t))
    decreases nodes
  {
    if nodes == [] {
    } else {
      var n, es := nodes[0], EvaluatedNodes(po, nodes);
      assert es[0] == EvaluatedNode(po, n) && es[1..] == EvaluatedNodes(po, nodes[1..]);
      DueAreSelected(po, dir, nodes[1..], t);
      if n.directory.Directory? {
        DueAreSelected(po, n.directory.dirname, n.directory.nodes, t);
      } else {
        DueIsBelow(po, n, t);
      }
      hide IsDue, EvaluatedNode, EvaluatedNodes;
    }
  }

  lemma ThresholdIsPositive(n: int)
    requires 1 <= n <= TABLE_SIZE
    ensures Threshold(n) > 0.0
  {
  }

  /**
   A pass unlinks exactly the files that have expired, are outdated or idle, or are worth less than
   its threshold, in the order of the table; all others stay.
   */
  lemma PassUnlinksWhatIsDue(po: Policy, d: Directory, fraction: real, w: Weight)
    requires d.Directory?
    ensures var t, e := PassThreshold(po, d, fraction), PassEffects(po, d, fraction);
      && t > 0.0
      && e.unlinked == FilesThat(d.dirname, d.nodes, n => IsDue(po, n, t))
      && Staying(e, w) == Weighed(FilesThat(d.dirname, d.nodes, n => !IsDue(po, n, t)), w)
  {
    hide IsDue, Weighed, Staying, Select, BucketBytes, SumReal;
    var t, e := PassThreshold(po, d, fraction), d.(nodes := EvaluatedNodes(po, d.nodes));
    ThresholdIsPositive(Cutoff(SumReal(fraction, SumItems(Pending(d))), BucketTable(d.dirname, e.nodes), 1));
    DueAreSelected(po, d.dirname, d.nodes, t);
    CollectingPartitions(d.dirname, e.nodes, t, d.logOpens, w);
    KeepsStaying(e, t, w);
  }

  lemma KeepsStaying(d: Directory, t: real, w: Weight)
    requires d.Directory?
    ensures var e, f := EffectsOf(d, t), EffectsOfNodes(d.dirname, d.nodes, t, d.logOpens);
      e.unlinked == f.unlinked && Staying(e, w) == Staying(f, w)
  {
    LastStepMovesNoFile(d, t);
  }

  // ---- A file on the disk ----

  function Seen(name: string, recs: seq<Info.Record>, mtime: int, atime: int, size: nat): Node {
    Node(name,
         LastNonzero(recs, name, (r: Info.Record) => r.loadDelay, 0),
         LastNonzero(recs, name, (r: Info.Record) => r.lastChecked, mtime),
         LastNonzero(recs, name, (r: Info.Record) => r.expires, 0),
         LastNonzero(recs, name, (r: Info.Record) => r.maxUnused, 0),
         LastNonzero(recs, name, (r: Info.Record) => r.lastModified, 0),
         atime, size, 0.0, NoDirectory)
  }

  predicate EndsIn(name: string, suffix: string) {
    |name| >= |suffix| && name[|name| - |suffix|..] == suffix
  }

  /** What is neither left out nor read as something else. */
  predicate IsRead(name: string) { name != "." && name != ".." && name != ".cache_info" && name != ".gc_info" }

  predicate IsCachedName(name: string) { IsRead(name) && !EndsIn(name, ".cache_lock") }

  /** A cached file: by its name, and because it is a regular file. */
  predicate IsCacheEntry(e: FsEntry) { e.Regular? && IsCachedName(e.name) }

  ghost predicate HasInfo(s: FsDir) { exists k :: 0 <= k < |s.entries| && s.entries[k].name == ".cache_info" }

  ghost function LogRecords(s: FsDir): seq<Info.Record> { if HasInfo(s) then Info.Records(s.info) else [] }

  /** What is known of a cached file: its time-stamps, and the last values of the log that are not zero. */
  ghost function FileOf(s: FsDir, e: FsEntry): Node
    requires e.Regular?
  {
    Seen(e.name, LogRecords(s), e.mtime, e.atime, e.size)
  }

  lemma NamesDecide(e: FsEntry)
    requires e.role == RoleOf(e.name)
    ensures IsCachedFile(e) <==> IsCacheEntry(e)
    ensures IsScanned(e) <==> IsRead(e.name)
    ensures e.role.InfoLog? <==> e.name == ".cache_info"
    ensures IsCounted(e) <==> e.name != "." && e.name != ".." && e.name != ".cache_info"
    ensures e.role.LockFile? <==> EndsIn(e.name, ".cache_lock")
  {
    assert !EndsIn(".cache_info", ".cache_lock") by { assert ".cache_info"[0..] == ".cache_info"; }
  }

  lemma {:induction false} LogIsAnEntry(es: seq<FsEntry>, i: nat)
    requires i <= |es|
    ensures LogBefore(es, i) <==> exists k :: 0 <= k < i && es[k].role.InfoLog?
  {
    if i == 0 {
    } else {
      LogIsAnEntry(es, i - 1);
    }
  }

  /** The node of a file, with its log merged in, is what is known of it. */
  lemma MergedIsKnown(s: FsDir, e: FsEntry)
    requires e.Regular? && forall k :: 0 <= k < |s.entries| ==> s.entries[k].role == RoleOf(s.entries[k].name)
    ensures FileOf(s, e) == MergedBy(NodeOf(e), if HasLog(s.entries) then Info.Records(s.info) else [])
  {
    var recs := if HasLog(s.entries) then Info.Records(s.info) else [];
    LogIsAnEntry(s.entries, |s.entries|);
    forall k | 0 <= k < |s.entries|
      ensures s.entries[k].role.InfoLog? <==> s.entries[k].name == ".cache_info"
    {
      NamesDecide(s.entries[k]);
    }
    MergedIsLastNonzero(NodeOf(e), recs);
    MergedByKeepsRest(NodeOf(e), recs);
  }

  lemma {:induction false} MergedByKeepsRest(n: Node, recs: seq<Info.Record>)
    ensures var m := MergedBy(n, recs);
      && m.filename == n.filename && m.bytes == n.bytes && m.lastAccess == n.lastAccess
      && m.value == n.value && m.directory == n.directory
    decreases |recs|
  {
    if recs == [] {
    } else {
      MergedByKeepsRest(if recs[0].name == n.filename then Merged(n, recs[0]) else n, recs[1..]);
    }
  }

  // ---- What becomes of a file ----

  /** The file f is in memory, in the directory named `at`. */
  ghost predicate HasFile(dir: string, nodes: seq<Node>, at: string, f: Node)
    decreases nodes
  {
    exists i :: 0 <= i < |nodes| && NodeHasFile(dir, nodes[i], at, f)
  }

  ghost predicate NodeHasFile(dir: string, n: Node, at: string, f: Node)
    decreases n
  {
    if n.directory.Directory? then HasFile(n.directory.dirname, n.directory.nodes, at, f)
    else n == f && at == dir
  }

  function ItemOf(at: string, f: Node): Item { Item(at, f.filename, f.bytes) }

  /** What is due is unlinked, and what is not stays. */
  predicate IsServed(po: Policy, e: Effects, at: string, f: Node, t: real) {
    if IsDue(po, f, t) then ItemOf(at, f) in e.unlinked else ItemOf(at, f) in e.recorded + e.unlogged
  }

  /** Collecting the valued nodes serves every file among them. */
  lemma {:induction false} CollectingServes(po: Policy, dir: string, nodes: seq<Node>, t: real, cif: bool,
                                            at: string, f: Node)
    requires t > 0.0 && HasFile(dir, nodes, at, f)
    ensures IsServed(po, EffectsOfNodes(dir, EvaluatedNodes(po, nodes), t, cif), at, f, t)
    decreases nodes
  {
    var i :| 0 <= i < |nodes| && NodeHasFile(dir, nodes[i], at, f);
    var n, es := nodes[0], EvaluatedNodes(po, nodes);
    assert es[0] == EvaluatedNode(po, n) && es[1..] == EvaluatedNodes(po, nodes[1..]);
    if i > 0 {
      assert nodes[1..][i - 1] == nodes[i] && HasFile(dir, nodes[1..], at, f);
      CollectingServes(po, dir, nodes[1..], t, cif, at, f);
    } else if n.directory.Directory? {
      var d := n.directory;
      CollectingServes(po, d.dirname, d.nodes, t, d.logOpens, at, f);
      LastStepMovesNoFile(d.(nodes := EvaluatedNodes(po, d.nodes)), t);
    } else {
      DueIsBelow(po, n, t);
    }
    hide IsDue, EvaluatedNode, EvaluatedNodes;
  }

  lemma PassServes(po: Policy, d: Directory, fraction: real, at: string, f: Node)
    requires d.Directory? && HasFile(d.dirname, d.nodes, at, f)
    ensures PassThreshold(po, d, fraction) > 0.0
    ensures IsServed(po, PassEffects(po, d, fraction), at, f, PassThreshold(po, d, fraction))
  {
    var t, e := PassThreshold(po, d, fraction), d.(nodes := EvaluatedNodes(po, d.nodes));
    hide IsDue, SumReal, BucketBytes, HasFile;
    ThresholdIsPositive(Cutoff(SumReal(fraction, SumItems(Pending(d))), BucketTable(d.dirname, e.nodes), 1));
    CollectingServes(po, d.dirname, d.nodes, t, d.logOpens, at, f);
    LastStepMovesNoFile(e, t);
  }

  // ---- Over a whole run ----

  /** The scan of d comes to s: through directories that can be read. */
  ghost predicate IsReached(s: FsDir, d: FsDir)
    decreases d
  {
    d.readable && (s == d || exists j :: IsReachedBy(s, d, j))
  }

  ghost predicate IsReachedBy(s: FsDir, d: FsDir, j: int)
    decreases d, 0
  {
    0 <= j < |d.entries| && d.entries[j].SubDir? && IsRead(d.entries[j].name) && IsReached(s, d.entries[j].dir)
  }

  /** The threshold of the pass over the directory a, in memory as it was read. */
  ghost function ThresholdAt(po: Policy, fraction: real, a: FsDir): real {
    PassThreshold(po, LogRead(a, ReadingOf(po, fraction, a, |a.entries|)), fraction)
  }

  /** The file is served by a pass over a directory on its way from d. */
  ghost predicate IsJudged(po: Policy, fraction: real, d: FsDir, e: Effects, s: FsDir, f: Node) {
    exists a :: IsReached(a, d) && IsReached(s, a) && ThresholdAt(po, fraction, a) > 0.0 &&
      IsServed(po, e, s.path, f, ThresholdAt(po, fraction, a))
  }

  lemma ServedLater(po: Policy, e: Effects, e': Effects, at: string, f: Node, t: real)
    requires IsServed(po, e, at, f, t)
    requires forall x :: x in e.unlinked ==> x in e'.unlinked
    requires forall x :: x in e.recorded + e.unlogged ==> x in e'.recorded + e'.unlogged
    ensures IsServed(po, e', at, f, t)
  {
  }

  lemma ThenServes(po: Policy, a: Effects, b: Effects, at: string, f: Node, t: real)
    requires IsServed(po, a, at, f, t) || IsServed(po, b, at, f, t)
    ensures IsServed(po, Then(a, b), at, f, t)
  {
    var e := Then(a, b);
    assert forall x :: x in a.unlinked || x in b.unlinked ==> x in e.unlinked;
    assert forall x :: x in a.recorded + a.unlogged || x in b.recorded + b.unlogged ==> x in e.recorded + e.unlogged;
    hide IsDue;
  }

  lemma ThenJudges(po: Policy, fraction: real, d: FsDir, a: Effects, b: Effects, s: FsDir, f: Node)
    requires IsJudged(po, fraction, d, a, s, f) || IsJudged(po, fraction, d, b, s, f)
    ensures IsJudged(po, fraction, d, Then(a, b), s, f)
  {
    hide IsServed, IsReached, Then, ThresholdAt;
    var c := if IsJudged(po, fraction, d, a, s, f) then a else b;
    var x :| IsReached(x, d) && IsReached(s, x) && ThresholdAt(po, fraction, x) > 0.0 &&
      IsServed(po, c, s.path, f, ThresholdAt(po, fraction, x));
    ThenServes(po, a, b, s.path, f, ThresholdAt(po, fraction, x));
  }

  lemma JudgedBelow(po: Policy, fraction: real, d: FsDir, j: nat, e: Effects, s: FsDir, f: Node)
    requires d.readable && j < |d.entries| && d.entries[j].SubDir? && IsRead(d.entries[j].name)
    requires IsJudged(po, fraction, d.entries[j].dir, e, s, f)
    ensures IsJudged(po, fraction, d, e, s, f)
  {
    hide IsServed, ThresholdAt, IsRead;
    var a :| IsReached(a, d.entries[j].dir) && IsReached(s, a) && ThresholdAt(po, fraction, a) > 0.0 &&
      IsServed(po, e, s.path, f, ThresholdAt(po, fraction, a));
    assert IsReachedBy(a, d, j);
  }

  /** The file has been judged, or is still in memory. */
  ghost predicate IsAccounted(po: Policy, fraction: real, d: FsDir, o: Outcome, s: FsDir, f: Node) {
    || IsJudged(po, fraction, d, o.effects, s, f)
    || (o.dir.Directory? && HasFile(o.dir.dirname, o.dir.nodes, s.path, f))
  }

  /** In the middle of d: files of the subdirectory j. */
  ghost predicate IsAccountedBelow(po: Policy, fraction: real, d: FsDir, r: Reading, s: FsDir, f: Node) {
    || IsJudged(po, fraction, d, r.effects, s, f)
    || exists n :: n in Flat(r.chains) && n.directory.Directory? && NodeHasFile(d.path, n, s.path, f)
  }

  /** What one more entry does to the table: nothing leaves it, and the entry comes into it. */
  lemma TableGrows(po: Policy, fraction: real, d: FsDir, i: nat)
    requires WellNamed(d) && i < |d.entries|
    ensures var before := Flat(ReadingOf(po, fraction, d, i).chains);
      var after, e := Flat(ReadingOf(po, fraction, d, i + 1).chains), d.entries[i];
      && (forall n :: n in before ==> n in after)
      && (IsCachedFile(e) ==> NodeOf(e) in after)
      && (IsScanned(e) && e.SubDir? ==>
            var o := DirRead(po, fraction, e.dir, false);
            o.dir.Directory? ==> DirNode(e.dir.path, o.dir) in after)
  {
    hide ReadingOf, DirRead, WithNode, Flat, WellNamed, NodesHold, WellHashed;
    var s, e := ReadingOf(po, fraction, d, i), d.entries[i];
    ReadingSound(po, fraction, d, i);
    if e.SubDir? {
      SubDirIsWellNamed(d, i);
      DirSound(po, fraction, e.dir, false);
    }
    OneMoreRead(po, fraction, d, i);
    if IsCachedFile(e) {
      NodeIsAdded(po, s.chains, d, i, NodeOf(e));
    } else if IsScanned(e) && e.SubDir? && DirRead(po, fraction, e.dir, false).dir.Directory? {
      NodeIsAdded(po, s.chains, d, i, DirNode(e.dir.path, DirRead(po, fraction, e.dir, false).dir));
    }
  }

  lemma NodeIsAdded(po: Policy, chains: seq<seq<Node>>, d: FsDir, i: nat, n: Node)
    requires i < |d.entries| && WellNamed(d) && WellHashed(chains) && NodesHold(po, Flat(chains), d, i)
    requires n.filename == KeyOf(d.entries[i]) && (IsCachedFile(d.entries[i]) ==> n == NodeOf(d.entries[i]))
    requires n.directory.Directory? ==> d.entries[i].SubDir? && Image(po, n.directory, d.entries[i].dir)
    ensures n in Flat(WithNode(chains, n)) && forall m :: m in Flat(chains) ==> m in Flat(WithNode(chains, n))
  {
    NodeComes(po, chains, d, i, n);
    InsertCounts(Flat(chains), Flat(WithNode(chains, n)), n);
  }

  /** What one more entry does comes behind what has been done. */
  lemma VerdictsStay(po: Policy, fraction: real, d: FsDir, i: nat, s: FsDir, f: Node)
    requires i < |d.entries| && IsJudged(po, fraction, d, ReadingOf(po, fraction, d, i).effects, s, f)
    ensures IsJudged(po, fraction, d, ReadingOf(po, fraction, d, i + 1).effects, s, f)
  {
    var r, e := ReadingOf(po, fraction, d, i), d.entries[i];
    hide IsJudged, DirRead, WithNode, Then;
    if IsOldLock(po, e) {
      ThenJudges(po, fraction, d, r.effects, LockRemoved(d.path, e), s, f);
    } else if IsScanned(e) && e.SubDir? {
      ThenJudges(po, fraction, d, r.effects, DirRead(po, fraction, e.dir, false).effects, s, f);
    }
  }

  lemma {:induction false} StaysAccounted(po: Policy, fraction: real, d: FsDir, i: nat, k: nat, s: FsDir, f: Node)
    requires WellNamed(d) && i <= k <= |d.entries|
    requires IsAccountedBelow(po, fraction, d, ReadingOf(po, fraction, d, i), s, f)
    ensures IsAccountedBelow(po, fraction, d, ReadingOf(po, fraction, d, k), s, f)
    decreases k - i
  {
    if i == k {
    } else {
      TableGrows(po, fraction, d, i);
      if IsJudged(po, fraction, d, ReadingOf(po, fraction, d, i).effects, s, f) {
        VerdictsStay(po, fraction, d, i, s, f);
      }
      hide ReadingOf, IsJudged, Flat, NodeHasFile;
      StaysAccounted(po, fraction, d, i + 1, k, s, f);
    }
  }

  lemma {:induction false} NodeStays(po: Policy, fraction: real, d: FsDir, i: nat, k: nat, n: Node)
    requires WellNamed(d) && i <= k <= |d.entries| && n in Flat(ReadingOf(po, fraction, d, i).chains)
    ensures n in Flat(ReadingOf(po, fraction, d, k).chains)
    decreases k - i
  {
    if i == k {
    } else {
      TableGrows(po, fraction, d, i);
      hide ReadingOf, Flat;
      NodeStays(po, fraction, d, i + 1, k, n);
    }
  }

  /** The subdirectory on the way to s has been read. */
  lemma SubDirAccounts(po: Policy, fraction: real, d: FsDir, j: nat, s: FsDir, f: Node)
    requires WellNamed(d) && d.readable && j < |d.entries| && IsReachedBy(s, d, j)
    requires IsAccounted(po, fraction, d.entries[j].dir, DirRead(po, fraction, d.entries[j].dir, false), s, f)
    ensures IsAccountedBelow(po, fraction, d, ReadingOf(po, fraction, d, j + 1), s, f)
  {
    var e, r := d.entries[j], ReadingOf(po, fraction, d, j);
    var o := DirRead(po, fraction, e.dir, false);
    NamesDecide(e);
    TableGrows(po, fraction, d, j);
    hide IsJudged, DirRead, WithNode, Then, Flat, HasFile, WellNamed, IsReached;
    assert ReadingOf(po, fraction, d, j + 1).effects == Then(r.effects, o.effects);
    if IsJudged(po, fraction, e.dir, o.effects, s, f) {
      JudgedBelow(po, fraction, d, j, o.effects, s, f);
      ThenJudges(po, fraction, d, r.effects, o.effects, s, f);
    } else {
      assert NodeHasFile(d.path, DirNode(e.dir.path, o.dir), s.path, f);
    }
  }

  /** The nodes of d with the log merged in: directories as they are, files as they are known. */
  lemma LogReadHas(po: Policy, fraction: real, d: FsDir, n: Node)
    requires n in Flat(ReadingOf(po, fraction, d, |d.entries|).chains)
    ensures var recs := if HasLog(d.entries) then Info.Records(d.info) else [];
      MergedBy(n, recs) in LogRead(d, ReadingOf(po, fraction, d, |d.entries|)).nodes
  {
    var nodes := Flat(ReadingOf(po, fraction, d, |d.entries|).chains);
    var i :| 0 <= i < |nodes| && nodes[i] == n;
    if HasLog(d.entries) {
      MergeAllIsPointwise(nodes, Info.Records(d.info));
      assert MergeAll(nodes, Info.Records(d.info))[i] == MergedBy(n, Info.Records(d.info));
    }
  }

  lemma FileInMemory(dir: string, nodes: seq<Node>, n: Node, at: string, f: Node)
    requires n in nodes && NodeHasFile(dir, n, at, f)
    ensures HasFile(dir, nodes, at, f)
  {
    var i :| 0 <= i < |nodes| && nodes[i] == n;
  }

  /** At the end of d its own files are in memory. */
  lemma OwnFileIsRead(po: Policy, fraction: real, d: FsDir, j: nat)
    requires WellNamed(d) && j < |d.entries| && IsCacheEntry(d.entries[j])
    ensures var r := LogRead(d, ReadingOf(po, fraction, d, |d.entries|));
      HasFile(r.dirname, r.nodes, d.path, FileOf(d, d.entries[j]))
  {
    var e := d.entries[j];
    NamesDecide(e);
    TableGrows(po, fraction, d, j);
    NodeStays(po, fraction, d, j + 1, |d.entries|, NodeOf(e));
    LogReadHas(po, fraction, d, NodeOf(e));
    MergedIsKnown(d, e);
    hide ReadingOf, FileOf, MergedBy, Flat;
    var r := LogRead(d, ReadingOf(po, fraction, d, |d.entries|));
    assert FileOf(d, e).directory.NoDirectory? by { KnownIsFile(d, e); }
    FileInMemory(r.dirname, r.nodes, FileOf(d, e), d.path, FileOf(d, e));
  }

  lemma KnownIsFile(d: FsDir, e: FsEntry)
    requires e.Regular?
    ensures var f := FileOf(d, e);
      f.directory.NoDirectory? && f.filename == e.name && f.bytes == e.size
  {
  }

  /** At the end of d the files of its subdirectories have been judged or are in memory. */
  lemma FileBelowIsRead(po: Policy, fraction: real, d: FsDir, s: FsDir, f: Node)
    requires IsAccountedBelow(po, fraction, d, ReadingOf(po, fraction, d, |d.entries|), s, f)
    ensures var x := ReadingOf(po, fraction, d, |d.entries|);
      var r := LogRead(d, x);
      IsJudged(po, fraction, d, x.effects, s, f) || HasFile(r.dirname, r.nodes, s.path, f)
  {
    var x := ReadingOf(po, fraction, d, |d.entries|);
    hide ReadingOf, IsJudged, Flat;
    if !IsJudged(po, fraction, d, x.effects, s, f) {
      var n :| n in Flat(x.chains) && n.directory.Directory? && NodeHasFile(d.path, n, s.path, f);
      var recs := if HasLog(d.entries) then Info.Records(d.info) else [];
      LogReadHas(po, fraction, d, n);
      MergedByKeepsRest(n, recs);
      var r := LogRead(d, x);
      FileInMemory(r.dirname, r.nodes, MergedBy(n, recs), s.path, f);
    }
  }

  /** A pass at the end of d judges what is in memory. */
  lemma EndAccounts(po: Policy, fraction: real, d: FsDir, doCollect: bool, s: FsDir, f: Node)
    requires d.readable && IsReached(s, d)
    requires var x := ReadingOf(po, fraction, d, |d.entries|);
      var r := LogRead(d, x);
      IsJudged(po, fraction, d, x.effects, s, f) || HasFile(r.dirname, r.nodes, s.path, f)
    ensures IsAccounted(po, fraction, d, DirRead(po, fraction, d, doCollect), s, f)
  {
    var x := ReadingOf(po, fraction, d, |d.entries|);
    var r := LogRead(d, x);
    hide ReadingOf, LogRead, HasFile, IsServed, PassEffects, Then, PassThreshold;
    if HasFile(r.dirname, r.nodes, s.path, f) {
      PassServes(po, r, fraction, s.path, f);
      assert IsReached(d, d);
      assert ThresholdAt(po, fraction, d) == PassThreshold(po, r, fraction);
      assert IsJudged(po, fraction, d, PassEffects(po, r, fraction), s, f);
    }
    hide IsJudged;
    if IsJudged(po, fraction, d, x.effects, s, f) || HasFile(r.dirname, r.nodes, s.path, f) {
      if IsJudged(po, fraction, d, x.effects, s, f) || IsJudged(po, fraction, d, PassEffects(po, r, fraction), s, f) {
        ThenJudges(po, fraction, d, x.effects, PassEffects(po, r, fraction), s, f);
      }
    }
  }

  /** Every cached file that the scan of d comes to has been judged when d is done, or is in memory. */
  lemma {:induction false} DirAccounts(po: Policy, fraction: real, d: FsDir, doCollect: bool, s: FsDir, j: nat)
    requires WellNamed(d) && IsReached(s, d) && j < |s.entries| && IsCacheEntry(s.entries[j])
    ensures IsAccounted(po, fraction, d, DirRead(po, fraction, d, doCollect), s, FileOf(s, s.entries[j]))
    decreases d
  {
    var f := FileOf(s, s.entries[j]);
    hide DirRead, FileOf, IsAccounted, LogRead, IsCacheEntry;
    if s == d {
      OwnFileIsRead(po, fraction, d, j);
    } else {
      var k :| IsReachedBy(s, d, k);
      DirAccounts(po, fraction, d.entries[k].dir, false, s, j);
      SubDirAccounts(po, fraction, d, k, s, f);
      StaysAccounted(po, fraction, d, k + 1, |d.entries|, s, f);
      FileBelowIsRead(po, fraction, d, s, f);
    }
    EndAccounts(po, fraction, d, doCollect, s, f);
  }

  /**
   Over a whole run over one cache, every cached file that is scanned is judged by a pass over a
   directory it is in: by its time-stamps and the log of its directory, it is unlinked if it has
   expired, is outdated or idle, or is worth less than the threshold of the pass, and stays if not.
   */
  lemma EveryFileIsJudged(po: Policy, fraction: real, d: FsDir, s: FsDir, j: nat)
    requires WellNamed(d) && IsReached(s, d) && j < |s.entries| && IsCacheEntry(s.entries[j])
    ensures IsJudged(po, fraction, d, DirRead(po, fraction, d, true).effects, s, FileOf(s, s.entries[j]))
  {
    DirAccounts(po, fraction, d, true, s, j);
    hide IsJudged, FileOf;
  }

  lemma EveryFileOfARunIsJudged(po: Policy, fraction: real, http: FsDir, ftp: FsDir, gopher: FsDir, s: FsDir, j: nat)
    requires WellNamed(http) && WellNamed(ftp) && WellNamed(gopher) && j < |s.entries| && IsCacheEntry(s.entries[j])
    ensures var e, f, drop := GcEffects(po, fraction, http, ftp, gopher), FileOf(s, s.entries[j]),
                              po.(keepExpired := false);
      && (IsReached(s, http) ==> IsJudged(po, fraction, http, e, s, f))
      && (IsReached(s, ftp) ==> IsJudged(drop, fraction, ftp, e, s, f))
      && (IsReached(s, gopher) ==> IsJudged(drop, fraction, gopher, e, s, f))
  {
    hide IsJudged, FileOf, IsReached, WellNamed, DirRead, Then;
    var f, drop := FileOf(s, s.entries[j]), DropExpired(po);
    var a, b := DirRead(po, fraction, http, true).effects, DirRead(drop, fraction, ftp, true).effects;
    var c := DirRead(drop, fraction, gopher, true).effects;
    if IsReached(s, http) {
      EveryFileIsJudged(po, fraction, http, s, j);
      ThenJudges(po, fraction, http, a, b, s, f);
      ThenJudges(po, fraction, http, Then(a, b), c, s, f);
    }
    if IsReached(s, ftp) {
      EveryFileIsJudged(drop, fraction, ftp, s, j);
      ThenJudges(drop, fraction, ftp, a, b, s, f);
      ThenJudges(drop, fraction, ftp, Then(a, b), c, s, f);
    }
    if IsReached(s, gopher) {
      EveryFileIsJudged(drop, fraction, gopher, s, j);
      ThenJudges(drop, fraction, gopher, Then(a, b), c, s, f);
    }
  }

  /** What the verdict comes to for an expired file: it goes, except from the HTTP cache if expired files are kept. */
  lemma ExpiredFilesGo(po: Policy, fraction: real, http: FsDir, ftp: FsDir, gopher: FsDir, s: FsDir, j: nat)
    requires WellNamed(http) && WellNamed(ftp) && WellNamed(gopher) && j < |s.entries| && IsCacheEntry(s.entries[j])
    requires FileOf(s, s.entries[j]).expires != 0 && FileOf(s, s.entries[j]).expires <= po.curTime
    requires IsReached(s, ftp) || IsReached(s, gopher) || (IsReached(s, http) && !po.keepExpired)
    ensures Item(s.path, s.entries[j].name, s.entries[j].size) in GcEffects(po, fraction, http, ftp, gopher).unlinked
  {
    EveryFileOfARunIsJudged(po, fraction, http, ftp, gopher, s, j);
    KnownIsFile(s, s.entries[j]);
    hide FileOf, IsReached, WellNamed, GcEffects, ThresholdAt;
  }

  // ---- Locks ----

  /** A lock file older than the timeout. */
  predicate IsOldLockEntry(po: Policy, e: FsEntry) {
    e.Regular? && EndsIn(e.name, ".cache_lock") && e.mtime + po.lockTimeout < po.curTime
  }

  ghost predicate IsOldLockAt(po: Policy, d: FsDir, path: string, s: FsDir, j: int) {
    0 <= j < |s.entries| && IsReached(s, d) && IsOldLockEntry(po, s.entries[j]) &&
    path == s.path + "/" + s.entries[j].name
  }

  ghost predicate HasOldLock(po: Policy, d: FsDir, path: string) {
    exists s: FsDir, j: int :: IsOldLockAt(po, d, path, s, j)
  }

  lemma OldLockNames(po: Policy, e: FsEntry)
    requires e.role == RoleOf(e.name)
    ensures IsOldLock(po, e) <==> IsOldLockEntry(po, e)
  {
    NamesDecide(e);
  }

  /** The old locks of d, and of the subdirectory of one entry. */
  lemma {:induction false} LocksAreFound(po: Policy, d: FsDir, path: string)
    requires WellNamed(d) && d.readable
    ensures path in OldLocks(po, d) <==> HasOldLock(po, d, path)
    decreases d, 1
  {
    assert d.entries[..|d.entries|] == d.entries;
    LocksSoFar(po, d, |d.entries|, path);
    hide OldLocksIn;
    if HasOldLock(po, d, path) {
      var s: FsDir, j: int :| IsOldLockAt(po, d, path, s, j);
      if s == d {
        assert IsOldLockEntry(po, d.entries[j]);
      } else {
        assert IsReached(s, d);
        var k :| IsReachedBy(s, d, k);
        assert IsOldLockAt(po, d.entries[k].dir, path, s, j);
      }
    }
  }

  /** Among the first i entries there is the lock, or a subdirectory with it. */
  ghost predicate LockUpTo(po: Policy, d: FsDir, i: nat, path: string)
    requires i <= |d.entries|
  {
    || (exists j :: 0 <= j < i && IsOldLockEntry(po, d.entries[j]) && path == d.path + "/" + d.entries[j].name)
    || (exists j :: 0 <= j < i && d.entries[j].SubDir? && IsRead(d.entries[j].name) &&
          d.entries[j].dir.readable && HasOldLock(po, d.entries[j].dir, path))
  }

  lemma {:induction false} LocksSoFar(po: Policy, d: FsDir, i: nat, path: string)
    requires WellNamed(d) && d.readable && i <= |d.entries|
    ensures path in OldLocksIn(po, d.path, d.entries[..i]) <==> LockUpTo(po, d, i, path)
    ensures LockUpTo(po, d, i, path) ==> HasOldLock(po, d, path)
    decreases d, 0, i
  {
    hide HasOldLock, OldLocks;
    if i == 0 {
    } else {
      var e := d.entries[i - 1];
      assert d.entries[..i][..i - 1] == d.entries[..i - 1] && d.entries[..i][i - 1] == e;
      LocksSoFar(po, d, i - 1, path);
      OldLockNames(po, e);
      NamesDecide(e);
      if e.SubDir? && IsRead(e.name) {
        if e.dir.readable {
          LocksAreFound(po, e.dir, path);
          LockBelow(po, d, i - 1, path);
        } else {
          assert OldLocks(po, e.dir) == [] by { NoLocksUnread(po, e.dir); }
        }
      } else if IsOldLockEntry(po, e) {
        LockHere(po, d, i - 1);
      }
    }
  }

  lemma NoLocksUnread(po: Policy, d: FsDir)
    requires !d.readable
    ensures OldLocks(po, d) == []
  {
  }

  lemma LockHere(po: Policy, d: FsDir, j: nat)
    requires d.readable && j < |d.entries| && IsOldLockEntry(po, d.entries[j])
    ensures HasOldLock(po, d, d.path + "/" + d.entries[j].name)
  {
    assert IsReached(d, d);
    assert IsOldLockAt(po, d, d.path + "/" + d.entries[j].name, d, j);
  }

  lemma LockBelow(po: Policy, d: FsDir, k: nat, path: string)
    requires d.readable && k < |d.entries| && d.entries[k].SubDir? && IsRead(d.entries[k].name)
    ensures HasOldLock(po, d.entries[k].dir, path) ==> HasOldLock(po, d, path)
  {
    if HasOldLock(po, d.entries[k].dir, path) {
      var s: FsDir, j: int :| IsOldLockAt(po, d.entries[k].dir, path, s, j);
      assert IsReachedBy(s, d, k);
      assert IsOldLockAt(po, d, path, s, j);
    }
  }

  /** Reading a directory removes exactly the regular files below it that are locks by name and have timed out. */
  lemma LocksRemovedAreOld(po: Policy, fraction: real, d: FsDir, doCollect: bool, path: string)
    requires WellNamed(d)
    ensures path in DirRead(po, fraction, d, doCollect).effects.locks <==> HasOldLock(po, d, path)
  {
    OldLocksAreRemoved(po, fraction, d, doCollect);
    if d.readable {
      LocksAreFound(po, d, path);
    } else {
      NoLocksUnread(po, d);
    }
  }

  // ---- Directories that are removed ----

  /** Nothing is left but the log: every other entry is an unlinked cached file or an old lock. */
  ghost predicate NothingIsLeft(po: Policy, s: FsDir, unlinked: seq<Item>) {
    forall j :: 0 <= j < |s.entries| ==>
      var e := s.entries[j];
      || e.name in [".", "..", ".cache_info"]
      || (IsCacheEntry(e) && Item(s.path, e.name, e.size) in unlinked)
      || IsOldLockEntry(po, e)
  }

  lemma {:induction false} NoOthers(po: Policy, es: seq<FsEntry>)
    requires Others(po, es) == 0
    ensures forall j :: 0 <= j < |es| ==> Other(po, es[j]) == 0
  {
    if es == [] {
    } else {
      NoOthers(po, es[..|es| - 1]);
    }
  }

  lemma GoneIsNothingLeft(po: Policy, s: FsDir, unlinked: seq<Item>)
    requires WellNamed(s) && AllGone(po, s, unlinked)
    ensures NothingIsLeft(po, s, unlinked)
  {
    NoOthers(po, s.entries);
    forall j | 0 <= j < |s.entries|
      ensures var e := s.entries[j];
        || e.name in [".", "..", ".cache_info"]
        || (IsCacheEntry(e) && Item(s.path, e.name, e.size) in unlinked)
        || IsOldLockEntry(po, e)
    {
      NamesDecide(s.entries[j]);
      OldLockNames(po, s.entries[j]);
      assert Other(po, s.entries[j]) == 0;
    }
  }

  ghost predicate IsEmptyBelow(po: Policy, d: FsDir, path: string, unlinked: seq<Item>) {
    exists s :: IsBelow(s, d) && s.path == path && NothingIsLeft(po, s, unlinked)
  }

  /** Whatever reading and collecting a cache removes had nothing left in it. */
  lemma RemovedDirectoriesAreEmpty(po: Policy, fraction: real, d: FsDir, path: string)
    requires WellNamed(d) && path in DirRead(po, fraction, d, true).effects.rmdirs
    ensures IsEmptyBelow(po, d, path, DirRead(po, fraction, d, true).effects.unlinked)
  {
    hide DirRead;
    DirRemovesOnlyEmpty(po, fraction, d, true);
    var e := DirRead(po, fraction, d, true).effects;
    assert Emptied(po, d, path, e.unlinked);
    var s :| IsBelow(s, d) && s.path == path && AllGone(po, s, e.unlinked);
    BelowIsWellNamed(s, d);
    GoneIsNothingLeft(po, s, e.unlinked);
  }

  // ---- How much is kept in memory ----

  /** The files in memory below a directory. */
  function CountFiles(nodes: seq<Node>): nat
    decreases nodes
  {
    if nodes == [] then 0
    else
      (if nodes[0].directory.Directory? then CountFiles(nodes[0].directory.nodes) else 1) + CountFiles(nodes[1..])
  }

  lemma {:induction false} CountAppend(a: seq<Node>, b: seq<Node>)
    ensures CountFiles(a + b) == CountFiles(a) + CountFiles(b)
  {
    if a == [] {
      assert a + b == b;
    } else {
      assert (a + b)[1..] == a[1..] + b;
      CountAppend(a[1..], b);
    }
  }

  lemma CountInserted(before: seq<Node>, after: seq<Node>, n: Node)
    requires Inserted(before, after, n)
    ensures CountFiles(after) == CountFiles(before) +
      if n.directory.Directory? then CountFiles(n.directory.nodes) else 1
  {
    var p: seq<Node>, q: seq<Node> :| before == p + q && after == p + ([n] + q);
    CountAppend(p, q);
    CountAppend(p, [n] + q);
    CountAppend([n], q);
    assert [n][1..] == [];
  }

  lemma {:induction false} MergingKeepsCount(nodes: seq<Node>, r: Info.Record)
    ensures CountFiles(MergeRecord(nodes, r)) == CountFiles(nodes)
  {
    if nodes == [] {
    } else {
      assert MergeRecord(nodes, r)[1..] == MergeRecord(nodes[1..], r);
      MergingKeepsCount(nodes[1..], r);
    }
  }

  lemma {:induction false} MergingAllKeepsCount(nodes: seq<Node>, recs: seq<Info.Record>)
    ensures CountFiles(MergeAll(nodes, recs)) == CountFiles(nodes)
    decreases |recs|
  {
    if recs == [] {
    } else {
      MergingKeepsCount(nodes, recs[0]);
      MergingAllKeepsCount(MergeRecord(nodes, recs[0]), recs[1..]);
    }
  }

  lemma NothingIsCounted(po: Policy, fraction: real, d: FsDir)
    ensures var r := ReadingOf(po, fraction, d, 0); r.nodeCnt == CountFiles(Flat(r.chains))
  {
    EmptyTable(ReadingOf(po, fraction, d, 0).chains);
  }

  lemma OneMoreEntry(po: Policy, fraction: real, d: FsDir, i: nat)
    requires i < |d.entries|
    ensures var e := d.entries[i];
      ReadingOf(po, fraction, d, i + 1) == EntryAfter(po, d.path, ReadingOf(po, fraction, d, i), e,
        if IsScanned(e) && e.SubDir? then DirRead(po, fraction, e.dir, false) else Outcome(NoEffects, NoDirectory))
  {
    hide EntryAfter, DirRead;
  }

  /** The count of nodes is that of the files in memory. */
  lemma {:induction false} TableIsCounted(po: Policy, fraction: real, d: FsDir, i: nat)
    requires WellNamed(d) && i <= |d.entries|
    ensures var r := ReadingOf(po, fraction, d, i); r.nodeCnt == CountFiles(Flat(r.chains))
    decreases d, 0, i
  {
    hide ReadingOf, EntryAfter, DirRead, WithNode, Flat, WellNamed, CountFiles, LogRead, Then, PassEffects,
      OutcomeIsSound;
    if i == 0 {
      NothingIsCounted(po, fraction, d);
    } else {
      var r, e := ReadingOf(po, fraction, d, i - 1), d.entries[i - 1];
      var o := if IsScanned(e) && e.SubDir? then DirRead(po, fraction, e.dir, false)
               else Outcome(NoEffects, NoDirectory);
      TableIsCounted(po, fraction, d, i - 1);
      SubDirIsWellNamed(d, i - 1);
      OneMoreEntry(po, fraction, d, i - 1);
      if IsScanned(e) && e.SubDir? {
        DirSound(po, fraction, e.dir, false);
        MemoryIsCounted(po, fraction, e.dir, false);
      }
      EntryIsCounted(po, fraction, d, i - 1, o);
    }
  }

  lemma EntryIsCounted(po: Policy, fraction: real, d: FsDir, i: nat, o: Outcome)
    requires WellNamed(d) && i < |d.entries|
    requires IsScanned(d.entries[i]) && d.entries[i].SubDir? ==>
      OutcomeIsSound(po, d.entries[i].dir, o) && (o.dir.Directory? ==> o.dir.totalNodeCnt == CountFiles(o.dir.nodes))
    requires ReadingOf(po, fraction, d, i).nodeCnt == CountFiles(Flat(ReadingOf(po, fraction, d, i).chains))
    ensures var r := EntryAfter(po, d.path, ReadingOf(po, fraction, d, i), d.entries[i], o);
      r.nodeCnt == CountFiles(Flat(r.chains))
  {
    hide ReadingOf, WithNode, Flat, WellNamed, CountFiles, Then, OutcomeIsSound;
    var e := d.entries[i];
    if IsCachedFile(e) {
      FileIsCounted(po, fraction, d, i);
    } else if IsScanned(e) && e.SubDir? {
      SubDirIsCounted(po, fraction, d, i, o);
    }
  }

  lemma FileIsCounted(po: Policy, fraction: real, d: FsDir, i: nat)
    requires WellNamed(d) && i < |d.entries| && IsCachedFile(d.entries[i])
    ensures var r := ReadingOf(po, fraction, d, i);
      CountFiles(Flat(WithNode(r.chains, NodeOf(d.entries[i])))) == CountFiles(Flat(r.chains)) + 1
  {
    ReadingSound(po, fraction, d, i);
    hide WellNamed, Flat, WithNode, CountFiles;
    CountNode(po, ReadingOf(po, fraction, d, i).chains, d, i, NodeOf(d.entries[i]));
  }

  lemma SubDirIsCounted(po: Policy, fraction: real, d: FsDir, i: nat, o: Outcome)
    requires WellNamed(d) && i < |d.entries| && IsScanned(d.entries[i]) && d.entries[i].SubDir?
    requires OutcomeIsSound(po, d.entries[i].dir, o)
    requires o.dir.Directory? ==> o.dir.totalNodeCnt == CountFiles(o.dir.nodes)
    ensures var r := ReadingOf(po, fraction, d, i);
      var t := SubDirRead(r, d.entries[i].dir.path, o);
      t.nodeCnt - r.nodeCnt == CountFiles(Flat(t.chains)) - CountFiles(Flat(r.chains))
  {
    ReadingSound(po, fraction, d, i);
    hide WellNamed, Flat, WithNode, CountFiles;
    if o.dir.Directory? {
      CountNode(po, ReadingOf(po, fraction, d, i).chains, d, i, DirNode(d.entries[i].dir.path, o.dir));
    }
  }

  lemma CountNode(po: Policy, chains: seq<seq<Node>>, d: FsDir, i: nat, n: Node)
    requires i < |d.entries| && WellNamed(d) && WellHashed(chains) && NodesHold(po, Flat(chains), d, i)
    requires n.filename == KeyOf(d.entries[i]) && (IsCachedFile(d.entries[i]) ==> n == NodeOf(d.entries[i]))
    requires n.directory.Directory? ==> d.entries[i].SubDir? && Image(po, n.directory, d.entries[i].dir)
    ensures CountFiles(Flat(WithNode(chains, n))) == CountFiles(Flat(chains)) +
      if n.directory.Directory? then CountFiles(n.directory.nodes) else 1
  {
    NodeComes(po, chains, d, i, n);
    CountInserted(Flat(chains), Flat(WithNode(chains, n)), n);
  }

  /**
   What stays in memory of a directory is counted, and is less than the limit. One that is not
   to be collected at once is collected exactly if as many files are in memory as the limit.
   */
  lemma {:induction false} MemoryIsCounted(po: Policy, fraction: real, d: FsDir, doCollect: bool)
    requires WellNamed(d)
    ensures var r, o := LogRead(d, ReadingOf(po, fraction, d, |d.entries|)), DirRead(po, fraction, d, doCollect);
      && (o.dir.Directory? <==> d.readable && !doCollect && CountFiles(r.nodes) < po.memLimit)
      && (o.dir.Directory? ==> o.dir == r && r.totalNodeCnt == CountFiles(r.nodes))
      && (d.readable && o.dir.NoDirectory? ==>
            o.effects == Then(ReadingOf(po, fraction, d, |d.entries|).effects, PassEffects(po, r, fraction)))
    decreases d, 1
  {
    TableIsCounted(po, fraction, d, |d.entries|);
    MergingAllKeepsCount(Flat(ReadingOf(po, fraction, d, |d.entries|).chains), Info.Records(d.info));
    hide ReadingOf, MergeAll, PassEffects, Then, CountFiles, Flat;
  }
}
