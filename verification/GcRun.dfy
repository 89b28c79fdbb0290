/**
 A whole run of the garbage collector over a directory tree: nothing is lost, nothing is
 counted twice, and the new logs say what the old ones said.
 */
module GcRun {
  import opened Text
  import opened GcBuckets
  import opened GarbageCollector
  import Info = CacheInfo

  // ---- The file system as the scan finds it ----

  /** What the scan takes an entry for, by its name alone. */
  datatype Role = NotCounted | InfoLog | GcReport | LockFile | Plain

  function RoleOf(name: string): Role {
    if name == "." || name == ".." then NotCounted
    else if name == ".cache_info" then InfoLog
    else if name == ".gc_info" then GcReport
    else if EndsWith(name, ".cache_lock") then LockFile
    else Plain
  }

  predicate EndsWith(s: string, suffix: string) {
    |s| >= |suffix| && s[|s| - |suffix|..] == suffix
  }

  /** What stat says. */
  datatype FsEntry =
    | Regular(name: string, role: Role, size: nat, mtime: int, atime: int)
    | SubDir(name: string, role: Role, dir: FsDir)
    | Special(name: string, role: Role)          // no file or directory, or stat failed

  /** `logOpens` says whether the info log can be opened for writing. */
  datatype FsDir = FsDir(path: string, readable: bool, entries: seq<FsEntry>, info: string, logOpens: bool)

  predicate IsScanned(e: FsEntry) { e.role.LockFile? || e.role.Plain? }

  predicate IsCachedFile(e: FsEntry) { e.role.Plain? && e.Regular? }

  predicate IsOldLock(po: Policy, e: FsEntry) {
    e.role.LockFile? && e.Regular? && po.curTime - e.mtime > po.lockTimeout
  }

  predicate IsCounted(e: FsEntry) { !e.role.NotCounted? && !e.role.InfoLog? }

  /** All cached files below a directory. */
  function ScannedOf(d: FsDir): seq<Item>
    decreases d, 1
  {
    if d.readable then ScannedEntries(d.path, d.entries) else []
  }

  function ScannedEntries(path: string, es: seq<FsEntry>): seq<Item>
    decreases es, 0
  {
    if es == [] then [] else ScannedEntry(path, es[0]) + ScannedEntries(path, es[1..])
  }

  function ScannedEntry(path: string, e: FsEntry): seq<Item>
    decreases e, 2
  {
    if IsScanned(e) && e.SubDir? then ScannedOf(e.dir)
    else if IsCachedFile(e) then [Item(path, e.name, e.size)]
    else []
  }

  /** Names in a directory are distinct and have no slash; paths are made from them. */
  ghost predicate WellNamed(d: FsDir) {
    && (forall i, j :: 0 <= i < j < |d.entries| ==> d.entries[i].name != d.entries[j].name)
    && (forall i :: 0 <= i < |d.entries| ==>
          '/' !in d.entries[i].name && d.entries[i].role == RoleOf(d.entries[i].name))
    && (forall i | 0 <= i < |d.entries| && d.entries[i].SubDir? ::
          d.entries[i].dir.path == d.path + "/" + d.entries[i].name && WellNamed(d.entries[i].dir))
  }

  /** The name a directory entry has in memory: subdirectories go by their path. */
  function KeyOf(e: FsEntry): string { if e.SubDir? then e.dir.path else e.name }

  lemma KeysAreDistinct(d: FsDir, i: nat, j: nat)
    requires WellNamed(d) && i < j < |d.entries|
    ensures KeyOf(d.entries[i]) != KeyOf(d.entries[j])
  {
    var a, b := d.entries[i], d.entries[j];
    if a.SubDir? && b.SubDir? {
      assert a.dir.path[|d.path| + 1..] == a.name;
      assert b.dir.path[|d.path| + 1..] == b.name;
    } else if a.SubDir? {
      assert a.dir.path[|d.path|] == '/';
      assert '/' in a.dir.path;
    } else if b.SubDir? {
      assert b.dir.path[|d.path|] == '/';
      assert '/' in b.dir.path;
    }
  }

  function NodeOf(e: FsEntry): Node
    requires e.Regular?
  {
    FileNode(e.name, e.size, e.mtime, e.atime)
  }

  /** Counted entries that are no cached files and stay. */
  function Others(po: Policy, es: seq<FsEntry>): nat {
    if es == [] then 0 else Others(po, es[..|es| - 1]) + Other(po, es[|es| - 1])
  }

  function Other(po: Policy, e: FsEntry): nat {
    if !IsCounted(e) || IsCachedFile(e) || IsOldLock(po, e) then 0 else 1
  }

  // ---- Counting nodes ----

  function OwnFiles(nodes: seq<Node>): nat {
    if nodes == [] then 0 else (if nodes[0].directory.NoDirectory? then 1 else 0) + OwnFiles(nodes[1..])
  }

  lemma {:induction false} OwnFilesAppend(a: seq<Node>, b: seq<Node>)
    ensures OwnFiles(a + b) == OwnFiles(a) + OwnFiles(b)
  {
    if a == [] {
      assert a + b == b;
    } else {
      assert (a + b)[1..] == a[1..] + b;
      OwnFilesAppend(a[1..], b);
    }
  }

  /** What a new node adds to the files of the table. */
  lemma InsertAdds(dir: string, before: seq<Node>, after: seq<Node>, n: Node, w: Weight)
    requires Inserted(before, after, n)
    ensures Weighed(Select(dir, after, Any), w) ==
      Weighed(Select(dir, before, Any), w) + Weighed(SelectOne(dir, n, Any), w)
  {
    var p: seq<Node>, q: seq<Node> :| before == p + q && after == p + ([n] + q);
    SelectAppend(dir, p, q, Any);
    SelectAppend(dir, p, [n] + q, Any);
    SelectAppend(dir, [n], q, Any);
    SelectOfOne(dir, n, Any);
    var a, b, c := Select(dir, p, Any), Select(dir, q, Any), SelectOne(dir, n, Any);
    WeighedAppend(a, b, w);
    WeighedAppend(c, b, w);
    WeighedAppend(a, c + b, w);
  }

  lemma InsertCounts(before: seq<Node>, after: seq<Node>, n: Node)
    requires Inserted(before, after, n)
    ensures OwnFiles(after) == OwnFiles(before) + (if n.directory.NoDirectory? then 1 else 0)
    ensures forall m :: m in after <==> m == n || m in before
  {
    var p: seq<Node>, q: seq<Node> :| before == p + q && after == p + ([n] + q);
    OwnFilesAppend(p, q);
    OwnFilesAppend(p, [n] + q);
    OwnFilesAppend([n], q);
    assert [n][1..] == [];
  }

  /** Merging the info log moves no file. */
  lemma {:induction false} MergeMovesNothing(dir: string, nodes: seq<Node>, r: Info.Record)
    ensures Select(dir, MergeRecord(nodes, r), Any) == Select(dir, nodes, Any)
    ensures OwnFiles(MergeRecord(nodes, r)) == OwnFiles(nodes)
  {
    if nodes == [] {
    } else {
      assert MergeRecord(nodes, r)[1..] == MergeRecord(nodes[1..], r);
      MergeMovesNothing(dir, nodes[1..], r);
    }
  }

  lemma {:induction false} MergeAllMovesNothing(dir: string, nodes: seq<Node>, recs: seq<Info.Record>)
    ensures Select(dir, MergeAll(nodes, recs), Any) == Select(dir, nodes, Any)
    ensures OwnFiles(MergeAll(nodes, recs)) == OwnFiles(nodes)
    decreases |recs|
  {
    if recs == [] {
    } else {
      MergeMovesNothing(dir, nodes, recs[0]);
      MergeAllMovesNothing(dir, MergeRecord(nodes, recs[0]), recs[1..]);
    }
  }

  lemma {:induction false} EvaluatingKeepsOwnFiles(po: Policy, nodes: seq<Node>)
    ensures OwnFiles(EvaluatedNodes(po, nodes)) == OwnFiles(nodes)
  {
    if nodes == [] {
    } else {
      assert EvaluatedNodes(po, nodes)[1..] == EvaluatedNodes(po, nodes[1..]);
      EvaluatingKeepsOwnFiles(po, nodes[1..]);
    }
  }

  lemma {:induction false} OwnFilesAreRemovedOrLogged(nodes: seq<Node>, threshold: real)
    ensures OwnFiles(nodes) == Removed(nodes, threshold) + |NewLog(nodes, threshold)|
  {
    if nodes == [] {
    } else {
      OwnFilesAreRemovedOrLogged(nodes[1..], threshold);
    }
  }

  /** A directory is removed if and only if no counted entry remains in it. */
  lemma RemovedIffNothingRemains(d: Directory, others: nat, threshold: real)
    requires d.Directory? && d.fileCnt == others + OwnFiles(d.nodes)
    ensures IsEmptied(d, threshold) <==> others == 0 && NewLog(d.nodes, threshold) == []
  {
    OwnFilesAreRemovedOrLogged(d.nodes, threshold);
  }

  // ---- Compaction of the info log ----

  /** One file after its records have been merged in. */
  function MergedBy(n: Node, recs: seq<Info.Record>): Node
    decreases |recs|
  {
    if recs == [] then n
    else MergedBy(if recs[0].name == n.filename then Merged(n, recs[0]) else n, recs[1..])
  }

  lemma {:induction false} MergeAllIsPointwise(nodes: seq<Node>, recs: seq<Info.Record>)
    ensures |MergeAll(nodes, recs)| == |nodes|
    ensures forall i :: 0 <= i < |nodes| ==> MergeAll(nodes, recs)[i] == MergedBy(nodes[i], recs)
    decreases |recs|
  {
    if recs == [] {
    } else {
      MergeAllIsPointwise(MergeRecord(nodes, recs[0]), recs[1..]);
    }
  }

  lemma {:induction false} MergedByKeepsName(n: Node, recs: seq<Info.Record>)
    ensures var m := MergedBy(n, recs); m.filename == n.filename && m.directory == n.directory && m.bytes == n.bytes
    decreases |recs|
  {
    if recs == [] {
    } else {
      MergedByKeepsName(if recs[0].name == n.filename then Merged(n, recs[0]) else n, recs[1..]);
    }
  }

  /** The last nonzero value of a field in the records for a name. */
  function LastNonzero(recs: seq<Info.Record>, name: string, field: Info.Record -> int, start: int): int {
    if recs == [] then start
    else
      var r := recs[|recs| - 1];
      if r.name == name && field(r) != 0 then field(r)
      else LastNonzero(recs[..|recs| - 1], name, field, start)
  }

  predicate AllNonzero(r: Info.Record) {
    r.loadDelay != 0 && r.lastChecked != 0 && r.expires != 0 && r.maxUnused != 0 && r.lastModified != 0
  }

  lemma {:induction false} MergedByAppend(n: Node, recs: seq<Info.Record>, r: Info.Record)
    ensures MergedBy(n, recs + [r]) ==
      if r.name == n.filename then Merged(MergedBy(n, recs), r) else MergedBy(n, recs)
    decreases |recs|
  {
    if recs == [] {
      assert (recs + [r])[1..] == [];
    } else {
      assert (recs + [r])[1..] == recs[1..] + [r];
      MergedByAppend(if recs[0].name == n.filename then Merged(n, recs[0]) else n, recs[1..], r);
    }
  }

  /** Merging gives each field the last value that is not zero. */
  lemma {:induction false} MergedIsLastNonzero(n: Node, recs: seq<Info.Record>)
    ensures var m := MergedBy(n, recs);
      && m.loadDelay == LastNonzero(recs, n.filename, (r: Info.Record) => r.loadDelay, n.loadDelay)
      && m.lastChecked == LastNonzero(recs, n.filename, (r: Info.Record) => r.lastChecked, n.lastChecked)
      && m.expires == LastNonzero(recs, n.filename, (r: Info.Record) => r.expires, n.expires)
      && m.maxUnused == LastNonzero(recs, n.filename, (r: Info.Record) => r.maxUnused, n.maxUnused)
      && m.lastModified == LastNonzero(recs, n.filename, (r: Info.Record) => r.lastModified, n.lastModified)
    decreases |recs|
  {
    if recs == [] {
    } else {
      var init, r := recs[..|recs| - 1], recs[|recs| - 1];
      assert recs == init + [r];
      MergedIsLastNonzero(n, init);
      MergedByAppend(n, init, r);
      MergedByKeepsName(n, init);
    }
  }

  /** If the last record of a file is complete, the merged record is that one. */
  lemma {:induction false} CompleteRecordSurvives(n: Node, recs: seq<Info.Record>)
    requires Info.Lookup(recs, n.filename).Some? && AllNonzero(Info.Lookup(recs, n.filename).value)
    ensures RecordOf(MergedBy(n, recs)) == Info.Lookup(recs, n.filename).value
    decreases |recs|
  {
    var init, r := recs[..|recs| - 1], recs[|recs| - 1];
    assert recs == init + [r];
    MergedByAppend(n, init, r);
    MergedByKeepsName(n, init);
    if r.name == n.filename {
    } else {
      CompleteRecordSurvives(n, init);
    }
  }

  ghost predicate OneRecordEach(recs: seq<Info.Record>) {
    forall i, j :: 0 <= i < j < |recs| ==> recs[i].name != recs[j].name
  }

  lemma {:induction false} NewLogNames(nodes: seq<Node>, threshold: real)
    ensures forall r :: r in NewLog(nodes, threshold) <==>
      exists n :: n in nodes && n.directory.NoDirectory? && n.value >= threshold && r == RecordOf(n)
  {
    if nodes == [] {
    } else {
      NewLogNames(nodes[1..], threshold);
      forall r ensures r in NewLog(nodes, threshold) <==>
        exists n :: n in nodes && n.directory.NoDirectory? && n.value >= threshold && r == RecordOf(n)
      {
        if r in NewLog(nodes[1..], threshold) {
          var n :| n in nodes[1..] && n.directory.NoDirectory? && n.value >= threshold && r == RecordOf(n);
          assert n in nodes;
        }
        if n :| n in nodes && n.directory.NoDirectory? && n.value >= threshold && r == RecordOf(n) {
          assert n == nodes[0] || n in nodes[1..];
        }
      }
    }
  }

  lemma {:induction false} NewLogHasOneRecordEach(nodes: seq<Node>, threshold: real)
    requires DistinctNames(nodes)
    ensures OneRecordEach(NewLog(nodes, threshold))
  {
    if nodes == [] {
    } else {
      NewLogHasOneRecordEach(nodes[1..], threshold);
      NewLogNames(nodes[1..], threshold);
      forall r | r in NewLog(nodes[1..], threshold) ensures r.name != nodes[0].filename {
        var n :| n in nodes[1..] && n.directory.NoDirectory? && n.value >= threshold && r == RecordOf(n);
        var i :| 0 <= i < |nodes[1..]| && nodes[1..][i] == n;
        assert nodes[i + 1] == n;
      }
    }
  }

  lemma {:induction false} LookupOnly(recs: seq<Info.Record>, r: Info.Record)
    requires OneRecordEach(recs) && r in recs
    ensures Info.Lookup(recs, r.name) == Some(r)
  {
    var last := recs[|recs| - 1];
    if last == r {
    } else {
      var i :| 0 <= i < |recs| && recs[i] == r;
      assert recs[..|recs| - 1][i] == r;
      LookupOnly(recs[..|recs| - 1], r);
    }
  }

  lemma {:induction false} LookupNone(recs: seq<Info.Record>, name: string)
    requires forall r :: r in recs ==> r.name != name
    ensures Info.Lookup(recs, name).None?
  {
    if recs == [] {
    } else {
      LookupNone(recs[..|recs| - 1], name);
    }
  }

  /** The nodes of a directory after its log has been merged in and its files valued. */
  function Prepared(po: Policy, nodes: seq<Node>, recs: seq<Info.Record>): seq<Node> {
    EvaluatedNodes(po, MergeAll(nodes, recs))
  }

  lemma {:induction false} EvaluatedIsPointwise(po: Policy, nodes: seq<Node>)
    ensures forall i :: 0 <= i < |nodes| ==> EvaluatedNodes(po, nodes)[i] == EvaluatedNode(po, nodes[i])
  {
    if nodes == [] {
    } else {
      EvaluatedIsPointwise(po, nodes[1..]);
    }
  }

  lemma {:induction false} PreparedIsPointwise(po: Policy, nodes: seq<Node>, recs: seq<Info.Record>)
    ensures |Prepared(po, nodes, recs)| == |nodes|
    ensures forall i :: 0 <= i < |nodes| ==>
      var m := Prepared(po, nodes, recs)[i];
      m == EvaluatedNode(po, MergedBy(nodes[i], recs)) && m.filename == nodes[i].filename
  {
    MergeAllIsPointwise(nodes, recs);
    EvaluatedIsPointwise(po, MergeAll(nodes, recs));
    forall i | 0 <= i < |nodes| ensures MergedBy(nodes[i], recs).filename == nodes[i].filename {
      MergedByKeepsName(nodes[i], recs);
    }
  }

  /** In a table with distinct names the new log has the record of each surviving file, and no other. */
  lemma NewLogLookup(nodes: seq<Node>, threshold: real, m: Node)
    requires DistinctNames(nodes) && m in nodes && m.directory.NoDirectory?
    ensures OneRecordEach(NewLog(nodes, threshold))
    ensures Info.Lookup(NewLog(nodes, threshold), m.filename) ==
      if m.value >= threshold then Some(RecordOf(m)) else None
  {
    NewLogHasOneRecordEach(nodes, threshold);
    NewLogNames(nodes, threshold);
    var log := NewLog(nodes, threshold);
    if m.value >= threshold {
      LookupOnly(log, RecordOf(m));
    } else {
      forall r | r in log ensures r.name != m.filename {
        var n :| n in nodes && n.directory.NoDirectory? && n.value >= threshold && r == RecordOf(n);
        var i, j :| 0 <= i < |nodes| && nodes[i] == m && 0 <= j < |nodes| && nodes[j] == n;
        assert i != j;
      }
      LookupNone(log, m.filename);
    }
  }

  /**
   After the rewrite of a log each surviving file has one record, which holds the last
   nonzero value of every field; a removed file has none. Where the last old record was
   complete, the lookup gives the same answer before and after.
   */
  lemma CompactionKeepsLookups(po: Policy, nodes: seq<Node>, recs: seq<Info.Record>, threshold: real, f: Node)
    requires DistinctNames(nodes) && f in nodes && f.directory.NoDirectory?
    ensures var log := NewLog(Prepared(po, nodes, recs), threshold);
      var m := EvaluatedNode(po, MergedBy(f, recs));
      var before := Info.Lookup(recs, f.filename);
      && OneRecordEach(log)
      && Info.Lookup(log, f.filename) == (if m.value >= threshold then Some(RecordOf(MergedBy(f, recs))) else None)
      && (m.value >= threshold && before.Some? && AllNonzero(before.value) ==> Info.Lookup(log, f.filename) == before)
  {
    PreparedIsPointwise(po, nodes, recs);
    MergedByKeepsName(f, recs);
    var nodes' := Prepared(po, nodes, recs);
    var i :| 0 <= i < |nodes| && nodes[i] == f;
    assert nodes'[i] in nodes';
    NewLogLookup(nodes', threshold, nodes'[i]);
    if Info.Lookup(recs, f.filename).Some? && AllNonzero(Info.Lookup(recs, f.filename).value) {
      CompleteRecordSurvives(f, recs);
    }
  }

  // ---- One pass ----

  function Pending(r: Directory): seq<Item> {
    if r.Directory? then Select(r.dirname, r.nodes, Any) else []
  }

  /** The files dealt with so far. */
  function DealtWith(e: Effects, w: Weight): nat { Weighed(e.unlinked, w) + Staying(e, w) }

  /** The effects of one pass over a directory in memory. */
  function PassEffects(po: Policy, d: Directory, fraction: real): Effects
    requires d.Directory?
  {
    var e := d.(nodes := EvaluatedNodes(po, d.nodes));
    var mustCollect := SumReal(fraction, SumItems(Pending(d)));
    EffectsOf(e, Threshold(Cutoff(mustCollect, BucketTable(d.dirname, e.nodes), 1)))
  }

  /** A pass unlinks or records every pending file. */
  lemma PassDealsWithAll(po: Policy, d: Directory, fraction: real, w: Weight)
    requires d.Directory?
    ensures DealtWith(PassEffects(po, d, fraction), w) == Weighed(Pending(d), w)
  {
    var e := d.(nodes := EvaluatedNodes(po, d.nodes));
    var t := Threshold(Cutoff(SumReal(fraction, SumItems(Pending(d))), BucketTable(d.dirname, e.nodes), 1));
    LastStepMovesNoFile(e, t);
    CollectingPartitions(d.dirname, e.nodes, t, d.logOpens, w);
    SelectSplits(d.dirname, e.nodes, Under(t), AtLeast(t), Any, w);
    EvaluatingKeepsItems(po, d.dirname, d.nodes);
  }

  lemma TruncOfPart(fraction: real, total: nat)
    requires 0.0 <= fraction <= 1.0
    ensures SumReal(fraction, total) <= total && SumReal(fraction, total) as real <= fraction * total as real
  {
    assert 0.0 <= fraction * (total as real) <= total as real;
  }

  /** A pass removes at least the fraction it has to, and would not without its last bucket. */
  lemma PassCollectsEnough(po: Policy, d: Directory, fraction: real)
    requires d.Directory? && 0.0 <= fraction <= 1.0
    requires forall n :: po.calculateValue(n) <= 1.0
    ensures var mustCollect := SumReal(fraction, SumItems(Pending(d)));
      var e := EvaluatedNodes(po, d.nodes);
      var n := Cutoff(mustCollect, BucketTable(d.dirname, e), 1);
      && PassEffects(po, d, fraction).unlinked == Select(d.dirname, e, InBucketsBelow(n))
      && SumItems(PassEffects(po, d, fraction).unlinked) >= mustCollect
      && (n > 1 ==> BelowBytes(d.dirname, e, n - 1) < mustCollect)
  {
    var e := d.(nodes := EvaluatedNodes(po, d.nodes));
    var mustCollect := SumReal(fraction, SumItems(Pending(d)));
    var n := Cutoff(mustCollect, BucketTable(d.dirname, e.nodes), 1);
    LastStepMovesNoFile(e, Threshold(n));
    CollectingPartitions(d.dirname, e.nodes, Threshold(n), d.logOpens, Size);
    EvaluatingKeepsItems(po, d.dirname, d.nodes);
    EvaluatedValuesAreAtMostOne(po, d.nodes);
    hide Weighed, BucketBytes, Cutoff, Threshold, EffectsOfNodes, EvaluatedNodes, Select;
    TruncOfPart(fraction, SumItems(Pending(d)));
    PassIsSufficientAndTight(d.dirname, e.nodes, mustCollect);
  }

  lemma ThenAdds(a: Effects, b: Effects, w: Weight)
    ensures DealtWith(Then(a, b), w) == DealtWith(a, w) + DealtWith(b, w)
  {
    WeighedAppend(a.unlinked, b.unlinked, w);
    StayingThen(a, b, w);
  }

  /** Evaluate, choose a threshold and collect. */
  method RunPass(gc: Collector, d: Directory, fraction: real)
    requires gc.Valid() && gc.TableIsZero() && d.Directory?
    modifies gc`bytesCollected, gc`done, gc.table, gc.totalTable
    ensures gc.Valid() && gc.TableIsZero()
    ensures gc.done == Then(old(gc.done), PassEffects(gc.po, d, fraction))
    ensures Sum(gc.totalTable[..]) == old(Sum(gc.totalTable[..])) + SumItems(Pending(d))
  {
    ghost var es := EvaluatedNodes(gc.po, d.nodes);
    EvaluatingKeepsItems(gc.po, d.dirname, d.nodes);
    var e := gc.Evaluate(d);
    assert gc.table[..] == BucketTable(d.dirname, es);
    var threshold := gc.GetThreshold(fraction, d.dirname, es);
    gc.Collect(e, threshold);
  }

  // ---- Reading directories ----

  /** In the middle of a directory: what has been done below it, and its table. */
  datatype Reading = Reading(effects: Effects, chains: seq<seq<Node>>, fileCnt: int, nodeCnt: int)

  /** At the end: what has been done, and the directory if it stays in memory. */
  datatype Outcome = Outcome(effects: Effects, dir: Directory)

  function ReadingOf(po: Policy, fraction: real, d: FsDir, i: nat): (s: Reading)
    requires i <= |d.entries|
    ensures |s.chains| == HASH_SIZE
    decreases d, 0, i
  {
    if i == 0 then Reading(NoEffects, NoChains(), 0, 0)
    else EntryRead(po, fraction, d.path, ReadingOf(po, fraction, d, i - 1), d.entries[i - 1])
  }

  function EntryRead(po: Policy, fraction: real, path: string, s: Reading, e: FsEntry): (s': Reading)
    requires |s.chains| == HASH_SIZE
    ensures |s'.chains| == HASH_SIZE
    decreases e, 2
  {
    EntryAfter(po, path, s, e,
      if IsScanned(e) && e.SubDir? then DirRead(po, fraction, e.dir, false) else Outcome(NoEffects, NoDirectory))
  }

  /** One entry, given what reading it as a directory has done. */
  function EntryAfter(po: Policy, path: string, s: Reading, e: FsEntry, o: Outcome): (s': Reading)
    requires |s.chains| == HASH_SIZE
    ensures |s'.chains| == HASH_SIZE
  {
    if !IsCounted(e) then s
    else if IsOldLock(po, e) then s.(effects := Then(s.effects, LockRemoved(path, e)))
    else
      var c := s.(fileCnt := s.fileCnt + 1);
      if IsScanned(e) && e.SubDir? then SubDirRead(c, e.dir.path, o)
      else if IsCachedFile(e) then c.(chains := WithNode(s.chains, NodeOf(e)), nodeCnt := s.nodeCnt + 1)
      else c
  }

  function LockRemoved(path: string, e: FsEntry): Effects { NoEffects.(locks := [path + "/" + e.name]) }

  function SubDirRead(s: Reading, path: string, o: Outcome): (s': Reading)
    requires |s.chains| == HASH_SIZE
    ensures |s'.chains| == HASH_SIZE
  {
    var t := s.(effects := Then(s.effects, o.effects));
    if o.dir.NoDirectory? then t
    else t.(chains := WithNode(s.chains, DirNode(path, o.dir)), nodeCnt := s.nodeCnt + o.dir.totalNodeCnt)
  }

  /** Is the info log among the first i entries? */
  predicate LogBefore(es: seq<FsEntry>, i: nat)
    requires i <= |es|
  {
    i > 0 && (LogBefore(es, i - 1) || es[i - 1].role.InfoLog?)
  }

  predicate HasLog(es: seq<FsEntry>) { LogBefore(es, |es|) }

  /** The directory in memory after its info log has been merged in. */
  function LogRead(d: FsDir, s: Reading): Directory {
    Directory(d.path, s.fileCnt, s.nodeCnt,
      if HasLog(d.entries) then MergeAll(Flat(s.chains), Info.Records(d.info)) else Flat(s.chains), d.logOpens)
  }

  function DirRead(po: Policy, fraction: real, d: FsDir, doCollect: bool): Outcome
    decreases d, 1
  {
    if !d.readable then Outcome(NoEffects, NoDirectory)
    else
      var s := ReadingOf(po, fraction, d, |d.entries|);
      if doCollect || s.nodeCnt >= po.memLimit then
        Outcome(Then(s.effects, PassEffects(po, LogRead(d, s), fraction)), NoDirectory)
      else
        Outcome(s.effects, LogRead(d, s))
  }

  // ---- What is in memory is what is on the disk ----

  /** A directory in memory is that on the disk: its entries counted, its files and subdirectories there. */
  ghost predicate Image(po: Policy, r: Directory, d: FsDir)
    decreases d, 1
  {
    && r.Directory? && r.dirname == d.path && r.fileCnt == Others(po, d.entries) + OwnFiles(r.nodes)
    && (forall n :: n in r.nodes ==> NodeImage(po, n, d, |d.entries|))
    && (forall j :: 0 <= j < |d.entries| && IsCachedFile(d.entries[j]) ==> FileIn(r.nodes, d.entries[j]))
  }

  /** A node is that of one of the first i entries. */
  ghost predicate NodeImage(po: Policy, n: Node, d: FsDir, i: nat)
    requires i <= |d.entries|
    decreases d, 0
  {
    exists j :: 0 <= j < i && n.filename == KeyOf(d.entries[j]) &&
      (n.directory.Directory? ==> d.entries[j].SubDir? && Image(po, n.directory, d.entries[j].dir))
  }

  ghost predicate FileIn(nodes: seq<Node>, e: FsEntry)
    requires e.Regular?
  {
    exists n :: n in nodes && n.directory.NoDirectory? && n.filename == e.name && n.bytes == e.size
  }

  /** The nodes are those of the first i entries. */
  ghost predicate NodesHold(po: Policy, nodes: seq<Node>, d: FsDir, i: nat)
    requires i <= |d.entries|
  {
    && (forall n :: n in nodes ==> NodeImage(po, n, d, i))
    && (forall j :: 0 <= j < i && IsCachedFile(d.entries[j]) ==> FileIn(nodes, d.entries[j]))
  }

  lemma ImageSoFar(po: Policy, n: Node, d: FsDir, i: nat)
    requires i < |d.entries| && NodeImage(po, n, d, i)
    ensures NodeImage(po, n, d, i + 1)
  {
    var j :| 0 <= j < i && n.filename == KeyOf(d.entries[j]) &&
      (n.directory.Directory? ==> d.entries[j].SubDir? && Image(po, n.directory, d.entries[j].dir));
    assert j < i + 1;
  }

  lemma NameIsNew(po: Policy, nodes: seq<Node>, d: FsDir, i: nat)
    requires i < |d.entries| && WellNamed(d) && NodesHold(po, nodes, d, i)
    ensures !HasName(nodes, KeyOf(d.entries[i]))
  {
    if HasName(nodes, KeyOf(d.entries[i])) {
      var n :| n in nodes && n.filename == KeyOf(d.entries[i]);
      assert NodeImage(po, n, d, i);
      var j :| 0 <= j < i && n.filename == KeyOf(d.entries[j]);
      KeysAreDistinct(d, j, i);
    }
  }

  /** The node of the next entry comes into the table. */
  lemma NodeComes(po: Policy, chains: seq<seq<Node>>, d: FsDir, i: nat, n: Node)
    requires i < |d.entries| && WellNamed(d) && WellHashed(chains) && NodesHold(po, Flat(chains), d, i)
    requires n.filename == KeyOf(d.entries[i]) && (IsCachedFile(d.entries[i]) ==> n == NodeOf(d.entries[i]))
    requires n.directory.Directory? ==> d.entries[i].SubDir? && Image(po, n.directory, d.entries[i].dir)
    ensures WellHashed(WithNode(chains, n)) && NodesHold(po, Flat(WithNode(chains, n)), d, i + 1)
    ensures !HasName(Flat(chains), n.filename) && Inserted(Flat(chains), Flat(WithNode(chains, n)), n)
  {
    NameIsNew(po, Flat(chains), d, i);
    WithNodeIsWellHashed(chains, n);
    WithNodeInserts(chains, n);
    HoldsOneMore(po, Flat(chains), Flat(WithNode(chains, n)), d, i, n);
  }

  lemma HoldsOneMore(po: Policy, before: seq<Node>, after: seq<Node>, d: FsDir, i: nat, n: Node)
    requires i < |d.entries| && NodesHold(po, before, d, i) && Inserted(before, after, n)
    requires n.filename == KeyOf(d.entries[i]) && (IsCachedFile(d.entries[i]) ==> n == NodeOf(d.entries[i]))
    requires n.directory.Directory? ==> d.entries[i].SubDir? && Image(po, n.directory, d.entries[i].dir)
    ensures NodesHold(po, after, d, i + 1)
  {
    InsertCounts(before, after, n);
    forall m | m in after ensures NodeImage(po, m, d, i + 1) {
      if m != n { ImageSoFar(po, m, d, i); }
    }
    forall j | 0 <= j < i + 1 && IsCachedFile(d.entries[j]) ensures FileIn(after, d.entries[j]) {
      if j < i {
        var m :| m in before && m.directory.NoDirectory? && m.filename == d.entries[j].name
          && m.bytes == d.entries[j].size;
        assert m in after;
      }
    }
  }

  lemma HoldsNothingMore(po: Policy, nodes: seq<Node>, d: FsDir, i: nat)
    requires i < |d.entries| && NodesHold(po, nodes, d, i) && !IsCachedFile(d.entries[i])
    ensures NodesHold(po, nodes, d, i + 1)
  {
    forall m | m in nodes ensures NodeImage(po, m, d, i + 1) {
      ImageSoFar(po, m, d, i);
    }
  }

  /** The table is well-formed and holds the entries read so far, and all of them are counted. */
  ghost predicate ReadingIsSound(po: Policy, d: FsDir, i: nat, s: Reading)
    requires i <= |d.entries|
  {
    && WellHashed(s.chains)
    && NodesHold(po, Flat(s.chains), d, i)
    && s.fileCnt == Others(po, d.entries[..i]) + OwnFiles(Flat(s.chains))
  }

  lemma SubDirIsWellNamed(d: FsDir, i: nat)
    requires WellNamed(d) && i < |d.entries|
    ensures d.entries[i].SubDir? ==> WellNamed(d.entries[i].dir)
  {
  }

  lemma OneMoreRead(po: Policy, fraction: real, d: FsDir, i: nat)
    requires i < |d.entries|
    ensures ReadingOf(po, fraction, d, i + 1) ==
      EntryRead(po, fraction, d.path, ReadingOf(po, fraction, d, i), d.entries[i])
  {
    hide EntryRead;
  }

  lemma NothingReadYet(po: Policy, fraction: real, d: FsDir)
    ensures ReadingIsSound(po, d, 0, ReadingOf(po, fraction, d, 0))
  {
    EmptyTable(ReadingOf(po, fraction, d, 0).chains);
    assert d.entries[..0] == [];
  }

  lemma {:induction false} ReadingSound(po: Policy, fraction: real, d: FsDir, i: nat)
    requires WellNamed(d) && i <= |d.entries|
    ensures ReadingIsSound(po, d, i, ReadingOf(po, fraction, d, i))
    decreases d, 1, i
  {
    if i == 0 {
    } else {
      ReadingSound(po, fraction, d, i - 1);
    }
    ReadingStaysSound(po, fraction, d, i);
  }

  lemma {:induction false} ReadingStaysSound(po: Policy, fraction: real, d: FsDir, i: nat)
    requires WellNamed(d) && i <= |d.entries|
    requires i > 0 ==> ReadingIsSound(po, d, i - 1, ReadingOf(po, fraction, d, i - 1))
    ensures ReadingIsSound(po, d, i, ReadingOf(po, fraction, d, i))
    decreases d, 0
  {
    hide ReadingOf, EntryRead, DirRead, OutcomeIsSound, ReadingIsSound;
    if i == 0 {
      NothingReadYet(po, fraction, d);
    } else {
      if d.entries[i - 1].SubDir? {
        SubDirIsWellNamed(d, i - 1);
        DirSound(po, fraction, d.entries[i - 1].dir, false);
      }
      OneMoreRead(po, fraction, d, i - 1);
      EntrySound(po, fraction, d, i - 1, ReadingOf(po, fraction, d, i - 1));
    }
  }

  lemma EntrySound(po: Policy, fraction: real, d: FsDir, i: nat, s: Reading)
    requires WellNamed(d) && i < |d.entries| && ReadingIsSound(po, d, i, s)
    requires d.entries[i].SubDir? ==>
      OutcomeIsSound(po, d.entries[i].dir, DirRead(po, fraction, d.entries[i].dir, false))
    ensures ReadingIsSound(po, d, i + 1, EntryRead(po, fraction, d.path, s, d.entries[i]))
  {
    hide DirRead, WithNode, Flat, NodesHold, WellNamed;
    var e := d.entries[i];
    var o := if e.SubDir? then DirRead(po, fraction, e.dir, false) else Outcome(NoEffects, NoDirectory);
    if IsCachedFile(e) {
      NodeSound(po, d, i, s, NodeOf(e));
    } else if IsScanned(e) && e.SubDir? && o.dir.Directory? {
      NodeSound(po, d, i, s, DirNode(e.dir.path, o.dir));
    } else {
      OtherSound(po, d, i, s);
    }
  }

  lemma NodeSound(po: Policy, d: FsDir, i: nat, s: Reading, n: Node)
    requires i < |d.entries| && WellNamed(d) && ReadingIsSound(po, d, i, s)
    requires n.filename == KeyOf(d.entries[i])
    requires n.directory.Directory? <==> !IsCachedFile(d.entries[i])
    requires if IsCachedFile(d.entries[i]) then n == NodeOf(d.entries[i])
      else IsScanned(d.entries[i]) && d.entries[i].SubDir? && Image(po, n.directory, d.entries[i].dir)
    ensures var chains := WithNode(s.chains, n);
      && WellHashed(chains) && NodesHold(po, Flat(chains), d, i + 1)
      && s.fileCnt + 1 == Others(po, d.entries[..i + 1]) + OwnFiles(Flat(chains))
  {
    OneMoreOther(po, d, i);
    NodeComes(po, s.chains, d, i, n);
    InsertCounts(Flat(s.chains), Flat(WithNode(s.chains, n)), n);
  }

  lemma OtherSound(po: Policy, d: FsDir, i: nat, s: Reading)
    requires i < |d.entries| && ReadingIsSound(po, d, i, s) && !IsCachedFile(d.entries[i])
    ensures NodesHold(po, Flat(s.chains), d, i + 1)
    ensures s.fileCnt + Other(po, d.entries[i]) == Others(po, d.entries[..i + 1]) + OwnFiles(Flat(s.chains))
  {
    OneMoreOther(po, d, i);
    HoldsNothingMore(po, Flat(s.chains), d, i);
  }

  lemma OneMoreOther(po: Policy, d: FsDir, i: nat)
    requires i < |d.entries|
    ensures Others(po, d.entries[..i + 1]) == Others(po, d.entries[..i]) + Other(po, d.entries[i])
  {
    assert d.entries[..i + 1] == d.entries[..i] + [d.entries[i]];
  }

  ghost predicate OutcomeIsSound(po: Policy, d: FsDir, o: Outcome) {
    o.dir.Directory? ==> Image(po, o.dir, d) && DistinctNames(o.dir.nodes)
  }

  lemma {:induction false} DirSound(po: Policy, fraction: real, d: FsDir, doCollect: bool)
    requires WellNamed(d)
    ensures OutcomeIsSound(po, d, DirRead(po, fraction, d, doCollect))
    decreases d, 2
  {
    if !d.readable {
    } else {
      ReadingSound(po, fraction, d, |d.entries|);
      LogReadIsImage(po, d, ReadingOf(po, fraction, d, |d.entries|));
    }
  }

  /** Merging the log changes neither names nor sizes. */
  lemma LogReadIsImage(po: Policy, d: FsDir, s: Reading)
    requires ReadingIsSound(po, d, |d.entries|, s)
    ensures Image(po, LogRead(d, s), d) && DistinctNames(LogRead(d, s).nodes)
    ensures Select(d.path, LogRead(d, s).nodes, Any) == Select(d.path, Flat(s.chains), Any)
  {
    assert d.entries[..|d.entries|] == d.entries;
    TableNamesAreDistinct(s.chains);
    if HasLog(d.entries) {
      var recs := Info.Records(d.info);
      MergeAllMovesNothing(d.path, Flat(s.chains), recs);
      MergeAllIsPointwise(Flat(s.chains), recs);
      forall n | n in Flat(s.chains)
        ensures MergedBy(n, recs).filename == n.filename && MergedBy(n, recs).bytes == n.bytes
        ensures MergedBy(n, recs).directory == n.directory
      {
        MergedByKeepsName(n, recs);
      }
      SameFilesSameImage(po, d, Flat(s.chains), LogRead(d, s).nodes);
    }
  }

  lemma SameFilesSameImage(po: Policy, d: FsDir, a: seq<Node>, b: seq<Node>)
    requires NodesHold(po, a, d, |d.entries|) && |a| == |b|
    requires forall i :: 0 <= i < |a| ==>
      b[i].filename == a[i].filename && b[i].directory == a[i].directory && b[i].bytes == a[i].bytes
    ensures NodesHold(po, b, d, |d.entries|)
  {
    forall n | n in b ensures NodeImage(po, n, d, |d.entries|) {
      var i :| 0 <= i < |b| && b[i] == n;
      assert NodeImage(po, a[i], d, |d.entries|);
    }
    forall j | 0 <= j < |d.entries| && IsCachedFile(d.entries[j]) ensures FileIn(b, d.entries[j]) {
      var m :| m in a && m.directory.NoDirectory? && m.filename == d.entries[j].name && m.bytes == d.entries[j].size;
      var i :| 0 <= i < |a| && a[i] == m;
      assert b[i] in b;
    }
  }

  // ---- Conservation ----

  /** The items are dealt with or pending. */
  ghost predicate Settled(o: Outcome, items: seq<Item>, w: Weight) {
    DealtWith(o.effects, w) + Weighed(Pending(o.dir), w) == Weighed(items, w)
  }

  lemma {:induction false} ScannedEntriesAppend(path: string, es: seq<FsEntry>, e: FsEntry)
    ensures ScannedEntries(path, es + [e]) == ScannedEntries(path, es) + ScannedEntry(path, e)
  {
    if es == [] {
      assert [e][1..] == [] && es + [e] == [e];
    } else {
      assert (es + [e])[1..] == es[1..] + [e];
      ScannedEntriesAppend(path, es[1..], e);
    }
  }

  /** The files dealt with or in the table, in the middle of a directory. */
  function Known(path: string, s: Reading, w: Weight): nat {
    DealtWith(s.effects, w) + Weighed(Select(path, Flat(s.chains), Any), w)
  }

  /** All that was found in the first i entries is known. */
  ghost predicate IsKnown(po: Policy, fraction: real, d: FsDir, i: nat, w: Weight)
    requires i <= |d.entries|
  {
    Known(d.path, ReadingOf(po, fraction, d, i), w) == Weighed(ScannedEntries(d.path, d.entries[..i]), w)
  }

  lemma NothingKnownYet(po: Policy, fraction: real, d: FsDir, w: Weight)
    ensures IsKnown(po, fraction, d, 0, w)
  {
    EmptyTable(ReadingOf(po, fraction, d, 0).chains);
    assert d.entries[..0] == [];
  }

  lemma OneMoreKnown(po: Policy, fraction: real, d: FsDir, i: nat, w: Weight)
    requires i < |d.entries| && IsKnown(po, fraction, d, i, w)
    requires Known(d.path, ReadingOf(po, fraction, d, i + 1), w) ==
      Known(d.path, ReadingOf(po, fraction, d, i), w) + Weighed(ScannedEntry(d.path, d.entries[i]), w)
    ensures IsKnown(po, fraction, d, i + 1, w)
  {
    ScannedOneMore(d, i, w);
  }

  lemma {:induction false} ReadingConserves(po: Policy, fraction: real, d: FsDir, i: nat, w: Weight)
    requires WellNamed(d) && i <= |d.entries|
    ensures IsKnown(po, fraction, d, i, w)
    decreases d, 1, i
  {
    if i == 0 {
      NothingKnownYet(po, fraction, d, w);
    } else {
      ReadingConserves(po, fraction, d, i - 1, w);
      ReadingGoesOn(po, fraction, d, i - 1, w);
    }
  }

  lemma {:induction false} ReadingGoesOn(po: Policy, fraction: real, d: FsDir, i: nat, w: Weight)
    requires WellNamed(d) && i < |d.entries| && IsKnown(po, fraction, d, i, w)
    ensures IsKnown(po, fraction, d, i + 1, w)
    decreases d, 0, i + 2
  {
    EntryConserves(po, fraction, d, i, w);
    OneMoreKnown(po, fraction, d, i, w);
  }

  lemma {:induction false} EntryConserves(po: Policy, fraction: real, d: FsDir, i: nat, w: Weight)
    requires WellNamed(d) && i < |d.entries|
    ensures Known(d.path, ReadingOf(po, fraction, d, i + 1), w) ==
      Known(d.path, ReadingOf(po, fraction, d, i), w) + Weighed(ScannedEntry(d.path, d.entries[i]), w)
    decreases d, 0, i + 1
  {
    var s, e := ReadingOf(po, fraction, d, i), d.entries[i];
    var o := Outcome(NoEffects, NoDirectory);
    if IsCachedFile(e) {
      FileAdds(po, fraction, d, i, w);
      assert EntryAfter(po, d.path, s, e, o).chains == WithNode(s.chains, NodeOf(e));
    } else if IsScanned(e) && e.SubDir? {
      o := SubDirConserves(po, fraction, d, i, w);
    } else {
      NothingAdds(po, d.path, s, e, o, w);
    }
  }

  lemma {:induction false} SubDirConserves(po: Policy, fraction: real, d: FsDir, i: nat, w: Weight) returns (o: Outcome)
    requires WellNamed(d) && i < |d.entries| && d.entries[i].SubDir?
    ensures o == DirRead(po, fraction, d.entries[i].dir, false)
    ensures var s, sub := ReadingOf(po, fraction, d, i), d.entries[i].dir;
      Known(d.path, SubDirRead(s, sub.path, o), w) == Known(d.path, s, w) + Weighed(ScannedOf(sub), w)
    decreases d, 0, 0
  {
    o := DirRead(po, fraction, d.entries[i].dir, false);
    DirConserves(po, fraction, d.entries[i].dir, false, w);
    DirSound(po, fraction, d.entries[i].dir, false);
    SubDirAdds(po, fraction, d, i, o, w);
  }

  lemma ScannedOneMore(d: FsDir, i: nat, w: Weight)
    requires i < |d.entries|
    ensures Weighed(ScannedEntries(d.path, d.entries[..i + 1]), w) ==
      Weighed(ScannedEntries(d.path, d.entries[..i]), w) + Weighed(ScannedEntry(d.path, d.entries[i]), w)
  {
    assert d.entries[..i + 1] == d.entries[..i] + [d.entries[i]];
    ScannedEntriesAppend(d.path, d.entries[..i], d.entries[i]);
    WeighedAppend(ScannedEntries(d.path, d.entries[..i]), ScannedEntry(d.path, d.entries[i]), w);
  }

  /** An entry that is neither a cached file nor read as a directory adds nothing. */
  lemma NothingAdds(po: Policy, path: string, s: Reading, e: FsEntry, o: Outcome, w: Weight)
    requires |s.chains| == HASH_SIZE && !IsCachedFile(e) && !(IsScanned(e) && e.SubDir?)
    ensures Known(path, EntryAfter(po, path, s, e, o), w) == Known(path, s, w)
  {
    assert DealtWith(LockRemoved(path, e), w) == 0;
    hide DealtWith, Select, Weighed, Flat, WithNode, LockRemoved, Then;
    ThenAdds(s.effects, LockRemoved(path, e), w);
    var t := EntryAfter(po, path, s, e, o);
    assert t.chains == s.chains && (t.effects == s.effects || t.effects == Then(s.effects, LockRemoved(path, e)));
    hide EntryAfter;
  }

  lemma FileAdds(po: Policy, fraction: real, d: FsDir, i: nat, w: Weight)
    requires WellNamed(d) && i < |d.entries| && IsCachedFile(d.entries[i])
    ensures var s := ReadingOf(po, fraction, d, i);
      Known(d.path, s.(chains := WithNode(s.chains, NodeOf(d.entries[i]))), w) ==
      Known(d.path, s, w) + Weighed(ScannedEntry(d.path, d.entries[i]), w)
  {
    ReadingSound(po, fraction, d, i);
    NodeAdds(po, ReadingOf(po, fraction, d, i).chains, d, i, NodeOf(d.entries[i]), w);
    SelectOfOne(d.path, NodeOf(d.entries[i]), Any);
  }

  lemma NodeAdds(po: Policy, chains: seq<seq<Node>>, d: FsDir, i: nat, n: Node, w: Weight)
    requires i < |d.entries| && WellNamed(d) && WellHashed(chains) && NodesHold(po, Flat(chains), d, i)
    requires n.filename == KeyOf(d.entries[i]) && (IsCachedFile(d.entries[i]) ==> n == NodeOf(d.entries[i]))
    requires n.directory.Directory? ==> d.entries[i].SubDir? && Image(po, n.directory, d.entries[i].dir)
    ensures Weighed(Select(d.path, Flat(WithNode(chains, n)), Any), w) ==
      Weighed(Select(d.path, Flat(chains), Any), w) + Weighed(SelectOne(d.path, n, Any), w)
  {
    NodeComes(po, chains, d, i, n);
    InsertAdds(d.path, Flat(chains), Flat(WithNode(chains, n)), n, w);
  }

  lemma SubDirAdds(po: Policy, fraction: real, d: FsDir, i: nat, o: Outcome, w: Weight)
    requires WellNamed(d) && i < |d.entries| && d.entries[i].SubDir?
    requires OutcomeIsSound(po, d.entries[i].dir, o) && Settled(o, ScannedOf(d.entries[i].dir), w)
    ensures var s, sub := ReadingOf(po, fraction, d, i), d.entries[i].dir;
      Known(d.path, SubDirRead(s, sub.path, o), w) == Known(d.path, s, w) + Weighed(ScannedOf(sub), w)
  {
    var s := ReadingOf(po, fraction, d, i);
    if o.dir.Directory? {
      ReadingSound(po, fraction, d, i);
      NodeAdds(po, s.chains, d, i, DirNode(d.entries[i].dir.path, o.dir), w);
    }
    ThenAdds(s.effects, o.effects, w);
  }

  lemma {:induction false} DirConserves(po: Policy, fraction: real, d: FsDir, doCollect: bool, w: Weight)
    requires WellNamed(d)
    ensures Settled(DirRead(po, fraction, d, doCollect), ScannedOf(d), w)
    decreases d, 2
  {
    if !d.readable {
    } else {
      assert d.entries[..|d.entries|] == d.entries;
      ReadingSound(po, fraction, d, |d.entries|);
      ReadingConserves(po, fraction, d, |d.entries|, w);
      LogReadIsImage(po, d, ReadingOf(po, fraction, d, |d.entries|));
      DirSettles(po, fraction, d, doCollect, ReadingOf(po, fraction, d, |d.entries|), w);
    }
    hide DirRead, ReadingOf, LogRead, ScannedEntries, Known;
  }

  /** At the end of a directory everything known is dealt with by a pass, or stays pending. */
  lemma DirSettles(po: Policy, fraction: real, d: FsDir, doCollect: bool, s: Reading, w: Weight)
    requires d.readable && s == ReadingOf(po, fraction, d, |d.entries|)
    requires Select(d.path, LogRead(d, s).nodes, Any) == Select(d.path, Flat(s.chains), Any)
    requires Known(d.path, s, w) == Weighed(ScannedOf(d), w)
    ensures Settled(DirRead(po, fraction, d, doCollect), ScannedOf(d), w)
  {
    hide ReadingOf, PassEffects, Then, DealtWith, ScannedOf, Select, Flat;
    var r := LogRead(d, s);
    assert r.dirname == d.path;
    PassDealsWithAll(po, r, fraction, w);
    ThenAdds(s.effects, PassEffects(po, r, fraction), w);
  }

  // ---- Old locks ----

  function OldLocks(po: Policy, d: FsDir): seq<string>
    decreases d, 1
  {
    if d.readable then OldLocksIn(po, d.path, d.entries) else []
  }

  function OldLocksIn(po: Policy, path: string, es: seq<FsEntry>): seq<string>
    decreases es, 0
  {
    if es == [] then []
    else
      var e := es[|es| - 1];
      OldLocksIn(po, path, es[..|es| - 1]) +
      (if IsOldLock(po, e) then [path + "/" + e.name]
       else if IsScanned(e) && e.SubDir? then OldLocks(po, e.dir)
       else [])
  }

  lemma {:induction false} CollectingRemovesNoLock(dir: string, nodes: seq<Node>, threshold: real, cif: bool)
    ensures EffectsOfNodes(dir, nodes, threshold, cif).locks == []
    decreases nodes
  {
    if nodes == [] {
    } else {
      var sub := nodes[0].directory;
      assert EffectsOfNode(dir, nodes[0], threshold, cif).locks == [] by {
        if sub.Directory? {
          CollectingRemovesNoLock(sub.dirname, sub.nodes, threshold, sub.logOpens);
        }
      }
      CollectingRemovesNoLock(dir, nodes[1..], threshold, cif);
    }
  }

  lemma PassRemovesNoLock(po: Policy, d: Directory, fraction: real)
    requires d.Directory?
    ensures PassEffects(po, d, fraction).locks == []
  {
    var e := EvaluatedNodes(po, d.nodes);
    CollectingRemovesNoLock(d.dirname, e,
      Threshold(Cutoff(SumReal(fraction, SumItems(Pending(d))), BucketTable(d.dirname, e), 1)), d.logOpens);
  }

  /** The lock files removed are exactly the old ones below the directory, in scan order. */
  lemma {:induction false} OldLocksAreRemoved(po: Policy, fraction: real, d: FsDir, doCollect: bool)
    ensures DirRead(po, fraction, d, doCollect).effects.locks == OldLocks(po, d)
    decreases d, 1
  {
    if !d.readable {
    } else {
      var s := ReadingOf(po, fraction, d, |d.entries|);
      assert d.entries[..|d.entries|] == d.entries;
      OldLocksSoFar(po, fraction, d, |d.entries|);
      PassRemovesNoLock(po, LogRead(d, s), fraction);
    }
  }

  lemma {:induction false} OldLocksSoFar(po: Policy, fraction: real, d: FsDir, i: nat)
    requires i <= |d.entries|
    ensures ReadingOf(po, fraction, d, i).effects.locks == OldLocksIn(po, d.path, d.entries[..i])
    decreases d, 0, i
  {
    hide DirRead, OldLocks, WithNode, LogRead;
    if i == 0 {
    } else {
      var e := d.entries[i - 1];
      assert d.entries[..i][..i - 1] == d.entries[..i - 1];
      OldLocksSoFar(po, fraction, d, i - 1);
      if e.SubDir? {
        OldLocksAreRemoved(po, fraction, e.dir, false);
      }
    }
  }

  // ---- The new log of a directory on the disk ----

  /**
   The log written for a directory that was read and collected answers as the old one did,
   for every cached file that stays and had a complete record.
   */
  lemma RewrittenLogKeepsLookups(po: Policy, fraction: real, d: FsDir, j: nat, threshold: real)
    requires WellNamed(d) && HasLog(d.entries) && j < |d.entries| && IsCachedFile(d.entries[j])
    ensures var r := LogRead(d, ReadingOf(po, fraction, d, |d.entries|));
      var log := NewLog(EvaluatedNodes(po, r.nodes), threshold);
      var before, after := Info.Lookup(Info.Records(d.info), d.entries[j].name), Info.Lookup(log, d.entries[j].name);
      && OneRecordEach(log)
      && (after.Some? && before.Some? && AllNonzero(before.value) ==> after == before)
  {
    var nodes := Flat(ReadingOf(po, fraction, d, |d.entries|).chains);
    ReadingSound(po, fraction, d, |d.entries|);
    TableNamesAreDistinct(ReadingOf(po, fraction, d, |d.entries|).chains);
    assert FileIn(nodes, d.entries[j]);
    var f :| f in nodes && f.directory.NoDirectory? && f.filename == d.entries[j].name && f.bytes == d.entries[j].size;
    CompactionKeepsLookups(po, nodes, Info.Records(d.info), threshold, f);
  }

  // ---- Directories are removed only when empty ----

  ghost predicate IsBelow(s: FsDir, d: FsDir)
    decreases d
  {
    s == d || exists j :: 0 <= j < |d.entries| && d.entries[j].SubDir? && IsBelow(s, d.entries[j].dir)
  }

  /** Of the counted entries of a directory none is left: all were cached files or old locks, and unlinked. */
  ghost predicate AllGone(po: Policy, s: FsDir, unlinked: seq<Item>) {
    && Others(po, s.entries) == 0
    && (forall j :: 0 <= j < |s.entries| && IsCachedFile(s.entries[j]) ==>
          Item(s.path, s.entries[j].name, s.entries[j].size) in unlinked)
  }

  /** The path is that of a directory below d of which nothing is left. */
  ghost predicate Emptied(po: Policy, d: FsDir, path: string, unlinked: seq<Item>) {
    exists s :: IsBelow(s, d) && s.path == path && AllGone(po, s, unlinked)
  }

  ghost predicate OnlyEmptyRemoved(po: Policy, d: FsDir, e: Effects) {
    forall p :: p in e.rmdirs ==> Emptied(po, d, p, e.unlinked)
  }

  lemma EmptiedBelow(po: Policy, d: FsDir, j: nat, path: string, before: seq<Item>, after: seq<Item>)
    requires j < |d.entries| && d.entries[j].SubDir? && Emptied(po, d.entries[j].dir, path, before)
    requires forall it :: it in before ==> it in after
    ensures Emptied(po, d, path, after)
  {
    var s :| IsBelow(s, d.entries[j].dir) && s.path == path && AllGone(po, s, before);
    assert IsBelow(s, d);
    assert AllGone(po, s, after);
  }

  lemma EmptiedLater(po: Policy, d: FsDir, path: string, before: seq<Item>, after: seq<Item>)
    requires Emptied(po, d, path, before)
    requires forall it :: it in before ==> it in after
    ensures Emptied(po, d, path, after)
  {
    var s :| IsBelow(s, d) && s.path == path && AllGone(po, s, before);
    assert AllGone(po, s, after);
  }

  /** The effects of one subdirectory, within those of its directory. */
  lemma RemovedBelow(po: Policy, d: FsDir, j: nat, a: Effects, b: Effects)
    requires j < |d.entries| && d.entries[j].SubDir?
    requires OnlyEmptyRemoved(po, d, a) && OnlyEmptyRemoved(po, d.entries[j].dir, b)
    ensures OnlyEmptyRemoved(po, d, Then(a, b))
  {
    forall p | p in Then(a, b).rmdirs ensures Emptied(po, d, p, Then(a, b).unlinked) {
      if p in a.rmdirs {
        EmptiedLater(po, d, p, a.unlinked, Then(a, b).unlinked);
      } else {
        EmptiedBelow(po, d, j, p, b.unlinked, Then(a, b).unlinked);
      }
    }
  }

  lemma RemovedThen(po: Policy, d: FsDir, a: Effects, b: Effects)
    requires OnlyEmptyRemoved(po, d, a) && OnlyEmptyRemoved(po, d, b)
    ensures OnlyEmptyRemoved(po, d, Then(a, b))
  {
    forall p | p in Then(a, b).rmdirs ensures Emptied(po, d, p, Then(a, b).unlinked) {
      EmptiedLater(po, d, p, if p in a.rmdirs then a.unlinked else b.unlinked, Then(a, b).unlinked);
    }
  }

  /** If no file of a directory is logged, all have been unlinked. */
  lemma {:induction false} NotLoggedIsUnlinked(dir: string, nodes: seq<Node>, threshold: real, cif: bool, n: Node)
    requires NewLog(nodes, threshold) == [] && n in nodes && n.directory.NoDirectory?
    ensures Item(dir, n.filename, n.bytes) in EffectsOfNodes(dir, nodes, threshold, cif).unlinked
  {
    if n == nodes[0] {
    } else {
      NotLoggedIsUnlinked(dir, nodes[1..], threshold, cif, n);
    }
  }

  /** Collecting an image of a directory removes only directories of which nothing is left. */
  lemma {:induction false} CollectingRemovesOnlyEmpty(po: Policy, r: Directory, d: FsDir, threshold: real)
    requires Image(po, r, d)
    ensures OnlyEmptyRemoved(po, d, EffectsOf(r, threshold))
    decreases r, 1
  {
    NodesRemoveOnlyEmpty(po, r.dirname, r.nodes, d, threshold, r.logOpens);
    var e := EffectsOfNodes(r.dirname, r.nodes, threshold, r.logOpens);
    if r.logOpens && IsEmptied(r, threshold) {
      RemovedIffNothingRemains(r, Others(po, d.entries), threshold);
      forall j | 0 <= j < |d.entries| && IsCachedFile(d.entries[j])
        ensures Item(d.path, d.entries[j].name, d.entries[j].size) in e.unlinked
      {
        assert FileIn(r.nodes, d.entries[j]);
        var n :| n in r.nodes && n.directory.NoDirectory? && n.filename == d.entries[j].name
          && n.bytes == d.entries[j].size;
        NotLoggedIsUnlinked(r.dirname, r.nodes, threshold, r.logOpens, n);
      }
      assert AllGone(po, d, e.unlinked) && IsBelow(d, d);
    }
    LastStepMovesNoFile(r, threshold);
    forall p | p in EffectsOf(r, threshold).rmdirs ensures Emptied(po, d, p, EffectsOf(r, threshold).unlinked) {
      assert p in e.rmdirs || (p == r.dirname && r.logOpens && IsEmptied(r, threshold));
    }
  }

  lemma {:induction false} NodesRemoveOnlyEmpty(po: Policy, dir: string, nodes: seq<Node>, d: FsDir, threshold: real,
                                                   cif: bool)
    requires forall n :: n in nodes ==> NodeImage(po, n, d, |d.entries|)
    ensures OnlyEmptyRemoved(po, d, EffectsOfNodes(dir, nodes, threshold, cif))
    decreases nodes, 0
  {
    if nodes == [] {
    } else {
      NodesRemoveOnlyEmpty(po, dir, nodes[1..], d, threshold, cif);
      var n := nodes[0];
      assert NodeImage(po, n, d, |d.entries|);
      if n.directory.Directory? {
        var j :| 0 <= j < |d.entries| && d.entries[j].SubDir? && Image(po, n.directory, d.entries[j].dir);
        CollectingRemovesOnlyEmpty(po, n.directory, d.entries[j].dir, threshold);
        RemovedBelow(po, d, j, NoEffects, EffectsOfNode(dir, n, threshold, cif));
        ThenIsAssociative(EffectsOfNode(dir, n, threshold, cif), NoEffects, NoEffects);
      }
      RemovedThen(po, d, EffectsOfNode(dir, n, threshold, cif), EffectsOfNodes(dir, nodes[1..], threshold, cif));
    }
  }

  /** Valuing files does not change what a directory is an image of. */
  lemma {:induction false} EvaluatedIsImage(po: Policy, r: Directory, d: FsDir)
    requires Image(po, r, d)
    ensures Image(po, r.(nodes := EvaluatedNodes(po, r.nodes)), d)
    decreases d
  {
    var es := EvaluatedNodes(po, r.nodes);
    EvaluatedIsPointwise(po, r.nodes);
    EvaluatingKeepsOwnFiles(po, r.nodes);
    forall m | m in es ensures NodeImage(po, m, d, |d.entries|) {
      var i :| 0 <= i < |es| && es[i] == m;
      var n := r.nodes[i];
      assert NodeImage(po, n, d, |d.entries|);
      var j :| 0 <= j < |d.entries| && n.filename == KeyOf(d.entries[j]) &&
        (n.directory.Directory? ==> d.entries[j].SubDir? && Image(po, n.directory, d.entries[j].dir));
      if n.directory.Directory? {
        EvaluatedIsImage(po, n.directory, d.entries[j].dir);
      }
    }
    forall j | 0 <= j < |d.entries| && IsCachedFile(d.entries[j]) ensures FileIn(es, d.entries[j]) {
      var n :| n in r.nodes && n.directory.NoDirectory? && n.filename == d.entries[j].name
        && n.bytes == d.entries[j].size;
      var i :| 0 <= i < |r.nodes| && r.nodes[i] == n;
      assert es[i] in es;
    }
  }

  lemma {:induction false} DirRemovesOnlyEmpty(po: Policy, fraction: real, d: FsDir, doCollect: bool)
    requires WellNamed(d)
    ensures OnlyEmptyRemoved(po, d, DirRead(po, fraction, d, doCollect).effects)
    decreases d, 1
  {
    if !d.readable {
    } else {
      var s := ReadingOf(po, fraction, d, |d.entries|);
      ReadingRemovesOnlyEmpty(po, fraction, d, |d.entries|);
      ReadingSound(po, fraction, d, |d.entries|);
      LogReadIsImage(po, d, s);
      PassRemovesOnlyEmpty(po, LogRead(d, s), d, fraction);
      RemovedThen(po, d, s.effects, PassEffects(po, LogRead(d, s), fraction));
    }
  }

  lemma PassRemovesOnlyEmpty(po: Policy, r: Directory, d: FsDir, fraction: real)
    requires Image(po, r, d)
    ensures OnlyEmptyRemoved(po, d, PassEffects(po, r, fraction))
  {
    var e := r.(nodes := EvaluatedNodes(po, r.nodes));
    EvaluatedIsImage(po, r, d);
    CollectingRemovesOnlyEmpty(po, e, d,
      Threshold(Cutoff(SumReal(fraction, SumItems(Pending(r))), BucketTable(r.dirname, e.nodes), 1)));
  }

  lemma {:induction false} ReadingRemovesOnlyEmpty(po: Policy, fraction: real, d: FsDir, i: nat)
    requires WellNamed(d) && i <= |d.entries|
    ensures OnlyEmptyRemoved(po, d, ReadingOf(po, fraction, d, i).effects)
    decreases d, 0, i
  {
    if i == 0 {
    } else {
      var s, e := ReadingOf(po, fraction, d, i - 1), d.entries[i - 1];
      ReadingRemovesOnlyEmpty(po, fraction, d, i - 1);
      if IsScanned(e) && e.SubDir? {
        DirRemovesOnlyEmpty(po, fraction, e.dir, false);
        RemovedBelow(po, d, i - 1, s.effects, DirRead(po, fraction, e.dir, false).effects);
      } else {
        RemovedThen(po, d, s.effects, LockRemoved(d.path, e));
      }
    }
  }

  // ---- The scan itself ----

  /** The bytes in the totals of the passes that are not dealt with: none, since a pass deals with all. */
  ghost function Surplus(gc: Collector): int
    reads gc, gc.totalTable
  {
    Sum(gc.totalTable[..]) - DealtWith(gc.done, Size)
  }

  ghost predicate IsTableOf(t: DirTable, s: Reading)
    reads t, t.files
  {
    t.Valid() && t.files[..] == s.chains && t.fileCnt == s.fileCnt && t.totalNodeCnt == s.nodeCnt
  }

  /** The bytes of the files found in the first i entries. */
  function BytesBefore(d: FsDir, i: nat): nat
    requires i <= |d.entries|
  {
    if i == 0 then 0 else BytesBefore(d, i - 1) + SumItems(ScannedEntry(d.path, d.entries[i - 1]))
  }

  lemma {:induction false} BytesBeforeIsSum(d: FsDir, i: nat)
    requires i <= |d.entries|
    ensures BytesBefore(d, i) == SumItems(ScannedEntries(d.path, d.entries[..i]))
  {
    if i == 0 {
      assert d.entries[..0] == [];
      assert ScannedEntries(d.path, []) == [] && SumItems([]) == 0;
    } else {
      BytesBeforeIsSum(d, i - 1);
      ScannedOneMore(d, i - 1, Size);
    }
    hide ScannedEntries, ScannedEntry, Weighed;
  }

  lemma BytesInAll(d: FsDir)
    ensures BytesBefore(d, |d.entries|) == SumItems(ScannedEntries(d.path, d.entries))
  {
    BytesBeforeIsSum(d, |d.entries|);
    assert d.entries[..|d.entries|] == d.entries;
  }

  lemma ReadingStarts(po: Policy, fraction: real, d: FsDir, before: Effects)
    ensures ReadingOf(po, fraction, d, 0) == Reading(NoEffects, NoChains(), 0, 0)
    ensures Then(before, NoEffects) == before && !LogBefore(d.entries, 0) && BytesBefore(d, 0) == 0
  {
    ThenIsAssociative(before, NoEffects, NoEffects);
  }

  /** Read the entries of one directory. */
  method ReadEntries(gc: Collector, d: FsDir, fraction: real) returns (t: DirTable, cifExists: bool)
    requires gc.Valid() && gc.TableIsZero() && WellNamed(d)
    modifies gc`bytesTotal, gc`bytesCollected, gc`done, gc.table, gc.totalTable
    ensures gc.Valid() && gc.TableIsZero() && fresh(t) && fresh(t.files)
    ensures IsTableOf(t, ReadingOf(gc.po, fraction, d, |d.entries|)) && (cifExists <==> HasLog(d.entries))
    ensures gc.done == Then(old(gc.done), ReadingOf(gc.po, fraction, d, |d.entries|).effects)
    ensures gc.bytesTotal == old(gc.bytesTotal) + SumItems(ScannedEntries(d.path, d.entries))
    ensures Surplus(gc) == old(Surplus(gc))
    decreases d, 0
  {
    hide ReadingOf, Then, WellNamed, ScannedEntries, ScannedEntry, Surplus, Weighed;
    t := new DirTable(d.path);
    cifExists := false;
    ReadingStarts(gc.po, fraction, d, gc.done);
    ghost var s := ReadingOf(gc.po, fraction, d, 0);
    for i := 0 to |d.entries|
      invariant gc.Valid() && gc.TableIsZero() && fresh(t) && fresh(t.files)
      invariant s == ReadingOf(gc.po, fraction, d, i) && IsTableOf(t, s)
      invariant cifExists == LogBefore(d.entries, i)
      invariant gc.done == Then(old(gc.done), s.effects)
      invariant gc.bytesTotal == old(gc.bytesTotal) + BytesBefore(d, i)
      invariant Surplus(gc) == old(Surplus(gc))
    {
      var isCif, s' := ReadEntry(gc, t, d, i, fraction, old(gc.done), s);
      s := s';
      cifExists := cifExists || isCif;
    }
    BytesInAll(d);
  }

  /** One entry of a directory. */
  method ReadEntry(gc: Collector, t: DirTable, d: FsDir, i: nat, fraction: real, ghost before: Effects,
                   ghost s: Reading)
    returns (isCif: bool, ghost s': Reading)
    requires gc.Valid() && gc.TableIsZero() && WellNamed(d) && i < |d.entries|
    requires s == ReadingOf(gc.po, fraction, d, i) && IsTableOf(t, s) && gc.done == Then(before, s.effects)
    requires t.files as object != gc.table && t.files as object != gc.totalTable
    modifies gc`bytesTotal, gc`bytesCollected, gc`done, gc.table, gc.totalTable, t, t.files
    ensures gc.Valid() && gc.TableIsZero() && (isCif <==> d.entries[i].role.InfoLog?)
    ensures s' == ReadingOf(gc.po, fraction, d, i + 1) && IsTableOf(t, s') && gc.done == Then(before, s'.effects)
    ensures gc.bytesTotal == old(gc.bytesTotal) + SumItems(ScannedEntry(d.path, d.entries[i]))
    ensures Surplus(gc) == old(Surplus(gc))
    decreases d, 0, 2
  {
    var e := d.entries[i];
    s' := s;
    isCif := e.role.InfoLog?;
    if e.role.NotCounted? || isCif {
      return;
    }
    t.fileCnt := t.fileCnt + 1;
    s' := s.(fileCnt := s.fileCnt + 1);
    if e.role.GcReport? {
      return;
    }
    s' := ReadScanned(gc, t, d, i, fraction, before, s);
  }

  /** An entry that is examined: a subdirectory, a lock file or a cached file, or none of them. */
  method ReadScanned(gc: Collector, t: DirTable, d: FsDir, i: nat, fraction: real, ghost before: Effects,
                     ghost s: Reading)
    returns (ghost s': Reading)
    requires gc.Valid() && gc.TableIsZero() && WellNamed(d) && i < |d.entries| && IsScanned(d.entries[i])
    requires s == ReadingOf(gc.po, fraction, d, i) && gc.done == Then(before, s.effects)
    requires IsTableOf(t, s.(fileCnt := s.fileCnt + 1))
    requires t.files as object != gc.table && t.files as object != gc.totalTable
    modifies gc`bytesTotal, gc`bytesCollected, gc`done, gc.table, gc.totalTable, t, t.files
    ensures gc.Valid() && gc.TableIsZero()
    ensures s' == EntryRead(gc.po, fraction, d.path, s, d.entries[i]) && IsTableOf(t, s')
      && gc.done == Then(before, s'.effects)
    ensures gc.bytesTotal == old(gc.bytesTotal) + SumItems(ScannedEntry(d.path, d.entries[i]))
    ensures Surplus(gc) == old(Surplus(gc))
    decreases d, 0, 1
  {
    hide ReadingOf, DirRead, WithNode, Select, WellNamed, Then;
    var e := d.entries[i];
    s' := s.(fileCnt := s.fileCnt + 1);
    if e.SubDir? {
      ghost var o := ReadSubDir(gc, t, d, i, fraction, before, s);
      s' := SubDirRead(s', e.dir.path, o);
    } else if e.Regular? {
      s' := ReadRegular(gc, t, d, i, fraction, before, s);
    }
  }

  lemma RegularBytes(path: string, e: FsEntry)
    requires e.Regular?
    ensures SumItems(ScannedEntry(path, e)) == if e.role.Plain? then e.size else 0
  {
    var it := Item(path, e.name, e.size);
    assert ScannedEntry(path, e) == if e.role.Plain? then [it] else [];
    assert [it][1..] == [] && SumItems([it]) == Size(it) + SumItems([]);
  }

  /** A lock file, which goes if it is too old, or a cached file, which comes into the table. */
  method ReadRegular(gc: Collector, t: DirTable, d: FsDir, i: nat, fraction: real, ghost before: Effects,
                     ghost s: Reading)
    returns (ghost s': Reading)
    requires gc.Valid() && WellNamed(d) && i < |d.entries| && IsScanned(d.entries[i]) && d.entries[i].Regular?
    requires s == ReadingOf(gc.po, fraction, d, i) && gc.done == Then(before, s.effects)
    requires IsTableOf(t, s.(fileCnt := s.fileCnt + 1))
    modifies gc`bytesTotal, gc`done, t, t.files
    ensures gc.Valid() && Surplus(gc) == old(Surplus(gc))
    ensures s' == EntryAfter(gc.po, d.path, s, d.entries[i], Outcome(NoEffects, NoDirectory))
    ensures IsTableOf(t, s') && gc.done == Then(before, s'.effects)
    ensures gc.bytesTotal == old(gc.bytesTotal) + SumItems(ScannedEntry(d.path, d.entries[i]))
  {
    hide ReadingOf, DirRead, WithNode, Select, WellNamed, Then, DealtWith, Weighed;
    var e := d.entries[i];
    RegularBytes(d.path, e);
    var lockfile := e.role.LockFile?;
    s' := s.(fileCnt := s.fileCnt + 1);
    if lockfile {
      if gc.po.curTime - e.mtime > gc.po.lockTimeout {
        RemoveLock(gc, d.path + "/" + e.name);
        ThenIsAssociative(before, s.effects, LockRemoved(d.path, e));
        t.fileCnt := t.fileCnt - 1;
        s' := s.(effects := Then(s.effects, LockRemoved(d.path, e)));
      }
    } else {
      ReadFile(gc, t, d, i, fraction);
      s' := s'.(chains := WithNode(s.chains, NodeOf(e)), nodeCnt := s.nodeCnt + 1);
    }
  }

  method RemoveLock(gc: Collector, path: string)
    requires gc.Valid()
    modifies gc`done
    ensures gc.Valid() && gc.done == Then(old(gc.done), NoEffects.(locks := [path]))
    ensures Surplus(gc) == old(Surplus(gc))
  {
    assert gc.done.unlinked + [] == gc.done.unlinked;
    gc.done := gc.done.(locks := gc.done.locks + [path]);
  }

  method ReadFile(gc: Collector, t: DirTable, d: FsDir, i: nat, fraction: real)
    requires gc.Valid() && WellNamed(d) && i < |d.entries| && IsCachedFile(d.entries[i])
    requires t.Valid() && t.files[..] == ReadingOf(gc.po, fraction, d, i).chains
    modifies gc`bytesTotal, t`totalNodeCnt, t.files
    ensures t.Valid() && t.totalNodeCnt == old(t.totalNodeCnt) + 1
    ensures t.files[..] == WithNode(old(t.files[..]), NodeOf(d.entries[i]))
    ensures gc.bytesTotal == old(gc.bytesTotal) + SumItems(ScannedEntry(d.path, d.entries[i]))
  {
    var e := d.entries[i];
    ReadingSound(gc.po, fraction, d, i);
    NameIsNew(gc.po, t.Nodes(), d, i);
    SelectOfOne(d.path, NodeOf(e), Any);
    var _ := t.AddFile(e.name, e.size, e.mtime, e.atime);
    gc.bytesTotal := gc.bytesTotal + e.size;
  }

  method ReadSubDir(gc: Collector, t: DirTable, d: FsDir, i: nat, fraction: real, ghost before: Effects,
                    ghost s: Reading)
    returns (ghost o: Outcome)
    requires gc.Valid() && gc.TableIsZero() && WellNamed(d) && i < |d.entries| && d.entries[i].SubDir?
    requires s == ReadingOf(gc.po, fraction, d, i) && gc.done == Then(before, s.effects)
    requires t.Valid() && t.files[..] == s.chains && t.totalNodeCnt == s.nodeCnt
    requires t.files as object != gc.table && t.files as object != gc.totalTable
    modifies gc`bytesTotal, gc`bytesCollected, gc`done, gc.table, gc.totalTable, t`totalNodeCnt, t.files
    ensures gc.Valid() && gc.TableIsZero() && t.Valid()
    ensures o == DirRead(gc.po, fraction, d.entries[i].dir, false)
    ensures var s' := SubDirRead(s, d.entries[i].dir.path, o);
      t.files[..] == s'.chains && t.totalNodeCnt == s'.nodeCnt && gc.done == Then(before, s'.effects)
    ensures gc.bytesTotal == old(gc.bytesTotal) + SumItems(ScannedOf(d.entries[i].dir))
    ensures Surplus(gc) == old(Surplus(gc))
    decreases d, 0, 0
  {
    hide ReadingOf, DirRead, WithNode, ScannedOf, Then;
    var sub := d.entries[i].dir;
    var di;
    di, o := ReadDir(gc, sub, false, fraction);
    ThenIsAssociative(before, s.effects, o.effects);
    if di.Directory? {
      ReadingSound(gc.po, fraction, d, i);
      NameIsNew(gc.po, t.Nodes(), d, i);
      var _ := t.AddDir(sub.path, di);
    }
  }

  /** Read a directory, and collect at once if asked to or if there is too much in memory. */
  method ReadDir(gc: Collector, d: FsDir, doCollect: bool, fraction: real) returns (r: Directory, ghost o: Outcome)
    requires gc.Valid() && gc.TableIsZero() && WellNamed(d)
    modifies gc`bytesTotal, gc`bytesCollected, gc`done, gc.table, gc.totalTable
    ensures gc.Valid() && gc.TableIsZero()
    ensures o == DirRead(gc.po, fraction, d, doCollect) && r == o.dir
    ensures gc.done == Then(old(gc.done), o.effects)
    ensures gc.bytesTotal == old(gc.bytesTotal) + SumItems(ScannedOf(d))
    ensures Surplus(gc) == old(Surplus(gc))
    decreases d, 1
  {
    hide ReadingOf, PassEffects, MergeAll, WellNamed;
    o := DirRead(gc.po, fraction, d, doCollect);
    ThenIsAssociative(gc.done, NoEffects, NoEffects);
    if !d.readable {
      return NoDirectory, o;
    }
    ghost var s := ReadingOf(gc.po, fraction, d, |d.entries|);
    var t, cifExists := ReadEntries(gc, d, fraction);
    if cifExists {
      t.ReadInfo(d.info);
    }
    r := Directory(d.path, t.fileCnt, t.totalNodeCnt, Flat(t.files[..]), d.logOpens);
    if doCollect || t.totalNodeCnt >= gc.po.memLimit {
      FinishDir(gc, r, fraction, old(gc.done), s.effects);
      r := NoDirectory;
    }
  }

  method FinishDir(gc: Collector, d: Directory, fraction: real, ghost before: Effects, ghost e: Effects)
    requires gc.Valid() && gc.TableIsZero() && d.Directory? && gc.done == Then(before, e)
    modifies gc`bytesCollected, gc`done, gc.table, gc.totalTable
    ensures gc.Valid() && gc.TableIsZero()
    ensures gc.done == Then(before, Then(e, PassEffects(gc.po, d, fraction)))
    ensures Surplus(gc) == old(Surplus(gc))
  {
    hide PassEffects, Then, DealtWith, Weighed, Pending;
    ThenIsAssociative(before, e, PassEffects(gc.po, d, fraction));
    ThenAdds(gc.done, PassEffects(gc.po, d, fraction), Size);
    PassDealsWithAll(gc.po, d, fraction, Size);
    RunPass(gc, d, fraction);
  }

  // ---- The whole run ----

  /** The fraction to collect brings the cache down to nine tenths of its limit. */
  function GcFraction(usage: int, maxK: int): (f: real)
    ensures 0.0 <= f <= 1.0
    ensures maxK > 0 && usage > 0 ==>
      var left := usage as real - f * usage as real;
      left <= 0.9 * maxK as real && (f > 0.0 ==> left == 0.9 * maxK as real)
    ensures maxK <= 0 || usage <= 0 ==> f == 0.0
  {
    if maxK <= 0 || usage <= 0 then 0.0
    else
      var f := (usage as real - 0.9 * maxK as real) / usage as real;
      assert f * usage as real == usage as real - 0.9 * maxK as real;
      if f < 0.0 then 0.0 else f
  }

  /** The policy for caches whose expired files cannot be revalidated. */
  function DropExpired(po: Policy): Policy { po.(keepExpired := false) }

  function GcEffects(po: Policy, fraction: real, http: FsDir, ftp: FsDir, gopher: FsDir): Effects {
    Then(Then(DirRead(po, fraction, http, true).effects, DirRead(DropExpired(po), fraction, ftp, true).effects),
         DirRead(DropExpired(po), fraction, gopher, true).effects)
  }

  function AllScanned(http: FsDir, ftp: FsDir, gopher: FsDir): seq<Item> {
    ScannedOf(http) + ScannedOf(ftp) + ScannedOf(gopher)
  }

  lemma CollectedDirConserves(po: Policy, fraction: real, d: FsDir, w: Weight)
    requires WellNamed(d)
    ensures DealtWith(DirRead(po, fraction, d, true).effects, w) == Weighed(ScannedOf(d), w)
  {
    DirConserves(po, fraction, d, true, w);
  }

  lemma RunConserves(po: Policy, fraction: real, http: FsDir, ftp: FsDir, gopher: FsDir, w: Weight)
    requires WellNamed(http) && WellNamed(ftp) && WellNamed(gopher)
    ensures DealtWith(GcEffects(po, fraction, http, ftp, gopher), w) == Weighed(AllScanned(http, ftp, gopher), w)
  {
    var a := DirRead(po, fraction, http, true).effects;
    var b := DirRead(DropExpired(po), fraction, ftp, true).effects;
    var c := DirRead(DropExpired(po), fraction, gopher, true).effects;
    CollectedDirConserves(po, fraction, http, w);
    CollectedDirConserves(DropExpired(po), fraction, ftp, w);
    CollectedDirConserves(DropExpired(po), fraction, gopher, w);
    ThenAdds(a, b, w);
    ThenAdds(Then(a, b), c, w);
    WeighedAppend(ScannedOf(http), ScannedOf(ftp), w);
    WeighedAppend(ScannedOf(http) + ScannedOf(ftp), ScannedOf(gopher), w);
  }

  lemma SameCounts(a: seq<Item>, b: seq<Item>, c: seq<Item>, all: seq<Item>)
    requires forall it :: Weighed(a, Only(it)) + (Weighed(b, Only(it)) + Weighed(c, Only(it))) == Weighed(all, Only(it))
    ensures multiset(a) + multiset(b) + multiset(c) == multiset(all)
  {
    forall it ensures (multiset(a) + multiset(b) + multiset(c))[it] == multiset(all)[it] {
      CountIsWeight(a, it);
      CountIsWeight(b, it);
      CountIsWeight(c, it);
      CountIsWeight(all, it);
    }
  }

  /**
   Every file found in the cache is unlinked, or recorded in a new log, or stays where no log
   can be written, exactly once; and only old locks are removed.
   */
  lemma NothingIsLostOrCountedTwice(po: Policy, fraction: real, http: FsDir, ftp: FsDir, gopher: FsDir)
    requires WellNamed(http) && WellNamed(ftp) && WellNamed(gopher)
    ensures var e := GcEffects(po, fraction, http, ftp, gopher);
      && multiset(e.unlinked) + multiset(e.recorded) + multiset(e.unlogged) == multiset(AllScanned(http, ftp, gopher))
      && SumItems(e.unlinked) + SumItems(e.recorded) + SumItems(e.unlogged) == SumItems(AllScanned(http, ftp, gopher))
      && e.locks == OldLocks(po, http) + OldLocks(DropExpired(po), ftp) + OldLocks(DropExpired(po), gopher)
  {
    var e, all := GcEffects(po, fraction, http, ftp, gopher), AllScanned(http, ftp, gopher);
    forall it
      ensures Weighed(e.unlinked, Only(it)) + (Weighed(e.recorded, Only(it)) + Weighed(e.unlogged, Only(it)))
        == Weighed(all, Only(it))
    {
      RunConserves(po, fraction, http, ftp, gopher, Only(it));
    }
    SameCounts(e.unlinked, e.recorded, e.unlogged, all);
    RunConserves(po, fraction, http, ftp, gopher, Size);
    OldLocksAreRemoved(po, fraction, http, true);
    OldLocksAreRemoved(DropExpired(po), fraction, ftp, true);
    OldLocksAreRemoved(DropExpired(po), fraction, gopher, true);
  }

  /** Nothing is left of the directory at `path`, which is in one of the three caches. */
  ghost predicate EmptiedInCache(po: Policy, http: FsDir, ftp: FsDir, gopher: FsDir, path: string,
                                 unlinked: seq<Item>)
  {
    || Emptied(po, http, path, unlinked)
    || Emptied(DropExpired(po), ftp, path, unlinked)
    || Emptied(DropExpired(po), gopher, path, unlinked)
  }

  /** A run removes a directory only if every counted entry found in it was unlinked. */
  lemma OnlyEmptyDirectoriesAreRemoved(po: Policy, fraction: real, http: FsDir, ftp: FsDir, gopher: FsDir)
    requires WellNamed(http) && WellNamed(ftp) && WellNamed(gopher)
    ensures var e := GcEffects(po, fraction, http, ftp, gopher);
      forall path :: path in e.rmdirs ==> EmptiedInCache(po, http, ftp, gopher, path, e.unlinked)
  {
    var e := GcEffects(po, fraction, http, ftp, gopher);
    DirRemovesOnlyEmpty(po, fraction, http, true);
    DirRemovesOnlyEmpty(DropExpired(po), fraction, ftp, true);
    DirRemovesOnlyEmpty(DropExpired(po), fraction, gopher, true);
    var a := DirRead(po, fraction, http, true).effects;
    var b := DirRead(DropExpired(po), fraction, ftp, true).effects;
    var c := DirRead(DropExpired(po), fraction, gopher, true).effects;
    forall path | path in e.rmdirs ensures EmptiedInCache(po, http, ftp, gopher, path, e.unlinked) {
      if path in a.rmdirs {
        EmptiedLater(po, http, path, a.unlinked, e.unlinked);
      } else if path in b.rmdirs {
        EmptiedLater(DropExpired(po), ftp, path, b.unlinked, e.unlinked);
      } else {
        EmptiedLater(DropExpired(po), gopher, path, c.unlinked, e.unlinked);
      }
    }
  }

  lemma RunAddsUp(po: Policy, fraction: real, http: FsDir, ftp: FsDir, gopher: FsDir)
    requires WellNamed(http) && WellNamed(ftp) && WellNamed(gopher)
    ensures SumItems(AllScanned(http, ftp, gopher)) ==
      SumItems(ScannedOf(http)) + SumItems(ScannedOf(ftp)) + SumItems(ScannedOf(gopher))
    ensures DealtWith(GcEffects(po, fraction, http, ftp, gopher), Size) == SumItems(AllScanned(http, ftp, gopher))
  {
    RunConserves(po, fraction, http, ftp, gopher, Size);
    WeighedAppend(ScannedOf(http), ScannedOf(ftp), Size);
    WeighedAppend(ScannedOf(http) + ScannedOf(ftp), ScannedOf(gopher), Size);
  }

  /** Collect one cache. */
  method CollectCache(gc: Collector, d: FsDir, fraction: real) returns (ghost e: Effects)
    requires gc.Valid() && gc.TableIsZero() && WellNamed(d)
    modifies gc`bytesTotal, gc`bytesCollected, gc`done, gc.table, gc.totalTable
    ensures gc.Valid() && gc.TableIsZero()
    ensures e == DirRead(gc.po, fraction, d, true).effects && gc.done == Then(old(gc.done), e)
    ensures gc.bytesTotal == old(gc.bytesTotal) + SumItems(ScannedOf(d))
    ensures Sum(gc.totalTable[..]) == old(Sum(gc.totalTable[..])) + SumItems(ScannedOf(d))
  {
    var _, o := ReadDir(gc, d, true, fraction);
    e := o.effects;
    CollectedDirConserves(gc.po, fraction, d, Size);
    ThenAdds(old(gc.done), e, Size);
  }

  /** Expired files are kept only where they can be revalidated; the setting is restored at the end. */
  method Gc(gc: Collector, http: FsDir, ftp: FsDir, gopher: FsDir, usage: int, maxK: int)
    requires gc.Valid() && gc.TableIsZero() && gc.done == NoEffects && gc.bytesTotal == Sum(gc.totalTable[..]) == 0
    requires WellNamed(http) && WellNamed(ftp) && WellNamed(gopher)
    modifies gc, gc.table, gc.totalTable
    ensures gc.Valid() && gc.TableIsZero() && gc.po == old(gc.po)
    ensures gc.done == GcEffects(gc.po, GcFraction(usage, maxK), http, ftp, gopher)
    ensures gc.bytesTotal == SumItems(AllScanned(http, ftp, gopher)) == Sum(gc.totalTable[..])
    ensures gc.bytesTotal == gc.bytesCollected + Staying(gc.done, Size)
  {
    hide DirRead, ScannedOf, Then, GcFraction, Staying;
    var fraction := GcFraction(usage, maxK);
    var keepExpired := gc.po.keepExpired;
    ghost var e := CollectCache(gc, http, fraction);
    ThenIsAssociative(e, NoEffects, NoEffects);
    gc.po := gc.po.(keepExpired := false);
    ghost var e' := CollectCache(gc, ftp, fraction);
    ghost var e'' := CollectCache(gc, gopher, fraction);
    gc.po := gc.po.(keepExpired := keepExpired);
    assert gc.done == GcEffects(gc.po, fraction, http, ftp, gopher);
    assert gc.bytesTotal == Sum(gc.totalTable[..]) ==
      SumItems(ScannedOf(http)) + SumItems(ScannedOf(ftp)) + SumItems(ScannedOf(gopher));
    RunAddsUp(gc.po, fraction, http, ftp, gopher);
  }
}
