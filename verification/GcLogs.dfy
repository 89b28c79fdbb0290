/**
 The info logs that a run of the garbage collector writes: which files they record, which
 directories they are of, and what is read from them afterwards.
 */
module GcLogs {
  import opened Text
  import opened GarbageCollector
  import opened GcBuckets
  import opened GcRun
  import Info = CacheInfo

  // ---- The entries of the new logs are the files recorded ----

  const NO_ITEMS: seq<Item> := []

  /** The directory and the name of a file. */
  function Named(it: Item): Item { it.(bytes := 0) }

  function NamedAll(items: seq<Item>): seq<Item> {
    if items == [] then [] else [Named(items[0])] + NamedAll(items[1..])
  }

  /** The directory and the name that each record of a log stands for. */
  function Entries(dir: string, log: seq<Info.Record>): seq<Item> {
    if log == [] then [] else [Item(dir, log[0].name, 0)] + Entries(dir, log[1..])
  }

  function LogEntries(logs: seq<(string, seq<Info.Record>)>): seq<Item> {
    if logs == [] then [] else Entries(logs[0].0, logs[0].1) + LogEntries(logs[1..])
  }

  lemma {:induction false} NamedAppend(a: seq<Item>, b: seq<Item>)
    ensures NamedAll(a + b) == NamedAll(a) + NamedAll(b)
  {
    if a == [] {
      assert a + b == b;
    } else {
      assert (a + b)[1..] == a[1..] + b;
      NamedAppend(a[1..], b);
    }
  }

  lemma {:induction false} LogEntriesAppend(a: seq<(string, seq<Info.Record>)>, b: seq<(string, seq<Info.Record>)>)
    ensures LogEntries(a + b) == LogEntries(a) + LogEntries(b)
  {
    if a == [] {
      assert a + b == b;
    } else {
      assert (a + b)[1..] == a[1..] + b;
      LogEntriesAppend(a[1..], b);
    }
  }

  /** By any weight the logs hold what has been recorded, but for a log that is still being written. */
  ghost predicate Logged(e: Effects, open: seq<Item>, w: Weight) {
    Weighed(LogEntries(e.logs), w) + Weighed(open, w) == Weighed(NamedAll(e.recorded), w)
  }

  lemma LoggedThen(a: Effects, x: seq<Item>, b: Effects, y: seq<Item>, w: Weight)
    requires Logged(a, x, w) && Logged(b, y, w)
    ensures Logged(Then(a, b), x + y, w)
  {
    LogEntriesAppend(a.logs, b.logs);
    NamedAppend(a.recorded, b.recorded);
    WeighedAppend(LogEntries(a.logs), LogEntries(b.logs), w);
    WeighedAppend(NamedAll(a.recorded), NamedAll(b.recorded), w);
    WeighedAppend(x, y, w);
  }

  /** No directory in memory has more files than entries were counted in it. */
  ghost predicate FilesAreCounted(nodes: seq<Node>)
    decreases nodes
  {
    nodes == [] || (
      && (nodes[0].directory.Directory? ==>
            nodes[0].directory.fileCnt >= OwnFiles(nodes[0].directory.nodes)
              && FilesAreCounted(nodes[0].directory.nodes))
      && FilesAreCounted(nodes[1..]))
  }

  /** What is open of the log of a directory. */
  function OpenLog(dir: string, nodes: seq<Node>, threshold: real, cif: bool): seq<Item> {
    if cif then Entries(dir, NewLog(nodes, threshold)) else []
  }

  lemma EntriesOfOne(dir: string, n: Node)
    ensures Entries(dir, [RecordOf(n)]) == [Item(dir, n.filename, 0)]
  {
    assert [RecordOf(n)][1..] == [];
  }

  lemma {:induction false} EntriesAppend(dir: string, a: seq<Info.Record>, b: seq<Info.Record>)
    ensures Entries(dir, a + b) == Entries(dir, a) + Entries(dir, b)
  {
    if a == [] {
      assert a + b == b;
    } else {
      assert (a + b)[1..] == a[1..] + b;
      EntriesAppend(dir, a[1..], b);
    }
  }

  lemma OpenLogOneMore(dir: string, nodes: seq<Node>, threshold: real, cif: bool)
    requires nodes != []
    ensures OpenLog(dir, nodes, threshold, cif) ==
      OpenLog(dir, [nodes[0]], threshold, cif) + OpenLog(dir, nodes[1..], threshold, cif)
  {
    assert nodes == [nodes[0]] + nodes[1..];
    NewLogAppend([nodes[0]], nodes[1..], threshold);
    EntriesAppend(dir, NewLog([nodes[0]], threshold), NewLog(nodes[1..], threshold));
  }

  /** A file that stays is recorded and entered at the same time. */
  lemma FileIsLogged(dir: string, n: Node, threshold: real, cif: bool, w: Weight)
    requires n.directory.NoDirectory?
    ensures Logged(EffectsOfNode(dir, n, threshold, cif), OpenLog(dir, [n], threshold, cif), w)
  {
    var item := Item(dir, n.filename, n.bytes);
    assert [n][1..] == [] && [item][1..] == [];
    EntriesOfOne(dir, n);
    assert NewLog([n], threshold) == if n.value >= threshold then [RecordOf(n)] else [];
    assert NamedAll([item]) == [Named(item)];
  }

  lemma {:induction false} NodesAreLogged(dir: string, nodes: seq<Node>, threshold: real, cif: bool, w: Weight)
    requires FilesAreCounted(nodes)
    ensures Logged(EffectsOfNodes(dir, nodes, threshold, cif), OpenLog(dir, nodes, threshold, cif), w)
    decreases nodes, 0
  {
    if nodes == [] {
    } else {
      var n := nodes[0];
      if n.directory.Directory? {
        DirIsLogged(n.directory, threshold, w);
        assert [n][1..] == [] && NewLog([n], threshold) == [];
      } else {
        FileIsLogged(dir, n, threshold, cif, w);
      }
      NodesAreLogged(dir, nodes[1..], threshold, cif, w);
      OpenLogOneMore(dir, nodes, threshold, cif);
      hide Logged, OpenLog;
      LoggedThen(EffectsOfNode(dir, n, threshold, cif), OpenLog(dir, [n], threshold, cif),
                 EffectsOfNodes(dir, nodes[1..], threshold, cif), OpenLog(dir, nodes[1..], threshold, cif), w);
    }
  }

  /** At the end of a directory its log is written; if the directory goes instead, there was nothing in it. */
  lemma {:induction false} DirIsLogged(d: Directory, threshold: real, w: Weight)
    requires d.Directory? && d.fileCnt >= OwnFiles(d.nodes) && FilesAreCounted(d.nodes)
    ensures Logged(EffectsOf(d, threshold), [], w)
    decreases d.nodes, 1
  {
    NodesAreLogged(d.dirname, d.nodes, threshold, d.logOpens, w);
    OwnFilesAreRemovedOrLogged(d.nodes, threshold);
    EndIsLogged(d, threshold, EffectsOfNodes(d.dirname, d.nodes, threshold, d.logOpens), w);
  }

  lemma EndIsLogged(d: Directory, threshold: real, e: Effects, w: Weight)
    requires d.Directory? && Logged(e, OpenLog(d.dirname, d.nodes, threshold, d.logOpens), w)
    requires IsEmptied(d, threshold) ==> NewLog(d.nodes, threshold) == []
    ensures Logged(Then(e, EndOf(d, threshold)), [], w)
  {
    var log := NewLog(d.nodes, threshold);
    ThenIsAssociative(e, NoEffects, NoEffects);
    if d.logOpens && !IsEmptied(d, threshold) {
      LogEntriesAppend(e.logs, [(d.dirname, log)]);
      OneLog(d.dirname, log);
      WeighedAppend(LogEntries(e.logs), Entries(d.dirname, log), w);
      assert e.recorded + [] == e.recorded;
    } else {
      assert e.logs + [] == e.logs && e.recorded + [] == e.recorded;
    }
  }

  lemma OneLog(dir: string, log: seq<Info.Record>)
    ensures LogEntries([(dir, log)]) == Entries(dir, log)
  {
    assert [(dir, log)][1..] == [];
    assert Entries(dir, log) + [] == Entries(dir, log);
  }

  /** A directory read from the disk has counted at least its files. */
  lemma {:induction false} ImageIsCounted(po: Policy, r: Directory, d: FsDir)
    requires Image(po, r, d)
    ensures r.fileCnt >= OwnFiles(r.nodes) && FilesAreCounted(r.nodes)
    decreases d, 1, 0
  {
    NodeImagesAreCounted(po, r.nodes, d);
  }

  lemma {:induction false} NodeImagesAreCounted(po: Policy, nodes: seq<Node>, d: FsDir)
    requires forall n :: n in nodes ==> NodeImage(po, n, d, |d.entries|)
    ensures FilesAreCounted(nodes)
    decreases d, 0, |nodes|
  {
    if nodes == [] {
    } else {
      var n := nodes[0];
      assert NodeImage(po, n, d, |d.entries|);
      if n.directory.Directory? {
        var j :| 0 <= j < |d.entries| && d.entries[j].SubDir? && Image(po, n.directory, d.entries[j].dir);
        ImageIsCounted(po, n.directory, d.entries[j].dir);
      }
      NodeImagesAreCounted(po, nodes[1..], d);
    }
  }

  /** The threshold of a pass. */
  function PassThreshold(po: Policy, d: Directory, fraction: real): real
    requires d.Directory?
  {
    Threshold(Cutoff(SumReal(fraction, SumItems(Pending(d))), BucketTable(d.dirname, EvaluatedNodes(po, d.nodes)), 1))
  }

  lemma PassIsLogged(po: Policy, r: Directory, d: FsDir, fraction: real, w: Weight)
    requires Image(po, r, d)
    ensures Logged(PassEffects(po, r, fraction), [], w)
  {
    var e := r.(nodes := EvaluatedNodes(po, r.nodes));
    EvaluatedIsImage(po, r, d);
    ImageIsCounted(po, e, d);
    DirIsLogged(e, PassThreshold(po, r, fraction), w);
  }

  lemma {:induction false} ReadingIsLogged(po: Policy, fraction: real, d: FsDir, i: nat, w: Weight)
    requires WellNamed(d) && i <= |d.entries|
    ensures Logged(ReadingOf(po, fraction, d, i).effects, [], w)
    decreases d, 0, i
  {
    if i == 0 {
    } else {
      var s, e := ReadingOf(po, fraction, d, i - 1), d.entries[i - 1];
      ReadingIsLogged(po, fraction, d, i - 1, w);
      var o := Outcome(NoEffects, NoDirectory);
      if IsScanned(e) && e.SubDir? {
        DirReadIsLogged(po, fraction, e.dir, false, w);
        o := DirRead(po, fraction, e.dir, false);
      }
      EntryIsLogged(po, d.path, s, e, o, w);
    }
  }

  lemma EntryIsLogged(po: Policy, path: string, s: Reading, e: FsEntry, o: Outcome, w: Weight)
    requires |s.chains| == HASH_SIZE && Logged(s.effects, [], w) && Logged(o.effects, [], w)
    ensures Logged(EntryAfter(po, path, s, e, o).effects, [], w)
  {
    assert Logged(LockRemoved(path, e), [], w);
    hide Logged;
    assert NO_ITEMS + NO_ITEMS == NO_ITEMS;
    LoggedThen(s.effects, [], LockRemoved(path, e), [], w);
    LoggedThen(s.effects, [], o.effects, [], w);
  }

  lemma {:induction false} DirReadIsLogged(po: Policy, fraction: real, d: FsDir, doCollect: bool, w: Weight)
    requires WellNamed(d)
    ensures Logged(DirRead(po, fraction, d, doCollect).effects, [], w)
    decreases d, 1
  {
    if !d.readable {
    } else {
      var s := ReadingOf(po, fraction, d, |d.entries|);
      ReadingIsLogged(po, fraction, d, |d.entries|, w);
      ReadingSound(po, fraction, d, |d.entries|);
      LogReadIsImage(po, d, s);
      PassIsLogged(po, LogRead(d, s), d, fraction, w);
      hide Logged, PassEffects;
      assert NO_ITEMS + NO_ITEMS == NO_ITEMS;
      LoggedThen(s.effects, [], PassEffects(po, LogRead(d, s), fraction), [], w);
    }
  }

  lemma RunIsLogged(po: Policy, fraction: real, http: FsDir, ftp: FsDir, gopher: FsDir, w: Weight)
    requires WellNamed(http) && WellNamed(ftp) && WellNamed(gopher)
    ensures Logged(GcEffects(po, fraction, http, ftp, gopher), [], w)
  {
    var a := DirRead(po, fraction, http, true).effects;
    var b := DirRead(DropExpired(po), fraction, ftp, true).effects;
    var c := DirRead(DropExpired(po), fraction, gopher, true).effects;
    DirReadIsLogged(po, fraction, http, true, w);
    DirReadIsLogged(DropExpired(po), fraction, ftp, true, w);
    DirReadIsLogged(DropExpired(po), fraction, gopher, true, w);
    hide Logged, DirRead;
    assert NO_ITEMS + NO_ITEMS == NO_ITEMS;
    LoggedThen(a, [], b, [], w);
    LoggedThen(Then(a, b), [], c, [], w);
  }

  /**
   Over a whole run the records in the new logs are exactly the files that are counted as
   recorded: the same directories and names, as often.
   */
  lemma LogsHoldWhatIsRecorded(po: Policy, fraction: real, http: FsDir, ftp: FsDir, gopher: FsDir)
    requires WellNamed(http) && WellNamed(ftp) && WellNamed(gopher)
    ensures var e := GcEffects(po, fraction, http, ftp, gopher);
      multiset(LogEntries(e.logs)) == multiset(NamedAll(e.recorded))
  {
    var e := GcEffects(po, fraction, http, ftp, gopher);
    var a, b := LogEntries(e.logs), NamedAll(e.recorded);
    forall it ensures multiset(a)[it] == multiset(b)[it] {
      RunIsLogged(po, fraction, http, ftp, gopher, Only(it));
      CountIsWeight(a, it);
      CountIsWeight(b, it);
    }
  }

  // ---- Every new log is that of a directory as it was read ----

  /** A directory in memory is what was read from d. */
  ghost predicate FromDisk(po: Policy, fraction: real, r: Directory, d: FsDir) {
    d.readable && r == LogRead(d, ReadingOf(po, fraction, d, |d.entries|))
  }

  /** The subdirectories among the nodes were read from the first i entries of d. */
  ghost predicate DirsFrom(po: Policy, fraction: real, nodes: seq<Node>, d: FsDir, i: nat)
    requires i <= |d.entries|
  {
    forall n :: n in nodes && n.directory.Directory? ==> DirFrom(po, fraction, n, d, i)
  }

  ghost predicate DirFrom(po: Policy, fraction: real, n: Node, d: FsDir, i: nat)
    requires i <= |d.entries|
  {
    exists j :: 0 <= j < i && d.entries[j].SubDir? && FromDisk(po, fraction, n.directory, d.entries[j].dir)
  }

  lemma NodesOfTable(chains: seq<seq<Node>>, n: Node, m: Node)
    requires |chains| == HASH_SIZE && m in Flat(WithNode(chains, n))
    ensures m == n || m in Flat(chains)
  {
    InFlat(WithNode(chains, n), m);
    InFlat(chains, m);
    var h :| 0 <= h < |chains| && m in WithNode(chains, n)[h];
    assert m == n || m in chains[h];
  }

  lemma DirsFromLater(po: Policy, fraction: real, nodes: seq<Node>, d: FsDir, i: nat)
    requires i < |d.entries| && DirsFrom(po, fraction, nodes, d, i)
    ensures DirsFrom(po, fraction, nodes, d, i + 1)
  {
    forall n | n in nodes && n.directory.Directory? ensures DirFrom(po, fraction, n, d, i + 1) {
      assert DirFrom(po, fraction, n, d, i);
    }
  }

  lemma DirsFromWith(po: Policy, fraction: real, chains: seq<seq<Node>>, n: Node, d: FsDir, i: nat)
    requires i <= |d.entries| && |chains| == HASH_SIZE && DirsFrom(po, fraction, Flat(chains), d, i)
    requires n.directory.Directory? ==> DirFrom(po, fraction, n, d, i)
    ensures DirsFrom(po, fraction, Flat(WithNode(chains, n)), d, i)
  {
    forall m | m in Flat(WithNode(chains, n)) && m.directory.Directory? ensures DirFrom(po, fraction, m, d, i) {
      NodesOfTable(chains, n, m);
    }
  }

  lemma {:induction false} TableIsFromDisk(po: Policy, fraction: real, d: FsDir, i: nat)
    requires i <= |d.entries|
    ensures DirsFrom(po, fraction, Flat(ReadingOf(po, fraction, d, i).chains), d, i)
  {
    if i == 0 {
      EmptyTable(ReadingOf(po, fraction, d, 0).chains);
    } else {
      var s, e := ReadingOf(po, fraction, d, i - 1), d.entries[i - 1];
      TableIsFromDisk(po, fraction, d, i - 1);
      DirsFromLater(po, fraction, Flat(s.chains), d, i - 1);
      if IsScanned(e) && e.SubDir? {
        SubDirIsFromDisk(po, fraction, s, d, i - 1, DirRead(po, fraction, e.dir, false));
      } else if IsCachedFile(e) {
        DirsFromWith(po, fraction, s.chains, NodeOf(e), d, i);
      }
    }
  }

  lemma SubDirIsFromDisk(po: Policy, fraction: real, s: Reading, d: FsDir, i: nat, o: Outcome)
    requires i < |d.entries| && d.entries[i].SubDir? && |s.chains| == HASH_SIZE
    requires DirsFrom(po, fraction, Flat(s.chains), d, i + 1)
    requires o == DirRead(po, fraction, d.entries[i].dir, false)
    ensures DirsFrom(po, fraction, Flat(SubDirRead(s, d.entries[i].dir.path, o).chains), d, i + 1)
  {
    if o.dir.Directory? {
      var n := DirNode(d.entries[i].dir.path, o.dir);
      assert FromDisk(po, fraction, n.directory, d.entries[i].dir);
      assert DirFrom(po, fraction, n, d, i + 1);
      DirsFromWith(po, fraction, s.chains, n, d, i + 1);
    }
  }

  lemma LogReadIsFromDisk(po: Policy, fraction: real, r: Directory, d: FsDir)
    requires FromDisk(po, fraction, r, d)
    ensures DirsFrom(po, fraction, r.nodes, d, |d.entries|)
  {
    var nodes, recs := Flat(ReadingOf(po, fraction, d, |d.entries|).chains), Info.Records(d.info);
    TableIsFromDisk(po, fraction, d, |d.entries|);
    MergeAllIsPointwise(nodes, recs);
    hide MergeAll, Flat, ReadingOf, FromDisk;
    forall n | n in r.nodes && n.directory.Directory? ensures DirFrom(po, fraction, n, d, |d.entries|) {
      var i :| 0 <= i < |r.nodes| && r.nodes[i] == n;
      MergedByKeepsName(nodes[i], recs);
      assert nodes[i] in nodes && DirFrom(po, fraction, nodes[i], d, |d.entries|);
    }
  }

  /** The log that compaction makes for a directory. */
  function Compacted(po: Policy, fraction: real, s: FsDir, threshold: real): seq<Info.Record> {
    NewLog(EvaluatedNodes(po, LogRead(s, ReadingOf(po, fraction, s, |s.entries|)).nodes), threshold)
  }

  ghost predicate IsCompacted(po: Policy, fraction: real, s: FsDir, log: seq<Info.Record>) {
    s.readable && s.logOpens && exists t :: log == Compacted(po, fraction, s, t)
  }

  /** The log is written for a directory below d, and is the compaction of its old one. */
  ghost predicate LogOf(po: Policy, fraction: real, d: FsDir, path: string, log: seq<Info.Record>) {
    exists s :: IsBelow(s, d) && s.path == path && IsCompacted(po, fraction, s, log)
  }

  ghost predicate LogsFrom(po: Policy, fraction: real, d: FsDir, logs: seq<(string, seq<Info.Record>)>) {
    forall l :: l in logs ==> LogOf(po, fraction, d, l.0, l.1)
  }

  lemma LogsBelow(po: Policy, fraction: real, d: FsDir, j: nat, logs: seq<(string, seq<Info.Record>)>)
    requires j < |d.entries| && d.entries[j].SubDir? && LogsFrom(po, fraction, d.entries[j].dir, logs)
    ensures LogsFrom(po, fraction, d, logs)
  {
    forall l | l in logs ensures LogOf(po, fraction, d, l.0, l.1) {
      var s :| IsBelow(s, d.entries[j].dir) && s.path == l.0 && IsCompacted(po, fraction, s, l.1);
      assert IsBelow(s, d);
    }
  }

  lemma {:induction false} CollectingCompacts(po: Policy, fraction: real, r: Directory, d: FsDir, t: real)
    requires FromDisk(po, fraction, r, d)
    ensures LogsFrom(po, fraction, d, EffectsOf(r.(nodes := EvaluatedNodes(po, r.nodes)), t).logs)
    decreases d, 1, 0
  {
    var e := r.(nodes := EvaluatedNodes(po, r.nodes));
    LogReadIsFromDisk(po, fraction, r, d);
    NodesCompact(po, fraction, e.dirname, r.nodes, d, t, r.logOpens);
    OwnLogIsCompacted(po, fraction, r, d, t);
  }

  lemma OwnLogIsCompacted(po: Policy, fraction: real, r: Directory, d: FsDir, t: real)
    requires FromDisk(po, fraction, r, d)
    ensures LogsFrom(po, fraction, d, EndOf(r.(nodes := EvaluatedNodes(po, r.nodes)), t).logs)
  {
    if d.logOpens {
      var log := Compacted(po, fraction, d, t);
      assert IsCompacted(po, fraction, d, log) && IsBelow(d, d);
      hide IsCompacted;
      assert LogOf(po, fraction, d, d.path, log);
    }
  }

  lemma {:induction false} NodesCompact(po: Policy, fraction: real, dir: string, nodes: seq<Node>, d: FsDir, t: real,
                                        cif: bool)
    requires DirsFrom(po, fraction, nodes, d, |d.entries|)
    ensures LogsFrom(po, fraction, d, EffectsOfNodes(dir, EvaluatedNodes(po, nodes), t, cif).logs)
    decreases d, 0, |nodes|
  {
    if nodes == [] {
    } else {
      var n, es := nodes[0], EvaluatedNodes(po, nodes);
      assert es[0] == EvaluatedNode(po, n) && es[1..] == EvaluatedNodes(po, nodes[1..]);
      NodesCompact(po, fraction, dir, nodes[1..], d, t, cif);
      if n.directory.Directory? {
        assert DirFrom(po, fraction, n, d, |d.entries|);
        var j :| 0 <= j < |d.entries| && d.entries[j].SubDir? && FromDisk(po, fraction, n.directory, d.entries[j].dir);
        CollectingCompacts(po, fraction, n.directory, d.entries[j].dir, t);
        LogsBelow(po, fraction, d, j, EffectsOfNode(dir, es[0], t, cif).logs);
      } else {
        assert EffectsOfNode(dir, es[0], t, cif).logs == [];
      }
    }
  }

  lemma {:induction false} DirReadCompacts(po: Policy, fraction: real, d: FsDir, doCollect: bool)
    ensures LogsFrom(po, fraction, d, DirRead(po, fraction, d, doCollect).effects.logs)
    decreases d, 1, 0
  {
    if !d.readable {
    } else {
      var s := ReadingOf(po, fraction, d, |d.entries|);
      var r := LogRead(d, s);
      ReadingCompacts(po, fraction, d, |d.entries|);
      assert FromDisk(po, fraction, r, d);
      CollectingCompacts(po, fraction, r, d, PassThreshold(po, r, fraction));
    }
  }

  lemma {:induction false} ReadingCompacts(po: Policy, fraction: real, d: FsDir, i: nat)
    requires i <= |d.entries|
    ensures LogsFrom(po, fraction, d, ReadingOf(po, fraction, d, i).effects.logs)
    decreases d, 0, i
  {
    if i == 0 {
    } else {
      var s, e := ReadingOf(po, fraction, d, i - 1), d.entries[i - 1];
      ReadingCompacts(po, fraction, d, i - 1);
      var o := Outcome(NoEffects, NoDirectory);
      if IsScanned(e) && e.SubDir? {
        o := DirRead(po, fraction, e.dir, false);
        DirReadCompacts(po, fraction, e.dir, false);
        LogsBelow(po, fraction, d, i - 1, o.effects.logs);
      }
      EntryCompacts(po, fraction, d, s, e, o);
    }
  }

  lemma EntryCompacts(po: Policy, fraction: real, d: FsDir, s: Reading, e: FsEntry, o: Outcome)
    requires |s.chains| == HASH_SIZE
    requires LogsFrom(po, fraction, d, s.effects.logs) && LogsFrom(po, fraction, d, o.effects.logs)
    ensures LogsFrom(po, fraction, d, EntryAfter(po, d.path, s, e, o).effects.logs)
  {
    hide LogOf;
  }

  // ---- What is read from the new logs ----

  /**
   The new log of a directory answers as its old one, for every cached file of it that stays
   and whose last record was complete; and so does the text that is written for it.
   */
  ghost predicate AnswersAsBefore(s: FsDir, log: seq<Info.Record>) {
    && OneRecordEach(log)
    && (forall j :: 0 <= j < |s.entries| && IsCachedFile(s.entries[j]) && HasLog(s.entries) ==>
          SameAnswer(Info.Records(s.info), log, s.entries[j].name))
    && ((forall r :: r in log ==> Info.Storable(r)) ==> Info.Records(Info.LogText(log)) == log)
  }

  ghost predicate SameAnswer(before: seq<Info.Record>, after: seq<Info.Record>, name: string) {
    var a, b := Info.Lookup(before, name), Info.Lookup(after, name);
    b.Some? && a.Some? && AllNonzero(a.value) ==> b == a
  }

  lemma CompactedAnswers(po: Policy, fraction: real, s: FsDir, t: real)
    requires WellNamed(s)
    ensures AnswersAsBefore(s, Compacted(po, fraction, s, t))
  {
    var log := Compacted(po, fraction, s, t);
    CompactedHasOneRecordEach(po, fraction, s, t);
    forall j | 0 <= j < |s.entries| && IsCachedFile(s.entries[j]) && HasLog(s.entries)
      ensures SameAnswer(Info.Records(s.info), log, s.entries[j].name)
    {
      RewrittenLogKeepsLookups(po, fraction, s, j, t);
    }
    if forall r :: r in log ==> Info.Storable(r) {
      Info.LogTextIsRead(log);
    }
  }

  lemma CompactedHasOneRecordEach(po: Policy, fraction: real, s: FsDir, t: real)
    requires WellNamed(s)
    ensures OneRecordEach(Compacted(po, fraction, s, t))
  {
    var r := LogRead(s, ReadingOf(po, fraction, s, |s.entries|));
    ReadingSound(po, fraction, s, |s.entries|);
    LogReadIsImage(po, s, ReadingOf(po, fraction, s, |s.entries|));
    EvaluatingKeepsNames(po, r.nodes);
    NewLogHasOneRecordEach(EvaluatedNodes(po, r.nodes), t);
  }

  lemma EvaluatingKeepsNames(po: Policy, nodes: seq<Node>)
    requires DistinctNames(nodes)
    ensures DistinctNames(EvaluatedNodes(po, nodes))
  {
    EvaluatedIsPointwise(po, nodes);
  }

  lemma {:induction false} BelowIsWellNamed(s: FsDir, d: FsDir)
    requires WellNamed(d) && IsBelow(s, d)
    ensures WellNamed(s)
    decreases d
  {
    if s == d {
    } else {
      var j :| 0 <= j < |d.entries| && d.entries[j].SubDir? && IsBelow(s, d.entries[j].dir);
      BelowIsWellNamed(s, d.entries[j].dir);
    }
  }

  /** The log is that of a directory below d, and answers as the one before. */
  ghost predicate GoodLog(d: FsDir, path: string, log: seq<Info.Record>) {
    exists s :: IsBelow(s, d) && s.path == path && s.logOpens && AnswersAsBefore(s, log)
  }

  lemma LogsAreGood(po: Policy, fraction: real, d: FsDir)
    requires WellNamed(d)
    ensures forall l :: l in DirRead(po, fraction, d, true).effects.logs ==> GoodLog(d, l.0, l.1)
  {
    DirReadCompacts(po, fraction, d, true);
    forall l | l in DirRead(po, fraction, d, true).effects.logs ensures GoodLog(d, l.0, l.1) {
      assert LogOf(po, fraction, d, l.0, l.1);
      var s :| IsBelow(s, d) && s.path == l.0 && IsCompacted(po, fraction, s, l.1);
      var t :| l.1 == Compacted(po, fraction, s, t);
      BelowIsWellNamed(s, d);
      CompactedAnswers(po, fraction, s, t);
    }
  }

  /**
   Over a whole run every new log is that of one directory of the three caches, and whoever
   looks a file up in it gets the answer the old log gave.
   */
  lemma NewLogsAnswerAsBefore(po: Policy, fraction: real, http: FsDir, ftp: FsDir, gopher: FsDir)
    requires WellNamed(http) && WellNamed(ftp) && WellNamed(gopher)
    ensures forall l :: l in GcEffects(po, fraction, http, ftp, gopher).logs ==>
      GoodLog(http, l.0, l.1) || GoodLog(ftp, l.0, l.1) || GoodLog(gopher, l.0, l.1)
  {
    LogsAreGood(po, fraction, http);
    LogsAreGood(DropExpired(po), fraction, ftp);
    LogsAreGood(DropExpired(po), fraction, gopher);
    hide GoodLog, DirRead;
  }
}
