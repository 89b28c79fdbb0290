/**
 The cache garbage collector: directories are read into hash tables, the info log of each
 is merged in, files are valued and counted in buckets, and the cheapest ones removed; what
 remains is logged anew.
 */
module GarbageCollector {
  import opened Text
  import opened GcBuckets
  import Info = CacheInfo

  const HASH_SIZE := 31

  /** A file or a directory in memory; `directory` is set for directories only. */
  datatype Node = Node(
    filename: string,
    loadDelay: int, lastChecked: int, expires: int, maxUnused: int, lastModified: int,
    lastAccess: int, bytes: nat, value: real,
    directory: Directory)

  /**
   A directory that has been read: its nodes in the order of the hash table. Whether its info
   log can be opened for writing will turn out when it is collected.
   */
  datatype Directory =
    | NoDirectory
    | Directory(dirname: string, fileCnt: int, totalNodeCnt: int, nodes: seq<Node>, logOpens: bool)

  // ---- The hash table of one directory ----

  function HashSum(s: string): nat {
    if s == "" then 0 else s[0] as nat + HashSum(s[1..])
  }

  function Hash(s: string): (h: nat)
    ensures h < HASH_SIZE
  {
    HashSum(s) % HASH_SIZE
  }

  method ComputeHash(url: string) returns (h: nat)
    ensures h == Hash(url)
  {
    var sum := 0;
    var cur := 0;
    assert url[0..] == url;
    while cur < |url|
      invariant cur <= |url| && sum + HashSum(url[cur..]) == HashSum(url)
    {
      assert url[cur..][1..] == url[cur + 1..];
      sum := sum + url[cur] as nat;
      cur := cur + 1;
    }
    h := sum % HASH_SIZE;
  }

  lemma {:induction false} HashSumOfLonger(s: string, c: char)
    ensures HashSum(s + [c]) == HashSum(s) + c as nat
  {
    if s == "" {
      assert s + [c] == [c] && [c][1..] == "";
    } else {
      assert (s + [c])[1..] == s[1..] + [c];
      HashSumOfLonger(s[1..], c);
    }
  }

  /** A name hashes to the sum of its bytes, modulo 31. */
  lemma HashInWords(s: string, c: char)
    ensures Hash("") == 0 && Hash(s + [c]) == (Hash(s) + c as nat) % 31
  {
    HashSumOfLonger(s, c);
  }

  /** The position of a name in a chain, the length of the chain if it is not there. */
  function Position(chain: seq<Node>, name: string): (k: nat)
    ensures k <= |chain|
    ensures k < |chain| ==> chain[k].filename == name
    ensures forall j :: 0 <= j < k ==> chain[j].filename != name
  {
    if chain == [] || chain[0].filename == name then 0 else 1 + Position(chain[1..], name)
  }

  /** All nodes of a table, chain by chain. */
  function Flat(chains: seq<seq<Node>>): seq<Node> {
    if chains == [] then [] else chains[0] + Flat(chains[1..])
  }

  ghost predicate DistinctNames(nodes: seq<Node>) {
    forall i, j :: 0 <= i < j < |nodes| ==> nodes[i].filename != nodes[j].filename
  }

  /** Every node is in the chain of its name, and no chain has a name twice. */
  ghost predicate WellHashed(chains: seq<seq<Node>>) {
    && |chains| == HASH_SIZE
    && (forall h, k :: 0 <= h < |chains| && 0 <= k < |chains[h]| ==> Hash(chains[h][k].filename) == h)
    && (forall h :: 0 <= h < |chains| ==> DistinctNames(chains[h]))
  }

  ghost predicate HasName(nodes: seq<Node>, name: string) {
    exists n :: n in nodes && n.filename == name
  }

  lemma {:induction false} InFlat(chains: seq<seq<Node>>, n: Node)
    ensures n in Flat(chains) <==> exists h :: 0 <= h < |chains| && n in chains[h]
  {
    if chains == [] {
    } else {
      InFlat(chains[1..], n);
      assert n in Flat(chains) <==> n in chains[0] || n in Flat(chains[1..]);
      if n in Flat(chains[1..]) {
        var h :| 0 <= h < |chains[1..]| && n in chains[1..][h];
        assert n in chains[h + 1];
      }
      if h :| 0 <= h < |chains| && n in chains[h] {
        assert h > 0 ==> n in chains[1..][h - 1];
      }
    }
  }

  /** A new node in its chain stands somewhere among the other nodes. */
  lemma {:induction false} InsertStandsBetween(chains: seq<seq<Node>>, h: nat, n: Node)
    returns (p: seq<Node>, q: seq<Node>)
    requires h < |chains|
    ensures Flat(chains) == p + q && Flat(chains[h := [n] + chains[h]]) == p + ([n] + q)
  {
    var c := chains[h := [n] + chains[h]];
    if h == 0 {
      assert c[1..] == chains[1..];
      p, q := [], Flat(chains);
    } else {
      assert c[1..] == chains[1..][h - 1 := [n] + chains[h]];
      p, q := InsertStandsBetween(chains[1..], h - 1, n);
      p := chains[0] + p;
    }
  }

  /** One node more, among the others in their order. */
  ghost predicate Inserted(before: seq<Node>, after: seq<Node>, n: Node) {
    exists p: seq<Node>, q: seq<Node> :: before == p + q && after == p + ([n] + q)
  }

  /** A table with node n for its name, in place of the old one or at the head of its chain. */
  function WithNode(chains: seq<seq<Node>>, n: Node): seq<seq<Node>>
    requires |chains| == HASH_SIZE
  {
    var h := Hash(n.filename);
    var k := Position(chains[h], n.filename);
    chains[h := if k < |chains[h]| then chains[h][k := n] else [n] + chains[h]]
  }

  lemma WithNodeIsWellHashed(chains: seq<seq<Node>>, n: Node)
    requires WellHashed(chains)
    ensures WellHashed(WithNode(chains, n))
  {
  }

  lemma AbsentNodeIsAdded(chains: seq<seq<Node>>, n: Node)
    requires WellHashed(chains) && !HasName(Flat(chains), n.filename)
    ensures var h := Hash(n.filename);
      WithNode(chains, n) == chains[h := [n] + chains[h]] && Position(chains[h], n.filename) == |chains[h]|
  {
    var h := Hash(n.filename);
    var k := Position(chains[h], n.filename);
    if k < |chains[h]| {
      InFlat(chains, chains[h][k]);
    }
  }

  /** A new name is a new node. */
  lemma WithNodeInserts(chains: seq<seq<Node>>, n: Node)
    requires WellHashed(chains) && !HasName(Flat(chains), n.filename)
    ensures Inserted(Flat(chains), Flat(WithNode(chains, n)), n)
  {
    AbsentNodeIsAdded(chains, n);
    var p, q := InsertStandsBetween(chains, Hash(n.filename), n);
  }

  /** No name is in the table twice. */
  lemma TableNamesAreDistinct(chains: seq<seq<Node>>)
    requires WellHashed(chains)
    ensures DistinctNames(Flat(chains))
  {
    ChainNamesAreDistinct(chains, 0);
  }

  lemma {:induction false} ChainNamesAreDistinct(chains: seq<seq<Node>>, base: nat)
    requires forall h, k :: 0 <= h < |chains| && 0 <= k < |chains[h]| ==> Hash(chains[h][k].filename) == base + h
    requires forall h :: 0 <= h < |chains| ==> DistinctNames(chains[h])
    ensures DistinctNames(Flat(chains))
    ensures forall i :: 0 <= i < |Flat(chains)| ==> Hash(Flat(chains)[i].filename) >= base
  {
    if chains == [] {
    } else {
      ChainNamesAreDistinct(chains[1..], base + 1);
    }
  }

  function NoChains(): seq<seq<Node>> { seq(HASH_SIZE, _ => []) }

  lemma {:induction false} EmptyTable(chains: seq<seq<Node>>)
    requires forall h :: 0 <= h < |chains| ==> chains[h] == []
    ensures Flat(chains) == []
  {
    if chains == [] {
    } else {
      EmptyTable(chains[1..]);
    }
  }

  // ---- Merging the info log ----

  /** Zero means: nothing known. */
  function Merged(n: Node, r: Info.Record): Node {
    n.(loadDelay := if r.loadDelay != 0 then r.loadDelay else n.loadDelay,
       lastChecked := if r.lastChecked != 0 then r.lastChecked else n.lastChecked,
       expires := if r.expires != 0 then r.expires else n.expires,
       maxUnused := if r.maxUnused != 0 then r.maxUnused else n.maxUnused,
       lastModified := if r.lastModified != 0 then r.lastModified else n.lastModified)
  }

  function MergeRecord(nodes: seq<Node>, r: Info.Record): (ms: seq<Node>)
    ensures |ms| == |nodes|
    ensures forall i :: 0 <= i < |nodes| ==>
      ms[i] == if nodes[i].filename == r.name then Merged(nodes[i], r) else nodes[i]
  {
    seq(|nodes|, i requires 0 <= i < |nodes| =>
      if nodes[i].filename == r.name then Merged(nodes[i], r) else nodes[i])
  }

  lemma MergeAppend(a: seq<Node>, b: seq<Node>, r: Info.Record)
    ensures MergeRecord(a + b, r) == MergeRecord(a, r) + MergeRecord(b, r)
  {
  }

  /** If each chain is merged, so is the table. */
  lemma {:induction false} FlatMerge(chains: seq<seq<Node>>, merged: seq<seq<Node>>, r: Info.Record)
    requires |merged| == |chains|
    requires forall h :: 0 <= h < |chains| ==> merged[h] == MergeRecord(chains[h], r)
    ensures Flat(merged) == MergeRecord(Flat(chains), r)
  {
    if chains == [] {
    } else {
      FlatMerge(chains[1..], merged[1..], r);
      MergeAppend(chains[0], Flat(chains[1..]), r);
    }
  }

  lemma MergedIsWellHashed(chains: seq<seq<Node>>, h: nat, k: nat, r: Info.Record)
    requires WellHashed(chains) && h < |chains| && k < |chains[h]|
    ensures WellHashed(chains[h := chains[h][k := Merged(chains[h][k], r)]])
  {
  }

  /** In a chain the record is merged into the one node of its name. */
  lemma ChainIsMerged(chain: seq<Node>, r: Info.Record)
    requires DistinctNames(chain)
    ensures var k := Position(chain, r.name);
      MergeRecord(chain, r) == if k < |chain| then chain[k := Merged(chain[k], r)] else chain
  {
  }

  lemma OtherChainIsSame(chains: seq<seq<Node>>, g: nat, r: Info.Record)
    requires WellHashed(chains) && g < |chains| && g != Hash(r.name)
    ensures MergeRecord(chains[g], r) == chains[g]
  {
    hide Hash;
  }

  /** Changing the one node that has the name of the record is merging the whole table. */
  lemma MergeInPlace(chains: seq<seq<Node>>, r: Info.Record)
    requires WellHashed(chains)
    ensures var h := Hash(r.name);
      var k := Position(chains[h], r.name);
      var merged := if k < |chains[h]| then chains[h := chains[h][k := Merged(chains[h][k], r)]] else chains;
      WellHashed(merged) && Flat(merged) == MergeRecord(Flat(chains), r)
  {
    var h := Hash(r.name);
    var k := Position(chains[h], r.name);
    var merged := if k < |chains[h]| then chains[h := chains[h][k := Merged(chains[h][k], r)]] else chains;
    if k < |chains[h]| { MergedIsWellHashed(chains, h, k, r); }
    ChainIsMerged(chains[h], r);
    forall g | 0 <= g < |chains| ensures merged[g] == MergeRecord(chains[g], r) {
      if g != h { OtherChainIsSame(chains, g, r); }
    }
    hide WellHashed, Hash, Position;
    FlatMerge(chains, merged, r);
  }

  function MergeAll(nodes: seq<Node>, recs: seq<Info.Record>): seq<Node>
    decreases |recs|
  {
    if recs == [] then nodes else MergeAll(MergeRecord(nodes, recs[0]), recs[1..])
  }

  /** A directory that is being read. */
  class DirTable {
    const dirname: string
    var fileCnt: int
    var totalNodeCnt: int
    const files: array<seq<Node>>

    constructor (dirname: string)
      ensures Valid() && fresh(files) && this.dirname == dirname
      ensures fileCnt == 0 && totalNodeCnt == 0 && files[..] == NoChains()
    {
      this.dirname := dirname;
      fileCnt, totalNodeCnt := 0, 0;
      files := new seq<Node>[HASH_SIZE](_ => []);
      new;
      assert files[..] == NoChains();
    }

    ghost predicate Valid()
      reads this, files
    {
      files.Length == HASH_SIZE && WellHashed(files[..])
    }

    ghost function Nodes(): seq<Node>
      reads this, files
    {
      Flat(files[..])
    }

    /** Find or create; says where the node is, and whether there is one. */
    method Lookup(filename: string, create: bool) returns (h: nat, k: nat, found: bool, created: bool)
      requires Valid()
      modifies files
      ensures Valid() && h == Hash(filename)
      ensures created <==> create && Position(old(files[..])[h], filename) == |old(files[..])[h]|
      ensures found <==> k < |files[h]|
      ensures found <==> created || Position(old(files[..])[h], filename) < |old(files[..])[h]|
      ensures found ==> files[h][k].filename == filename
      ensures !created ==> files[..] == old(files[..]) && k == Position(files[h], filename)
      ensures created ==> k == 0 && files[..] == WithNode(old(files[..]), FreshNode(filename))
    {
      h := ComputeHash(filename);
      k := 0;
      assert files[h][0..] == files[h];
      while k < |files[h]| && files[h][k].filename != filename
        invariant k <= |files[h]|
        invariant Position(files[h], filename) == k + Position(files[h][k..], filename)
      {
        assert files[h][k..][1..] == files[h][k + 1..];
        k := k + 1;
      }
      created := k == |files[h]| && create;
      if created {
        WithNodeIsWellHashed(files[..], FreshNode(filename));
        files[h] := [FreshNode(filename)] + files[h];
        k := 0;
      }
      found := k < |files[h]|;
    }

    /** Called by the directory scan. */
    method AddFile(filename: string, bytes: nat, mtime: int, atime: int) returns (created: bool)
      requires Valid() && !HasName(Nodes(), filename)
      modifies this`totalNodeCnt, files
      ensures Valid() && created && totalNodeCnt == old(totalNodeCnt) + 1
      ensures files[..] == WithNode(old(files[..]), FileNode(filename, bytes, mtime, atime))
    {
      AbsentNodeIsAdded(files[..], FreshNode(filename));
      AbsentNodeIsAdded(files[..], FileNode(filename, bytes, mtime, atime));
      WithNodeIsWellHashed(files[..], FileNode(filename, bytes, mtime, atime));
      var h, k, found;
      h, k, found, created := Lookup(filename, true);
      assert files[h] == [FreshNode(filename)] + old(files[..])[h];
      files[h] := files[h][k := files[h][k].(bytes := bytes, lastChecked := mtime, lastAccess := atime)];
      assert files[h] == [FileNode(filename, bytes, mtime, atime)] + old(files[..])[h];
      totalNodeCnt := totalNodeCnt + 1;
    }

    method AddDir(path: string, contents: Directory) returns (created: bool)
      requires Valid() && !HasName(Nodes(), path) && contents.Directory?
      modifies this`totalNodeCnt, files
      ensures Valid() && created && totalNodeCnt == old(totalNodeCnt) + contents.totalNodeCnt
      ensures files[..] == WithNode(old(files[..]), DirNode(path, contents))
    {
      AbsentNodeIsAdded(files[..], FreshNode(path));
      AbsentNodeIsAdded(files[..], DirNode(path, contents));
      WithNodeIsWellHashed(files[..], DirNode(path, contents));
      var h, k, found;
      h, k, found, created := Lookup(path, true);
      assert files[h] == [FreshNode(path)] + old(files[..])[h];
      files[h] := files[h][k := files[h][k].(directory := contents)];
      assert files[h] == [DirNode(path, contents)] + old(files[..])[h];
      totalNodeCnt := totalNodeCnt + contents.totalNodeCnt;
    }

    /** Called by the cache info reader. */
    method SetAttributes(r: Info.Record)
      requires Valid()
      modifies files
      ensures Valid() && Nodes() == MergeRecord(old(Nodes()), r)
    {
      MergeInPlace(files[..], r);
      var h, k, found, created := Lookup(r.name, false);
      if found {
        files[h] := files[h][k := Merged(files[h][k], r)];
      }
    }

    method ReadInfo(text: string)
      requires Valid()
      modifies files
      ensures Valid() && Nodes() == MergeAll(old(Nodes()), Info.Records(text))
    {
      var fp := new Info.Reader(text);
      ghost var all := MergeAll(Nodes(), fp.todo);
      var next := fp.Next();
      while next.Some?
        invariant fresh(fp) && fp.Valid() && Valid()
        invariant all == MergeAll(Nodes(), (match next case None => [] case Some(r) => [r] + fp.todo))
        decreases next.Some?, |fp.todo|
      {
        SetAttributes(next.value);
        assert ([next.value] + fp.todo)[1..] == fp.todo;
        next := fp.Next();
      }
    }
  }

  function FreshNode(name: string): Node { Node(name, 0, 0, 0, 0, 0, 0, 0, 0.0, NoDirectory) }

  function FileNode(name: string, bytes: nat, mtime: int, atime: int): Node {
    FreshNode(name).(bytes := bytes, lastChecked := mtime, lastAccess := atime)
  }

  function DirNode(path: string, contents: Directory): Node { FreshNode(path).(directory := contents) }

  // ---- Files in memory ----

  datatype Item = Item(dir: string, name: string, bytes: nat)

  /** The files below a directory whose values satisfy p. */
  function Select(dir: string, nodes: seq<Node>, p: real -> bool): seq<Item>
    decreases nodes, 0
  {
    if nodes == [] then [] else SelectOne(dir, nodes[0], p) + Select(dir, nodes[1..], p)
  }

  function SelectOne(dir: string, n: Node, p: real -> bool): seq<Item>
    decreases n, 1
  {
    if n.directory.Directory? then Select(n.directory.dirname, n.directory.nodes, p)
    else if p(n.value) then [Item(dir, n.filename, n.bytes)]
    else []
  }

  const Any: real -> bool := v => true
  const Nothing: real -> bool := v => false

  function InBucket(b: int): real -> bool { v => MakeInd(v) == b }

  function InBucketsBelow(n: int): real -> bool { v => MakeInd(v) < n }

  function Under(threshold: real): real -> bool { v => v < threshold }

  function AtLeast(threshold: real): real -> bool { v => v >= threshold }

  /** A number for each file: its size, or whether it is a certain one. */
  type Weight = Item -> nat

  const Size: Weight := (it: Item) => it.bytes

  function Only(item: Item): Weight { it => if it == item then 1 else 0 }

  function Weighed(items: seq<Item>, w: Weight): nat {
    if items == [] then 0 else w(items[0]) + Weighed(items[1..], w)
  }

  function SumItems(items: seq<Item>): nat { Weighed(items, Size) }

  lemma {:induction false} WeighedAppend(a: seq<Item>, b: seq<Item>, w: Weight)
    ensures Weighed(a + b, w) == Weighed(a, w) + Weighed(b, w)
  {
    if a == [] {
      assert a + b == b;
    } else {
      assert (a + b)[1..] == a[1..] + b;
      WeighedAppend(a[1..], b, w);
    }
  }

  lemma {:induction false} CountIsWeight(items: seq<Item>, item: Item)
    ensures multiset(items)[item] == Weighed(items, Only(item))
  {
    if items == [] {
    } else {
      assert items == [items[0]] + items[1..];
      CountIsWeight(items[1..], item);
    }
  }

  lemma {:induction false} SelectAppend(dir: string, a: seq<Node>, b: seq<Node>, p: real -> bool)
    ensures Select(dir, a + b, p) == Select(dir, a, p) + Select(dir, b, p)
  {
    if a == [] {
      assert a + b == b;
    } else {
      assert (a + b)[1..] == a[1..] + b;
      SelectAppend(dir, a[1..], b, p);
    }
  }

  /** Every file satisfies one of two complementary conditions, and counts there. */
  lemma {:induction false} SelectSplits(dir: string, nodes: seq<Node>, p: real -> bool, q: real -> bool,
                                        r: real -> bool, w: Weight)
    requires forall v :: r(v) <==> p(v) || q(v)
    requires forall v :: !(p(v) && q(v))
    ensures Weighed(Select(dir, nodes, p), w) + Weighed(Select(dir, nodes, q), w) == Weighed(Select(dir, nodes, r), w)
    decreases nodes
  {
    if nodes == [] {
    } else {
      var n := nodes[0];
      if n.directory.Directory? {
        SelectSplits(n.directory.dirname, n.directory.nodes, p, q, r, w);
      }
      SelectSplits(dir, nodes[1..], p, q, r, w);
      WeighedAppend(SelectOne(dir, n, p), Select(dir, nodes[1..], p), w);
      WeighedAppend(SelectOne(dir, n, q), Select(dir, nodes[1..], q), w);
      WeighedAppend(SelectOne(dir, n, r), Select(dir, nodes[1..], r), w);
    }
  }

  lemma {:induction false} SelectSame(dir: string, nodes: seq<Node>, p: real -> bool, q: real -> bool)
    requires AllValues(nodes, v => p(v) == q(v))
    ensures Select(dir, nodes, p) == Select(dir, nodes, q)
    decreases nodes
  {
    if nodes == [] {
    } else {
      var n := nodes[0];
      if n.directory.Directory? {
        SelectSame(n.directory.dirname, n.directory.nodes, p, q);
      }
      SelectSame(dir, nodes[1..], p, q);
    }
  }

  /** Do all values of files below a directory satisfy p? */
  predicate AllValues(nodes: seq<Node>, p: real -> bool)
    decreases nodes
  {
    nodes == [] || (
      && (if nodes[0].directory.Directory? then AllValues(nodes[0].directory.nodes, p) else p(nodes[0].value))
      && AllValues(nodes[1..], p))
  }

  lemma {:induction false} AllValuesWeaken(nodes: seq<Node>, p: real -> bool, q: real -> bool)
    requires AllValues(nodes, p) && forall v :: p(v) ==> q(v)
    ensures AllValues(nodes, q)
    decreases nodes
  {
    if nodes == [] {
    } else {
      if nodes[0].directory.Directory? { AllValuesWeaken(nodes[0].directory.nodes, p, q); }
      AllValuesWeaken(nodes[1..], p, q);
    }
  }

  /** The bytes of the files in buckets below n. */
  function BelowBytes(dir: string, nodes: seq<Node>, n: int): nat {
    SumItems(Select(dir, nodes, InBucketsBelow(n)))
  }

  function BucketBytes(dir: string, nodes: seq<Node>, b: int): nat {
    SumItems(Select(dir, nodes, InBucket(b)))
  }

  /** The table of a pass: the bytes of each bucket. */
  function BucketTable(dir: string, nodes: seq<Node>): seq<int> {
    seq(TABLE_SIZE, b requires 0 <= b < TABLE_SIZE => BucketBytes(dir, nodes, b))
  }

  lemma {:induction false} SumOfBuckets(dir: string, nodes: seq<Node>, n: nat)
    requires n <= TABLE_SIZE
    ensures Sum(BucketTable(dir, nodes)[..n]) == BelowBytes(dir, nodes, n)
  {
    var t := BucketTable(dir, nodes);
    if n == 0 {
      NothingBelow(dir, nodes);
    } else {
      SumOfBuckets(dir, nodes, n - 1);
      SumOneMore(t, n - 1);
      SelectSplits(dir, nodes, InBucketsBelow(n - 1), InBucket(n - 1), InBucketsBelow(n), Size);
    }
  }

  lemma {:induction false} NothingBelow(dir: string, nodes: seq<Node>)
    ensures Select(dir, nodes, InBucketsBelow(0)) == []
    decreases nodes
  {
    if nodes == [] {
    } else {
      if nodes[0].directory.Directory? { NothingBelow(nodes[0].directory.dirname, nodes[0].directory.nodes); }
      NothingBelow(dir, nodes[1..]);
    }
  }

  lemma AllBytesAreInBuckets(dir: string, nodes: seq<Node>)
    ensures Sum(BucketTable(dir, nodes)) == SumItems(Select(dir, nodes, Any))
  {
    var t := BucketTable(dir, nodes);
    assert t[..TABLE_SIZE] == t;
    SumOfBuckets(dir, nodes, TABLE_SIZE);
    SelectSplits(dir, nodes, InBucketsBelow(TABLE_SIZE), Nothing, Any, Size);
    NoneSelected(dir, nodes);
  }

  lemma {:induction false} NoneSelected(dir: string, nodes: seq<Node>)
    ensures Select(dir, nodes, Nothing) == []
    decreases nodes
  {
    if nodes == [] {
    } else {
      if nodes[0].directory.Directory? { NoneSelected(nodes[0].directory.dirname, nodes[0].directory.nodes); }
      NoneSelected(dir, nodes[1..]);
    }
  }

  /**
   A pass with the threshold for `mustCollect` takes exactly the files in the buckets it has
   to give up: enough of them, and without the last bucket not enough. The first bucket
   always goes. Values are at most 1, as products of factors that are.
   */
  lemma PassIsSufficientAndTight(dir: string, nodes: seq<Node>, mustCollect: int)
    requires AllValues(nodes, v => v <= 1.0)
    requires mustCollect <= SumItems(Select(dir, nodes, Any))
    ensures var n := Cutoff(mustCollect, BucketTable(dir, nodes), 1);
      var taken := Select(dir, nodes, Under(Threshold(n)));
      && taken == Select(dir, nodes, InBucketsBelow(n))
      && SumItems(taken) >= mustCollect
      && (n > 1 ==> BelowBytes(dir, nodes, n - 1) < mustCollect)
      && BelowBytes(dir, nodes, 1) <= SumItems(taken)
  {
    var t := BucketTable(dir, nodes);
    AllBytesAreInBuckets(dir, nodes);
    CutoffIsTight(mustCollect, t);
    var n := Cutoff(mustCollect, t, 1);
    SumOfBuckets(dir, nodes, n);
    SumOfBuckets(dir, nodes, n - 1);
    forall v | v <= 1.0 ensures v < Threshold(n) <==> MakeInd(v) < n { BucketsMatchThreshold(v, n); }
    var p, q := Under(Threshold(n)), InBucketsBelow(n);
    AllValuesWeaken(nodes, v => v <= 1.0, v => p(v) == q(v));
    SelectSame(dir, nodes, p, q);
    SelectSplits(dir, nodes, InBucketsBelow(1), v => 1 <= MakeInd(v) < n, InBucketsBelow(n), Size);
  }

  // ---- Evaluating ----

  /** What a file is judged by. */
  datatype Policy = Policy(
    curTime: int, keepExpired: bool, cleanDef: int,
    memLimit: int,                        // gc_mem_usage_control
    lockTimeout: int,
    calculateValue: Node -> real)         // product of five factors

  function ValueOf(po: Policy, n: Node): real {
    if n.expires != 0 && n.expires <= po.curTime && !po.keepExpired then 0.0
    else if n.lastChecked != 0 && po.curTime - n.lastChecked >= po.cleanDef then 0.0
    else if n.lastAccess != 0 && n.maxUnused != 0 && po.curTime - n.lastAccess >= n.maxUnused then 0.0
    else po.calculateValue(n)
  }

  function EvaluatedNodes(po: Policy, nodes: seq<Node>): (es: seq<Node>)
    ensures |es| == |nodes|
    decreases nodes, 0
  {
    if nodes == [] then [] else [EvaluatedNode(po, nodes[0])] + EvaluatedNodes(po, nodes[1..])
  }

  function EvaluatedNode(po: Policy, n: Node): Node
    decreases n, 1
  {
    if n.directory.Directory? then
      n.(directory := n.directory.(nodes := EvaluatedNodes(po, n.directory.nodes)))
    else
      n.(value := ValueOf(po, n))
  }

  /** Evaluating changes no file. */
  lemma {:induction false} EvaluatingKeepsItems(po: Policy, dir: string, nodes: seq<Node>)
    ensures Select(dir, EvaluatedNodes(po, nodes), Any) == Select(dir, nodes, Any)
    decreases nodes
  {
    if nodes == [] {
    } else {
      if nodes[0].directory.Directory? {
        EvaluatingKeepsItems(po, nodes[0].directory.dirname, nodes[0].directory.nodes);
      }
      EvaluatingKeepsItems(po, dir, nodes[1..]);
      assert EvaluatedNodes(po, nodes)[1..] == EvaluatedNodes(po, nodes[1..]);
    }
  }

  lemma {:induction false} EvaluatedValuesAreAtMostOne(po: Policy, nodes: seq<Node>)
    requires forall n :: po.calculateValue(n) <= 1.0
    ensures AllValues(EvaluatedNodes(po, nodes), v => v <= 1.0)
    decreases nodes
  {
    if nodes == [] {
    } else {
      if nodes[0].directory.Directory? {
        EvaluatedValuesAreAtMostOne(po, nodes[0].directory.nodes);
      }
      EvaluatedValuesAreAtMostOne(po, nodes[1..]);
      assert EvaluatedNodes(po, nodes)[1..] == EvaluatedNodes(po, nodes[1..]);
    }
  }

  // ---- Collecting ----

  function RecordOf(n: Node): Info.Record {
    Info.Record(n.filename, n.loadDelay, n.lastChecked, n.expires, n.maxUnused, n.lastModified)
  }

  /** The new info log of one directory: a record for each file that stays. */
  function NewLog(nodes: seq<Node>, threshold: real): seq<Info.Record> {
    if nodes == [] then []
    else
      (if nodes[0].directory.NoDirectory? && nodes[0].value >= threshold then [RecordOf(nodes[0])] else [])
      + NewLog(nodes[1..], threshold)
  }

  /** The number of entries of one directory that are removed. */
  function Removed(nodes: seq<Node>, threshold: real): nat {
    if nodes == [] then 0
    else
      (if nodes[0].directory.NoDirectory? && nodes[0].value < threshold then 1 else 0) + Removed(nodes[1..], threshold)
  }

  lemma {:induction false} NewLogAppend(a: seq<Node>, b: seq<Node>, threshold: real)
    ensures NewLog(a + b, threshold) == NewLog(a, threshold) + NewLog(b, threshold)
    ensures Removed(a + b, threshold) == Removed(a, threshold) + Removed(b, threshold)
  {
    if a == [] {
      assert a + b == b;
    } else {
      assert (a + b)[1..] == a[1..] + b;
      NewLogAppend(a[1..], b, threshold);
    }
  }

  // ---- The whole run ----

  function SumReal(fraction: real, total: int): int { Trunc(fraction * (total as real)) }

  /** What a run does to the file system, in order. */
  datatype Effects = Effects(
    unlinked: seq<Item>,                        // files removed
    recorded: seq<Item>,                        // files entered in a new log
    unlogged: seq<Item>,                        // files that stay where no new log can be written
    logs: seq<(string, seq<Info.Record>)>,      // new logs
    rmdirs: seq<string>,                        // directories removed
    locks: seq<string>)                         // old lock files removed

  const NoEffects := Effects([], [], [], [], [], [])

  function Then(a: Effects, b: Effects): Effects {
    Effects(a.unlinked + b.unlinked, a.recorded + b.recorded, a.unlogged + b.unlogged,
            a.logs + b.logs, a.rmdirs + b.rmdirs, a.locks + b.locks)
  }

  /** The counters of a run and what it does to the file system. */
  class Collector {
    var po: Policy
    var bytesTotal: int
    var bytesCollected: int
    const table: array<int>
    const totalTable: array<int>
    var done: Effects

    constructor (po: Policy)
      ensures Valid() && this.po == po && fresh(table) && fresh(totalTable)
      ensures TableIsZero() && Sum(totalTable[..]) == 0
      ensures bytesTotal == bytesCollected == 0 && done == NoEffects
    {
      this.po := po;
      bytesTotal, bytesCollected := 0, 0;
      table := new int[TABLE_SIZE](_ => 0);
      totalTable := new int[TABLE_SIZE](_ => 0);
      done := NoEffects;
      new;
      SumOfZeros(totalTable[..]);
    }

    ghost predicate Valid()
      reads this
    {
      && table.Length == TABLE_SIZE && totalTable.Length == TABLE_SIZE && table != totalTable
      && bytesCollected == SumItems(done.unlinked)
    }

    /** Nothing is left over from the last pass. */
    ghost predicate TableIsZero()
      requires Valid()
      reads this, table
    {
      forall b :: 0 <= b < TABLE_SIZE ==> table[b] == 0
    }

    /** Value a directory and count its bytes. */
    method Evaluate(d: Directory) returns (e: Directory)
      requires Valid() && d.Directory?
      modifies table
      ensures e == d.(nodes := EvaluatedNodes(po, d.nodes))
      ensures forall b :: 0 <= b < TABLE_SIZE ==> table[b] == old(table[b]) + BucketBytes(d.dirname, e.nodes, b)
      decreases d, 0
    {
      var done := [];
      var i := 0;
      assert d.nodes[0..] == d.nodes;
      while i < |d.nodes|
        invariant i <= |d.nodes| && done + EvaluatedNodes(po, d.nodes[i..]) == EvaluatedNodes(po, d.nodes)
        invariant forall b :: 0 <= b < TABLE_SIZE ==> table[b] == old(table[b]) + BucketBytes(d.dirname, done, b)
      {
        assert d.nodes[i..][1..] == d.nodes[i + 1..];
        var cur := Eval(d.dirname, d.nodes[i]);
        forall b | 0 <= b < TABLE_SIZE
          ensures BucketBytes(d.dirname, done + [cur], b) ==
            BucketBytes(d.dirname, done, b) + BucketBytes(d.dirname, [cur], b)
        {
          BucketGrows(d.dirname, done, cur, b);
        }
        done := done + [cur];
        i := i + 1;
      }
      e := d.(nodes := done);
    }

    method Eval(dir: string, node: Node) returns (cur: Node)
      requires Valid()
      modifies table
      ensures cur == EvaluatedNode(po, node)
      ensures forall b :: 0 <= b < TABLE_SIZE ==> table[b] == old(table[b]) + BucketBytes(dir, [cur], b)
      decreases node, 1
    {
      cur := node;
      if cur.directory.Directory? {
        var sub := Evaluate(cur.directory);
        cur := cur.(directory := sub);
      } else {
        cur := cur.(value := ValueOf(po, cur));
        var b := MakeInd(cur.value);
        table[b] := table[b] + cur.bytes;
      }
      forall b | 0 <= b < TABLE_SIZE
        ensures table[b] == old(table[b]) + BucketBytes(dir, [cur], b)
      {
        BucketOfOne(dir, cur, b);
      }
    }

    /** The threshold of this pass; the table is added to the totals and cleared. */
    method GetThreshold(fraction: real, ghost dir: string, ghost nodes: seq<Node>) returns (threshold: real)
      requires Valid() && table[..] == BucketTable(dir, nodes)
      modifies table, totalTable
      ensures threshold ==
        Threshold(Cutoff(SumReal(fraction, SumItems(Select(dir, nodes, Any))), BucketTable(dir, nodes), 1))
      ensures TableIsZero()
      ensures Sum(totalTable[..]) == old(Sum(totalTable[..])) + SumItems(Select(dir, nodes, Any))
    {
      hide Select, Weighed, BucketTable, Cutoff, SumReal;
      var totalSize := 0;
      ghost var t0, tt0 := table[..], totalTable[..];
      AllBytesAreInBuckets(dir, nodes);
      assert Sum(t0[..0]) == 0;
      hide Sum;
      for i := 0 to TABLE_SIZE
        invariant table[..] == t0 && totalSize == Sum(t0[..i])
        invariant forall k :: 0 <= k < i ==> totalTable[k] == tt0[k] + t0[k]
        invariant forall k :: i <= k < TABLE_SIZE ==> totalTable[k] == tt0[k]
      {
        SumOneMore(t0, i);
        totalSize := totalSize + table[i];
        totalTable[i] := totalTable[i] + table[i];
      }
      assert t0[..TABLE_SIZE] == t0;
      SumOfSums(tt0, t0, totalTable[..]);
      var mustCollect := SumReal(fraction, totalSize);
      threshold := FindThreshold(mustCollect, table);
      ghost var totals := totalTable[..];
      for i := 0 to TABLE_SIZE
        invariant totalTable[..] == totals
        invariant forall k :: 0 <= k < i ==> table[k] == 0
      {
        table[i] := 0;
      }
    }

    /** Remove the files below the threshold, log the others, and remove empty directories. */
    method Collect(d: Directory, threshold: real)
      requires Valid() && d.Directory?
      modifies `bytesCollected, `done
      ensures Valid()
      ensures done == Then(old(done), EffectsOf(d, threshold))
      decreases d, 0
    {
      assert EffectsOfNodes(d.dirname, [], threshold, d.logOpens) == NoEffects;
      assert Removed([], threshold) == 0 && NewLog([], threshold) == [];
      hide EffectsOfNodes, EffectsOfNode, Removed, NewLog, SumItems, Then;
      var cif := [];
      var fileCnt := d.fileCnt;
      var i := 0;
      ghost var acc := NoEffects;
      assert d.nodes[..0] == [];
      ThenIsAssociative(done, acc, acc);
      while i < |d.nodes|
        invariant i <= |d.nodes| && Valid()
        invariant acc == EffectsOfNodes(d.dirname, d.nodes[..i], threshold, d.logOpens)
        invariant done == Then(old(done), acc)
        invariant cif == if d.logOpens then NewLog(d.nodes[..i], threshold) else []
        invariant fileCnt == d.fileCnt - Removed(d.nodes[..i], threshold)
      {
        CollectOneMore(d, i, threshold);
        var entry, gone := CollectNode(d.dirname, d.nodes[i], threshold, d.logOpens);
        ghost var one := EffectsOfNode(d.dirname, d.nodes[i], threshold, d.logOpens);
        ThenIsAssociative(old(done), acc, one);
        acc := Then(acc, one);
        cif := cif + entry;
        fileCnt := fileCnt - gone;
        i := i + 1;
      }
      assert d.nodes[..i] == d.nodes;
      ThenIsAssociative(old(done), acc, EndOf(d, threshold));
      CloseLog(d, threshold, fileCnt, cif);
    }

    /** The log is complete; if nothing is left of the directory, both go. */
    method CloseLog(d: Directory, threshold: real, fileCnt: int, cif: seq<Info.Record>)
      requires Valid() && d.Directory? && fileCnt == d.fileCnt - Removed(d.nodes, threshold)
      requires cif == if d.logOpens then NewLog(d.nodes, threshold) else []
      modifies `done
      ensures Valid() && done == Then(old(done), EndOf(d, threshold))
    {
      hide Removed, NewLog;
      ThenIsAssociative(done, NoEffects, NoEffects);
      if d.logOpens {
        assert done.unlinked + [] == done.unlinked;
        var last := if fileCnt <= 0 then DirRemoved(d.dirname) else LogWritten(d.dirname, cif);
        done := Then(done, last);
      }
    }

    /** One node: a directory is collected, a file unlinked or given an entry. */
    method CollectNode(dir: string, killme: Node, threshold: real, cif: bool)
      returns (entry: seq<Info.Record>, gone: nat)
      requires Valid()
      modifies `bytesCollected, `done
      ensures Valid()
      ensures done == Then(old(done), EffectsOfNode(dir, killme, threshold, cif))
      ensures entry ==
        if cif && killme.directory.NoDirectory? && killme.value >= threshold then [RecordOf(killme)] else []
      ensures gone == if killme.directory.NoDirectory? && killme.value < threshold then 1 else 0
      decreases killme, 1
    {
      hide Weighed, EffectsOf, Select;
      entry, gone := [], 0;
      if killme.directory.Directory? {
        Collect(killme.directory, threshold);
      } else {
        var item := Item(dir, killme.filename, killme.bytes);
        if killme.value < threshold {
          WeighedAppend(done.unlinked, [item], Size);
          SelectOfOne(dir, killme, Any);
          done := done.(unlinked := done.unlinked + [item]);
          gone := 1;
          bytesCollected := bytesCollected + killme.bytes;
        } else if cif {
          done := done.(recorded := done.recorded + [item]);
          entry := [RecordOf(killme)];
        } else {
          done := done.(unlogged := done.unlogged + [item]);
        }
      }
    }
  }

  lemma {:induction false} SumOfZeros(t: seq<int>)
    requires forall i :: 0 <= i < |t| ==> t[i] == 0
    ensures Sum(t) == 0
  {
    if t == [] {
    } else {
      SumOfZeros(t[..|t| - 1]);
    }
  }

  lemma {:induction false} SumOfSums(a: seq<int>, b: seq<int>, c: seq<int>)
    requires |a| == |b| == |c| && forall i :: 0 <= i < |c| ==> c[i] == a[i] + b[i]
    ensures Sum(c) == Sum(a) + Sum(b)
  {
    if c == [] {
    } else {
      SumOfSums(a[..|a| - 1], b[..|b| - 1], c[..|c| - 1]);
    }
  }

  lemma BucketGrows(dir: string, done: seq<Node>, n: Node, b: int)
    ensures BucketBytes(dir, done + [n], b) == BucketBytes(dir, done, b) + BucketBytes(dir, [n], b)
  {
    var p := InBucket(b);
    SelectAppend(dir, done, [n], p);
    WeighedAppend(Select(dir, done, p), Select(dir, [n], p), Size);
  }

  lemma BucketOfOne(dir: string, n: Node, b: int)
    ensures BucketBytes(dir, [n], b) ==
      if n.directory.Directory? then BucketBytes(n.directory.dirname, n.directory.nodes, b)
      else if MakeInd(n.value) == b then n.bytes else 0
  {
    SelectOfOne(dir, n, InBucket(b));
  }

  lemma SelectOfOne(dir: string, n: Node, p: real -> bool)
    ensures Select(dir, [n], p) == SelectOne(dir, n, p)
    ensures n.directory.NoDirectory? ==> SumItems(SelectOne(dir, n, p)) == if p(n.value) then n.bytes else 0
  {
    assert [n][1..] == [];
    assert Select(dir, [n], p) == SelectOne(dir, n, p) + [];
    var item := Item(dir, n.filename, n.bytes);
    assert [item][1..] == [];
    assert Weighed([item], Size) == Size(item) + Weighed([], Size);
  }

  /** Nothing that was counted in the directory is left. */
  predicate IsEmptied(d: Directory, threshold: real)
    requires d.Directory?
  {
    d.fileCnt - Removed(d.nodes, threshold) <= 0
  }

  /** What collecting one directory does: its nodes in order, then its log or its end. */
  function EffectsOf(d: Directory, threshold: real): Effects
    requires d.Directory?
    decreases d, 1
  {
    Then(EffectsOfNodes(d.dirname, d.nodes, threshold, d.logOpens), EndOf(d, threshold))
  }

  function DirRemoved(dir: string): Effects { Effects([], [], [], [], [dir], []) }

  function LogWritten(dir: string, log: seq<Info.Record>): Effects { Effects([], [], [], [(dir, log)], [], []) }

  /** If the log cannot be opened, nothing is written, and the directory stays even if it is empty. */
  function EndOf(d: Directory, threshold: real): Effects
    requires d.Directory?
  {
    if !d.logOpens then NoEffects
    else if IsEmptied(d, threshold) then DirRemoved(d.dirname)
    else LogWritten(d.dirname, NewLog(d.nodes, threshold))
  }

  function EffectsOfNodes(dir: string, nodes: seq<Node>, threshold: real, cif: bool): Effects
    decreases nodes, 0
  {
    if nodes == [] then NoEffects
    else Then(EffectsOfNode(dir, nodes[0], threshold, cif), EffectsOfNodes(dir, nodes[1..], threshold, cif))
  }

  function EffectsOfNode(dir: string, n: Node, threshold: real, cif: bool): Effects
    decreases n, 2
  {
    if n.directory.Directory? then EffectsOf(n.directory, threshold)
    else
      var item := Item(dir, n.filename, n.bytes);
      if n.value < threshold then NoEffects.(unlinked := [item])
      else if cif then NoEffects.(recorded := [item])
      else NoEffects.(unlogged := [item])
  }

  lemma ThenIsAssociative(a: Effects, b: Effects, c: Effects)
    ensures Then(Then(a, b), c) == Then(a, Then(b, c))
    ensures Then(a, NoEffects) == a == Then(NoEffects, a)
  {
  }

  lemma {:induction false} EffectsAppend(dir: string, a: seq<Node>, n: Node, threshold: real, cif: bool)
    ensures EffectsOfNodes(dir, a + [n], threshold, cif) ==
      Then(EffectsOfNodes(dir, a, threshold, cif), EffectsOfNode(dir, n, threshold, cif))
  {
    hide EffectsOfNode, Then;
    ThenIsAssociative(EffectsOfNode(dir, n, threshold, cif), NoEffects, NoEffects);
    if a == [] {
      assert [n][1..] == [] && a + [n] == [n];
    } else {
      assert (a + [n])[1..] == a[1..] + [n];
      EffectsAppend(dir, a[1..], n, threshold, cif);
      ThenIsAssociative(EffectsOfNode(dir, a[0], threshold, cif), EffectsOfNodes(dir, a[1..], threshold, cif),
                        EffectsOfNode(dir, n, threshold, cif));
    }
  }

  lemma LastStepMovesNoFile(d: Directory, threshold: real)
    requires d.Directory?
    ensures var e, f := EffectsOf(d, threshold), EffectsOfNodes(d.dirname, d.nodes, threshold, d.logOpens);
      e.unlinked == f.unlinked && e.recorded == f.recorded && e.unlogged == f.unlogged
  {
    var e := EffectsOfNodes(d.dirname, d.nodes, threshold, d.logOpens);
    assert e.unlinked + [] == e.unlinked && e.recorded + [] == e.recorded && e.unlogged + [] == e.unlogged;
  }

  /** The files that stay, with a record or without. */
  function Staying(e: Effects, w: Weight): nat { Weighed(e.recorded, w) + Weighed(e.unlogged, w) }

  lemma StayingThen(a: Effects, b: Effects, w: Weight)
    ensures Staying(Then(a, b), w) == Staying(a, w) + Staying(b, w)
  {
    WeighedAppend(a.recorded, b.recorded, w);
    WeighedAppend(a.unlogged, b.unlogged, w);
  }

  /** The files below the threshold go, in order, and the others stay, whatever they are weighed by. */
  ghost predicate Partitions(e: Effects, gone: seq<Item>, staying: seq<Item>, w: Weight) {
    e.unlinked == gone && Staying(e, w) == Weighed(staying, w)
  }

  /** A collection unlinks exactly the files below the threshold and keeps exactly the others. */
  lemma {:induction false} CollectingPartitions(dir: string, nodes: seq<Node>, threshold: real, cif: bool, w: Weight)
    ensures Partitions(EffectsOfNodes(dir, nodes, threshold, cif),
                       Select(dir, nodes, Under(threshold)), Select(dir, nodes, AtLeast(threshold)), w)
    decreases nodes
  {
    if nodes == [] {
    } else {
      var n := nodes[0];
      if n.directory.Directory? {
        CollectingPartitions(n.directory.dirname, n.directory.nodes, threshold, n.directory.logOpens, w);
        LastStepMovesNoFile(n.directory, threshold);
      } else {
        FileIsKept(dir, n, threshold, cif, w);
      }
      CollectingPartitions(dir, nodes[1..], threshold, cif, w);
      PartitionsThen(EffectsOfNode(dir, n, threshold, cif),
                     SelectOne(dir, n, Under(threshold)), SelectOne(dir, n, AtLeast(threshold)),
                     EffectsOfNodes(dir, nodes[1..], threshold, cif),
                     Select(dir, nodes[1..], Under(threshold)), Select(dir, nodes[1..], AtLeast(threshold)), w);
    }
  }

  lemma PartitionsThen(a: Effects, gone: seq<Item>, staying: seq<Item>,
                       b: Effects, gone': seq<Item>, staying': seq<Item>, w: Weight)
    requires Partitions(a, gone, staying, w) && Partitions(b, gone', staying', w)
    ensures Partitions(Then(a, b), gone + gone', staying + staying', w)
  {
    StayingThen(a, b, w);
    WeighedAppend(staying, staying', w);
    hide Staying, Weighed;
  }

  lemma FileIsKept(dir: string, n: Node, threshold: real, cif: bool, w: Weight)
    requires n.directory.NoDirectory?
    ensures Staying(EffectsOfNode(dir, n, threshold, cif), w) == Weighed(SelectOne(dir, n, AtLeast(threshold)), w)
  {
  }

  /** What the collecting loop adds for one more node. */
  lemma CollectOneMore(d: Directory, i: nat, threshold: real)
    requires d.Directory? && i < |d.nodes|
    ensures var n, before, after := d.nodes[i], d.nodes[..i], d.nodes[..i + 1];
      && EffectsOfNodes(d.dirname, after, threshold, d.logOpens) ==
           Then(EffectsOfNodes(d.dirname, before, threshold, d.logOpens),
                EffectsOfNode(d.dirname, n, threshold, d.logOpens))
      && NewLog(after, threshold) == NewLog(before, threshold) +
           (if n.directory.NoDirectory? && n.value >= threshold then [RecordOf(n)] else [])
      && Removed(after, threshold) == Removed(before, threshold) +
           (if n.directory.NoDirectory? && n.value < threshold then 1 else 0)
  {
    var n := d.nodes[i];
    assert d.nodes[..i + 1] == d.nodes[..i] + [n];
    EffectsAppend(d.dirname, d.nodes[..i], n, threshold, d.logOpens);
    NewLogAppend(d.nodes[..i], [n], threshold);
    assert [n][1..] == [];
  }
}
