/**
 Accounting for the space the cache takes: a child tells its parent how much it has stored
 by its exit status, which has eight bits, and the parent adds it up.
 */
module Usage {
  import CacheWriter

  const INT_MAX := 0x7fff_ffff

  /** A long assigned to an int. */
  function ToInt(n: int): int {
    var m := n % 0x1_0000_0000;
    if m <= INT_MAX then m else m - 0x1_0000_0000
  }

  /** The kilobytes in a number of bytes. */
  function Kilos(bytes: nat): int { ToInt(bytes / 1024) }

  function BytesToExitStatus(bytes: nat): int {
    var kilos := Kilos(bytes);
    if kilos < 100 then kilos + 1
    else if kilos < 1000 then 100 + (kilos - 100) / 10
    else if kilos < 5000 then 200 + (kilos - 1000) / 100
    else if kilos < 10000 then 250 + (kilos - 5000) / 1000
    else 255
  }

  function ExitStatusToKilos(status: int): int {
    if status < 100 then status
    else if status < 200 then (status - 100) * 10 + 100
    else if status < 250 then (status - 200) * 100 + 1000
    else if status < 255 then (status - 250) * 1000 + 5000
    else 10000
  }

  /** What the parent adds for a child that has stored this many bytes. */
  function Reported(bytes: nat): int { ExitStatusToKilos(BytesToExitStatus(bytes)) }

  /** The statuses that stand for an amount; in between there are two gaps. */
  predicate IsCode(status: int) { 1 <= status < 190 || 200 <= status < 240 || 250 <= status <= 255 }

  /** An exit status can carry the code exactly if the kilobytes have not wrapped around. */
  lemma StatusFitsByte(bytes: nat)
    ensures 1 <= BytesToExitStatus(bytes) <= 255 <==> Kilos(bytes) >= 0
    ensures IsCode(BytesToExitStatus(bytes)) <==> Kilos(bytes) >= 0
  {
  }

  /** Each code stands for some amount. */
  lemma CodesAreUsed(status: int) returns (bytes: nat)
    requires IsCode(status)
    ensures BytesToExitStatus(bytes) == status
  {
    bytes := 1024 * (if status <= 100 then status - 1 else ExitStatusToKilos(status));
    assert bytes / 1024 == if status <= 100 then status - 1 else ExitStatusToKilos(status);
  }

  predicate FitsInt(bytes: nat) { bytes / 1024 <= INT_MAX }

  /** A status in the gap before a change of scale against the first status behind it. */
  predicate Crosses(s: int, t: int) { (190 < s < 200 && t == 200) || (240 < s < 250 && t == 250) }

  /** Exactly these pairs of statuses are decoded the wrong way round. */
  lemma DecodingIsMonotoneIff(s: int, t: int)
    requires s <= t
    ensures ExitStatusToKilos(s) <= ExitStatusToKilos(t) <==> !Crosses(s, t)
  {
    assert s < 100 && t >= 100 ==> ExitStatusToKilos(s) < 100 <= ExitStatusToKilos(t);
  }

  /** Reading statuses is monotone on the codes, none of which is in a gap. */
  lemma DecodingIsMonotoneOnCodes(s: int, t: int)
    requires s <= t && IsCode(s) && IsCode(t)
    ensures ExitStatusToKilos(s) <= ExitStatusToKilos(t)
  {
    DecodingIsMonotoneIff(s, t);
  }

  /** More bytes never give a smaller status, nor a smaller report. */
  lemma ReportsAreMonotone(a: nat, b: nat)
    requires a <= b && FitsInt(b)
    ensures BytesToExitStatus(a) <= BytesToExitStatus(b) && Reported(a) <= Reported(b)
  {
    var k, l := a / 1024, b / 1024;
    assert 0 <= k <= l && Kilos(a) == k && Kilos(b) == l;
    StatusFitsByte(a);
    StatusFitsByte(b);
    assert BytesToExitStatus(a) <= BytesToExitStatus(b);
    DecodingIsMonotoneOnCodes(BytesToExitStatus(a), BytesToExitStatus(b));
  }

  function Min(a: int, b: int): int { if a < b then a else b }

  /** A report is at most one kilobyte too high; it is at most a sixth too low exactly up to twelve thousand. */
  lemma ReportIsClose(bytes: nat)
    requires FitsInt(bytes)
    ensures Reported(bytes) <= Kilos(bytes) + 1
    ensures 6 * Reported(bytes) >= 5 * Min(Kilos(bytes), 12000)
    ensures 6144 * Reported(bytes) >= 5 * bytes <==> bytes <= 12000 * 1024
  {
    assert 1024 * Kilos(bytes) <= bytes < 1024 * (Kilos(bytes) + 1);
  }

  // ---- What a child reports, and what it has stored ----

  /**
   What a child has done when it ends: nothing for the cache, or a transfer. The size of the file
   is asked for before the file is closed, so the last bytes may still be in its buffer.
   */
  datatype Job = Idle | Transfer(w: CacheWriter.Writer, unflushed: nat, sized: bool)

  type Work = j: Job | j.Transfer? ==> j.unflushed <= |j.w.file| witness Idle

  /** Does cache_free set the exit status? It does so before it looks at the announced length. */
  predicate IsCounted(j: Work) { j.Transfer? && j.w.mode.CopyBody? && j.sized }

  predicate IsCommitted(j: Work) { j.Transfer? && CacheWriter.Outcome(j.w).Complete? }

  /** The size that fstat finds, if it is asked and answers. */
  function Seen(j: Work): (bytes: int)
    ensures bytes >= 0
  {
    if IsCounted(j) then |j.w.file| - j.unflushed else 0
  }

  function ExitStatus(j: Work): int { if IsCounted(j) then BytesToExitStatus(Seen(j)) else 0 }

  /** What the parent adds for it. */
  function Charge(j: Work): int { ExitStatusToKilos(ExitStatus(j)) }

  /** What the cache has grown by. */
  function Stored(j: Work): (bytes: int)
    ensures bytes >= 0
  {
    if IsCommitted(j) then |j.w.file| else 0
  }

  /** The bytes stored that fstat has not seen. */
  function Missed(j: Work): int {
    if !IsCommitted(j) then 0 else if j.sized then j.unflushed else |j.w.file|
  }

  /** The bytes seen of a file that is then cancelled. */
  function Wasted(j: Work): int { if IsCounted(j) && !IsCommitted(j) then |j.w.file| - j.unflushed else 0 }

  function One(j: Work): int { if IsCounted(j) then 1 else 0 }

  function SeenKilos(j: Work): int { Kilos(Seen(j)) }

  function Sum(f: Work -> int, works: seq<Work>): int {
    if works == [] then 0 else f(works[0]) + Sum(f, works[1..])
  }

  /** Apart from the bytes missed and those wasted, what is seen is what is stored. */
  lemma {:induction false} SeenIsStored(works: seq<Work>)
    ensures Sum(Seen, works) + Sum(Missed, works) == Sum(Stored, works) + Sum(Wasted, works)
  {
    if works == [] {
    } else {
      SeenIsStored(works[1..]);
    }
  }

  /** The children that ask for the size of a file that they have been copying, and are answered. */
  function Askers(works: seq<Work>): set<int> { set i | 0 <= i < |works| && Asks(works[i]) }

  lemma AskersOneMore(works: seq<Work>)
    requires works != []
    ensures var n := |works| - 1;
      var before := Askers(works[..n]);
      n !in before && Askers(works) == if Asks(works[n]) then before + {n} else before
  {
    hide Asks;
    var init, n := works[..|works| - 1], |works| - 1;
    assert forall i :: 0 <= i < n ==> init[i] == works[i];
  }

  lemma {:induction false} CountedAreMany(works: seq<Work>)
    ensures Sum(One, works) == |Askers(works)|
  {
    if works == [] {
      assert Askers(works) == {};
    } else {
      var n := |works| - 1;
      CountedAreMany(works[..n]);
      AskersOneMore(works);
      LastIsAdded(One, works);
      assert One(works[n]) == if Asks(works[n]) then 1 else 0;
      hide Asks, One, Sum, Askers;
    }
  }

  predicate Asks(j: Work) { j.Transfer? && j.w.mode == CacheWriter.CopyBody && j.sized }

  lemma {:induction false} LastIsAdded(f: Work -> int, works: seq<Work>)
    requires works != []
    ensures Sum(f, works) == Sum(f, works[..|works| - 1]) + f(works[|works| - 1])
  {
    if |works| == 1 {
    } else {
      LastIsAdded(f, works[1..]);
      assert works[1..][..|works| - 2] == works[..|works| - 1][1..];
    }
  }

  predicate AllFit(works: seq<Work>) { forall j :: j in works ==> Seen(j) <= 12000 * 1024 }

  lemma OneIsClose(j: Work)
    requires Seen(j) <= 12000 * 1024
    ensures Charge(j) <= SeenKilos(j) + One(j) && 1024 * SeenKilos(j) <= Seen(j) && 6144 * Charge(j) >= 5 * Seen(j)
  {
    ReportIsClose(Seen(j));
  }

  /** Over any number of children, each seeing at most twelve thousand kilobytes, the error stays in proportion. */
  lemma {:induction false} UsageIsClose(works: seq<Work>)
    requires AllFit(works)
    ensures Sum(Charge, works) <= Sum(SeenKilos, works) + Sum(One, works)
    ensures 1024 * Sum(SeenKilos, works) <= Sum(Seen, works)
    ensures 6144 * Sum(Charge, works) >= 5 * Sum(Seen, works)
  {
    if works == [] {
    } else {
      OneIsClose(works[0]);
      hide Charge, SeenKilos, One, Seen;
      UsageIsClose(works[1..]);
    }
  }

  /** Is the size seen that of what is stored? */
  predicate IsExact(j: Work) { Missed(j) == 0 && Wasted(j) == 0 }

  lemma {:induction false} NothingMissedOrWasted(works: seq<Work>)
    requires forall j :: j in works ==> IsExact(j)
    ensures Sum(Missed, works) == 0 && Sum(Wasted, works) == 0
  {
    if works == [] {
    } else {
      assert IsExact(works[0]);
      NothingMissedOrWasted(works[1..]);
    }
  }

  /**
   Against what is stored, the usage is off by the bytes missed and those wasted, and no more than
   that: it is close to the truth if there are none.
   */
  lemma UsageAgainstStored(works: seq<Work>)
    requires AllFit(works)
    ensures var truth := Sum(Stored, works) - Sum(Missed, works) + Sum(Wasted, works);
      1024 * Sum(Charge, works) <= truth + 1024 * Sum(One, works) && 6144 * Sum(Charge, works) >= 5 * truth
    ensures (forall j :: j in works ==> IsExact(j)) ==>
      && 1024 * Sum(Charge, works) <= Sum(Stored, works) + 1024 * Sum(One, works)
      && 6144 * Sum(Charge, works) >= 5 * Sum(Stored, works)
  {
    UsageIsClose(works);
    SeenIsStored(works);
    if forall j :: j in works ==> IsExact(j) {
      NothingMissedOrWasted(works);
    }
  }

  /** The bound that a report keeps for the bytes it is about. */
  predicate IsClose(charge: int, bytes: nat) {
    charge <= Kilos(bytes) + 1 && 6 * charge >= 5 * Kilos(bytes)
  }

  /** A file that is still in its buffer as a whole is charged one kilobyte, whatever its size. */
  lemma BufferedIsChargedOne(j: Work)
    requires IsCommitted(j) && j.sized && j.unflushed == |j.w.file| && FitsInt(Stored(j))
    ensures Charge(j) == 1
    ensures IsClose(Charge(j), Stored(j)) <==> Stored(j) < 2048
  {
    assert Kilos(Stored(j)) == Stored(j) / 1024;
    assert 6 >= 5 * Kilos(Stored(j)) <==> Kilos(Stored(j)) <= 1;
  }

  /** A file that is then cancelled is charged for what was seen of it. */
  lemma CancelledIsCharged(j: Work)
    requires IsCounted(j) && !IsCommitted(j) && FitsInt(Seen(j))
    ensures Stored(j) == 0 && Charge(j) == Reported(Seen(j)) >= 1
    ensures IsClose(Charge(j), Stored(j)) <==> Seen(j) < 1024
  {
    assert Kilos(Seen(j)) == Seen(j) / 1024;
  }

  /**
   For a reply worth caching: it is charged by what was seen of the file, in any case; it is stored
   if its length agrees with what was announced.
   */
  lemma ReplyIsCharged(rq: CacheWriter.Request, connected: bool, status: string, headers: seq<string>, blank: string,
                       body: string, unflushed: nat)
    requires CacheWriter.GoodHead(rq, status, headers) && CacheWriter.StatusOf(status) == 200
    requires CacheWriter.EndsHeaders(blank) && CacheWriter.Worth(rq, headers)
    requires unflushed <= |CacheWriter.Reply(rq, connected, status, headers, blank, body).file|
    ensures var w := CacheWriter.Reply(rq, connected, status, headers, blank, body);
      var file := CacheWriter.SpilledHead(status, headers) +
        CacheWriter.Copied(rq.http1 && connected, status, headers, blank, body);
      var j, announced := Transfer(w, unflushed, true), CacheWriter.AnnouncedLength(headers);
      && unflushed <= |file| && Charge(j) == Reported(|file| - unflushed)
      && Stored(j) == if announced <= 0 || announced == |body| then |file| else 0
  {
    hide CacheWriter.Reply, CacheWriter.GoodHead, CacheWriter.StatusOf, CacheWriter.EndsHeaders, CacheWriter.Worth,
      CacheWriter.SpilledHead, CacheWriter.Copied, CacheWriter.AnnouncedLength, BytesToExitStatus, ExitStatusToKilos;
    CacheWriter.ReplyIsCopied(rq, connected, status, headers, blank, body);
  }

  /** The state behind the headers of a cached reply to a client of HTTP/0.9, and a body. */
  function WithBody(rq: CacheWriter.Request, length: int, body: string): CacheWriter.Writer {
    CacheWriter.PutAll(rq, CacheWriter.Initial.(mode := CacheWriter.CopyBody, status := 200, contentLength := length),
                       body)
  }

  /** 3000 bytes that are stored are charged as one kilobyte if none of them has left the buffer. */
  lemma SmallFileIsUndercharged(rq: CacheWriter.Request) returns (j: Work)
    ensures j.Transfer? && j.w == WithBody(rq, 0, seq(3000, _ => 'x'))
    ensures Stored(j) == 3000 && Charge(j) == 1 && !IsClose(Charge(j), Stored(j))
  {
    var body := seq(3000, _ => 'x');
    var w0 := CacheWriter.Initial.(mode := CacheWriter.CopyBody, status := 200, contentLength := 0);
    CacheWriter.BodyIsCopied(rq, w0, body);
    j := Transfer(WithBody(rq, 0, body), 3000, true);
    BufferedIsChargedOne(j);
  }

  /** 3000 bytes of 4000 announced are cancelled, and charged as three kilobytes if all have left the buffer. */
  lemma CancelledIsOvercharged(rq: CacheWriter.Request) returns (j: Work)
    ensures j.Transfer? && j.w == WithBody(rq, 4000, seq(3000, _ => 'x'))
    ensures Stored(j) == 0 && Charge(j) == 3 && !IsClose(Charge(j), Stored(j))
  {
    var body := seq(3000, _ => 'x');
    var w0 := CacheWriter.Initial.(mode := CacheWriter.CopyBody, status := 200, contentLength := 4000);
    CacheWriter.BodyIsCopied(rq, w0, body);
    j := Transfer(WithBody(rq, 4000, body), 0, true);
    CancelledIsCharged(j);
  }

  // ---- The parent ----

  /** How a child has ended. */
  datatype Child = Exited(status: int) | Killed

  function Charged(children: seq<Child>): int {
    if children == [] then 0
    else (if children[0].Exited? then ExitStatusToKilos(children[0].status) else 0) + Charged(children[1..])
  }

  /** The statuses of those that exited. */
  function Statuses(children: seq<Child>): seq<int> {
    if children == [] then []
    else (if children[0].Exited? then [children[0].status] else []) + Statuses(children[1..])
  }

  /** The codes that children with this work exit with. */
  function Codes(works: seq<Work>): seq<int> {
    if works == [] then [] else [ExitStatus(works[0])] + Codes(works[1..])
  }

  /** Children that exit with their code are charged what they report; killed ones are not charged. */
  lemma {:induction false} WorkIsCharged(children: seq<Child>, works: seq<Work>)
    requires Statuses(children) == Codes(works)
    ensures Charged(children) == Sum(Charge, works)
    decreases |children|
  {
    hide ExitStatus, ExitStatusToKilos;
    if children == [] {
      assert works == [];
    } else if children[0].Exited? {
      assert Statuses(children)[1..] == Statuses(children[1..]);
      assert Codes(works)[1..] == Codes(works[1..]);
      WorkIsCharged(children[1..], works[1..]);
    } else {
      WorkIsCharged(children[1..], works);
    }
  }

  function All(batches: seq<seq<Child>>): seq<Child> {
    if batches == [] then [] else batches[0] + All(batches[1..])
  }

  function ChargedInBatches(batches: seq<seq<Child>>): int {
    if batches == [] then 0 else Charged(batches[0]) + ChargedInBatches(batches[1..])
  }

  lemma {:induction false} ChargedAppend(a: seq<Child>, b: seq<Child>)
    ensures Charged(a + b) == Charged(a) + Charged(b)
  {
    if a == [] {
      assert a + b == b;
    } else {
      assert (a + b)[1..] == a[1..] + b;
      ChargedAppend(a[1..], b);
    }
  }

  lemma {:induction false} BatchesDoNotMatter(batches: seq<seq<Child>>)
    ensures ChargedInBatches(batches) == Charged(All(batches))
  {
    if batches == [] {
    } else {
      BatchesDoNotMatter(batches[1..]);
      ChargedAppend(batches[0], All(batches[1..]));
    }
  }

  /**
   However the children are reaped, in however many calls of the handler, among others that were
   killed: the usage is close to what was seen, and off what is stored by what was missed or wasted.
   */
  lemma UsageIsCloseInBatches(works: seq<Work>, batches: seq<seq<Child>>)
    requires Statuses(All(batches)) == Codes(works)
    requires AllFit(works)
    ensures var added := ChargedInBatches(batches);
      && added <= Sum(SeenKilos, works) + Sum(One, works) && 6144 * added >= 5 * Sum(Seen, works)
    ensures var added, truth := ChargedInBatches(batches), Sum(Stored, works) - Sum(Missed, works) + Sum(Wasted, works);
      1024 * added <= truth + 1024 * Sum(One, works) && 6144 * added >= 5 * truth
  {
    hide Charge, Seen, Stored, Missed, Wasted, One, SeenKilos;
    UsageIsClose(works);
    UsageAgainstStored(works);
    WorkIsCharged(All(batches), works);
    BatchesDoNotMatter(batches);
  }

  class Parent {
    var cacheUsage: int
    var cacheRoot: bool         // is there a cache?

    constructor (cacheRoot: bool)
      ensures cacheUsage == 0 && this.cacheRoot == cacheRoot
    {
      this.cacheRoot := cacheRoot;
      cacheUsage := 0;
    }

    /** Reap the children that have ended. */
    method SigChild(children: seq<Child>)
      modifies `cacheUsage
      ensures cacheUsage == old(cacheUsage) + if cacheRoot then Charged(children) else 0
    {
      assert children[0..] == children;
      for i := 0 to |children|
        invariant cacheUsage + (if cacheRoot then Charged(children[i..]) else 0)
          == old(cacheUsage) + if cacheRoot then Charged(children) else 0
      {
        assert children[i..][1..] == children[i + 1..];
        if cacheRoot && children[i].Exited? {
          var childUsage := ExitStatusToKilos(children[i].status);
          cacheUsage := cacheUsage + childUsage;
        }
      }
    }

    /** One signal after the other. */
    method SigChildren(batches: seq<seq<Child>>)
      modifies `cacheUsage
      ensures cacheUsage == old(cacheUsage) + if cacheRoot then ChargedInBatches(batches) else 0
    {
      assert batches[0..] == batches;
      for i := 0 to |batches|
        invariant cacheUsage + (if cacheRoot then ChargedInBatches(batches[i..]) else 0)
          == old(cacheUsage) + if cacheRoot then ChargedInBatches(batches) else 0
      {
        assert batches[i..][1..] == batches[i + 1..];
        SigChild(batches[i]);
      }
    }
  }
}
