/**
 How much a whole run of the garbage collector frees: each pass rounds the bytes it has to collect
 down, and that is all that is lost.
 */
module GcBound {
  import opened GcBuckets
  import opened GarbageCollector
  import opened GcRun

  /** The passes made while the first i entries of a directory are read. */
  function PassesBefore(po: Policy, fraction: real, d: FsDir, i: nat): nat
    requires i <= |d.entries|
    decreases d, 0, i
  {
    if i == 0 then 0
    else
      var e := d.entries[i - 1];
      PassesBefore(po, fraction, d, i - 1) + if IsScanned(e) && e.SubDir? then Passes(po, fraction, e.dir, false) else 0
  }

  /** The passes made for a directory and all below it. */
  function Passes(po: Policy, fraction: real, d: FsDir, doCollect: bool): nat
    decreases d, 1
  {
    if !d.readable then 0
    else
      PassesBefore(po, fraction, d, |d.entries|) +
      if doCollect || ReadingOf(po, fraction, d, |d.entries|).nodeCnt >= po.memLimit then 1 else 0
  }

  /** But for a byte in each pass, the fraction of the total is freed. */
  predicate Covers(freed: int, passes: nat, fraction: real, total: int) {
    freed as real + passes as real >= fraction * total as real
  }

  lemma CoversSum(x: int, m: nat, fraction: real, s: int, y: int, n: nat, t: int)
    requires Covers(x, m, fraction, s) && Covers(y, n, fraction, t)
    ensures Covers(x + y, m + n, fraction, s + t)
  {
    assert (s + t) as real == s as real + t as real && (x + y) as real == x as real + y as real;
    assert fraction * (s as real + t as real) == fraction * s as real + fraction * t as real;
  }

  predicate IsEnough(e: Effects, passes: nat, fraction: real) {
    Covers(SumItems(e.unlinked), passes, fraction, DealtWith(e, Size))
  }

  lemma NothingIsEnough(fraction: real, e: Effects)
    requires e.unlinked == e.recorded == e.unlogged == []
    ensures IsEnough(e, 0, fraction)
  {
    assert DealtWith(e, Size) == 0 && SumItems(e.unlinked) == 0;
    assert fraction * 0.0 == 0.0;
  }

  lemma EnoughInAll(a: Effects, m: nat, b: Effects, n: nat, fraction: real)
    requires IsEnough(a, m, fraction) && IsEnough(b, n, fraction)
    ensures IsEnough(Then(a, b), m + n, fraction)
  {
    ThenAdds(a, b, Size);
    WeighedAppend(a.unlinked, b.unlinked, Size);
    CoversSum(SumItems(a.unlinked), m, fraction, DealtWith(a, Size), SumItems(b.unlinked), n, DealtWith(b, Size));
    hide Covers, DealtWith, Weighed;
  }

  ghost predicate ValuesAreAtMostOne(po: Policy) { forall n: Node :: po.calculateValue(n) <= 1.0 }

  /** What a pass would remove without its last bucket is less than the fraction. */
  lemma PassIsTight(po: Policy, d: Directory, fraction: real)
    requires d.Directory? && 0.0 <= fraction <= 1.0 && ValuesAreAtMostOne(po)
    ensures var e, all := EvaluatedNodes(po, d.nodes), SumItems(Pending(d));
      var n := Cutoff(SumReal(fraction, all), BucketTable(d.dirname, e), 1);
      && PassEffects(po, d, fraction).unlinked == Select(d.dirname, e, InBucketsBelow(n))
      && (n > 1 ==> BelowBytes(d.dirname, e, n - 1) as real < fraction * all as real)
  {
    hide SumReal, Weighed, PassEffects, EvaluatedNodes, Select, BucketBytes, Cutoff;
    PassCollectsEnough(po, d, fraction);
    TruncOfPart(fraction, SumItems(Pending(d)));
  }

  /** Truncating loses less than a byte. */
  lemma TruncationLosesLittle(fraction: real, total: int, freed: int)
    requires freed >= SumReal(fraction, total)
    ensures Covers(freed, 1, fraction, total)
  {
    var x := fraction * total as real;
    assert Trunc(x) as real + 1.0 >= x;
  }

  lemma PassIsEnough(po: Policy, r: Directory, fraction: real)
    requires r.Directory? && 0.0 <= fraction <= 1.0 && ValuesAreAtMostOne(po)
    ensures IsEnough(PassEffects(po, r, fraction), 1, fraction)
  {
    hide SumReal, Covers, PassEffects, Cutoff, Weighed;
    PassCollectsEnough(po, r, fraction);
    PassDealsWithAll(po, r, fraction, Size);
    TruncationLosesLittle(fraction, SumItems(Pending(r)), SumItems(PassEffects(po, r, fraction).unlinked));
    hide DealtWith, Pending;
  }

  /** One more entry: what its directory does, if it is one, comes behind the rest. */
  lemma EntryIsEnough(po: Policy, fraction: real, path: string, s: Reading, m: nat, e: FsEntry, n: nat)
    requires |s.chains| == HASH_SIZE && IsEnough(s.effects, m, fraction)
    requires if IsScanned(e) && e.SubDir? then IsEnough(DirRead(po, fraction, e.dir, false).effects, n, fraction)
             else n == 0
    ensures IsEnough(EntryRead(po, fraction, path, s, e).effects, m + n, fraction)
  {
    hide IsEnough, DirRead, WithNode;
    if IsScanned(e) && e.SubDir? {
      EnoughInAll(s.effects, m, DirRead(po, fraction, e.dir, false).effects, n, fraction);
    } else if IsOldLock(po, e) {
      NothingIsEnough(fraction, LockRemoved(path, e));
      EnoughInAll(s.effects, m, LockRemoved(path, e), 0, fraction);
    }
  }

  lemma LogReadIsDirectory(d: FsDir, s: Reading)
    requires |s.chains| == HASH_SIZE
    ensures LogRead(d, s).Directory?
  {
  }

  lemma {:induction false} ReadingIsEnough(po: Policy, fraction: real, d: FsDir, i: nat)
    requires i <= |d.entries| && 0.0 <= fraction <= 1.0 && ValuesAreAtMostOne(po)
    ensures IsEnough(ReadingOf(po, fraction, d, i).effects, PassesBefore(po, fraction, d, i), fraction)
    decreases d, 0, i
  {
    hide EntryRead, Passes, IsEnough, DirRead, ValuesAreAtMostOne;
    if i == 0 {
      NothingIsEnough(fraction, NoEffects);
    } else {
      var e, s := d.entries[i - 1], ReadingOf(po, fraction, d, i - 1);
      ReadingIsEnough(po, fraction, d, i - 1);
      var n := if IsScanned(e) && e.SubDir? then Passes(po, fraction, e.dir, false) else 0;
      if IsScanned(e) && e.SubDir? {
        DirIsEnough(po, fraction, e.dir, false);
      }
      EntryIsEnough(po, fraction, d.path, s, PassesBefore(po, fraction, d, i - 1), e, n);
    }
  }

  lemma {:induction false} DirIsEnough(po: Policy, fraction: real, d: FsDir, doCollect: bool)
    requires 0.0 <= fraction <= 1.0 && ValuesAreAtMostOne(po)
    ensures IsEnough(DirRead(po, fraction, d, doCollect).effects, Passes(po, fraction, d, doCollect), fraction)
    decreases d, 1
  {
    hide ReadingOf, PassesBefore, IsEnough, PassEffects, Then, LogRead, ValuesAreAtMostOne;
    if !d.readable {
      NothingIsEnough(fraction, NoEffects);
    } else {
      var s := ReadingOf(po, fraction, d, |d.entries|);
      var r := LogRead(d, s);
      LogReadIsDirectory(d, s);
      ReadingIsEnough(po, fraction, d, |d.entries|);
      PassIsEnough(po, r, fraction);
      EnoughInAll(s.effects, PassesBefore(po, fraction, d, |d.entries|), PassEffects(po, r, fraction), 1, fraction);
    }
  }

  function AllPasses(po: Policy, fraction: real, http: FsDir, ftp: FsDir, gopher: FsDir): nat {
    Passes(po, fraction, http, true) + Passes(DropExpired(po), fraction, ftp, true) +
    Passes(DropExpired(po), fraction, gopher, true)
  }

  /** Over a whole run: of all the bytes found in the cache, the fraction is unlinked but for a byte in each pass. */
  lemma RunCollectsEnough(po: Policy, fraction: real, http: FsDir, ftp: FsDir, gopher: FsDir)
    requires WellNamed(http) && WellNamed(ftp) && WellNamed(gopher)
    requires 0.0 <= fraction <= 1.0 && ValuesAreAtMostOne(po)
    ensures Covers(SumItems(GcEffects(po, fraction, http, ftp, gopher).unlinked),
                   AllPasses(po, fraction, http, ftp, gopher), fraction, SumItems(AllScanned(http, ftp, gopher)))
  {
    hide DirRead, Passes, WellNamed, DropExpired, Covers, Then, SumItems, DealtWith, AllScanned, ValuesAreAtMostOne;
    var drop := DropExpired(po);
    DroppingKeepsValues(po);
    RunAddsUp(po, fraction, http, ftp, gopher);
    DirIsEnough(po, fraction, http, true);
    DirIsEnough(drop, fraction, ftp, true);
    DirIsEnough(drop, fraction, gopher, true);
    var a, m := DirRead(po, fraction, http, true).effects, Passes(po, fraction, http, true);
    var b, n := DirRead(drop, fraction, ftp, true).effects, Passes(drop, fraction, ftp, true);
    var c, k := DirRead(drop, fraction, gopher, true).effects, Passes(drop, fraction, gopher, true);
    EnoughInAll(a, m, b, n, fraction);
    EnoughInAll(Then(a, b), m + n, c, k, fraction);
  }

  lemma DroppingKeepsValues(po: Policy)
    requires ValuesAreAtMostOne(po)
    ensures ValuesAreAtMostOne(DropExpired(po))
  {
  }

  /** What is left of the scanned bytes, if they are no more than what is counted. */
  lemma Proportion(scanned: int, unlinked: int, passes: nat, f: real, usage: int, left: real)
    requires 0.0 <= f <= 1.0 && scanned <= 1024 * usage
    requires Covers(unlinked, passes, f, scanned) && usage as real - f * usage as real <= left
    ensures (scanned - unlinked) as real <= 1024.0 * left + passes as real
  {
    var n, u, g := scanned as real, usage as real, 1.0 - f;
    assert f * n == n - g * n && f * u == u - g * u;
    TimesIsMonotone(g, n, 1024.0 * u);
    assert g * (1024.0 * u) == 1024.0 * (g * u);
    assert (scanned - unlinked) as real == n - unlinked as real;
  }

  lemma TimesIsMonotone(g: real, x: real, y: real)
    requires g >= 0.0 && x <= y
    ensures g * x <= g * y
  {
  }

  /**
   The aim of a run: if the usage that the parent has counted is no less than what is there, then what
   is left is at most nine tenths of the limit, but for a byte in each pass.
   */
  lemma RunReachesNineTenths(po: Policy, http: FsDir, ftp: FsDir, gopher: FsDir, usage: int, maxK: int)
    requires WellNamed(http) && WellNamed(ftp) && WellNamed(gopher) && ValuesAreAtMostOne(po)
    requires maxK > 0 && usage > 0 && SumItems(AllScanned(http, ftp, gopher)) <= 1024 * usage
    ensures var f := GcFraction(usage, maxK);
      var left := SumItems(AllScanned(http, ftp, gopher)) - SumItems(GcEffects(po, f, http, ftp, gopher).unlinked);
      left as real <= 0.9 * (1024 * maxK) as real + AllPasses(po, f, http, ftp, gopher) as real
  {
    var f := GcFraction(usage, maxK);
    hide GcFraction, WellNamed, AllPasses, AllScanned, GcEffects, Covers, SumItems, ValuesAreAtMostOne;
    RunCollectsEnough(po, f, http, ftp, gopher);
    Proportion(SumItems(AllScanned(http, ftp, gopher)), SumItems(GcEffects(po, f, http, ftp, gopher).unlinked),
               AllPasses(po, f, http, ftp, gopher), f, usage, 0.9 * maxK as real);
  }
}
