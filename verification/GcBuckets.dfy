/**
 How the garbage collector picks a threshold: values are counted in buckets, fine ones
 below a tenth and coarse ones above, and as many buckets are given up as are needed.
 */
module GcBuckets {

  const TABLE_SIZE := 200

  /** Conversion to int truncates toward zero. */
  function Trunc(x: real): int {
    if x >= 0.0 then x.Floor else -((-x).Floor)
  }

  /** The bucket of a value. */
  function MakeInd(value: real): (n: int)
    ensures 0 <= n < TABLE_SIZE
  {
    var n := Trunc(1000.0 * value);
    if n < 0 then 0
    else if n >= TABLE_SIZE / 2 then
      var m := (n - TABLE_SIZE / 2) / 10 + TABLE_SIZE / 2;
      if m >= TABLE_SIZE then TABLE_SIZE - 1 else m
    else n
  }

  /** The value below which the first n buckets lie. */
  function Threshold(n: int): real {
    if n < TABLE_SIZE / 2 then n as real / 1000.0
    else (n - (9 * TABLE_SIZE) / 20) as real / 100.0
  }

  lemma TruncBelow(x: real, n: int)
    requires x >= 0.0 && n > 0
    ensures Trunc(x) < n <==> x < n as real
  {
  }

  /**
   The buckets below n hold exactly the values below the n-th threshold, across the change
   of the bucket width. The one exception is the last bucket, which has no upper end.
   */
  lemma BucketsMatchThreshold(value: real, n: int)
    requires 1 <= n <= TABLE_SIZE
    ensures (MakeInd(value) < n <==> value < Threshold(n)) <==> (n < TABLE_SIZE || value < 1.1)
  {
    if value < 0.0 {
      return;
    }
    var x := 1000.0 * value;
    TruncBelow(x, n);
    TruncBelow(x, 100 + 10 * (n - 100) + 1000);
    if n < TABLE_SIZE / 2 {
    } else if n == TABLE_SIZE / 2 {
    } else {
      TruncBelow(x, 100 + 10 * (n - 100));
    }
  }

  function Sum(t: seq<int>): int {
    if t == [] then 0 else Sum(t[..|t| - 1]) + t[|t| - 1]
  }

  lemma SumOneMore(t: seq<int>, n: nat)
    requires n < |t|
    ensures Sum(t[..n + 1]) == Sum(t[..n]) + t[n]
  {
    assert t[..n + 1][..n] == t[..n];
  }

  /** How many buckets have to go: the first one always, and more until it is enough. */
  function Cutoff(mustCollect: int, t: seq<int>, n: int): (m: int)
    requires 1 <= n <= |t|
    ensures n <= m <= |t|
    ensures m < |t| ==> Sum(t[..m]) >= mustCollect
    ensures m > n ==> Sum(t[..m - 1]) < mustCollect
    decreases |t| - n
  {
    if Sum(t[..n]) < mustCollect && n < |t| then Cutoff(mustCollect, t, n + 1) else n
  }

  /** Enough is given up, and with one bucket less it would not be enough. */
  lemma CutoffIsTight(mustCollect: int, t: seq<int>)
    requires |t| == TABLE_SIZE && mustCollect <= Sum(t)
    ensures var n := Cutoff(mustCollect, t, 1);
      && 1 <= n <= TABLE_SIZE && Sum(t[..n]) >= mustCollect
      && (n > 1 ==> Sum(t[..n - 1]) < mustCollect)
  {
    assert t[..|t|] == t;
  }

  method FindThreshold(mustCollect: int, tbl: array<int>) returns (threshold: real)
    requires tbl.Length == TABLE_SIZE
    ensures threshold == Threshold(Cutoff(mustCollect, tbl[..], 1))
  {
    var incremental := tbl[0];
    assert Sum(tbl[..][..1]) == tbl[0] by { SumOneMore(tbl[..], 0); }
    var n := 1;
    while incremental < mustCollect && n < TABLE_SIZE
      invariant 1 <= n <= TABLE_SIZE && incremental == Sum(tbl[..][..n])
      invariant Cutoff(mustCollect, tbl[..], n) == Cutoff(mustCollect, tbl[..], 1)
      decreases TABLE_SIZE - n
    {
      SumOneMore(tbl[..], n);
      incremental := incremental + tbl[n];
      n := n + 1;
    }
    if n < TABLE_SIZE / 2 {
      threshold := n as real / 1000.0;
    } else {
      threshold := (n - (9 * TABLE_SIZE) / 20) as real / 100.0;
    }
  }
}
