/** The order in which a sorted tree must hand back the objects added to it. */
module StableSort {

  type Comparer<!T> = (T, T) -> int

  /** What every user of a sorted tree assumes of the comparison routine. */
  ghost predicate TotalPreorder<T(!new)>(cmp: Comparer<T>) {
    && (forall a, b :: cmp(a, b) < 0 <==> cmp(b, a) > 0)
    && (forall a, b, c :: NotAbove(cmp, a, b) && NotAbove(cmp, b, c) ==> NotAbove(cmp, a, c))
  }

  predicate NotAbove<T>(cmp: Comparer<T>, a: T, b: T) { cmp(a, b) <= 0 }

  ghost predicate Sorted<T>(cmp: Comparer<T>, xs: seq<T>) {
    forall i, j :: 0 <= i < j < |xs| ==> cmp(xs[i], xs[j]) <= 0
  }

  /** Insert x behind everything that compares equal to it. */
  function InsertStable<T>(cmp: Comparer<T>, xs: seq<T>, x: T): seq<T> {
    if xs == [] then [x]
    else if cmp(x, xs[0]) < 0 then [x] + xs
    else [xs[0]] + InsertStable(cmp, xs[1..], x)
  }

  /** The result of inserting xs one after the other into an empty sequence. */
  function InsertAll<T>(cmp: Comparer<T>, xs: seq<T>): seq<T> {
    if xs == [] then []
    else InsertStable(cmp, InsertAll(cmp, xs[..|xs| - 1]), xs[|xs| - 1])
  }

  /** The members of xs that compare equal to k, in their order of appearance. */
  ghost function Ties<T>(cmp: Comparer<T>, xs: seq<T>, k: T): seq<T> {
    if xs == [] then []
    else (if cmp(xs[0], k) == 0 then [xs[0]] else []) + Ties(cmp, xs[1..], k)
  }

  /** ys is xs sorted, with ties left in their original order. */
  ghost predicate IsStableSortOf<T(!new)>(cmp: Comparer<T>, ys: seq<T>, xs: seq<T>) {
    && Sorted(cmp, ys)
    && multiset(ys) == multiset(xs)
    && forall k :: Ties(cmp, ys, k) == Ties(cmp, xs, k)
  }

  lemma {:induction false} InsertBetween<T>(cmp: Comparer<T>, before: seq<T>, x: T, after: seq<T>)
    requires forall b :: b in before ==> cmp(x, b) >= 0
    requires forall a :: a in after ==> cmp(x, a) < 0
    ensures InsertStable(cmp, before + after, x) == before + [x] + after
  {
    if before == [] {
      assert before + after == after;
    } else {
      var head, tail := [before[0]], before[1..];
      assert (before + after)[1..] == tail + after && before == head + tail;
      InsertBetween(cmp, tail, x, after);
      assert InsertStable(cmp, before + after, x) == head + (tail + [x] + after);
      hide InsertStable;
      Reassociate(head, tail + [x], after);
      Reassociate(head, tail, [x]);
    }
  }

  lemma {:induction false} TiesAppend<T>(cmp: Comparer<T>, a: seq<T>, b: seq<T>, k: T)
    ensures Ties(cmp, a + b, k) == Ties(cmp, a, k) + Ties(cmp, b, k)
  {
    if a == [] {
      assert a + b == b;
    } else {
      assert (a + b)[1..] == a[1..] + b && (a + b)[0] == a[0];
      TiesAppend(cmp, a[1..], b, k);
      Reassociate(if cmp(a[0], k) == 0 then [a[0]] else [], Ties(cmp, a[1..], k), Ties(cmp, b, k));
    }
  }

  lemma Reassociate<T>(a: seq<T>, b: seq<T>, c: seq<T>)
    ensures a + (b + c) == a + b + c
  {
  }

  lemma {:induction false} InsertKeepsMembers<T>(cmp: Comparer<T>, xs: seq<T>, x: T)
    ensures multiset(InsertStable(cmp, xs, x)) == multiset(xs) + multiset{x}
  {
    if xs == [] || cmp(x, xs[0]) < 0 {
    } else {
      InsertKeepsMembers(cmp, xs[1..], x);
      assert xs == [xs[0]] + xs[1..];
    }
  }

  lemma SortedFrom<T(!new)>(cmp: Comparer<T>, x: T, xs: seq<T>)
    requires Sorted(cmp, xs) && forall y :: y in xs ==> cmp(x, y) <= 0
    ensures Sorted(cmp, [x] + xs)
  {
  }

  lemma FirstIsNotAbove<T(!new)>(cmp: Comparer<T>, xs: seq<T>, x: T)
    requires TotalPreorder(cmp) && Sorted(cmp, xs) && xs != [] && cmp(x, xs[0]) < 0
    ensures forall y :: y in xs ==> cmp(x, y) <= 0
  {
    forall i | 0 <= i < |xs| ensures cmp(x, xs[i]) <= 0 {
      assert NotAbove(cmp, x, xs[0]) && (i > 0 ==> NotAbove(cmp, xs[0], xs[i]));
    }
  }

  lemma {:induction false} InsertKeepsSorted<T(!new)>(cmp: Comparer<T>, xs: seq<T>, x: T)
    requires TotalPreorder(cmp) && Sorted(cmp, xs)
    ensures Sorted(cmp, InsertStable(cmp, xs, x))
  {
    if xs == [] {
    } else if cmp(x, xs[0]) < 0 {
      FirstIsNotAbove(cmp, xs, x);
      SortedFrom(cmp, x, xs);
    } else {
      var rest := InsertStable(cmp, xs[1..], x);
      InsertKeepsSorted(cmp, xs[1..], x);
      InsertKeepsMembers(cmp, xs[1..], x);
      forall y | y in rest ensures cmp(xs[0], y) <= 0 {
        assert y in multiset(rest);
        assert y == x || y in xs[1..];
      }
      SortedFrom(cmp, xs[0], rest);
    }
  }

  lemma {:induction false} TieOfOne<T>(cmp: Comparer<T>, x: T, k: T)
    ensures Ties(cmp, [x], k) == if cmp(x, k) == 0 then [x] else []
  {
    assert [x][1..] == [];
  }

  /** In front of what is above x there is nothing that x ties with. */
  lemma NothingTiesBehind<T(!new)>(cmp: Comparer<T>, xs: seq<T>, x: T, k: T)
    requires TotalPreorder(cmp) && Sorted(cmp, xs) && xs != [] && cmp(x, xs[0]) < 0 && cmp(x, k) == 0
    ensures Ties(cmp, xs, k) == []
  {
    assert cmp(k, xs[0]) < 0 by {
      if NotAbove(cmp, xs[0], k) { assert NotAbove(cmp, k, x); }
    }
    NoTiesAbove(cmp, xs, k);
  }

  lemma {:induction false} InsertGoesBehindTies<T(!new)>(cmp: Comparer<T>, xs: seq<T>, x: T, k: T)
    requires TotalPreorder(cmp) && Sorted(cmp, xs)
    ensures Ties(cmp, InsertStable(cmp, xs, x), k) == Ties(cmp, xs + [x], k)
  {
    assert xs != [] ==> Sorted(cmp, xs[1..]);
    hide TotalPreorder, Sorted;
    TiesAppend(cmp, xs, [x], k);
    TieOfOne(cmp, x, k);
    if xs == [] {
      assert [] + [x] == [x];
    } else if cmp(x, xs[0]) < 0 {
      hide Ties;
      TiesAppend(cmp, [x], xs, k);
      if cmp(x, k) == 0 { NothingTiesBehind(cmp, xs, x, k); }
      NothingAround(Ties(cmp, xs, k));
      NothingAround(Ties(cmp, [x], k));
    } else {
      InsertGoesBehindTies(cmp, xs[1..], x, k);
      TiesStep(cmp, xs, InsertStable(cmp, xs[1..], x), x, k);
    }
  }

  lemma NothingAround<T>(s: seq<T>)
    ensures [] + s == s == s + []
  {
  }

  lemma TiesStep<T>(cmp: Comparer<T>, xs: seq<T>, rest: seq<T>, x: T, k: T)
    requires xs != [] && Ties(cmp, rest, k) == Ties(cmp, xs[1..] + [x], k)
    ensures Ties(cmp, [xs[0]] + rest, k) == Ties(cmp, xs + [x], k)
  {
    hide Ties;
    TiesAppend(cmp, [xs[0]], rest, k);
    TiesAppend(cmp, [xs[0]], xs[1..] + [x], k);
    assert xs + [x] == [xs[0]] + (xs[1..] + [x]);
  }

  lemma {:induction false} NoTiesAbove<T(!new)>(cmp: Comparer<T>, xs: seq<T>, k: T)
    requires TotalPreorder(cmp) && Sorted(cmp, xs)
    requires xs != [] ==> cmp(k, xs[0]) < 0
    ensures Ties(cmp, xs, k) == []
  {
    if xs == [] {
    } else {
      if |xs| > 1 {
        assert NotAbove(cmp, xs[0], xs[1]);
        if NotAbove(cmp, xs[1], k) { assert false; }
      }
      NoTiesAbove(cmp, xs[1..], k);
    }
  }

  /** Inserting one by one is a stable sort of the insertion sequence. */
  lemma {:induction false} InsertAllIsStableSort<T(!new)>(cmp: Comparer<T>, xs: seq<T>)
    requires TotalPreorder(cmp)
    ensures IsStableSortOf(cmp, InsertAll(cmp, xs), xs)
  {
    if xs == [] {
    } else {
      var init, x := xs[..|xs| - 1], xs[|xs| - 1];
      assert xs == init + [x];
      var ys := InsertAll(cmp, init);
      InsertAllIsStableSort(cmp, init);
      InsertKeepsSorted(cmp, ys, x);
      InsertKeepsMembers(cmp, ys, x);
      forall k ensures Ties(cmp, InsertAll(cmp, xs), k) == Ties(cmp, xs, k) {
        InsertGoesBehindTies(cmp, ys, x, k);
        TiesAppend(cmp, ys, [x], k);
        TiesAppend(cmp, init, [x], k);
      }
    }
  }

  /** A sequence has only one stable sort. */
  lemma {:induction false} StableSortIsUnique<T(!new)>(cmp: Comparer<T>, ys: seq<T>, zs: seq<T>)
    requires TotalPreorder(cmp) && Sorted(cmp, ys) && Sorted(cmp, zs)
    requires forall k :: Ties(cmp, ys, k) == Ties(cmp, zs, k)
    ensures ys == zs
  {
    if ys == [] {
      if zs != [] { HeadIsLeast(cmp, zs, ys); }
    } else {
      HeadIsLeast(cmp, ys, zs);
      HeadIsLeast(cmp, zs, ys);
      var k := ys[0];
      assert Ties(cmp, ys, k)[0] == ys[0];
      assert Ties(cmp, zs, k)[0] == zs[0];
      forall j ensures Ties(cmp, ys[1..], j) == Ties(cmp, zs[1..], j) {
        assert Ties(cmp, ys, j) == Ties(cmp, zs, j);
        var head := if cmp(k, j) == 0 then [k] else [];
        assert Ties(cmp, ys, j)[|head|..] == Ties(cmp, ys[1..], j);
        assert Ties(cmp, zs, j)[|head|..] == Ties(cmp, zs[1..], j);
      }
      StableSortIsUnique(cmp, ys[1..], zs[1..]);
      assert ys == [ys[0]] + ys[1..];
      assert zs == [zs[0]] + zs[1..];
    }
  }

  lemma {:induction false} TiesAreMembers<T>(cmp: Comparer<T>, xs: seq<T>, k: T)
    ensures forall y :: y in Ties(cmp, xs, k) ==> y in xs && cmp(y, k) == 0
  {
    if xs == [] {
    } else {
      TiesAreMembers(cmp, xs[1..], k);
    }
  }

  lemma HeadIsLeast<T(!new)>(cmp: Comparer<T>, ys: seq<T>, zs: seq<T>)
    requires TotalPreorder(cmp) && Sorted(cmp, ys) && Sorted(cmp, zs) && ys != []
    requires forall k :: Ties(cmp, ys, k) == Ties(cmp, zs, k)
    ensures zs != [] && cmp(zs[0], ys[0]) <= 0
  {
    var k := ys[0];
    assert cmp(k, k) == 0;
    assert Ties(cmp, ys, k)[0] == k;
    assert k in Ties(cmp, zs, k);
    TiesAreMembers(cmp, zs, k);
    var i :| 0 <= i < |zs| && zs[i] == k;
  }
}
