/**
  Lists without repetition: the loops "search the list, append if not found" keep the first
  occurrence of every element. Also the library's `qsort`, as far as its callers see it.
*/
module FirstOccurrences {

  ghost predicate Distinct<T>(xs: seq<T>)
  {
    forall i, j :: 0 <= i < j < |xs| ==> xs[i] != xs[j]
  }

  function AddNew<T(==)>(xs: seq<T>, x: T): seq<T>
  {
    if x in xs then xs else xs + [x]
  }

  function Dedup<T(==)>(xs: seq<T>): seq<T>
  {
    if xs == [] then [] else AddNew(Dedup(xs[..|xs| - 1]), xs[|xs| - 1])
  }

  function IndexOf<T(==)>(xs: seq<T>, x: T): (i: nat)
    requires x in xs
    ensures i < |xs| && xs[i] == x
    ensures forall j :: 0 <= j < i ==> xs[j] != x
  {
    if xs[0] == x then 0 else 1 + IndexOf(xs[1..], x)
  }

  lemma DedupSnoc<T>(xs: seq<T>, x: T)
    ensures Dedup(xs + [x]) == AddNew(Dedup(xs), x)
  {
    assert (xs + [x])[..|xs|] == xs;
  }

  lemma {:induction false} DedupFacts<T>(xs: seq<T>)
    ensures Distinct(Dedup(xs))
    ensures forall x :: x in Dedup(xs) <==> x in xs
    ensures |Dedup(xs)| <= |xs|
  {
    if xs != [] {
      DedupFacts(xs[..|xs| - 1]);
      assert xs == xs[..|xs| - 1] + [xs[|xs| - 1]];
    }
  }

  /** What is listed once stays where it is when more is added. */
  lemma {:induction false} DedupPrefix<T>(xs: seq<T>, ys: seq<T>)
    ensures Dedup(xs) <= Dedup(xs + ys)
  {
    if ys == [] {
      assert xs + ys == xs;
    } else {
      var front, last := ys[..|ys| - 1], ys[|ys| - 1];
      DedupPrefix(xs, front);
      assert xs + ys == (xs + front) + [last];
      DedupSnoc(xs + front, last);
    }
  }

  lemma IndexOfDistinct<T>(xs: seq<T>, i: nat)
    requires Distinct(xs) && i < |xs|
    ensures IndexOf(xs, xs[i]) == i
  {
  }

  /** Pigeonhole: distinct numbers below a bound are at most as many as the bound. */
  lemma {:induction false} DistinctBelow(xs: seq<nat>, low: nat, high: nat)
    requires low <= high && Distinct(xs)
    requires forall x :: x in xs ==> low <= x < high
    ensures |xs| <= high - low
    decreases high - low
  {
    if xs == [] {
    } else if high - 1 !in xs {
      assert xs[0] in xs && xs[0] < high - 1;
      DistinctBelow(xs, low, high - 1);
    } else {
      var i := IndexOf(xs, high - 1);
      var rest := xs[..i] + xs[i + 1..];
      forall x | x in rest
        ensures low <= x < high - 1
      {
        var j :| 0 <= j < |rest| && rest[j] == x;
        var k := if j < i then j else j + 1;
        assert x == xs[k] && xs[k] in xs && k != i;
      }
      DistinctBelow(rest, low, high - 1);
    }
  }

  ghost predicate StrictlyAscending(xs: seq<nat>)
  {
    forall i, j :: 0 <= i < j < |xs| ==> xs[i] < xs[j]
  }

  ghost predicate Sorted(xs: seq<nat>)
  {
    forall i, j :: 0 <= i < j < |xs| ==> xs[i] <= xs[j]
  }

  function Insert(xs: seq<nat>, x: nat): seq<nat>
  {
    if xs == [] then [x]
    else if x <= xs[0] then [x] + xs
    else [xs[0]] + Insert(xs[1..], x)
  }

  lemma {:induction false} InsertElements(xs: seq<nat>, x: nat)
    ensures multiset(Insert(xs, x)) == multiset(xs) + multiset{x}
    ensures forall y :: y in Insert(xs, x) <==> y == x || y in xs
  {
    if xs != [] {
      assert xs == [xs[0]] + xs[1..];
      if x > xs[0] {
        InsertElements(xs[1..], x);
      }
    }
  }

  lemma {:induction false} InsertSorted(xs: seq<nat>, x: nat)
    requires Sorted(xs)
    ensures Sorted(Insert(xs, x))
  {
    if xs != [] && x > xs[0] {
      var rest := Insert(xs[1..], x);
      InsertSorted(xs[1..], x);
      InsertElements(xs[1..], x);
      forall i | 0 <= i < |rest|
        ensures xs[0] <= rest[i]
      {
        assert rest[i] in rest;
      }
      SortedCons(xs[0], rest);
    }
  }

  lemma SortedCons(x: nat, rest: seq<nat>)
    requires Sorted(rest) && forall i :: 0 <= i < |rest| ==> x <= rest[i]
    ensures Sorted([x] + rest)
  {
  }

  /** `qsort` with `compare_uint64`: some ascending arrangement of the same numbers. */
  function Sort(xs: seq<nat>): seq<nat>
  {
    if xs == [] then [] else Insert(Sort(xs[1..]), xs[0])
  }

  lemma {:induction false} SortFacts(xs: seq<nat>)
    ensures Sorted(Sort(xs))
    ensures multiset(Sort(xs)) == multiset(xs)
    ensures |Sort(xs)| == |xs|
    ensures forall x :: x in Sort(xs) <==> x in xs
  {
    if xs != [] {
      SortFacts(xs[1..]);
      InsertSorted(Sort(xs[1..]), xs[0]);
      InsertElements(Sort(xs[1..]), xs[0]);
      assert xs == [xs[0]] + xs[1..];
    }
    SameElements(Sort(xs), xs);
  }

  lemma SameElements(xs: seq<nat>, ys: seq<nat>)
    requires multiset(xs) == multiset(ys)
    ensures |xs| == |ys|
    ensures forall x :: x in xs <==> x in ys
  {
    assert |xs| == |multiset(xs)| && |ys| == |multiset(ys)|;
    forall x
      ensures x in xs <==> x in ys
    {
      assert x in xs <==> x in multiset(xs);
      assert x in ys <==> x in multiset(ys);
    }
  }

  /** Sorting distinct numbers leaves no two equal neighbours. */
  lemma SortDistinct(xs: seq<nat>)
    requires Distinct(xs)
    ensures StrictlyAscending(Sort(xs))
  {
    SortFacts(xs);
    var ys := Sort(xs);
    forall i, j | 0 <= i < j < |ys|
      ensures ys[i] < ys[j]
    {
      if ys[i] == ys[j] {
        assert ys == ys[..i] + [ys[i]] + ys[i + 1..j] + [ys[j]] + ys[j + 1..];
        assert multiset(ys)[ys[i]] >= 2;
        DistinctCount(xs, ys[i]);
      }
    }
  }

  lemma {:induction false} DistinctCount(xs: seq<nat>, x: nat)
    requires Distinct(xs)
    ensures multiset(xs)[x] <= 1
  {
    if xs != [] {
      assert xs == [xs[0]] + xs[1..];
      DistinctCount(xs[1..], x);
      if x == xs[0] {
        assert x !in xs[1..];
        assert multiset(xs[1..])[x] == 0;
      }
    }
  }
}
