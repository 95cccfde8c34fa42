/** Sequences without duplicates, and stable sorting by a total order. */
module Sequences {
  ghost predicate NoDuplicates<T>(xs: seq<T>) {
    forall i, j :: 0 <= i < j < |xs| ==> xs[i] != xs[j]
  }

  lemma {:induction false} CountOnce<T>(xs: seq<T>, x: T)
    requires NoDuplicates(xs)
    ensures multiset(xs)[x] == if x in xs then 1 else 0
  {
    if xs != [] {
      assert xs == xs[..|xs| - 1] + [xs[|xs| - 1]];
      CountOnce(xs[..|xs| - 1], x);
    }
  }

  /** Two duplicate-free sequences with the same members are permutations. */
  lemma SameMembers<T>(xs: seq<T>, ys: seq<T>)
    requires NoDuplicates(xs) && NoDuplicates(ys) && forall x :: x in xs <==> x in ys
    ensures multiset(xs) == multiset(ys)
  {
    forall x: T
      ensures multiset(xs)[x] == multiset(ys)[x]
    {
      CountOnce(xs, x);
      CountOnce(ys, x);
    }
  }

  lemma PermutedNoDuplicates<T>(xs: seq<T>, ys: seq<T>)
    requires multiset(xs) == multiset(ys) && NoDuplicates(xs)
    ensures NoDuplicates(ys) && forall x :: x in xs <==> x in ys
  {
    forall x: T
      ensures x in xs <==> x in ys
    {
      assert x in xs <==> x in multiset(xs);
      assert x in ys <==> x in multiset(ys);
    }
    forall i, j | 0 <= i < j < |ys|
      ensures ys[i] != ys[j]
    {
      CountOnce(xs, ys[i]);
      assert ys == ys[..j] + ys[j..];
      assert ys[i] == ys[..j][i] && ys[j] == ys[j..][0];
    }
  }

  ghost predicate IsTotal<T(!new)>(leq: (T, T) -> bool) {
    && (forall a, b :: leq(a, b) || leq(b, a))
    && (forall a, b, c :: leq(a, b) && leq(b, c) ==> leq(a, c))
  }

  ghost predicate IsSorted<T(!new)>(leq: (T, T) -> bool, xs: seq<T>) {
    forall i, j :: 0 <= i < j < |xs| ==> leq(xs[i], xs[j])
  }

  function Insert<T>(leq: (T, T) -> bool, x: T, xs: seq<T>): seq<T> {
    if xs == [] || leq(x, xs[0]) then [x] + xs else [xs[0]] + Insert(leq, x, xs[1..])
  }

  function Sorted<T>(leq: (T, T) -> bool, xs: seq<T>): seq<T> {
    if xs == [] then [] else Insert(leq, xs[0], Sorted(leq, xs[1..]))
  }

  lemma {:induction false} InsertMembers<T>(leq: (T, T) -> bool, x: T, xs: seq<T>)
    ensures multiset(Insert(leq, x, xs)) == multiset([x] + xs)
  {
    if xs != [] && !leq(x, xs[0]) {
      InsertMembers(leq, x, xs[1..]);
      assert xs == [xs[0]] + xs[1..];
    }
  }

  ghost predicate Below<T(!new)>(leq: (T, T) -> bool, x: T, xs: seq<T>) {
    forall i :: 0 <= i < |xs| ==> leq(x, xs[i])
  }

  lemma {:induction false} InsertBelow<T(!new)>(leq: (T, T) -> bool, y: T, x: T, xs: seq<T>)
    requires Below(leq, y, xs) && leq(y, x)
    ensures Below(leq, y, Insert(leq, x, xs))
  {
    if xs != [] && !leq(x, xs[0]) { InsertBelow(leq, y, x, xs[1..]); }
  }

  lemma {:induction false} InsertSorts<T(!new)>(leq: (T, T) -> bool, x: T, xs: seq<T>)
    requires IsTotal(leq) && IsSorted(leq, xs)
    ensures IsSorted(leq, Insert(leq, x, xs))
  {
    if xs != [] {
      assert leq(x, xs[0]) || leq(xs[0], x);
      if leq(x, xs[0]) {
        forall i | 0 <= i < |xs|
          ensures leq(x, xs[i])
        {
          if i > 0 { assert leq(xs[0], xs[i]); }
        }
      } else {
        InsertSorts(leq, x, xs[1..]);
        InsertBelow(leq, xs[0], x, xs[1..]);
      }
    }
  }

  lemma {:induction false} SortedSorts<T(!new)>(leq: (T, T) -> bool, xs: seq<T>)
    requires IsTotal(leq)
    ensures IsSorted(leq, Sorted(leq, xs)) && multiset(Sorted(leq, xs)) == multiset(xs)
  {
    if xs != [] {
      SortedSorts(leq, xs[1..]);
      InsertSorts(leq, xs[0], Sorted(leq, xs[1..]));
      InsertMembers(leq, xs[0], Sorted(leq, xs[1..]));
      assert xs == [xs[0]] + xs[1..];
    }
  }

  // ---------------------------------------------------------------------
  // Filtering
  // ---------------------------------------------------------------------

  ghost predicate IsRising(at: seq<int>) {
    forall i, j :: 0 <= i < j < |at| ==> at[i] < at[j]
  }

  /** `at` gives the places, from left to right, of what is kept. */
  ghost predicate IsPicking<T>(at: seq<int>, kept: seq<T>, all: seq<T>, keep: T -> bool) {
    && |at| == |kept| && IsRising(at)
    && (forall i :: 0 <= i < |at| ==> 0 <= at[i] < |all| && kept[i] == all[at[i]])
    && AreExactly(at, all, keep)
  }

  ghost predicate AreExactly<T>(at: seq<int>, all: seq<T>, keep: T -> bool) {
    forall k {:trigger k in at} :: k in at <==> 0 <= k < |all| && keep(all[k])
  }

  /** Exactly the elements with the property, in their order, each as often as it
      stands there. */
  ghost predicate Keeps<T>(kept: seq<T>, all: seq<T>, keep: T -> bool) {
    exists at :: IsPicking(at, kept, all, keep)
  }

  lemma {:induction false} KeepsNone<T>(keep: T -> bool)
    ensures Keeps([], [], keep)
  {
    var at: seq<int> := [];
    assert IsPicking(at, [], [], keep);
  }

  function Picked<T>(x: T, keep: T -> bool): seq<T> {
    if keep(x) then [x] else []
  }

  lemma {:induction false} KeepsOneMore<T>(kept: seq<T>, all: seq<T>, x: T, keep: T -> bool)
    requires Keeps(kept, all, keep)
    ensures Keeps(kept + Picked(x, keep), all + [x], keep)
  {
    var at :| IsPicking(at, kept, all, keep);
    var last := if keep(x) then [|all|] else [];
    forall k
      ensures k in at + last <==> 0 <= k < |all + [x]| && keep((all + [x])[k])
    {
      LastPlace(all, x, keep, at, k);
    }
    assert IsPicking(at + last, kept + Picked(x, keep), all + [x], keep);
  }

  lemma LastPlace<T>(all: seq<T>, x: T, keep: T -> bool, at: seq<int>, k: int)
    requires AreExactly(at, all, keep)
    ensures k in at + (if keep(x) then [|all|] else []) <==> 0 <= k < |all + [x]| && keep((all + [x])[k])
  {
    assert k in at <==> 0 <= k < |all| && keep(all[k]);
  }

  function Up(at: seq<int>): (up: seq<int>)
    ensures |up| == |at| && forall i :: 0 <= i < |at| ==> up[i] == at[i] + 1
  {
    seq(|at|, i requires 0 <= i < |at| => at[i] + 1)
  }

  lemma UpMember(at: seq<int>, k: int)
    ensures k in Up(at) <==> k - 1 in at
  {
    if k - 1 in at {
      var i :| 0 <= i < |at| && at[i] == k - 1;
      assert Up(at)[i] == k;
    }
  }

  lemma {:induction false} KeepsFirst<T>(x: T, kept: seq<T>, all: seq<T>, keep: T -> bool)
    requires Keeps(kept, all, keep)
    ensures Keeps(Picked(x, keep) + kept, [x] + all, keep)
  {
    var at :| IsPicking(at, kept, all, keep);
    var at' := (if keep(x) then [0] else []) + Up(at);
    forall k
      ensures k in at' <==> 0 <= k < |[x] + all| && keep(([x] + all)[k])
    {
      FirstPlace(x, all, keep, at, k);
    }
    PickedPlaces(x, kept, all, keep, at);
    assert IsPicking(at', Picked(x, keep) + kept, [x] + all, keep);
  }

  lemma FirstPlace<T>(x: T, all: seq<T>, keep: T -> bool, at: seq<int>, k: int)
    requires AreExactly(at, all, keep)
    ensures k in (if keep(x) then [0] else []) + Up(at) <==> 0 <= k < |[x] + all| && keep(([x] + all)[k])
  {
    UpMember(at, k);
    assert k - 1 in at <==> 0 <= k - 1 < |all| && keep(all[k - 1]);
  }

  lemma {:induction false} PickedPlaces<T>(x: T, kept: seq<T>, all: seq<T>, keep: T -> bool, at: seq<int>)
    requires IsPicking(at, kept, all, keep)
    ensures var at', more := (if keep(x) then [0] else []) + Up(at), Picked(x, keep) + kept;
      |at'| == |more| && IsRising(at') && forall i :: 0 <= i < |at'| ==> 0 <= at'[i] < |[x] + all| && more[i] == ([x] + all)[at'[i]]
  {
    var more, whole := Picked(x, keep) + kept, [x] + all;
    forall i | 0 <= i < |kept|
      ensures kept[i] == whole[Up(at)[i]]
    {
    }
  }

  lemma {:induction false} KeepsAlike<T>(kept: seq<T>, all: seq<T>, keep: T -> bool, keep': T -> bool)
    requires Keeps(kept, all, keep) && forall x :: x in all ==> (keep(x) <==> keep'(x))
    ensures Keeps(kept, all, keep')
  {
    var at :| IsPicking(at, kept, all, keep);
    assert IsPicking(at, kept, all, keep');
  }

  /** Only one sequence is what is kept: to be kept says all of a filter. */
  lemma {:induction false} KeptIsUnique<T>(a: seq<T>, b: seq<T>, all: seq<T>, keep: T -> bool)
    requires Keeps(a, all, keep) && Keeps(b, all, keep)
    ensures a == b
  {
    var at :| IsPicking(at, a, all, keep);
    var bt :| IsPicking(bt, b, all, keep);
    RisingUnique(at, bt);
  }

  lemma {:induction false} RisingUnique(a: seq<int>, b: seq<int>)
    requires IsRising(a) && IsRising(b) && forall k :: k in a <==> k in b
    ensures a == b
  {
    assert (a != [] ==> a[0] in a) && (b != [] ==> b[0] in b);
    if a != [] && b != [] {
      assert a[0] in b && b[0] in a;
      assert a[0] == b[0];
      forall k
        ensures k in a[1..] <==> k in b[1..]
      {
        RestMember(a, k);
        RestMember(b, k);
      }
      RisingUnique(a[1..], b[1..]);
    }
  }

  lemma RestMember(a: seq<int>, k: int)
    requires a != [] && IsRising(a)
    ensures k in a[1..] <==> k in a && k != a[0]
  {
  }
}
