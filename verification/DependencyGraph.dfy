/** Directed dependency graphs over names: the edges a name lists, walks along
    them, and cycles.  A name that is listed but has no entry of its own is a
    node without outgoing edges. */
module DependencyGraph {
  import opened Sequences

  type Needs = map<string, seq<string>>

  ghost predicate Edge(needs: Needs, a: string, b: string) {
    a in needs && b in needs[a]
  }

  ghost predicate IsWalk(needs: Needs, w: seq<string>) {
    |w| > 0 && forall i :: 0 <= i < |w| - 1 ==> Edge(needs, w[i], w[i + 1])
  }

  ghost predicate IsCycle(needs: Needs, c: seq<string>) {
    IsWalk(needs, c) && |c| > 1 && c[0] == c[|c| - 1]
  }

  ghost predicate Acyclic(needs: Needs) {
    forall c :: !IsCycle(needs, c)
  }

  /** `b` can be reached from `a` along zero or more edges. */
  ghost predicate Reaches(needs: Needs, a: string, b: string) {
    exists w :: IsWalk(needs, w) && w[0] == a && w[|w| - 1] == b
  }

  lemma ReachesSelf(needs: Needs, a: string)
    ensures Reaches(needs, a, a)
  {
    assert IsWalk(needs, [a]) && [a][0] == a;
  }

  lemma ReachesPrepend(needs: Needs, a: string, b: string, c: string)
    requires Edge(needs, a, b) && Reaches(needs, b, c)
    ensures Reaches(needs, a, c)
  {
    var w :| IsWalk(needs, w) && w[0] == b && w[|w| - 1] == c;
    var v := [a] + w;
    forall i | 0 <= i < |v| - 1
      ensures Edge(needs, v[i], v[i + 1])
    {
      if i > 0 { assert v[i] == w[i - 1] && v[i + 1] == w[i]; }
    }
    assert IsWalk(needs, v) && v[0] == a && v[|v| - 1] == c;
  }

  lemma ReachesAppend(needs: Needs, a: string, b: string, c: string)
    requires Reaches(needs, a, b) && Edge(needs, b, c)
    ensures Reaches(needs, a, c)
  {
    var w :| IsWalk(needs, w) && w[0] == a && w[|w| - 1] == b;
    var v := w + [c];
    assert IsWalk(needs, v) && v[0] == a && v[|v| - 1] == c;
  }

  /** More places than names: some name is visited twice. */
  lemma {:induction false} Pigeonhole(w: seq<string>, names: set<string>) returns (i: nat, j: nat)
    requires |w| > |names|
    requires forall k :: 0 <= k < |w| ==> w[k] in names
    ensures i < j < |w| && w[i] == w[j]
  {
    var n := |w| - 1;
    if k :| 0 <= k < n && w[k] == w[n] {
      i, j := k, n;
    } else {
      i, j := Pigeonhole(w[..n], names - {w[n]});
    }
  }

  ghost predicate HasSuccessorIn(needs: Needs, a: string, names: set<string>) {
    exists b :: b in names && Edge(needs, a, b)
  }

  /** Every node of `names` has a successor in `names`. */
  ghost predicate Endless(needs: Needs, names: set<string>) {
    forall a {:trigger HasSuccessorIn(needs, a, names)} :: a in names ==> HasSuccessorIn(needs, a, names)
  }

  lemma {:induction false} EndlessWalk(needs: Needs, names: set<string>, start: string, n: nat) returns (w: seq<string>)
    requires Endless(needs, names) && start in names
    ensures IsWalk(needs, w) && |w| == n + 1 && w[0] == start
    ensures forall k :: 0 <= k < |w| ==> w[k] in names
  {
    if n == 0 {
      w := [start];
    } else {
      var v := EndlessWalk(needs, names, start, n - 1);
      assert HasSuccessorIn(needs, v[n - 1], names);
      var next :| next in names && Edge(needs, v[n - 1], next);
      w := v + [next];
    }
  }

  /** A finite non-empty set from which no step leads out for lack of a
      successor contains a cycle. */
  lemma EndlessHasCycle(needs: Needs, names: set<string>) returns (c: seq<string>)
    requires Endless(needs, names) && names != {}
    ensures IsCycle(needs, c)
    ensures forall k :: 0 <= k < |c| ==> c[k] in names
  {
    var start :| start in names;
    var w := EndlessWalk(needs, names, start, |names|);
    var i, j := Pigeonhole(w, names);
    c := w[i..j + 1];
    forall k | 0 <= k < |c| - 1
      ensures Edge(needs, c[k], c[k + 1])
    {
      assert Edge(needs, w[i + k], w[i + k + 1]);
    }
  }

  /** In an acyclic graph every non-empty finite set has an element none of
      whose successors lie in the set. */
  lemma AcyclicHasMinimal(needs: Needs, names: set<string>) returns (a: string)
    requires Acyclic(needs) && names != {}
    ensures a in names && forall b :: Edge(needs, a, b) ==> b !in names
  {
    if Endless(needs, names) {
      var c := EndlessHasCycle(needs, names);
      assert false;
    }
    a :| a in names && !HasSuccessorIn(needs, a, names);
  }

  /** `order` lists names so that each comes after those of its successors that
      have an entry of their own. */
  ghost predicate IsFinishOrder(needs: Needs, order: seq<string>) {
    && NoDuplicates(order)
    && forall i, b :: 0 <= i < |order| && Edge(needs, order[i], b) && b in needs ==> b in order[..i]
  }

  lemma FinishOne(needs: Needs, order: seq<string>, a: string)
    requires IsFinishOrder(needs, order) && a !in order
    requires forall b :: Edge(needs, a, b) && b in needs ==> b in order
    ensures IsFinishOrder(needs, order + [a])
  {
    var longer := order + [a];
    forall i, b | 0 <= i < |longer| && Edge(needs, longer[i], b) && b in needs
      ensures b in longer[..i]
    {
      assert longer[..i] == order[..i];
      if i == |order| { assert order[..i] == order; }
    }
  }

  /** Along a walk whose inner nodes all have entries, positions in a finish
      order strictly fall. */
  lemma {:induction false} WalkFalls(needs: Needs, order: seq<string>, w: seq<string>, i: nat, j: nat)
    requires IsFinishOrder(needs, order)
    requires IsWalk(needs, w) && |w| > 1
    requires forall k :: 0 <= k < |w| ==> w[k] in needs
    requires i < |order| && j < |order| && order[i] == w[0] && order[j] == w[|w| - 1]
    ensures j < i
    decreases |w|
  {
    assert Edge(needs, w[0], w[1]);
    var k :| 0 <= k < i && order[k] == w[1];
    if |w| > 2 {
      var v := w[1..];
      forall k | 0 <= k < |v| - 1
        ensures Edge(needs, v[k], v[k + 1])
      {
        assert Edge(needs, w[k + 1], w[k + 2]);
      }
      WalkFalls(needs, order, v, k, j);
    }
  }

  /** A cycle can be reached from here. */
  ghost predicate LeadsToCycle(needs: Needs, a: string) {
    exists w, c :: IsWalk(needs, w) && w[0] == a && IsCycle(needs, c) && c[0] == w[|w| - 1]
  }

  lemma {:induction false} WalkStaysFinished(needs: Needs, order: seq<string>, w: seq<string>)
    requires IsFinishOrder(needs, order) && IsWalk(needs, w) && w[0] in order && w[|w| - 1] in needs
    ensures w[|w| - 1] in order
    decreases |w|
  {
    if |w| > 1 {
      var front := w[..|w| - 1];
      assert Edge(needs, w[|w| - 2], w[|w| - 1]);
      WalkStaysFinished(needs, order, front);
      var i :| 0 <= i < |order| && order[i] == w[|w| - 2];
      assert w[|w| - 1] in order[..i];
    }
  }

  /** Nothing that is finished leads to a cycle, and nothing without an entry. */
  lemma {:induction false} FinishedIsSafe(needs: Needs, order: seq<string>, a: string)
    requires IsFinishOrder(needs, order) && (a in order || a !in needs)
    ensures !LeadsToCycle(needs, a)
  {
    forall w, c | IsWalk(needs, w) && w[0] == a && IsCycle(needs, c) && c[0] == w[|w| - 1]
      ensures false
    {
      assert Edge(needs, c[0], c[1]) && (|w| > 1 ==> Edge(needs, w[0], w[1]));
      forall k | 0 <= k < |c|
        ensures c[k] in needs
      {
        if k < |c| - 1 { assert Edge(needs, c[k], c[k + 1]); }
      }
      WalkStaysFinished(needs, order, w);
      var i :| 0 <= i < |order| && order[i] == c[0];
      WalkFalls(needs, order, c, i, i);
    }
  }

  /** The edge taken is the first, in the order of the list, to lead to a cycle. */
  ghost predicate TakesFirst(needs: Needs, a: string, b: string) {
    a in needs && exists k {:trigger needs[a][k]} ::
      && 0 <= k < |needs[a]| && needs[a][k] == b
      && forall j :: 0 <= j < k ==> !LeadsToCycle(needs, needs[a][j])
  }

  /** From `from` on the walk takes the first edge each time. */
  ghost predicate IsGreedy(needs: Needs, w: seq<string>, from: nat) {
    forall i :: from <= i < |w| - 1 ==> TakesFirst(needs, w[i], w[i + 1])
  }

  /** The cycle is the end of a walk from where its last node stood before. */
  ghost predicate IsLoopOf(c: seq<string>, w: seq<string>) {
    |w| > 0 && NoDuplicates(w[..|w| - 1]) && exists j :: 0 <= j < |w| - 1 && w[j] == w[|w| - 1] && c == w[j..]
  }

  lemma FinishOrderMeansAcyclic(needs: Needs, order: seq<string>)
    requires IsFinishOrder(needs, order)
    requires forall a :: a in needs ==> a in order
    ensures Acyclic(needs)
  {
    forall c | IsCycle(needs, c)
      ensures false
    {
      forall k | 0 <= k < |c|
        ensures c[k] in needs
      {
        if k < |c| - 1 { assert Edge(needs, c[k], c[k + 1]); } else { assert Edge(needs, c[0], c[1]); }
      }
      var i :| 0 <= i < |order| && order[i] == c[0];
      WalkFalls(needs, order, c, i, i);
    }
  }
}
