/**
 * The tree builder (`makeTreeFromCounts`). The priority queue is a sequence of
 * trees; `remove()` takes out a lightest one. How the queue breaks ties between
 * equal weights is not known, so the contract of the builder speaks only of what
 * holds whatever the tie-break: which leaves the tree has and how it is weighted.
 */
module TreeBuilder {
  import opened HuffCommon

  /** The leaves the first loop adds to the queue: one per positive slot, in slot order. */
  function InitialLeaves(freq: seq<int>): seq<Tree>
  {
    if freq == [] then []
    else
      var n := |freq| - 1;
      InitialLeaves(freq[..n]) + (if freq[n] > 0 then [Leaf(n, freq[n])] else [])
  }

  /** The sum of the positive slots. */
  function SumOfCounts(freq: seq<int>): int
  {
    if freq == [] then 0
    else
      var n := |freq| - 1;
      SumOfCounts(freq[..n]) + (if freq[n] > 0 then freq[n] else 0)
  }

  /** The leaves of all trees in a queue. */
  function QueueLeaves(q: seq<Tree>): multiset<Tree>
  {
    if q == [] then multiset{} else QueueLeaves(q[..|q| - 1]) + LeafBag(q[|q| - 1])
  }

  /** The weights of all trees in a queue, added up. */
  function QueueWeight(q: seq<Tree>): int
  {
    if q == [] then 0 else QueueWeight(q[..|q| - 1]) + q[|q| - 1].weight
  }

  /** A leaf is queued by the first loop exactly when its slot is positive and it carries that count. */
  lemma {:induction false} InitialLeavesMembership(freq: seq<int>, t: Tree)
    ensures t in InitialLeaves(freq) <==>
      t.Leaf? && 0 <= t.value < |freq| && freq[t.value] > 0 && t.weight == freq[t.value]
  {
    if freq != [] {
      var n := |freq| - 1;
      InitialLeavesMembership(freq[..n], t);
    }
  }

  /** The queued leaves weigh what the positive slots count. */
  lemma {:induction false} InitialLeavesWeight(freq: seq<int>)
    ensures QueueWeight(InitialLeaves(freq)) == SumOfCounts(freq)
  {
    if freq != [] {
      var n := |freq| - 1;
      InitialLeavesWeight(freq[..n]);
      QueueConcat(InitialLeaves(freq[..n]), if freq[n] > 0 then [Leaf(n, freq[n])] else []);
    }
  }

  /** A queue of leaves whose symbols strictly increase, so no symbol occurs twice. */
  predicate IncreasingLeaves(q: seq<Tree>)
  {
    forall j, k :: 0 <= j < k < |q| ==> q[j].Leaf? && q[k].Leaf? && q[j].value < q[k].value
  }

  /** The first loop queues leaves only, in strictly increasing symbol order. */
  lemma {:induction false} InitialLeavesOrdered(freq: seq<int>)
    ensures IncreasingLeaves(InitialLeaves(freq))
  {
    if freq != [] {
      var n := |freq| - 1;
      var front := InitialLeaves(freq[..n]);
      var last := if freq[n] > 0 then [Leaf(n, freq[n])] else [];
      var q := front + last;
      InitialLeavesOrdered(freq[..n]);
      if freq[n] > 0 {
        forall t | t in front ensures t.Leaf? && t.value < n {
          InitialLeavesMembership(freq[..n], t);
        }
        AppendLargerLeaf(front, Leaf(n, freq[n]));
      } else {
        assert q == front;
      }
      assert InitialLeaves(freq) == q;
    }
  }

  lemma {:induction false} AppendLargerLeaf(q: seq<Tree>, x: Tree)
    requires IncreasingLeaves(q) && x.Leaf?
    requires forall t :: t in q ==> t.Leaf? && t.value < x.value
    ensures IncreasingLeaves(q + [x])
  {
    var q' := q + [x];
    forall j, k | 0 <= j < k < |q'| ensures q'[j].Leaf? && q'[k].Leaf? && q'[j].value < q'[k].value {
      assert q'[j] == q[j] || j == |q|;
      if k < |q| {
        assert q'[j] == q[j] && q'[k] == q[k];
      } else {
        assert q'[j] == q[j] && q[j] in q;
      }
    }
  }

  /** The trees queued by the first loop are leaves: each is its own leaf bag, and well weighted. */
  lemma {:induction false} InitialLeavesBag(freq: seq<int>)
    ensures QueueLeaves(InitialLeaves(freq)) == multiset(InitialLeaves(freq))
    ensures AllWellWeighted(InitialLeaves(freq))
  {
    if freq != [] {
      var n := |freq| - 1;
      var front := InitialLeaves(freq[..n]);
      var last := if freq[n] > 0 then [Leaf(n, freq[n])] else [];
      InitialLeavesBag(freq[..n]);
      QueueConcat(front, last);
      assert last != [] ==> last[..0] == [];
      forall j | 0 <= j < |front + last| ensures WellWeighted((front + last)[j]) {
        if j < |front| { assert (front + last)[j] == front[j]; }
      }
    }
  }

  lemma {:induction false} QueueConcat(a: seq<Tree>, b: seq<Tree>)
    ensures QueueLeaves(a + b) == QueueLeaves(a) + QueueLeaves(b)
    ensures QueueWeight(a + b) == QueueWeight(a) + QueueWeight(b)
  {
    if b == [] {
      assert a + b == a;
    } else {
      var n := |b| - 1;
      assert (a + b)[..|a + b| - 1] == a + b[..n];
      assert (a + b)[|a + b| - 1] == b[n];
      QueueConcat(a, b[..n]);
    }
  }

  /** Taking the tree at index k out of the queue takes away exactly its leaves and its weight. */
  lemma {:induction false} RemoveAt(q: seq<Tree>, k: nat)
    requires k < |q|
    ensures QueueLeaves(q) == QueueLeaves(q[..k] + q[k + 1..]) + LeafBag(q[k])
    ensures QueueWeight(q) == QueueWeight(q[..k] + q[k + 1..]) + q[k].weight
  {
    var front, back := q[..k], q[k + 1..];
    assert q == (front + [q[k]]) + back;
    QueueConcat(front + [q[k]], back);
    QueueConcat(front, [q[k]]);
    QueueConcat(front, back);
    assert [q[k]][..0] == [];
    assert QueueLeaves([q[k]]) == LeafBag(q[k]);
    assert QueueWeight([q[k]]) == q[k].weight;
  }

  /** `pq.remove()`: the index of a lightest tree of a non-empty queue (the first such). */
  method IndexOfLightest(q: seq<Tree>) returns (k: nat)
    requires q != []
    ensures k < |q|
    ensures forall j :: 0 <= j < |q| ==> q[k].weight <= q[j].weight
  {
    k := 0;
    var i := 1;
    while i < |q|
      invariant 1 <= i <= |q| && k < i
      invariant forall j :: 0 <= j < i ==> q[k].weight <= q[j].weight
    {
      if q[i].weight < q[k].weight {
        k := i;
      }
      i := i + 1;
    }
  }

  /**
   * Greedy merge: queue a leaf per positive slot, then replace the two lightest
   * trees by a node over them until one tree is left. With no positive slot the
   * final `remove()` finds an empty queue.
   */
  method MakeTreeFromCounts(freq: seq<int>) returns (r: Result<Tree>)
    ensures r.Success? <==> exists i :: 0 <= i < |freq| && freq[i] > 0
    ensures r.Failure? ==> r.error == EmptyQueue
    ensures r.Success? ==> LeafBag(r.value) == multiset(InitialLeaves(freq))
    ensures r.Success? ==> WellWeighted(r.value) && r.value.weight == SumOfCounts(freq)
    ensures r.Success? && (exists i, j :: 0 <= i < j < |freq| && freq[i] > 0 && freq[j] > 0) ==>
      r.value.Node?
  {
    var pq: seq<Tree> := [];
    for i := 0 to |freq|
      invariant pq == InitialLeaves(freq[..i])
    {
      assert freq[..i + 1][..i] == freq[..i];
      if freq[i] > 0 {
        pq := pq + [Leaf(i, freq[i])];
      }
    }
    assert freq[..|freq|] == freq;
    ghost var initial := pq;
    InitialLeavesBag(freq);
    InitialLeavesWeight(freq);

    while |pq| > 1
      invariant |pq| == 0 <==> initial == []
      invariant AllWellWeighted(pq)
      invariant QueueLeaves(pq) == multiset(initial)
      invariant QueueWeight(pq) == SumOfCounts(freq)
      decreases |pq|
    {
      ghost var k, k';
      pq, k, k' := MergeLightestTwo(pq);
    }
    r := Finish(freq, pq, initial);
  }

  /** Every tree of the queue is well weighted. */
  predicate AllWellWeighted(q: seq<Tree>)
  {
    forall j :: 0 <= j < |q| ==> WellWeighted(q[j])
  }

  /** The queue with the tree at index k taken out. */
  function Without(q: seq<Tree>, k: nat): seq<Tree>
    requires k < |q|
  {
    q[..k] + q[k + 1..]
  }

  /** The tree at index k is no heavier than any tree of the queue. */
  predicate IsLightest(q: seq<Tree>, k: nat)
  {
    k < |q| && forall j :: 0 <= j < |q| ==> q[k].weight <= q[j].weight
  }

  /**
   * One pass of the merge loop: remove a lightest tree (index k), then a
   * lightest of the rest (index k'), and add a node over the two (first removed
   * on the left) weighing their sum.
   */
  method MergeLightestTwo(pq: seq<Tree>) returns (pq': seq<Tree>, ghost k: nat, ghost k': nat)
    requires |pq| > 1 && AllWellWeighted(pq)
    ensures IsLightest(pq, k) && IsLightest(Without(pq, k), k')
    ensures pq' == Without(Without(pq, k), k') +
      [Node(pq[k], Without(pq, k)[k'], pq[k].weight + Without(pq, k)[k'].weight)]
    ensures |pq'| == |pq| - 1
    ensures QueueLeaves(pq') == QueueLeaves(pq)
    ensures QueueWeight(pq') == QueueWeight(pq)
    ensures AllWellWeighted(pq')
  {
    var i := IndexOfLightest(pq);
    var left := pq[i];
    var rest := Without(pq, i);
    var i' := IndexOfLightest(rest);
    var right := rest[i'];
    var rest' := Without(rest, i');
    pq' := rest' + [Node(left, right, left.weight + right.weight)];
    k, k' := i, i';
    MergeKeepsLeavesAndWeight(pq, k, rest, k', rest', pq');
  }

  /** Replacing the trees at k and then k' by a node over them keeps the queue's leaves, weight and well-weightedness. */
  lemma {:induction false} MergeKeepsLeavesAndWeight(
    q: seq<Tree>, k: nat, q1: seq<Tree>, k': nat, rest: seq<Tree>, q2: seq<Tree>)
    requires k < |q| && q1 == q[..k] + q[k + 1..]
    requires k' < |q1| && rest == q1[..k'] + q1[k' + 1..]
    requires q2 == rest + [Node(q[k], q1[k'], q[k].weight + q1[k'].weight)]
    requires AllWellWeighted(q)
    ensures QueueLeaves(q2) == QueueLeaves(q)
    ensures QueueWeight(q2) == QueueWeight(q)
    ensures AllWellWeighted(q2)
  {
    var t := Node(q[k], q1[k'], q[k].weight + q1[k'].weight);
    RemoveAt(q, k);
    RemoveAt(q1, k');
    AppendOne(rest, t);
    MergeKeepsWellWeighted(q, k, q1, k', rest, t);
  }

  lemma {:induction false} AppendOne(q: seq<Tree>, t: Tree)
    ensures QueueLeaves(q + [t]) == QueueLeaves(q) + LeafBag(t)
    ensures QueueWeight(q + [t]) == QueueWeight(q) + t.weight
  {
    assert (q + [t])[..|q|] == q;
  }

  lemma {:induction false} MergeKeepsWellWeighted(
    q: seq<Tree>, k: nat, q1: seq<Tree>, k': nat, rest: seq<Tree>, t: Tree)
    requires k < |q| && q1 == q[..k] + q[k + 1..]
    requires k' < |q1| && rest == q1[..k'] + q1[k' + 1..]
    requires t == Node(q[k], q1[k'], q[k].weight + q1[k'].weight)
    requires AllWellWeighted(q)
    ensures AllWellWeighted(rest + [t])
  {
    RemoveKeepsWellWeighted(q, k);
    RemoveKeepsWellWeighted(q1, k');
    var q2 := rest + [t];
    forall j | 0 <= j < |q2| ensures WellWeighted(q2[j]) {
      if j < |rest| { assert q2[j] == rest[j]; }
    }
  }

  lemma {:induction false} RemoveKeepsWellWeighted(q: seq<Tree>, k: nat)
    requires k < |q| && AllWellWeighted(q)
    ensures WellWeighted(q[k]) && AllWellWeighted(q[..k] + q[k + 1..])
  {
    var r := q[..k] + q[k + 1..];
    forall j | 0 <= j < |r| ensures WellWeighted(r[j]) {
      if j < k { assert r[j] == q[j]; } else { assert r[j] == q[j + 1]; }
    }
  }

  /** The final `pq.remove()`: the one tree left, or the empty queue's failure. */
  method Finish(freq: seq<int>, pq: seq<Tree>, ghost initial: seq<Tree>) returns (r: Result<Tree>)
    requires initial == InitialLeaves(freq) && |pq| <= 1
    requires |pq| == 0 <==> initial == []
    requires AllWellWeighted(pq)
    requires QueueLeaves(pq) == multiset(initial)
    requires QueueWeight(pq) == SumOfCounts(freq)
    ensures r.Success? <==> exists i :: 0 <= i < |freq| && freq[i] > 0
    ensures r.Failure? ==> r.error == EmptyQueue
    ensures r.Success? ==> LeafBag(r.value) == multiset(InitialLeaves(freq))
    ensures r.Success? ==> WellWeighted(r.value) && r.value.weight == SumOfCounts(freq)
    ensures r.Success? && (exists i, j :: 0 <= i < j < |freq| && freq[i] > 0 && freq[j] > 0) ==>
      r.value.Node?
  {
    if pq == [] {
      r := Failure(EmptyQueue);
      if exists i :: 0 <= i < |freq| && freq[i] > 0 {
        var i :| 0 <= i < |freq| && freq[i] > 0;
        InitialLeavesMembership(freq, Leaf(i, freq[i]));
        assert false;
      }
    } else {
      var root := pq[0];
      assert pq[..0] == [];
      assert QueueLeaves(pq) == LeafBag(root);
      r := Success(root);
      var l := initial[0];
      InitialLeavesMembership(freq, l);
      if exists i, j :: 0 <= i < j < |freq| && freq[i] > 0 && freq[j] > 0 {
        var i, j :| 0 <= i < j < |freq| && freq[i] > 0 && freq[j] > 0;
        InitialLeavesMembership(freq, Leaf(i, freq[i]));
        InitialLeavesMembership(freq, Leaf(j, freq[j]));
        TwoDistinctMembers(initial, Leaf(i, freq[i]), Leaf(j, freq[j]));
        LeafBagSize(root);
      }
    }
  }

  lemma {:induction false} TwoDistinctMembers(q: seq<Tree>, a: Tree, b: Tree)
    requires a in q && b in q && a != b
    ensures |multiset(q)| >= 2
  {
    var m := multiset(q);
    assert a in m && b in m;
    assert multiset{a, b} <= m;
  }

  /** A queue of leaves with increasing symbols holds each leaf at most once. */
  lemma {:induction false} IncreasingLeavesOnce(q: seq<Tree>, t: Tree)
    requires IncreasingLeaves(q)
    ensures multiset(q)[t] <= 1
  {
    if q != [] {
      var n := |q| - 1;
      assert IncreasingLeaves(q[..n]);
      IncreasingLeavesOnce(q[..n], t);
      assert q == q[..n] + [q[n]];
      if t == q[n] {
        forall j | 0 <= j < n ensures q[..n][j] != t {
          assert q[j].value < q[n].value;
        }
        assert t !in multiset(q[..n]);
      }
    }
  }

  /**
   * The tree built from a count table holds one leaf per positive slot and no
   * other: its symbols are exactly the positive slots, each leaf carries its
   * slot's count, and no leaf occurs twice.
   */
  lemma {:induction false} BuiltTreeLeaves(freq: seq<int>, root: Tree)
    requires LeafBag(root) == multiset(InitialLeaves(freq))
    ensures forall v :: v in Symbols(root) <==> 0 <= v < |freq| && freq[v] > 0
    ensures forall l :: l in LeafBag(root) ==> l.Leaf? && 0 <= l.value < |freq| && l.weight == freq[l.value]
    ensures forall l :: LeafBag(root)[l] <= 1
  {
    forall v ensures v in Symbols(root) <==> 0 <= v < |freq| && freq[v] > 0 {
      SymbolsOfBag(root, v);
      if 0 <= v < |freq| && freq[v] > 0 {
        InitialLeavesMembership(freq, Leaf(v, freq[v]));
        assert Leaf(v, freq[v]) in LeafBag(root);
      }
      if v in Symbols(root) {
        var w :| Leaf(v, w) in LeafBag(root);
        InitialLeavesMembership(freq, Leaf(v, w));
      }
    }
    forall l | l in LeafBag(root) ensures l.Leaf? && 0 <= l.value < |freq| && l.weight == freq[l.value] {
      InitialLeavesMembership(freq, l);
    }
    InitialLeavesOrdered(freq);
    forall l ensures LeafBag(root)[l] <= 1 {
      IncreasingLeavesOnce(InitialLeaves(freq), l);
    }
  }

  /** With a single positive slot k, the tree built is the lone leaf for k. */
  lemma {:induction false} SingleSymbolTree(freq: seq<int>, k: int, root: Tree)
    requires LeafBag(root) == multiset(InitialLeaves(freq))
    requires 0 <= k < |freq| && freq[k] > 0
    requires forall i :: 0 <= i < |freq| && freq[i] > 0 ==> i == k
    ensures root == Leaf(k, freq[k])
  {
    var x := Leaf(k, freq[k]);
    BuiltTreeLeaves(freq, root);
    InitialLeavesMembership(freq, x);
    forall l | l in LeafBag(root) ensures l == x {
      InitialLeavesMembership(freq, l);
    }
    SingletonBag(LeafBag(root), x);
    LeafBagSize(root);
    assert root in LeafBag(root);
  }

  /** A bag holding x once and nothing else is {x}. */
  lemma {:induction false} SingletonBag(b: multiset<Tree>, x: Tree)
    requires x in b && b[x] <= 1
    requires forall l :: l in b ==> l == x
    ensures b == multiset{x}
  {
    forall l ensures b[l] == multiset{x}[l] {
      if l != x {
        assert l !in b;
      }
    }
  }
}
