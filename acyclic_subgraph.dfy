/**
 * `approximate_maximal_acyclic_subgraph`: the random-order 2-approximation of the maximum
 * acyclic subgraph (Hassin and Rubinstein). The random permutations the source draws with
 * `np.random.permutation` are an input, one per sample.
 */
module AcyclicSubgraph {
  import opened Graphs

  /** An `np.random.permutation(n)` draw: each of 0..n-1 exactly once. */
  predicate IsPermutation(order: seq<nat>, n: nat) {
    && |order| == n
    && (forall i :: 0 <= i < n ==> order[i] < n)
    && (forall i, j :: 0 <= i < j < n ==> order[i] != order[j])
  }

  /** A permutation of 0..n-1 lists every one of them. */
  lemma PermutationCovers(order: seq<nat>, n: nat)
    requires IsPermutation(order, n)
    ensures forall v: nat :: v < n ==> v in order
  {
    var elements := set k | 0 <= k < |order| :: order[k];
    var all := AllNodes(n);
    DistinctElementsCard(order);
    AllNodesCard(n);
    assert elements <= all;
    assert all == elements + (all - elements);
    assert all - elements == {};
    forall v: nat | v < n ensures v in order {
      assert v in elements;
    }
  }

  /** The edges i -> j with order[i] > order[j]: `(order.T > order) * adj`. */
  function Forward(a: Matrix, order: seq<nat>): (f: Matrix)
    requires IsSquare(a) && |order| == |a|
    ensures IsSquare(f) && |f| == |a|
  {
    seq(|a|, i requires 0 <= i < |a| =>
      seq(|a|, j requires 0 <= j < |a| => order[i] > order[j] && a[i][j]))
  }

  /** The edges i -> j with order[i] < order[j]: `(order.T < order) * adj`. */
  function Backward(a: Matrix, order: seq<nat>): (b: Matrix)
    requires IsSquare(a) && |order| == |a|
    ensures IsSquare(b) && |b| == |a|
  {
    seq(|a|, i requires 0 <= i < |a| =>
      seq(|a|, j requires 0 <= j < |a| => order[i] < order[j] && a[i][j]))
  }

  /** The half kept for one order: the forward half only when it is strictly denser. */
  function Candidate(a: Matrix, order: seq<nat>): (c: Matrix)
    requires IsSquare(a) && |order| == |a|
    ensures IsSquare(c) && |c| == |a|
  {
    var forward := Forward(a, order);
    var backward := Backward(a, order);
    if EdgeCount(backward) < EdgeCount(forward) then forward else backward
  }

  /** Every candidate is an acyclic subgraph of the input without self-loops, for any order. */
  lemma CandidateIsAcyclicSubgraph(a: Matrix, order: seq<nat>)
    requires IsSquare(a) && |order| == |a|
    ensures IsSubgraph(Candidate(a, order), a) && NoSelfLoops(Candidate(a, order))
    ensures Acyclic(Candidate(a, order))
  {
    var n := |a|;
    if EdgeCount(Backward(a, order)) < EdgeCount(Forward(a, order)) {
      RankedIsAcyclic(Forward(a, order), seq(n, i requires 0 <= i < n => order[i] as int));
    } else {
      RankedIsAcyclic(Backward(a, order), seq(n, i requires 0 <= i < n => -(order[i] as int)));
    }
  }

  /**
   * Under a permutation every off-diagonal edge lies in exactly one of the two halves,
   * so the kept half holds at least half of the off-diagonal edges.
   */
  lemma CandidateKeepsHalf(a: Matrix, order: seq<nat>)
    requires IsSquare(a) && IsPermutation(order, |a|)
    ensures 2 * EdgeCount(Candidate(a, order)) >= EdgeCount(OffDiagonal(a))
  {
    EdgeCountSplit(Forward(a, order), Backward(a, order), OffDiagonal(a));
  }

  predicate OrdersFit(a: Matrix, orders: seq<seq<nat>>) {
    forall k :: 0 <= k < |orders| ==> |orders[k]| == |a|
  }

  /** One `np.random.permutation` draw per sample. */
  predicate ArePermutations(orders: seq<seq<nat>>, n: nat)
    ensures ArePermutations(orders, n) ==> forall k :: 0 <= k < |orders| ==> |orders[k]| == n
  {
    forall k :: 0 <= k < |orders| ==> IsPermutation(orders[k], n)
  }

  /**
   * The matrix kept after trying `orders` in turn, starting from the zero matrix:
   * a candidate replaces it only when it has strictly more edges.
   */
  function BestOf(a: Matrix, orders: seq<seq<nat>>): (best: Matrix)
    requires IsSquare(a) && OrdersFit(a, orders)
    ensures IsSquare(best) && |best| == |a|
  {
    if orders == [] then Zero(|a|)
    else
      var previous := BestOf(a, orders[..|orders| - 1]);
      var candidate := Candidate(a, orders[|orders| - 1]);
      if EdgeCount(candidate) > EdgeCount(previous) then candidate else previous
  }

  /** The result never gains an edge, never keeps a self-loop and is always a DAG. */
  lemma {:induction false} BestOfIsAcyclicSubgraph(a: Matrix, orders: seq<seq<nat>>)
    requires IsSquare(a) && OrdersFit(a, orders)
    ensures IsSubgraph(BestOf(a, orders), a) && NoSelfLoops(BestOf(a, orders))
    ensures Acyclic(BestOf(a, orders))
  {
    if orders == [] {
      RankedIsAcyclic(Zero(|a|), seq(|a|, _ => 0));
    } else {
      BestOfIsAcyclicSubgraph(a, orders[..|orders| - 1]);
      CandidateIsAcyclicSubgraph(a, orders[|orders| - 1]);
    }
  }

  /** No candidate has more edges than the result. */
  lemma {:induction false} BestOfIsMaximum(a: Matrix, orders: seq<seq<nat>>)
    requires IsSquare(a) && OrdersFit(a, orders)
    ensures forall k :: 0 <= k < |orders| ==>
              EdgeCount(Candidate(a, orders[k])) <= EdgeCount(BestOf(a, orders))
  {
    if orders != [] {
      var prefix := orders[..|orders| - 1];
      BestOfIsMaximum(a, prefix);
      forall k | 0 <= k < |orders| - 1 ensures orders[k] == prefix[k] { }
    }
  }

  /** `best` is the candidate of order k, and every earlier candidate has strictly fewer edges. */
  predicate EarliestWith(a: Matrix, orders: seq<seq<nat>>, k: int, best: Matrix)
    requires IsSquare(a) && OrdersFit(a, orders)
  {
    && 0 <= k < |orders|
    && best == Candidate(a, orders[k])
    && forall j :: 0 <= j < k ==> EdgeCount(Candidate(a, orders[j])) < EdgeCount(best)
  }

  /**
   * The result is the zero matrix when it has no edge; otherwise it is the earliest
   * candidate with that many edges (ties keep the first one seen).
   */
  lemma {:induction false} BestOfIsEarliest(a: Matrix, orders: seq<seq<nat>>)
    requires IsSquare(a) && OrdersFit(a, orders)
    ensures EdgeCount(BestOf(a, orders)) == 0 ==> BestOf(a, orders) == Zero(|a|)
    ensures EdgeCount(BestOf(a, orders)) > 0 ==>
              exists k :: EarliestWith(a, orders, k, BestOf(a, orders))
  {
    var best := BestOf(a, orders);
    if orders == [] {
      EdgeCountZero(best);
    } else {
      var prefix := orders[..|orders| - 1];
      var last := |orders| - 1;
      var previous := BestOf(a, prefix);
      var candidate := Candidate(a, orders[last]);
      BestOfIsEarliest(a, prefix);
      BestOfIsMaximum(a, prefix);
      forall k | 0 <= k < last ensures orders[k] == prefix[k] { }
      if EdgeCount(candidate) > EdgeCount(previous) {
        assert EarliestWith(a, orders, last, best);
      } else if EdgeCount(previous) > 0 {
        var k :| EarliestWith(a, prefix, k, previous);
        assert EarliestWith(a, orders, k, best);
      }
    }
    if EdgeCount(best) == 0 {
      EdgeCountZero(best);
      forall i | 0 <= i < |a| ensures best[i] == Zero(|a|)[i] { }
    }
  }

  /** With at least one order, the result keeps at least half of the off-diagonal edges. */
  lemma BestOfKeepsHalf(a: Matrix, orders: seq<seq<nat>>)
    requires IsSquare(a) && |orders| > 0 && ArePermutations(orders, |a|)
    ensures 2 * EdgeCount(BestOf(a, orders)) >= EdgeCount(OffDiagonal(a))
  {
    BestOfIsMaximum(a, orders);
    CandidateKeepsHalf(a, orders[0]);
  }

  /** `approximate_maximal_acyclic_subgraph(adj_matrix, n_samples)` with the n_samples orders given. */
  method ApproximateMaximalAcyclicSubgraph(a: Matrix, orders: seq<seq<nat>>) returns (dag: Matrix)
    requires IsSquare(a) && ArePermutations(orders, |a|)
    ensures dag == BestOf(a, orders)
  {
    dag := Zero(|a|);
    for s := 0 to |orders|
      invariant dag == BestOf(a, orders[..s])
    {
      assert orders[..s + 1][..s] == orders[..s];
      var candidate := Candidate(a, orders[s]);
      if EdgeCount(candidate) > EdgeCount(dag) {
        dag := candidate;
      }
    }
    assert orders[..|orders|] == orders;
  }
}
