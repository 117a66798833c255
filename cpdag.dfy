/**
 * `cpdag2dags`: the DAGs of the Markov equivalence class described by a CPDAG, where an
 * undetermined edge is stored in both directions. Each undetermined edge is oriented one way
 * according to the bits of a mask; an orientation is kept when it creates no new collider
 * and no cycle. The random draws of the source (the repair orders of
 * `approximate_maximal_acyclic_subgraph` and the order in which masks are tried) are inputs.
 */
module CpdagEnumeration {
  import opened Wrappers
  import opened Graphs
  import opened BinaryLists
  import opened AcyclicSubgraph

  // ---------------------------------------------------------------------------
  // Determined and undetermined edges
  // ---------------------------------------------------------------------------

  /** Entry of `cycle_mat = (cp == cp.T) * cp`: the edge is stored in both directions. */
  predicate Symmetric(cp: Matrix, i: nat, j: nat)
    requires IsSquare(cp) && i < |cp| && j < |cp|
  {
    cp[i][j] && cp[j][i]
  }

  /** `cycle_mat.sum() == 0`. A self-loop counts as a symmetric entry. */
  predicate NoSymmetricEntries(cp: Matrix)
    requires IsSquare(cp)
  {
    forall i: nat, j: nat :: i < |cp| && j < |cp| ==> !Symmetric(cp, i, j)
  }

  /** `cp_mat - cycle_mat`: the edges stored in one direction only. */
  function Determined(cp: Matrix): (d: Matrix)
    requires IsSquare(cp)
    ensures IsSquare(d) && |d| == |cp|
    ensures IsSubgraph(d, cp) && NoSelfLoops(d)
  {
    seq(|cp|, i requires 0 <= i < |cp| =>
      seq(|cp|, j requires 0 <= j < |cp| => cp[i][j] && !cp[j][i]))
  }

  /**
   * The determined subgraph after the source's repair: kept when it is a DAG, otherwise
   * replaced by `approximate_maximal_acyclic_subgraph(.., 1000)` over the given orders.
   */
  function RepairedDetermined(cp: Matrix, orders: seq<seq<nat>>): (d: Matrix)
    requires IsSquare(cp) && ArePermutations(orders, |cp|)
    ensures IsSquare(d) && |d| == |cp|
    ensures Acyclic(d) && IsSubgraph(d, Determined(cp))
    ensures Acyclic(Determined(cp)) ==> d == Determined(cp)
  {
    var det := Determined(cp);
    if IsDag(det) then det
    else
      BestOfIsAcyclicSubgraph(det, orders);
      BestOf(det, orders)
  }

  /** An undetermined edge `row -- col`, taken from the strict lower triangle (row > col). */
  datatype Pair = Pair(row: nat, col: nat)

  /** Row-major order, the order of `np.nonzero`. */
  predicate RowMajorBefore(p: Pair, q: Pair) {
    p.row < q.row || (p.row == q.row && p.col < q.col)
  }

  /** The symmetric entries (r, c') of row r with c' < c, by increasing column. */
  function RowPairs(cp: Matrix, r: nat, c: nat): (ps: seq<Pair>)
    requires IsSquare(cp) && r < |cp| && c <= |cp|
    ensures forall p :: p in ps <==> p.row == r && p.col < c && Symmetric(cp, r, p.col)
    ensures forall k :: 0 <= k < |ps| ==> ps[k].row == r && ps[k].col < c
    ensures forall k, l :: 0 <= k < l < |ps| ==> ps[k].col < ps[l].col
  {
    if c == 0 then []
    else RowPairs(cp, r, c - 1) + (if Symmetric(cp, r, c - 1) then [Pair(r, c - 1)] else [])
  }

  /** The symmetric entries strictly below the diagonal in rows 0..r-1, row-major. */
  function PairsBelow(cp: Matrix, r: nat): (ps: seq<Pair>)
    requires IsSquare(cp) && r <= |cp|
    ensures forall p :: p in ps <==> p.row < r && p.col < p.row && Symmetric(cp, p.row, p.col)
    ensures forall k :: 0 <= k < |ps| ==> ps[k].col < ps[k].row < r
    ensures forall k, l :: 0 <= k < l < |ps| ==> RowMajorBefore(ps[k], ps[l])
  {
    if r == 0 then []
    else
      var earlier := PairsBelow(cp, r - 1);
      var row := RowPairs(cp, r - 1, r - 1);
      var ps := earlier + row;
      assert forall k :: |earlier| <= k < |ps| ==> ps[k] == row[k - |earlier|];
      ps
  }

  /**
   * `undetermined_idx_mat = np.array(np.nonzero(np.tril(cycle_mat, k=-1))).T`: every
   * undetermined edge once, as (row, col) with row > col, in row-major order.
   */
  function UndeterminedPairs(cp: Matrix): (ps: seq<Pair>)
    requires IsSquare(cp)
    ensures forall p :: p in ps <==> p.col < p.row < |cp| && Symmetric(cp, p.row, p.col)
    ensures forall k, l :: 0 <= k < l < |ps| ==> RowMajorBefore(ps[k], ps[l])
  {
    PairsBelow(cp, |cp|)
  }

  predicate PairsFit(pairs: seq<Pair>, n: nat) {
    forall k :: 0 <= k < |pairs| ==> pairs[k].col < pairs[k].row < n
  }

  lemma UndeterminedPairsFit(cp: Matrix)
    requires IsSquare(cp)
    ensures PairsFit(UndeterminedPairs(cp), |cp|)
  {
    var ps := UndeterminedPairs(cp);
    forall k | 0 <= k < |ps| ensures ps[k].col < ps[k].row < |cp| {
      assert ps[k] in ps;
    }
  }

  // ---------------------------------------------------------------------------
  // Parents under the determined edges (`N_in_nodes = det.sum(axis=0)`)
  // ---------------------------------------------------------------------------

  /** The number of rows of `m` with an edge into column j. */
  function ColumnCount(m: Matrix, j: nat): (c: nat)
    requires forall i :: 0 <= i < |m| ==> j < |m[i]|
    ensures c <= |m|
    ensures c == 0 <==> forall i :: 0 <= i < |m| ==> !m[i][j]
  {
    if m == [] then 0
    else
      var rest := ColumnCount(m[1..], j);
      assert forall i :: 1 <= i < |m| ==> m[1..][i - 1] == m[i];
      (if m[0][j] then 1 else 0) + rest
  }

  /** The number of parents of every node. */
  function InDegrees(m: Matrix): (deg: seq<nat>)
    requires IsSquare(m)
    ensures |deg| == |m|
    ensures forall j :: 0 <= j < |m| ==> (deg[j] == 0 <==> forall i :: 0 <= i < |m| ==> !m[i][j])
  {
    seq(|m|, j requires 0 <= j < |m| => ColumnCount(m, j))
  }

  // ---------------------------------------------------------------------------
  // One mask
  // ---------------------------------------------------------------------------

  /** The node the oriented edge points into: bit 0 keeps `col -> row`, bit 1 keeps `row -> col`. */
  function Target(p: Pair, bit: int): nat {
    if bit == 0 then p.row else p.col
  }

  /** The node the oriented edge leaves. */
  function Source(p: Pair, bit: int): nat {
    if bit == 0 then p.col else p.row
  }

  /**
   * `new_colider`: two oriented edges point into the same node, or an oriented edge points
   * into a node that already has a parent among the determined edges.
   */
  predicate NewCollider(inDeg: seq<nat>, pairs: seq<Pair>, bits: seq<int>)
    requires PairsFit(pairs, |inDeg|) && |bits| == |pairs|
  {
    || (exists k, l :: 0 <= k < l < |pairs| && Target(pairs[k], bits[k]) == Target(pairs[l], bits[l]))
    || (exists k :: 0 <= k < |pairs| && inDeg[Target(pairs[k], bits[k])] > 0)
  }

  /** Some undetermined pair is oriented as the edge i -> j. */
  predicate OrientedEdge(pairs: seq<Pair>, bits: seq<int>, i: nat, j: nat)
    requires |bits| == |pairs|
  {
    exists k :: 0 <= k < |pairs| && Source(pairs[k], bits[k]) == i && Target(pairs[k], bits[k]) == j
  }

  /** `new_dag`: the determined edges plus one oriented edge per undetermined pair. */
  function Oriented(det: Matrix, pairs: seq<Pair>, bits: seq<int>): (d: Matrix)
    requires IsSquare(det) && PairsFit(pairs, |det|) && |bits| == |pairs|
    ensures IsSquare(d) && |d| == |det|
  {
    seq(|det|, i requires 0 <= i < |det| =>
      seq(|det|, j requires 0 <= j < |det| => det[i][j] || OrientedEdge(pairs, bits, i, j)))
  }

  /** The DAG one mask contributes: present exactly when it makes no new collider and no cycle. */
  function Hit(det: Matrix, inDeg: seq<nat>, pairs: seq<Pair>, bits: seq<int>): (h: Option<Matrix>)
    requires IsSquare(det) && |inDeg| == |det| && PairsFit(pairs, |det|) && |bits| == |pairs|
    ensures h.Some? ==> h.value == Oriented(det, pairs, bits)
    ensures h.Some? <==> !NewCollider(inDeg, pairs, bits) && Acyclic(Oriented(det, pairs, bits))
  {
    if NewCollider(inDeg, pairs, bits) then None
    else
      var d := Oriented(det, pairs, bits);
      if IsDag(d) then Some(d) else None
  }

  /** The pairs of `cp` and a determined subgraph `det` of it, as the enumeration uses them. */
  predicate Setting(cp: Matrix, det: Matrix) {
    && IsSquare(cp) && IsSquare(det) && |det| == |cp|
    && IsSubgraph(det, Determined(cp))
  }

  /**
   * Each undetermined pair is oriented exactly one way, as its bit says, and every other
   * entry is the determined subgraph's.
   */
  lemma {:induction false} OrientedEntries(cp: Matrix, det: Matrix, bits: seq<int>)
    requires Setting(cp, det) && IsBitList(bits) && |bits| == |UndeterminedPairs(cp)|
    ensures PairsFit(UndeterminedPairs(cp), |cp|)
    ensures var pairs := UndeterminedPairs(cp);
            var d := Oriented(det, pairs, bits);
            && (forall k :: 0 <= k < |pairs| ==>
                  && (d[pairs[k].row][pairs[k].col] <==> bits[k] == 1)
                  && (d[pairs[k].col][pairs[k].row] <==> bits[k] == 0))
            && (forall i, j :: 0 <= i < |cp| && 0 <= j < |cp| && !Symmetric(cp, i, j) ==>
                  d[i][j] == det[i][j])
  {
    var pairs := UndeterminedPairs(cp);
    UndeterminedPairsFit(cp);
    var d := Oriented(det, pairs, bits);
    forall k | 0 <= k < |pairs|
      ensures d[pairs[k].row][pairs[k].col] <==> bits[k] == 1
      ensures d[pairs[k].col][pairs[k].row] <==> bits[k] == 0
    {
      var r, c := pairs[k].row, pairs[k].col;
      assert pairs[k] in pairs;
      assert !det[r][c] && !det[c][r];
      forall l | 0 <= l < |pairs| && l != k ensures pairs[l] != pairs[k] {
        if l < k {
          assert RowMajorBefore(pairs[l], pairs[k]);
        } else {
          assert RowMajorBefore(pairs[k], pairs[l]);
        }
      }
    }
    forall i, j | 0 <= i < |cp| && 0 <= j < |cp| && !Symmetric(cp, i, j)
      ensures d[i][j] == det[i][j]
    {
      forall k | 0 <= k < |pairs|
        ensures !(Source(pairs[k], bits[k]) == i && Target(pairs[k], bits[k]) == j)
      {
        assert pairs[k] in pairs;
      }
    }
  }

  /** An oriented edge joins the two ends of an undetermined pair, so the CPDAG holds it. */
  lemma OrientedEdgeInCpdag(cp: Matrix, bits: seq<int>, i: nat, j: nat)
    requires IsSquare(cp) && |bits| == |UndeterminedPairs(cp)|
    requires OrientedEdge(UndeterminedPairs(cp), bits, i, j)
    ensures i < |cp| && j < |cp| && cp[i][j]
  {
    var pairs := UndeterminedPairs(cp);
    var k :| 0 <= k < |pairs| && Source(pairs[k], bits[k]) == i && Target(pairs[k], bits[k]) == j;
    var p := pairs[k];
    assert p in pairs;
    assert Symmetric(cp, p.row, p.col);
  }

  /** Every orientation contains the determined subgraph and stays inside the CPDAG. */
  lemma OrientedBetween(cp: Matrix, det: Matrix, bits: seq<int>)
    requires Setting(cp, det) && |bits| == |UndeterminedPairs(cp)|
    ensures PairsFit(UndeterminedPairs(cp), |cp|)
    ensures IsSubgraph(det, Oriented(det, UndeterminedPairs(cp), bits))
    ensures IsSubgraph(Oriented(det, UndeterminedPairs(cp), bits), cp)
  {
    var pairs := UndeterminedPairs(cp);
    UndeterminedPairsFit(cp);
    var d := Oriented(det, pairs, bits);
    forall i, j | 0 <= i < |cp| && 0 <= j < |cp| && d[i][j] ensures cp[i][j] {
      if det[i][j] {
        assert Determined(cp)[i][j];
      } else {
        OrientedEdgeInCpdag(cp, bits, i, j);
      }
    }
  }

  /**
   * An orientation without a new collider gives every node an oriented edge points into
   * exactly one parent: the source of that edge.
   */
  lemma AcceptedParents(cp: Matrix, det: Matrix, bits: seq<int>)
    requires Setting(cp, det) && |bits| == |UndeterminedPairs(cp)|
    requires PairsFit(UndeterminedPairs(cp), |cp|)
    requires !NewCollider(InDegrees(det), UndeterminedPairs(cp), bits)
    ensures var pairs := UndeterminedPairs(cp);
            var d := Oriented(det, pairs, bits);
            forall k, i :: 0 <= k < |pairs| && 0 <= i < |cp| ==>
              (d[i][Target(pairs[k], bits[k])] <==> i == Source(pairs[k], bits[k]))
  {
    var pairs := UndeterminedPairs(cp);
    var d := Oriented(det, pairs, bits);
    forall k, i | 0 <= k < |pairs| && 0 <= i < |cp|
      ensures d[i][Target(pairs[k], bits[k])] <==> i == Source(pairs[k], bits[k])
    {
      var t := Target(pairs[k], bits[k]);
      assert InDegrees(det)[t] == 0;
      assert forall l :: 0 <= l < |pairs| && Target(pairs[l], bits[l]) == t ==> l == k;
    }
  }

  /** Two masks whose orientations coincide are the same mask. */
  lemma HitInjective(cp: Matrix, det: Matrix, m1: nat, m2: nat)
    requires Setting(cp, det)
    requires m1 < Pow2(|UndeterminedPairs(cp)|) && m2 < Pow2(|UndeterminedPairs(cp)|)
    ensures PairsFit(UndeterminedPairs(cp), |cp|)
    ensures var pairs := UndeterminedPairs(cp);
            var d1 := Oriented(det, pairs, Int2BinList(m1, |pairs|));
            var d2 := Oriented(det, pairs, Int2BinList(m2, |pairs|));
            d1 == d2 ==> m1 == m2
  {
    var pairs := UndeterminedPairs(cp);
    var b1, b2 := Int2BinList(m1, |pairs|), Int2BinList(m2, |pairs|);
    OrientedEntries(cp, det, b1);
    OrientedEntries(cp, det, b2);
    if Oriented(det, pairs, b1) == Oriented(det, pairs, b2) {
      forall k | 0 <= k < |pairs| ensures b1[k] == b2[k] { }
      assert b1 == b2;
      Int2BinListBijective(m1, m2, |pairs|);
    }
  }

  // ---------------------------------------------------------------------------
  // All masks
  // ---------------------------------------------------------------------------

  predicate MasksFit(masks: seq<nat>, width: nat) {
    forall t :: 0 <= t < |masks| ==> masks[t] < Pow2(width)
  }

  /** The DAG mask m contributes, as a list of zero or one DAGs. */
  function Found(det: Matrix, inDeg: seq<nat>, pairs: seq<Pair>, m: nat): (found: seq<Matrix>)
    requires IsSquare(det) && |inDeg| == |det| && PairsFit(pairs, |det|) && m < Pow2(|pairs|)
  {
    var h := Hit(det, inDeg, pairs, Int2BinList(m, |pairs|));
    if h.Some? then [h.value] else []
  }

  /** Mask m, turned into its bits, yields the DAG d. */
  predicate MaskGives(det: Matrix, inDeg: seq<nat>, pairs: seq<Pair>, m: nat, d: Matrix)
    requires IsSquare(det) && |inDeg| == |det| && PairsFit(pairs, |det|) && m < Pow2(|pairs|)
  {
    Hit(det, inDeg, pairs, Int2BinList(m, |pairs|)) == Some(d)
  }

  /**
   * The DAGs found while popping `masks[left - 1]`, ..., `masks[0]` from the end of the list
   * (`mask_indices.pop()`), in the order they are found.
   */
  function Hits(det: Matrix, inDeg: seq<nat>, pairs: seq<Pair>, masks: seq<nat>, left: nat): (hits: seq<Matrix>)
    requires IsSquare(det) && |inDeg| == |det| && PairsFit(pairs, |det|) && MasksFit(masks, |pairs|)
    requires left <= |masks|
  {
    if left == 0 then []
    else Found(det, inDeg, pairs, masks[left - 1]) + Hits(det, inDeg, pairs, masks, left - 1)
  }

  /** At most one DAG per popped mask, each of the size of `det`. */
  lemma {:induction false} HitsShape(det: Matrix, inDeg: seq<nat>, pairs: seq<Pair>, masks: seq<nat>, left: nat)
    requires IsSquare(det) && |inDeg| == |det| && PairsFit(pairs, |det|) && MasksFit(masks, |pairs|)
    requires left <= |masks|
    ensures var hits := Hits(det, inDeg, pairs, masks, left);
            && |hits| <= left
            && forall t :: 0 <= t < |hits| ==> IsSquare(hits[t]) && |hits[t]| == |det|
  {
    if left > 0 {
      HitsShape(det, inDeg, pairs, masks, left - 1);
    }
  }

  /** Popping one more mask moves its DAG, if any, onto the DAGs already found. */
  lemma PopHit(det: Matrix, inDeg: seq<nat>, pairs: seq<Pair>, masks: seq<nat>, left: nat, dags: seq<Matrix>)
    requires IsSquare(det) && |inDeg| == |det| && PairsFit(pairs, |det|) && MasksFit(masks, |pairs|)
    requires 0 < left <= |masks|
    requires Hits(det, inDeg, pairs, masks, |masks|) == dags + Hits(det, inDeg, pairs, masks, left)
    ensures Hits(det, inDeg, pairs, masks, |masks|) ==
              dags + Found(det, inDeg, pairs, masks[left - 1]) + Hits(det, inDeg, pairs, masks, left - 1)
  {
  }

  /** Every DAG found comes from one of the masks popped. */
  lemma {:induction false} HitsSound(det: Matrix, inDeg: seq<nat>, pairs: seq<Pair>, masks: seq<nat>, left: nat)
    requires IsSquare(det) && |inDeg| == |det| && PairsFit(pairs, |det|) && MasksFit(masks, |pairs|)
    requires left <= |masks|
    ensures forall d :: d in Hits(det, inDeg, pairs, masks, left) ==>
              exists t :: 0 <= t < left && MaskGives(det, inDeg, pairs, masks[t], d)
  {
    if left > 0 {
      HitsSound(det, inDeg, pairs, masks, left - 1);
      var found := Found(det, inDeg, pairs, masks[left - 1]);
      forall d | d in Hits(det, inDeg, pairs, masks, left)
        ensures exists t :: 0 <= t < left && MaskGives(det, inDeg, pairs, masks[t], d)
      {
        if d in found {
          assert MaskGives(det, inDeg, pairs, masks[left - 1], d);
        } else {
          assert d in Hits(det, inDeg, pairs, masks, left - 1);
        }
      }
    }
  }

  /** Every popped mask that yields a DAG contributes it. */
  lemma {:induction false} HitsComplete(det: Matrix, inDeg: seq<nat>, pairs: seq<Pair>, masks: seq<nat>, left: nat)
    requires IsSquare(det) && |inDeg| == |det| && PairsFit(pairs, |det|) && MasksFit(masks, |pairs|)
    requires left <= |masks|
    ensures forall t, d :: 0 <= t < left && MaskGives(det, inDeg, pairs, masks[t], d) ==>
              d in Hits(det, inDeg, pairs, masks, left)
  {
    if left > 0 {
      HitsComplete(det, inDeg, pairs, masks, left - 1);
      var found := Found(det, inDeg, pairs, masks[left - 1]);
      forall t, d | 0 <= t < left && MaskGives(det, inDeg, pairs, masks[t], d)
        ensures d in Hits(det, inDeg, pairs, masks, left)
      {
        if t == left - 1 {
          assert d in found;
        } else {
          assert d in Hits(det, inDeg, pairs, masks, left - 1);
        }
      }
    }
  }

  /** Different masks below 2^|pairs| orient the pairs differently. */
  predicate OrientationInjective(det: Matrix, pairs: seq<Pair>)
    requires IsSquare(det) && PairsFit(pairs, |det|)
  {
    forall m1: nat, m2: nat :: m1 < Pow2(|pairs|) && m2 < Pow2(|pairs|) && m1 != m2 ==>
      Oriented(det, pairs, Int2BinList(m1, |pairs|)) != Oriented(det, pairs, Int2BinList(m2, |pairs|))
  }

  lemma MasksOrientInjectively(cp: Matrix, det: Matrix)
    requires Setting(cp, det)
    ensures PairsFit(UndeterminedPairs(cp), |cp|)
    ensures OrientationInjective(det, UndeterminedPairs(cp))
  {
    var pairs := UndeterminedPairs(cp);
    UndeterminedPairsFit(cp);
    forall m1: nat, m2: nat | m1 < Pow2(|pairs|) && m2 < Pow2(|pairs|) && m1 != m2
      ensures Oriented(det, pairs, Int2BinList(m1, |pairs|)) != Oriented(det, pairs, Int2BinList(m2, |pairs|))
    {
      HitInjective(cp, det, m1, m2);
    }
  }

  /** A mask contributes at most its own orientation. */
  lemma FoundShape(det: Matrix, inDeg: seq<nat>, pairs: seq<Pair>, m: nat)
    requires IsSquare(det) && |inDeg| == |det| && PairsFit(pairs, |det|) && m < Pow2(|pairs|)
    ensures |Found(det, inDeg, pairs, m)| <= 1
    ensures forall k :: 0 <= k < |Found(det, inDeg, pairs, m)| ==>
              Found(det, inDeg, pairs, m)[k] == Oriented(det, pairs, Int2BinList(m, |pairs|))
  {
  }

  /** No mask popped so far yields the orientation of a different mask m. */
  lemma HitsAvoid(det: Matrix, inDeg: seq<nat>, pairs: seq<Pair>, masks: seq<nat>, left: nat, m: nat)
    requires IsSquare(det) && |inDeg| == |det| && PairsFit(pairs, |det|) && MasksFit(masks, |pairs|)
    requires OrientationInjective(det, pairs) && left <= |masks| && m < Pow2(|pairs|)
    requires forall t :: 0 <= t < left ==> masks[t] != m
    ensures forall k :: 0 <= k < |Hits(det, inDeg, pairs, masks, left)| ==>
              Hits(det, inDeg, pairs, masks, left)[k] != Oriented(det, pairs, Int2BinList(m, |pairs|))
  {
    var hits := Hits(det, inDeg, pairs, masks, left);
    HitsSound(det, inDeg, pairs, masks, left);
    forall k | 0 <= k < |hits| ensures hits[k] != Oriented(det, pairs, Int2BinList(m, |pairs|)) {
      assert hits[k] in hits;
      var t :| 0 <= t < left && MaskGives(det, inDeg, pairs, masks[t], hits[k]);
      assert hits[k] == Oriented(det, pairs, Int2BinList(masks[t], |pairs|));
    }
  }

  /** The DAG of a mask differs from every DAG of the other masks popped before it. */
  lemma FoundIsNew(det: Matrix, inDeg: seq<nat>, pairs: seq<Pair>, masks: seq<nat>, left: nat)
    requires IsSquare(det) && |inDeg| == |det| && PairsFit(pairs, |det|) && MasksFit(masks, |pairs|)
    requires OrientationInjective(det, pairs) && 0 < left <= |masks|
    requires forall t :: 0 <= t < left - 1 ==> masks[t] != masks[left - 1]
    ensures var found := Found(det, inDeg, pairs, masks[left - 1]);
            forall k :: 0 <= k < |found| ==> found[k] !in Hits(det, inDeg, pairs, masks, left - 1)
  {
    FoundShape(det, inDeg, pairs, masks[left - 1]);
    HitsAvoid(det, inDeg, pairs, masks, left - 1, masks[left - 1]);
  }

  /** Distinct masks give distinct DAGs. */
  lemma {:induction false} HitsDistinct(det: Matrix, inDeg: seq<nat>, pairs: seq<Pair>, masks: seq<nat>, left: nat)
    requires IsSquare(det) && |inDeg| == |det| && PairsFit(pairs, |det|) && MasksFit(masks, |pairs|)
    requires OrientationInjective(det, pairs) && left <= |masks|
    requires forall s, t :: 0 <= s < t < |masks| ==> masks[s] != masks[t]
    ensures forall s, t :: 0 <= s < t < |Hits(det, inDeg, pairs, masks, left)| ==>
              Hits(det, inDeg, pairs, masks, left)[s] != Hits(det, inDeg, pairs, masks, left)[t]
  {
    if left > 0 {
      HitsDistinct(det, inDeg, pairs, masks, left - 1);
      FoundIsNew(det, inDeg, pairs, masks, left);
      var found := Found(det, inDeg, pairs, masks[left - 1]);
      var rest := Hits(det, inDeg, pairs, masks, left - 1);
      var hits := found + rest;
      assert Hits(det, inDeg, pairs, masks, left) == hits;
      forall s, t | 0 <= s < t < |hits| ensures hits[s] != hits[t] {
        if s < |found| {
          assert hits[s] == found[s] && hits[t] == rest[t - |found|] && rest[t - |found|] in rest;
          assert found[s] !in rest;
        } else {
          assert hits[s] == rest[s - |found|] && hits[t] == rest[t - |found|];
          assert rest[s - |found|] != rest[t - |found|];
        }
      }
    }
  }

  // ---------------------------------------------------------------------------
  // The whole enumeration
  // ---------------------------------------------------------------------------

  /** The number of DAGs asked for: `samples`, or `2**N_undetermined` when it is `None`. */
  function Budget(samples: Option<int>, width: nat): int {
    match samples
    case None => Pow2(width)
    case Some(s) => s
  }

  function Min(a: int, b: int): int { if a <= b then a else b }

  function Max(a: int, b: int): int { if a >= b then a else b }

  /** `while mask_indices and len(dag_list) < samples`: the first `budget` DAGs found, if any. */
  function FirstHits(hits: seq<Matrix>, budget: int): (taken: seq<Matrix>)
    ensures |taken| == Min(Max(budget, 0), |hits|)
    ensures taken <= hits
  {
    if budget <= 0 then [] else hits[..Min(budget, |hits|)]
  }

  /**
   * The random draws: `np.random.permutation` orders for the repair (10 when the CPDAG has no
   * symmetric entry, 1000 for the determined subgraph) and, when there are undetermined edges,
   * a permutation of the masks 0 .. 2**N_undetermined - 1.
   */
  predicate Draws(cp: Matrix, repairOrders: seq<seq<nat>>, maskOrder: seq<nat>)
    requires IsSquare(cp)
  {
    && ArePermutations(repairOrders, |cp|)
    && |repairOrders| == (if NoSymmetricEntries(cp) then 10 else 1000)
    && (NoSymmetricEntries(cp) || IsPermutation(maskOrder, Pow2(|UndeterminedPairs(cp)|)))
  }

  /** The stack of DAGs `cpdag2dags(cp, samples)` returns, for the given draws. */
  function EnumerateDags(cp: Matrix, samples: Option<int>, repairOrders: seq<seq<nat>>, maskOrder: seq<nat>)
    : (dags: seq<Matrix>)
    requires IsSquare(cp) && Draws(cp, repairOrders, maskOrder)
    ensures |dags| >= 1
    ensures forall t :: 0 <= t < |dags| ==> IsSquare(dags[t]) && |dags[t]| == |cp|
  {
    if NoSymmetricEntries(cp) then
      [if IsDag(cp) then cp else BestOf(cp, repairOrders)]
    else
      var det := RepairedDetermined(cp, repairOrders);
      var pairs := UndeterminedPairs(cp);
      UndeterminedPairsFit(cp);
      HitsShape(det, InDegrees(det), pairs, maskOrder, |maskOrder|);
      var taken := FirstHits(Hits(det, InDegrees(det), pairs, maskOrder, |maskOrder|), Budget(samples, |pairs|));
      if taken == [] then [det] else taken
  }

  /** Every DAG returned is acyclic and uses only edges of the CPDAG. */
  lemma EnumerateDagsAreDags(cp: Matrix, samples: Option<int>, repairOrders: seq<seq<nat>>, maskOrder: seq<nat>)
    requires IsSquare(cp) && Draws(cp, repairOrders, maskOrder)
    ensures var dags := EnumerateDags(cp, samples, repairOrders, maskOrder);
            forall t :: 0 <= t < |dags| ==> Acyclic(dags[t]) && IsSubgraph(dags[t], cp)
  {
    var dags := EnumerateDags(cp, samples, repairOrders, maskOrder);
    if NoSymmetricEntries(cp) {
      BestOfIsAcyclicSubgraph(cp, repairOrders);
    } else {
      var det := RepairedDetermined(cp, repairOrders);
      var pairs := UndeterminedPairs(cp);
      UndeterminedPairsFit(cp);
      var hits := Hits(det, InDegrees(det), pairs, maskOrder, |maskOrder|);
      HitsSound(det, InDegrees(det), pairs, maskOrder, |maskOrder|);
      forall t | 0 <= t < |dags| ensures Acyclic(dags[t]) && IsSubgraph(dags[t], cp) {
        if dags[t] != det {
          assert dags[t] in hits;
          var s :| 0 <= s < |maskOrder| && MaskGives(det, InDegrees(det), pairs, maskOrder[s], dags[t]);
          OrientedBetween(cp, det, Int2BinList(maskOrder[s], |pairs|));
        }
      }
    }
  }

  /** Some mask below 2^|pairs| yields d. */
  predicate FromSomeMask(det: Matrix, pairs: seq<Pair>, d: Matrix)
    requires IsSquare(det) && PairsFit(pairs, |det|)
  {
    exists m: nat :: m < Pow2(|pairs|) && MaskGives(det, InDegrees(det), pairs, m, d)
  }

  predicate AllFromMasks(det: Matrix, pairs: seq<Pair>, dags: seq<Matrix>)
    requires IsSquare(det) && PairsFit(pairs, |det|)
  {
    forall t :: 0 <= t < |dags| ==> FromSomeMask(det, pairs, dags[t])
  }

  /**
   * With undetermined edges, every DAG returned contains the (repaired) determined subgraph,
   * and it is either that subgraph alone or the orientation of one mask that passed the checks.
   */
  lemma EnumerateDagsFromMasks(cp: Matrix, samples: Option<int>, repairOrders: seq<seq<nat>>, maskOrder: seq<nat>)
    requires IsSquare(cp) && Draws(cp, repairOrders, maskOrder) && !NoSymmetricEntries(cp)
    ensures PairsFit(UndeterminedPairs(cp), |cp|)
    ensures var dags := EnumerateDags(cp, samples, repairOrders, maskOrder);
            var det := RepairedDetermined(cp, repairOrders);
            var pairs := UndeterminedPairs(cp);
            && (forall t :: 0 <= t < |dags| ==> IsSubgraph(det, dags[t]))
            && (dags == [det] || AllFromMasks(det, pairs, dags))
  {
    var dags := EnumerateDags(cp, samples, repairOrders, maskOrder);
    var det := RepairedDetermined(cp, repairOrders);
    var pairs := UndeterminedPairs(cp);
    UndeterminedPairsFit(cp);
    var hits := Hits(det, InDegrees(det), pairs, maskOrder, |maskOrder|);
    HitsSound(det, InDegrees(det), pairs, maskOrder, |maskOrder|);
    forall t | 0 <= t < |dags| ensures IsSubgraph(det, dags[t]) {
      if dags[t] != det {
        assert dags[t] in hits;
        var s :| 0 <= s < |maskOrder| && MaskGives(det, InDegrees(det), pairs, maskOrder[s], dags[t]);
        OrientedBetween(cp, det, Int2BinList(maskOrder[s], |pairs|));
      }
    }
    if dags != [det] {
      forall t | 0 <= t < |dags| ensures FromSomeMask(det, pairs, dags[t]) {
        assert dags[t] in hits;
        var s :| 0 <= s < |maskOrder| && MaskGives(det, InDegrees(det), pairs, maskOrder[s], dags[t]);
        var m: nat := maskOrder[s];
        assert m < Pow2(|pairs|) && MaskGives(det, InDegrees(det), pairs, m, dags[t]);
      }
    }
  }

  /** No DAG is returned twice, and no more are returned than asked for (at least one). */
  lemma EnumerateDagsDistinct(cp: Matrix, samples: Option<int>, repairOrders: seq<seq<nat>>, maskOrder: seq<nat>)
    requires IsSquare(cp) && Draws(cp, repairOrders, maskOrder)
    ensures var dags := EnumerateDags(cp, samples, repairOrders, maskOrder);
            && |dags| <= Max(Budget(samples, |UndeterminedPairs(cp)|), 1)
            && forall s, t :: 0 <= s < t < |dags| ==> dags[s] != dags[t]
  {
    if !NoSymmetricEntries(cp) {
      var det := RepairedDetermined(cp, repairOrders);
      var pairs := UndeterminedPairs(cp);
      UndeterminedPairsFit(cp);
      MasksOrientInjectively(cp, det);
      HitsDistinct(det, InDegrees(det), pairs, maskOrder, |maskOrder|);
    }
  }

  /**
   * Without `samples`, every mask that passes the checks contributes its DAG: the result is
   * the whole set of DAGs the enumeration can find.
   */
  lemma EnumerateDagsComplete(cp: Matrix, repairOrders: seq<seq<nat>>, maskOrder: seq<nat>)
    requires IsSquare(cp) && Draws(cp, repairOrders, maskOrder) && !NoSymmetricEntries(cp)
    ensures PairsFit(UndeterminedPairs(cp), |cp|)
    ensures var dags := EnumerateDags(cp, None, repairOrders, maskOrder);
            var det := RepairedDetermined(cp, repairOrders);
            var pairs := UndeterminedPairs(cp);
            forall m: nat, d :: m < Pow2(|pairs|) && MaskGives(det, InDegrees(det), pairs, m, d) ==> d in dags
  {
    var det := RepairedDetermined(cp, repairOrders);
    var pairs := UndeterminedPairs(cp);
    UndeterminedPairsFit(cp);
    var hits := Hits(det, InDegrees(det), pairs, maskOrder, |maskOrder|);
    HitsComplete(det, InDegrees(det), pairs, maskOrder, |maskOrder|);
    PermutationCovers(maskOrder, Pow2(|pairs|));
    HitsShape(det, InDegrees(det), pairs, maskOrder, |maskOrder|);
    assert hits[..|hits|] == hits;
    assert EnumerateDags(cp, None, repairOrders, maskOrder) == hits || hits == [];
    forall m: nat, d | m < Pow2(|pairs|) && MaskGives(det, InDegrees(det), pairs, m, d)
      ensures d in EnumerateDags(cp, None, repairOrders, maskOrder)
    {
      assert m in maskOrder;
      var t :| 0 <= t < |maskOrder| && maskOrder[t] == m;
    }
  }

  /**
   * When no mask passes the checks, or no DAG is asked for, the result is the (repaired)
   * determined subgraph alone.
   */
  lemma EnumerateDagsFallback(cp: Matrix, samples: Option<int>, repairOrders: seq<seq<nat>>, maskOrder: seq<nat>)
    requires IsSquare(cp) && Draws(cp, repairOrders, maskOrder) && !NoSymmetricEntries(cp)
    ensures PairsFit(UndeterminedPairs(cp), |cp|)
    ensures var det := RepairedDetermined(cp, repairOrders);
            var pairs := UndeterminedPairs(cp);
            (|| Budget(samples, |pairs|) <= 0
             || forall m :: 0 <= m < Pow2(|pairs|) ==>
                  Hit(det, InDegrees(det), pairs, Int2BinList(m, |pairs|)).None?)
            ==> EnumerateDags(cp, samples, repairOrders, maskOrder) == [det]
  {
    var det := RepairedDetermined(cp, repairOrders);
    var pairs := UndeterminedPairs(cp);
    UndeterminedPairsFit(cp);
    var hits := Hits(det, InDegrees(det), pairs, maskOrder, |maskOrder|);
    HitsSound(det, InDegrees(det), pairs, maskOrder, |maskOrder|);
    assert |hits| > 0 ==> hits[0] in hits;
  }

  /** With no symmetric entry the CPDAG itself is returned when it is a DAG, else its repair. */
  lemma EnumerateDagsDirected(cp: Matrix, samples: Option<int>, repairOrders: seq<seq<nat>>, maskOrder: seq<nat>)
    requires IsSquare(cp) && Draws(cp, repairOrders, maskOrder) && NoSymmetricEntries(cp)
    ensures var dags := EnumerateDags(cp, samples, repairOrders, maskOrder);
            && |dags| == 1
            && (Acyclic(cp) ==> dags[0] == cp)
            && (!Acyclic(cp) ==> dags[0] == BestOf(cp, repairOrders))
  {
  }

  /**
   * A CPDAG whose only symmetric entry is a self-loop has no undetermined pair, yet the source's
   * `int2binlist(0, 0)` yields a one-bit mask, which cannot index the zero pairs (the boolean
   * index `mask == 0` at causica/utils/causality_utils.py:652). With the corrected zero-bit
   * mask the determined subgraph, here the empty graph, is returned.
   */
  lemma SelfLoopOnlyCpdag(repairOrders: seq<seq<nat>>)
    requires Draws([[true]], repairOrders, [0])
    ensures !NoSymmetricEntries([[true]]) && UndeterminedPairs([[true]]) == []
    ensures |Int2BinListAsWritten(0, |UndeterminedPairs([[true]])|)| != |UndeterminedPairs([[true]])|
    ensures EnumerateDags([[true]], None, repairOrders, [0]) == [[[false]]]
  {
    var cp := [[true]];
    assert Symmetric(cp, 0, 0);
    var pairs := UndeterminedPairs(cp);
    assert PairsBelow(cp, 0) == [] && RowPairs(cp, 0, 0) == [];
    Int2BinListAsWrittenWidthZero();
    var det := Determined(cp);
    assert det[0] == [false];
    RankedIsAcyclic(det, [0]);
    var d := Oriented(det, pairs, []);
    assert d[0] == [false];
    assert d == det;
    assert RepairedDetermined(cp, repairOrders) == det;
    assert !NewCollider(InDegrees(det), pairs, []);
    assert Int2BinList(0, 0) == [];
    assert Hit(det, InDegrees(det), pairs, []) == Some(det);
    assert Found(det, InDegrees(det), pairs, 0) == [det];
    assert Hits(det, InDegrees(det), pairs, [0], 1) == [det];
    assert FirstHits([det], Budget(None, 0)) == [det];
    var dags := EnumerateDags(cp, None, repairOrders, [0]);
    assert dags == FirstHits(Hits(det, InDegrees(det), pairs, [0], 1), Budget(None, |pairs|));
    assert dags == [det];
    assert det == [[false]];
  }

  // ---------------------------------------------------------------------------
  // The source's loop
  // ---------------------------------------------------------------------------

  /**
   * The mask loop: pop masks from the end of `maskOrder` while some remain and fewer than
   * `budget` DAGs have been found, keeping each mask's DAG.
   */
  method CollectHits(det: Matrix, inDeg: seq<nat>, pairs: seq<Pair>, maskOrder: seq<nat>, budget: int)
    returns (dags: seq<Matrix>)
    requires IsSquare(det) && |inDeg| == |det| && PairsFit(pairs, |det|) && MasksFit(maskOrder, |pairs|)
    ensures dags == FirstHits(Hits(det, inDeg, pairs, maskOrder, |maskOrder|), budget)
  {
    // maskOrder[..left] is the list `mask_indices` still to be popped
    var left := |maskOrder|;
    dags := [];
    while left > 0 && |dags| < budget
      invariant 0 <= left <= |maskOrder|
      invariant Hits(det, inDeg, pairs, maskOrder, |maskOrder|) == dags + Hits(det, inDeg, pairs, maskOrder, left)
      invariant |dags| <= Max(budget, 0)
      decreases left
    {
      var maskIndex := maskOrder[left - 1];
      var hit := Hit(det, inDeg, pairs, Int2BinList(maskIndex, |pairs|));
      PopHit(det, inDeg, pairs, maskOrder, left, dags);
      if hit.Some? {
        assert Found(det, inDeg, pairs, maskIndex) == [hit.value];
        dags := dags + [hit.value];
      } else {
        assert Found(det, inDeg, pairs, maskIndex) == [];
        assert dags + [] == dags;
      }
      left := left - 1;
    }
    assert Hits(det, inDeg, pairs, maskOrder, |maskOrder|)[..|dags|] == dags;
  }

  /** `cpdag2dags(cp_mat, samples)` with its random draws given. */
  method CpdagToDags(cp: Matrix, samples: Option<int>, repairOrders: seq<seq<nat>>, maskOrder: seq<nat>)
    returns (dags: seq<Matrix>)
    requires IsSquare(cp) && Draws(cp, repairOrders, maskOrder)
    ensures dags == EnumerateDags(cp, samples, repairOrders, maskOrder)
  {
    if NoSymmetricEntries(cp) {
      var g := cp;
      if !IsDag(g) {
        g := ApproximateMaximalAcyclicSubgraph(cp, repairOrders);
      }
      return [g];
    }
    var det := Determined(cp);
    if !IsDag(det) {
      det := ApproximateMaximalAcyclicSubgraph(det, repairOrders);
    }
    var pairs := UndeterminedPairs(cp);
    UndeterminedPairsFit(cp);
    dags := CollectHits(det, InDegrees(det), pairs, maskOrder, Budget(samples, |pairs|));
    if dags == [] {
      dags := [det];
    }
  }
}
