/**
 * Square 0/1 adjacency matrices (entry [i][j] set means an edge i -> j), their edge counts,
 * and acyclicity. `Acyclic` is the exact meaning of the source's test
 * `trace(expm(A)) - n == 0` (`dag_pen_np`): no directed cycle, self-loops included.
 * `IsDag` is an executable decision procedure for it (repeatedly remove a sink).
 */
module Graphs {
  import opened Wrappers

  type Matrix = seq<seq<bool>>

  predicate IsSquare(m: Matrix) {
    forall i :: 0 <= i < |m| ==> |m[i]| == |m|
  }

  /** The all-zero n x n matrix (`np.zeros_like`). */
  function Zero(n: nat): (z: Matrix)
    ensures IsSquare(z) && |z| == n
    ensures forall i, j :: 0 <= i < n && 0 <= j < n ==> !z[i][j]
  {
    seq(n, _ => seq(n, _ => false))
  }

  /** Every edge of `a` is an edge of `b`. */
  predicate IsSubgraph(a: Matrix, b: Matrix)
    requires IsSquare(a) && IsSquare(b) && |a| == |b|
  {
    forall i, j :: 0 <= i < |a| && 0 <= j < |a| && a[i][j] ==> b[i][j]
  }

  predicate NoSelfLoops(m: Matrix)
    requires IsSquare(m)
  {
    forall i :: 0 <= i < |m| ==> !m[i][i]
  }

  // ---------------------------------------------------------------------------
  // Edge counts (`matrix.sum()` on a 0/1 matrix)
  // ---------------------------------------------------------------------------

  function RowCount(r: seq<bool>): nat {
    if r == [] then 0 else (if r[0] then 1 else 0) + RowCount(r[1..])
  }

  /** `m.sum()` on a 0/1 matrix: the number of set entries. */
  function EdgeCount(m: Matrix): nat {
    if m == [] then 0 else RowCount(m[0]) + EdgeCount(m[1..])
  }

  /** The matrix without its diagonal. */
  function OffDiagonal(m: Matrix): (r: Matrix)
    requires IsSquare(m)
    ensures IsSquare(r) && |r| == |m|
  {
    seq(|m|, i requires 0 <= i < |m| => seq(|m|, j requires 0 <= j < |m| => i != j && m[i][j]))
  }

  /** When `c` is the disjoint union of `a` and `b`, entry by entry, the counts add up. */
  lemma {:induction false} RowCountSplit(a: seq<bool>, b: seq<bool>, c: seq<bool>)
    requires |a| == |c| && |b| == |c|
    requires forall j :: 0 <= j < |c| ==> c[j] == (a[j] || b[j]) && !(a[j] && b[j])
    ensures RowCount(a) + RowCount(b) == RowCount(c)
  {
    if c != [] {
      RowCountSplit(a[1..], b[1..], c[1..]);
    }
  }

  lemma {:induction false} EdgeCountSplit(a: Matrix, b: Matrix, c: Matrix)
    requires |a| == |c| && |b| == |c|
    requires forall i :: 0 <= i < |c| ==> |a[i]| == |c[i]| && |b[i]| == |c[i]|
    requires forall i, j :: 0 <= i < |c| && 0 <= j < |c[i]| ==>
               c[i][j] == (a[i][j] || b[i][j]) && !(a[i][j] && b[i][j])
    ensures EdgeCount(a) + EdgeCount(b) == EdgeCount(c)
  {
    if c != [] {
      RowCountSplit(a[0], b[0], c[0]);
      EdgeCountSplit(a[1..], b[1..], c[1..]);
    }
  }

  lemma {:induction false} RowCountZero(r: seq<bool>)
    ensures RowCount(r) == 0 <==> forall j :: 0 <= j < |r| ==> !r[j]
  {
    if r != [] {
      RowCountZero(r[1..]);
      assert forall j :: 1 <= j < |r| ==> r[j] == r[1..][j - 1];
    }
  }

  /** A matrix has no edges exactly when every entry is unset. */
  lemma {:induction false} EdgeCountZero(m: Matrix)
    ensures EdgeCount(m) == 0 <==> forall i, j :: 0 <= i < |m| && 0 <= j < |m[i]| ==> !m[i][j]
  {
    if m != [] {
      RowCountZero(m[0]);
      EdgeCountZero(m[1..]);
      assert forall i :: 1 <= i < |m| ==> m[i] == m[1..][i - 1];
    }
  }

  // ---------------------------------------------------------------------------
  // Paths, cycles and acyclicity
  // ---------------------------------------------------------------------------

  /** The step from p[k] to p[k + 1] is an edge of `m`. */
  ghost predicate StepAt(m: Matrix, p: seq<nat>, k: nat)
    requires IsSquare(m) && k + 1 < |p| && p[k] < |m| && p[k + 1] < |m|
  {
    m[p[k]][p[k + 1]]
  }

  /** `p` is a walk p[0] -> p[1] -> ... through edges of `m`. */
  ghost predicate IsPath(m: Matrix, p: seq<nat>)
    requires IsSquare(m)
  {
    && |p| >= 1
    && (forall k :: 0 <= k < |p| ==> p[k] < |m|)
    && (forall k: nat :: k < |p| - 1 ==> StepAt(m, p, k))
  }

  /** A closed walk with at least one edge; a self-loop v -> v is the cycle [v, v]. */
  ghost predicate IsCycle(m: Matrix, p: seq<nat>)
    requires IsSquare(m)
  {
    IsPath(m, p) && |p| >= 2 && p[0] == p[|p| - 1]
  }

  ghost predicate Acyclic(m: Matrix)
    requires IsSquare(m)
  {
    forall p :: !IsCycle(m, p)
  }

  ghost predicate Within(p: seq<nat>, s: set<nat>) {
    forall k :: 0 <= k < |p| ==> p[k] in s
  }

  predicate InRange(m: Matrix, s: set<nat>) {
    forall v :: v in s ==> v < |m|
  }

  /** `v` has no edge into the node set `s`. */
  predicate IsSinkIn(m: Matrix, s: set<nat>, v: nat)
    requires IsSquare(m) && InRange(m, s) && v < |m|
  {
    forall u | u in s :: !m[v][u]
  }

  /** The least sink of `s` that is at least `from`, if any. */
  function FindSink(m: Matrix, s: set<nat>, from: nat): (r: Option<nat>)
    requires IsSquare(m) && InRange(m, s)
    ensures r.Some? ==> from <= r.value < |m| && r.value in s && IsSinkIn(m, s, r.value)
    ensures r.None? ==> forall v {:trigger IsSinkIn(m, s, v)} :: from <= v < |m| && v in s ==> !IsSinkIn(m, s, v)
    decreases |m| - from
  {
    if from >= |m| then None
    else if from in s && IsSinkIn(m, s, from) then Some(from)
    else FindSink(m, s, from + 1)
  }

  /** Removes sinks from `s` one at a time; true when `s` can be emptied this way. */
  function PeelSinks(m: Matrix, s: set<nat>): bool
    requires IsSquare(m) && InRange(m, s)
    decreases |s|
  {
    if s == {} then true
    else match FindSink(m, s, 0)
      case None => false
      case Some(v) => PeelSinks(m, s - {v})
  }

  /** If the sinks of `s` can be peeled off one by one, no walk inside `s` closes on itself. */
  lemma {:induction false} PeelSinksNoCycle(m: Matrix, s: set<nat>, p: seq<nat>)
    requires IsSquare(m) && InRange(m, s) && PeelSinks(m, s)
    requires IsPath(m, p) && |p| >= 2 && Within(p, s)
    ensures p[0] != p[|p| - 1]
    decreases |s|
  {
    assert p[0] in s;
    var v := FindSink(m, s, 0).value;
    forall k | 0 <= k < |p| - 1 ensures p[k] != v {
      assert StepAt(m, p, k) && p[k + 1] in s;
    }
    if p[|p| - 1] != v {
      assert Within(p, s - {v});
      PeelSinksNoCycle(m, s - {v}, p);
    }
  }

  /** A walk of `len` steps from `v` that never leaves `s`, when no node of `s` is a sink of `s`. */
  lemma {:induction false} WalkInside(m: Matrix, s: set<nat>, v: nat, len: nat) returns (w: seq<nat>)
    requires IsSquare(m) && InRange(m, s) && v in s
    requires forall x {:trigger IsSinkIn(m, s, x)} :: x in s ==> !IsSinkIn(m, s, x)
    ensures |w| == len + 1 && w[0] == v && IsPath(m, w) && Within(w, s)
    decreases len
  {
    if len == 0 {
      w := [v];
    } else {
      assert !IsSinkIn(m, s, v);
      var u :| u in s && m[v][u];
      var rest := WalkInside(m, s, u, len - 1);
      w := [v] + rest;
      forall k: nat | k < |w| - 1 ensures StepAt(m, w, k) {
        if k > 0 {
          assert StepAt(m, rest, k - 1);
        }
      }
    }
  }

  lemma {:induction false} DistinctElementsCard(w: seq<nat>)
    requires forall i, j :: 0 <= i < j < |w| ==> w[i] != w[j]
    ensures |set k | 0 <= k < |w| :: w[k]| == |w|
  {
    if w != [] {
      var w' := w[..|w| - 1];
      DistinctElementsCard(w');
      var s' := set k | 0 <= k < |w'| :: w'[k];
      var s := set k | 0 <= k < |w| :: w[k];
      assert s == s' + {w[|w| - 1]};
      assert w[|w| - 1] !in s';
    }
  }

  lemma Card(a: set<nat>, b: set<nat>)
    requires a <= b
    ensures |a| <= |b|
  {
    assert b == a + (b - a);
  }

  /** A sequence that lives in `s` and is longer than `s` repeats an element. */
  lemma Pigeonhole(w: seq<nat>, s: set<nat>) returns (i: nat, j: nat)
    requires Within(w, s) && |w| > |s|
    ensures i < j < |w| && w[i] == w[j]
  {
    if forall i, j :: 0 <= i < j < |w| ==> w[i] != w[j] {
      DistinctElementsCard(w);
      var e := set k | 0 <= k < |w| :: w[k];
      Card(e, s);
    }
    i, j :| 0 <= i < j < |w| && w[i] == w[j];
  }

  /** A stretch w[i..j + 1] of a walk is a walk. */
  lemma SubPath(m: Matrix, w: seq<nat>, i: nat, j: nat)
    requires IsSquare(m) && IsPath(m, w) && i <= j < |w|
    ensures IsPath(m, w[i..j + 1])
  {
    var c := w[i..j + 1];
    forall k: nat | k < |c| - 1 ensures StepAt(m, c, k) {
      assert c[k] == w[i + k] && c[k + 1] == w[i + k + 1];
      assert StepAt(m, w, i + k);
    }
  }

  /** Every non-empty node set has a sink of its own or holds a cycle. */
  lemma {:induction false} SinkOrCycle(m: Matrix, s: set<nat>) returns (c: seq<nat>)
    requires IsSquare(m) && InRange(m, s) && s != {}
    ensures (exists v {:trigger IsSinkIn(m, s, v)} :: v in s && IsSinkIn(m, s, v)) || (IsCycle(m, c) && Within(c, s))
  {
    if forall v {:trigger IsSinkIn(m, s, v)} :: v in s ==> !IsSinkIn(m, s, v) {
      var v :| v in s;
      var w := WalkInside(m, s, v, |s|);
      var i, j := Pigeonhole(w, s);
      SubPath(m, w, i, j);
      c := w[i..j + 1];
      assert Within(c, s);
    } else {
      c := [];
    }
  }

  /** Sink peeling succeeds on every node set that contains no cycle. */
  lemma {:induction false} PeelSinksComplete(m: Matrix, s: set<nat>)
    requires IsSquare(m) && InRange(m, s)
    requires forall p :: IsCycle(m, p) ==> !Within(p, s)
    ensures PeelSinks(m, s)
    decreases |s|
  {
    if s != {} {
      var c := SinkOrCycle(m, s);
      assert FindSink(m, s, 0).Some?;
      var v := FindSink(m, s, 0).value;
      forall p | IsCycle(m, p) ensures !Within(p, s - {v}) {
        assert !Within(p, s);
      }
      PeelSinksComplete(m, s - {v});
    }
  }

  function AllNodes(n: nat): (s: set<nat>)
    ensures forall v: nat :: v in s <==> v < n
  {
    if n == 0 then {} else AllNodes(n - 1) + {n - 1}
  }

  lemma {:induction false} AllNodesCard(n: nat)
    ensures |AllNodes(n)| == n
  {
    if n > 0 {
      AllNodesCard(n - 1);
      assert n - 1 !in AllNodes(n - 1);
    }
  }

  /** A graph is acyclic exactly when all its nodes can be peeled off as sinks. */
  lemma AcyclicIffPeels(m: Matrix)
    requires IsSquare(m)
    ensures Acyclic(m) <==> PeelSinks(m, AllNodes(|m|))
  {
    var all := AllNodes(|m|);
    if PeelSinks(m, all) {
      forall p | IsPath(m, p) && |p| >= 2 ensures p[0] != p[|p| - 1] {
        PeelSinksNoCycle(m, all, p);
      }
    }
    if Acyclic(m) {
      PeelSinksComplete(m, all);
    }
  }

  /** The source's `dag_pen_np(A) == 0`: decides exactly whether `m` has no directed cycle. */
  function IsDag(m: Matrix): (b: bool)
    requires IsSquare(m)
    ensures b <==> Acyclic(m)
  {
    AcyclicIffPeels(m);
    PeelSinks(m, AllNodes(|m|))
  }

  /** Along a walk whose every edge strictly lowers `rank`, the rank falls from start to end. */
  lemma {:induction false} RankedPathDescends(m: Matrix, rank: seq<int>, p: seq<nat>)
    requires IsSquare(m) && |rank| == |m| && IsPath(m, p)
    requires forall i, j :: 0 <= i < |m| && 0 <= j < |m| && m[i][j] ==> rank[i] > rank[j]
    ensures |p| >= 2 ==> rank[p[0]] > rank[p[|p| - 1]]
    decreases |p|
  {
    if |p| >= 2 {
      assert StepAt(m, p, 0);
      if |p| >= 3 {
        SubPath(m, p, 1, |p| - 1);
        RankedPathDescends(m, rank, p[1..|p|]);
      }
    }
  }

  /** A graph whose edges all strictly lower some rank of the nodes has no cycle. */
  lemma RankedIsAcyclic(m: Matrix, rank: seq<int>)
    requires IsSquare(m) && |rank| == |m|
    requires forall i, j :: 0 <= i < |m| && 0 <= j < |m| && m[i][j] ==> rank[i] > rank[j]
    ensures Acyclic(m)
  {
    forall p | IsPath(m, p) && |p| >= 2 ensures p[0] != p[|p| - 1] {
      RankedPathDescends(m, rank, p);
    }
  }

  /** Removing edges from a DAG leaves a DAG. */
  lemma SubgraphOfAcyclic(a: Matrix, b: Matrix)
    requires IsSquare(a) && IsSquare(b) && |a| == |b|
    requires IsSubgraph(a, b) && Acyclic(b)
    ensures Acyclic(a)
  {
    forall p | IsPath(a, p) && |p| >= 2 ensures p[0] != p[|p| - 1] {
      forall k: nat | k < |p| - 1 ensures StepAt(b, p, k) {
        assert StepAt(a, p, k);
      }
      assert !IsCycle(b, p);
    }
  }
}
