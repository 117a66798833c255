/**
 * `process_adjacency_mats`: a single adjacency matrix is checked to be a DAG and returned with
 * weight 1; a batch is filtered down to its DAGs, deduplicated as `np.unique(.., axis=0,
 * return_counts=True)` does (distinct matrices in lexicographic order of their row-major
 * entries, each with its multiplicity), and each distinct DAG is weighted by its multiplicity
 * over the number of DAGs kept.
 */
module AdjacencyProcessing {
  import opened Wrappers
  import opened Graphs

  // ---------------------------------------------------------------------------
  // The order of `np.unique(.., axis=0)`
  // ---------------------------------------------------------------------------

  /** Lexicographic order on rows, with `False < True` (a shorter prefix first). */
  predicate BitsLess(a: seq<bool>, b: seq<bool>) {
    if a == [] then b != []
    else if b == [] then false
    else if a[0] != b[0] then !a[0]
    else BitsLess(a[1..], b[1..])
  }

  /**
   * Lexicographic order on matrices, row by row. For matrices whose rows all have one length
   * this is the lexicographic order of the row-major entries that `np.unique` sorts by.
   */
  predicate MatLess(a: Matrix, b: Matrix) {
    if a == [] then b != []
    else if b == [] then false
    else if a[0] != b[0] then BitsLess(a[0], b[0])
    else MatLess(a[1..], b[1..])
  }

  lemma {:induction false} BitsLessIsStrictTotal(a: seq<bool>, b: seq<bool>, c: seq<bool>)
    ensures !BitsLess(a, a)
    ensures a != b ==> BitsLess(a, b) || BitsLess(b, a)
    ensures BitsLess(a, b) && BitsLess(b, c) ==> BitsLess(a, c)
  {
    if a != [] && b != [] && c != [] {
      BitsLessIsStrictTotal(a[1..], b[1..], c[1..]);
      if a != b && a[0] == b[0] {
        assert a == [a[0]] + a[1..] && b == [b[0]] + b[1..];
      }
    } else if a != [] && b != [] {
      BitsLessIsStrictTotal(a[1..], b[1..], []);
      if a != b && a[0] == b[0] {
        assert a == [a[0]] + a[1..] && b == [b[0]] + b[1..];
      }
    } else if a != [] {
      BitsLessIsStrictTotal(a[1..], [], []);
    }
  }

  /** `MatLess` is a strict total order: irreflexive, total on distinct matrices, transitive. */
  lemma {:induction false} MatLessIsStrictTotal(a: Matrix, b: Matrix, c: Matrix)
    ensures !MatLess(a, a)
    ensures a != b ==> MatLess(a, b) || MatLess(b, a)
    ensures MatLess(a, b) && MatLess(b, c) ==> MatLess(a, c)
  {
    if a != [] && b != [] && c != [] {
      MatLessIsStrictTotal(a[1..], b[1..], c[1..]);
      BitsLessIsStrictTotal(a[0], b[0], c[0]);
      BitsLessIsStrictTotal(b[0], a[0], c[0]);
      BitsLessIsStrictTotal(a[0], c[0], b[0]);
      if a != b && a[0] == b[0] {
        assert a == [a[0]] + a[1..] && b == [b[0]] + b[1..];
      }
    } else if a != [] && b != [] {
      MatLessIsStrictTotal(a[1..], b[1..], []);
      BitsLessIsStrictTotal(a[0], b[0], []);
      if a != b && a[0] == b[0] {
        assert a == [a[0]] + a[1..] && b == [b[0]] + b[1..];
      }
    } else if a != [] {
      MatLessIsStrictTotal(a[1..], [], []);
      BitsLessIsStrictTotal(a[0], a[0], a[0]);
    }
  }

  // ---------------------------------------------------------------------------
  // Counting distinct matrices (`np.unique(.., return_counts=True)`)
  // ---------------------------------------------------------------------------

  /** A distinct matrix and the number of times it occurs. */
  datatype Entry = Entry(mat: Matrix, count: nat)

  function Mats(entries: seq<Entry>): (ms: seq<Matrix>)
    ensures |ms| == |entries|
    ensures forall k :: 0 <= k < |entries| ==> ms[k] == entries[k].mat
  {
    seq(|entries|, k requires 0 <= k < |entries| => entries[k].mat)
  }

  /** Strictly increasing in `MatLess`, hence free of duplicates. */
  predicate StrictlySorted(entries: seq<Entry>) {
    forall i, j :: 0 <= i < j < |entries| ==> MatLess(entries[i].mat, entries[j].mat)
  }

  predicate CountsPositive(entries: seq<Entry>) {
    forall k :: 0 <= k < |entries| ==> entries[k].count > 0
  }

  /** The number of occurrences of `m` the entries record. */
  function CountIn(entries: seq<Entry>, m: Matrix): nat {
    if entries == [] then 0
    else (if entries[0].mat == m then entries[0].count else 0) + CountIn(entries[1..], m)
  }

  function TotalCount(entries: seq<Entry>): nat {
    if entries == [] then 0 else entries[0].count + TotalCount(entries[1..])
  }

  /** Records one more occurrence of `m`, keeping the entries sorted. */
  function Insert(entries: seq<Entry>, m: Matrix): seq<Entry> {
    if entries == [] then [Entry(m, 1)]
    else if entries[0].mat == m then [Entry(m, entries[0].count + 1)] + entries[1..]
    else if MatLess(m, entries[0].mat) then [Entry(m, 1)] + entries
    else [entries[0]] + Insert(entries[1..], m)
  }

  /** Inserting adds one to the total, and one to the count of `m` only. */
  lemma {:induction false} InsertCount(entries: seq<Entry>, m: Matrix, x: Matrix)
    ensures TotalCount(Insert(entries, m)) == TotalCount(entries) + 1
    ensures CountIn(Insert(entries, m), x) == CountIn(entries, x) + (if x == m then 1 else 0)
  {
    var r := Insert(entries, m);
    if entries == [] {
    } else if entries[0].mat == m {
      assert r[1..] == entries[1..];
    } else if MatLess(m, entries[0].mat) {
      assert r[1..] == entries;
    } else {
      InsertCount(entries[1..], m, x);
      assert r[1..] == Insert(entries[1..], m);
    }
  }

  lemma {:induction false} InsertPositive(entries: seq<Entry>, m: Matrix)
    requires CountsPositive(entries)
    ensures CountsPositive(Insert(entries, m))
  {
    if entries != [] && entries[0].mat != m && !MatLess(m, entries[0].mat) {
      InsertPositive(entries[1..], m);
    }
  }

  /** A lower bound of the recorded matrices and of `m` stays one after inserting `m`. */
  lemma {:induction false} InsertAbove(entries: seq<Entry>, m: Matrix, low: Matrix)
    requires forall k :: 0 <= k < |entries| ==> MatLess(low, entries[k].mat)
    requires MatLess(low, m)
    ensures forall k :: 0 <= k < |Insert(entries, m)| ==> MatLess(low, Insert(entries, m)[k].mat)
  {
    if entries != [] && entries[0].mat != m && !MatLess(m, entries[0].mat) {
      InsertAbove(entries[1..], m, low);
      var r := Insert(entries, m);
      assert forall k :: 1 <= k < |r| ==> r[k] == Insert(entries[1..], m)[k - 1];
    }
  }

  /** Inserting keeps the entries strictly sorted. */
  lemma {:induction false} InsertSorted(entries: seq<Entry>, m: Matrix)
    requires StrictlySorted(entries)
    ensures StrictlySorted(Insert(entries, m))
  {
    var r := Insert(entries, m);
    if entries != [] && entries[0].mat != m && !MatLess(m, entries[0].mat) {
      var rest := Insert(entries[1..], m);
      InsertSorted(entries[1..], m);
      MatLessIsStrictTotal(m, entries[0].mat, m);
      InsertAbove(entries[1..], m, entries[0].mat);
      assert forall j :: 1 <= j < |r| ==> r[j] == rest[j - 1];
    } else if entries != [] && entries[0].mat != m {
      forall i, j | 0 <= i < j < |r| ensures MatLess(r[i].mat, r[j].mat) {
        if i > 0 {
          assert r[i] == entries[i - 1] && r[j] == entries[j - 1];
        } else {
          MatLessIsStrictTotal(m, entries[0].mat, entries[j - 1].mat);
        }
      }
    }
  }

  /** With positive counts, a matrix is recorded exactly when its count is positive. */
  lemma {:induction false} CountMeansPresent(entries: seq<Entry>, x: Matrix)
    requires CountsPositive(entries)
    ensures x in Mats(entries) <==> CountIn(entries, x) > 0
  {
    if entries != [] {
      CountMeansPresent(entries[1..], x);
      var ms, rest := Mats(entries), Mats(entries[1..]);
      assert ms == [entries[0].mat] + rest;
    }
  }

  /**
   * The entries of `np.unique(ms, axis=0, return_counts=True)`: the distinct matrices of `ms`,
   * in increasing order, each with its number of occurrences.
   */
  function Tally(ms: seq<Matrix>): (entries: seq<Entry>)
    ensures StrictlySorted(entries) && CountsPositive(entries)
  {
    if ms == [] then []
    else
      var t, last := Tally(ms[..|ms| - 1]), ms[|ms| - 1];
      InsertSorted(t, last);
      InsertPositive(t, last);
      Insert(t, last)
  }

  /**
   * The tally lists each matrix of `ms` exactly once, in strictly increasing order, with its
   * multiplicity in `ms`, and the multiplicities add up to `|ms|`.
   */
  lemma {:induction false} TallyIsUnique(ms: seq<Matrix>)
    ensures StrictlySorted(Tally(ms)) && CountsPositive(Tally(ms))
    ensures forall x :: CountIn(Tally(ms), x) == multiset(ms)[x]
    ensures forall x :: x in Mats(Tally(ms)) <==> x in ms
    ensures TotalCount(Tally(ms)) == |ms|
  {
    var t := Tally(ms);
    if ms != [] {
      var init := ms[..|ms| - 1];
      var last := ms[|ms| - 1];
      TallyIsUnique(init);
      assert ms == init + [last];
      forall x ensures CountIn(t, x) == multiset(ms)[x] {
        InsertCount(Tally(init), last, x);
      }
      InsertCount(Tally(init), last, last);
    }
    forall x ensures x in Mats(t) <==> x in ms {
      CountMeansPresent(t, x);
    }
  }

  /** In strictly sorted entries the count recorded for a matrix is the count of its own entry. */
  lemma {:induction false} CountOfEntry(entries: seq<Entry>)
    requires StrictlySorted(entries)
    ensures forall k :: 0 <= k < |entries| ==> CountIn(entries, entries[k].mat) == entries[k].count
  {
    if entries != [] {
      var rest := entries[1..];
      CountOfEntry(rest);
      assert StrictlySorted(rest) by {
        assert forall j :: 0 <= j < |rest| ==> rest[j] == entries[j + 1];
      }
      forall k | 0 <= k < |entries| ensures CountIn(entries, entries[k].mat) == entries[k].count {
        if k == 0 {
          CountAbsent(rest, entries[0].mat);
        } else {
          assert entries[k] == rest[k - 1];
          MatLessIsStrictTotal(entries[0].mat, entries[k].mat, entries[k].mat);
        }
      }
    }
  }

  /** No count is recorded for a matrix smaller than every recorded one. */
  lemma {:induction false} CountAbsent(entries: seq<Entry>, m: Matrix)
    requires forall k :: 0 <= k < |entries| ==> MatLess(m, entries[k].mat)
    ensures CountIn(entries, m) == 0
  {
    if entries != [] {
      MatLessIsStrictTotal(m, m, m);
      CountAbsent(entries[1..], m);
    }
  }

  // ---------------------------------------------------------------------------
  // Weights
  // ---------------------------------------------------------------------------

  /** `dup_counts / np.sum(dup_counts)`. */
  function Weights(entries: seq<Entry>, total: nat): (ws: seq<real>)
    requires total > 0
    ensures |ws| == |entries|
  {
    if entries == [] then []
    else [entries[0].count as real / total as real] + Weights(entries[1..], total)
  }

  function Sum(xs: seq<real>): real {
    if xs == [] then 0.0 else xs[0] + Sum(xs[1..])
  }

  lemma {:induction false} WeightsSum(entries: seq<Entry>, total: nat)
    requires total > 0
    ensures Sum(Weights(entries, total)) == TotalCount(entries) as real / total as real
  {
    if entries != [] {
      WeightsSum(entries[1..], total);
      var ws := Weights(entries, total);
      assert ws[1..] == Weights(entries[1..], total);
      var a, b, t := entries[0].count as real, TotalCount(entries[1..]) as real, total as real;
      assert a / t + b / t == (a + b) / t;
    }
  }

  /** Weights over the total count sum to 1. */
  lemma WeightsSumToOne(entries: seq<Entry>, total: nat)
    requires total > 0 && TotalCount(entries) == total
    ensures Sum(Weights(entries, total)) == 1.0
  {
    WeightsSum(entries, total);
    var t := total as real;
    assert t > 0.0;
    assert t / t == 1.0;
  }

  lemma {:induction false} WeightsPositive(entries: seq<Entry>, total: nat)
    requires total > 0 && CountsPositive(entries)
    ensures forall k :: 0 <= k < |entries| ==> Weights(entries, total)[k] > 0.0
  {
    WeightsEach(entries, total);
    forall k | 0 <= k < |entries| ensures Weights(entries, total)[k] > 0.0 {
      var c, t := entries[k].count as real, total as real;
      assert c > 0.0 && t > 0.0;
      assert c / t > 0.0;
    }
  }

  lemma {:induction false} WeightsEach(entries: seq<Entry>, total: nat)
    requires total > 0
    ensures forall k :: 0 <= k < |entries| ==>
              Weights(entries, total)[k] == entries[k].count as real / total as real
  {
    if entries != [] {
      WeightsEach(entries[1..], total);
      forall k | 1 <= k < |entries|
        ensures Weights(entries, total)[k] == entries[k].count as real / total as real
      {
        assert Weights(entries, total)[k] == Weights(entries[1..], total)[k - 1];
      }
    }
  }

  // ---------------------------------------------------------------------------
  // process_adjacency_mats
  // ---------------------------------------------------------------------------

  /** The argument: a 2-D array (one matrix) or a 3-D array (a batch of matrices). */
  datatype AdjacencyInput = Single(mat: Matrix) | Batch(mats: seq<Matrix>)

  /** The returned matrices and their weights. */
  datatype Processed = Processed(mats: seq<Matrix>, weights: seq<real>)

  /** Every matrix is `numNodes` x `numNodes`, as the source's trace test presumes. */
  predicate Sized(input: AdjacencyInput, numNodes: nat) {
    match input
    case Single(m) => IsSquare(m) && |m| == numNodes
    case Batch(ms) => forall k :: 0 <= k < |ms| ==> IsSquare(ms[k]) && |ms[k]| == numNodes
  }

  /** The DAGs of the batch, in order (the list comprehension at the source's filter). */
  function KeepDags(ms: seq<Matrix>, numNodes: nat): (kept: seq<Matrix>)
    requires forall k :: 0 <= k < |ms| ==> IsSquare(ms[k]) && |ms[k]| == numNodes
    ensures forall k :: 0 <= k < |kept| ==> IsSquare(kept[k]) && |kept[k]| == numNodes
    ensures forall m :: multiset(kept)[m] == if m in ms && IsSquare(m) && Acyclic(m) then multiset(ms)[m] else 0
  {
    if ms == [] then []
    else
      var init := ms[..|ms| - 1];
      var last := ms[|ms| - 1];
      assert ms == init + [last];
      var rest := KeepDags(init, numNodes);
      if IsDag(last) then rest + [last] else rest
  }

  /** `np.any(adj_mats)`: some matrix of the list has an edge. */
  predicate AnyEdge(ms: seq<Matrix>) {
    exists k, i, j :: 0 <= k < |ms| && 0 <= i < |ms[k]| && 0 <= j < |ms[k][i]| && ms[k][i][j]
  }

  /** `np.any` fails exactly when every matrix of the list sums to zero. */
  lemma NoEdgeIffZeroSums(ms: seq<Matrix>)
    ensures !AnyEdge(ms) <==> forall k :: 0 <= k < |ms| ==> EdgeCount(ms[k]) == 0
  {
    forall k | 0 <= k < |ms| {
      EdgeCountZero(ms[k]);
    }
  }

  /** The deduplicated DAGs and their weights: one weight per distinct matrix of `kept`. */
  function Aggregate(kept: seq<Matrix>): (p: Processed)
    requires kept != []
    ensures |p.weights| == |p.mats|
    ensures forall m :: m in p.mats <==> m in kept
  {
    var entries := Tally(kept);
    TallyIsUnique(kept);
    Processed(Mats(entries), Weights(entries, |kept|))
  }

  /**
   * `process_adjacency_mats(adj_mats, num_nodes)` with the evidently intended guard: a batch
   * fails only when none of its matrices is a DAG.
   */
  function ProcessAdjacencyMats(input: AdjacencyInput, numNodes: nat): (r: Result<Processed>)
    requires Sized(input, numNodes)
    ensures input.Single? ==> (r.Ok? <==> Acyclic(input.mat))
    ensures input.Batch? ==> (r.Ok? <==> exists k :: 0 <= k < |input.mats| && Acyclic(input.mats[k]))
    ensures r.Ok? ==> r.value.mats != [] && |r.value.weights| == |r.value.mats|
  {
    match input
    case Single(m) =>
      if IsDag(m) then Ok(Processed([m], [1.0])) else Err("Generate non DAG graph")
    case Batch(ms) =>
      var kept := KeepDags(ms, numNodes);
      KeepDagsMembers(ms, numNodes);
      if kept == [] then Err("Generate non DAG graph")
      else
        assert kept[0] in kept;
        Ok(Aggregate(kept))
  }

  /** A single matrix is returned unchanged with weight 1 exactly when it is a DAG. */
  lemma ProcessSingle(m: Matrix, numNodes: nat)
    requires IsSquare(m) && |m| == numNodes
    ensures ProcessAdjacencyMats(Single(m), numNodes).Ok? <==> Acyclic(m)
    ensures Acyclic(m) ==> ProcessAdjacencyMats(Single(m), numNodes) == Ok(Processed([m], [1.0]))
  {
  }

  /**
   * A batch succeeds exactly when it holds a DAG. The result then lists every DAG of the batch
   * once and nothing else, in strictly increasing order; each weight is the DAG's multiplicity
   * over the number of DAGs in the batch, every weight is positive and they sum to 1.
   */
  lemma ProcessBatch(ms: seq<Matrix>, numNodes: nat)
    requires Sized(Batch(ms), numNodes)
    ensures var r := ProcessAdjacencyMats(Batch(ms), numNodes);
            && (r.Ok? <==> exists k :: 0 <= k < |ms| && Acyclic(ms[k]))
            && (r.Ok? ==>
                  && |r.value.weights| == |r.value.mats|
                  && (forall i, j :: 0 <= i < j < |r.value.mats| ==> MatLess(r.value.mats[i], r.value.mats[j]))
                  && (forall m :: m in r.value.mats <==> m in ms && Acyclic(m))
                  && (forall k :: 0 <= k < |r.value.mats| ==>
                        && r.value.weights[k] > 0.0
                        && r.value.weights[k] ==
                             multiset(ms)[r.value.mats[k]] as real / |KeepDags(ms, numNodes)| as real)
                  && Sum(r.value.weights) == 1.0)
  {
    var kept := KeepDags(ms, numNodes);
    KeepDagsMembers(ms, numNodes);
    if kept != [] {
      AggregateIsUnique(kept);
      var a := Aggregate(kept);
      forall k | 0 <= k < |a.mats| ensures multiset(kept)[a.mats[k]] == multiset(ms)[a.mats[k]] {
        assert a.mats[k] in a.mats;
      }
    }
  }

  /** The DAGs kept are the DAGs of the batch; none are kept exactly when the batch has none. */
  lemma KeepDagsMembers(ms: seq<Matrix>, numNodes: nat)
    requires forall k :: 0 <= k < |ms| ==> IsSquare(ms[k]) && |ms[k]| == numNodes
    ensures forall m :: m in KeepDags(ms, numNodes) <==> m in ms && Acyclic(m)
    ensures KeepDags(ms, numNodes) == [] <==> forall k :: 0 <= k < |ms| ==> !Acyclic(ms[k])
  {
    var kept := KeepDags(ms, numNodes);
    forall m ensures m in kept <==> m in ms && Acyclic(m) {
      if m in ms {
        var k :| 0 <= k < |ms| && ms[k] == m;
      }
      assert m in kept <==> multiset(kept)[m] > 0;
    }
    if exists k :: 0 <= k < |ms| && Acyclic(ms[k]) {
      var k :| 0 <= k < |ms| && Acyclic(ms[k]);
      assert ms[k] in kept;
    }
  }

  /**
   * Aggregating lists every matrix once and nothing else, in strictly increasing order, each
   * with weight its multiplicity over the number of matrices; the weights are positive and
   * sum to 1.
   */
  lemma AggregateIsUnique(kept: seq<Matrix>)
    requires kept != []
    ensures |Aggregate(kept).weights| == |Aggregate(kept).mats|
    ensures forall i, j :: 0 <= i < j < |Aggregate(kept).mats| ==>
              MatLess(Aggregate(kept).mats[i], Aggregate(kept).mats[j])
    ensures forall m :: m in Aggregate(kept).mats <==> m in kept
    ensures forall k :: 0 <= k < |Aggregate(kept).mats| ==>
              && Aggregate(kept).weights[k] > 0.0
              && Aggregate(kept).weights[k] == multiset(kept)[Aggregate(kept).mats[k]] as real / |kept| as real
    ensures Sum(Aggregate(kept).weights) == 1.0
  {
    var entries := Tally(kept);
    TallyIsUnique(kept);
    CountOfEntry(entries);
    WeightsSumToOne(entries, |kept|);
    WeightsEach(entries, |kept|);
    WeightsPositive(entries, |kept|);
    var a := Aggregate(kept);
    forall k | 0 <= k < |entries|
      ensures a.weights[k] == multiset(kept)[a.mats[k]] as real / |kept| as real
    {
      assert entries[k].count == CountIn(entries, entries[k].mat) == multiset(kept)[a.mats[k]];
    }
  }

  // ---------------------------------------------------------------------------
  // The guard as written
  // ---------------------------------------------------------------------------

  /** `process_adjacency_mats` as written: the batch guard is `assert np.any(adj_mats)`. */
  function ProcessAdjacencyMatsAsWritten(input: AdjacencyInput, numNodes: nat): (r: Result<Processed>)
    requires Sized(input, numNodes)
    ensures r.Ok? ==> r == ProcessAdjacencyMats(input, numNodes)
    ensures input.Single? ==> r == ProcessAdjacencyMats(input, numNodes)
  {
    match input
    case Single(m) =>
      if IsDag(m) then Ok(Processed([m], [1.0])) else Err("Generate non DAG graph")
    case Batch(ms) =>
      var kept := KeepDags(ms, numNodes);
      if !AnyEdge(kept) then Err("Generate non DAG graph") else Ok(Aggregate(kept))
  }

  /** The written guard agrees with the intended one whenever some DAG kept has an edge. */
  lemma AsWrittenAgrees(input: AdjacencyInput, numNodes: nat)
    requires Sized(input, numNodes)
    requires input.Batch? ==> AnyEdge(KeepDags(input.mats, numNodes))
    ensures ProcessAdjacencyMatsAsWritten(input, numNodes) == ProcessAdjacencyMats(input, numNodes)
  {
  }

  /** A batch of one empty graph is a batch of one DAG, which the written guard rejects. */
  lemma AsWrittenRejectsEmptyGraph(n: nat)
    ensures ProcessAdjacencyMats(Batch([Zero(n)]), n) == Ok(Processed([Zero(n)], [1.0]))
    ensures ProcessAdjacencyMatsAsWritten(Batch([Zero(n)]), n).Err?
  {
    var z := Zero(n);
    RankedIsAcyclic(z, seq(n, _ => 0));
    assert [z][..0] == [];
    assert KeepDags([z], n) == [z];
    assert Tally([z]) == [Entry(z, 1)];
    assert Mats([Entry(z, 1)]) == [z];
    assert Weights([Entry(z, 1)], 1) == [1.0];
  }
}
