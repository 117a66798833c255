/**
 * `intervene_graph`: an intervention on a set of nodes cuts every edge into them by zeroing
 * their columns, on a copy of the adjacency matrix or in place. `get_mask_from_idxs`: the
 * columns that belong to a set of selected groups.
 */
module Intervention {
  import opened Wrappers
  import opened Graphs

  // ---------------------------------------------------------------------------
  // The graph after an intervention
  // ---------------------------------------------------------------------------

  /** `m` with the columns listed in `idxs` set to zero. */
  function Intervened(m: Matrix, idxs: seq<nat>): (r: Matrix)
    requires IsSquare(m)
    ensures IsSquare(r) && |r| == |m|
  {
    seq(|m|, i requires 0 <= i < |m| =>
      seq(|m|, j requires 0 <= j < |m| => m[i][j] && j !in idxs))
  }

  /**
   * After the intervention a node listed in `idxs` has no parent, and every edge into a node
   * that is not listed is kept.
   */
  lemma InterventionCutsParents(m: Matrix, idxs: seq<nat>)
    requires IsSquare(m)
    ensures forall i, j :: 0 <= i < |m| && 0 <= j < |m| && j in idxs ==> !Intervened(m, idxs)[i][j]
    ensures forall i, j :: 0 <= i < |m| && 0 <= j < |m| && j !in idxs ==> Intervened(m, idxs)[i][j] == m[i][j]
    ensures IsSubgraph(Intervened(m, idxs), m)
  {
  }

  /** Intervening twice on the same nodes changes nothing more. */
  lemma InterventionIdempotent(m: Matrix, idxs: seq<nat>)
    requires IsSquare(m)
    ensures Intervened(Intervened(m, idxs), idxs) == Intervened(m, idxs)
  {
    var once := Intervened(m, idxs);
    var twice := Intervened(once, idxs);
    forall i | 0 <= i < |m| ensures twice[i] == once[i] { }
  }

  /** Two interventions in a row are one intervention on both lists of nodes, in either order. */
  lemma InterventionsCompose(m: Matrix, idxs1: seq<nat>, idxs2: seq<nat>)
    requires IsSquare(m)
    ensures Intervened(Intervened(m, idxs1), idxs2) == Intervened(m, idxs1 + idxs2)
    ensures Intervened(Intervened(m, idxs1), idxs2) == Intervened(Intervened(m, idxs2), idxs1)
  {
    var a := Intervened(Intervened(m, idxs1), idxs2);
    var b := Intervened(m, idxs1 + idxs2);
    var c := Intervened(Intervened(m, idxs2), idxs1);
    forall i | 0 <= i < |m| ensures a[i] == b[i] && a[i] == c[i] { }
  }

  /** Cutting edges never creates a cycle: an intervention on a DAG leaves a DAG. */
  lemma InterventionKeepsDag(m: Matrix, idxs: seq<nat>)
    requires IsSquare(m) && Acyclic(m)
    ensures Acyclic(Intervened(m, idxs))
  {
    InterventionCutsParents(m, idxs);
    SubgraphOfAcyclic(Intervened(m, idxs), m);
  }

  /** Intervening on no node leaves the graph as it is. */
  lemma InterventionOnNothing(m: Matrix)
    requires IsSquare(m)
    ensures Intervened(m, []) == m
  {
    forall i | 0 <= i < |m| ensures Intervened(m, [])[i] == m[i] { }
  }

  // ---------------------------------------------------------------------------
  // intervene_graph on a mutable matrix
  // ---------------------------------------------------------------------------

  /** The entries of a two-dimensional array, row by row. */
  function Contents(a: array2<bool>): (m: Matrix)
    reads a
    ensures |m| == a.Length0 && forall i :: 0 <= i < |m| ==> |m[i]| == a.Length1
  {
    seq(a.Length0, i requires 0 <= i < a.Length0 reads a =>
      seq(a.Length1, j requires 0 <= j < a.Length1 reads a => a[i, j]))
  }

  /** `adj_matrix.clone()`. */
  method Clone(a: array2<bool>) returns (c: array2<bool>)
    ensures fresh(c) && c.Length0 == a.Length0 && c.Length1 == a.Length1
    ensures Contents(c) == Contents(a)
  {
    c := new bool[a.Length0, a.Length1];
    for i := 0 to a.Length0
      invariant forall i', j :: 0 <= i' < i && 0 <= j < a.Length1 ==> c[i', j] == a[i', j]
    {
      for j := 0 to a.Length1
        invariant forall i', j' :: 0 <= i' < i && 0 <= j' < a.Length1 ==> c[i', j'] == a[i', j']
        invariant forall j' :: 0 <= j' < j ==> c[i, j'] == a[i, j']
      {
        c[i, j] := a[i, j];
      }
    }
    assert forall i :: 0 <= i < a.Length0 ==> Contents(c)[i] == Contents(a)[i];
  }

  /** `adj_matrix[:, intervention_idxs] = 0`, in place. */
  method ZeroColumns(a: array2<bool>, idxs: seq<nat>)
    requires a.Length0 == a.Length1
    requires forall k :: 0 <= k < |idxs| ==> idxs[k] < a.Length1
    modifies a
    ensures Contents(a) == Intervened(old(Contents(a)), idxs)
  {
    ghost var m := Contents(a);
    var n := a.Length0;
    for k := 0 to |idxs|
      invariant forall i, j :: 0 <= i < n && 0 <= j < n ==> a[i, j] == (m[i][j] && j !in idxs[..k])
    {
      var col := idxs[k];
      assert idxs[..k + 1] == idxs[..k] + [col];
      for i := 0 to n
        invariant forall i', j :: 0 <= i' < n && 0 <= j < n && j != col ==>
                    a[i', j] == (m[i'][j] && j !in idxs[..k])
        invariant forall i' :: 0 <= i' < i ==> !a[i', col]
        invariant forall i' :: i <= i' < n ==> a[i', col] == (m[i'][col] && col !in idxs[..k])
      {
        a[i, col] := false;
      }
    }
    assert idxs[..|idxs|] == idxs;
    assert forall i :: 0 <= i < n ==> Contents(a)[i] == Intervened(m, idxs)[i];
  }

  /**
   * `intervene_graph(adj_matrix, intervention_idxs, copy_graph)`. With no indices (`None` or
   * empty) the argument itself is returned, even when a copy was asked for. Otherwise the
   * columns are zeroed on a fresh copy when `copyGraph` holds, and on the argument otherwise.
   */
  method InterveneGraph(a: array2<bool>, idxs: Option<seq<nat>>, copyGraph: bool) returns (r: array2<bool>)
    requires a.Length0 == a.Length1
    requires idxs.Some? ==> forall k :: 0 <= k < |idxs.value| ==> idxs.value[k] < a.Length1
    modifies a
    ensures idxs.None? || idxs.value == [] || !copyGraph ==> r == a
    ensures idxs.Some? && idxs.value != [] && copyGraph ==> fresh(r)
    ensures copyGraph ==> Contents(a) == old(Contents(a))
    ensures Contents(r) == Intervened(old(Contents(a)), if idxs.None? then [] else idxs.value)
  {
    InterventionOnNothing(Contents(a));
    if idxs.None? || idxs.value == [] {
      return a;
    }
    if copyGraph {
      r := Clone(a);
    } else {
      r := a;
    }
    ZeroColumns(r, idxs.value);
  }

  // ---------------------------------------------------------------------------
  // get_mask_from_idxs
  // ---------------------------------------------------------------------------

  /** Every group row of `groupMask` has `width` columns. */
  predicate Rectangular(groupMask: Matrix, width: nat) {
    forall g :: 0 <= g < |groupMask| ==> |groupMask[g]| == width
  }

  /** `idxs` selects group g: every group when `idxs` is `None` (`mask[None] = 1`), else the groups listed. */
  predicate Selects(idxs: Option<seq<nat>>, g: nat) {
    idxs.None? || g in idxs.value
  }

  /**
   * `get_mask_from_idxs(idxs, group_mask, device)`: column c is set exactly when some selected
   * group has column c in its `group_mask` row.
   */
  method GetMaskFromIdxs(idxs: Option<seq<nat>>, groupMask: Matrix, width: nat) returns (mask: seq<bool>)
    requires Rectangular(groupMask, width)
    requires idxs.Some? ==> forall k :: 0 <= k < |idxs.value| ==> idxs.value[k] < |groupMask|
    ensures |mask| == width
    ensures forall c :: 0 <= c < width ==>
              (mask[c] <==> exists g :: 0 <= g < |groupMask| && Selects(idxs, g) && groupMask[g][c])
  {
    var groups := |groupMask|;
    // Mark the selected groups: every group when no indices are given, else the listed ones.
    var selected := new bool[groups];
    for g := 0 to groups
      invariant forall g' :: 0 <= g' < g ==> selected[g'] == idxs.None?
    {
      selected[g] := idxs.None?;
    }
    if idxs.Some? {
      var chosen := idxs.value;
      for k := 0 to |chosen|
        invariant forall g :: 0 <= g < groups ==> (selected[g] <==> g in chosen[..k])
      {
        assert chosen[..k + 1] == chosen[..k] + [chosen[k]];
        selected[chosen[k]] := true;
      }
      assert chosen[..|chosen|] == chosen;
    }
    var chosenGroups := selected[..];
    assert forall g :: 0 <= g < groups ==> (chosenGroups[g] <==> Selects(idxs, g));
    // A column is set when at least one marked group covers it.
    var columns := new bool[width];
    for c := 0 to width
      invariant forall c' :: 0 <= c' < c ==>
                  (columns[c'] <==> exists g :: 0 <= g < groups && chosenGroups[g] && groupMask[g][c'])
    {
      var any := false;
      for g := 0 to groups
        invariant any <==> exists g' :: 0 <= g' < g && chosenGroups[g'] && groupMask[g'][c]
      {
        any := any || (chosenGroups[g] && groupMask[g][c]);
      }
      columns[c] := any;
    }
    mask := columns[..];
  }
}
