/**
 * The column-index logic of `filter_effect_columns`: which columns of the data arrays hold
 * the effect variables, and the arrays cut down to those columns.
 */
module EffectColumns {

  /** Every variable's processed columns are column indices below `width`. */
  predicate ColumnsFit(processedCols: seq<seq<nat>>, width: nat) {
    forall v, k :: 0 <= v < |processedCols| && 0 <= k < |processedCols[v]| ==> processedCols[v][k] < width
  }

  predicate VariablesFit(processedCols: seq<seq<nat>>, effectIdxs: seq<nat>) {
    forall k :: 0 <= k < |effectIdxs| ==> effectIdxs[k] < |processedCols|
  }

  /** The processed columns of the variables in `effectIdxs`, variable after variable. */
  function ConcatGroups(processedCols: seq<seq<nat>>, effectIdxs: seq<nat>): seq<nat>
    requires VariablesFit(processedCols, effectIdxs)
  {
    if effectIdxs == [] then []
    else
      var init := effectIdxs[..|effectIdxs| - 1];
      ConcatGroups(processedCols, init) + processedCols[effectIdxs[|effectIdxs| - 1]]
  }

  /** Listing the variables in two parts lists their columns in the same two parts. */
  lemma {:induction false} ConcatGroupsAppend(processedCols: seq<seq<nat>>, e1: seq<nat>, e2: seq<nat>)
    requires VariablesFit(processedCols, e1) && VariablesFit(processedCols, e2)
    ensures VariablesFit(processedCols, e1 + e2)
    ensures ConcatGroups(processedCols, e1 + e2) == ConcatGroups(processedCols, e1) + ConcatGroups(processedCols, e2)
    decreases |e2|
  {
    if e2 != [] {
      var init := e2[..|e2| - 1];
      ConcatGroupsAppend(processedCols, e1, init);
      assert (e1 + e2)[..|e1 + e2| - 1] == e1 + init;
      assert (e1 + e2)[|e1 + e2| - 1] == e2[|e2| - 1];
    } else {
      assert e1 + e2 == e1;
    }
  }

  /** A column is selected exactly when it belongs to one of the effect variables. */
  lemma {:induction false} ConcatGroupsMembers(processedCols: seq<seq<nat>>, effectIdxs: seq<nat>)
    requires VariablesFit(processedCols, effectIdxs)
    ensures forall c :: c in ConcatGroups(processedCols, effectIdxs) <==>
              exists k :: 0 <= k < |effectIdxs| && c in processedCols[effectIdxs[k]]
  {
    if effectIdxs != [] {
      var init := effectIdxs[..|effectIdxs| - 1];
      var last := effectIdxs[|effectIdxs| - 1];
      ConcatGroupsMembers(processedCols, init);
      forall c ensures c in ConcatGroups(processedCols, effectIdxs) <==>
                  exists k :: 0 <= k < |effectIdxs| && c in processedCols[effectIdxs[k]]
      {
        if exists k :: 0 <= k < |effectIdxs| && c in processedCols[effectIdxs[k]] {
          var k :| 0 <= k < |effectIdxs| && c in processedCols[effectIdxs[k]];
          if k < |init| {
            assert init[k] == effectIdxs[k];
          }
        }
        if c in ConcatGroups(processedCols, init) {
          var k :| 0 <= k < |init| && c in processedCols[init[k]];
          assert effectIdxs[k] == init[k];
        }
      }
    }
  }

  /** The loop over `effect_idxs` that extends `processed_effect_idxs` with each variable's columns. */
  method ProcessedEffectIdxs(processedCols: seq<seq<nat>>, effectIdxs: seq<nat>) returns (cols: seq<nat>)
    requires VariablesFit(processedCols, effectIdxs)
    ensures cols == ConcatGroups(processedCols, effectIdxs)
  {
    cols := [];
    for k := 0 to |effectIdxs|
      invariant cols == ConcatGroups(processedCols, effectIdxs[..k])
    {
      assert effectIdxs[..k + 1][..k] == effectIdxs[..k];
      cols := cols + processedCols[effectIdxs[k]];
    }
    assert effectIdxs[..|effectIdxs|] == effectIdxs;
  }

  /** `a[..., cols]` for a two-dimensional array: each row keeps the listed columns, in order. */
  function SelectColumns<T>(a: seq<seq<T>>, cols: seq<nat>): (r: seq<seq<T>>)
    requires forall i, k :: 0 <= i < |a| && 0 <= k < |cols| ==> cols[k] < |a[i]|
    ensures |r| == |a|
    ensures forall i :: 0 <= i < |a| ==> |r[i]| == |cols| && forall k :: 0 <= k < |cols| ==> r[i][k] == a[i][cols[k]]
  {
    seq(|a|, i requires 0 <= i < |a| => seq(|cols|, k requires 0 <= k < |cols| => a[i][cols[k]]))
  }

  /**
   * Selecting the columns of two lists of variables side by side is selecting the columns of
   * the joined list: each variable's columns stay together, in the order the variables are given.
   */
  lemma SelectColumnsAppend<T>(a: seq<seq<T>>, cols1: seq<nat>, cols2: seq<nat>)
    requires forall i, k :: 0 <= i < |a| && 0 <= k < |cols1| ==> cols1[k] < |a[i]|
    requires forall i, k :: 0 <= i < |a| && 0 <= k < |cols2| ==> cols2[k] < |a[i]|
    ensures forall i :: 0 <= i < |a| ==>
              SelectColumns(a, cols1 + cols2)[i] == SelectColumns(a, cols1)[i] + SelectColumns(a, cols2)[i]
  {
    forall i | 0 <= i < |a|
      ensures SelectColumns(a, cols1 + cols2)[i] == SelectColumns(a, cols1)[i] + SelectColumns(a, cols2)[i]
    {
      var l, r := SelectColumns(a, cols1 + cols2)[i], SelectColumns(a, cols1)[i] + SelectColumns(a, cols2)[i];
      forall k | 0 <= k < |l| ensures l[k] == r[k] {
        if k >= |cols1| {
          assert (cols1 + cols2)[k] == cols2[k - |cols1|];
        }
      }
    }
  }

  /**
   * `filter_effect_columns(arrs, variables, effect_idxs, processed)`, the arrays only: with
   * `processed` the columns are the processed columns of each effect variable, otherwise the
   * effect indices themselves.
   */
  method FilterEffectColumns<T>(arrs: seq<seq<seq<T>>>, processedCols: seq<seq<nat>>, effectIdxs: seq<nat>, processed: bool)
    returns (filtered: seq<seq<seq<T>>>, cols: seq<nat>)
    requires VariablesFit(processedCols, effectIdxs)
    requires !processed ==> forall t, i, k :: 0 <= t < |arrs| && 0 <= i < |arrs[t]| && 0 <= k < |effectIdxs| ==>
               effectIdxs[k] < |arrs[t][i]|
    requires processed ==> forall t, i :: 0 <= t < |arrs| && 0 <= i < |arrs[t]| ==>
               ColumnsFit(processedCols, |arrs[t][i]|)
    ensures cols == if processed then ConcatGroups(processedCols, effectIdxs) else effectIdxs
    ensures forall t, i, k :: 0 <= t < |arrs| && 0 <= i < |arrs[t]| && 0 <= k < |cols| ==>
              cols[k] < |arrs[t][i]|
    ensures |filtered| == |arrs|
    ensures forall t :: 0 <= t < |arrs| ==> |filtered[t]| == |arrs[t]|
    ensures forall t, i :: 0 <= t < |arrs| && 0 <= i < |arrs[t]| ==>
              |filtered[t][i]| == |cols| && forall k :: 0 <= k < |cols| ==> filtered[t][i][k] == arrs[t][i][cols[k]]
  {
    if processed {
      cols := ProcessedEffectIdxs(processedCols, effectIdxs);
      ConcatGroupsMembers(processedCols, effectIdxs);
      forall t, i, k | 0 <= t < |arrs| && 0 <= i < |arrs[t]| && 0 <= k < |cols|
        ensures cols[k] < |arrs[t][i]|
      {
        assert cols[k] in cols;
        var v :| 0 <= v < |effectIdxs| && cols[k] in processedCols[effectIdxs[v]];
        var l :| 0 <= l < |processedCols[effectIdxs[v]]| && processedCols[effectIdxs[v]][l] == cols[k];
      }
    } else {
      cols := effectIdxs;
    }
    filtered := seq(|arrs|, t requires 0 <= t < |arrs| => SelectColumns(arrs[t], cols));
  }
}
