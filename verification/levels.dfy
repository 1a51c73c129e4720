/** Structural queries on the depth column of a flattened tree. A flat tree is
    read only through its sequence of levels: a node's descendants are the
    contiguous run after it whose levels are strictly greater, and its parent
    is the nearest earlier node exactly one level up. */
module Levels {
  import opened Traces

  /** Row `j` is at most one level deeper than the row before it. */
  ghost predicate StepAt(levels: seq<nat>, j: nat)
    requires 0 < j < |levels|
  {
    levels[j] <= levels[j - 1] + 1
  }

  /** Pre-order shape: going one row down never descends more than one level. */
  ghost predicate Steps(levels: seq<nat>) {
    forall j :: 0 < j < |levels| ==> StepAt(levels, j)
  }

  /** The flattening of a single tree: the root at level 0, everything else
      below it, and pre-order steps. */
  ghost predicate SingleRooted(levels: seq<nat>) {
    && |levels| > 0
    && levels[0] == 0
    && (forall j :: 0 < j < |levels| ==> levels[j] > 0)
    && Steps(levels)
  }

  /** The first index at or after `k` whose level is at most `lv`, or the end. */
  function ScanEnd(levels: seq<nat>, lv: nat, k: nat): (e: nat)
    requires k <= |levels|
    ensures k <= e <= |levels|
    ensures forall j :: k <= j < e ==> levels[j] > lv
    ensures e == |levels| || levels[e] <= lv
    decreases |levels| - k
  {
    if k == |levels| || levels[k] <= lv then k else ScanEnd(levels, lv, k + 1)
  }

  /** One past the last descendant of the node at `i`. */
  function DescendantEnd(levels: seq<nat>, i: nat): (e: nat)
    requires i < |levels|
    ensures i < e <= |levels|
    ensures forall j :: i < j < e ==> levels[j] > levels[i]
    ensures e == |levels| || levels[e] <= levels[i]
  {
    ScanEnd(levels, levels[i], i + 1)
  }

  /** Any end that has the defining property of `DescendantEnd` is it. */
  lemma DescendantEndUnique(levels: seq<nat>, i: nat, e: nat)
    requires i < e <= |levels|
    requires forall j :: i < j < e ==> levels[j] > levels[i]
    requires e == |levels| || levels[e] <= levels[i]
    ensures DescendantEnd(levels, i) == e
  {
  }

  /** The descendants of a descendant are descendants. */
  lemma BlockNested(levels: seq<nat>, i: nat, k: nat)
    requires i < |levels|
    requires i < k < DescendantEnd(levels, i)
    ensures DescendantEnd(levels, k) <= DescendantEnd(levels, i)
  {
  }

  /** The nearest index before `k` whose level is exactly `lv`. */
  function LastAt(levels: seq<nat>, lv: nat, k: nat): (p: Option<nat>)
    requires k <= |levels|
    ensures p.Some? ==> p.value < k && levels[p.value] == lv
    ensures p.Some? ==> forall q :: p.value < q < k ==> levels[q] != lv
    ensures p.None? ==> forall q :: 0 <= q < k ==> levels[q] != lv
  {
    if k == 0 then None
    else if levels[k - 1] == lv then Some(k - 1)
    else LastAt(levels, lv, k - 1)
  }

  /** The parent of the node at `j`: the nearest earlier node one level up. */
  function ParentOf(levels: seq<nat>, j: nat): (p: Option<nat>)
    requires j < |levels|
    ensures levels[j] == 0 ==> p.None?
    ensures p.Some? ==> p.value < j && levels[p.value] + 1 == levels[j]
    ensures p.Some? ==> forall q :: p.value < q < j ==> levels[q] + 1 != levels[j]
  {
    if levels[j] == 0 then None else LastAt(levels, levels[j] - 1, j)
  }

  /** Levels never jump by more than one going down, so every level between
      two rows is met on the way. */
  lemma {:induction false} StepsReach(levels: seq<nat>, a: nat, b: nat, lv: nat)
    requires Steps(levels)
    requires a < b < |levels|
    requires levels[a] <= lv < levels[b]
    ensures exists q :: a <= q < b && levels[q] == lv
    decreases b - a
  {
    assert StepAt(levels, b);
    if levels[b - 1] > lv {
      StepsReach(levels, a, b - 1, lv);
    }
  }

  /** Inside the descendant block of `i`, every node's parent lies in the block
      or is `i` itself. */
  lemma ParentInBlock(levels: seq<nat>, i: nat, j: nat)
    requires Steps(levels)
    requires i < |levels|
    requires i < j < DescendantEnd(levels, i)
    ensures ParentOf(levels, j).Some?
    ensures i <= ParentOf(levels, j).value < j
  {
    StepsReach(levels, i, j, levels[j] - 1);
    var q :| i <= q < j && levels[q] == levels[j] - 1;
  }

  /** The parent of a node has the node in its descendant block. */
  lemma ChildInParentBlock(levels: seq<nat>, j: nat)
    requires Steps(levels)
    requires j < |levels|
    requires ParentOf(levels, j).Some?
    ensures j < DescendantEnd(levels, ParentOf(levels, j).value)
  {
    var p := ParentOf(levels, j).value;
    var e := DescendantEnd(levels, p);
    if e <= j {
      // A row between the parent and `j` at most at the parent's level would
      // force an intermediate row at the parent's level, nearer than `p`.
      if levels[e] < levels[p] {
        StepsReach(levels, e, j, levels[p]);
      }
    }
  }

  /** A row at the next level inside the block of `i` has `i` as its parent. */
  lemma ChildParent(levels: seq<nat>, i: nat, k: nat)
    requires i < |levels|
    requires i < k < DescendantEnd(levels, i)
    requires levels[k] == levels[i] + 1
    ensures ParentOf(levels, k) == Some(i)
  {
  }

  /** In a single-rooted flat tree the root's block is the whole sequence. */
  lemma RootBlockIsAll(levels: seq<nat>)
    requires SingleRooted(levels)
    ensures DescendantEnd(levels, 0) == |levels|
  {
    DescendantEndUnique(levels, 0, |levels|);
  }
}
