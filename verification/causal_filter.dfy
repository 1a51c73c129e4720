/** The causal filter of the result tree: a depth-first pass from one row that
    recomputes `visible` so that a row stays visible only when its parent is
    visible and its own actual-versus-expected outcome matches the requested
    polarity. Children are found, as in the dialog, by walking the row's
    descendant block and keeping the rows exactly one level deeper. */
module CausalFilter {
  import opened Traces
  import opened Levels
  import opened FlatTree

  /** Whether a row behaved as required, in the polarity the filter asks for. */
  function Relevant(n: FlatNode, expected: bool): (b: bool)
    ensures b <==> ((n.trace.shouldBeModel == Some(n.trace.isModel)) == expected)
    ensures n.trace.shouldBeModel.None? ==> (b <==> !expected)
  {
    Actual(n.trace) == expected
  }

  /** Two row sequences that differ at most in their `visible` flags. */
  ghost predicate SameShape(a: seq<FlatNode>, b: seq<FlatNode>) {
    && |a| == |b|
    && forall j :: 0 <= j < |a| ==>
         a[j].trace == b[j].trace && a[j].level == b[j].level && a[j].expandable == b[j].expandable
  }

  /** Rows of the same shape have the same levels. */
  lemma SameShapeLevels(a: seq<FlatNode>, b: seq<FlatNode>)
    requires SameShape(a, b)
    ensures LevelsOf(a) == LevelsOf(b)
  {
  }

  /** Having the same shape is transitive. */
  lemma SameShapeTrans(a: seq<FlatNode>, b: seq<FlatNode>, c: seq<FlatNode>)
    requires SameShape(a, b) && SameShape(b, c)
    ensures SameShape(a, c)
  {
  }

  /** The dialog's `filterCauses`: set the row's own flag, then visit each
      immediate child with that flag as the parent's visibility. Only the row
      and its descendant block can change. */
  function FilterCauses(nodes: seq<FlatNode>, i: nat, expected: bool, parentIsVisible: bool): (r: seq<FlatNode>)
    requires i < |nodes|
    ensures SameShape(r, nodes)
    ensures r[i].visible == (parentIsVisible && Relevant(nodes[i], expected))
    ensures forall j :: 0 <= j < |nodes| && (j < i || j >= DescendantEnd(LevelsOf(nodes), i)) ==> r[j] == nodes[j]
    decreases |nodes| - i, 1
  {
    var visible := parentIsVisible && Relevant(nodes[i], expected);
    var marked := nodes[i := nodes[i].(visible := visible)];
    SameShapeLevels(marked, nodes);
    var r := VisitChildren(marked, i, i + 1, DescendantEnd(LevelsOf(nodes), i), expected, visible);
    SameShapeTrans(r, marked, nodes);
    r
  }

  /** The loop over the descendant block of row `i`, from position `k` to
      `end`, recursing into the rows exactly one level below `i`. */
  function VisitChildren(nodes: seq<FlatNode>, i: nat, k: nat, end: nat, expected: bool, visible: bool): (r: seq<FlatNode>)
    requires i < k <= end
    requires i < |nodes| && end == DescendantEnd(LevelsOf(nodes), i)
    ensures SameShape(r, nodes)
    ensures forall j :: 0 <= j < |nodes| && (j < k || j >= end) ==> r[j] == nodes[j]
    decreases |nodes| - i, 0, end - k
  {
    if k == end then nodes
    else if nodes[k].level == nodes[i].level + 1 then
      BlockNested(LevelsOf(nodes), i, k);
      var child := FilterCauses(nodes, k, expected, visible);
      SameShapeLevels(child, nodes);
      var r := VisitChildren(child, i, k + 1, end, expected, visible);
      SameShapeTrans(r, child, nodes);
      r
    else
      VisitChildren(nodes, i, k + 1, end, expected, visible)
  }

  /** Every row strictly between `lo` and `hi` has a parent, and its flag is
      its parent's flag AND its own relevance. */
  ghost predicate Propagated(r: seq<FlatNode>, lo: nat, hi: nat, expected: bool)
    requires hi <= |r|
  {
    forall j :: lo < j < hi ==>
      && ParentOf(LevelsOf(r), j).Some?
      && r[j].visible == (r[ParentOf(LevelsOf(r), j).value].visible && Relevant(r[j], expected))
  }

  /** Rows inside the block that lie deeper than the children are skipped. */
  lemma {:induction false} SkipDeeper(nodes: seq<FlatNode>, i: nat, k: nat, d: nat, end: nat, expected: bool, visible: bool)
    requires i < k <= d <= end
    requires i < |nodes| && end == DescendantEnd(LevelsOf(nodes), i)
    requires forall j :: k <= j < d ==> LevelsOf(nodes)[j] > LevelsOf(nodes)[i] + 1
    ensures VisitChildren(nodes, i, k, end, expected, visible) == VisitChildren(nodes, i, d, end, expected, visible)
    decreases d - k
  {
    if k < d {
      SkipDeeper(nodes, i, k + 1, d, end, expected, visible);
    }
  }

  /** After `FilterCauses` from row `i`, every row of its descendant block
      has the flag of its parent AND its own relevance. */
  lemma {:induction false} FilterCausesPropagates(nodes: seq<FlatNode>, i: nat, expected: bool, parentIsVisible: bool)
    requires i < |nodes| && Steps(LevelsOf(nodes))
    ensures Propagated(FilterCauses(nodes, i, expected, parentIsVisible), i, DescendantEnd(LevelsOf(nodes), i), expected)
    decreases |nodes| - i, 1
  {
    var visible := parentIsVisible && Relevant(nodes[i], expected);
    var marked := nodes[i := nodes[i].(visible := visible)];
    SameShapeLevels(marked, nodes);
    var end := DescendantEnd(LevelsOf(nodes), i);
    if i + 1 < end {
      assert StepAt(LevelsOf(nodes), i + 1);
    }
    VisitChildrenPropagates(marked, i, i + 1, end, expected, visible);
  }

  /** The loop over the block, started at a child with the rule holding so
      far, leaves the rule holding over the whole block. */
  lemma {:induction false} VisitChildrenPropagates(nodes: seq<FlatNode>, i: nat, k: nat, end: nat, expected: bool, visible: bool)
    requires i < k <= end
    requires i < |nodes| && end == DescendantEnd(LevelsOf(nodes), i)
    requires Steps(LevelsOf(nodes))
    requires nodes[i].visible == visible
    requires k == end || nodes[k].level == nodes[i].level + 1
    requires Propagated(nodes, i, k, expected)
    ensures Propagated(VisitChildren(nodes, i, k, end, expected, visible), i, end, expected)
    decreases |nodes| - i, 0, end - k
  {
    if k < end {
      var child, ek := VisitChild(nodes, i, k, end, expected, visible);
      VisitChildrenPropagates(child, i, ek, end, expected, visible);
    }
  }

  /** One child of the loop: filtering it and skipping its block. */
  lemma VisitChild(nodes: seq<FlatNode>, i: nat, k: nat, end: nat, expected: bool, visible: bool)
    returns (child: seq<FlatNode>, ek: nat)
    requires i < k < end
    requires i < |nodes| && end == DescendantEnd(LevelsOf(nodes), i)
    requires Steps(LevelsOf(nodes))
    requires nodes[i].visible == visible
    requires nodes[k].level == nodes[i].level + 1
    requires Propagated(nodes, i, k, expected)
    ensures k < ek <= end
    ensures LevelsOf(child) == LevelsOf(nodes) && |child| == |nodes|
    ensures child[i].visible == visible
    ensures ek == end || child[ek].level == child[i].level + 1
    ensures Propagated(child, i, ek, expected)
    ensures VisitChildren(nodes, i, k, end, expected, visible) == VisitChildren(child, i, ek, end, expected, visible)
    decreases |nodes| - i, 0, end - k, 0
  {
    var levels := LevelsOf(nodes);
    BlockNested(levels, i, k);
    child := FilterCauses(nodes, k, expected, visible);
    ek := DescendantEnd(levels, k);
    SameShapeLevels(child, nodes);
    FilterCausesPropagates(nodes, k, expected, visible);
    ChildParent(levels, i, k);
    ExtendPropagated(nodes, child, i, k, ek, expected);
    assert forall j :: k < j < ek ==> levels[j] > levels[k];
    SkipDeeper(child, i, k + 1, ek, end, expected, visible);
  }

  /** Once the child at `k` has been filtered, the propagation rule holds up
      to the end of that child's block. */
  lemma ExtendPropagated(nodes: seq<FlatNode>, child: seq<FlatNode>, i: nat, k: nat, ek: nat, expected: bool)
    requires SameShape(child, nodes)
    requires i < k < ek <= |nodes|
    requires forall j :: 0 <= j < k ==> child[j] == nodes[j]
    requires Propagated(nodes, i, k, expected)
    requires Propagated(child, k, ek, expected)
    requires ParentOf(LevelsOf(nodes), k) == Some(i)
    requires child[k].visible == (nodes[i].visible && Relevant(nodes[k], expected))
    ensures Propagated(child, i, ek, expected)
  {
    SameShapeLevels(child, nodes);
    var levels := LevelsOf(nodes);
    forall j | i < j < ek
      ensures ParentOf(levels, j).Some?
      ensures child[j].visible == (child[ParentOf(levels, j).value].visible && Relevant(child[j], expected))
    {
      if j < k {
        var p := ParentOf(levels, j).value;
        assert child[j] == nodes[j] && child[p] == nodes[p];
      }
    }
  }

  /** A hidden row inside a propagated block hides its own descendants. */
  lemma {:induction false} PropagatedMonotone(r: seq<FlatNode>, i: nat, expected: bool, a: nat, j: nat)
    requires i < |r| && Steps(LevelsOf(r))
    requires Propagated(r, i, DescendantEnd(LevelsOf(r), i), expected)
    requires i <= a < DescendantEnd(LevelsOf(r), i)
    requires a < j < DescendantEnd(LevelsOf(r), a)
    requires !r[a].visible
    ensures !r[j].visible
    decreases j
  {
    var levels := LevelsOf(r);
    if a > i {
      BlockNested(levels, i, a);
    }
    ParentInBlock(levels, a, j);
    var p := ParentOf(levels, j).value;
    if p > a {
      PropagatedMonotone(r, i, expected, a, p);
    }
  }

  /** Two sequences of the same shape that agree at row `i` and both satisfy
      the propagation rule over the block of `i` agree on the whole block. */
  lemma {:induction false} PropagatedAgree(a: seq<FlatNode>, b: seq<FlatNode>, i: nat, expected: bool, j: nat)
    requires SameShape(a, b) && Steps(LevelsOf(a))
    requires i < |a|
    requires i <= j < DescendantEnd(LevelsOf(a), i)
    requires a[i].visible == b[i].visible
    requires Propagated(a, i, DescendantEnd(LevelsOf(a), i), expected)
    requires Propagated(b, i, DescendantEnd(LevelsOf(a), i), expected)
    ensures a[j].visible == b[j].visible
    decreases j
  {
    if j > i {
      SameShapeLevels(a, b);
      ParentInBlock(LevelsOf(a), i, j);
      PropagatedAgree(a, b, i, expected, ParentOf(LevelsOf(a), j).value);
    }
  }

  /** Filtering the same row twice gives the same rows as filtering once. */
  lemma FilterCausesIdempotent(nodes: seq<FlatNode>, i: nat, expected: bool, parentIsVisible: bool)
    requires i < |nodes| && Steps(LevelsOf(nodes))
    ensures var once := FilterCauses(nodes, i, expected, parentIsVisible);
            FilterCauses(once, i, expected, parentIsVisible) == once
  {
    var once := FilterCauses(nodes, i, expected, parentIsVisible);
    var twice := FilterCauses(once, i, expected, parentIsVisible);
    SameShapeLevels(once, nodes);
    SameShapeLevels(twice, once);
    var end := DescendantEnd(LevelsOf(nodes), i);
    FilterCausesPropagates(nodes, i, expected, parentIsVisible);
    FilterCausesPropagates(once, i, expected, parentIsVisible);
    forall j | 0 <= j < |once|
      ensures twice[j] == once[j]
    {
      if i <= j < end {
        PropagatedAgree(twice, once, i, expected, j);
      }
    }
  }

  /** Inside the filtered block, a hidden row hides its whole descendant
      block: visibility never reappears further down the tree. */
  lemma HiddenHidesDescendants(nodes: seq<FlatNode>, i: nat, expected: bool, parentIsVisible: bool, a: nat, j: nat)
    requires i < |nodes| && Steps(LevelsOf(nodes))
    requires i <= a < DescendantEnd(LevelsOf(nodes), i)
    requires a < j < DescendantEnd(LevelsOf(nodes), a)
    requires !FilterCauses(nodes, i, expected, parentIsVisible)[a].visible
    ensures !FilterCauses(nodes, i, expected, parentIsVisible)[j].visible
  {
    var r := FilterCauses(nodes, i, expected, parentIsVisible);
    SameShapeLevels(r, nodes);
    FilterCausesPropagates(nodes, i, expected, parentIsVisible);
    PropagatedMonotone(r, i, expected, a, j);
  }
}
