/** The flat view of a trace tree: the configured tree flattener turns the
    data list into pre-order rows annotated with depth, and the flat tree
    control reads a node's descendants back off that sequence. */
module FlatTree {
  import opened Traces
  import opened Levels

  /** One row of the flattened tree. Only `visible` ever changes after
      flattening. */
  datatype FlatNode = FlatNode(trace: Trace, expandable: bool, visible: bool, level: nat)

  /** The flattener's transform: a fresh row for `trace` at depth `level`. */
  function TraceToFlatNode(trace: Trace, level: nat): (n: FlatNode)
    ensures n.trace == trace && n.level == level
    ensures n.visible
    ensures n.expandable <==> !IsLeaf(trace)
  {
    FlatNode(trace, |trace.children| > 0, true, level)
  }

  /** Pre-order flattening of one tree: its row, then (only when the row is
      expandable) its children's flattenings one level deeper. */
  function FlattenNode(t: Trace, level: nat): (f: seq<FlatNode>)
    ensures |f| == Size(t)
    ensures f[0] == TraceToFlatNode(t, level)
    decreases t
  {
    var node := TraceToFlatNode(t, level);
    [node] + (if node.expandable then FlattenForest(t.children, level + 1) else [])
  }

  /** Pre-order flattening of an ordered list of sibling trees. */
  function FlattenForest(ts: seq<Trace>, level: nat): (f: seq<FlatNode>)
    ensures |f| == ForestSize(ts)
    ensures |ts| > 0 ==> f[0] == TraceToFlatNode(ts[0], level)
    decreases ts
  {
    if |ts| == 0 then [] else FlattenNode(ts[0], level) + FlattenForest(ts[1..], level)
  }

  /** Every row after the first of a tree's flattening lies below it. */
  lemma {:induction false} FlattenNodeDeeper(t: Trace, level: nat)
    ensures forall j :: 0 < j < |FlattenNode(t, level)| ==> FlattenNode(t, level)[j].level > level
    decreases t
  {
    if |t.children| > 0 {
      var f := FlattenNode(t, level);
      var g := FlattenForest(t.children, level + 1);
      assert f == [f[0]] + g;
      FlattenForestDeeper(t.children, level + 1);
      assert forall j :: 0 < j < |f| ==> f[j] == g[j - 1];
    }
  }

  lemma {:induction false} FlattenForestDeeper(ts: seq<Trace>, level: nat)
    ensures forall j :: 0 <= j < |FlattenForest(ts, level)| ==> FlattenForest(ts, level)[j].level >= level
    decreases ts
  {
    if |ts| > 0 {
      var f := FlattenForest(ts, level);
      var a := FlattenNode(ts[0], level);
      var b := FlattenForest(ts[1..], level);
      assert f == a + b;
      FlattenNodeDeeper(ts[0], level);
      FlattenForestDeeper(ts[1..], level);
      assert forall j :: 0 <= j < |a| ==> f[j] == a[j];
      assert forall j :: |a| <= j < |f| ==> f[j] == b[j - |a|];
    }
  }

  /** The flattener applied to the data source's list of roots. */
  /** The flattener applied to the dialog's data list: the trees of the list
      flattened one after another, each rooted at level 0. */
  function FlattenData(data: seq<Trace>): (f: seq<FlatNode>)
    ensures |f| == ForestSize(data)
    ensures |data| > 0 ==> f[0] == TraceToFlatNode(data[0], 0)
  {
    FlattenForest(data, 0)
  }

  /** The depth column of the rows. */
  function LevelsOf(nodes: seq<FlatNode>): seq<nat> {
    seq(|nodes|, j requires 0 <= j < |nodes| => nodes[j].level)
  }

  /** The descendant block of the row at `i`. */
  function Descendants(nodes: seq<FlatNode>, i: nat): seq<FlatNode>
    requires i < |nodes|
  {
    nodes[i + 1 .. DescendantEnd(LevelsOf(nodes), i)]
  }

  /** The flat tree control's walk: collect rows after `i` while they are
      strictly deeper than the row at `i`. */
  method GetDescendants(nodes: seq<FlatNode>, i: nat) returns (results: seq<FlatNode>)
    requires i < |nodes|
    ensures i + 1 + |results| <= |nodes|
    ensures results == nodes[i + 1 .. i + 1 + |results|]
    ensures forall j :: 0 <= j < |results| ==> results[j].level > nodes[i].level
    ensures i + 1 + |results| == |nodes| || nodes[i + 1 + |results|].level <= nodes[i].level
    ensures results == Descendants(nodes, i)
  {
    results := [];
    var k := i + 1;
    while k < |nodes| && nodes[i].level < nodes[k].level
      invariant i + 1 <= k <= |nodes|
      invariant results == nodes[i + 1 .. k]
      invariant forall j :: i < j < k ==> nodes[j].level > nodes[i].level
    {
      results := results + [nodes[k]];
      k := k + 1;
    }
    DescendantEndUnique(LevelsOf(nodes), i, k);
  }

  /** Traces of the rows of `block` that sit exactly at `level`, in order. */
  function ChildTraces(block: seq<FlatNode>, level: nat): seq<Trace> {
    if |block| == 0 then []
    else (if block[0].level == level then [block[0].trace] else []) + ChildTraces(block[1..], level)
  }

  /** The depth column distributes over concatenation. */
  lemma LevelsOfConcat(a: seq<FlatNode>, b: seq<FlatNode>)
    ensures LevelsOf(a + b) == LevelsOf(a) + LevelsOf(b)
  {
  }

  /** Two pre-order-shaped runs joined without a jump of more than one level
      down are pre-order-shaped. */
  lemma StepsConcat(a: seq<nat>, b: seq<nat>)
    requires Steps(a) && Steps(b)
    requires |a| > 0 && |b| > 0 ==> b[0] <= a[|a| - 1] + 1
    ensures Steps(a + b)
  {
    var c := a + b;
    forall j | 0 < j < |c|
      ensures StepAt(c, j)
    {
      if j < |a| {
        assert StepAt(a, j);
      } else if j > |a| {
        assert StepAt(b, j - |a|);
      }
    }
  }

  /** Flattening produces pre-order steps. */
  lemma {:induction false} FlattenNodeSteps(t: Trace, level: nat)
    ensures Steps(LevelsOf(FlattenNode(t, level)))
    decreases t
  {
    var node := TraceToFlatNode(t, level);
    if node.expandable {
      var g := FlattenForest(t.children, level + 1);
      FlattenForestSteps(t.children, level + 1);
      LevelsOfConcat([node], g);
      StepsConcat(LevelsOf([node]), LevelsOf(g));
    } else {
      assert |FlattenNode(t, level)| == 1;
    }
  }

  lemma {:induction false} FlattenForestSteps(ts: seq<Trace>, level: nat)
    ensures Steps(LevelsOf(FlattenForest(ts, level)))
    decreases ts
  {
    if |ts| > 0 {
      var a := FlattenNode(ts[0], level);
      var b := FlattenForest(ts[1..], level);
      FlattenNodeSteps(ts[0], level);
      FlattenNodeDeeper(ts[0], level);
      FlattenForestSteps(ts[1..], level);
      LevelsOfConcat(a, b);
      StepsConcat(LevelsOf(a), LevelsOf(b));
    }
  }

  /** The data list holding just the root flattens to the root's flattening. */
  lemma FlattenSingleRoot(t: Trace)
    ensures FlattenData([t]) == FlattenNode(t, 0)
  {
    assert [t][1..] == [];
  }

  /** Flattening one root gives one row per trace node: the root at level 0,
      every other row below it, each row at most one level deeper than the
      row before. */
  lemma FlattenWellFormed(t: Trace)
    ensures |FlattenData([t])| == Size(t)
    ensures FlattenData([t])[0] == TraceToFlatNode(t, 0)
    ensures SingleRooted(LevelsOf(FlattenData([t])))
  {
    FlattenSingleRoot(t);
    FlattenNodeSteps(t, 0);
    FlattenNodeDeeper(t, 0);
  }

  /** The row at `i` starts the flattening of its own trace, and the row
      right after that block is no deeper than it. */
  ghost predicate StartsBlock(f: seq<FlatNode>, i: nat)
    requires i < |f|
  {
    var n := Size(f[i].trace);
    && i + n <= |f|
    && f[i .. i + n] == FlattenNode(f[i].trace, f[i].level)
    && (i + n == |f| || f[i + n].level <= f[i].level)
  }

  /** A block found inside a slice `g` of `f` is a block of `f` as long as
      the row after it (in `f`) is no deeper. */
  lemma BlockShift(f: seq<FlatNode>, o: nat, g: seq<FlatNode>, k: nat, i: nat)
    requires o + |g| <= |f| && f[o .. o + |g|] == g
    requires k < |g| && StartsBlock(g, k)
    requires k + Size(g[k].trace) < |g| || o + |g| == |f| || f[o + |g|].level <= g[k].level
    requires i == o + k
    ensures StartsBlock(f, i)
  {
    var n := Size(g[k].trace);
    assert f[o + k] == g[k];
    forall m | o + k <= m < o + k + n
      ensures f[m] == g[m - o]
    {
      assert f[m] == f[o .. o + |g|][m - o];
    }
    assert f[o + k .. o + k + n] == g[k .. k + n];
    if k + n < |g| {
      assert f[o + k + n] == g[k + n];
    }
  }

  /** Every row of a flattening starts the flattening of its own trace. */
  lemma {:induction false} Locate(t: Trace, level: nat, i: nat)
    requires i < Size(t)
    ensures StartsBlock(FlattenNode(t, level), i)
    decreases t
  {
    var f := FlattenNode(t, level);
    if i == 0 {
      assert f[0 .. Size(t)] == f;
    } else {
      var g := FlattenForest(t.children, level + 1);
      assert f == [f[0]] + g;
      LocateForest(t.children, level + 1, i - 1);
      BlockShift(f, 1, g, i - 1, i);
    }
  }

  lemma {:induction false} LocateForest(ts: seq<Trace>, level: nat, i: nat)
    requires i < ForestSize(ts)
    ensures StartsBlock(FlattenForest(ts, level), i)
    decreases ts
  {
    var a := FlattenNode(ts[0], level);
    if i < |a| {
      Locate(ts[0], level, i);
      FirstTreeBlock(ts, level, i);
    } else {
      LocateForest(ts[1..], level, i - |a|);
      LaterTreeBlock(ts, level, i);
    }
  }

  /** A block inside the first tree of a forest stays a block of the forest:
      the next tree's root is at the forest's own level. */
  lemma FirstTreeBlock(ts: seq<Trace>, level: nat, i: nat)
    requires |ts| > 0 && i < Size(ts[0])
    requires StartsBlock(FlattenNode(ts[0], level), i)
    ensures StartsBlock(FlattenForest(ts, level), i)
  {
    var g := FlattenForest(ts, level);
    var a := FlattenNode(ts[0], level);
    var b := FlattenForest(ts[1..], level);
    assert g == a + b;
    assert g[0 .. |a|] == a;
    FlattenNodeDeeper(ts[0], level);
    assert a[i].level >= level;
    if |b| > 0 {
      assert g[|a|] == b[0];
    }
    BlockShift(g, 0, a, i, i);
  }

  /** A block inside the rest of a forest is a block of the whole forest. */
  lemma LaterTreeBlock(ts: seq<Trace>, level: nat, i: nat)
    requires |ts| > 0 && Size(ts[0]) <= i < ForestSize(ts)
    requires StartsBlock(FlattenForest(ts[1..], level), i - Size(ts[0]))
    ensures StartsBlock(FlattenForest(ts, level), i)
  {
    var g := FlattenForest(ts, level);
    var a := FlattenNode(ts[0], level);
    var b := FlattenForest(ts[1..], level);
    assert g == a + b;
    assert g[|a| .. |a| + |b|] == b;
    BlockShift(g, |a|, b, i - |a|, i);
  }

  /** The descendant block of every row of a flattened trace is exactly the
      flattening of that row's trace children, one level deeper. */
  lemma DescendantsOfFlatten(t: Trace, i: nat)
    requires i < |FlattenData([t])|
    ensures var f := FlattenData([t]);
            && DescendantEnd(LevelsOf(f), i) == i + Size(f[i].trace)
            && Descendants(f, i) == FlattenForest(f[i].trace.children, f[i].level + 1)
            && f[i] == TraceToFlatNode(f[i].trace, f[i].level)
  {
    var f := FlattenData([t]);
    FlattenSingleRoot(t);
    Locate(t, 0, i);
    assert StartsBlock(f, i);
    var s := f[i].trace;
    var n := Size(s);
    var sub := FlattenNode(s, f[i].level);
    FlattenNodeDeeper(s, f[i].level);
    assert f[i .. i + n] == sub;
    assert f[i] == sub[0];
    forall j | i < j < i + n
      ensures LevelsOf(f)[j] > LevelsOf(f)[i]
    {
      assert f[j] == sub[j - i];
    }
    DescendantEndUnique(LevelsOf(f), i, i + n);
    assert Descendants(f, i) == sub[1..];
  }

  /** Reading traces at a level distributes over concatenation. */
  lemma {:induction false} ChildTracesConcat(a: seq<FlatNode>, b: seq<FlatNode>, level: nat)
    ensures ChildTraces(a + b, level) == ChildTraces(a, level) + ChildTraces(b, level)
    decreases |a|
  {
    if |a| > 0 {
      assert (a + b)[0] == a[0];
      assert (a + b)[1..] == a[1..] + b;
      ChildTracesConcat(a[1..], b, level);
    } else {
      assert a + b == b;
    }
  }

  /** A block lying entirely below `level` has no rows at `level`. */
  lemma {:induction false} ChildTracesDeeper(block: seq<FlatNode>, level: nat)
    requires forall j :: 0 <= j < |block| ==> block[j].level > level
    ensures ChildTraces(block, level) == []
    decreases |block|
  {
    if |block| > 0 {
      ChildTracesDeeper(block[1..], level);
    }
  }

  /** Reading the rows of a flattened forest at the forest's own level gives
      back the forest, in order. */
  lemma {:induction false} ChildTracesOfForest(ts: seq<Trace>, level: nat)
    ensures ChildTraces(FlattenForest(ts, level), level) == ts
    decreases ts
  {
    if |ts| > 0 {
      var a := FlattenNode(ts[0], level);
      var b := FlattenForest(ts[1..], level);
      ChildTracesConcat(a, b, level);
      ChildTracesConcat([a[0]], a[1..], level);
      assert a == [a[0]] + a[1..];
      FlattenNodeDeeper(ts[0], level);
      ChildTracesDeeper(a[1..], level);
      ChildTracesOfForest(ts[1..], level);
      assert ts == [ts[0]] + ts[1..];
    }
  }

  /** The rows of a node's descendant block at the next level are exactly its
      trace's children, in their original order. */
  lemma ImmediateChildren(t: Trace, i: nat)
    requires i < |FlattenData([t])|
    ensures var f := FlattenData([t]);
            ChildTraces(Descendants(f, i), f[i].level + 1) == f[i].trace.children
  {
    var f := FlattenData([t]);
    DescendantsOfFlatten(t, i);
    ChildTracesOfForest(f[i].trace.children, f[i].level + 1);
  }

  /** A row at `level` contributes its trace to the traces read at `level`. */
  lemma {:induction false} ChildTracesHas(block: seq<FlatNode>, level: nat, k: nat)
    requires k < |block| && block[k].level == level
    ensures block[k].trace in ChildTraces(block, level)
    decreases k
  {
    if k > 0 {
      ChildTracesHas(block[1..], level, k - 1);
    }
  }

  /** A row's parent in the flat order (the nearest earlier row one level up)
      is the trace whose children list contains the row's trace. */
  lemma ParentIsTraceParent(t: Trace, j: nat)
    requires 0 < j < |FlattenData([t])|
    ensures var f := FlattenData([t]);
            && ParentOf(LevelsOf(f), j).Some?
            && f[j].trace in f[ParentOf(LevelsOf(f), j).value].trace.children
  {
    var f := FlattenData([t]);
    var levels := LevelsOf(f);
    FlattenWellFormed(t);
    RootBlockIsAll(levels);
    ParentInBlock(levels, 0, j);
    var p := ParentOf(levels, j).value;
    ChildInParentBlock(levels, j);
    BlockMemberAtNextLevel(f, p, j);
    ImmediateChildren(t, p);
  }

  /** A row one level below `p` inside the block of `p` is among the traces
      read off that block at the next level. */
  lemma BlockMemberAtNextLevel(f: seq<FlatNode>, p: nat, j: nat)
    requires p < |f|
    requires p < j < DescendantEnd(LevelsOf(f), p)
    requires f[j].level == f[p].level + 1
    ensures f[j].trace in ChildTraces(Descendants(f, p), f[p].level + 1)
  {
    var block := Descendants(f, p);
    assert block[j - p - 1] == f[j];
    ChildTracesHas(block, f[p].level + 1, j - p - 1);
  }
}
