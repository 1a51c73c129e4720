/** The result-tree dialog: it loads one model-checker response, flattens its
    root trace into the tree control's rows, optionally expands everything on
    load, and toggles the causal filter. */
module ResultTree {
  import opened Traces
  import opened Levels
  import opened FlatTree
  import opened CausalFilter

  /** The feedback mode under which the dialog expands the whole tree on load. */
  const RelevantFeedback: string := "relevant"

  /** Translation key of the notification shown when expanding everything fails. */
  const ExpandErrorKey: string := "result-tree.expand-error"

  datatype Response = Response(rootTrace: Trace, feedback: string)

  datatype Notification = SnackBar(key: string)

  /** The dialog's state: the response it shows, the tree control's data rows
      and the set of expanded rows (by index). */
  datatype Dialog = Dialog(result: Response, nodes: seq<FlatNode>, expanded: set<nat>)

  /** A dialog state together with the notification an operation raised. */
  datatype Outcome = Outcome(dialog: Dialog, notice: Option<Notification>)

  /** The rows are the flattening of the response's root trace, up to their
      `visible` flags, and only existing rows are expanded. */
  ghost predicate Valid(d: Dialog) {
    && SameShape(d.nodes, FlattenData([d.result.rootTrace]))
    && forall i :: i in d.expanded ==> i < |d.nodes|
  }

  /** Every row of a fresh flattening is visible. */
  lemma FlattenAllVisible(t: Trace)
    ensures forall i :: 0 <= i < |FlattenData([t])| ==> FlattenData([t])[i].visible
  {
    forall i | 0 <= i < |FlattenData([t])|
      ensures FlattenData([t])[i].visible
    {
      DescendantsOfFlatten(t, i);
    }
  }

  /** The tree template's `hasChild`: whether the row shows an expand toggle. */
  function HasChild(index: int, node: FlatNode): (b: bool)
    ensures node == TraceToFlatNode(node.trace, node.level) ==> (b <==> !IsLeaf(node.trace))
  {
    node.expandable
  }

  /** A row of a loaded dialog has a toggle exactly when its trace has
      children, which is exactly when its descendant block is non-empty. */
  lemma HasChildIffDescendants(d: Dialog, i: nat)
    requires Valid(d) && i < |d.nodes|
    ensures HasChild(i, d.nodes[i]) <==> !IsLeaf(d.nodes[i].trace)
    ensures HasChild(i, d.nodes[i]) <==> |Descendants(d.nodes, i)| > 0
  {
    var t := d.result.rootTrace;
    var f := FlattenData([t]);
    DescendantsOfFlatten(t, i);
    SameShapeLevels(d.nodes, f);
    assert d.nodes[i].trace == f[i].trace;
    SizeOneIffLeaf(f[i].trace);
  }

  /** `expandAll`: the tree control selects every data row. When that throws,
      the error is caught, nothing is expanded, and the expand-error
      notification is raised instead. */
  function ExpandAll(d: Dialog, selectFails: bool): (r: Outcome)
    ensures r.dialog.result == d.result && r.dialog.nodes == d.nodes
    ensures selectFails ==> r.dialog == d && r.notice == Some(SnackBar(ExpandErrorKey))
    ensures !selectFails ==> r.notice.None?
    ensures !selectFails ==> d.expanded <= r.dialog.expanded
    ensures !selectFails ==> forall i :: 0 <= i < |d.nodes| && d.nodes[i].expandable ==> i in r.dialog.expanded
    ensures !selectFails ==> forall i :: 0 <= i < |d.nodes| ==> i in r.dialog.expanded
    ensures !selectFails ==> forall i :: i in r.dialog.expanded ==> i in d.expanded || i < |d.nodes|
  {
    if selectFails then Outcome(d, Some(SnackBar(ExpandErrorKey)))
    else Outcome(d.(expanded := d.expanded + RowIndices(|d.nodes|)), None)
  }

  /** The indices of `n` rows. */
  function RowIndices(n: nat): (s: set<nat>)
    ensures forall i: nat :: i in s <==> i < n
  {
    if n == 0 then {} else RowIndices(n - 1) + {n - 1}
  }

  /** Expanding everything keeps the dialog loaded. */
  lemma ExpandAllValid(d: Dialog, selectFails: bool)
    requires Valid(d)
    ensures Valid(ExpandAll(d, selectFails).dialog)
  {
  }

  /** `ngOnInit`: flatten the single root, all rows visible and collapsed, and
      expand everything exactly when the feedback mode is "relevant". */
  function Init(result: Response, selectFails: bool): (r: Outcome)
    ensures r.dialog.result == result && Valid(r.dialog)
    ensures |r.dialog.nodes| == Size(result.rootTrace)
    ensures r.dialog.nodes[0].trace == result.rootTrace && r.dialog.nodes[0].level == 0
    ensures forall i :: 0 <= i < |r.dialog.nodes| ==> r.dialog.nodes[i].visible
    ensures result.feedback == RelevantFeedback && !selectFails ==>
              r.notice.None? && forall i :: 0 <= i < |r.dialog.nodes| ==> i in r.dialog.expanded
    ensures result.feedback == RelevantFeedback && selectFails ==>
              r.dialog.expanded == {} && r.notice == Some(SnackBar(ExpandErrorKey))
    ensures result.feedback != RelevantFeedback ==> r.dialog.expanded == {} && r.notice.None?
  {
    FlattenWellFormed(result.rootTrace);
    FlattenAllVisible(result.rootTrace);
    var loaded := Dialog(result, FlattenData([result.rootTrace]), {});
    if result.feedback == RelevantFeedback then ExpandAll(loaded, selectFails) else Outcome(loaded, None)
  }

  /** Every row made visible, nothing else changed. */
  function ShowAll(nodes: seq<FlatNode>): (r: seq<FlatNode>)
    ensures SameShape(r, nodes)
    ensures forall i :: 0 <= i < |r| ==> r[i].visible
  {
    seq(|nodes|, i requires 0 <= i < |nodes| => nodes[i].(visible := true))
  }

  /** `updateFilter`: switching the filter off shows every row; switching it
      on runs the causal filter from the first row with the root trace's
      `isModel` as the expected polarity and a visible virtual parent. The
      source reads the first row unguarded, so filtering needs a row. */
  function UpdateFilter(d: Dialog, filter: bool): (r: Dialog)
    requires filter ==> |d.nodes| > 0
    ensures r.result == d.result && r.expanded == d.expanded
    ensures SameShape(r.nodes, d.nodes)
    ensures !filter ==> forall i :: 0 <= i < |r.nodes| ==> r.nodes[i].visible
    ensures filter ==> r.nodes[0].visible == Relevant(d.nodes[0], d.result.rootTrace.isModel)
  {
    if !filter then d.(nodes := ShowAll(d.nodes))
    else d.(nodes := FilterCauses(d.nodes, 0, d.result.rootTrace.isModel, true))
  }

  /** Toggling the filter keeps the dialog loaded. */
  lemma UpdateFilterValid(d: Dialog, filter: bool)
    requires Valid(d)
    ensures Valid(UpdateFilter(d, filter))
  {
    FlattenWellFormed(d.result.rootTrace);
    SameShapeTrans(UpdateFilter(d, filter).nodes, d.nodes, FlattenData([d.result.rootTrace]));
  }

  /** The rows of a loaded dialog have the single-rooted pre-order shape. */
  lemma ValidShape(d: Dialog)
    requires Valid(d)
    ensures SingleRooted(LevelsOf(d.nodes))
    ensures DescendantEnd(LevelsOf(d.nodes), 0) == |d.nodes|
  {
    FlattenWellFormed(d.result.rootTrace);
    SameShapeLevels(d.nodes, FlattenData([d.result.rootTrace]));
    RootBlockIsAll(LevelsOf(d.nodes));
  }

  /** After filtering, every non-root row's flag is its parent row's flag AND
      its own relevance, where the parent row holds the trace whose children
      contain the row's trace. The root's flag is its own relevance only. */
  lemma FilterVisibility(d: Dialog)
    requires Valid(d)
    ensures var r := UpdateFilter(d, true).nodes;
            var expected := d.result.rootTrace.isModel;
            && r[0].visible == Relevant(r[0], expected)
            && forall j :: 0 < j < |r| ==>
                 && ParentOf(LevelsOf(r), j).Some?
                 && r[j].trace in r[ParentOf(LevelsOf(r), j).value].trace.children
                 && r[j].visible == (r[ParentOf(LevelsOf(r), j).value].visible && Relevant(r[j], expected))
  {
    var t := d.result.rootTrace;
    var r := UpdateFilter(d, true).nodes;
    var f := FlattenData([t]);
    ValidShape(d);
    SameShapeLevels(r, d.nodes);
    SameShapeLevels(d.nodes, f);
    FilterCausesPropagates(d.nodes, 0, t.isModel, true);
    forall j | 0 < j < |r|
      ensures r[j].trace in r[ParentOf(LevelsOf(r), j).value].trace.children
    {
      ParentIsTraceParent(t, j);
      var p := ParentOf(LevelsOf(r), j).value;
      assert r[j].trace == f[j].trace && r[p].trace == f[p].trace;
    }
  }

  /** Every row on the parent chain from row `j` up to the root is relevant. */
  ghost predicate ChainRelevant(nodes: seq<FlatNode>, j: nat, expected: bool)
    requires j < |nodes|
    decreases j
  {
    && Relevant(nodes[j], expected)
    && match ParentOf(LevelsOf(nodes), j)
       case None => true
       case Some(p) => ChainRelevant(nodes, p, expected)
  }

  /** The filter keeps exactly the rows reached from the root through an
      unbroken chain of relevant rows. */
  lemma {:induction false} FilterKeepsRelevantChains(d: Dialog, j: nat)
    requires Valid(d) && j < |d.nodes|
    ensures UpdateFilter(d, true).nodes[j].visible <==> ChainRelevant(d.nodes, j, d.result.rootTrace.isModel)
    decreases j
  {
    var r := UpdateFilter(d, true).nodes;
    ValidShape(d);
    SameShapeLevels(r, d.nodes);
    if j > 0 {
      FilterVisibility(d);
      var p := ParentOf(LevelsOf(d.nodes), j).value;
      FilterKeepsRelevantChains(d, p);
    }
  }

  /** Filtering hides whole subtrees: a hidden row's descendants are hidden. */
  lemma FilterMonotone(d: Dialog, a: nat, j: nat)
    requires Valid(d) && a < |d.nodes|
    requires a < j < DescendantEnd(LevelsOf(d.nodes), a)
    requires !UpdateFilter(d, true).nodes[a].visible
    ensures !UpdateFilter(d, true).nodes[j].visible
  {
    ValidShape(d);
    HiddenHidesDescendants(d.nodes, 0, d.result.rootTrace.isModel, true, a, j);
  }

  /** The root is shown exactly when its own actual-versus-expected outcome
      equals its `isModel`; when it is hidden, so is every row. */
  lemma RootVisibility(d: Dialog)
    requires Valid(d)
    ensures var root := d.result.rootTrace;
            UpdateFilter(d, true).nodes[0].visible <==> ((root.shouldBeModel == Some(root.isModel)) == root.isModel)
    ensures !UpdateFilter(d, true).nodes[0].visible ==>
              forall j :: 0 <= j < |d.nodes| ==> !UpdateFilter(d, true).nodes[j].visible
  {
    ValidShape(d);
    FlattenWellFormed(d.result.rootTrace);
    assert d.nodes[0].trace == d.result.rootTrace;
    if !UpdateFilter(d, true).nodes[0].visible {
      forall j | 0 < j < |d.nodes|
        ensures !UpdateFilter(d, true).nodes[j].visible
      {
        FilterMonotone(d, 0, j);
      }
    }
  }

  /** Filtering twice in a row gives the same rows as filtering once. */
  lemma FilterIdempotent(d: Dialog)
    requires Valid(d)
    ensures UpdateFilter(UpdateFilter(d, true), true) == UpdateFilter(d, true)
  {
    ValidShape(d);
    FilterCausesIdempotent(d.nodes, 0, d.result.rootTrace.isModel, true);
  }

  /** Filtering then clearing leaves every row visible with nothing else
      changed; from a freshly loaded dialog it restores the dialog exactly. */
  lemma ClearAfterFilter(d: Dialog)
    requires Valid(d)
    ensures var cleared := UpdateFilter(UpdateFilter(d, true), false);
            && SameShape(cleared.nodes, d.nodes)
            && cleared.expanded == d.expanded
            && forall i :: 0 <= i < |cleared.nodes| ==> cleared.nodes[i].visible
    ensures (forall i :: 0 <= i < |d.nodes| ==> d.nodes[i].visible) ==>
              UpdateFilter(UpdateFilter(d, true), false) == d
  {
    ValidShape(d);
    var cleared := UpdateFilter(UpdateFilter(d, true), false);
    SameShapeTrans(cleared.nodes, UpdateFilter(d, true).nodes, d.nodes);
    if forall i :: 0 <= i < |d.nodes| ==> d.nodes[i].visible {
      assert cleared.nodes == d.nodes;
    }
  }

  /** A failing root with a failing and a succeeding child, both expected to
      hold: the root's `isModel` (false) is the polarity, so the root and the
      failing child stay and the succeeding child is hidden. */
  lemma FilterExample(desc: Description)
    ensures var failing := Trace("p", desc, false, Some(true), []);
            var holding := Trace("q", desc, true, Some(true), []);
            var root := Trace("p & q", desc, false, Some(true), [failing, holding]);
            var d := Init(Response(root, RelevantFeedback), false).dialog;
            && |d.nodes| == 3
            && [d.nodes[0].trace, d.nodes[1].trace, d.nodes[2].trace] == [root, failing, holding]
            && d.expanded == {0, 1, 2}
            && var shown := UpdateFilter(d, true).nodes;
               [shown[0].visible, shown[1].visible, shown[2].visible] == [true, true, false]
  {
    var failing := Trace("p", desc, false, Some(true), []);
    var holding := Trace("q", desc, true, Some(true), []);
    var root := Trace("p & q", desc, false, Some(true), [failing, holding]);
    var d := Init(Response(root, RelevantFeedback), false).dialog;
    var leaves := FlattenForest([failing, holding], 1);
    assert FlattenNode(failing, 1) == [TraceToFlatNode(failing, 1)];
    assert FlattenNode(holding, 1) == [TraceToFlatNode(holding, 1)];
    assert [failing, holding][1..] == [holding];
    assert FlattenForest([holding], 1) == [TraceToFlatNode(holding, 1)] + FlattenForest([], 1);
    assert leaves == [TraceToFlatNode(failing, 1), TraceToFlatNode(holding, 1)];
    assert [root][1..] == [];
    assert FlattenData([root]) == FlattenNode(root, 0) + FlattenForest([], 0);
    assert d.nodes == [TraceToFlatNode(root, 0)] + leaves;
    assert LevelsOf(d.nodes) == [0, 1, 1];
    FilterKeepsRelevantChains(d, 1);
    FilterKeepsRelevantChains(d, 2);
  }

  /** When the root formula is expected not to hold, filtering hides every
      row, whatever the root's outcome. */
  lemma RootExpectedFalseHidesAll(d: Dialog)
    requires Valid(d) && d.result.rootTrace.shouldBeModel == Some(false)
    ensures forall j :: 0 <= j < |d.nodes| ==> !UpdateFilter(d, true).nodes[j].visible
  {
    RootVisibility(d);
  }

  /** When the root formula is expected to hold, filtering keeps the root,
      whatever its outcome. */
  lemma RootExpectedTrueShowsRoot(d: Dialog)
    requires Valid(d) && d.result.rootTrace.shouldBeModel == Some(true)
    ensures UpdateFilter(d, true).nodes[0].visible
  {
    RootVisibility(d);
  }
}
