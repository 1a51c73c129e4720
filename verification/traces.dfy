/** The recursive trace record that the model checker returns: one node per
    evaluated sub-formula, with its ordered sub-traces. */
module Traces {

  datatype Option<+T> = None | Some(value: T)

  /** The translatable description payload; nothing in the core inspects it. */
  type Description

  /** One node of a model-checking trace. `shouldBeModel` is not declared by the
      interface but is read per node by the result tree, so it is optional here:
      `None` stands for a node on which the field is absent. A missing children
      list is represented by the empty sequence, which the core treats alike. */
  datatype Trace = Trace(
    formula: string,
    description: Description,
    isModel: bool,
    shouldBeModel: Option<bool>,
    children: seq<Trace>)

  predicate IsLeaf(t: Trace) {
    |t.children| == 0
  }

  /** Number of trace nodes in the tree rooted at `t`. */
  function Size(t: Trace): (n: nat)
    ensures n >= 1
  {
    1 + ForestSize(t.children)
  }

  /** Number of trace nodes in an ordered list of trees. */
  function ForestSize(ts: seq<Trace>): (n: nat)
    ensures |ts| > 0 ==> n >= |ts|
  {
    if |ts| == 0 then 0 else Size(ts[0]) + ForestSize(ts[1..])
  }

  /** Whether the sub-formula behaved as the checker expected. JavaScript's
      `isModel === undefined` is false, so a missing expectation never matches. */
  function Actual(t: Trace): (b: bool)
    ensures b <==> t.shouldBeModel == Some(t.isModel)
    ensures t.shouldBeModel.None? ==> !b
  {
    match t.shouldBeModel
    case None => false
    case Some(expected) => t.isModel == expected
  }

  /** A tree is a single node exactly when its root is a leaf. */
  lemma {:induction false} SizeOneIffLeaf(t: Trace)
    ensures Size(t) == 1 <==> IsLeaf(t)
  {
    if !IsLeaf(t) {
      assert ForestSize(t.children) >= 1;
    }
  }
}
