/**
 * Linear scanning: every single-action node of the screen-reader order becomes
 * one step of a right spine of Selection nodes, in that order.
 */
module LinearScanTreeBuilder {
  import opened OptionScan
  import opened BinaryTreeBuilder

  /**
   * Folds the screen-reader order in reverse onto the starting tree,
   * releasing every node right after it is folded. `released` logs the ids
   * handed to recycle(), in the order they are released.
   */
  method AddViewHierarchyToTree(talkBackOrder: seq<Node>, treeToBuildOn: Option<Tree>)
    returns (tree: Tree, ghost released: seq<NodeId>)
    ensures tree == Spine(talkBackOrder, StartTree(treeToBuildOn))
    ensures tree == SpineOf(SingleActionIds(talkBackOrder), StartTree(treeToBuildOn))
    ensures multiset(released) == multiset(Ids(talkBackOrder))
    ensures DistinctIds(talkBackOrder) ==>
      forall i :: 0 <= i < |talkBackOrder| ==> multiset(released)[talkBackOrder[i].id] == 1
  {
    tree := if treeToBuildOn != None then treeToBuildOn.value else ClearFocus;
    released := [];
    var i := |talkBackOrder|;
    while i > 0
      invariant 0 <= i <= |talkBackOrder|
      invariant tree == Spine(talkBackOrder[i..], StartTree(treeToBuildOn))
      invariant multiset(released) == multiset(Ids(talkBackOrder[i..]))
    {
      i := i - 1;
      var next := talkBackOrder[i];
      tree := AddCompatToTree(next, tree);
      released := released + [next.id];
      assert Ids(talkBackOrder[i..]) == [next.id] + Ids(talkBackOrder[i + 1..]);
    }
    SpineShape(talkBackOrder, StartTree(treeToBuildOn));
    if DistinctIds(talkBackOrder) {
      DistinctOccursOnce(talkBackOrder, released);
    }
  }

  /** The first single-action node in screen-reader order is the root's left child. */
  lemma {:induction false} FirstSingleActionAtRoot(talkBackOrder: seq<Node>, start: Tree, k: nat)
    requires k < |talkBackOrder| && talkBackOrder[k].actionCount == 1
    requires forall j :: 0 <= j < k ==> talkBackOrder[j].actionCount != 1
    ensures Spine(talkBackOrder, start).Selection?
    ensures Spine(talkBackOrder, start).left == Action(talkBackOrder[k].id)
  {
    if k > 0 {
      FirstSingleActionAtRoot(talkBackOrder[1..], start, k - 1);
    }
  }

  /** Window lists are not supported by this builder: the result is always null. */
  function AddWindowListToTree(windowList: seq<WindowInfo>, treeToBuildOn: Option<Tree>): (r: Option<Tree>)
    ensures r == None
  {
    None
  }
}
