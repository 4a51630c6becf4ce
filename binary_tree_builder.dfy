/**
 * The folding operations shared by every binary tree builder: building a
 * context-menu chain from a list of items, and adding one node's action to a
 * tree (the single-action rule).
 */
module BinaryTreeBuilder {
  import opened OptionScan

  /** The context-menu chain of `items`: the first item outermost, ending in ClearFocus. */
  function Menu(items: seq<MenuItem>): Tree
  {
    if items == [] then ClearFocus else ContextMenu(items[0], Menu(items[1..]))
  }

  /** The items of a context-menu chain, read from the root along `rest`. */
  function MenuItems(t: Tree): seq<MenuItem>
  {
    match t
    case ContextMenu(item, rest) => [item] + MenuItems(rest)
    case _ => []
  }

  /** What a context-menu chain ends in, once its ContextMenu nodes are skipped. */
  function MenuEnd(t: Tree): Tree
  {
    match t
    case ContextMenu(_, rest) => MenuEnd(rest)
    case _ => t
  }

  /**
   * Builds the context menu of an optional item list (null in the source) by
   * a counting-down loop that wraps the accumulator, starting from ClearFocus.
   */
  method BuildContextMenu(actionList: Option<seq<MenuItem>>) returns (tree: Tree)
    ensures actionList.None? ==> tree == ClearFocus
    ensures actionList.Some? ==> tree == Menu(actionList.value)
  {
    tree := ClearFocus;
    if actionList.Some? {
      var list := actionList.value;
      var i := |list| - 1;
      while i >= 0
        invariant -1 <= i < |list|
        invariant tree == Menu(list[i + 1..])
      {
        tree := ContextMenu(list[i], tree);
        i := i - 1;
      }
    }
  }

  /** Reading the chain back yields the items in list order, and it ends in ClearFocus. */
  lemma {:induction false} MenuRoundTrip(items: seq<MenuItem>)
    ensures MenuItems(Menu(items)) == items
    ensures MenuEnd(Menu(items)) == ClearFocus
  {
    if items != [] {
      MenuRoundTrip(items[1..]);
    }
  }

  /** The chain has one ContextMenu node per item, exactly one ClearFocus and nothing else. */
  lemma {:induction false} MenuCounts(items: seq<MenuItem>)
    ensures MenuCount(Menu(items)) == |items|
    ensures ClearFocusCount(Menu(items)) == 1
    ensures SelectionCount(Menu(items)) == 0 && ActionCount(Menu(items)) == 0
  {
    if items != [] {
      MenuCounts(items[1..]);
    }
  }

  /**
   * Adds a node's action to the tree: a node with exactly one action becomes
   * Selection(Action(node), tree); any other node leaves the tree unchanged
   * (the multi-action context-menu branch is disabled).
   */
  function AddCompatToTree(node: Node, tree: Tree): (r: Tree)
    ensures r == tree || r == Selection(Action(node.id), tree)
    ensures r != tree <==> node.actionCount == 1
    ensures SelectionCount(r) == SelectionCount(tree) + (if node.actionCount == 1 then 1 else 0)
    ensures ActionCount(r) == ActionCount(tree) + (if node.actionCount == 1 then 1 else 0)
    ensures MenuCount(r) == MenuCount(tree) && ClearFocusCount(r) == ClearFocusCount(tree)
  {
    if node.actionCount == 1 then
      assert SelectionCount(Selection(Action(node.id), tree)) > SelectionCount(tree);
      Selection(Action(node.id), tree)
    else tree
  }

  /** The tree a builder starts from: the given one, or a fresh ClearFocus for null. */
  function StartTree(treeToBuildOn: Option<Tree>): (r: Tree)
    ensures treeToBuildOn.None? ==> r == ClearFocus
    ensures treeToBuildOn.Some? ==> r == treeToBuildOn.value
  {
    if treeToBuildOn.Some? then treeToBuildOn.value else ClearFocus
  }

  /** The ids of the nodes with exactly one action, in list order. */
  function SingleActionIds(nodes: seq<Node>): seq<NodeId>
  {
    if nodes == [] then []
    else (if nodes[0].actionCount == 1 then [nodes[0].id] else []) + SingleActionIds(nodes[1..])
  }

  /**
   * Folding `nodes` from the last to the first with AddCompatToTree, so that
   * nodes[0] is added last and ends nearest the root.
   */
  function Spine(nodes: seq<Node>, tail: Tree): Tree
  {
    if nodes == [] then tail else AddCompatToTree(nodes[0], Spine(nodes[1..], tail))
  }

  /**
   * Folding `nodes` from the first to the last with AddCompatToTree, as a loop
   * over the nodes in order does: the last node ends nearest the root.
   */
  function FoldForward(nodes: seq<Node>, tree: Tree): Tree
  {
    if nodes == [] then tree
    else AddCompatToTree(nodes[|nodes| - 1], FoldForward(nodes[..|nodes| - 1], tree))
  }

  /**
   * The reverse fold is a right spine of Selection nodes whose left children
   * are the single-action nodes in list order, ending in the starting tree.
   */
  lemma {:induction false} SpineShape(nodes: seq<Node>, tail: Tree)
    ensures Spine(nodes, tail) == SpineOf(SingleActionIds(nodes), tail)
  {
    if nodes != [] {
      SpineShape(nodes[1..], tail);
      var ids := SingleActionIds(nodes[1..]);
      if nodes[0].actionCount == 1 {
        assert ([nodes[0].id] + ids)[1..] == ids;
      } else {
        assert [] + ids == ids;
      }
    }
  }

  /** The reverse fold adds one Selection and one Action per single-action node and nothing else. */
  lemma {:induction false} SpineCounts(nodes: seq<Node>, tail: Tree)
    ensures SelectionCount(Spine(nodes, tail)) == SelectionCount(tail) + |SingleActionIds(nodes)|
    ensures ActionCount(Spine(nodes, tail)) == ActionCount(tail) + |SingleActionIds(nodes)|
    ensures MenuCount(Spine(nodes, tail)) == MenuCount(tail)
    ensures ClearFocusCount(Spine(nodes, tail)) == ClearFocusCount(tail)
  {
    if nodes != [] {
      SpineCounts(nodes[1..], tail);
    }
  }

  /** A forward fold over a list is the reverse fold over the reversed list. */
  lemma {:induction false} FoldForwardIsSpine(nodes: seq<Node>, tree: Tree)
    ensures FoldForward(nodes, tree) == Spine(Reverse(nodes), tree)
  {
    if nodes != [] {
      var prefix := nodes[..|nodes| - 1];
      FoldForwardIsSpine(prefix, tree);
      assert Reverse(nodes)[1..] == Reverse(prefix);
    }
  }

  /** When every node has exactly one action, every node contributes, in list order. */
  lemma {:induction false} SingleActionIdsAll(nodes: seq<Node>)
    requires forall i :: 0 <= i < |nodes| ==> nodes[i].actionCount == 1
    ensures SingleActionIds(nodes) == Ids(nodes)
  {
    if nodes != [] {
      SingleActionIdsAll(nodes[1..]);
      assert Ids(nodes) == [nodes[0].id] + Ids(nodes[1..]);
    }
  }
}
