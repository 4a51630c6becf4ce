/**
 * The data model shared by the option-scan tree builders: UI node snapshots
 * (as the accessibility layer hands them over, already flattened into
 * screen-reader order) and the binary decision tree that switch scanning walks.
 */
module OptionScan {

  datatype Option<T> = None | Some(value: T)

  /** Identity of one UI node snapshot; release bookkeeping is kept per id. */
  type NodeId = nat

  /** Visible bounds of a node on screen, in pixels. */
  datatype Bounds = Bounds(top: int, bottom: int, left: int, right: int)

  /** One UI node snapshot: its identity, how many actions it offers, where it is. */
  datatype Node = Node(id: NodeId, actionCount: nat, bounds: Bounds)

  /** One entry of a context menu: an action offered by a node. */
  datatype MenuItem = MenuItem(nodeId: NodeId, action: int)

  /** A window descriptor; the builders do not look inside it. */
  datatype WindowInfo = WindowInfo(id: nat)

  /**
   * The option-scan tree. Every internal node has exactly two children
   * (Selection) or one item and one continuation (ContextMenu), by construction.
   */
  datatype Tree =
    | ClearFocus
    | Action(nodeId: NodeId)
    | Selection(left: Tree, right: Tree)
    | ContextMenu(item: MenuItem, rest: Tree)

  function SelectionCount(t: Tree): nat
  {
    match t
    case ClearFocus => 0
    case Action(_) => 0
    case Selection(l, r) => 1 + SelectionCount(l) + SelectionCount(r)
    case ContextMenu(_, rest) => SelectionCount(rest)
  }

  function ActionCount(t: Tree): nat
  {
    match t
    case ClearFocus => 0
    case Action(_) => 1
    case Selection(l, r) => ActionCount(l) + ActionCount(r)
    case ContextMenu(_, rest) => ActionCount(rest)
  }

  function MenuCount(t: Tree): nat
  {
    match t
    case ClearFocus => 0
    case Action(_) => 0
    case Selection(l, r) => MenuCount(l) + MenuCount(r)
    case ContextMenu(_, rest) => 1 + MenuCount(rest)
  }

  function ClearFocusCount(t: Tree): nat
  {
    match t
    case ClearFocus => 1
    case Action(_) => 0
    case Selection(l, r) => ClearFocusCount(l) + ClearFocusCount(r)
    case ContextMenu(_, rest) => ClearFocusCount(rest)
  }

  /**
   * A right spine of Selection nodes whose left children are the actions of
   * `ids`, read from the root down, ending in `tail`.
   */
  function SpineOf(ids: seq<NodeId>, tail: Tree): Tree
  {
    if ids == [] then tail else Selection(Action(ids[0]), SpineOf(ids[1..], tail))
  }

  function Ids(nodes: seq<Node>): (r: seq<NodeId>)
    ensures |r| == |nodes|
    ensures forall i :: 0 <= i < |nodes| ==> r[i] == nodes[i].id
  {
    seq(|nodes|, i requires 0 <= i < |nodes| => nodes[i].id)
  }

  function Reverse<T>(s: seq<T>): (r: seq<T>)
    ensures |r| == |s|
    ensures forall i :: 0 <= i < |s| ==> r[i] == s[|s| - 1 - i]
  {
    seq(|s|, i requires 0 <= i < |s| => s[|s| - 1 - i])
  }

  /** The ids of a list are the ids of all but its last node, then the last node's. */
  lemma IdsSnoc(nodes: seq<Node>)
    requires nodes != []
    ensures Ids(nodes) == Ids(nodes[..|nodes| - 1]) + [nodes[|nodes| - 1].id]
  {
  }

  /** No two snapshots of the flattened order share an id. */
  predicate DistinctIds(nodes: seq<Node>)
  {
    forall i, j :: 0 <= i < j < |nodes| ==> nodes[i].id != nodes[j].id
  }

  /**
   * When the ids are distinct, a log holding the same multiset of ids holds
   * every node's id exactly once.
   */
  lemma {:induction false} DistinctOccursOnce(nodes: seq<Node>, log: seq<NodeId>)
    requires DistinctIds(nodes)
    requires multiset(log) == multiset(Ids(nodes))
    ensures forall i :: 0 <= i < |nodes| ==> multiset(log)[nodes[i].id] == 1
  {
    if nodes != [] {
      var last := nodes[|nodes| - 1];
      var rest := nodes[..|nodes| - 1];
      assert Ids(nodes) == Ids(rest) + [last.id];
      DistinctOccursOnce(rest, Ids(rest));
      assert last.id !in multiset(Ids(rest));
      forall i | 0 <= i < |nodes|
        ensures multiset(log)[nodes[i].id] == 1
      {
        if i < |nodes| - 1 {
          assert nodes[i] == rest[i];
          assert nodes[i].id != last.id;
        }
      }
    }
  }
}
