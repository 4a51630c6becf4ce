/**
 * Row-column scanning: the single-action nodes are grouped by screen row
 * (same top and bottom) and, within a row, by column (the negated left
 * edge). Short rows are scanned linearly inside the outer tree; rows of
 * MIN_NODES_PER_ROW or more nodes become one sub-tree of their own.
 */
module RowColumnTreeBuilder {
  import opened OptionScan
  import opened BinaryTreeBuilder

  /** Rows with fewer nodes than this are folded straight into the outer tree. */
  const MIN_NODES_PER_ROW: nat := 10

  // ---------------------------------------------------------------------
  // Java `int` arithmetic

  const TWO_TO_THE_32: int := 0x1_0000_0000

  predicate IsInt32(x: int)
  {
    -0x8000_0000 <= x < 0x8000_0000
  }

  /** Two's-complement wrap-around of a mathematical integer to a Java `int`. */
  function Wrap32(x: int): (r: int)
    ensures IsInt32(r)
    ensures (x - r) % TWO_TO_THE_32 == 0
    ensures IsInt32(x) ==> r == x
  {
    (x + 0x8000_0000) % TWO_TO_THE_32 - 0x8000_0000
  }

  // ---------------------------------------------------------------------
  // RowBounds: equality, hash code and the row comparator

  /**
   * The bounds that identify a row: only top and bottom take part in equality.
   * The grouping pass builds a RowBounds per node but files it in a TreeMap,
   * which finds rows with ROW_BOUNDS_COMPARATOR alone: RowBoundsEquals and
   * RowBoundsHashCode model methods the grouping never calls.
   */
  datatype RowBounds = RowBounds(top: int, bottom: int, left: int, right: int)

  /** The association key a row is grouped under: its equality class. */
  datatype RowKey = RowKey(top: int, bottom: int)

  function RowKeyOfBounds(b: RowBounds): RowKey
  {
    RowKey(b.top, b.bottom)
  }

  /**
   * RowBounds.equals: same top and same bottom, so equal bounds file under
   * one row key and, as Object.hashCode demands, hash alike.
   */
  function RowBoundsEquals(a: RowBounds, o: RowBounds): (r: bool)
    ensures r <==> RowKeyOfBounds(a) == RowKeyOfBounds(o)
    ensures r ==> RowBoundsHashCode(a) == RowBoundsHashCode(o)
  {
    o.top == a.top && o.bottom == a.bottom
  }

  /** RowBounds.hashCode: (top << 16) + bottom in 32-bit arithmetic. */
  function RowBoundsHashCode(b: RowBounds): (r: int)
    ensures IsInt32(r)
    ensures (b.top * 0x1_0000 + b.bottom - r) % TWO_TO_THE_32 == 0
    ensures 0 <= b.top < 0x8000 && 0 <= b.bottom < 0x1_0000 ==> r == b.top * 0x1_0000 + b.bottom
  {
    Wrap32(Wrap32(b.top * 0x1_0000) + b.bottom)
  }

  /** Equality ignores left and right: it holds exactly when the row keys agree. */
  lemma RowBoundsEqualsIsSameKey(a: RowBounds, o: RowBounds)
    ensures RowBoundsEquals(a, o) <==> RowKeyOfBounds(a) == RowKeyOfBounds(o)
    ensures RowBoundsEquals(a, o) ==> RowBoundsHashCode(a) == RowBoundsHashCode(o)
  {
  }

  /** A top and bottom small enough that (top << 16) + bottom does not overflow. */
  predicate ScreenSizedHash(b: RowBounds)
  {
    0 <= b.top < 0x8000 && 0 <= b.bottom < 0x1_0000
  }

  /** For screen-sized rows the hash code tells rows apart: equal hashes mean equal rows. */
  lemma RowBoundsHashCodeInjective(a: RowBounds, o: RowBounds)
    requires ScreenSizedHash(a) && ScreenSizedHash(o)
    ensures RowBoundsHashCode(a) == RowBoundsHashCode(o) <==> RowBoundsEquals(a, o)
  {
    assert RowBoundsHashCode(a) == a.top * 0x1_0000 + a.bottom;
    assert RowBoundsHashCode(o) == o.top * 0x1_0000 + o.bottom;
    if a.top < o.top {
      assert a.top * 0x1_0000 + a.bottom < (a.top + 1) * 0x1_0000 <= o.top * 0x1_0000;
    } else if o.top < a.top {
      assert o.top * 0x1_0000 + o.bottom < (o.top + 1) * 0x1_0000 <= a.top * 0x1_0000;
    }
  }

  /**
   * ROW_BOUNDS_COMPARATOR.compare: for different tops the weighted sum
   * top*11 + other.top*10 + other.left*9, otherwise bottom - other.bottom,
   * both in 32-bit arithmetic.
   */
  function CompareRowBounds(rowBounds: RowBounds, t1: RowBounds): (r: int)
    ensures IsInt32(r)
    ensures OnScreen(rowBounds) && OnScreen(t1) && rowBounds.top != t1.top ==>
      r == rowBounds.top * 11 + t1.top * 10 + t1.left * 9
    ensures OnScreen(rowBounds) && OnScreen(t1) && rowBounds.top == t1.top ==>
      r == rowBounds.bottom - t1.bottom
  {
    if rowBounds.top != t1.top then
      Wrap32(rowBounds.top * 11 + t1.top * 10 + t1.left * 9)
    else
      Wrap32(rowBounds.bottom - t1.bottom)
  }

  /** Non-negative coordinates small enough that the comparator's arithmetic cannot overflow. */
  predicate OnScreen(b: RowBounds)
  {
    0 <= b.top < 0x400_0000 && 0 <= b.bottom < 0x400_0000 &&
    0 <= b.left < 0x400_0000 && 0 <= b.right < 0x400_0000
  }

  /** On screen, the comparator reports "equal" exactly for rows with the same top and bottom. */
  lemma CompareZeroIffSameRow(a: RowBounds, o: RowBounds)
    requires OnScreen(a) && OnScreen(o)
    ensures CompareRowBounds(a, o) == 0 <==> RowBoundsEquals(a, o)
  {
    if a.top != o.top {
      assert a.top * 11 + o.top * 10 + o.left * 9 > 0;
    }
  }

  /**
   * The comparator is not antisymmetric: for rows with different tops it
   * answers "greater" in both argument orders.
   */
  lemma CompareNotAntisymmetric(a: RowBounds, o: RowBounds)
    requires OnScreen(a) && OnScreen(o) && a.top != o.top
    ensures CompareRowBounds(a, o) > 0 && CompareRowBounds(o, a) > 0
  {
    assert a.top * 11 + o.top * 10 + o.left * 9 > 0;
    assert o.top * 11 + a.top * 10 + a.left * 9 > 0;
  }

  /** For equal tops the comparator orders by bottom, antisymmetrically. */
  lemma CompareSameTopByBottom(a: RowBounds, o: RowBounds)
    requires OnScreen(a) && OnScreen(o) && a.top == o.top
    ensures CompareRowBounds(a, o) == a.bottom - o.bottom
    ensures CompareRowBounds(a, o) == -CompareRowBounds(o, a)
  {
  }

  // ---------------------------------------------------------------------
  // One row: a sorted association from column key to node

  /** One entry of a row: its column key (the negated left edge) and its node. */
  datatype Entry = Entry(column: int, node: Node)

  /** The nodes of one row, kept in ascending column-key order as a sorted map keeps them. */
  type Row = seq<Entry>

  predicate SortedRow(row: Row)
  {
    forall i, j :: 0 <= i < j < |row| ==> row[i].column < row[j].column
  }

  /** The row's nodes in iteration order (ascending column key). */
  function RowNodes(row: Row): (r: seq<Node>)
    ensures |r| == |row|
    ensures forall i :: 0 <= i < |row| ==> r[i] == row[i].node
  {
    seq(|row|, i requires 0 <= i < |row| => row[i].node)
  }

  /** The ids held by a row, in iteration order. */
  function RowIds(row: Row): (r: seq<NodeId>)
    ensures |r| == |row|
    ensures forall i :: 0 <= i < |row| ==> r[i] == row[i].node.id
  {
    seq(|row|, i requires 0 <= i < |row| => row[i].node.id)
  }

  function RowBag(row: Row): multiset<NodeId>
  {
    multiset(RowIds(row))
  }

  /** Releasing a row's nodes one by one releases exactly the ids the row holds. */
  lemma RowNodesIds(row: Row)
    ensures Ids(RowNodes(row)) == RowIds(row)
  {
  }

  /** The node stored under `column`, if any. */
  function RowGet(row: Row, column: int): Option<Node>
  {
    if row == [] then None
    else if row[0].column == column then Some(row[0].node)
    else RowGet(row[1..], column)
  }

  /** The ids a put displaces: the node previously stored under the same column key. */
  function DisplacedBag(previous: Option<Node>): multiset<NodeId>
  {
    if previous.Some? then multiset{previous.value.id} else multiset{}
  }

  /**
   * Sorted-map put: the entry is inserted before the first larger key, or
   * replaces the entry with the same key.
   */
  function RowPut(row: Row, column: int, node: Node): (r: Row)
    ensures Entry(column, node) in r
    ensures SortedRow(row) ==> |r| == if RowGet(row, column).Some? then |row| else |row| + 1
  {
    if row == [] then [Entry(column, node)]
    else if column < row[0].column then
      assert SortedRow(row) ==> RowGet(row, column) == None by {
        if SortedRow(row) { RowGetAbsentBelow(row, column); }
      }
      [Entry(column, node)] + row
    else if column == row[0].column then [Entry(column, node)] + row[1..]
    else [row[0]] + RowPut(row[1..], column, node)
  }

  /** A put keeps the row sorted, and every entry after it is the new one or an old one. */
  lemma {:induction false} RowPutSorted(row: Row, column: int, node: Node)
    ensures SortedRow(row) ==> SortedRow(RowPut(row, column, node))
    ensures forall e :: e in RowPut(row, column, node) ==> e == Entry(column, node) || e in row
  {
    if row != [] && column > row[0].column {
      RowPutSorted(row[1..], column, node);
      var rest := RowPut(row[1..], column, node);
      if SortedRow(row) {
        assert forall j :: 0 <= j < |rest| ==> rest[j] in rest;
        assert forall j :: 1 <= j < |row| ==> row[0].column < row[j].column;
      }
    }
  }

  /** After a put, the column maps to the new node and every other column is unchanged. */
  lemma {:induction false} RowPutGet(row: Row, column: int, node: Node, c: int)
    ensures RowGet(RowPut(row, column, node), c) == if c == column then Some(node) else RowGet(row, c)
  {
    if row != [] && column > row[0].column {
      RowPutGet(row[1..], column, node, c);
    }
  }

  /** In a sorted row, a column below the first key is absent. */
  lemma {:induction false} RowGetAbsentBelow(row: Row, column: int)
    requires SortedRow(row) && row != [] && column < row[0].column
    ensures RowGet(row, column) == None
  {
    if |row| > 1 {
      RowGetAbsentBelow(row[1..], column);
    }
  }

  /**
   * In a sorted row, a put adds the new node's id and removes exactly the id
   * of the node stored before under the same column.
   */
  lemma {:induction false} RowPutBag(row: Row, column: int, node: Node)
    requires SortedRow(row)
    ensures RowBag(RowPut(row, column, node)) + DisplacedBag(RowGet(row, column))
         == RowBag(row) + multiset{node.id}
  {
    if row == [] {
      assert RowIds(RowPut(row, column, node)) == [node.id];
    } else if column < row[0].column {
      RowGetAbsentBelow(row, column);
      assert RowPut(row, column, node) == [Entry(column, node)] + row;
      RowIdsCons(Entry(column, node), row);
    } else if column == row[0].column {
      RowPutBagReplace(row, column, node);
    } else {
      RowPutBag(row[1..], column, node);
      RowPutBagAfter(row, column, node);
    }
  }

  /** A put on the first key replaces the first entry. */
  lemma RowPutBagReplace(row: Row, column: int, node: Node)
    requires row != [] && column == row[0].column
    ensures RowBag(RowPut(row, column, node)) + DisplacedBag(RowGet(row, column))
         == RowBag(row) + multiset{node.id}
  {
    var put := RowPut(row, column, node);
    assert put == [Entry(column, node)] + row[1..];
    assert DisplacedBag(RowGet(row, column)) == multiset{row[0].node.id};
    RowIdsCons(Entry(column, node), row[1..]);
    RowIdsCons(row[0], row[1..]);
    assert row == [row[0]] + row[1..];
    calc {
      RowBag(put) + DisplacedBag(RowGet(row, column));
      multiset{node.id} + RowBag(row[1..]) + multiset{row[0].node.id};
      multiset{row[0].node.id} + RowBag(row[1..]) + multiset{node.id};
      RowBag(row) + multiset{node.id};
    }
  }

  /** A put past the first key keeps the first entry and puts into the rest. */
  lemma RowPutBagAfter(row: Row, column: int, node: Node)
    requires row != [] && column > row[0].column
    requires RowBag(RowPut(row[1..], column, node)) + DisplacedBag(RowGet(row[1..], column))
          == RowBag(row[1..]) + multiset{node.id}
    ensures RowBag(RowPut(row, column, node)) + DisplacedBag(RowGet(row, column))
         == RowBag(row) + multiset{node.id}
  {
    var put := RowPut(row, column, node);
    var rest := RowPut(row[1..], column, node);
    assert put == [row[0]] + rest;
    assert RowGet(row, column) == RowGet(row[1..], column);
    RowIdsCons(row[0], rest);
    RowIdsCons(row[0], row[1..]);
    assert row == [row[0]] + row[1..];
    var d := DisplacedBag(RowGet(row, column));
    calc {
      RowBag(put) + d;
      multiset{row[0].node.id} + (RowBag(rest) + d);
      multiset{row[0].node.id} + (RowBag(row[1..]) + multiset{node.id});
      RowBag(row) + multiset{node.id};
    }
  }

  lemma RowIdsCons(e: Entry, row: Row)
    ensures RowBag([e] + row) == multiset{e.node.id} + RowBag(row)
  {
    assert RowIds([e] + row) == [e.node.id] + RowIds(row);
  }

  // ---------------------------------------------------------------------
  // The grid: rows keyed by (top, bottom), columns keyed by -left

  type Grid = map<RowKey, Row>

  function RowKeyOf(node: Node): RowKey
  {
    RowKey(node.bounds.top, node.bounds.bottom)
  }

  function ColumnKeyOf(node: Node): int
  {
    -node.bounds.left
  }

  /** The node the grid holds at a row and column, if any. */
  function Lookup(grid: Grid, key: RowKey, column: int): Option<Node>
  {
    if key in grid then RowGet(grid[key], column) else None
  }

  /** Puts `node` into its row (creating the row when absent) under its column key. */
  function Insert(grid: Grid, node: Node): Grid
  {
    var key := RowKeyOf(node);
    var row := if key in grid then grid[key] else [];
    grid[key := RowPut(row, ColumnKeyOf(node), node)]
  }

  /** A node is kept in the grid when adding it to a fresh ClearFocus yields a Selection. */
  predicate Retained(node: Node)
  {
    AddCompatToTree(node, ClearFocus).Selection?
  }

  /** Exactly the single-action nodes are retained. */
  lemma RetainedIffSingleAction(node: Node)
    ensures Retained(node) <==> node.actionCount == 1
  {
  }

  /** The grid built from the screen-reader order, visiting the nodes first to last. */
  function Group(nodes: seq<Node>): Grid
  {
    if nodes == [] then map[]
    else
      var grid := Group(nodes[..|nodes| - 1]);
      var node := nodes[|nodes| - 1];
      if Retained(node) then Insert(grid, node) else grid
  }

  /** Independent reference: the last retained node of `nodes` at that row and column. */
  function LastRetainedAt(nodes: seq<Node>, key: RowKey, column: int): Option<Node>
  {
    if nodes == [] then None
    else
      var node := nodes[|nodes| - 1];
      if Retained(node) && RowKeyOf(node) == key && ColumnKeyOf(node) == column then Some(node)
      else LastRetainedAt(nodes[..|nodes| - 1], key, column)
  }

  /** Every entry of a row is a single-action node filed under its own row and column. */
  predicate ValidRow(key: RowKey, row: Row)
  {
    SortedRow(row) &&
    forall e :: e in row ==>
      e.node.actionCount == 1 && RowKeyOf(e.node) == key && ColumnKeyOf(e.node) == e.column
  }

  predicate ValidGrid(grid: Grid)
  {
    forall key :: key in grid ==> ValidRow(key, grid[key])
  }

  /** Every entry of the grid is one of `nodes`. */
  predicate DrawnFrom(grid: Grid, nodes: seq<Node>)
  {
    forall key :: key in grid ==> forall e :: e in grid[key] ==> e.node in nodes
  }

  /**
   * Grouping keeps only single-action nodes from the list, each filed under
   * its own (top, bottom) row and -left column, rows sorted by column key.
   */
  lemma {:induction false} GroupValid(nodes: seq<Node>)
    ensures ValidGrid(Group(nodes))
    ensures DrawnFrom(Group(nodes), nodes)
  {
    if nodes != [] {
      var prefix := nodes[..|nodes| - 1];
      var node := nodes[|nodes| - 1];
      GroupValid(prefix);
      var grid := Group(prefix);
      assert forall n :: n in prefix ==> n in nodes;
      if Retained(node) {
        var key := RowKeyOf(node);
        var row := if key in grid then grid[key] else [];
        RowPutSorted(row, ColumnKeyOf(node), node);
        assert ValidRow(key, RowPut(row, ColumnKeyOf(node), node));
      }
    }
  }

  /**
   * A column of a row holds the LAST retained node of the list filed there:
   * a later node with the same row and left edge overwrites an earlier one.
   */
  lemma {:induction false} GroupLookup(nodes: seq<Node>, key: RowKey, column: int)
    ensures Lookup(Group(nodes), key, column) == LastRetainedAt(nodes, key, column)
  {
    if nodes != [] {
      var prefix := nodes[..|nodes| - 1];
      var node := nodes[|nodes| - 1];
      GroupLookup(prefix, key, column);
      if Retained(node) && RowKeyOf(node) == key {
        var grid := Group(prefix);
        var row := if key in grid then grid[key] else [];
        RowPutGet(row, ColumnKeyOf(node), node, column);
      }
    }
  }

  /** A row exists exactly when some retained node lies in it. */
  lemma {:induction false} GroupRows(nodes: seq<Node>, key: RowKey)
    ensures key in Group(nodes) <==>
      exists i :: 0 <= i < |nodes| && Retained(nodes[i]) && RowKeyOf(nodes[i]) == key
  {
    if nodes != [] {
      var prefix := nodes[..|nodes| - 1];
      GroupRows(prefix, key);
      if exists i :: 0 <= i < |prefix| && Retained(prefix[i]) && RowKeyOf(prefix[i]) == key {
        var i :| 0 <= i < |prefix| && Retained(prefix[i]) && RowKeyOf(prefix[i]) == key;
        assert nodes[i] == prefix[i];
      }
      if exists i :: 0 <= i < |nodes| && Retained(nodes[i]) && RowKeyOf(nodes[i]) == key {
        var i :| 0 <= i < |nodes| && Retained(nodes[i]) && RowKeyOf(nodes[i]) == key;
        if i < |prefix| {
          assert prefix[i] == nodes[i];
        }
      }
    }
  }

  // ---------------------------------------------------------------------
  // Release accounting for the grouping pass

  /** The ids of all nodes the grid holds. */
  ghost function GridBag(grid: Grid): multiset<NodeId>
    decreases |grid|
  {
    if grid == map[] then multiset{}
    else
      var key :| key in grid;
      assert (grid - {key}).Keys == grid.Keys - {key};
      RowBag(grid[key]) + GridBag(grid - {key})
  }

  /** The grid's ids split into one row's and the rest's, whichever row is taken. */
  lemma {:induction false} GridBagRemove(grid: Grid, key: RowKey)
    requires key in grid
    ensures GridBag(grid) == RowBag(grid[key]) + GridBag(grid - {key})
    decreases |grid|
  {
    var k :| k in grid && GridBag(grid) == RowBag(grid[k]) + GridBag(grid - {k});
    if k != key {
      var both := grid - {k} - {key};
      var a, b := RowBag(grid[k]), RowBag(grid[key]);
      assert GridBag(grid - {k}) == b + GridBag(both) by {
        assert (grid - {k}).Keys == grid.Keys - {k};
        GridBagRemove(grid - {k}, key);
      }
      assert GridBag(grid - {key}) == a + GridBag(both) by {
        assert (grid - {key}).Keys == grid.Keys - {key};
        GridBagRemove(grid - {key}, k);
        assert grid - {key} - {k} == both;
      }
      assert a + (b + GridBag(both)) == b + (a + GridBag(both));
    }
  }

  /** Replacing (or adding) one row replaces that row's ids. */
  lemma GridBagUpdate(grid: Grid, key: RowKey, row: Row)
    ensures GridBag(grid[key := row]) == RowBag(row) + GridBag(grid - {key})
  {
    GridBagRemove(grid[key := row], key);
    assert grid[key := row] - {key} == grid - {key};
  }

  /** The ids of a grid split into the ids of one (possibly absent) row and the rest. */
  lemma GridBagSplit(grid: Grid, key: RowKey)
    ensures GridBag(grid) == RowBag(if key in grid then grid[key] else []) + GridBag(grid - {key})
  {
    if key in grid {
      GridBagRemove(grid, key);
    } else {
      assert grid - {key} == grid;
      assert RowIds([]) == [];
    }
  }

  /** Inserting a node adds its id to the grid and removes the id of the node it displaces. */
  lemma InsertBag(grid: Grid, node: Node)
    requires ValidGrid(grid)
    ensures GridBag(Insert(grid, node)) + DisplacedBag(Lookup(grid, RowKeyOf(node), ColumnKeyOf(node)))
         == GridBag(grid) + multiset{node.id}
  {
    var key := RowKeyOf(node);
    var row := if key in grid then grid[key] else [];
    var row' := RowPut(row, ColumnKeyOf(node), node);
    var d := DisplacedBag(Lookup(grid, key, ColumnKeyOf(node)));
    var others := GridBag(grid - {key});
    assert SortedRow(row);
    assert Insert(grid, node) == grid[key := row'];
    GridBagUpdate(grid, key, row');
    RowPutBag(row, ColumnKeyOf(node), node);
    GridBagSplit(grid, key);
    assert d == DisplacedBag(RowGet(row, ColumnKeyOf(node)));
    MultisetShuffle(RowBag(row'), others, d, RowBag(row), multiset{node.id});
  }

  /** Rearranging a union: if a + c equals x + y, adding b to both sides keeps them equal. */
  lemma MultisetShuffle(a: multiset<NodeId>, b: multiset<NodeId>, c: multiset<NodeId>,
                        x: multiset<NodeId>, y: multiset<NodeId>)
    requires a + c == x + y
    ensures a + b + c == x + b + y
  {
    forall z ensures (a + b + c)[z] == (x + b + y)[z] {
      assert (a + c)[z] == (x + y)[z];
    }
  }

  /** What the grouping pass as written releases: the nodes that are not retained. */
  function RejectedIds(nodes: seq<Node>): seq<NodeId>
  {
    if nodes == [] then []
    else
      var node := nodes[|nodes| - 1];
      RejectedIds(nodes[..|nodes| - 1]) + (if Retained(node) then [] else [node.id])
  }

  /**
   * What the corrected grouping pass releases: the nodes that are not
   * retained, and every node that a later node with the same row and column
   * displaces from the grid.
   */
  function GroupingReleases(nodes: seq<Node>): seq<NodeId>
  {
    if nodes == [] then []
    else
      var prefix := nodes[..|nodes| - 1];
      var node := nodes[|nodes| - 1];
      var previous := Lookup(Group(prefix), RowKeyOf(node), ColumnKeyOf(node));
      GroupingReleases(prefix) +
        (if !Retained(node) then [node.id]
         else if previous.Some? then [previous.value.id]
         else [])
  }

  /** The ids of the nodes a later node with the same row and column displaces from the grid. */
  function DisplacedIds(nodes: seq<Node>): seq<NodeId>
  {
    if nodes == [] then []
    else
      var prefix := nodes[..|nodes| - 1];
      var node := nodes[|nodes| - 1];
      var previous := Lookup(Group(prefix), RowKeyOf(node), ColumnKeyOf(node));
      DisplacedIds(prefix) + (if Retained(node) && previous.Some? then [previous.value.id] else [])
  }

  /** The corrected releases are the as-written ones plus the displaced nodes. */
  lemma {:induction false} GroupingReleasesSplit(nodes: seq<Node>)
    ensures multiset(GroupingReleases(nodes)) == multiset(RejectedIds(nodes)) + multiset(DisplacedIds(nodes))
  {
    if nodes != [] {
      var prefix := nodes[..|nodes| - 1];
      GroupingReleasesSplit(prefix);
      var node := nodes[|nodes| - 1];
      var previous := Lookup(Group(prefix), RowKeyOf(node), ColumnKeyOf(node));
      var g := if !Retained(node) then [node.id] else if previous.Some? then [previous.value.id] else [];
      var rj := if Retained(node) then [] else [node.id];
      var dp := if Retained(node) && previous.Some? then [previous.value.id] else [];
      assert GroupingReleases(nodes) == GroupingReleases(prefix) + g;
      assert RejectedIds(nodes) == RejectedIds(prefix) + rj;
      assert DisplacedIds(nodes) == DisplacedIds(prefix) + dp;
      assert multiset(g) == multiset(rj) + multiset(dp);
    }
  }

  /**
   * As written, the grouping pass and the grid together account for every
   * node except the displaced ones: those are exactly what is lost.
   */
  lemma AsWrittenLosesDisplaced(nodes: seq<Node>)
    ensures multiset(RejectedIds(nodes)) + GridBag(Group(nodes)) + multiset(DisplacedIds(nodes))
         == multiset(Ids(nodes))
  {
    GroupAccounting(nodes);
    GroupingReleasesSplit(nodes);
    var r, d, g := multiset(RejectedIds(nodes)), multiset(DisplacedIds(nodes)), GridBag(Group(nodes));
    assert multiset(GroupingReleases(nodes)) == r + d;
    assert r + d + g == multiset(Ids(nodes));
    assert r + g + d == r + d + g;
  }

  /**
   * With the displaced nodes released, the grouping pass accounts for every
   * node: each is either released during grouping or held by the grid.
   */
  lemma {:induction false} GroupAccounting(nodes: seq<Node>)
    ensures multiset(GroupingReleases(nodes)) + GridBag(Group(nodes)) == multiset(Ids(nodes))
  {
    if nodes == [] {
      assert Ids(nodes) == [];
    } else {
      GroupAccounting(nodes[..|nodes| - 1]);
      GroupAccountingStep(nodes);
    }
  }

  /** The ids one more node adds to the releases of the corrected grouping pass. */
  function StepReleases(grid: Grid, node: Node): seq<NodeId>
  {
    var previous := Lookup(grid, RowKeyOf(node), ColumnKeyOf(node));
    if !Retained(node) then [node.id]
    else if previous.Some? then [previous.value.id]
    else []
  }

  /** The grid after one more node of the grouping pass. */
  function StepGrid(grid: Grid, node: Node): Grid
  {
    if Retained(node) then Insert(grid, node) else grid
  }

  /** One grouping step keeps the accounting: what it releases plus what it files is the new node. */
  lemma StepBag(grid: Grid, node: Node, log: multiset<NodeId>, all: multiset<NodeId>)
    requires ValidGrid(grid)
    requires log + GridBag(grid) == all
    ensures log + multiset(StepReleases(grid, node)) + GridBag(StepGrid(grid, node)) == all + multiset{node.id}
  {
    var d := multiset(StepReleases(grid, node));
    if Retained(node) {
      InsertBag(grid, node);
      assert d == DisplacedBag(Lookup(grid, RowKeyOf(node), ColumnKeyOf(node)));
    }
    assert GridBag(StepGrid(grid, node)) + d == GridBag(grid) + multiset{node.id};
    forall z ensures (log + d + GridBag(StepGrid(grid, node)))[z] == (all + multiset{node.id})[z] {
      assert (GridBag(StepGrid(grid, node)) + d)[z] == (GridBag(grid) + multiset{node.id})[z];
      assert (log + GridBag(grid))[z] == all[z];
    }
  }

  /** One step of GroupAccounting: from the list without its last node to the whole list. */
  lemma GroupAccountingStep(nodes: seq<Node>)
    requires nodes != []
    requires multiset(GroupingReleases(nodes[..|nodes| - 1])) + GridBag(Group(nodes[..|nodes| - 1]))
          == multiset(Ids(nodes[..|nodes| - 1]))
    ensures multiset(GroupingReleases(nodes)) + GridBag(Group(nodes)) == multiset(Ids(nodes))
  {
    var prefix := nodes[..|nodes| - 1];
    var node := nodes[|nodes| - 1];
    var grid := Group(prefix);
    assert Group(nodes) == StepGrid(grid, node);
    assert GroupingReleases(nodes) == GroupingReleases(prefix) + StepReleases(grid, node);
    IdsSnoc(nodes);
    GroupValid(prefix);
    StepBag(grid, node, multiset(GroupingReleases(prefix)), multiset(Ids(prefix)));
  }

  /**
   * As written, a node displaced by a later node with the same row and the
   * same left edge is neither released while grouping nor held by the grid,
   * so it is never released.
   */
  lemma OverwrittenNodeIsNeverReleased(first: Node, second: Node)
    requires first.actionCount == 1 && second.actionCount == 1
    requires first.bounds.top == second.bounds.top && first.bounds.bottom == second.bounds.bottom
    requires first.bounds.left == second.bounds.left && first.id != second.id
    ensures (multiset(RejectedIds([first, second])) + GridBag(Group([first, second])))[first.id] == 0
  {
    var nodes := [first, second];
    assert nodes[..1] == [first];
    assert [first][..0] == [];
    var key := RowKeyOf(second);
    var column := ColumnKeyOf(second);
    assert Group([first]) == map[key := [Entry(column, first)]];
    assert RowPut([Entry(column, first)], column, second) == [Entry(column, second)];
    var grid := Group(nodes);
    assert grid == map[key := [Entry(column, second)]];
    assert RowIds([Entry(column, second)]) == [second.id];
    GridBagRemove(grid, key);
    assert grid - {key} == map[];
    assert GridBag(grid) == multiset{second.id};
    assert RejectedIds([first]) == [];
    assert RejectedIds(nodes) == [];
  }

  // ---------------------------------------------------------------------
  // The grouping pass, as written and corrected

  /**
   * getMapOfNodesByXYCoordinate as written: visits the screen-reader order
   * first to last, tests each node against a scratch ClearFocus tree, files
   * retained nodes under (row, -left) and releases the others; the scratch
   * tree is released for every node. A node displaced by put is dropped
   * without being released.
   */
  method GetMapOfNodesByXYCoordinateAsWritten(talkBackOrder: seq<Node>)
    returns (nodesByXYCoordinate: Grid, ghost released: seq<NodeId>, ghost scratchReleases: nat)
    ensures nodesByXYCoordinate == Group(talkBackOrder)
    ensures released == RejectedIds(talkBackOrder)
    ensures scratchReleases == |talkBackOrder|
  {
    nodesByXYCoordinate := map[];
    released, scratchReleases := [], 0;
    for i := 0 to |talkBackOrder|
      invariant nodesByXYCoordinate == Group(talkBackOrder[..i])
      invariant released == RejectedIds(talkBackOrder[..i])
      invariant scratchReleases == i
    {
      var node := talkBackOrder[i];
      assert talkBackOrder[..i + 1][..i] == talkBackOrder[..i];
      assert Group(talkBackOrder[..i + 1]) == StepGrid(Group(talkBackOrder[..i]), node);
      assert RejectedIds(talkBackOrder[..i + 1]) ==
        RejectedIds(talkBackOrder[..i]) + (if Retained(node) then [] else [node.id]);
      var treeWithCurrentNode := AddCompatToTree(node, ClearFocus);
      if treeWithCurrentNode.Selection? {
        var bounds := node.bounds;
        var rowBounds := RowBounds(bounds.top, bounds.bottom, bounds.left, bounds.right);
        var mapOfNodes: Row;
        if RowKeyOfBounds(rowBounds) in nodesByXYCoordinate {
          mapOfNodes := nodesByXYCoordinate[RowKeyOfBounds(rowBounds)];
        } else {
          mapOfNodes := [];
        }
        mapOfNodes := RowPut(mapOfNodes, -bounds.left, node);
        nodesByXYCoordinate := nodesByXYCoordinate[RowKeyOfBounds(rowBounds) := mapOfNodes];
        assert nodesByXYCoordinate == Insert(Group(talkBackOrder[..i]), node);
      } else {
        released := released + [node.id];
      }
      scratchReleases := scratchReleases + 1;
    }
    assert talkBackOrder[..|talkBackOrder|] == talkBackOrder;
  }

  /**
   * The grouping pass with the displaced node released: identical grid,
   * and every node is either released here or held by the grid.
   */
  method GetMapOfNodesByXYCoordinate(talkBackOrder: seq<Node>)
    returns (nodesByXYCoordinate: Grid, ghost released: seq<NodeId>, ghost scratchReleases: nat)
    ensures nodesByXYCoordinate == Group(talkBackOrder)
    ensures released == GroupingReleases(talkBackOrder)
    ensures multiset(released) + GridBag(nodesByXYCoordinate) == multiset(Ids(talkBackOrder))
    ensures scratchReleases == |talkBackOrder|
  {
    nodesByXYCoordinate := map[];
    released, scratchReleases := [], 0;
    for i := 0 to |talkBackOrder|
      invariant nodesByXYCoordinate == Group(talkBackOrder[..i])
      invariant released == GroupingReleases(talkBackOrder[..i])
      invariant scratchReleases == i
    {
      var node := talkBackOrder[i];
      assert talkBackOrder[..i + 1][..i] == talkBackOrder[..i];
      var treeWithCurrentNode := AddCompatToTree(node, ClearFocus);
      if treeWithCurrentNode.Selection? {
        var bounds := node.bounds;
        var rowBounds := RowBounds(bounds.top, bounds.bottom, bounds.left, bounds.right);
        var mapOfNodes: Row;
        if RowKeyOfBounds(rowBounds) in nodesByXYCoordinate {
          mapOfNodes := nodesByXYCoordinate[RowKeyOfBounds(rowBounds)];
        } else {
          mapOfNodes := [];
        }
        var previous := RowGet(mapOfNodes, -bounds.left);
        mapOfNodes := RowPut(mapOfNodes, -bounds.left, node);
        nodesByXYCoordinate := nodesByXYCoordinate[RowKeyOfBounds(rowBounds) := mapOfNodes];
        if previous.Some? {
          released := released + [previous.value.id];
        }
      } else {
        released := released + [node.id];
      }
      scratchReleases := scratchReleases + 1;
    }
    assert talkBackOrder[..|talkBackOrder|] == talkBackOrder;
    GroupAccounting(talkBackOrder);
  }

  // ---------------------------------------------------------------------
  // Folding the rows

  /** Each key of the grid exactly once: an order in which the rows are visited. */
  predicate IsRowOrder(order: seq<RowKey>, grid: Grid)
  {
    (forall i, j :: 0 <= i < j < |order| ==> order[i] != order[j]) &&
    (forall i :: 0 <= i < |order| ==> order[i] in grid) &&
    (forall key :: key in grid ==> key in order)
  }

  /**
   * One row folded onto the tree: a short row node by node into the tree
   * itself, a long row into a sub-tree of its own joined by one Selection.
   */
  function FoldRow(row: Row, tree: Tree): Tree
  {
    if |row| < MIN_NODES_PER_ROW then FoldForward(RowNodes(row), tree)
    else Selection(FoldForward(RowNodes(row), ClearFocus), tree)
  }

  /** The rows folded onto the tree in the given order. */
  function FoldRows(grid: Grid, order: seq<RowKey>, tree: Tree): Tree
    requires forall i :: 0 <= i < |order| ==> order[i] in grid
  {
    if order == [] then tree
    else FoldRow(grid[order[|order| - 1]], FoldRows(grid, order[..|order| - 1], tree))
  }

  /** The ids held by the rows of `order`. */
  function OrderBag(grid: Grid, order: seq<RowKey>): multiset<NodeId>
    requires forall i :: 0 <= i < |order| ==> order[i] in grid
  {
    if order == [] then multiset{}
    else OrderBag(grid, order[..|order| - 1]) + RowBag(grid[order[|order| - 1]])
  }

  lemma {:induction false} OrderBagFrame(grid: Grid, grid': Grid, order: seq<RowKey>)
    requires forall i :: 0 <= i < |order| ==> order[i] in grid && order[i] in grid'
    requires forall i :: 0 <= i < |order| ==> grid[order[i]] == grid'[order[i]]
    ensures OrderBag(grid, order) == OrderBag(grid', order)
  {
    if order != [] {
      OrderBagFrame(grid, grid', order[..|order| - 1]);
    }
  }

  /** Visiting every row once, in any order, visits every node the grid holds. */
  lemma {:induction false} OrderBagIsGridBag(grid: Grid, order: seq<RowKey>)
    requires IsRowOrder(order, grid)
    ensures OrderBag(grid, order) == GridBag(grid)
  {
    if order == [] {
      assert grid.Keys == {};
    } else {
      var key := order[|order| - 1];
      var prefix := order[..|order| - 1];
      var rest := grid - {key};
      assert key in grid;
      forall k ensures k in rest <==> k in prefix {
        if k in prefix {
          var i :| 0 <= i < |prefix| && prefix[i] == k;
          assert order[i] == k && order[i] != order[|order| - 1];
        }
        if k in rest {
          assert k in order;
          var i :| 0 <= i < |order| && order[i] == k;
          assert i < |order| - 1;
          assert prefix[i] == k;
        }
      }
      assert IsRowOrder(prefix, rest);
      OrderBagIsGridBag(rest, prefix);
      OrderBagFrame(grid, rest, prefix);
      GridBagRemove(grid, key);
    }
  }

  /** A row's nodes in scan order, from the root down: right-to-left iteration reversed. */
  function RowScanOrder(row: Row): seq<Node>
  {
    Reverse(RowNodes(row))
  }

  /** Within a row the user scans from the leftmost node to the rightmost. */
  lemma RowScanLeftToRight(key: RowKey, row: Row)
    requires ValidRow(key, row)
    ensures forall i, j :: 0 <= i < j < |row| ==>
      RowScanOrder(row)[i].bounds.left < RowScanOrder(row)[j].bounds.left
  {
    forall i, j | 0 <= i < j < |row|
      ensures RowScanOrder(row)[i].bounds.left < RowScanOrder(row)[j].bounds.left
    {
      assert RowScanOrder(row)[i] == row[|row| - 1 - i].node;
      assert RowScanOrder(row)[j] == row[|row| - 1 - j].node;
    }
  }

  /** A row folded onto a tree is a Selection spine of its nodes in scan order. */
  lemma RowFoldSpine(key: RowKey, row: Row, tree: Tree)
    requires ValidRow(key, row)
    ensures FoldForward(RowNodes(row), tree) == SpineOf(Ids(RowScanOrder(row)), tree)
    ensures SelectionCount(FoldForward(RowNodes(row), tree)) == SelectionCount(tree) + |row|
    ensures ActionCount(FoldForward(RowNodes(row), tree)) == ActionCount(tree) + |row|
  {
    var scan := RowScanOrder(row);
    FoldForwardIsSpine(RowNodes(row), tree);
    SpineShape(scan, tree);
    SpineCounts(scan, tree);
    RowScanSingleAction(key, row);
    SingleActionIdsAll(scan);
  }

  /** Every node of a valid row has exactly one action. */
  lemma RowScanSingleAction(key: RowKey, row: Row)
    requires ValidRow(key, row)
    ensures forall i :: 0 <= i < |RowScanOrder(row)| ==> RowScanOrder(row)[i].actionCount == 1
  {
    var scan := RowScanOrder(row);
    forall i | 0 <= i < |scan| ensures scan[i].actionCount == 1 {
      assert scan[i] == row[|row| - 1 - i].node;
      assert row[|row| - 1 - i] in row;
    }
  }

  /** A row of fewer than MIN_NODES_PER_ROW nodes adds one Selection per node to the tree itself. */
  lemma ShortRowFold(key: RowKey, row: Row, tree: Tree)
    requires ValidRow(key, row) && |row| < MIN_NODES_PER_ROW
    ensures FoldRow(row, tree) == SpineOf(Ids(RowScanOrder(row)), tree)
    ensures SelectionCount(FoldRow(row, tree)) == SelectionCount(tree) + |row|
  {
    RowFoldSpine(key, row, tree);
  }

  /**
   * A row of MIN_NODES_PER_ROW nodes or more adds exactly one Selection to the
   * tree, whose left child is the row's own spine ending in ClearFocus.
   */
  lemma LongRowFold(key: RowKey, row: Row, tree: Tree)
    requires ValidRow(key, row) && |row| >= MIN_NODES_PER_ROW
    ensures FoldRow(row, tree) == Selection(SpineOf(Ids(RowScanOrder(row)), ClearFocus), tree)
    ensures ActionCount(FoldRow(row, tree).left) == |row|
    ensures SelectionCount(FoldRow(row, tree)) == SelectionCount(tree) + 1 + |row|
  {
    RowFoldSpine(key, row, ClearFocus);
  }

  /** Folds one row's nodes in iteration order onto `tree`, releasing each after folding. */
  method AddRowToTree(nodes: seq<Node>, tree: Tree) returns (r: Tree, ghost released: seq<NodeId>)
    ensures r == FoldForward(nodes, tree)
    ensures released == Ids(nodes)
  {
    r, released := tree, [];
    for j := 0 to |nodes|
      invariant r == FoldForward(nodes[..j], tree)
      invariant released == Ids(nodes[..j])
    {
      assert nodes[..j + 1][..j] == nodes[..j];
      r := AddCompatToTree(nodes[j], r);
      released := released + [nodes[j].id];
    }
    assert nodes[..|nodes|] == nodes;
  }

  /**
   * The row loop of addViewHierarchyToTree: visits the rows in `rowOrder`,
   * folding a short row into the tree itself and a long row into a sub-tree
   * joined by one Selection, releasing every node of every row.
   */
  method AddRowsToTree(nodesByXYCoordinate: Grid, rowOrder: seq<RowKey>, treeToBuildOn: Tree)
    returns (tree: Tree, ghost released: seq<NodeId>)
    requires forall i :: 0 <= i < |rowOrder| ==> rowOrder[i] in nodesByXYCoordinate
    ensures tree == FoldRows(nodesByXYCoordinate, rowOrder, treeToBuildOn)
    ensures multiset(released) == OrderBag(nodesByXYCoordinate, rowOrder)
  {
    tree, released := treeToBuildOn, [];
    for r := 0 to |rowOrder|
      invariant tree == FoldRows(nodesByXYCoordinate, rowOrder[..r], treeToBuildOn)
      invariant multiset(released) == OrderBag(nodesByXYCoordinate, rowOrder[..r])
    {
      assert rowOrder[..r + 1][..r] == rowOrder[..r];
      var nodesInThisRow := nodesByXYCoordinate[rowOrder[r]];
      ghost var rowReleased;
      if |nodesInThisRow| < MIN_NODES_PER_ROW {
        tree, rowReleased := AddRowToTree(RowNodes(nodesInThisRow), tree);
      } else {
        var rowTree;
        rowTree, rowReleased := AddRowToTree(RowNodes(nodesInThisRow), ClearFocus);
        tree := Selection(rowTree, tree);
      }
      RowNodesIds(nodesInThisRow);
      released := released + rowReleased;
    }
    assert rowOrder[..|rowOrder|] == rowOrder;
  }

  /**
   * addViewHierarchyToTree as written, on the grouping pass as written: the
   * same tree, but a node displaced while grouping is never recycled, since
   * only rejected nodes and the nodes the rows hold are.
   */
  method AddViewHierarchyToTreeAsWritten(talkBackOrder: seq<Node>, treeToBuildOn: Option<Tree>, rowOrder: seq<RowKey>)
    returns (tree: Tree, ghost released: seq<NodeId>, ghost scratchReleases: nat)
    requires IsRowOrder(rowOrder, Group(talkBackOrder))
    ensures tree == FoldRows(Group(talkBackOrder), rowOrder, StartTree(treeToBuildOn))
    ensures multiset(released) == multiset(RejectedIds(talkBackOrder)) + GridBag(Group(talkBackOrder))
    ensures multiset(released) + multiset(DisplacedIds(talkBackOrder)) == multiset(Ids(talkBackOrder))
    ensures scratchReleases == |talkBackOrder|
  {
    tree := if treeToBuildOn != None then treeToBuildOn.value else ClearFocus;
    var nodesByXYCoordinate;
    ghost var groupingReleased, rowReleased;
    nodesByXYCoordinate, groupingReleased, scratchReleases := GetMapOfNodesByXYCoordinateAsWritten(talkBackOrder);
    tree, rowReleased := AddRowsToTree(nodesByXYCoordinate, rowOrder, tree);
    released := groupingReleased + rowReleased;
    OrderBagIsGridBag(nodesByXYCoordinate, rowOrder);
    AsWrittenLosesDisplaced(talkBackOrder);
  }

  /**
   * addViewHierarchyToTree on the corrected grouping pass: groups the
   * screen-reader order into rows and folds the rows, in the order
   * `rowOrder` gives, onto the starting tree.
   * Every node is released exactly once, whether or not it contributed.
   */
  method AddViewHierarchyToTree(talkBackOrder: seq<Node>, treeToBuildOn: Option<Tree>, rowOrder: seq<RowKey>)
    returns (tree: Tree, ghost released: seq<NodeId>, ghost scratchReleases: nat)
    requires IsRowOrder(rowOrder, Group(talkBackOrder))
    ensures tree == FoldRows(Group(talkBackOrder), rowOrder, StartTree(treeToBuildOn))
    ensures multiset(released) == multiset(Ids(talkBackOrder))
    ensures DistinctIds(talkBackOrder) ==>
      forall i :: 0 <= i < |talkBackOrder| ==> multiset(released)[talkBackOrder[i].id] == 1
    ensures scratchReleases == |talkBackOrder|
  {
    tree := if treeToBuildOn != None then treeToBuildOn.value else ClearFocus;
    var nodesByXYCoordinate;
    ghost var groupingReleased, rowReleased;
    nodesByXYCoordinate, groupingReleased, scratchReleases := GetMapOfNodesByXYCoordinate(talkBackOrder);
    tree, rowReleased := AddRowsToTree(nodesByXYCoordinate, rowOrder, tree);
    released := groupingReleased + rowReleased;
    OrderBagIsGridBag(nodesByXYCoordinate, rowOrder);
    if DistinctIds(talkBackOrder) {
      DistinctOccursOnce(talkBackOrder, released);
    }
  }

  /** Window lists are not supported by this builder: the result is always null. */
  function AddWindowListToTree(windowList: seq<WindowInfo>, treeToBuildOn: Option<Tree>): (r: Option<Tree>)
    ensures r == None
  {
    None
  }
}
