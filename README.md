# Switch-access option-scan tree builders and the HTML speech handler, in Dafny

This project models the core of a switch-access accessibility service for
Android. The service walks a tree of options with one or two switches.

**The option-scan tree.** Every on-screen node with exactly one action
becomes an `Action` leaf, except that in the row-column builder a later
node with the same row and left edge replaces an earlier one (see
"Findings"). The builders fold the nodes into a binary tree
of:

- `Selection(left, right)` nodes: the user picks one of two sub-trees;
- `ContextMenu` nodes: a chain of menu items;
- `ClearFocus` leaves: they end every chain.

**BinaryTreeBuilder** (module `BinaryTreeBuilder`). It holds the two folding
operations every builder shares:

- `buildContextMenu` chains the menu items, the first one outermost.
- `addCompatToTree` wraps the tree as `Selection(Action(node), tree)` when the
  node has exactly one action, and returns the tree unchanged otherwise.

**LinearScanTreeBuilder** (module `LinearScanTreeBuilder`). It folds the
screen-reader (TalkBack) order in reverse, so the result is a right spine of
`Selection` nodes whose left children are the single-action nodes in
screen-reader order.

**RowColumnTreeBuilder** (module `RowColumnTreeBuilder`). It first groups the
single-action nodes:

- by row, meaning a TreeMap key that `ROW_BOUNDS_COMPARATOR` compares as 0. For on-screen bounds that is exactly same top and bottom, which is `RowBounds` equality (CompareZeroIffSameRow). The model files rows under that key, as an association; see `RowColumnTreeBuilder.Group` under "Left out";
- within a row, by column, meaning the negated left edge.

Then it folds each row. A row of fewer than ten nodes goes straight into the
outer tree. A longer row becomes one sub-tree joined by a single `Selection`.

The row comparator and `RowBounds.hashCode` are modelled in 32-bit
two's-complement arithmetic.

Every node handed to a builder must be recycled exactly once. The model logs
each `recycle()` in a ghost sequence of node ids. It proves the exactly-once
property for the linear builder and for the corrected row-column grouping
pass. For the row-column pass as written, it shows which nodes are never
recycled: the ones a later node displaced.

**WebContentHandler** (module `WebContent`, class `WebContentHandler`). It is a
SAX handler that turns simple HTML into a sentence to be spoken:

- An opening tag appends the element's label and value.
- It also pushes the element's role text onto a stack.
- The closing tag pops that text and appends it after the content.

The class methods work on the handler's fields, and each one is tied to a
pure state machine (`Step`, `Run`) over SAX events. Properties of whole event
runs are proved on that state machine:

- output is append-only;
- stack depth equals the number of open elements;
- a run raises nothing exactly when its events are well nested;
- a closing tag speaks what its opening tag pushed.

Inputs the model takes as given:

- the node list in screen-reader order;
- each node's action count and bounds;
- the SAX events.

`recycle()` exists in the model only as ghost release bookkeeping.

## Model

Source paths are relative to the repository root.

| member | source | states |
|---|---|---|
| BinaryTreeBuilder.BuildContextMenu | mobile/src/main/java/me/parviainen/wheeelaccessibility/treebuilding/BinaryTreeBuilder.java:27-35 | a null list gives a plain ClearFocus; otherwise the counting-down loop yields the context-menu chain of the list (an empty list gives ClearFocus) |
| BinaryTreeBuilder.MenuRoundTrip | mobile/src/main/java/me/parviainen/wheeelaccessibility/treebuilding/BinaryTreeBuilder.java:30-32 | reading the chain from the root gives back the items in list order (first item outermost), and the chain ends in ClearFocus |
| BinaryTreeBuilder.MenuCounts | mobile/src/main/java/me/parviainen/wheeelaccessibility/treebuilding/BinaryTreeBuilder.java:28-33 | the chain holds exactly one ContextMenu node per item, exactly one ClearFocus, and no Selection or Action |
| BinaryTreeBuilder.AddCompatToTree | mobile/src/main/java/me/parviainen/wheeelaccessibility/treebuilding/BinaryTreeBuilder.java:46-55 | the result is the tree itself or Selection(Action(node), tree), the latter exactly when the node has one action; at most one Selection and one Action are added and the input stays intact as right child |
| BinaryTreeBuilder.StartTree | mobile/src/main/java/me/parviainen/wheeelaccessibility/treebuilding/LinearScanTreeBuilder.java:45 | the fold starts from ClearFocus for a null tree and from the given tree otherwise |
| BinaryTreeBuilder.SpineShape | mobile/src/main/java/me/parviainen/wheeelaccessibility/treebuilding/LinearScanTreeBuilder.java:49-53 | folding a list in reverse gives a right spine of Selections whose left children are the single-action nodes in list order, ending in the starting tree |
| BinaryTreeBuilder.SpineCounts | mobile/src/main/java/me/parviainen/wheeelaccessibility/treebuilding/LinearScanTreeBuilder.java:51 | the reverse fold adds exactly one Selection and one Action per single-action node; other nodes contribute nothing |
| BinaryTreeBuilder.FoldForwardIsSpine | mobile/src/main/java/me/parviainen/wheeelaccessibility/treebuilding/RowColumnTreeBuilder.java:101-102 | a forward iteration applying addCompatToTree equals the reverse fold of the reversed list |
| BinaryTreeBuilder.SingleActionIdsAll | mobile/src/main/java/me/parviainen/wheeelaccessibility/treebuilding/BinaryTreeBuilder.java:49-50 | when every node has one action, every node contributes, in list order |
| OptionScan.DistinctOccursOnce | mobile/src/main/java/me/parviainen/wheeelaccessibility/treebuilding/LinearScanTreeBuilder.java:52 | a release log holding the same ids as a list of distinct nodes holds each node's id exactly once |
| LinearScanTreeBuilder.AddViewHierarchyToTree | mobile/src/main/java/me/parviainen/wheeelaccessibility/treebuilding/LinearScanTreeBuilder.java:43-55 | the descending loop yields the right spine of the single-action nodes in screen-reader order over the starting tree, and recycles every node exactly once whether or not it contributed |
| LinearScanTreeBuilder.FirstSingleActionAtRoot | mobile/src/main/java/me/parviainen/wheeelaccessibility/treebuilding/LinearScanTreeBuilder.java:47-53 | the first single-action node in screen-reader order is the left child of the root |
| LinearScanTreeBuilder.AddWindowListToTree | mobile/src/main/java/me/parviainen/wheeelaccessibility/treebuilding/LinearScanTreeBuilder.java:58-62 | the result is null whatever the arguments |
| RowColumnTreeBuilder.Wrap32 | mobile/src/main/java/me/parviainen/wheeelaccessibility/treebuilding/RowColumnTreeBuilder.java:56 | Java int arithmetic: the result is in the 32-bit range, congruent to the exact value modulo 2^32, and equal to it when it fits |
| RowColumnTreeBuilder.RowBoundsEquals | mobile/src/main/java/me/parviainen/wheeelaccessibility/treebuilding/RowColumnTreeBuilder.java:79-85 | `equals`: true exactly when top and bottom match, i.e. the row keys agree; equal bounds hash alike, as `hashCode` must |
| RowColumnTreeBuilder.RowBoundsHashCode | mobile/src/main/java/me/parviainen/wheeelaccessibility/treebuilding/RowColumnTreeBuilder.java:73-77 | `hashCode`: `(top << 16) + bottom` wrapped to 32 bits: a Java `int`, congruent to that sum mod 2^32, and exactly the sum for a top below 2^15 and a bottom below 2^16 |
| RowColumnTreeBuilder.CompareRowBounds | mobile/src/main/java/me/parviainen/wheeelaccessibility/treebuilding/RowColumnTreeBuilder.java:49-60 | `compare`: a Java `int`; for different tops `top*11 + other.top*10 + other.left*9`, otherwise `bottom - other.bottom`, both wrapped to 32 bits and exact (no wrap) for on-screen bounds |
| RowColumnTreeBuilder.RowPut | mobile/src/main/java/me/parviainen/wheeelaccessibility/treebuilding/RowColumnTreeBuilder.java:147 | `TreeMap.put` on a row sorted by column key: the new entry is present, and the row grows by one exactly when the column was absent |
| RowColumnTreeBuilder.RowBoundsEqualsIsSameKey | mobile/src/main/java/me/parviainen/wheeelaccessibility/treebuilding/RowColumnTreeBuilder.java:74-85 | two RowBounds are equal exactly when top and bottom match (left and right are ignored), and equal bounds have equal hash codes |
| RowColumnTreeBuilder.RowBoundsHashCodeInjective | mobile/src/main/java/me/parviainen/wheeelaccessibility/treebuilding/RowColumnTreeBuilder.java:74-77 | for a top below 2^15 and a bottom below 2^16, (top << 16) + bottom is equal for two bounds exactly when they are equal |
| RowColumnTreeBuilder.CompareZeroIffSameRow | mobile/src/main/java/me/parviainen/wheeelaccessibility/treebuilding/RowColumnTreeBuilder.java:49-60 | for non-negative on-screen coordinates the comparator returns 0 exactly for equal (top, bottom) |
| RowColumnTreeBuilder.CompareNotAntisymmetric | mobile/src/main/java/me/parviainen/wheeelaccessibility/treebuilding/RowColumnTreeBuilder.java:56 | when the tops differ the comparator is positive in both argument orders, so it is not antisymmetric |
| RowColumnTreeBuilder.CompareSameTopByBottom | mobile/src/main/java/me/parviainen/wheeelaccessibility/treebuilding/RowColumnTreeBuilder.java:59 | for equal tops the comparator is bottom - other.bottom, and antisymmetric |
| RowColumnTreeBuilder.RowPutSorted | mobile/src/main/java/me/parviainen/wheeelaccessibility/treebuilding/RowColumnTreeBuilder.java:147 | the column map stays sorted by key after put, and holds only the new entry and old ones |
| RowColumnTreeBuilder.RowPutGet | mobile/src/main/java/me/parviainen/wheeelaccessibility/treebuilding/RowColumnTreeBuilder.java:147 | after put the column maps to the new node and every other column is unchanged |
| RowColumnTreeBuilder.RowPutBag | mobile/src/main/java/me/parviainen/wheeelaccessibility/treebuilding/RowColumnTreeBuilder.java:147 | put adds the new node and removes exactly the node stored before under that column |
| RowColumnTreeBuilder.RetainedIffSingleAction | mobile/src/main/java/me/parviainen/wheeelaccessibility/treebuilding/RowColumnTreeBuilder.java:132-133 | adding a node to a scratch ClearFocus yields a Selection exactly when it has one action |
| RowColumnTreeBuilder.GroupValid | mobile/src/main/java/me/parviainen/wheeelaccessibility/treebuilding/RowColumnTreeBuilder.java:130-152 | the grid holds only single-action nodes of the list, each filed under its own (top, bottom) row and -left column, rows sorted by column |
| RowColumnTreeBuilder.GroupLookup | mobile/src/main/java/me/parviainen/wheeelaccessibility/treebuilding/RowColumnTreeBuilder.java:136-147 | under keyed grouping by (top, bottom) and negated left edge, each row and column holds the last retained node filed there: a later node with the same row and left edge overwrites the earlier one |
| RowColumnTreeBuilder.GroupRows | mobile/src/main/java/me/parviainen/wheeelaccessibility/treebuilding/RowColumnTreeBuilder.java:141-146 | a row exists exactly when some retained node lies in it |
| RowColumnTreeBuilder.AsWrittenLosesDisplaced | mobile/src/main/java/me/parviainen/wheeelaccessibility/treebuilding/RowColumnTreeBuilder.java:136-147 | the rejected nodes, the nodes in the grid and the displaced nodes together are every node once |
| RowColumnTreeBuilder.GetMapOfNodesByXYCoordinateAsWritten | mobile/src/main/java/me/parviainen/wheeelaccessibility/treebuilding/RowColumnTreeBuilder.java:124-154 | the loop as written builds the grid of Group, releases only the nodes that were not retained, and releases one scratch tree per node |
| RowColumnTreeBuilder.OverwrittenNodeIsNeverReleased | mobile/src/main/java/me/parviainen/wheeelaccessibility/treebuilding/RowColumnTreeBuilder.java:147-149 | as written, of two single-action nodes with the same row and left edge the first is neither released nor held by the grid |
| RowColumnTreeBuilder.GetMapOfNodesByXYCoordinate | mobile/src/main/java/me/parviainen/wheeelaccessibility/treebuilding/RowColumnTreeBuilder.java:124-154 | with the displaced node released, the grid is the same, and the releases plus the grid account for every node of the list |
| RowColumnTreeBuilder.GroupAccounting | mobile/src/main/java/me/parviainen/wheeelaccessibility/treebuilding/RowColumnTreeBuilder.java:130-152 | every node is either released during grouping (rejected or displaced) or held by the grid, each exactly as often as it occurs |
| RowColumnTreeBuilder.OrderBagIsGridBag | mobile/src/main/java/me/parviainen/wheeelaccessibility/treebuilding/RowColumnTreeBuilder.java:98-99 | visiting every row once, in any order, visits every node the grid holds |
| RowColumnTreeBuilder.RowScanLeftToRight | mobile/src/main/java/me/parviainen/wheeelaccessibility/treebuilding/RowColumnTreeBuilder.java:136-138 | within a row the nodes are scanned from the leftmost to the rightmost, because the -left key makes iteration run right to left |
| RowColumnTreeBuilder.RowFoldSpine | mobile/src/main/java/me/parviainen/wheeelaccessibility/treebuilding/RowColumnTreeBuilder.java:101-104 | folding a row gives a spine of its nodes in scan order, adding one Selection and one Action per node |
| RowColumnTreeBuilder.ShortRowFold | mobile/src/main/java/me/parviainen/wheeelaccessibility/treebuilding/RowColumnTreeBuilder.java:100-104 | a row of fewer than 10 nodes is folded straight into the outer tree, one Selection per node |
| RowColumnTreeBuilder.LongRowFold | mobile/src/main/java/me/parviainen/wheeelaccessibility/treebuilding/RowColumnTreeBuilder.java:105-112 | a row of 10 or more nodes adds one outer Selection(rowTree, tree) whose rowTree is the row's spine over ClearFocus |
| RowColumnTreeBuilder.AddRowToTree | mobile/src/main/java/me/parviainen/wheeelaccessibility/treebuilding/RowColumnTreeBuilder.java:101-104 | the inner loop folds a row's nodes in iteration order and recycles each once |
| RowColumnTreeBuilder.AddRowsToTree | mobile/src/main/java/me/parviainen/wheeelaccessibility/treebuilding/RowColumnTreeBuilder.java:98-113 | the row loop folds every row in the given order, short rows into the tree and long rows as one sub-tree, and recycles exactly the nodes the rows hold |
| RowColumnTreeBuilder.AddViewHierarchyToTree | mobile/src/main/java/me/parviainen/wheeelaccessibility/treebuilding/RowColumnTreeBuilder.java:93-115 | on the corrected grouping pass (see Findings): the result is the rows of the grid folded in the given row order onto the starting tree; every node is recycled exactly once and one scratch tree per node |
| RowColumnTreeBuilder.AddViewHierarchyToTreeAsWritten | mobile/src/main/java/me/parviainen/wheeelaccessibility/treebuilding/RowColumnTreeBuilder.java:93-115 | on the grouping pass as written: the same tree, but exactly the rejected nodes and the nodes in the grid are recycled, so adding the displaced nodes gives back every node |
| RowColumnTreeBuilder.AddWindowListToTree | mobile/src/main/java/me/parviainen/wheeelaccessibility/treebuilding/RowColumnTreeBuilder.java:117-122 | the result is null whatever the arguments |
| WebContent.ToLower | mobile/src/main/java/me/parviainen/wheeelaccessibility/utils/WebContentHandler.java:93 | lower-casing keeps the length and lowers each ASCII capital |
| WebContent.ElementNameIgnoresCase | mobile/src/main/java/me/parviainen/wheeelaccessibility/utils/WebContentHandler.java:93-123 | element names are case-insensitive: a name and its lower-case form push the same postorder text (the tag table is read under `name.toLowerCase()`) and speak the same value (the input, checkbox and radio tests use `equalsIgnoreCase`) |
| WebContent.FixWhiteSpaceSpec | mobile/src/main/java/me/parviainen/wheeelaccessibility/utils/WebContentHandler.java:158-168 | one space is added exactly when the output is non-empty and does not end in whitespace; afterwards it is empty or ends in whitespace, so a second call adds nothing |
| WebContent.LabelPriority | mobile/src/main/java/me/parviainen/wheeelaccessibility/utils/WebContentHandler.java:73-83 | a label is spoken exactly when aria-label, alt or title is present, and the first present one in that order wins |
| WebContent.PostorderTextChoice | mobile/src/main/java/me/parviainen/wheeelaccessibility/utils/WebContentHandler.java:90-109 | the pushed text is a table description or blank: the role's if mapped, else for a typed input the type's or blank, else the tag's, else blank |
| WebContent.SpokenValueRule | mobile/src/main/java/me/parviainen/wheeelaccessibility/utils/WebContentHandler.java:115-128 | the value is spoken exactly when present and the effective type (an input's type, else the tag name) is neither checkbox nor radio ignoring case |
| WebContent.StartElementAppends | mobile/src/main/java/me/parviainen/wheeelaccessibility/utils/WebContentHandler.java:72-127 | startElement keeps the old output as a prefix, with the label right after the separating space; without a spoken value nothing follows the label |
| WebContent.StartElementValueLast | mobile/src/main/java/me/parviainen/wheeelaccessibility/utils/WebContentHandler.java:124-127 | a spoken value ends the output and is preceded by whitespace unless nothing precedes it |
| WebContent.EndElementOutput | mobile/src/main/java/me/parviainen/wheeelaccessibility/utils/WebContentHandler.java:145-151 | endElement keeps the old output, ends it with the popped text, and changes nothing for a blank text |
| WebContent.StepAppendOnly | mobile/src/main/java/me/parviainen/wheeelaccessibility/utils/WebContentHandler.java:60-151 | every callback other than startDocument keeps the old output as a prefix; startDocument resets output and stack to empty |
| WebContent.StepStack | mobile/src/main/java/me/parviainen/wheeelaccessibility/utils/WebContentHandler.java:62-145 | startElement pushes exactly one entry, endElement pops exactly the top one, characters leaves the stack alone, startDocument empties it |
| WebContent.CharactersAppends | mobile/src/main/java/me/parviainen/wheeelaccessibility/utils/WebContentHandler.java:134-137 | characters succeeds exactly for a range inside the array and appends exactly ch[start..start+length) |
| WebContent.NotStartedThrows | mobile/src/main/java/me/parviainen/wheeelaccessibility/utils/WebContentHandler.java:39-42 | before startDocument every other callback throws a NullPointerException |
| WebContent.RunAppend | mobile/src/main/java/me/parviainen/wheeelaccessibility/utils/WebContentHandler.java:59-152 | running two event lists one after the other is running their concatenation |
| WebContent.RunAppendOnly | mobile/src/main/java/me/parviainen/wheeelaccessibility/utils/WebContentHandler.java:78-151 | across any run without startDocument the output is append-only |
| WebContent.WellNestedRuns | mobile/src/main/java/me/parviainen/wheeelaccessibility/utils/WebContentHandler.java:95-145 | well-nested events raise nothing, leave the entries below the ones they may pop untouched, and leave as many entries as elements stay open |
| WebContent.RunsAreWellNested | mobile/src/main/java/me/parviainen/wheeelaccessibility/utils/WebContentHandler.java:95-145 | conversely a run that raises nothing is well nested, and its stack depth is the number of open elements |
| WebContent.DocumentDepth | mobile/src/main/java/me/parviainen/wheeelaccessibility/utils/WebContentHandler.java:60-145 | after startDocument and well-nested events the stack depth equals the number of open elements |
| WebContent.EndTagSpeaksRoleText | mobile/src/main/java/me/parviainen/wheeelaccessibility/utils/WebContentHandler.java:85-151 | an element's closing tag, after content that closes what it opens, restores the stack and appends the text its opening tag pushed |
| WebContent.RunsAreWellNestedNoRestart | mobile/src/main/java/me/parviainen/wheeelaccessibility/utils/WebContentHandler.java:59-63 | a well-nested event list contains no startDocument |
| WebContent.WebContentHandler.constructor | mobile/src/main/java/me/parviainen/wheeelaccessibility/utils/WebContentHandler.java:52-57 | the handler keeps the three tables it is given; builder and stack are not yet created |
| WebContent.WebContentHandler.StartDocument | mobile/src/main/java/me/parviainen/wheeelaccessibility/utils/WebContentHandler.java:59-63 | output and stack become empty, as the state machine's startDocument step says |
| WebContent.WebContentHandler.FixWhiteSpace | mobile/src/main/java/me/parviainen/wheeelaccessibility/utils/WebContentHandler.java:158-168 | callable only after startDocument, since before it the builder is null; the output becomes FixedWhiteSpace of the old output and nothing else changes |
| WebContent.WebContentHandler.StartElement | mobile/src/main/java/me/parviainen/wheeelaccessibility/utils/WebContentHandler.java:70-129 | throws exactly before startDocument; otherwise pushes exactly the element's text and appends label and value, as the state machine's step says |
| WebContent.WebContentHandler.AppendLabel | mobile/src/main/java/me/parviainen/wheeelaccessibility/utils/WebContentHandler.java:73-83 | appends the label chosen by priority, nothing else changes |
| WebContent.WebContentHandler.PushPostorderText | mobile/src/main/java/me/parviainen/wheeelaccessibility/utils/WebContentHandler.java:90-109 | pushes exactly one entry, the element's post-order text; output unchanged |
| WebContent.WebContentHandler.AppendValue | mobile/src/main/java/me/parviainen/wheeelaccessibility/utils/WebContentHandler.java:115-128 | appends the separated value unless it is not spoken; stack unchanged |
| WebContent.WebContentHandler.Characters | mobile/src/main/java/me/parviainen/wheeelaccessibility/utils/WebContentHandler.java:134-137 | throws exactly before startDocument or for a range outside the array; otherwise appends the range and leaves the stack |
| WebContent.WebContentHandler.EndElement | mobile/src/main/java/me/parviainen/wheeelaccessibility/utils/WebContentHandler.java:143-152 | throws exactly before startDocument or on an empty stack; otherwise pops the top text and appends it, fixing whitespace only when it is not blank |
| WebContent.WebContentHandler.GetOutput | mobile/src/main/java/me/parviainen/wheeelaccessibility/utils/WebContentHandler.java:177-179 | the text spoken so far once startDocument has run; before it the builder is null and the call throws a NullPointerException (Thrown(NullPointer)) |

## Left out

- The walk of the view hierarchy is not modelled. `getNodesInTalkBackOrder`, `getCompatActionNodes` and `getVisibleBoundsInScreen` live in classes that are not part of this model. The node list in screen-reader order, each node's action count and its bounds are inputs.
- `recycle()` is modelled only as a ghost log of released node ids, and the scratch trees only as a count. Its platform effect, and what recycling a scratch tree does to the tree's children, are not modelled.
- RowColumnTreeBuilder.Group: the source files rows in `new TreeMap<>(ROW_BOUNDS_COMPARATOR)` (RowColumnTreeBuilder.java:127), which finds a row by walking the red-black tree with the comparator, not by `equals`/`hashCode`. The comparator is not a total order (CompareNotAntisymmetric), so a lookup can miss a row that is already there and open a second row with the same bounds. For example, nodes with (top, bottom, left) of (0, 10, 0), (20, 30, 0), (40, 50, 0), (0, 10, 100): after the third insertion rotates the (20, 30) row to the root, the walk for (0, 10) goes right twice and finds nothing. The model treats grouping as a keyed association on (top, bottom), so it merges rows the source can split. GroupLookup, FoldRows and the accounting lemmas hold for that keyed grouping.
- RowColumnTreeBuilder.AddViewHierarchyToTree is built on the corrected grouping pass, GetMapOfNodesByXYCoordinate, so its "every node is recycled exactly once" is the intended behaviour, not the source's. The source's composition is RowColumnTreeBuilder.AddViewHierarchyToTreeAsWritten, which loses the displaced nodes (see Findings).
- RowColumnTreeBuilder.AddViewHierarchyToTree: the order in which the TreeMap visits rows is a parameter (`rowOrder`), required to list each row exactly once. The comparator is inconsistent (CompareNotAntisymmetric), so the real red-black tree's order depends on insertion history. The tree is stated for any such order.
- The rows of the grid are immutable values. In the source, the TreeMap held in `nodesByXYCoordinate` is the same object that `put` mutates. That aliasing is not modelled.
- RowColumnTreeBuilder.ColumnKeyOf: `-left` is exact, while Java's negation of Integer.MIN_VALUE wraps. Off-screen bounds of that size are not modelled.
- BinaryTreeBuilder.AddCompatToTree: the branch that would wrap a context menu of several actions in an `OptionScanSelectionNode` is commented out (BinaryTreeBuilder.java:51-52), so a node with several actions leaves the tree unchanged, as in the code. BinaryTreeBuilder.BuildContextMenu chains `ContextMenuNode`s onto a `ClearFocusNode`, as the loop at BinaryTreeBuilder.java:30-32 does.
- `Log.d` calls, the `Context` constructors and `KeyboardStateBroadcastReceiver.java` are platform plumbing. They are not part of this model.
- SAX parsing and the `Attributes` implementation are not modelled. A callback's arguments are given directly, attributes as a map from name to value. The `uri` and `localName` parameters are unused by the source and left out.
- WebContent.ToLower and WebContent.EqualsIgnoreCase fold only the ASCII letters. Java's locale- and Unicode-aware case mapping is not modelled.
- WebContent.IsWhitespace is Java's `Character.isWhitespace` for one UTF-16 unit, written out for the Unicode 6.3 and later tables of Java 9 onward. Under Java 8 (Unicode 6.2) U+180E MONGOLIAN VOWEL SEPARATOR is whitespace too, and the model does not count it. Supplementary code points are not modelled.
- WebContent.WebContentHandler.StartElement is split into three helper methods (label, push, value), in the same order as the source's single method body.
- A `get(null)` on a description table reads as "absent", which is what a HashMap does. Tables that reject null keys are not modelled.

## Findings

| source | as written | input that shows it | evidently intended | confidence | as-written member | corrected member |
|---|---|---|---|---|---|---|
| mobile/src/main/java/me/parviainen/wheeelaccessibility/treebuilding/RowColumnTreeBuilder.java:147 | `mapOfNodes.put(-left, node)` replaces a node already filed under the same row and left edge. The replaced node is neither added to the tree nor recycled. | two single-action nodes with equal top, bottom and left edge | the displaced node is recycled, so every node is recycled exactly once | not executed | RowColumnTreeBuilder.GetMapOfNodesByXYCoordinateAsWritten, RowColumnTreeBuilder.OverwrittenNodeIsNeverReleased, RowColumnTreeBuilder.AddViewHierarchyToTreeAsWritten | RowColumnTreeBuilder.GetMapOfNodesByXYCoordinate, RowColumnTreeBuilder.GroupAccounting |
