# Graph handler of the AutoSizeComments editor plugin, in Dafny

AutoSizeComments is a plugin for a node-graph editor. It resizes comment
boxes to fit the nodes under them and keeps track of which nodes belong to
which comment. Its graph handler reacts to three editor notifications:

- **graph changed**: a single node was added. When the node has pins, the
  first comment on its graph has a widget with an owner panel, and that
  panel's selection is not empty, the handler defers auto-insertion to the
  next tick. A later comment's widget is never consulted.
- **object transacted**: an undo/redo or a finalized transaction on a node.
  The handler defers a re-fit of the comments that hold the node.
- **object saved**: a graph was saved. The handler updates the size-cache entry of every
  comment on it. It sets one cache flush for the next tick, and a pending-save flag
  keeps it from setting a second one before that flush runs.

The handler also keeps a registry from the graphs it is bound to to the
handles of the graph-changed handlers it registered.

The project has three modules:

- `Host` (host.dfy): the editor state the handler reads and changes. Class
  `Editor` holds each live graph with its comment nodes in graph order, the live
  nodes with their pins and linked nodes, and the plugin's comment widgets.
  A comment is a value `Comment(id, members)` identified by its node id.
  `Editor.Valid()` says that no comment appears twice in a graph.
- `InsertPolicy` (policy.dfy): the auto-insert policy as functions on
  values. It has the filter of linked nodes down to the last selected node, the
  comments that contain a node, the order-keeping intersection, and joining a
  node to the containing comments. `AutoInsertResult` gives the whole effect per
  insert style. Lemmas characterise each style outright.
- `Handler` (handler.dfy): class `GraphHandler` with the pending-save flag,
  the graph-handle registry, the queue of callbacks set for the next tick
  (`timers`), and the ordered record of calls made into the size cache, the
  comment widgets and the graphs (`calls`). `Valid()` says that a cache flush
  is queued exactly when the flag is set, and then only one. Every
  notification handler and `RunNextTimer` keep this invariant.
  `SaveSizeCache` on its own restores it exactly when no flush is left in
  the queue, which holds when `RunNextTimer` has just taken that flush off.
  `RunNextTimer` runs the first queued callback.

Three details of the code shape what the handler does:

- The selection test at AutoSizeCommentsGraphHandler.cpp line 83 reads
  `!Num() == 1`, which is `(!Num()) == 1`. So only an empty selection is
  rejected, and with several selected items the first one is used. A test
  for exactly one selected item would be `Num() != 1`. See `Handler.CppNot`,
  `Handler.AddNodeRequest` and `Handler.MultipleSelectionAccepted`.
- Both filtered neighbour lists keep only links to the last selected node
  (lines 96-98). So the Surrounded style's "input neighbour" and "output neighbour" are
  the same node, and the intersection is just the comments containing it
  (`InsertPolicy.FilteredNeighboursCoincide`, `InsertPolicy.SurroundedEffect`).
- Line 131 passes the first intersected comment as `NodeToTakeFrom`. So the
  new node joins the comments that hold that comment, not the comment
  itself. `InsertPolicy.SurroundedSkipsSurroundingComment`
  and `InsertPolicy.SurroundedJoinsEnclosingComment` show both outcomes on
  concrete graphs.

## Model

| member | source | states |
|---|---|---|
| `Handler.NewNodeOf` | Source/AutoSizeComments/Private/AutoSizeCommentsGraphHandler.cpp:49-66 | a new node is found exactly when the action mask is the add bit alone, one node is reported and it has a pin; the new node is the owner of that first pin |
| `Handler.CombinedAddIgnored` | Source/AutoSizeComments/Private/AutoSizeCommentsGraphHandler.cpp:49-52 | an action whose mask holds the add bit together with any other bit, such as an add of a node that is also selected, yields no new node |
| `Handler.SelectionPanel` | Source/AutoSizeComments/Private/AutoSizeCommentsGraphHandler.cpp:68-82 | a panel is found exactly when the graph has a comment, its first comment has a widget and that widget has an owner panel |
| `Handler.AddNodeRequest` | Source/AutoSizeComments/Private/AutoSizeCommentsGraphHandler.cpp:47-91 | nothing is requested unless the new node is found; then an auto-insert is requested exactly when a panel is found and its selection is non-empty, and it carries the new node and the first selected item |
| `Handler.CppNot` | Source/AutoSizeComments/Private/AutoSizeCommentsGraphHandler.cpp:83 | C++ `!` on a count gives 1 exactly for 0, else 0 |
| `Handler.MultipleSelectionAccepted` | Source/AutoSizeComments/Private/AutoSizeCommentsGraphHandler.cpp:83-90 | a selection of two or more items is not rejected and its first item is the selected node |
| `Handler.GraphHandler.OnGraphChanged` | Source/AutoSizeComments/Private/AutoSizeCommentsGraphHandler.cpp:47-91 | the timer queue gains exactly the request of `AddNodeRequest`, nothing else changes, and the flush invariant is kept |
| `InsertPolicy.FilterSelected` | Source/AutoSizeComments/Private/AutoSizeCommentsGraphHandler.cpp:96-98 | every kept linked node equals the last selected node, and as many are kept as it occurs in the list (none when the selection is not a node) |
| `InsertPolicy.FilterSelectedIsSubsequence` | Source/AutoSizeComments/Private/AutoSizeCommentsGraphHandler.cpp:96-98 | the filtered list is an order-preserving subsequence of the linked nodes |
| `InsertPolicy.FilteredNeighboursCoincide` | Source/AutoSizeComments/Private/AutoSizeCommentsGraphHandler.cpp:117-122 | when both filtered lists have one element, both are exactly the selected node |
| `InsertPolicy.Containing` | Source/AutoSizeComments/Private/AutoSizeCommentsGraphHandler.cpp:104-106 | the containing comments are exactly the comments whose members hold the node |
| `InsertPolicy.ContainingIsSubsequence` | Source/AutoSizeComments/Private/AutoSizeCommentsGraphHandler.cpp:119-122 | the containing comments come in graph order |
| `InsertPolicy.Intersect` | Source/AutoSizeComments/Private/AutoSizeCommentsGraphHandler.cpp:124-127 | an element is kept exactly when it is in both lists |
| `InsertPolicy.IntersectIsSubsequence` | Source/AutoSizeComments/Private/AutoSizeCommentsGraphHandler.cpp:124-127 | the kept elements are in A's order |
| `InsertPolicy.IntersectAppend` | Source/AutoSizeComments/Private/AutoSizeCommentsGraphHandler.cpp:124-127 | removing elements not in B works element by element over a concatenation |
| `InsertPolicy.IntersectAllIn` | Source/AutoSizeComments/Private/AutoSizeCommentsGraphHandler.cpp:124-127 | intersecting with a list that holds every element of A leaves A as it is |
| `Handler.RemoveAllNotIn` | Source/AutoSizeComments/Private/AutoSizeCommentsGraphHandler.cpp:124-127 | the in-place removal leaves in the array's prefix exactly the intersection of its old contents with B |
| `InsertPolicy.Absorb` | Source/AutoSizeComments/Private/AutoSizeCommentsGraphHandler.cpp:102-111 | the comment list keeps its length and identities; each comment gains the node exactly when it held the node taken from, and loses nothing |
| `InsertPolicy.AbsorbIdempotent` | Source/AutoSizeComments/Private/AutoSizeCommentsGraphHandler.cpp:137-145 | taking from the same node twice does what taking once does |
| `InsertPolicy.MarkedContaining` | Source/AutoSizeComments/Private/AutoSizeCommentsGraphHandler.cpp:106-110 | with unique comment identities, adding the node under each containing comment in turn is the same as `Absorb` |
| `Host.Editor.AddNodeUnderComment` | Source/AutoSizeComments/Private/AutoSizeCommentsGraphHandler.cpp:109 | the named comment gains the node, every other comment and graph is unchanged |
| `Handler.TakeCommentNode` | Source/AutoSizeComments/Private/AutoSizeCommentsGraphHandler.cpp:102-111 | the graph's comment list becomes `Absorb` of the old list; other graphs are unchanged |
| `InsertPolicy.AutoInsertResult` | Source/AutoSizeComments/Private/AutoSizeCommentsGraphHandler.cpp:93-147 | in every style comments keep their order and identities and can only gain the new node; the Off style changes nothing |
| `InsertPolicy.SurroundedEffect` | Source/AutoSizeComments/Private/AutoSizeCommentsGraphHandler.cpp:115-134 | in the Surrounded style a comment gains the new node exactly when the selected node is linked once on each side and the comment holds the first comment containing the selected node |
| `InsertPolicy.AlwaysEffect` | Source/AutoSizeComments/Private/AutoSizeCommentsGraphHandler.cpp:135-146 | in the Always style a comment gains the new node exactly when the selected node is linked once on the output or once on the input side and the comment holds it |
| `InsertPolicy.SurroundedSkipsSurroundingComment` | Source/AutoSizeComments/Private/AutoSizeCommentsGraphHandler.cpp:129-131 | a comment around the selected node, itself in no comment, does not receive the new node |
| `InsertPolicy.SurroundedJoinsEnclosingComment` | Source/AutoSizeComments/Private/AutoSizeCommentsGraphHandler.cpp:131 | the new node joins the comment that holds the first containing comment, not that comment |
| `InsertPolicy.AlwaysJoinsOverlappingComments` | Source/AutoSizeComments/Private/AutoSizeCommentsGraphHandler.cpp:137-140 | with an output link to the selected node, the new node joins both overlapping comments that hold it and no other |
| `Handler.GraphHandler.AutoInsertIntoCommentNodes` | Source/AutoSizeComments/Private/AutoSizeCommentsGraphHandler.cpp:93-147 | the new node's graph gets the comment list `AutoInsertResult` gives; no other graph changes |
| `Handler.GraphHandler.BindDelegates` | Source/AutoSizeComments/Private/AutoSizeCommentsGraphHandler.cpp:13-18 | the pending-save flag starts false, with no graph bound and nothing queued |
| `Handler.GraphHandler.UnbindDelegates` | Source/AutoSizeComments/Private/AutoSizeCommentsGraphHandler.cpp:20-34 | the handler of each bound graph that is still live is removed once with its own handle, no other handler is removed, and the registry ends empty |
| `Handler.GraphHandler.BindToGraph` | Source/AutoSizeComments/Private/AutoSizeCommentsGraphHandler.cpp:36-45 | a null or already bound graph leaves the registry unchanged; otherwise exactly one entry, graph to handle, is added |
| `Handler.GraphHandler.OnObjectSaved` | Source/AutoSizeComments/Private/AutoSizeCommentsGraphHandler.cpp:149-170 | saving a graph updates the cache entry of each of its comments in graph order, sets the flag, queues a flush only if the flag was clear, and leaves exactly one flush queued; saving anything else changes nothing |
| `Handler.GraphHandler.SaveSizeCache` | Source/AutoSizeComments/Private/AutoSizeCommentsGraphHandler.cpp:185-189 | the cache is written once and the flag is cleared; the flush invariant then holds exactly when no flush is left queued |
| `Handler.ManySavesOneFlush` | Source/AutoSizeComments/Private/AutoSizeCommentsGraphHandler.cpp:149-189 | two saves of a graph with one comment before the next tick update that comment's cache entry twice, and the one flush they set writes the cache once and leaves the flag clear and nothing queued |
| `Handler.FlushesAppend` | Source/AutoSizeComments/Private/AutoSizeCommentsGraphHandler.cpp:164-168 | queued flushes add up over a concatenation of queues |
| `Handler.TransactedRequest` | Source/AutoSizeComments/Private/AutoSizeCommentsGraphHandler.cpp:172-183 | a re-fit is requested exactly for an undo/redo or finalized event on a node, and it carries that node |
| `Handler.GraphHandler.OnObjectTransacted` | Source/AutoSizeComments/Private/AutoSizeCommentsGraphHandler.cpp:172-183 | the timer queue gains exactly the request of `TransactedRequest` and the flush invariant is kept |
| `Handler.ResizeTargets` | Source/AutoSizeComments/Private/AutoSizeCommentsGraphHandler.cpp:206-219 | a comment is asked to resize exactly when it holds the node and has a widget |
| `Handler.ResizeTargetsIsSubsequence` | Source/AutoSizeComments/Private/AutoSizeCommentsGraphHandler.cpp:209-210 | the resize requests come in graph order |
| `Handler.RefitTargets` | Source/AutoSizeComments/Private/AutoSizeCommentsGraphHandler.cpp:191-219 | nothing is resized when the node or its graph is no longer live; otherwise exactly the comments that hold the node and have a widget |
| `Handler.GraphHandler.UpdateContainingComments` | Source/AutoSizeComments/Private/AutoSizeCommentsGraphHandler.cpp:191-219 | the calls gain exactly one resize request per target of `RefitTargets`, in order |
| `Handler.GraphHandler.RunNextTimer` | Source/AutoSizeComments/Private/AutoSizeCommentsGraphHandler.cpp:90 | the first queued callback, set at line 90, 167 or 181, is removed and run: auto-insert changes only the new node's graph, a flush writes the cache and clears the flag, a re-fit requests the resizes; the flush invariant is kept |

## Left out

- The delegate system is not modelled: `AddRaw`, `RemoveAll` and the graph-changed handler registration. The methods are the handlers; the editor calls them. `BindToGraph` receives the handle the graph returns for the registration as a parameter.
- `Handler.GraphHandler.BindDelegates` is modelled as the handler's construction. The source only clears the flag and leaves the registry as it is, which is empty on a new handler. Calling it again while a flush is queued would let a second flush be queued; the model does not cover that.
- The editor's timer manager is the handler's own `timers` queue. Callbacks set by other parts of the editor are not modelled. The model runs the callbacks first-in, first-out; the source leaves the relative order of the next-tick callbacks set at lines 90, 167 and 181 to the timer manager, and no property proved here depends on it.
- The size cache (`UpdateComment`, `SaveCache`), the widget `ResizeToFit` and `RemoveOnGraphChangedHandler` are not modelled. Their code is not part of this model, and they involve geometry and file I/O. Each call is recorded in `calls`.
- `GetLinkedNodes` is not modelled; a node's linked nodes are given in its `Node` record. `GetContainingCommentNodes` is `InsertPolicy.Containing`: the comments, in graph order, whose members hold the node. `AddNodeUnderComment` is set insertion.
- `GetNodesOfClass` and `GetNodesOfClassEx` both give the graph's comment list in graph order. That list is part of `Editor.graphs`.
- `Cast` and `IsValid` are modelled as datatype tags and map membership. A graph or node is live when it is a key of `Editor.graphs` or `Editor.nodes`. A weak registry key is valid when its graph is live. A selected item that is not a graph node is `None`. A graph-action node set is modelled as the array it yields. The action's bit mask is modelled as the set of its bits; the test at line 49 compares the whole mask with the add bit.
- Null dereferences the source does not guard against are preconditions. `OnGraphChanged` reads the reported node, the owner of its first pin and that owner's graph (`Resolvable`). `OnObjectSaved` reads the comments of a saved graph, so it requires that graph to be live. The deferred `AutoInsertIntoCommentNodes` reads the new node and its graph without a validity check, so `RunNextTimer` requires both to be live when it runs that callback.
- Settings: only the insert style is modelled (`InsertStyle`), passed to `RunNextTimer`. The rest of the settings (styling, colours, padding, presets) is not modelled. The settings class that declares `AutoInsertComment` is not part of this model.
- `Handler.GraphHandler.UnbindDelegates`: removals are stated as a set with no repeats. The order of the map iteration is unspecified in the source.
- The panel and selection manager are modelled only as the list of selected items of the first comment's owner panel.
- A comment object that appears in the comment lists of two graphs is not modelled. Comments are values identified by their node id within one graph's list.
