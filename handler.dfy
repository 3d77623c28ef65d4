/** The graph handler of the comment-sizing plugin: it filters the editor's
    graph-changed, object-saved and object-transacted notifications, defers
    follow-up work to the next tick, keeps the size-cache flush coalesced
    through a pending-save flag, and keeps a registry of the graphs it has
    bound to. The editor's timer for the next tick is the `timers` queue, run
    one callback at a time by RunNextTimer; calls into services whose code is
    not modelled (the size cache, comment widgets, graph handler removal) are
    recorded, in order, in `calls`. */
module Handler {
  import opened Host
  import opened InsertPolicy

  /** A callback set for the next tick. */
  datatype Deferred =
    | AutoInsert(newNode: NodeId, selected: Option<NodeId>)
    | FlushSizeCache
    | RefitContaining(node: NodeId)

  /** A call made into a service outside the handler. */
  datatype Effect =
    | CacheUpdated(comment: NodeId)
    | CacheSaved
    | ResizeRequested(comment: NodeId)
    | GraphHandlerRemoved(graph: GraphId, handle: Handle)

  /** The bits of the editor's graph edit action mask; the default action
      is the empty mask. */
  datatype ActionFlag = AddNode | SelectNode | RemoveNode | EditNode

  /** A graph edit action: the set bits of its action mask and the nodes it
      reports, as the array of the reported node set. */
  datatype GraphAction = GraphAction(flags: set<ActionFlag>, nodes: seq<NodeId>)

  /** The kinds of transaction event on an object. */
  datatype TransactionEvent = UndoRedo | Finalized | Snapshot

  /** An object the editor reports as saved or transacted: a graph, a graph
      node (comment nodes included), or anything else. */
  datatype EditorObject = GraphObject(graph: GraphId) | NodeObject(node: NodeId) | OtherObject

  function OptionToSeq(o: Option<Deferred>): seq<Deferred>
  {
    if o.Some? then [o.value] else []
  }

  /** The number of cache flushes waiting in a queue. */
  function Flushes(q: seq<Deferred>): nat
  {
    if q == [] then 0 else (if q[0] == FlushSizeCache then 1 else 0) + Flushes(q[1..])
  }

  lemma {:induction false} FlushesAppend(a: seq<Deferred>, b: seq<Deferred>)
    ensures Flushes(a + b) == Flushes(a) + Flushes(b)
  {
    if a != [] {
      assert (a + b)[1..] == a[1..] + b;
      FlushesAppend(a[1..], b);
    } else {
      assert a + b == b;
    }
  }

  // ---------------------------------------------------------------------
  // The add-node filter

  /** What the add-node filter dereferences must exist: when one node is
      reported added, that node, the owner of its first pin (if any) and that
      owner's graph. */
  ghost predicate Resolvable(action: GraphAction, nodes: map<NodeId, Node>, graphs: map<GraphId, seq<Comment>>)
  {
    action.flags == {AddNode} && |action.nodes| == 1 ==>
      action.nodes[0] in nodes &&
      (|nodes[action.nodes[0]].pins| > 0 ==>
        nodes[action.nodes[0]].pins[0].owningNode in nodes &&
        nodes[nodes[action.nodes[0]].pins[0].owningNode].graph in graphs)
  }

  /** The new node of an add-node action: the owner of the first pin of the
      single reported node. */
  function NewNodeOf(action: GraphAction, nodes: map<NodeId, Node>): (r: Option<NodeId>)
    requires action.flags == {AddNode} && |action.nodes| == 1 ==> action.nodes[0] in nodes
    ensures r.Some? <==> action.flags == {AddNode} && |action.nodes| == 1 && |nodes[action.nodes[0]].pins| > 0
    ensures r.Some? ==> r.value == nodes[action.nodes[0]].pins[0].owningNode
  {
    if action.flags != {AddNode} then None
    else if |action.nodes| != 1 then None
    else if |nodes[action.nodes[0]].pins| == 0 then None
    else Some(nodes[action.nodes[0]].pins[0].owningNode)
  }

  /** An add reported together with any other bit, such as the select bit
      set when the new node is also selected, is not an add-node action. */
  lemma CombinedAddIgnored(action: GraphAction, nodes: map<NodeId, Node>, other: ActionFlag)
    requires AddNode in action.flags && other in action.flags && other != AddNode
    ensures NewNodeOf(action, nodes).None?
  {
    assert other !in {AddNode};
  }

  /** C++ logical negation of an integer: 1 for 0, else 0. */
  function CppNot(x: int): (r: int)
    ensures r == 1 <==> x == 0
    ensures r == 0 || r == 1
  {
    if x == 0 then 1 else 0
  }

  /** The panel the add-node filter reads the selection from: the owner panel
      of the widget of the first comment of graph `g`. */
  function SelectionPanel(comments: seq<Comment>, widgets: map<NodeId, CommentWidget>): (r: Option<Panel>)
    ensures r.Some? <==> |comments| > 0 && comments[0].id in widgets && widgets[comments[0].id].ownerPanel.Some?
    ensures r.Some? ==> r == widgets[comments[0].id].ownerPanel
  {
    if |comments| == 0 then None
    else if comments[0].id !in widgets then None
    else widgets[comments[0].id].ownerPanel
  }

  /** The callback the add-node filter sets for the next tick, if any. The
      selection test is `!Num() == 1`, which compares the negated count with
      1: it rejects only an empty selection, and with several selected items
      the first one is used. */
  function AddNodeRequest(action: GraphAction, nodes: map<NodeId, Node>, graphs: map<GraphId, seq<Comment>>, widgets: map<NodeId, CommentWidget>): (r: Option<Deferred>)
    requires Resolvable(action, nodes, graphs)
    ensures NewNodeOf(action, nodes).None? ==> r.None?
    ensures NewNodeOf(action, nodes).Some? ==>
      var newNode := NewNodeOf(action, nodes).value;
      var panel := SelectionPanel(graphs[nodes[newNode].graph], widgets);
      (r.Some? <==> panel.Some? && |panel.value.selectedNodes| > 0) &&
      (r.Some? ==> r.value == AutoInsert(newNode, panel.value.selectedNodes[0]))
  {
    match NewNodeOf(action, nodes)
    case None => None
    case Some(newNode) =>
      match SelectionPanel(graphs[nodes[newNode].graph], widgets)
      case None => None
      case Some(panel) =>
        if CppNot(|panel.selectedNodes|) == 1 then None
        else Some(AutoInsert(newNode, panel.selectedNodes[0]))
  }

  /** A selection of two or more items passes the filter. */
  lemma MultipleSelectionAccepted(action: GraphAction, nodes: map<NodeId, Node>, graphs: map<GraphId, seq<Comment>>, widgets: map<NodeId, CommentWidget>, panel: Panel)
    requires Resolvable(action, nodes, graphs)
    requires NewNodeOf(action, nodes).Some?
    requires SelectionPanel(graphs[nodes[NewNodeOf(action, nodes).value].graph], widgets) == Some(panel)
    requires |panel.selectedNodes| >= 2
    ensures AddNodeRequest(action, nodes, graphs, widgets) == Some(AutoInsert(NewNodeOf(action, nodes).value, panel.selectedNodes[0]))
  {
  }

  // ---------------------------------------------------------------------
  // The transaction filter and the re-fit pass

  /** The callback the transaction filter sets for the next tick, if any. */
  function TransactedRequest(obj: EditorObject, event: TransactionEvent): (r: Option<Deferred>)
    ensures r.Some? <==> (event == UndoRedo || event == Finalized) && obj.NodeObject?
    ensures r.Some? ==> r.value == RefitContaining(obj.node)
  {
    if event != UndoRedo && event != Finalized then None
    else if obj.NodeObject? then Some(RefitContaining(obj.node))
    else None
  }

  /** The comments, in graph order, that hold `node` and have a widget. */
  function ResizeTargets(comments: seq<Comment>, widgets: map<NodeId, CommentWidget>, node: NodeId): (r: seq<NodeId>)
    ensures forall i :: 0 <= i < |comments| && node in comments[i].members && comments[i].id in widgets ==> comments[i].id in r
    ensures forall c :: c in r ==> c in widgets && exists i :: 0 <= i < |comments| && comments[i].id == c && node in comments[i].members
  {
    if comments == [] then []
    else
      var rest := ResizeTargets(comments[1..], widgets, node);
      assert forall c :: c in rest ==> exists i :: 1 <= i < |comments| && comments[i].id == c && node in comments[i].members by {
        forall c | c in rest ensures exists i :: 1 <= i < |comments| && comments[i].id == c && node in comments[i].members {
          var j :| 0 <= j < |comments[1..]| && comments[1..][j].id == c && node in comments[1..][j].members;
          assert comments[j + 1] == comments[1..][j];
        }
      }
      (if node in comments[0].members && comments[0].id in widgets then [comments[0].id] else []) + rest
  }

  lemma {:induction false} ResizeTargetsIsSubsequence(comments: seq<Comment>, widgets: map<NodeId, CommentWidget>, node: NodeId)
    ensures IsSubsequence(ResizeTargets(comments, widgets, node), Ids(comments))
  {
    if comments != [] {
      ResizeTargetsIsSubsequence(comments[1..], widgets, node);
      var rest := ResizeTargets(comments[1..], widgets, node);
      assert Ids(comments)[1..] == Ids(comments[1..]);
      if node in comments[0].members && comments[0].id in widgets {
        assert ResizeTargets(comments, widgets, node) == [comments[0].id] + rest;
        assert ([comments[0].id] + rest)[1..] == rest;
      } else {
        assert ResizeTargets(comments, widgets, node) == rest;
      }
    }
  }

  lemma {:induction false} ResizeTargetsAppend(s: seq<Comment>, t: seq<Comment>, widgets: map<NodeId, CommentWidget>, node: NodeId)
    ensures ResizeTargets(s + t, widgets, node) == ResizeTargets(s, widgets, node) + ResizeTargets(t, widgets, node)
  {
    if s != [] {
      assert (s + t)[1..] == s[1..] + t;
      ResizeTargetsAppend(s[1..], t, widgets, node);
    } else {
      assert s + t == t;
    }
  }

  lemma ResizeTargetsSnoc(comments: seq<Comment>, i: nat, widgets: map<NodeId, CommentWidget>, node: NodeId)
    requires i < |comments|
    ensures ResizeTargets(comments[..i + 1], widgets, node) ==
      ResizeTargets(comments[..i], widgets, node) +
      (if node in comments[i].members && comments[i].id in widgets then [comments[i].id] else [])
  {
    assert comments[..i + 1] == comments[..i] + [comments[i]];
    ResizeTargetsAppend(comments[..i], [comments[i]], widgets, node);
    assert [comments[i]][1..] == [];
  }

  /** The comments the re-fit pass asks to resize: none when the node or its
      graph is no longer live, otherwise the comments of its graph that hold
      it and have a widget. */
  function RefitTargets(node: NodeId, nodes: map<NodeId, Node>, graphs: map<GraphId, seq<Comment>>, widgets: map<NodeId, CommentWidget>): (r: seq<NodeId>)
    ensures node !in nodes ==> r == []
    ensures node in nodes && nodes[node].graph !in graphs ==> r == []
    ensures node in nodes && nodes[node].graph in graphs ==>
      var cs := graphs[nodes[node].graph];
      forall c :: c in r <==> c in widgets && (exists i :: 0 <= i < |cs| && cs[i].id == c && node in cs[i].members)
  {
    if node !in nodes then []
    else if nodes[node].graph !in graphs then []
    else ResizeTargets(graphs[nodes[node].graph], widgets, node)
  }

  function ResizeCalls(ids: seq<NodeId>): seq<Effect>
  {
    seq(|ids|, i requires 0 <= i < |ids| => ResizeRequested(ids[i]))
  }

  lemma ResizeCallsSnoc(ids: seq<NodeId>, id: NodeId)
    ensures ResizeCalls(ids + [id]) == ResizeCalls(ids) + [ResizeRequested(id)]
  {
  }

  function CacheUpdateCalls(comments: seq<Comment>): seq<Effect>
  {
    seq(|comments|, i requires 0 <= i < |comments| => CacheUpdated(comments[i].id))
  }

  // ---------------------------------------------------------------------
  // Imperative parts

  /** Removes, in place, every element of `a[..]` that `b` does not contain;
      the elements left are `a[..n]`. */
  method RemoveAllNotIn(a: array<NodeId>, b: seq<NodeId>) returns (n: nat)
    modifies a
    ensures n <= a.Length
    ensures a[..n] == Intersect(old(a[..]), b)
  {
    ghost var orig := a[..];
    n := 0;
    var i := 0;
    while i < a.Length
      invariant n <= i <= a.Length
      invariant a[..n] == Intersect(orig[..i], b)
      invariant forall k :: i <= k < a.Length ==> a[k] == orig[k]
    {
      var x := a[i];
      ghost var kept := a[..n];
      if x in b {
        a[n] := x;
        assert a[..n + 1] == kept + [x];
        n := n + 1;
      }
      assert orig[..i + 1] == orig[..i] + [x];
      assert [x][1..] == [];
      IntersectAppend(orig[..i], [x], b);
      i := i + 1;
    }
    assert orig[..a.Length] == orig;
  }

  /** Puts `node` under every comment of graph `g` that contains `from`. */
  method TakeCommentNode(ed: Editor, g: GraphId, node: NodeId, from: NodeId)
    requires ed.Valid() && g in ed.graphs
    modifies ed`graphs
    ensures ed.Valid()
    ensures ed.graphs == old(ed.graphs)[g := Absorb(old(ed.graphs[g]), from, node)]
  {
    ghost var comments := ed.graphs[g];
    var containing := Containing(ed.graphs[g], from);
    MarkedNone(comments, node);
    for i := 0 to |containing|
      invariant ed.Valid() && g in ed.graphs
      invariant ed.graphs == old(ed.graphs)[g := Marked(comments, containing[..i], node)]
    {
      ed.AddNodeUnderComment(g, containing[i], node);
      MarkedStep(comments, containing[..i], containing[i], node);
      assert containing[..i + 1] == containing[..i] + [containing[i]];
    }
    assert containing[..|containing|] == containing;
    MarkedContaining(comments, from, node);
  }

  class GraphHandler {
    var pendingSave: bool
    var graphHandles: map<GraphId, Handle>
    var timers: seq<Deferred>
    var calls: seq<Effect>

    /** A cache flush is waiting exactly when the pending-save flag is set,
        and then exactly one is waiting. */
    ghost predicate Valid()
      reads this
    {
      Flushes(timers) == if pendingSave then 1 else 0
    }

    /** Binding the handler: the pending-save flag starts cleared, with no
        graph bound and nothing deferred. */
    constructor BindDelegates()
      ensures Valid()
      ensures !pendingSave && graphHandles == map[] && timers == [] && calls == []
    {
      pendingSave := false;
      graphHandles := map[];
      timers := [];
      calls := [];
    }

    /** Removes the graph-changed handler of every bound graph that is still
        live, then empties the registry. */
    method UnbindDelegates(ed: Editor)
      requires Valid()
      modifies this`graphHandles, this`calls
      ensures Valid() && graphHandles == map[]
      ensures |calls| >= |old(calls)| && calls[..|old(calls)|] == old(calls)
      ensures forall e :: e in calls[|old(calls)|..] ==>
        e.GraphHandlerRemoved? && e.graph in old(graphHandles) && e.graph in ed.graphs && e.handle == old(graphHandles)[e.graph]
      ensures forall g :: g in old(graphHandles) && g in ed.graphs ==>
        GraphHandlerRemoved(g, old(graphHandles)[g]) in calls[|old(calls)|..]
      ensures forall i, j :: |old(calls)| <= i < j < |calls| ==> calls[i] != calls[j]
    {
      var start := |calls|;
      var keys := graphHandles.Keys;
      ghost var done: set<GraphId> := {};
      while keys != {}
        invariant keys <= graphHandles.Keys && done == graphHandles.Keys - keys
        invariant graphHandles == old(graphHandles)
        invariant |calls| >= start && calls[..start] == old(calls)
        invariant forall e :: e in calls[start..] ==>
          e.GraphHandlerRemoved? && e.graph in done && e.graph in ed.graphs && e.handle == graphHandles[e.graph]
        invariant forall g :: g in done && g in ed.graphs ==> GraphHandlerRemoved(g, graphHandles[g]) in calls[start..]
        invariant forall i, j :: start <= i < j < |calls| ==> calls[i] != calls[j]
        decreases keys
      {
        var g :| g in keys;
        if g in ed.graphs {
          assert GraphHandlerRemoved(g, graphHandles[g]) !in calls[start..];
          assert (calls + [GraphHandlerRemoved(g, graphHandles[g])])[start..] == calls[start..] + [GraphHandlerRemoved(g, graphHandles[g])];
          calls := calls + [GraphHandlerRemoved(g, graphHandles[g])];
        }
        keys := keys - {g};
        done := done + {g};
      }
      graphHandles := map[];
    }

    /** Registers the handler on a graph; a null graph and a graph already
        bound are ignored. `handle` is the handle the graph returns for the
        registration. */
    method BindToGraph(graph: Option<GraphId>, handle: Handle)
      requires Valid()
      modifies this`graphHandles
      ensures Valid()
      ensures graph.None? ==> graphHandles == old(graphHandles)
      ensures graph.Some? && graph.value in old(graphHandles) ==> graphHandles == old(graphHandles)
      ensures graph.Some? && graph.value !in old(graphHandles) ==>
        graphHandles == old(graphHandles)[graph.value := handle] && |graphHandles| == |old(graphHandles)| + 1
      ensures graph.Some? ==> graph.value in graphHandles
    {
      if graph.None? || graph.value in graphHandles {
        return;
      }
      graphHandles := graphHandles[graph.value := handle];
    }

    /** The graph-changed notification: when a single node with pins was
        added, the first comment on its graph has a widget with an owner panel, and
        the selection is not empty, auto-insertion of that node is deferred
        to the next tick. */
    method OnGraphChanged(action: GraphAction, ed: Editor)
      requires Valid() && Resolvable(action, ed.nodes, ed.graphs)
      modifies this`timers
      ensures Valid()
      ensures timers == old(timers) + OptionToSeq(AddNodeRequest(action, ed.nodes, ed.graphs, ed.widgets))
    {
      if action.flags != {AddNode} {
        return;
      }
      if |action.nodes| != 1 {
        return;
      }
      var constNewNode := ed.nodes[action.nodes[0]];
      if |constNewNode.pins| == 0 {
        return;
      }
      var newNode := constNewNode.pins[0].owningNode;
      var comments := ed.graphs[ed.nodes[newNode].graph];
      if |comments| == 0 {
        return;
      }
      if comments[0].id !in ed.widgets {
        return;
      }
      var ownerPanel := ed.widgets[comments[0].id].ownerPanel;
      if ownerPanel.None? || CppNot(|ownerPanel.value.selectedNodes|) == 1 {
        return;
      }
      var selectedNode := ownerPanel.value.selectedNodes[0];
      FlushesAppend(timers, [AutoInsert(newNode, selectedNode)]);
      timers := timers + [AutoInsert(newNode, selectedNode)];
    }

    /** Deferred auto-insertion of `newNode` under the comments chosen by the
        insert style. The node and its graph are not checked for validity by
        the callback, so both must still be live when it runs. */
    method AutoInsertIntoCommentNodes(ed: Editor, newNode: NodeId, lastSelected: Option<NodeId>, style: InsertStyle)
      requires ed.Valid()
      requires newNode in ed.nodes && ed.nodes[newNode].graph in ed.graphs
      modifies ed`graphs
      ensures ed.Valid()
      ensures ed.graphs == old(ed.graphs)[ed.nodes[newNode].graph :=
        AutoInsertResult(style, ed.nodes[newNode], newNode, lastSelected, old(ed.graphs[ed.nodes[newNode].graph]))]
    {
      var g := ed.nodes[newNode].graph;
      ghost var comments := ed.graphs[g];
      var linkedInput := FilterSelected(ed.nodes[newNode].linkedInput, lastSelected);
      var linkedOutput := FilterSelected(ed.nodes[newNode].linkedOutput, lastSelected);
      if style == Surrounded {
        if |linkedInput| == 1 && |linkedOutput| == 1 {
          var commentNodes := ed.graphs[g];
          var containingA := Containing(commentNodes, linkedOutput[0]);
          var containingB := Containing(commentNodes, linkedInput[0]);
          var a := new NodeId[|containingA|](i requires 0 <= i < |containingA| => containingA[i]);
          assert a[..] == containingA;
          var n := RemoveAllNotIn(a, containingB);
          if n > 0 {
            assert a[..n][0] == a[0];
            TakeCommentNode(ed, g, newNode, a[0]);
          } else {
            assert ed.graphs == old(ed.graphs)[g := comments];
          }
        } else {
          assert ed.graphs == old(ed.graphs)[g := comments];
        }
      } else if style == Always {
        if |linkedOutput| == 1 {
          TakeCommentNode(ed, g, newNode, linkedOutput[0]);
        }
        if |linkedInput| == 1 {
          TakeCommentNode(ed, g, newNode, linkedInput[0]);
        }
        assert ed.graphs == old(ed.graphs)[g := AutoInsertResult(style, ed.nodes[newNode], newNode, lastSelected, comments)];
      } else {
        assert ed.graphs == old(ed.graphs)[g := comments];
      }
    }

    /** The object-saved notification: saving a graph updates the cache entry
        of each of its comments, in graph order, and sets one flush for the
        next tick unless one is already pending. */
    method OnObjectSaved(obj: EditorObject, ed: Editor)
      requires Valid()
      requires obj.GraphObject? ==> obj.graph in ed.graphs
      modifies this`calls, this`pendingSave, this`timers
      ensures Valid()
      ensures !obj.GraphObject? ==>
        calls == old(calls) && pendingSave == old(pendingSave) && timers == old(timers)
      ensures obj.GraphObject? ==>
        calls == old(calls) + CacheUpdateCalls(ed.graphs[obj.graph]) && pendingSave &&
        timers == old(timers) + (if old(pendingSave) then [] else [FlushSizeCache])
      ensures obj.GraphObject? ==> Flushes(timers) == 1
    {
      if obj.GraphObject? {
        var comments := ed.graphs[obj.graph];
        for i := 0 to |comments|
          invariant calls == old(calls) + CacheUpdateCalls(comments[..i])
          invariant timers == old(timers) && pendingSave == old(pendingSave)
        {
          assert CacheUpdateCalls(comments[..i + 1]) == CacheUpdateCalls(comments[..i]) + [CacheUpdated(comments[i].id)];
          calls := calls + [CacheUpdated(comments[i].id)];
        }
        assert comments[..|comments|] == comments;
        if !pendingSave {
          pendingSave := true;
          FlushesAppend(timers, [FlushSizeCache]);
          timers := timers + [FlushSizeCache];
        } else {
          assert old(timers) + [] == old(timers);
        }
      }
    }

    /** The object-transacted notification: an undo/redo or a finalized
        transaction on a graph node defers the re-fit of its comments. */
    method OnObjectTransacted(obj: EditorObject, event: TransactionEvent)
      requires Valid()
      modifies this`timers
      ensures Valid()
      ensures timers == old(timers) + OptionToSeq(TransactedRequest(obj, event))
    {
      if event != UndoRedo && event != Finalized {
        return;
      }
      if obj.NodeObject? {
        FlushesAppend(timers, [RefitContaining(obj.node)]);
        timers := timers + [RefitContaining(obj.node)];
      }
    }

    /** The deferred flush: writes the size cache and clears the flag. Run
        once its own flush is off the queue, it restores the invariant. */
    method SaveSizeCache()
      modifies this`calls, this`pendingSave
      ensures calls == old(calls) + [CacheSaved] && !pendingSave
      ensures Valid() <==> Flushes(timers) == 0
    {
      calls := calls + [CacheSaved];
      pendingSave := false;
    }

    /** The deferred re-fit: asks every comment of the node's graph that holds
        the node, and has a widget, to resize, in graph order; nothing when
        the node or its graph is no longer live. */
    method UpdateContainingComments(ed: Editor, node: NodeId)
      modifies this`calls
      ensures calls == old(calls) + ResizeCalls(RefitTargets(node, ed.nodes, ed.graphs, ed.widgets))
    {
      if node !in ed.nodes {
        return;
      }
      var g := ed.nodes[node].graph;
      if g !in ed.graphs {
        return;
      }
      var comments := ed.graphs[g];
      for i := 0 to |comments|
        invariant calls == old(calls) + ResizeCalls(ResizeTargets(comments[..i], ed.widgets, node))
      {
        ResizeTargetsSnoc(comments, i, ed.widgets, node);
        if node in comments[i].members {
          if comments[i].id in ed.widgets {
            ResizeCallsSnoc(ResizeTargets(comments[..i], ed.widgets, node), comments[i].id);
            calls := calls + [ResizeRequested(comments[i].id)];
          }
        }
      }
      assert comments[..|comments|] == comments;
    }

    /** Runs the first callback set for the next tick, if there is one. */
    method RunNextTimer(ed: Editor, style: InsertStyle)
      requires Valid() && ed.Valid()
      requires timers != [] && timers[0].AutoInsert? ==>
        timers[0].newNode in ed.nodes && ed.nodes[timers[0].newNode].graph in ed.graphs
      modifies this`timers, this`calls, this`pendingSave, ed`graphs
      ensures Valid() && ed.Valid()
      ensures timers == if old(timers) == [] then [] else old(timers)[1..]
      ensures old(timers) == [] ==>
        calls == old(calls) && pendingSave == old(pendingSave) && ed.graphs == old(ed.graphs)
      ensures old(timers) != [] && old(timers)[0].AutoInsert? ==>
        var d := old(timers)[0];
        var g := ed.nodes[d.newNode].graph;
        calls == old(calls) && pendingSave == old(pendingSave) &&
        ed.graphs == old(ed.graphs)[g := AutoInsertResult(style, ed.nodes[d.newNode], d.newNode, d.selected, old(ed.graphs[g]))]
      ensures old(timers) != [] && old(timers)[0] == FlushSizeCache ==>
        calls == old(calls) + [CacheSaved] && !pendingSave && ed.graphs == old(ed.graphs)
      ensures old(timers) != [] && old(timers)[0].RefitContaining? ==>
        calls == old(calls) + ResizeCalls(RefitTargets(old(timers)[0].node, ed.nodes, ed.graphs, ed.widgets)) &&
        pendingSave == old(pendingSave) && ed.graphs == old(ed.graphs)
    {
      if timers == [] {
        return;
      }
      var next := timers[0];
      timers := timers[1..];
      match next
      case AutoInsert(newNode, selected) =>
        AutoInsertIntoCommentNodes(ed, newNode, selected, style);
      case FlushSizeCache =>
        SaveSizeCache();
      case RefitContaining(node) =>
        UpdateContainingComments(ed, node);
    }
  }

  /** Two saves of the same graph before the next tick: each updates the
      cache entry of the graph's comment, but only one flush is set, and
      running it writes the cache once and leaves nothing queued. */
  method ManySavesOneFlush() returns (h: GraphHandler)
    ensures h.calls == [CacheUpdated(1), CacheUpdated(1), CacheSaved]
    ensures h.timers == [] && !h.pendingSave
  {
    var ed := new Editor(map[0 := [Comment(1, {})]], map[], map[]);
    h := new GraphHandler.BindDelegates();
    h.OnObjectSaved(GraphObject(0), ed);
    h.OnObjectSaved(GraphObject(0), ed);
    h.RunNextTimer(ed, Off);
  }
}
