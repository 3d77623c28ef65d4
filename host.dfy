/** The part of the node-graph editor that the graph handler observes and
    changes: the graphs and the comment nodes on them, the nodes with their
    pins and links, and the comment widgets the plugin keeps per comment.
    Only comment membership is ever changed by the handler. */
module Host {

  type NodeId = nat
  type GraphId = nat
  /** A delegate handle returned when a graph-changed handler is registered. */
  type Handle = nat

  datatype Option<T> = None | Some(value: T)

  /** A pin; its owning node is the node it belongs to. */
  datatype Pin = Pin(owningNode: NodeId)

  /** A graph node: the graph it lives on, its pins, and the nodes it is
      linked to through its input and its output pins, in pin order. */
  datatype Node = Node(graph: GraphId, pins: seq<Pin>, linkedInput: seq<NodeId>, linkedOutput: seq<NodeId>)

  /** A comment node: its own node identity and the set of nodes under it. */
  datatype Comment = Comment(id: NodeId, members: set<NodeId>)

  /** The graph panel a comment widget belongs to, with the items of its
      selection; an item is None when it is not a graph node. */
  datatype Panel = Panel(selectedNodes: seq<Option<NodeId>>)

  /** The plugin's widget for a comment node; ownerPanel is None when the
      widget has no owning panel. */
  datatype CommentWidget = CommentWidget(ownerPanel: Option<Panel>)

  /** No comment node appears twice in a graph's comment list. */
  ghost predicate UniqueIds(cs: seq<Comment>)
  {
    forall i, j :: 0 <= i < j < |cs| ==> cs[i].id != cs[j].id
  }

  /** The identities of a comment list, in order. */
  function Ids(cs: seq<Comment>): (r: seq<NodeId>)
    ensures |r| == |cs|
    ensures forall i :: 0 <= i < |cs| ==> r[i] == cs[i].id
  {
    if cs == [] then [] else [cs[0].id] + Ids(cs[1..])
  }

  /** The comment list after `node` was put under the comment `comment`. */
  function AddUnder(cs: seq<Comment>, comment: NodeId, node: NodeId): seq<Comment>
  {
    seq(|cs|, i requires 0 <= i < |cs| =>
      if cs[i].id == comment then cs[i].(members := cs[i].members + {node}) else cs[i])
  }

  /** The editor state the handler works on. `graphs` maps every live graph
      to its comment nodes in graph order; a graph that is not a key has been
      destroyed. `nodes` holds the live nodes. `widgets` maps a comment node
      to the plugin's widget for it, when one exists. */
  class Editor {
    var graphs: map<GraphId, seq<Comment>>
    var nodes: map<NodeId, Node>
    var widgets: map<NodeId, CommentWidget>

    ghost predicate Valid()
      reads this
    {
      forall g :: g in graphs ==> UniqueIds(graphs[g])
    }

    constructor (graphs: map<GraphId, seq<Comment>>, nodes: map<NodeId, Node>, widgets: map<NodeId, CommentWidget>)
      ensures this.graphs == graphs && this.nodes == nodes && this.widgets == widgets
    {
      this.graphs := graphs;
      this.nodes := nodes;
      this.widgets := widgets;
    }

    /** Puts `node` under the comment `comment` of graph `g`: set insertion
        into that comment's members; nothing else changes. */
    method AddNodeUnderComment(g: GraphId, comment: NodeId, node: NodeId)
      requires Valid() && g in graphs
      modifies this`graphs
      ensures Valid()
      ensures graphs == old(graphs)[g := AddUnder(old(graphs[g]), comment, node)]
    {
      graphs := graphs[g := AddUnder(graphs[g], comment, node)];
    }
  }
}
