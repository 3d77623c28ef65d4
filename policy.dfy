/** The auto-insert policy of the graph handler, on values: which linked
    neighbours are considered, which comments contain a node, the
    order-preserving intersection of two comment lists, and the effect of
    auto-inserting a new node under each insert style. */
module InsertPolicy {
  import opened Host

  /** The AutoInsertComment setting. */
  datatype InsertStyle = Off | Surrounded | Always

  /** `s` is `t` with some elements deleted, the rest kept in order. */
  ghost predicate IsSubsequence(s: seq<NodeId>, t: seq<NodeId>)
    decreases |t|
  {
    s == [] ||
    (t != [] && ((s[0] == t[0] && IsSubsequence(s[1..], t[1..])) || IsSubsequence(s, t[1..])))
  }

  /** How many times `x` occurs in `s`. */
  function Occurrences(s: seq<NodeId>, x: NodeId): nat
  {
    if s == [] then 0 else (if s[0] == x then 1 else 0) + Occurrences(s[1..], x)
  }

  // ---------------------------------------------------------------------
  // The linked neighbours that equal the last selected node

  /** The linked nodes equal to the selected node, in link order; a selection
      that is not a graph node (None) equals no linked node. */
  function FilterSelected(linked: seq<NodeId>, selected: Option<NodeId>): (r: seq<NodeId>)
    ensures forall i :: 0 <= i < |r| ==> selected == Some(r[i])
    ensures |r| == if selected.Some? then Occurrences(linked, selected.value) else 0
  {
    if linked == [] then []
    else (if selected == Some(linked[0]) then [linked[0]] else []) + FilterSelected(linked[1..], selected)
  }

  lemma {:induction false} FilterSelectedIsSubsequence(linked: seq<NodeId>, selected: Option<NodeId>)
    ensures IsSubsequence(FilterSelected(linked, selected), linked)
  {
    if linked != [] {
      FilterSelectedIsSubsequence(linked[1..], selected);
      var rest := FilterSelected(linked[1..], selected);
      if selected == Some(linked[0]) {
        assert FilterSelected(linked, selected) == [linked[0]] + rest;
        assert ([linked[0]] + rest)[1..] == rest;
      } else {
        assert FilterSelected(linked, selected) == rest;
      }
    }
  }

  /** When the selected node is linked exactly once on each side, both
      filtered lists hold just that node, so the two "neighbours" of the
      Surrounded style are one and the same node. */
  lemma FilteredNeighboursCoincide(node: Node, selected: Option<NodeId>)
    requires |FilterSelected(node.linkedInput, selected)| == 1
    requires |FilterSelected(node.linkedOutput, selected)| == 1
    ensures selected.Some?
    ensures FilterSelected(node.linkedInput, selected) == FilterSelected(node.linkedOutput, selected) == [selected.value]
  {
    var li := FilterSelected(node.linkedInput, selected);
    var lo := FilterSelected(node.linkedOutput, selected);
    assert selected == Some(li[0]) && selected == Some(lo[0]);
  }

  // ---------------------------------------------------------------------
  // Containing comments and their intersection

  /** The comments, in graph order, whose members contain `node`. */
  function Containing(comments: seq<Comment>, node: NodeId): (r: seq<NodeId>)
    ensures forall i :: 0 <= i < |comments| && node in comments[i].members ==> comments[i].id in r
    ensures forall c :: c in r ==> exists i :: 0 <= i < |comments| && comments[i].id == c && node in comments[i].members
  {
    if comments == [] then []
    else
      var rest := Containing(comments[1..], node);
      assert forall c :: c in rest ==> exists i :: 1 <= i < |comments| && comments[i].id == c && node in comments[i].members by {
        forall c | c in rest ensures exists i :: 1 <= i < |comments| && comments[i].id == c && node in comments[i].members {
          var j :| 0 <= j < |comments[1..]| && comments[1..][j].id == c && node in comments[1..][j].members;
          assert comments[j + 1] == comments[1..][j];
        }
      }
      (if node in comments[0].members then [comments[0].id] else []) + rest
  }

  lemma {:induction false} ContainingIsSubsequence(comments: seq<Comment>, node: NodeId)
    ensures IsSubsequence(Containing(comments, node), Ids(comments))
  {
    if comments != [] {
      ContainingIsSubsequence(comments[1..], node);
      var rest := Containing(comments[1..], node);
      assert Ids(comments)[1..] == Ids(comments[1..]);
      if node in comments[0].members {
        assert Containing(comments, node) == [comments[0].id] + rest;
        assert ([comments[0].id] + rest)[1..] == rest;
      } else {
        assert Containing(comments, node) == rest;
      }
    }
  }

  /** The elements of `a` that are also in `b`, in the order of `a`
      (what is left of `a` after removing every element not in `b`). */
  function Intersect(a: seq<NodeId>, b: seq<NodeId>): (r: seq<NodeId>)
    ensures forall x :: x in r <==> x in a && x in b
  {
    if a == [] then [] else (if a[0] in b then [a[0]] else []) + Intersect(a[1..], b)
  }

  lemma {:induction false} IntersectIsSubsequence(a: seq<NodeId>, b: seq<NodeId>)
    ensures IsSubsequence(Intersect(a, b), a)
  {
    if a != [] {
      IntersectIsSubsequence(a[1..], b);
      var rest := Intersect(a[1..], b);
      if a[0] in b {
        assert Intersect(a, b) == [a[0]] + rest;
        assert ([a[0]] + rest)[1..] == rest;
      } else {
        assert Intersect(a, b) == rest;
      }
    }
  }

  lemma {:induction false} IntersectAppend(s: seq<NodeId>, t: seq<NodeId>, b: seq<NodeId>)
    ensures Intersect(s + t, b) == Intersect(s, b) + Intersect(t, b)
  {
    if s != [] {
      assert (s + t)[1..] == s[1..] + t;
      IntersectAppend(s[1..], t, b);
    } else {
      assert s + t == t;
    }
  }

  /** Intersecting with a list that holds every element changes nothing. */
  lemma {:induction false} IntersectAllIn(a: seq<NodeId>, b: seq<NodeId>)
    requires forall x :: x in a ==> x in b
    ensures Intersect(a, b) == a
  {
    if a != [] {
      IntersectAllIn(a[1..], b);
    }
  }

  // ---------------------------------------------------------------------
  // Taking a comment node: joining every comment that contains a node

  /** The comment list after `node` joined every comment whose members
      contain `from`; membership is tested on the list as it was before. */
  function Absorb(comments: seq<Comment>, from: NodeId, node: NodeId): (r: seq<Comment>)
    ensures |r| == |comments|
    ensures forall i :: 0 <= i < |r| ==>
      r[i].id == comments[i].id &&
      r[i].members == comments[i].members + (if from in comments[i].members then {node} else {})
  {
    if comments == [] then []
    else
      var c := comments[0];
      [if from in c.members then c.(members := c.members + {node}) else c] + Absorb(comments[1..], from, node)
  }

  /** Taking the same comment node twice does what taking it once does. */
  lemma AbsorbIdempotent(comments: seq<Comment>, from: NodeId, node: NodeId)
    ensures Absorb(Absorb(comments, from, node), from, node) == Absorb(comments, from, node)
  {
    var once := Absorb(comments, from, node);
    var twice := Absorb(once, from, node);
    assert forall i :: 0 <= i < |twice| ==> twice[i] == once[i];
  }

  /** The list after `node` was put, one by one, under each comment named in `ids`. */
  function Marked(comments: seq<Comment>, ids: seq<NodeId>, node: NodeId): seq<Comment>
  {
    seq(|comments|, i requires 0 <= i < |comments| =>
      if comments[i].id in ids then comments[i].(members := comments[i].members + {node}) else comments[i])
  }

  lemma MarkedNone(comments: seq<Comment>, node: NodeId)
    ensures Marked(comments, [], node) == comments
  {
    assert forall i :: 0 <= i < |comments| ==> Marked(comments, [], node)[i] == comments[i];
  }

  lemma MarkedStep(comments: seq<Comment>, ids: seq<NodeId>, id: NodeId, node: NodeId)
    ensures AddUnder(Marked(comments, ids, node), id, node) == Marked(comments, ids + [id], node)
  {
    var lhs := AddUnder(Marked(comments, ids, node), id, node);
    var rhs := Marked(comments, ids + [id], node);
    forall i | 0 <= i < |comments| ensures lhs[i] == rhs[i] {
      assert comments[i].id in ids + [id] <==> comments[i].id in ids || comments[i].id == id;
    }
  }

  /** With unique comment identities, putting `node` under each comment that
      contains `from` is the same as Absorb. */
  lemma MarkedContaining(comments: seq<Comment>, from: NodeId, node: NodeId)
    requires UniqueIds(comments)
    ensures Marked(comments, Containing(comments, from), node) == Absorb(comments, from, node)
  {
    var ids := Containing(comments, from);
    var lhs := Marked(comments, ids, node);
    var rhs := Absorb(comments, from, node);
    forall i | 0 <= i < |comments| ensures lhs[i] == rhs[i] {
      if comments[i].id in ids {
        var j :| 0 <= j < |comments| && comments[j].id == comments[i].id && from in comments[j].members;
        assert j == i;
      }
    }
  }

  // ---------------------------------------------------------------------
  // The effect of auto-inserting a new node

  /** The comment list of the new node's graph after auto-insertion, for
      the new node `newNode` (with node record `node`) and the node that was
      selected when it was created. */
  function AutoInsertResult(style: InsertStyle, node: Node, newNode: NodeId, selected: Option<NodeId>, comments: seq<Comment>): (r: seq<Comment>)
    ensures |r| == |comments|
    ensures forall i :: 0 <= i < |r| ==>
      r[i].id == comments[i].id && comments[i].members <= r[i].members <= comments[i].members + {newNode}
    ensures style == Off ==> r == comments
  {
    var linkedInput := FilterSelected(node.linkedInput, selected);
    var linkedOutput := FilterSelected(node.linkedOutput, selected);
    match style
    case Surrounded =>
      if |linkedInput| == 1 && |linkedOutput| == 1 then
        var a := Intersect(Containing(comments, linkedOutput[0]), Containing(comments, linkedInput[0]));
        if |a| > 0 then Absorb(comments, a[0], newNode) else comments
      else comments
    case Always =>
      var afterOutput := if |linkedOutput| == 1 then Absorb(comments, linkedOutput[0], newNode) else comments;
      if |linkedInput| == 1 then Absorb(afterOutput, linkedInput[0], newNode) else afterOutput
    case Off => comments
  }

  /** When the Surrounded style puts the new node under comment `c`: the
      selected node is linked exactly once on the input side and exactly once
      on the output side, some comment contains it, and `c` contains the
      FIRST such comment (the comment itself is the node taken from). */
  ghost predicate SurroundedJoins(node: Node, selected: Option<NodeId>, comments: seq<Comment>, c: Comment)
  {
    && selected.Some?
    && Occurrences(node.linkedInput, selected.value) == 1
    && Occurrences(node.linkedOutput, selected.value) == 1
    && |Containing(comments, selected.value)| > 0
    && Containing(comments, selected.value)[0] in c.members
  }

  lemma SurroundedEffect(node: Node, newNode: NodeId, selected: Option<NodeId>, comments: seq<Comment>)
    ensures var r := AutoInsertResult(Surrounded, node, newNode, selected, comments);
      forall i :: 0 <= i < |comments| ==>
        r[i].members == comments[i].members + (if SurroundedJoins(node, selected, comments, comments[i]) then {newNode} else {})
  {
    var linkedInput := FilterSelected(node.linkedInput, selected);
    var linkedOutput := FilterSelected(node.linkedOutput, selected);
    if |linkedInput| == 1 && |linkedOutput| == 1 {
      FilteredNeighboursCoincide(node, selected);
      var a := Containing(comments, selected.value);
      IntersectAllIn(a, a);
    }
  }

  /** When the Always style puts the new node under comment `c`: the
      selected node is linked exactly once on the output side or exactly once
      on the input side, and `c` contains it. */
  ghost predicate AlwaysJoins(node: Node, selected: Option<NodeId>, c: Comment)
  {
    && selected.Some?
    && (Occurrences(node.linkedOutput, selected.value) == 1 || Occurrences(node.linkedInput, selected.value) == 1)
    && selected.value in c.members
  }

  lemma AlwaysEffect(node: Node, newNode: NodeId, selected: Option<NodeId>, comments: seq<Comment>)
    ensures var r := AutoInsertResult(Always, node, newNode, selected, comments);
      forall i :: 0 <= i < |comments| ==>
        r[i].members == comments[i].members + (if AlwaysJoins(node, selected, comments[i]) then {newNode} else {})
  {
    var linkedInput := FilterSelected(node.linkedInput, selected);
    var linkedOutput := FilterSelected(node.linkedOutput, selected);
    if |linkedInput| == 1 {
      assert selected == Some(linkedInput[0]);
    }
    if |linkedOutput| == 1 {
      assert selected == Some(linkedOutput[0]);
    }
  }

  /** A comment that surrounds the selected node, where no comment contains
      that comment, does not receive the new node in the Surrounded style,
      although the node was spliced between two links of a node it holds. */
  lemma SurroundedSkipsSurroundingComment()
    ensures var node := Node(0, [Pin(5)], [1], [1]);
      var comments := [Comment(10, {1})];
      AutoInsertResult(Surrounded, node, 5, Some(1), comments) == comments
  {
    var comments := [Comment(10, {1})];
    assert Containing(comments, 1) == [10];
    assert Intersect([10], [10]) == [10];
    assert Absorb(comments, 10, 5) == comments;
  }

  /** In the Surrounded style the new node joins the comments that contain
      the first comment around the selected node, not that comment itself. */
  lemma SurroundedJoinsEnclosingComment()
    ensures var node := Node(0, [Pin(5)], [1], [1]);
      var comments := [Comment(10, {1}), Comment(11, {1, 10})];
      AutoInsertResult(Surrounded, node, 5, Some(1), comments) == [Comment(10, {1}), Comment(11, {1, 10, 5})]
  {
    var comments := [Comment(10, {1}), Comment(11, {1, 10})];
    assert Containing(comments, 1) == [10, 11];
    assert Intersect([10, 11], [10, 11]) == [10, 11];
    var r := Absorb(comments, 10, 5);
    assert r[0] == Comment(10, {1});
    assert r[1] == Comment(11, {1, 10, 5});
    assert r == [Comment(10, {1}), Comment(11, {1, 10, 5})];
  }

  /** The Always style with an output link to the selected node and no input
      link puts the new node under every comment that holds the selected
      node, here two overlapping ones. */
  lemma AlwaysJoinsOverlappingComments()
    ensures var node := Node(0, [Pin(5)], [], [1]);
      var comments := [Comment(10, {1}), Comment(11, {1, 2}), Comment(12, {2})];
      AutoInsertResult(Always, node, 5, Some(1), comments) == [Comment(10, {1, 5}), Comment(11, {1, 2, 5}), Comment(12, {2})]
  {
    var comments := [Comment(10, {1}), Comment(11, {1, 2}), Comment(12, {2})];
    assert FilterSelected([1], Some(1)) == [1];
    assert FilterSelected([], Some(1)) == [];
    var r := Absorb(comments, 1, 5);
    assert r[0] == Comment(10, {1, 5});
    assert r[1] == Comment(11, {1, 2, 5});
    assert r[2] == Comment(12, {2});
    assert r == [Comment(10, {1, 5}), Comment(11, {1, 2, 5}), Comment(12, {2})];
  }
}
