/**
 * What each plugin command does to the canvas, as a function from the
 * snapshot before to the snapshot after (and the node record the command
 * returns). The methods of module Utils and Plugin are proved to produce
 * exactly these; the lemmas here say what the results mean: where the new
 * node goes, how the sibling column is laid out, which node navigation picks.
 */
module Commands {
  import opened Model
  import opened Sorting
  import opened Layout
  import opened Placement
  import opened Navigation
  import opened Host

  /** What a command leaves on the canvas, and the node record it returns (None for `undefined`). */
  datatype Outcome = Outcome(after: Snapshot, result: Option<Node>)

  // ---------------------------------------------------------------- appending

  /** Appending a node with a fresh id keeps a snapshot valid; lookups of old ids answer as before. */
  lemma AppendNodeValid(s: Snapshot, n: Node)
    requires Valid(s) && !Has(s.nodes, n.id)
    ensures Valid(s.(nodes := s.nodes + [n]))
    ensures forall id :: Has(s.nodes + [n], id) <==> Has(s.nodes, id) || id == n.id
    ensures Has(s.nodes + [n], n.id) && NodeOf(s.nodes + [n], n.id) == n
    ensures forall id :: Has(s.nodes, id) ==> NodeOf(s.nodes + [n], id) == NodeOf(s.nodes, id)
  {
    var ns := s.nodes + [n];
    forall id ensures Has(ns, id) <==> Has(s.nodes, id) || id == n.id {
      HasAppend(s.nodes, n, id);
    }
    forall i, j | 0 <= i < j < |ns| ensures ns[i].id != ns[j].id {
      assert ns[i] == s.nodes[i];
      if j < |s.nodes| {
        assert ns[j] == s.nodes[j];
      }
    }
    NodeOfAt(ns, |s.nodes|);
    forall id | Has(s.nodes, id) ensures NodeOf(ns, id) == NodeOf(s.nodes, id) {
      var k := IndexOf(s.nodes, id);
      assert ns[k] == s.nodes[k];
      NodeOfAt(ns, k);
      NodeOfAt(s.nodes, k);
    }
  }

  /** The record addNode builds: text for a text node, path and (when non-empty) subpath for a file node. */
  function NewNode(id: string, x: real, y: real, w: real, h: real, t: NodeType, content: string, subpath: string): Node {
    var c := if t == TextType then Text(content) else File(content, if subpath == "" then None else Some(subpath));
    Node(id, x, y, w, h, c, "", false)
  }

  /** The edge createEdge and createChildFileNode add: from the parent's right side to the child's left side. */
  function ChildLink(edgeId: string, pid: string, cid: string): Edge {
    Edge(edgeId, pid, Right, cid, Left, "")
  }

  // ---------------------------------------------------------------- childNode

  /**
   * childNode: a new empty text node of the parent's size, 200 to the right of the parent at height y,
   * linked from the parent and selected alone. Without data addNode and addEdge do nothing and the
   * result is undefined.
   */
  function ChildStep(s: Snapshot, hasData: bool, parent: Node, y: real, nodeId: string, edgeId: string): (o: Outcome)
    requires Valid(s) && Has(s.nodes, parent.id) && !Has(s.nodes, nodeId)
    ensures Valid(o.after)
    ensures !hasData ==> o == Outcome(s, None)
    ensures hasData ==> o.result.Some? && o.after.nodes == s.nodes + [o.result.value]
    ensures hasData ==> o.after.edges == s.edges + [ChildLink(edgeId, parent.id, nodeId)] && o.after.selection == [nodeId]
    ensures hasData ==> var n := o.result.value;
      && n.id == nodeId && n.content == Text("") && !n.editing
      && n.x - (parent.x + parent.width) == ChildGap && n.y == y
      && n.width == parent.width && n.height == parent.height
  {
    if !hasData then Outcome(s, None)
    else
      var n := NewNode(nodeId, ChildX(parent), y, parent.width, parent.height, TextType, "", "");
      AppendNodeValid(s, n);
      Outcome(Snapshot(s.nodes + [n], s.edges + [ChildLink(edgeId, parent.id, nodeId)], [nodeId]), Some(n))
  }

  /**
   * createChildFileNode: a new file node showing `path` at `subpath`, 200 to the right of the parent at
   * height y, as wide as the parent and 0.6 times as tall, linked from the parent; the selection is kept.
   */
  function FileChildStep(s: Snapshot, hasData: bool, parent: Node, path: string, subpath: string, y: real, nodeId: string, edgeId: string): (o: Outcome)
    requires Valid(s) && Has(s.nodes, parent.id) && !Has(s.nodes, nodeId)
    ensures Valid(o.after)
    ensures !hasData ==> o == Outcome(s, None)
    ensures hasData ==> o.result.Some? && o.after.nodes == s.nodes + [o.result.value]
    ensures hasData ==> o.after.edges == s.edges + [ChildLink(edgeId, parent.id, nodeId)] && o.after.selection == s.selection
    ensures hasData ==> var n := o.result.value;
      && n.id == nodeId && !n.editing
      && n.content == File(path, if subpath == "" then None else Some(subpath))
      && n.x - (parent.x + parent.width) == ChildGap && n.y == y
      && n.width == parent.width && n.height == parent.height * HeadingScale
  {
    if !hasData then Outcome(s, None)
    else
      var n := NewNode(nodeId, ChildX(parent), y, parent.width, parent.height * HeadingScale, FileType, path, subpath);
      AppendNodeValid(s, n);
      Outcome(Snapshot(s.nodes + [n], s.edges + [ChildLink(edgeId, parent.id, nodeId)], s.selection), Some(n))
  }

  // ---------------------------------------------------------------- createSiblingNode

  /** createSiblingNode goes ahead: one node selected, not being edited (unless `ignored`), with an incoming edge. */
  predicate SiblingReady(s: Snapshot, ignored: bool)
    requires Valid(s)
  {
    && |s.selection| == 1
    && (ignored || !NodeOf(s.nodes, s.selection[0]).editing)
    && |IncomingEdges(s.edges, s.selection[0])| > 0
  }

  /** The parent of a node: the source of its first incoming edge. */
  function ParentOf(s: Snapshot, id: string): (p: Node)
    requires Valid(s) && |IncomingEdges(s.edges, id)| > 0
    ensures p in s.nodes && p.id == IncomingEdges(s.edges, id)[0].fromNode
  {
    assert IncomingEdges(s.edges, id)[0] in s.edges;
    NodeOf(s.nodes, IncomingEdges(s.edges, id)[0].fromNode)
  }

  /** A parent's children: the live nodes at the end of its left-side child edges, in edge-list order. */
  function Children(s: Snapshot, pid: string): (r: seq<Node>)
    requires Valid(s)
    ensures |r| == |ChildEdges(s.edges, pid)|
    ensures forall j :: 0 <= j < |r| ==> r[j] in s.nodes
  {
    TargetNodes(s.nodes, ChildEdges(s.edges, pid))
  }

  /** Every member of a sorted column is a node of the snapshot, so the column can be relaid. */
  lemma SortedIn(s: Snapshot, kids: seq<Node>, c: Coord)
    requires Valid(s) && forall j :: 0 <= j < |kids| ==> kids[j] in s.nodes
    ensures forall j :: 0 <= j < |SortBy(kids, c)| ==> SortBy(kids, c)[j] in s.nodes
    ensures AllIn(s.nodes, IdsOf(SortBy(kids, c)))
  {
    var t := SortBy(kids, c);
    forall j | 0 <= j < |t| ensures t[j] in s.nodes {
      assert t[j] in multiset(kids);
    }
    ColumnSpan(s.nodes, t, 0);
  }

  /** The column loop applied to a snapshot: `column` moved to common x with first top y0. */
  function Relaid(s: Snapshot, column: seq<Node>, x: real, y0: real): (r: Snapshot)
    requires Valid(s) && forall j :: 0 <= j < |column| ==> column[j] in s.nodes
    ensures Valid(r) && r.edges == s.edges && r.selection == s.selection
  {
    ColumnSpan(s.nodes, column, 0);
    SameIdsKeepValid(s, Restacked(s.nodes, IdsOf(column), x, y0));
    s.(nodes := Restacked(s.nodes, IdsOf(column), x, y0))
  }

  /**
   * createSiblingNode: a new child of the selection's parent below the selection; then, when the parent's
   * children (sorted by y) are at least two and the first two share an x, they are relaid as a column at
   * the selection's x centred on the parent's midpoint. With fewer than two children the result is
   * undefined although the node was added.
   */
  function CreateSibling(s: Snapshot, hasData: bool, ignored: bool, nodeId: string, edgeId: string): (o: Outcome)
    requires Valid(s) && !Has(s.nodes, nodeId)
    ensures Valid(o.after)
    ensures !SiblingReady(s, ignored) ==> o == Outcome(s, None)
  {
    if !SiblingReady(s, ignored) then Outcome(s, None)
    else
      var sel := NodeOf(s.nodes, s.selection[0]);
      var parent := ParentOf(s, sel.id);
      var step := ChildStep(s, hasData, parent, SiblingY(sel), nodeId, edgeId);
      SiblingLayout(step.after, sel.x, parent, step.result)
  }

  /**
   * The second half of createSiblingNode, once the child step has left `after`: the parent's children
   * sorted by y; fewer than two give no result, two or more give `result`, relaid as a column at x when
   * the first two share an x. Edges and selection are left alone.
   */
  function SiblingLayout(after: Snapshot, x: real, parent: Node, result: Option<Node>): (o: Outcome)
    requires Valid(after)
    ensures Valid(o.after) && o.after.edges == after.edges && o.after.selection == after.selection
    ensures o.result == if |ChildEdges(after.edges, parent.id)| >= 2 then result else None
    ensures |o.after.nodes| == |after.nodes|
    ensures forall k :: 0 <= k < |after.nodes| ==> o.after.nodes[k] == after.nodes[k].(x := o.after.nodes[k].x, y := o.after.nodes[k].y)
  {
    var kids := Children(after, parent.id);
    var column := SortBy(kids, Y);
    SortedIn(after, kids, Y);
    SumHeightsSort(kids, Y);
    if |column| <= 1 then Outcome(after, None)
    else if column[0].x == column[1].x then
      var y0 := SiblingColumnTop(parent, SumHeights(kids));
      RestackedOnlyMoves(after.nodes, IdsOf(column), x, y0);
      Outcome(Relaid(after, column, x, y0), result)
    else Outcome(after, result)
  }

  lemma NodeOfMember(ns: seq<Node>, n: Node)
    requires UniqueIds(ns) && n in ns
    ensures Has(ns, n.id) && NodeOf(ns, n.id) == n
  {
    var k :| 0 <= k < |ns| && ns[k] == n;
    NodeOfAt(ns, k);
  }

  /** The i-th member of a relaid column of distinct nodes of `ns` ends at (x, y0 + Offset(i)), size and content kept. */
  lemma RelaidEntry(ns: seq<Node>, column: seq<Node>, x: real, y0: real, i: nat)
    requires UniqueIds(ns) && (forall j :: 0 <= j < |column| ==> column[j] in ns) && Distinct(IdsOf(column))
    requires i < |column|
    ensures AllIn(ns, IdsOf(column))
    ensures var r := Restacked(ns, IdsOf(column), x, y0);
      Has(r, column[i].id) && NodeOf(r, column[i].id) == column[i].(x := x, y := y0 + Offset(ns, IdsOf(column), i))
  {
    assert AllIn(ns, IdsOf(column)) by {
      ColumnSpan(ns, column, 0);
    }
    assert NodeOf(ns, column[i].id) == column[i] by {
      NodeOfMember(ns, column[i]);
    }
    EntryAt(ns, IdsOf(column), x, y0, i, column[i]);
  }

  /** ColumnEntry, for an entry `n` known to be the node of the i-th id. */
  lemma EntryAt(ns: seq<Node>, ids: seq<string>, x: real, y0: real, i: nat, n: Node)
    requires AllIn(ns, ids) && Distinct(ids) && i < |ids| && ids[i] == n.id && NodeOf(ns, n.id) == n
    ensures var r := Restacked(ns, ids, x, y0);
      Has(r, n.id) && NodeOf(r, n.id) == n.(x := x, y := y0 + Offset(ns, ids, i))
  {
    ColumnEntry(ns, ids, x, y0, i);
  }

  /** Consecutive members of a relaid column of distinct nodes are 20 apart: the next starts 20 below the bottom of this one. */
  lemma RelaidSpacing(ns: seq<Node>, column: seq<Node>, x: real, y0: real, i: nat)
    requires UniqueIds(ns) && (forall j :: 0 <= j < |column| ==> column[j] in ns) && Distinct(IdsOf(column))
    requires i + 1 < |column|
    ensures AllIn(ns, IdsOf(column))
    ensures var r := Restacked(ns, IdsOf(column), x, y0);
      Has(r, column[i].id) && Has(r, column[i + 1].id) &&
      NodeOf(r, column[i + 1].id).y == NodeOf(r, column[i].id).y + NodeOf(r, column[i].id).height + Gap
  {
    var ids := IdsOf(column);
    ColumnSpan(ns, column, 0);
    ColumnStacked(ns, ids, x, y0, i);
    assert ids[i] == column[i].id && ids[i + 1] == column[i + 1].id;
  }

  /** A relaid column of snapshot nodes spans Σ (h + 20) over its members. */
  lemma RelaidSpan(ns: seq<Node>, column: seq<Node>)
    requires UniqueIds(ns) && (forall j :: 0 <= j < |column| ==> column[j] in ns)
    ensures AllIn(ns, IdsOf(column)) && Offset(ns, IdsOf(column), |column|) == SumHeights(column)
  {
    ColumnSpan(ns, column, |column|);
    assert column[..|column|] == column;
  }

  /** The parts of createSiblingNode, named for the lemmas below. */
  function SiblingParent(s: Snapshot): (p: Node)
    requires Valid(s) && SiblingReady(s, true)
  {
    ParentOf(s, s.selection[0])
  }

  function SiblingColumn(s: Snapshot, hasData: bool, nodeId: string, edgeId: string): seq<Node>
    requires Valid(s) && !Has(s.nodes, nodeId) && SiblingReady(s, true)
  {
    var sel := NodeOf(s.nodes, s.selection[0]);
    var step := ChildStep(s, hasData, SiblingParent(s), SiblingY(sel), nodeId, edgeId);
    SortBy(Children(step.after, SiblingParent(s).id), Y)
  }

  /**
   * createSiblingNode adds one child to the selection's parent, linked from the parent's right side to
   * the new node's left side, and leaves the new node selected alone.
   */
  lemma SiblingLinks(s: Snapshot, ignored: bool, nodeId: string, edgeId: string)
    requires Valid(s) && !Has(s.nodes, nodeId) && SiblingReady(s, ignored)
    ensures var o := CreateSibling(s, true, ignored, nodeId, edgeId);
      && o.after.edges == s.edges + [ChildLink(edgeId, SiblingParent(s).id, nodeId)]
      && o.after.selection == [nodeId]
  {
  }

  /** After the child step, createSiblingNode at most moves nodes. */
  lemma SiblingOnlyMoves(s: Snapshot, ignored: bool, nodeId: string, edgeId: string)
    requires Valid(s) && !Has(s.nodes, nodeId) && SiblingReady(s, ignored)
    ensures var r := CreateSibling(s, true, ignored, nodeId, edgeId).after.nodes;
      var sel := NodeOf(s.nodes, s.selection[0]);
      var ns := ChildStep(s, true, SiblingParent(s), SiblingY(sel), nodeId, edgeId).after.nodes;
      |r| == |ns| && forall k :: 0 <= k < |r| ==> r[k] == ns[k].(x := r[k].x, y := r[k].y)
  {
    var sel := NodeOf(s.nodes, s.selection[0]);
    var p := SiblingParent(s);
    var step := ChildStep(s, true, p, SiblingY(sel), nodeId, edgeId);
    assert CreateSibling(s, true, ignored, nodeId, edgeId) == SiblingLayout(step.after, sel.x, p, step.result);
  }

  /**
   * The new sibling takes the place after every node already there, which keep their places in the
   * list; it has the parent's size and empty text.
   */
  lemma SiblingNewNode(s: Snapshot, ignored: bool, nodeId: string, edgeId: string)
    requires Valid(s) && !Has(s.nodes, nodeId) && SiblingReady(s, ignored)
    ensures var r := CreateSibling(s, true, ignored, nodeId, edgeId).after.nodes;
      var p := SiblingParent(s);
      && |r| == |s.nodes| + 1
      && (forall k :: 0 <= k < |s.nodes| ==> r[k].id == s.nodes[k].id)
      && r[|s.nodes|].id == nodeId && r[|s.nodes|].content == Text("")
      && r[|s.nodes|].width == p.width && r[|s.nodes|].height == p.height
  {
    var sel := NodeOf(s.nodes, s.selection[0]);
    var p := SiblingParent(s);
    var step := ChildStep(s, true, p, SiblingY(sel), nodeId, edgeId);
    var o := SiblingLayout(step.after, sel.x, p, step.result);
    assert CreateSibling(s, true, ignored, nodeId, edgeId) == o;
    KeepsIds(s.nodes, step.result.value, o.after.nodes);
  }

  /** A list that only moves the nodes of `ns + [n]` carries the ids of `ns`, then `n` with its size and content. */
  lemma KeepsIds(ns: seq<Node>, n: Node, r: seq<Node>)
    requires |r| == |ns| + 1 && forall k :: 0 <= k < |r| ==> r[k] == (ns + [n])[k].(x := r[k].x, y := r[k].y)
    ensures forall k :: 0 <= k < |ns| ==> r[k].id == ns[k].id
    ensures r[|ns|].id == n.id && r[|ns|].content == n.content && r[|ns|].width == n.width && r[|ns|].height == n.height
  {
    forall k | 0 <= k < |ns| ensures r[k].id == ns[k].id {
      assert (ns + [n])[k] == ns[k];
    }
    assert (ns + [n])[|ns|] == n;
  }

  /**
   * createSiblingNode returns the new node exactly when the parent then has at least two children; the
   * record returned lies 200 right of the parent and 110 below the selection's midpoint.
   */
  lemma SiblingResult(s: Snapshot, ignored: bool, nodeId: string, edgeId: string)
    requires Valid(s) && !Has(s.nodes, nodeId) && SiblingReady(s, ignored)
    ensures var o := CreateSibling(s, true, ignored, nodeId, edgeId);
      var sel := NodeOf(s.nodes, s.selection[0]);
      var p := SiblingParent(s);
      && (o.result.Some? <==> |ChildEdges(o.after.edges, p.id)| >= 2)
      && (o.result.Some? ==>
            o.result.value.id == nodeId && o.result.value.x == p.x + p.width + ChildGap
            && o.result.value.y == sel.y + sel.height / 2.0 + SiblingDrop)
  {
  }

  /**
   * When the parent's children are fewer than two or the first two (by y) are not aligned on x, nothing
   * moves: the new node is simply appended 200 right of the parent and 110 below the selection's midpoint.
   */
  lemma SiblingWithoutRelayout(s: Snapshot, ignored: bool, nodeId: string, edgeId: string)
    requires Valid(s) && !Has(s.nodes, nodeId) && SiblingReady(s, ignored)
    requires var column := SiblingColumn(s, true, nodeId, edgeId); !(|column| >= 2 && column[0].x == column[1].x)
    ensures var o := CreateSibling(s, true, ignored, nodeId, edgeId);
      var sel := NodeOf(s.nodes, s.selection[0]);
      var p := SiblingParent(s);
      && |o.after.nodes| == |s.nodes| + 1 && o.after.nodes[..|s.nodes|] == s.nodes
      && o.after.nodes[|s.nodes|].x == p.x + p.width + ChildGap
      && o.after.nodes[|s.nodes|].y == sel.y + sel.height / 2.0 + SiblingDrop
  {
    var sel := NodeOf(s.nodes, s.selection[0]);
    var p := SiblingParent(s);
    var step := ChildStep(s, true, p, SiblingY(sel), nodeId, edgeId);
    assert CreateSibling(s, true, ignored, nodeId, edgeId).after == step.after;
    assert step.after.nodes[..|s.nodes|] == s.nodes;
  }

  /** The relayout condition of createSiblingNode: at least two children, the first two (by y) sharing an x. */
  predicate SiblingRelays(s: Snapshot, nodeId: string, edgeId: string)
    requires Valid(s) && !Has(s.nodes, nodeId) && SiblingReady(s, true)
  {
    var column := SiblingColumn(s, true, nodeId, edgeId);
    |column| >= 2 && column[0].x == column[1].x && Distinct(IdsOf(column))
  }

  /** When the column is relaid, its nodes are those of the child step moved by the column loop. */
  lemma SiblingRelaid(s: Snapshot, ignored: bool, nodeId: string, edgeId: string)
    requires Valid(s) && !Has(s.nodes, nodeId) && SiblingReady(s, ignored) && SiblingRelays(s, nodeId, edgeId)
    ensures var sel := NodeOf(s.nodes, s.selection[0]);
      var p := SiblingParent(s);
      var step := ChildStep(s, true, p, SiblingY(sel), nodeId, edgeId);
      var column := SiblingColumn(s, true, nodeId, edgeId);
      && (forall j :: 0 <= j < |column| ==> column[j] in step.after.nodes)
      && AllIn(step.after.nodes, IdsOf(column))
      && CreateSibling(s, true, ignored, nodeId, edgeId).after.nodes
         == Restacked(step.after.nodes, IdsOf(column), sel.x, SiblingColumnTop(p, SumHeights(column)))
  {
    var sel := NodeOf(s.nodes, s.selection[0]);
    var p := SiblingParent(s);
    var step := ChildStep(s, true, p, SiblingY(sel), nodeId, edgeId);
    var kids := Children(step.after, p.id);
    SortedIn(step.after, kids, Y);
    SumHeightsSort(kids, Y);
  }

  /**
   * When the sibling column is relaid (at least two children, the first two by y sharing an x, no child
   * reached twice), the i-th child by y moves to the selection's x, and the next one starts 20 below it.
   */
  lemma SiblingColumnEntry(s: Snapshot, ignored: bool, nodeId: string, edgeId: string, i: nat)
    requires Valid(s) && !Has(s.nodes, nodeId) && SiblingReady(s, ignored) && SiblingRelays(s, nodeId, edgeId)
    requires i < |SiblingColumn(s, true, nodeId, edgeId)|
    ensures var r := CreateSibling(s, true, ignored, nodeId, edgeId).after.nodes;
      var column := SiblingColumn(s, true, nodeId, edgeId);
      && Has(r, column[i].id)
      && NodeOf(r, column[i].id).x == NodeOf(s.nodes, s.selection[0]).x
      && NodeOf(r, column[i].id).height == column[i].height
      && (i + 1 < |column| ==>
            Has(r, column[i + 1].id) && NodeOf(r, column[i + 1].id).y == NodeOf(r, column[i].id).y + NodeOf(r, column[i].id).height + Gap)
  {
    var sel := NodeOf(s.nodes, s.selection[0]);
    var p := SiblingParent(s);
    var step := ChildStep(s, true, p, SiblingY(sel), nodeId, edgeId);
    var column := SiblingColumn(s, true, nodeId, edgeId);
    var y0 := SiblingColumnTop(p, SumHeights(column));
    SiblingRelaid(s, ignored, nodeId, edgeId);
    RelaidEntry(step.after.nodes, column, sel.x, y0, i);
    if i + 1 < |column| {
      RelaidSpacing(step.after.nodes, column, sel.x, y0, i);
    }
  }

  /** The relaid sibling column is centred on the parent: half of it lies above the parent's midpoint. */
  lemma SiblingColumnCentred(s: Snapshot, ignored: bool, nodeId: string, edgeId: string)
    requires Valid(s) && !Has(s.nodes, nodeId) && SiblingReady(s, ignored) && SiblingRelays(s, nodeId, edgeId)
    ensures var r := CreateSibling(s, true, ignored, nodeId, edgeId).after.nodes;
      var column := SiblingColumn(s, true, nodeId, edgeId);
      var p := SiblingParent(s);
      && Has(r, column[0].id)
      && NodeOf(r, column[0].id).y + SumHeights(column) / 2.0 == p.y + p.height / 2.0
  {
    var sel := NodeOf(s.nodes, s.selection[0]);
    var p := SiblingParent(s);
    var step := ChildStep(s, true, p, SiblingY(sel), nodeId, edgeId);
    var column := SiblingColumn(s, true, nodeId, edgeId);
    var y0 := SiblingColumnTop(p, SumHeights(column));
    SiblingRelaid(s, ignored, nodeId, edgeId);
    RelaidEntry(step.after.nodes, column, sel.x, y0, 0);
  }

  /** Nodes that are not children of the parent do not move. */
  lemma SiblingOthersStay(s: Snapshot, ignored: bool, nodeId: string, edgeId: string, k: nat)
    requires Valid(s) && !Has(s.nodes, nodeId) && SiblingReady(s, ignored) && SiblingRelays(s, nodeId, edgeId)
    requires k < |s.nodes| && s.nodes[k].id !in IdsOf(SiblingColumn(s, true, nodeId, edgeId))
    ensures CreateSibling(s, true, ignored, nodeId, edgeId).after.nodes[k] == s.nodes[k]
  {
    var sel := NodeOf(s.nodes, s.selection[0]);
    var p := SiblingParent(s);
    var step := ChildStep(s, true, p, SiblingY(sel), nodeId, edgeId);
    SiblingRelaid(s, ignored, nodeId, edgeId);
    assert step.after.nodes[k] == s.nodes[k];
  }

  // ---------------------------------------------------------------- createChildNode

  /**
   * The nodes siblingNode sorts: those at the far end of the edges touching the parent that enter one
   * of its children, in edge-list order.
   */
  function ChildEnds(s: Snapshot, pid: string): (nodes: seq<Node>)
    requires Valid(s)
  {
    var all := EdgesInto(EdgesForNode(s.edges, pid), Targets(ChildEdges(s.edges, pid)));
    assert forall j :: 0 <= j < |all| ==> all[j] in all;
    TargetNodes(s.nodes, all)
  }

  /** Every node siblingNode sorts is a child of the parent. */
  lemma ChildEndIsChild(s: Snapshot, pid: string, m: nat) returns (q: nat)
    requires Valid(s) && m < |ChildEnds(s, pid)|
    ensures q < |Children(s, pid)| && Children(s, pid)[q] == ChildEnds(s, pid)[m]
  {
    var prev := ChildEdges(s.edges, pid);
    var all := EdgesInto(EdgesForNode(s.edges, pid), Targets(prev));
    assert all[m] in all;
    var t := Targets(prev);
    q :| 0 <= q < |t| && t[q] == all[m].toNode;
  }

  /** Every child of the parent is among the nodes siblingNode sorts. */
  lemma ChildIsChildEnd(s: Snapshot, pid: string, j: nat) returns (m: nat)
    requires Valid(s) && j < |Children(s, pid)|
    ensures m < |ChildEnds(s, pid)| && ChildEnds(s, pid)[m] == Children(s, pid)[j]
  {
    var prev := ChildEdges(s.edges, pid);
    var all := EdgesInto(EdgesForNode(s.edges, pid), Targets(prev));
    assert prev[j] in prev && Targets(prev)[j] == prev[j].toNode;
    assert prev[j] in all;
    m :| 0 <= m < |all| && all[m] == prev[j];
  }

  /** A parent with a child edge gives siblingNode something to sort. */
  lemma ChildEndsNonEmpty(s: Snapshot, pid: string)
    requires Valid(s) && |ChildEdges(s.edges, pid)| > 0
    ensures |ChildEnds(s, pid)| > 0
  {
    var m := ChildIsChildEnd(s, pid, 0);
  }

  /** siblingNode's choice: of the nodes it sorts by y, the last one. */
  function LowestChild(s: Snapshot, pid: string): (n: Node)
    requires Valid(s) && |ChildEdges(s.edges, pid)| > 0
    ensures n in s.nodes
  {
    var nodes := ChildEnds(s, pid);
    ChildEndsNonEmpty(s, pid);
    SortByLastIsMax(nodes, Y);
    SortBy(nodes, Y)[|nodes| - 1]
  }

  /** The node siblingNode selects is one of the parent's children. */
  lemma LowestChildIsChild(s: Snapshot, pid: string) returns (q: nat)
    requires Valid(s) && |ChildEdges(s.edges, pid)| > 0
    ensures q < |Children(s, pid)| && Children(s, pid)[q] == LowestChild(s, pid)
  {
    var nodes := ChildEnds(s, pid);
    ChildEndsNonEmpty(s, pid);
    SortByLastIsMax(nodes, Y);
    var m :| 0 <= m < |nodes| && nodes[m] == LowestChild(s, pid);
    q := ChildEndIsChild(s, pid, m);
  }

  /** No child of the parent lies lower than the node siblingNode selects. */
  lemma LowestChildIsLowest(s: Snapshot, pid: string, j: nat)
    requires Valid(s) && |ChildEdges(s.edges, pid)| > 0 && j < |Children(s, pid)|
    ensures Children(s, pid)[j].y <= LowestChild(s, pid).y
  {
    var nodes := ChildEnds(s, pid);
    var m := ChildIsChildEnd(s, pid, j);
    SortByLastIsMax(nodes, Y);
    assert Key(nodes[m], Y) <= Key(LowestChild(s, pid), Y);
  }

  /** createChildNode goes ahead: one node selected, not being edited unless `ignored`. */
  predicate ChildReady(s: Snapshot, ignored: bool)
    requires Valid(s)
  {
    |s.selection| == 1 && (ignored || !NodeOf(s.nodes, s.selection[0]).editing)
  }

  /**
   * createChildNode: a first child goes level with the parent's top; otherwise the lowest existing child
   * is selected and createSiblingNode adds the new one below it. Without data the command stops (the
   * source throws on the missing snapshot).
   */
  function CreateChild(s: Snapshot, hasData: bool, ignored: bool, nodeId: string, edgeId: string): (o: Outcome)
    requires Valid(s) && !Has(s.nodes, nodeId)
    ensures Valid(o.after)
    ensures !ChildReady(s, ignored) || !hasData ==> o == Outcome(s, None)
  {
    if !ChildReady(s, ignored) || !hasData then Outcome(s, None)
    else
      var parent := NodeOf(s.nodes, s.selection[0]);
      if |ChildEdges(s.edges, parent.id)| == 0 then ChildStep(s, hasData, parent, parent.y, nodeId, edgeId)
      else
        var last := LowestChild(s, parent.id);
        CreateSibling(s.(selection := [last.id]), hasData, false, nodeId, edgeId)
  }

  /**
   * The first child of a node: an empty text node of the parent's size, 200 right of it and level with
   * its top, linked from the parent's right side to its left side, selected alone and returned.
   */
  lemma CreateFirstChild(s: Snapshot, ignored: bool, nodeId: string, edgeId: string)
    requires Valid(s) && !Has(s.nodes, nodeId) && ChildReady(s, ignored)
    requires |ChildEdges(s.edges, s.selection[0])| == 0
    ensures var o := CreateChild(s, true, ignored, nodeId, edgeId);
      var parent := NodeOf(s.nodes, s.selection[0]);
      && o.result.Some?
      && o.after.nodes == s.nodes + [o.result.value]
      && o.after.edges == s.edges + [ChildLink(edgeId, parent.id, nodeId)]
      && o.after.selection == [nodeId]
      && o.result.value.id == nodeId && o.result.value.content == Text("")
      && o.result.value.x == parent.x + parent.width + ChildGap && o.result.value.y == parent.y
      && o.result.value.width == parent.width && o.result.value.height == parent.height
  {
  }

  /**
   * A further child: the parent's lowest child (LowestChildIsChild, LowestChildIsLowest) is selected and
   * createSiblingNode runs from it without the editing override; that step adds a node exactly when the
   * lowest child is not being edited, since it has an incoming edge.
   */
  lemma NextChildReady(s: Snapshot)
    requires Valid(s) && |s.selection| == 1 && |ChildEdges(s.edges, s.selection[0])| > 0
    ensures var last := LowestChild(s, s.selection[0]);
      var s' := s.(selection := [last.id]);
      Valid(s') && (SiblingReady(s', false) <==> !last.editing)
  {
    var pid := s.selection[0];
    var last := LowestChild(s, pid);
    assert Has(s.nodes, last.id) && NodeOf(s.nodes, last.id) == last by {
      NodeOfMember(s.nodes, last);
    }
    assert |IncomingEdges(s.edges, last.id)| > 0 by {
      var q := LowestChildIsChild(s, pid);
      var es := ChildEdges(s.edges, pid);
      assert es[q] in es;
      assert Children(s, pid)[q] == NodeOf(s.nodes, es[q].toNode);
      IncomingOf(s.edges, es[q]);
    }
  }

  /** An edge of the list is among the incoming edges of its target. */
  lemma IncomingOf(es: seq<Edge>, e: Edge)
    requires e in es
    ensures |IncomingEdges(es, e.toNode)| > 0
  {
    assert e in IncomingEdges(es, e.toNode);
  }

  // ---------------------------------------------------------------- createFloatingNode and navigate

  /** The guard of createFloatingNode and navigate: exactly one node selected, not being edited. */
  predicate SingleIdle(s: Snapshot)
    requires Valid(s)
  {
    |s.selection| == 1 && !NodeOf(s.nodes, s.selection[0]).editing
  }

  /**
   * createFloatingNode: an unlinked empty text node of the selection's size beside it on side `d`,
   * selected alone and put into editing.
   */
  function Floating(s: Snapshot, hasData: bool, d: Side, nodeId: string): (o: Outcome)
    requires Valid(s) && !Has(s.nodes, nodeId)
    ensures Valid(o.after)
    ensures !SingleIdle(s) || !hasData ==> o == Outcome(s, None)
  {
    if !SingleIdle(s) || !hasData then Outcome(s, None)
    else
      var sel := NodeOf(s.nodes, s.selection[0]);
      var p := FloatingPosition(sel, d);
      var n := NewNode(nodeId, p.x, p.y, sel.width, sel.height, TextType, "", "");
      AppendNodeValid(s, n);
      SameIdsKeepValid(s.(nodes := s.nodes + [n]), SetEditing(s.nodes + [n], nodeId));
      Outcome(Snapshot(SetEditing(s.nodes + [n], nodeId), s.edges, [nodeId]), Some(n))
  }

  /**
   * The floating node is appended after the untouched nodes, beside the selection on side `d` without
   * overlapping it, of its size, with no edge added; it ends selected alone and being edited.
   */
  lemma FloatingPlaced(s: Snapshot, d: Side, nodeId: string)
    requires Valid(s) && !Has(s.nodes, nodeId) && SingleIdle(s)
    ensures var o := Floating(s, true, d, nodeId);
      var sel := NodeOf(s.nodes, s.selection[0]);
      var p := FloatingPosition(sel, d);
      && o.result.Some?
      && |o.after.nodes| == |s.nodes| + 1 && o.after.nodes[..|s.nodes|] == s.nodes
      && o.after.nodes[|s.nodes|] == o.result.value.(editing := true)
      && o.result.value.id == nodeId && o.result.value.content == Text("")
      && o.result.value.x == p.x && o.result.value.y == p.y
      && o.result.value.width == sel.width && o.result.value.height == sel.height
      && Apart(o.result.value.x, o.result.value.y, sel.x, sel.y, sel.width, sel.height)
      && o.after.edges == s.edges && o.after.selection == [nodeId]
  {
    var o := Floating(s, true, d, nodeId);
    assert forall k :: 0 <= k < |s.nodes| ==> s.nodes[k].id != nodeId;
    assert o.after.nodes[..|s.nodes|] == s.nodes;
  }

  /**
   * navigate: with one idle node selected, the selection is cleared and the node ChooseNext picks among
   * the viewport nodes `vs` (if any) is selected alone and returned.
   */
  function Navigate(s: Snapshot, d: Side, vs: seq<Node>): (o: Outcome)
    requires Valid(s) && forall j :: 0 <= j < |vs| ==> vs[j] in s.nodes
    ensures Valid(o.after) && o.after.nodes == s.nodes && o.after.edges == s.edges
    ensures !SingleIdle(s) ==> o == Outcome(s, None)
  {
    if !SingleIdle(s) then Outcome(s, None)
    else
      var sel := NodeOf(s.nodes, s.selection[0]);
      match ChooseNext(vs, sel, d)
      case None => Outcome(s.(selection := []), None)
      case Some(n) =>
        ChooseNextBeyond(vs, sel, d);
        assert Has(s.nodes, n.id);
        Outcome(s.(selection := [n.id]), Some(n))
  }

  /**
   * navigate moves the selection to a viewport node strictly beyond the selected one in direction `d`,
   * and clears it exactly when there is no such node.
   */
  lemma NavigateMoves(s: Snapshot, d: Side, vs: seq<Node>)
    requires Valid(s) && (forall j :: 0 <= j < |vs| ==> vs[j] in s.nodes) && SingleIdle(s)
    ensures var o := Navigate(s, d, vs);
      var sel := NodeOf(s.nodes, s.selection[0]);
      && (o.result.None? <==> forall j :: 0 <= j < |vs| ==> !Beyond(vs[j], sel, d))
      && (o.result.None? ==> o.after.selection == [])
      && (o.result.Some? ==>
            o.result.value in vs && Beyond(o.result.value, sel, d) && o.result.value != sel &&
            o.after.selection == [o.result.value.id])
  {
    var sel := NodeOf(s.nodes, s.selection[0]);
    ChooseNextNone(vs, sel, d);
    if ChooseNext(vs, sel, d).Some? {
      ChooseNextBeyond(vs, sel, d);
    }
  }
}
