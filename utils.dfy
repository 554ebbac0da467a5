/**
 * The plugin's canvas helpers as they run: each method works on the live
 * Host.Canvas one host call at a time, as the plugin does, and is proved to
 * leave the canvas (and to return) exactly what the matching function of
 * module Commands says. Node and edge ids, drawn at random by the plugin, are
 * parameters here.
 */
module Utils {
  import opened Model
  import opened Sorting
  import opened Layout
  import opened Placement
  import opened Navigation
  import opened Host
  import opened Commands

  /**
   * addNode: without a snapshot nothing happens and the result is undefined; otherwise the node record
   * is built and appended to the node list through importData, and returned.
   */
  method AddNode(c: Canvas, id: string, x: real, y: real, w: real, h: real, t: NodeType, content: string, subpath: string)
    returns (r: Option<Node>)
    requires c.Valid() && !Has(c.nodes, id)
    modifies c
    ensures c.Valid() && c.edges == old(c.edges) && c.selection == old(c.selection)
    ensures !c.hasData ==> r.None? && c.nodes == old(c.nodes)
    ensures c.hasData ==> r == Some(NewNode(id, x, y, w, h, t, content, subpath)) && c.nodes == old(c.nodes) + [r.value]
    ensures c.hasData ==> Has(c.nodes, id) && forall k :: Has(old(c.nodes), k) ==> Has(c.nodes, k)
  {
    if !c.hasData {
      return None;
    }
    var n := NewNode(id, x, y, w, h, t, content, subpath);
    AppendNodeValid(c.Snap(), n);
    c.ImportData(c.nodes + [n], c.edges);
    r := Some(n);
  }

  /** addEdge: without a snapshot nothing happens; otherwise an uncoloured edge is appended through importData. */
  method AddEdge(c: Canvas, edgeId: string, fromId: string, fromSide: Side, toId: string, toSide: Side)
    requires c.Valid() && (c.hasData ==> Has(c.nodes, fromId) && Has(c.nodes, toId))
    modifies c
    ensures c.Valid() && c.nodes == old(c.nodes) && c.selection == old(c.selection)
    ensures c.edges == if c.hasData then old(c.edges) + [Edge(edgeId, fromId, fromSide, toId, toSide, "")] else old(c.edges)
  {
    if !c.hasData {
      return;
    }
    var e := Edge(edgeId, fromId, fromSide, toId, toSide, "");
    AppendEdgeValid(c.Snap(), e);
    c.ImportData(c.nodes, c.edges + [e]);
  }

  /** An edge between two nodes of the canvas can be appended. */
  lemma AppendEdgeValid(s: Snapshot, e: Edge)
    requires Valid(s) && Has(s.nodes, e.fromNode) && Has(s.nodes, e.toNode)
    ensures Valid(s.(edges := s.edges + [e]))
  {
    forall f | f in s.edges + [e] ensures Has(s.nodes, f.fromNode) && Has(s.nodes, f.toNode) {
      if f != e {
        assert f in s.edges;
      }
    }
  }

  /** createEdge: an edge from the first node's right side to the second node's left side. */
  method CreateEdge(c: Canvas, fromId: string, toId: string, edgeId: string)
    requires c.Valid() && (c.hasData ==> Has(c.nodes, fromId) && Has(c.nodes, toId))
    modifies c
    ensures c.Valid() && c.nodes == old(c.nodes) && c.selection == old(c.selection)
    ensures c.edges == if c.hasData then old(c.edges) + [ChildLink(edgeId, fromId, toId)] else old(c.edges)
  {
    AddEdge(c, edgeId, fromId, Right, toId, Left);
  }

  /** childNode: add the child, link it from the parent, then select it alone. */
  method ChildNode(c: Canvas, parent: Node, y: real, nodeId: string, edgeId: string) returns (r: Option<Node>)
    requires c.Valid() && Has(c.nodes, parent.id) && !Has(c.nodes, nodeId)
    modifies c
    ensures c.Valid()
    ensures var o := ChildStep(old(c.Snap()), c.hasData, parent, y, nodeId, edgeId);
      c.Snap() == o.after && r == o.result
  {
    var temp := AddNode(c, nodeId, ChildX(parent), y, parent.width, parent.height, TextType, "", "");
    CreateEdge(c, parent.id, nodeId, edgeId);
    if temp.None? {
      return None;
    }
    c.DeselectAll();
    c.SelectOnly(nodeId);
    r := temp;
  }

  /** createChildFileNode: add the file node and the edge from the parent; the selection is left alone. */
  method CreateChildFileNode(c: Canvas, parent: Node, file: string, subpath: string, y: real, nodeId: string, edgeId: string)
    returns (r: Option<Node>)
    requires c.Valid() && Has(c.nodes, parent.id) && !Has(c.nodes, nodeId)
    modifies c
    ensures c.Valid()
    ensures var o := FileChildStep(old(c.Snap()), c.hasData, parent, file, subpath, y, nodeId, edgeId);
      c.Snap() == o.after && r == o.result
  {
    r := AddNode(c, nodeId, ChildX(parent), y, parent.width, parent.height * HeadingScale, FileType, file, subpath);
    AddEdge(c, edgeId, parent.id, Right, nodeId, Left);
  }

  /** The reduce of createSiblingNode and the summing loop of the delete handler: Σ (height + 20). */
  method SumColumn(ns: seq<Node>) returns (total: real)
    ensures total == SumHeights(ns)
  {
    total := 0.0;
    for i := 0 to |ns|
      invariant total == SumHeights(ns[..i])
    {
      assert ns[..i + 1][..i] == ns[..i];
      total := total + ns[i].height + Gap;
    }
    assert ns[..|ns|] == ns;
  }

  /**
   * The moveTo loop shared by createSiblingNode and the delete handler: the first node of the column
   * goes to (x, y0), each later one to x and 20 below the bottom of its (already moved) predecessor.
   */
  method StackColumn(c: Canvas, column: seq<Node>, x: real, y0: real)
    requires c.Valid() && forall j :: 0 <= j < |column| ==> column[j] in c.nodes
    modifies c
    ensures c.Valid() && c.Snap() == Relaid(old(c.Snap()), column, x, y0)
  {
    ghost var s := c.Snap();
    ghost var ids := IdsOf(column);
    ColumnSpan(s.nodes, column, 0);
    StageEnds(s.nodes, ids, x, y0, s.nodes);
    for i := 0 to |column|
      invariant c.Valid() && c.edges == s.edges && c.selection == s.selection
      invariant Stage(s.nodes, ids[..i], x, y0, c.nodes)
    {
      MoveEntry(c, column, x, y0, i, s.nodes);
    }
    StageEnds(s.nodes, ids, x, y0, c.nodes);
  }

  /** One turn of the moveTo loop: the i-th node of the column goes to its place. */
  method MoveEntry(c: Canvas, column: seq<Node>, x: real, y0: real, i: nat, ghost ns: seq<Node>)
    requires c.Valid() && AllIn(ns, IdsOf(column)) && i < |column|
    requires Stage(ns, IdsOf(column)[..i], x, y0, c.nodes)
    modifies c
    ensures c.Valid() && c.edges == old(c.edges) && c.selection == old(c.selection)
    ensures Stage(ns, IdsOf(column)[..i + 1], x, y0, c.nodes)
  {
    ColumnReads(ns, column, x, y0, i, c.nodes);
    var yPos := y0;
    if i > 0 {
      var prev := NodeOf(c.nodes, column[i - 1].id);
      yPos := prev.y + prev.height + Gap;
    }
    ColumnMove(ns, column, x, y0, i, c.nodes, yPos);
    c.MoveTo(column[i].id, x, yPos);
  }

  /** The nodes one turn of the moveTo loop looks up are on the canvas. */
  lemma ColumnReads(ns: seq<Node>, column: seq<Node>, x: real, y0: real, i: nat, cur: seq<Node>)
    requires AllIn(ns, IdsOf(column)) && i < |column| && Stage(ns, IdsOf(column)[..i], x, y0, cur)
    ensures Has(cur, column[i].id) && (i > 0 ==> Has(cur, column[i - 1].id))
  {
    var ids := IdsOf(column);
    assert column[i].id == ids[i];
    StageKeepsIds(ns, ids[..i], x, y0, cur, ids[i]);
    if i > 0 {
      assert column[i - 1].id == ids[i - 1];
      StageKeepsIds(ns, ids[..i], x, y0, cur, ids[i - 1]);
    }
  }

  /**
   * One turn of the moveTo loop, stated without the canvas: moving the i-th node to the top read off its
   * moved predecessor (or to y0 for the first) extends the placed prefix by one.
   */
  lemma ColumnMove(ns: seq<Node>, column: seq<Node>, x: real, y0: real, i: nat, cur: seq<Node>, yPos: real)
    requires AllIn(ns, IdsOf(column)) && i < |column| && Stage(ns, IdsOf(column)[..i], x, y0, cur)
    requires i > 0 ==> Has(cur, column[i - 1].id)
    requires yPos == if i == 0 then y0 else NodeOf(cur, column[i - 1].id).y + NodeOf(cur, column[i - 1].id).height + Gap
    ensures Stage(ns, IdsOf(column)[..i + 1], x, y0, MoveNode(cur, column[i].id, x, yPos))
  {
    var ids := IdsOf(column);
    assert column[i].id == ids[i];
    if i > 0 {
      assert column[i - 1].id == ids[i - 1];
      RestackPrev(ns, ids, x, y0, i, cur);
    }
    assert yPos == y0 + Offset(ns, ids, i);
    RestackStep(ns, ids, x, y0, i, cur, column[i].id, yPos);
  }

  /**
   * The second half of createSiblingNode: sum the parent's children, sort them by y, stop without a
   * result below two, and restack them when the first two share an x.
   */
  method LayOutSiblings(c: Canvas, x: real, parent: Node, result: Option<Node>) returns (r: Option<Node>)
    requires c.Valid()
    modifies c
    ensures c.Valid()
    ensures var o := SiblingLayout(old(c.Snap()), x, parent, result); c.Snap() == o.after && r == o.result
  {
    var kids := Children(c.Snap(), parent.id);
    var total := SumColumn(kids);
    var column := SortBy(kids, Y);
    SortedIn(c.Snap(), kids, Y);
    if |column| <= 1 {
      return None;
    }
    if column[0].x == column[1].x {
      StackColumn(c, column, x, SiblingColumnTop(parent, total));
    }
    r := result;
  }

  /**
   * createSiblingNode: with one selected node (not being edited unless `ignored`) that has an incoming
   * edge, add a child of that edge's source below the selection, then lay the siblings out.
   */
  method CreateSiblingNode(c: Canvas, ignored: bool, nodeId: string, edgeId: string) returns (r: Option<Node>)
    requires c.Valid() && !Has(c.nodes, nodeId)
    modifies c
    ensures c.Valid()
    ensures var o := CreateSibling(old(c.Snap()), c.hasData, ignored, nodeId, edgeId);
      c.Snap() == o.after && r == o.result
  {
    if |c.selection| != 1 {
      return None;
    }
    var sel := NodeOf(c.nodes, c.selection[0]);
    if sel.editing && !ignored {
      return None;
    }
    if |IncomingEdges(c.edges, sel.id)| == 0 {
      return None;
    }
    var parent := ParentOf(c.Snap(), sel.id);
    var newChild := ChildNode(c, parent, SiblingY(sel), nodeId, edgeId);
    r := LayOutSiblings(c, sel.x, parent, newChild);
  }

  /** siblingNode: select the parent's lowest child and run createSiblingNode from it. */
  method SiblingNode(c: Canvas, parent: Node, nodeId: string, edgeId: string) returns (r: Option<Node>)
    requires c.Valid() && Has(c.nodes, parent.id) && |ChildEdges(c.edges, parent.id)| > 0 && !Has(c.nodes, nodeId)
    modifies c
    ensures c.Valid()
    ensures var s := old(c.Snap());
      var o := CreateSibling(s.(selection := [LowestChild(s, parent.id).id]), c.hasData, false, nodeId, edgeId);
      c.Snap() == o.after && r == o.result
  {
    var last := LowestChild(c.Snap(), parent.id);
    NodeOfMember(c.nodes, last);
    c.SelectOnly(last.id);
    r := CreateSiblingNode(c, false, nodeId, edgeId);
  }

  /**
   * createChildNode: with one selected node (not being edited unless `ignored`), a first child goes level
   * with it, a further child below its lowest child.
   */
  method CreateChildNode(c: Canvas, ignored: bool, nodeId: string, edgeId: string) returns (r: Option<Node>)
    requires c.Valid() && !Has(c.nodes, nodeId)
    modifies c
    ensures c.Valid()
    ensures var o := CreateChild(old(c.Snap()), c.hasData, ignored, nodeId, edgeId);
      c.Snap() == o.after && r == o.result
  {
    if |c.selection| != 1 {
      return None;
    }
    var parent := NodeOf(c.nodes, c.selection[0]);
    if parent.editing && !ignored {
      return None;
    }
    if !c.hasData {
      return None;
    }
    if |ChildEdges(c.edges, parent.id)| == 0 {
      r := ChildNode(c, parent, parent.y, nodeId, edgeId);
    } else {
      r := SiblingNode(c, parent, nodeId, edgeId);
    }
  }

  /** createFloatingNode: add the node beside the idle selection, select it alone and start editing it. */
  method CreateFloatingNode(c: Canvas, d: Side, nodeId: string) returns (r: Option<Node>)
    requires c.Valid() && !Has(c.nodes, nodeId)
    modifies c
    ensures c.Valid()
    ensures var o := Floating(old(c.Snap()), c.hasData, d, nodeId); c.Snap() == o.after && r == o.result
  {
    if |c.selection| != 1 {
      return None;
    }
    var sel := NodeOf(c.nodes, c.selection[0]);
    if sel.editing {
      return None;
    }
    var p := FloatingPosition(sel, d);
    var temp := AddNode(c, nodeId, p.x, p.y, sel.width, sel.height, TextType, "", "");
    if temp.None? {
      return None;
    }
    c.SelectOnly(nodeId);
    c.StartEditing(nodeId);
    r := temp;
  }

  /** navigate: clear the selection of the idle selected node, then select the node ChooseNext picks. */
  method Navigate(c: Canvas, d: Side, vs: seq<Node>) returns (r: Option<Node>)
    requires c.Valid() && forall j :: 0 <= j < |vs| ==> vs[j] in c.nodes
    modifies c
    ensures c.Valid()
    ensures var o := Commands.Navigate(old(c.Snap()), d, vs); c.Snap() == o.after && r == o.result
  {
    if |c.selection| != 1 {
      return None;
    }
    var sel := NodeOf(c.nodes, c.selection[0]);
    if sel.editing {
      return None;
    }
    c.DeselectAll();
    r := ChooseNext(vs, sel, d);
    if r.Some? {
      ChooseNextBeyond(vs, sel, d);
      NodeOfMember(c.nodes, r.value);
      c.SelectOnly(r.value.id);
    }
  }
}
