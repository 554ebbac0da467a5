/**
 * The plugin entry point's handlers as they run on the live canvas: the
 * Delete/Backspace patch with its sibling relayout, the edit keys, the node
 * setColor patch and the heading split command. Each is proved to leave the
 * canvas exactly as the matching function of module Handlers says.
 */
module Plugin {
  import opened Model
  import opened Sorting
  import opened Layout
  import opened Placement
  import opened Host
  import opened Commands
  import opened Handlers
  import opened Utils

  /**
   * Delete or Backspace: other than one node selected goes to the host; a node being edited or without
   * parent stops the handler; otherwise the host deletes the node, the parent's remaining children are
   * collected and summed, sorted by y and (unless only one is left) stacked at the deleted node's x
   * around the parent's bottom edge, and the parent is selected and put into editing.
   */
  method OnDeleteKey(c: Canvas)
    requires c.Valid()
    modifies c
    ensures c.Valid() && c.Snap() == DeleteKey(old(c.Snap()))
  {
    if |c.selection| != 1 {
      c.DeleteSelection();
      return;
    }
    var child := NodeOf(c.nodes, c.selection[0]);
    if child.editing {
      return;
    }
    if |IncomingEdges(c.edges, child.id)| == 0 {
      return;
    }
    var parent := ParentOf(c.Snap(), child.id);
    c.DeleteSelection();
    if !Has(c.nodes, parent.id) {
      return;
    }
    var kids, wholeHeight := CollectChildren(c, parent.id);
    var allnodes := SortBy(kids, Y);
    if |allnodes| == 1 {
      return;
    }
    if |allnodes| > 1 && allnodes[0].x != allnodes[0].x {
      return;
    }
    SortedIn(c.Snap(), kids, Y);
    var y0 := DeleteColumnTop(parent, wholeHeight);
    RestackedKeepsIds(c.nodes, IdsOf(allnodes), child.x, y0, parent.id);
    StackColumn(c, allnodes, child.x, y0);
    c.SelectOnly(parent.id);
    c.StartEditing(parent.id);
  }

  /** The delete handler's loop over the parent's child edges: the nodes at their ends, and Σ (height + 20). */
  method CollectChildren(c: Canvas, pid: string) returns (kids: seq<Node>, whole: real)
    requires c.Valid()
    ensures kids == Children(c.Snap(), pid) && whole == SumHeights(kids)
  {
    var parentEdges := ChildEdges(c.edges, pid);
    ghost var all := Children(c.Snap(), pid);
    kids, whole := [], 0.0;
    for i := 0 to |parentEdges|
      invariant kids == all[..i] && whole == SumHeights(kids)
    {
      CollectStep(c.nodes, parentEdges, kids, i);
      var node := NodeOf(c.nodes, parentEdges[i].toNode);
      kids := kids + [node];
      whole := whole + node.height + Gap;
    }
    assert all[..|parentEdges|] == all;
  }

  /** One turn of the collecting loop appends the next edge's target and adds its height and the gap. */
  lemma CollectStep(ns: seq<Node>, es: seq<Edge>, kids: seq<Node>, i: nat)
    requires EdgesClosed(ns, es) && i < |es| && kids == TargetNodes(ns, es)[..i]
    ensures Has(ns, es[i].toNode)
    ensures var node := NodeOf(ns, es[i].toNode);
      && TargetNodes(ns, es)[..i + 1] == kids + [node]
      && SumHeights(kids + [node]) == SumHeights(kids) + node.height + Gap
  {
    assert es[i] in es;
    var node := NodeOf(ns, es[i].toNode);
    assert TargetNodes(ns, es)[..i + 1] == kids + [node];
    assert (kids + [node])[..i] == kids;
  }

  /** `i` in the canvas view, or space: start editing the single selected node unless it has a label or url. */
  method OnEditKey(c: Canvas)
    requires c.Valid()
    modifies c
    ensures c.Valid() && c.Snap() == EditKey(old(c.Snap()))
  {
    if |c.selection| != 1 {
      return;
    }
    var node := NodeOf(c.nodes, c.selection[0]);
    if LabelOrUrl(node) {
      return;
    }
    if node.editing {
      return;
    }
    c.StartEditing(node.id);
  }

  /** The patched setColor of node `id`: the host colours the node, then each edge leaving it is coloured too. */
  method PatchedSetColor(c: Canvas, id: string, colour: string)
    requires c.Valid()
    modifies c
    ensures c.Valid() && c.Snap() == SetColour(old(c.Snap()), id, colour)
  {
    c.SetColor(id, colour);
    ghost var es := c.edges;
    var n := |c.edges|;
    for k := 0 to n
      invariant c.Valid() && c.nodes == SetNodeColor(old(c.nodes), id, colour) && c.selection == old(c.selection)
      invariant c.edges == ColouredUpTo(es, id, colour, k)
    {
      ColourStep(es, id, colour, k);
      if c.edges[k].fromNode == id {
        c.SetEdgeColor(k, colour);
      }
    }
    ColourStep(es, id, colour, n);
  }

  /** The edges after the loop has looked at the first k: those among them leaving `id` are coloured. */
  function ColouredUpTo(es: seq<Edge>, id: string, colour: string, k: nat): (r: seq<Edge>)
    ensures |r| == |es|
  {
    seq(|es|, j requires 0 <= j < |es| => if j < k && es[j].fromNode == id then es[j].(color := colour) else es[j])
  }

  /** Looking at edge k colours it when it leaves `id`; after the last edge every outgoing edge is coloured. */
  lemma ColourStep(es: seq<Edge>, id: string, colour: string, k: nat)
    requires k <= |es|
    ensures k == |es| ==> ColouredUpTo(es, id, colour, k) == ColourOutgoing(es, id, colour)
    ensures k < |es| ==>
      var cur := ColouredUpTo(es, id, colour, k);
      cur[k] == es[k] &&
      ColouredUpTo(es, id, colour, k + 1) == if es[k].fromNode == id then cur[k := es[k].(color := colour)] else cur
  {
    if k < |es| {
      var cur := ColouredUpTo(es, id, colour, k);
      var next := ColouredUpTo(es, id, colour, k + 1);
      if es[k].fromNode == id {
        assert next == cur[k := es[k].(color := colour)];
      } else {
        assert next == cur;
      }
    } else {
      assert ColouredUpTo(es, id, colour, k) == ColourOutgoing(es, id, colour);
    }
  }

  /**
   * The split command: with one selected node showing a markdown file with H1 headings, a heading child
   * per H1 is added by createChildFileNode, stacked around the node's vertical midpoint.
   */
  method SplitHeadingIntoMindmap(c: Canvas, isMarkdown: bool, headings: Option<seq<Heading>>, nodeIds: seq<string>, edgeIds: seq<string>)
    requires c.Valid() && FreshIds(c.Snap(), nodeIds)
    requires headings.Some? ==> |H1(headings.value)| <= |nodeIds| && |H1(headings.value)| <= |edgeIds|
    modifies c
    ensures c.Valid() && c.Snap() == SplitHeadings(old(c.Snap()), c.hasData, isMarkdown, headings, nodeIds, edgeIds)
  {
    ghost var s := c.Snap();
    if |c.selection| != 1 {
      return;
    }
    var item := NodeOf(c.nodes, c.selection[0]);
    if !item.content.File? || item.content.file == "" {
      return;
    }
    if !isMarkdown {
      return;
    }
    if headings.None? {
      return;
    }
    var h1 := H1(headings.value);
    if |h1| == 0 {
      return;
    }
    AddHeadingChildren(c, item, item.content.file, h1, nodeIds, edgeIds);
  }

  /** The split loop: every heading of `hs`, in order, becomes a file child of `item`. */
  method AddHeadingChildren(c: Canvas, item: Node, path: string, hs: seq<Heading>, nodeIds: seq<string>, edgeIds: seq<string>)
    requires c.Valid() && Has(c.nodes, item.id) && FreshIds(c.Snap(), nodeIds)
    requires |hs| <= |nodeIds| && |hs| <= |edgeIds|
    modifies c
    ensures c.Valid() && c.Snap() == HeadingChildren(old(c.Snap()), c.hasData, item, path, hs, nodeIds, edgeIds, |hs|)
  {
    ghost var s := c.Snap();
    for i := 0 to |hs|
      invariant c.Valid() && c.Snap() == HeadingChildren(s, c.hasData, item, path, hs, nodeIds, edgeIds, i)
    {
      AddHeadingChild(c, s, item, path, hs, nodeIds, edgeIds, i);
    }
  }

  /** One turn of the split loop: the i-th H1 becomes a file child of `item`, placed at its row of the group. */
  method AddHeadingChild(c: Canvas, ghost s: Snapshot, item: Node, path: string, hs: seq<Heading>,
                         nodeIds: seq<string>, edgeIds: seq<string>, i: nat)
    requires Valid(s) && Has(s.nodes, item.id) && FreshIds(s, nodeIds)
    requires i < |hs| && i < |nodeIds| && i < |edgeIds|
    requires c.Valid() && c.Snap() == HeadingChildren(s, c.hasData, item, path, hs, nodeIds, edgeIds, i)
    modifies c
    ensures c.Valid() && c.Snap() == HeadingChildren(s, c.hasData, item, path, hs, nodeIds, edgeIds, i + 1)
  {
    HeadingStep(s, c.Snap(), c.hasData, item, path, hs, nodeIds, edgeIds, i + 1);
    var y := HeadingY(item, |hs|, i);
    var added := CreateChildFileNode(c, item, path, "#" + hs[i].heading, y, nodeIds[i], edgeIds[i]);
  }
}
