/**
 * The canvas-view key handlers and the node patch of the plugin entry point:
 * Delete/Backspace with sibling relayout, the edit keys, colour propagation
 * to outgoing edges, and the split of a markdown file node into H1 heading
 * children. Each is a function from the snapshot before to the snapshot after.
 */
module Handlers {
  import opened Model
  import opened Sorting
  import opened Layout
  import opened Placement
  import opened Host
  import opened Commands

  // ---------------------------------------------------------------- Delete / Backspace

  /** The handler does its own work: one node selected, not being edited, with an incoming edge. */
  predicate DeleteHasParent(s: Snapshot)
    requires Valid(s)
  {
    |s.selection| == 1 && !NodeOf(s.nodes, s.selection[0]).editing && |IncomingEdges(s.edges, s.selection[0])| > 0
  }

  /**
   * Delete or Backspace. With other than one node selected the host handles the key alone. With one
   * node being edited, or with no parent, nothing happens. Otherwise the host deletes the node; unless
   * exactly one child of the parent is left, the remaining children, sorted by y, are stacked at the
   * deleted node's x as a column centred on the parent's bottom edge, and the parent is selected and
   * put into editing. (The source's guard comparing the first child's x with itself never stops it.)
   */
  function DeleteKey(s: Snapshot): (r: Snapshot)
    requires Valid(s)
    ensures Valid(r)
    ensures |s.selection| != 1 ==> r == HostDelete(s)
    ensures |s.selection| == 1 && !DeleteHasParent(s) ==> r == s
  {
    if |s.selection| != 1 then HostDelete(s)
    else if !DeleteHasParent(s) then s
    else
      var child := NodeOf(s.nodes, s.selection[0]);
      var parent := ParentOf(s, child.id);
      var s1 := HostDelete(s);
      if !Has(s1.nodes, parent.id) then s1
      else
        var kids := Children(s1, parent.id);
        var column := SortBy(kids, Y);
        if |column| == 1 then s1
        else if |column| > 1 && column[0].x != column[0].x then s1
        else
          SortedIn(s1, kids, Y);
          var y0 := DeleteColumnTop(parent, SumHeights(kids));
          RestackedKeepsIds(s1.nodes, IdsOf(column), child.x, y0, parent.id);
          SelectEditing(Relaid(s1, column, child.x, y0), parent.id)
  }

  /** selectOnly followed by startEditing on node `id`. */
  function SelectEditing(s: Snapshot, id: string): (r: Snapshot)
    requires Valid(s) && Has(s.nodes, id)
    ensures Valid(r)
  {
    SameIdsKeepValid(s, SetEditing(s.nodes, id));
    Snapshot(SetEditing(s.nodes, id), s.edges, [id])
  }

  /** The parent of the node being deleted. */
  function DeletedParent(s: Snapshot): Node
    requires Valid(s) && DeleteHasParent(s)
  {
    ParentOf(s, s.selection[0])
  }

  /** The parent's children left after the host's delete, sorted by y (defined when the parent survives). */
  function RemainingColumn(s: Snapshot): seq<Node>
    requires Valid(s) && DeleteHasParent(s) && Has(HostDelete(s).nodes, DeletedParent(s).id)
  {
    SortBy(Children(HostDelete(s), DeletedParent(s).id), Y)
  }

  /** A parent left with exactly one child: the handler stops after the host's delete. */
  lemma DeleteLeavesOnlyChild(s: Snapshot)
    requires Valid(s) && DeleteHasParent(s) && Has(HostDelete(s).nodes, DeletedParent(s).id)
    requires |RemainingColumn(s)| == 1
    ensures DeleteKey(s) == HostDelete(s)
  {
  }

  /**
   * Otherwise (no child left, or two or more whatever their x) the deleted node's edges are gone and
   * the parent ends selected alone and being edited.
   */
  lemma DeleteSelectsParent(s: Snapshot)
    requires Valid(s) && DeleteHasParent(s) && Has(HostDelete(s).nodes, DeletedParent(s).id)
    requires |RemainingColumn(s)| != 1
    ensures var r := DeleteKey(s);
      var p := DeletedParent(s);
      && r.selection == [p.id]
      && r.edges == HostDelete(s).edges
      && Has(r.nodes, p.id) && NodeOf(r.nodes, p.id).editing
  {
    var column := RemainingColumn(s);
    var p := DeletedParent(s);
    var s1 := HostDelete(s);
    var y0 := DeleteColumnTop(p, SumHeights(column));
    DeleteRelaid(s);
    var moved := Restacked(s1.nodes, IdsOf(column), NodeOf(s.nodes, s.selection[0]).x, y0);
    RestackedKeepsIds(s1.nodes, IdsOf(column), NodeOf(s.nodes, s.selection[0]).x, y0, p.id);
    StartsEditing(moved, p.id);
  }

  lemma StartsEditing(ns: seq<Node>, id: string)
    requires Has(ns, id)
    ensures Has(SetEditing(ns, id), id) && NodeOf(SetEditing(ns, id), id).editing
  {
    SameIdsSameIndex(ns, SetEditing(ns, id), id);
  }

  /**
   * In that case the node list is the one the host's delete leaves (the deleted node and nothing else
   * gone, HostDelete), each node at its place with only its position and edit state changed.
   */
  lemma DeleteKeepsOthers(s: Snapshot)
    requires Valid(s) && DeleteHasParent(s) && Has(HostDelete(s).nodes, DeletedParent(s).id)
    requires |RemainingColumn(s)| != 1
    ensures var r := DeleteKey(s).nodes;
      var left := HostDelete(s).nodes;
      |r| == |left| && forall k :: 0 <= k < |r| ==> r[k] == left[k].(x := r[k].x, y := r[k].y, editing := r[k].editing)
  {
    var column := RemainingColumn(s);
    var p := DeletedParent(s);
    var s1 := HostDelete(s);
    var y0 := DeleteColumnTop(p, SumHeights(column));
    DeleteRelaid(s);
    var x := NodeOf(s.nodes, s.selection[0]).x;
    MovedThenEdited(s1.nodes, IdsOf(column), x, y0, p.id);
  }

  /** A relaid list with one node then put into editing differs from the original only in places and edit states. */
  lemma MovedThenEdited(ns: seq<Node>, ids: seq<string>, x: real, y0: real, pid: string)
    requires AllIn(ns, ids)
    ensures var r := SetEditing(Restacked(ns, ids, x, y0), pid);
      |r| == |ns| && forall k :: 0 <= k < |r| ==> r[k] == ns[k].(x := r[k].x, y := r[k].y, editing := r[k].editing)
  {
    RestackedOnlyMoves(ns, ids, x, y0);
  }

  /** The nodes the delete handler leaves, before the parent is put into editing. */
  lemma DeleteRelaid(s: Snapshot)
    requires Valid(s) && DeleteHasParent(s) && Has(HostDelete(s).nodes, DeletedParent(s).id)
    requires |RemainingColumn(s)| != 1
    ensures var column := RemainingColumn(s);
      var s1 := HostDelete(s);
      var p := DeletedParent(s);
      && (forall j :: 0 <= j < |column| ==> column[j] in s1.nodes)
      && AllIn(s1.nodes, IdsOf(column))
      && DeleteKey(s)
         == Snapshot(SetEditing(Restacked(s1.nodes, IdsOf(column), NodeOf(s.nodes, s.selection[0]).x, DeleteColumnTop(p, SumHeights(column))), p.id),
                     s1.edges, [p.id])
  {
    var p := DeletedParent(s);
    var s1 := HostDelete(s);
    var kids := Children(s1, p.id);
    SortedIn(s1, kids, Y);
    SumHeightsSort(kids, Y);
  }

  /**
   * The remaining children (distinct, sorted by y) are moved to the deleted node's x, and each next one
   * starts 20 below the bottom of the one before.
   */
  lemma DeleteColumnEntry(s: Snapshot, i: nat)
    requires Valid(s) && DeleteHasParent(s) && Has(HostDelete(s).nodes, DeletedParent(s).id)
    requires |RemainingColumn(s)| != 1 && Distinct(IdsOf(RemainingColumn(s))) && i < |RemainingColumn(s)|
    ensures var r := DeleteKey(s).nodes;
      var column := RemainingColumn(s);
      && Has(r, column[i].id)
      && NodeOf(r, column[i].id).x == NodeOf(s.nodes, s.selection[0]).x
      && (i + 1 < |column| ==>
            Has(r, column[i + 1].id) &&
            NodeOf(r, column[i + 1].id).y == NodeOf(r, column[i].id).y + NodeOf(r, column[i].id).height + Gap)
  {
    var column := RemainingColumn(s);
    var s1 := HostDelete(s);
    var p := DeletedParent(s);
    var x := NodeOf(s.nodes, s.selection[0]).x;
    var y0 := DeleteColumnTop(p, SumHeights(column));
    DeleteRelaid(s);
    var moved := Restacked(s1.nodes, IdsOf(column), x, y0);
    RelaidEntry(s1.nodes, column, x, y0, i);
    EditingKeepsPlace(moved, p.id, column[i].id);
    if i + 1 < |column| {
      RelaidSpacing(s1.nodes, column, x, y0, i);
      EditingKeepsPlace(moved, p.id, column[i + 1].id);
    }
  }

  /** Entering edit mode moves nothing: every node keeps its position and size. */
  lemma EditingKeepsPlace(ns: seq<Node>, pid: string, id: string)
    requires Has(ns, id)
    ensures var r := SetEditing(ns, pid);
      Has(r, id) && NodeOf(r, id).x == NodeOf(ns, id).x && NodeOf(r, id).y == NodeOf(ns, id).y
      && NodeOf(r, id).height == NodeOf(ns, id).height
  {
    SameIdsSameIndex(ns, SetEditing(ns, pid), id);
  }

  /** The relaid column is centred on the parent's bottom edge (not on its midpoint, as createSiblingNode does). */
  lemma DeleteColumnCentred(s: Snapshot)
    requires Valid(s) && DeleteHasParent(s) && Has(HostDelete(s).nodes, DeletedParent(s).id)
    requires |RemainingColumn(s)| > 1 && Distinct(IdsOf(RemainingColumn(s)))
    ensures var r := DeleteKey(s).nodes;
      var column := RemainingColumn(s);
      var p := DeletedParent(s);
      Has(r, column[0].id) && NodeOf(r, column[0].id).y + SumHeights(column) / 2.0 == p.y + p.height
  {
    var column := RemainingColumn(s);
    var s1 := HostDelete(s);
    var p := DeletedParent(s);
    var x := NodeOf(s.nodes, s.selection[0]).x;
    var y0 := DeleteColumnTop(p, SumHeights(column));
    DeleteRelaid(s);
    var moved := Restacked(s1.nodes, IdsOf(column), x, y0);
    RelaidEntry(s1.nodes, column, x, y0, 0);
    EditingKeepsPlace(moved, p.id, column[0].id);
  }

  // ---------------------------------------------------------------- the edit keys

  /** A group node with a label or a link node with a url: the edit keys leave such nodes alone. */
  predicate LabelOrUrl(n: Node) {
    (n.content.Group? && n.content.groupLabel != "") || (n.content.Link? && n.content.url != "")
  }

  /** `i` in the canvas view, or space: with one node selected, neither labelled nor a link, not yet being edited, it starts editing. */
  function EditKey(s: Snapshot): (r: Snapshot)
    requires Valid(s)
    ensures Valid(r) && r.edges == s.edges && r.selection == s.selection
  {
    if |s.selection| != 1 then s
    else
      var n := NodeOf(s.nodes, s.selection[0]);
      if LabelOrUrl(n) || n.editing then s
      else
        SameIdsKeepValid(s, SetEditing(s.nodes, n.id));
        s.(nodes := SetEditing(s.nodes, n.id))
  }

  /** The node the edit keys put into editing, when there is one. */
  predicate EditTarget(s: Snapshot, id: string)
    requires Valid(s)
  {
    |s.selection| == 1 && id == s.selection[0] && !LabelOrUrl(NodeOf(s.nodes, id))
  }

  /**
   * The edit keys change nothing but edit states: every node keeps its place and all its other fields,
   * and is being edited afterwards exactly when it was before or it is the single selected node without
   * label or url.
   */
  lemma EditKeyEffect(s: Snapshot, k: nat)
    requires Valid(s) && k < |s.nodes|
    ensures var r := EditKey(s).nodes;
      && |r| == |s.nodes|
      && r[k] == s.nodes[k].(editing := r[k].editing)
      && (r[k].editing <==> s.nodes[k].editing || EditTarget(s, s.nodes[k].id))
  {
    if |s.selection| == 1 {
      var n := NodeOf(s.nodes, s.selection[0]);
      if s.nodes[k].id == n.id {
        NodeOfAt(s.nodes, k);
      }
    }
  }

  /** Pressing an edit key twice does what pressing it once does. */
  lemma EditKeyIdempotent(s: Snapshot)
    requires Valid(s)
    ensures EditKey(EditKey(s)) == EditKey(s)
  {
    var r := EditKey(s);
    if |s.selection| == 1 {
      var n := NodeOf(s.nodes, s.selection[0]);
      if !(LabelOrUrl(n) || n.editing) {
        var k := IndexOf(s.nodes, n.id);
        NodeOfAt(r.nodes, k);
      }
    }
  }

  // ---------------------------------------------------------------- colour propagation

  /** The edges leaving node `id` take colour `c`; all other edges stay as they are. */
  function ColourOutgoing(es: seq<Edge>, id: string, c: string): (r: seq<Edge>)
    ensures |r| == |es|
    ensures forall k :: 0 <= k < |es| ==> r[k] == if es[k].fromNode == id then es[k].(color := c) else es[k]
  {
    seq(|es|, k requires 0 <= k < |es| => if es[k].fromNode == id then es[k].(color := c) else es[k])
  }

  /** The patched setColor of a node: the node takes colour `c`, and so does every edge leaving it. */
  function SetColour(s: Snapshot, id: string, c: string): (r: Snapshot)
    requires Valid(s)
    ensures Valid(r) && r.selection == s.selection
  {
    SameIdsKeepValid(s, SetNodeColor(s.nodes, id, c));
    ColourKeepsEnds(SetNodeColor(s.nodes, id, c), s.edges, id, c);
    Snapshot(SetNodeColor(s.nodes, id, c), ColourOutgoing(s.edges, id, c), s.selection)
  }

  lemma ColourKeepsEnds(ns: seq<Node>, es: seq<Edge>, id: string, c: string)
    requires EdgesClosed(ns, es)
    ensures EdgesClosed(ns, ColourOutgoing(es, id, c))
  {
    var r := ColourOutgoing(es, id, c);
    forall e | e in r ensures Has(ns, e.fromNode) && Has(ns, e.toNode) {
      var k :| 0 <= k < |r| && r[k] == e;
      assert es[k] in es;
    }
  }

  /**
   * After colouring, the node and every edge leaving it carry `c`; edges entering it or not touching it
   * keep their colour, and no edge or node changes anything but its colour.
   */
  lemma SetColourEffect(s: Snapshot, id: string, c: string, k: nat)
    requires Valid(s) && k < |s.edges|
    ensures var r := SetColour(s, id, c);
      && |r.edges| == |s.edges|
      && r.edges[k] == s.edges[k].(color := r.edges[k].color)
      && (s.edges[k].fromNode == id ==> r.edges[k].color == c)
      && (s.edges[k].fromNode != id ==> r.edges[k].color == s.edges[k].color)
      && (Has(s.nodes, id) ==> Has(r.nodes, id) && NodeOf(r.nodes, id) == NodeOf(s.nodes, id).(color := c))
  {
    var r := SetColour(s, id, c);
    if Has(s.nodes, id) {
      var i := IndexOf(s.nodes, id);
      SameIdsSameIndex(s.nodes, r.nodes, id);
    }
  }

  /** Colouring twice with the same colour is colouring once; the later of two colourings wins. */
  lemma SetColourIdempotent(s: Snapshot, id: string, c: string, d: string)
    requires Valid(s)
    ensures SetColour(SetColour(s, id, c), id, c) == SetColour(s, id, c)
    ensures SetColour(SetColour(s, id, d), id, c) == SetColour(s, id, c)
  {
  }

  // ---------------------------------------------------------------- split a file into its H1 headings

  /** A heading of a markdown file as the host's metadata cache lists it. */
  datatype Heading = Heading(heading: string, level: int)

  /** The level-1 headings, in file order. */
  function H1(hs: seq<Heading>): (r: seq<Heading>)
    ensures |r| <= |hs|
    ensures forall h :: h in r <==> h in hs && h.level == 1
  {
    if |hs| == 0 then []
    else (if hs[0].level == 1 then [hs[0]] else []) + H1(hs[1..])
  }

  /** Ids nobody uses yet, all different. */
  predicate FreshIds(s: Snapshot, ids: seq<string>) {
    Distinct(ids) && forall j :: 0 <= j < |ids| ==> !Has(s.nodes, ids[j])
  }

  /**
   * The split goes ahead: one node selected, a file node with a path, the file is markdown
   * (`isMarkdown`, the host's extension test), its headings are cached and one at least is an H1.
   */
  predicate SplitReady(s: Snapshot, isMarkdown: bool, headings: Option<seq<Heading>>)
    requires Valid(s)
  {
    && |s.selection| == 1
    && NodeOf(s.nodes, s.selection[0]).content.File?
    && NodeOf(s.nodes, s.selection[0]).content.file != ""
    && isMarkdown
    && headings.Some?
    && |H1(headings.value)| > 0
  }

  /** The file node made for the i-th of k headings `h` of the file shown by `item`. */
  function HeadingNode(item: Node, path: string, h: Heading, k: nat, i: nat, id: string): Node {
    NewNode(id, ChildX(item), HeadingY(item, k, i), item.width, item.height * HeadingScale, FileType, path, "#" + h.heading)
  }

  /**
   * `r` is `s` with the first m heading children added: with data, their nodes and their links from
   * `item` appended in heading order and nothing else changed; without data, `s` itself.
   */
  ghost predicate HeadingsAdded(s: Snapshot, r: Snapshot, hasData: bool, item: Node, path: string, hs: seq<Heading>,
                                nodeIds: seq<string>, edgeIds: seq<string>, m: nat)
    requires m <= |hs| && m <= |nodeIds| && m <= |edgeIds|
  {
    && r.selection == s.selection
    && (!hasData ==> r == s)
    && (forall id :: Has(r.nodes, id) <==> Has(s.nodes, id) || (hasData && id in nodeIds[..m]))
    && (hasData ==> |r.nodes| == |s.nodes| + m && r.nodes[..|s.nodes|] == s.nodes)
    && (hasData ==> forall j :: 0 <= j < m ==> r.nodes[|s.nodes| + j] == HeadingNode(item, path, hs[j], |hs|, j, nodeIds[j]))
    && (hasData ==> |r.edges| == |s.edges| + m && r.edges[..|s.edges|] == s.edges)
    && (hasData ==> forall j :: 0 <= j < m ==> r.edges[|s.edges| + j] == ChildLink(edgeIds[j], item.id, nodeIds[j]))
  }

  /** The first m of the heading children of `item`, each made by createChildFileNode in turn. */
  function HeadingChildren(s: Snapshot, hasData: bool, item: Node, path: string, hs: seq<Heading>,
                           nodeIds: seq<string>, edgeIds: seq<string>, m: nat): (r: Snapshot)
    requires Valid(s) && Has(s.nodes, item.id) && FreshIds(s, nodeIds)
    requires m <= |hs| && m <= |nodeIds| && m <= |edgeIds|
    ensures Valid(r) && HeadingsAdded(s, r, hasData, item, path, hs, nodeIds, edgeIds, m)
  {
    if m == 0 then s
    else
      var prev := HeadingChildren(s, hasData, item, path, hs, nodeIds, edgeIds, m - 1);
      HeadingStep(s, prev, hasData, item, path, hs, nodeIds, edgeIds, m);
      FileChildStep(prev, hasData, item, path, "#" + hs[m - 1].heading, HeadingY(item, |hs|, m - 1), nodeIds[m - 1], edgeIds[m - 1]).after
  }

  /** One more createChildFileNode call adds the next heading child. */
  lemma HeadingStep(s: Snapshot, prev: Snapshot, hasData: bool, item: Node, path: string, hs: seq<Heading>,
                    nodeIds: seq<string>, edgeIds: seq<string>, m: nat)
    requires Valid(s) && Has(s.nodes, item.id) && FreshIds(s, nodeIds)
    requires 0 < m <= |hs| && m <= |nodeIds| && m <= |edgeIds|
    requires Valid(prev) && HeadingsAdded(s, prev, hasData, item, path, hs, nodeIds, edgeIds, m - 1)
    ensures Has(prev.nodes, item.id) && !Has(prev.nodes, nodeIds[m - 1])
    ensures HeadingsAdded(s, FileChildStep(prev, hasData, item, path, "#" + hs[m - 1].heading, HeadingY(item, |hs|, m - 1), nodeIds[m - 1], edgeIds[m - 1]).after,
                          hasData, item, path, hs, nodeIds, edgeIds, m)
  {
    assert nodeIds[..m] == nodeIds[..m - 1] + [nodeIds[m - 1]];
    assert nodeIds[m - 1] !in nodeIds[..m - 1];
    var r := FileChildStep(prev, hasData, item, path, "#" + hs[m - 1].heading, HeadingY(item, |hs|, m - 1), nodeIds[m - 1], edgeIds[m - 1]).after;
    if hasData {
      assert r.nodes == prev.nodes + [HeadingNode(item, path, hs[m - 1], |hs|, m - 1, nodeIds[m - 1])];
      assert r.nodes[..|s.nodes|] == prev.nodes[..|s.nodes|];
      assert r.edges[..|s.edges|] == prev.edges[..|s.edges|];
      forall id ensures Has(r.nodes, id) <==> Has(prev.nodes, id) || id == nodeIds[m - 1] {
        HasAppend(prev.nodes, HeadingNode(item, path, hs[m - 1], |hs|, m - 1, nodeIds[m - 1]), id);
      }
    }
  }

  /**
   * The split command: for each H1 heading of the selected markdown file, in file order, a file node
   * showing that heading, right of the selection, linked from it; the selection is kept. Otherwise
   * nothing changes.
   */
  function SplitHeadings(s: Snapshot, hasData: bool, isMarkdown: bool, headings: Option<seq<Heading>>,
                         nodeIds: seq<string>, edgeIds: seq<string>): (r: Snapshot)
    requires Valid(s) && FreshIds(s, nodeIds)
    requires headings.Some? ==> |H1(headings.value)| <= |nodeIds| && |H1(headings.value)| <= |edgeIds|
    ensures Valid(r) && r.selection == s.selection
    ensures !SplitReady(s, isMarkdown, headings) || !hasData ==> r == s
    ensures SplitReady(s, isMarkdown, headings) ==>
      var item := NodeOf(s.nodes, s.selection[0]);
      HeadingsAdded(s, r, hasData, item, item.content.file, H1(headings.value), nodeIds, edgeIds, |H1(headings.value)|)
  {
    if !SplitReady(s, isMarkdown, headings) then s
    else
      var item := NodeOf(s.nodes, s.selection[0]);
      var hs := H1(headings.value);
      HeadingChildren(s, hasData, item, item.content.file, hs, nodeIds, edgeIds, |hs|)
  }

  /** The j-th added heading child, read off a snapshot that has all k of them. */
  lemma AddedChild(s: Snapshot, r: Snapshot, item: Node, path: string, hs: seq<Heading>,
                   nodeIds: seq<string>, edgeIds: seq<string>, j: nat)
    requires |hs| <= |nodeIds| && |hs| <= |edgeIds| && j < |hs|
    requires HeadingsAdded(s, r, true, item, path, hs, nodeIds, edgeIds, |hs|)
    ensures var n := |s.nodes| + j;
      && |r.nodes| == |s.nodes| + |hs| && r.nodes[..|s.nodes|] == s.nodes
      && r.edges[..|s.edges|] == s.edges
      && r.nodes[n].id == nodeIds[j] && !r.nodes[n].editing
      && r.nodes[n].content == File(path, Some("#" + hs[j].heading))
      && r.nodes[n].x - (item.x + item.width) == ChildGap && r.nodes[n].y == HeadingY(item, |hs|, j)
      && r.nodes[n].width == item.width && r.nodes[n].height == item.height * HeadingScale
      && r.edges[|s.edges| + j] == ChildLink(edgeIds[j], item.id, nodeIds[j])
  {
    assert r.nodes[|s.nodes| + j] == HeadingNode(item, path, hs[j], |hs|, j, nodeIds[j]);
    assert ("#" + hs[j].heading)[0] == '#';
  }

  /** Consecutive heading rows are one pitch apart: a child's height plus the gap. */
  lemma HeadingRows(item: Node, k: nat, j: nat)
    ensures HeadingY(item, k, j + 1) == HeadingY(item, k, j) + item.height * HeadingScale + HeadingGap
  {
    assert ((j + 1) as real) * HeadingPitch(item) == (j as real) * HeadingPitch(item) + HeadingPitch(item);
  }

  /**
   * With data, the split appends one node per H1 heading in file order: the j-th shows the file at
   * `#` + the j-th heading, is as wide as the selection and 0.6 times as tall, starts 200 right of it
   * in the j-th of k rows centred on its midpoint (HeadingGroupCentred), and is linked from it by the
   * j-th new edge. The nodes and edges already there stay as they were.
   */
  lemma SplitHeadingsNode(s: Snapshot, isMarkdown: bool, headings: Option<seq<Heading>>,
                          nodeIds: seq<string>, edgeIds: seq<string>, j: nat)
    requires Valid(s) && FreshIds(s, nodeIds) && SplitReady(s, isMarkdown, headings)
    requires |H1(headings.value)| <= |nodeIds| && |H1(headings.value)| <= |edgeIds|
    requires j < |H1(headings.value)|
    ensures var r := SplitHeadings(s, true, isMarkdown, headings, nodeIds, edgeIds);
      var item := NodeOf(s.nodes, s.selection[0]);
      var n := |s.nodes| + j;
      && |r.nodes| == |s.nodes| + |H1(headings.value)| && r.nodes[..|s.nodes|] == s.nodes
      && r.edges[..|s.edges|] == s.edges
      && r.nodes[n].id == nodeIds[j] && !r.nodes[n].editing
      && r.nodes[n].content == File(item.content.file, Some("#" + H1(headings.value)[j].heading))
      && r.nodes[n].x - (item.x + item.width) == ChildGap && r.nodes[n].y == HeadingY(item, |H1(headings.value)|, j)
      && r.nodes[n].width == item.width && r.nodes[n].height == item.height * HeadingScale
      && r.edges[|s.edges| + j] == ChildLink(edgeIds[j], item.id, nodeIds[j])
  {
    var item := NodeOf(s.nodes, s.selection[0]);
    AddedChild(s, SplitHeadings(s, true, isMarkdown, headings, nodeIds, edgeIds), item, item.content.file,
               H1(headings.value), nodeIds, edgeIds, j);
  }

  /** Each heading child starts 20 below the bottom of the one before it. */
  lemma SplitHeadingsStacked(s: Snapshot, isMarkdown: bool, headings: Option<seq<Heading>>,
                             nodeIds: seq<string>, edgeIds: seq<string>, j: nat)
    requires Valid(s) && FreshIds(s, nodeIds) && SplitReady(s, isMarkdown, headings)
    requires |H1(headings.value)| <= |nodeIds| && |H1(headings.value)| <= |edgeIds|
    requires j + 1 < |H1(headings.value)|
    ensures var r := SplitHeadings(s, true, isMarkdown, headings, nodeIds, edgeIds);
      var n := |s.nodes| + j;
      n + 1 < |r.nodes| && r.nodes[n + 1].y == r.nodes[n].y + r.nodes[n].height + HeadingGap
  {
    var item := NodeOf(s.nodes, s.selection[0]);
    AddedRows(s, SplitHeadings(s, true, isMarkdown, headings, nodeIds, edgeIds), item, item.content.file,
              H1(headings.value), nodeIds, edgeIds, j);
  }

  lemma AddedRows(s: Snapshot, r: Snapshot, item: Node, path: string, hs: seq<Heading>,
                  nodeIds: seq<string>, edgeIds: seq<string>, j: nat)
    requires |hs| <= |nodeIds| && |hs| <= |edgeIds| && j + 1 < |hs|
    requires HeadingsAdded(s, r, true, item, path, hs, nodeIds, edgeIds, |hs|)
    ensures |s.nodes| + j + 1 < |r.nodes|
    ensures r.nodes[|s.nodes| + j + 1].y == r.nodes[|s.nodes| + j].y + r.nodes[|s.nodes| + j].height + HeadingGap
  {
    HeadingRows(item, |hs|, j);
    assert r.nodes[|s.nodes| + j] == HeadingNode(item, path, hs[j], |hs|, j, nodeIds[j]);
    assert r.nodes[|s.nodes| + (j + 1)] == HeadingNode(item, path, hs[j + 1], |hs|, j + 1, nodeIds[j + 1]);
  }
}
