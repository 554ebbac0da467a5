/**
 * The canvas data model the mind-map plugin reads and writes: nodes and edges
 * of a canvas snapshot, the selection, and the lookups the plugin performs on
 * them (a node by id, the edges touching a node, the incoming edges of a node,
 * the left-side child edges of a parent).
 */
module Model {

  datatype Option<T> = None | Some(value: T)

  /** A side of a node; the same four words name the navigation and placement directions. */
  datatype Side = Top | Bottom | Left | Right

  /** The `type` argument of addNode. */
  datatype NodeType = TextType | FileType

  /** What a node shows: the host's four node kinds. */
  datatype Content =
    | Text(text: string)
    | File(file: string, subpath: Option<string>)
    | Link(url: string)
    | Group(groupLabel: string)

  /**
   * A canvas node: its record in the snapshot together with the state of its
   * live handle (`color`, `"" ` when unset, and whether it is being edited).
   */
  datatype Node = Node(
    id: string,
    x: real, y: real, width: real, height: real,
    content: Content,
    color: string,
    editing: bool)

  /** A canvas edge from (fromNode, fromSide) to (toNode, toSide). */
  datatype Edge = Edge(
    id: string,
    fromNode: string, fromSide: Side,
    toNode: string, toSide: Side,
    color: string)

  /** What the host holds: the node list, the edge list and the selected node ids in selection order. */
  datatype Snapshot = Snapshot(nodes: seq<Node>, edges: seq<Edge>, selection: seq<string>)

  predicate Has(ns: seq<Node>, id: string) {
    exists i :: 0 <= i < |ns| && ns[i].id == id
  }

  predicate UniqueIds(ns: seq<Node>) {
    forall i, j :: 0 <= i < j < |ns| ==> ns[i].id != ns[j].id
  }

  /** Every edge endpoint names a node of the canvas. */
  ghost predicate EdgesClosed(ns: seq<Node>, es: seq<Edge>) {
    forall e :: e in es ==> Has(ns, e.fromNode) && Has(ns, e.toNode)
  }

  /** The host's consistency: ids are unique, edges join existing nodes, the selection is a set of existing nodes. */
  ghost predicate Valid(s: Snapshot) {
    && UniqueIds(s.nodes)
    && EdgesClosed(s.nodes, s.edges)
    && (forall i, j :: 0 <= i < j < |s.selection| ==> s.selection[i] != s.selection[j])
    && (forall id :: id in s.selection ==> Has(s.nodes, id))
  }

  /** Position of the first node carrying `id`, or -1 when there is none (the host's `nodes.get(id)`). */
  function IndexOf(ns: seq<Node>, id: string): (k: int)
    ensures -1 <= k < |ns|
    ensures 0 <= k ==> ns[k].id == id
    ensures k < 0 <==> !Has(ns, id)
  {
    if |ns| == 0 then -1
    else if ns[0].id == id then 0
    else
      var k := IndexOf(ns[1..], id);
      assert forall i :: 0 < i < |ns| ==> ns[i] == ns[1..][i - 1];
      if k < 0 then -1 else k + 1
  }

  function NodeOf(ns: seq<Node>, id: string): (n: Node)
    requires Has(ns, id)
    ensures n in ns && n.id == id
  {
    ns[IndexOf(ns, id)]
  }

  lemma NodeOfAt(ns: seq<Node>, k: int)
    requires UniqueIds(ns) && 0 <= k < |ns|
    ensures Has(ns, ns[k].id) && NodeOf(ns, ns[k].id) == ns[k]
  {
    assert Has(ns, ns[k].id);
  }

  /** A node list with one node appended has the ids it had and the new one. */
  lemma HasAppend(ns: seq<Node>, n: Node, id: string)
    ensures Has(ns + [n], id) <==> Has(ns, id) || n.id == id
  {
    if Has(ns, id) {
      var i :| 0 <= i < |ns| && ns[i].id == id;
      assert (ns + [n])[i] == ns[i];
    }
    if n.id == id {
      assert (ns + [n])[|ns|] == n;
    }
  }

  /** Two node lists that carry the same ids position by position answer every lookup at the same position. */
  lemma SameIdsSameIndex(ns: seq<Node>, ms: seq<Node>, id: string)
    requires |ns| == |ms| && forall k :: 0 <= k < |ns| ==> ns[k].id == ms[k].id
    ensures IndexOf(ns, id) == IndexOf(ms, id) && (Has(ns, id) <==> Has(ms, id))
  {
    if |ns| > 0 && ns[0].id != id {
      SameIdsSameIndex(ns[1..], ms[1..], id);
    }
  }

  /** The host's getEdgesForNode: the edges touching node `id`, in edge-list order. */
  function EdgesForNode(es: seq<Edge>, id: string): (r: seq<Edge>)
    ensures forall e :: e in r <==> e in es && (e.fromNode == id || e.toNode == id)
  {
    if |es| == 0 then []
    else (if es[0].fromNode == id || es[0].toNode == id then [es[0]] else []) + EdgesForNode(es[1..], id)
  }

  /** The edges entering node `id`, in edge-list order (`getEdgesForNode(n).filter(e => e.to.node.id === n.id)`). */
  function IncomingEdges(es: seq<Edge>, id: string): (r: seq<Edge>)
    ensures forall e :: e in r <==> e in es && e.toNode == id
  {
    if |es| == 0 then []
    else (if es[0].toNode == id then [es[0]] else []) + IncomingEdges(es[1..], id)
  }

  /** A parent's child edges: the edges leaving `pid` that end on a left side, in edge-list order. */
  function ChildEdges(es: seq<Edge>, pid: string): (r: seq<Edge>)
    ensures forall e :: e in r <==> e in es && e.fromNode == pid && e.toSide == Left
  {
    if |es| == 0 then []
    else (if es[0].fromNode == pid && es[0].toSide == Left then [es[0]] else []) + ChildEdges(es[1..], pid)
  }

  /** The edges whose target is one of `targets` (siblingNode's `prevParentEdges.some(...)` filter). */
  function EdgesInto(es: seq<Edge>, targets: seq<string>): (r: seq<Edge>)
    ensures forall e :: e in r <==> e in es && e.toNode in targets
  {
    if |es| == 0 then []
    else (if es[0].toNode in targets then [es[0]] else []) + EdgesInto(es[1..], targets)
  }

  function Targets(es: seq<Edge>): (r: seq<string>)
    ensures |r| == |es| && forall i :: 0 <= i < |es| ==> r[i] == es[i].toNode
  {
    seq(|es|, i requires 0 <= i < |es| => es[i].toNode)
  }

  /** The live nodes at the far end of `es` (`edges.map(e => e.to.node)`). */
  function TargetNodes(ns: seq<Node>, es: seq<Edge>): (r: seq<Node>)
    requires EdgesClosed(ns, es)
    ensures |r| == |es|
    ensures forall i :: 0 <= i < |es| ==> r[i] == NodeOf(ns, es[i].toNode)
  {
    seq(|es|, i requires 0 <= i < |es| => NodeOf(ns, es[i].toNode))
  }

  function IdsOf(ns: seq<Node>): (r: seq<string>)
    ensures |r| == |ns| && forall i :: 0 <= i < |ns| ==> r[i] == ns[i].id
  {
    seq(|ns|, i requires 0 <= i < |ns| => ns[i].id)
  }

  /** The host's `moveTo`: the node carrying `id` takes position (x, y); every other node stays as it is. */
  function MoveNode(ns: seq<Node>, id: string, x: real, y: real): (r: seq<Node>)
    ensures |r| == |ns|
    ensures forall k :: 0 <= k < |ns| ==> r[k] == if ns[k].id == id then ns[k].(x := x, y := y) else ns[k]
  {
    seq(|ns|, k requires 0 <= k < |ns| => if ns[k].id == id then ns[k].(x := x, y := y) else ns[k])
  }

  function SetEditing(ns: seq<Node>, id: string): (r: seq<Node>)
    ensures |r| == |ns|
    ensures forall k :: 0 <= k < |ns| ==> r[k] == if ns[k].id == id then ns[k].(editing := true) else ns[k]
  {
    seq(|ns|, k requires 0 <= k < |ns| => if ns[k].id == id then ns[k].(editing := true) else ns[k])
  }

  function SetNodeColor(ns: seq<Node>, id: string, c: string): (r: seq<Node>)
    ensures |r| == |ns|
    ensures forall k :: 0 <= k < |ns| ==> r[k] == if ns[k].id == id then ns[k].(color := c) else ns[k]
  {
    seq(|ns|, k requires 0 <= k < |ns| => if ns[k].id == id then ns[k].(color := c) else ns[k])
  }
}
