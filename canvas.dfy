/**
 * The host canvas the plugin drives, as far as the plugin uses it: a whole
 * snapshot read and replace (getData / importData), moving a node, the
 * selection (selectOnly / deselectAll), entering edit mode, colouring, and
 * the host's own handling of the Delete key.
 */
module Host {
  import opened Model

  /** The nodes that survive deleting the selection. */
  function KeepNodes(ns: seq<Node>, gone: seq<string>): (r: seq<Node>)
    ensures forall n :: n in r <==> n in ns && n.id !in gone
  {
    if |ns| == 0 then []
    else (if ns[0].id in gone then [] else [ns[0]]) + KeepNodes(ns[1..], gone)
  }

  lemma {:induction false} KeepNodesUnique(ns: seq<Node>, gone: seq<string>)
    requires UniqueIds(ns)
    ensures UniqueIds(KeepNodes(ns, gone))
  {
    if |ns| > 0 {
      var rest := KeepNodes(ns[1..], gone);
      assert UniqueIds(ns[1..]) by {
        forall i, j | 0 <= i < j < |ns[1..]| ensures ns[1..][i].id != ns[1..][j].id {
          assert ns[1..][i] == ns[i + 1] && ns[1..][j] == ns[j + 1];
        }
      }
      KeepNodesUnique(ns[1..], gone);
      forall n | n in rest ensures n.id != ns[0].id {
        var i :| 0 <= i < |ns[1..]| && ns[1..][i] == n;
        assert ns[i + 1] == n;
      }
      var r := KeepNodes(ns, gone);
      if ns[0].id !in gone {
        assert r == [ns[0]] + rest;
        forall i, j | 0 <= i < j < |r| ensures r[i].id != r[j].id {
          assert r[j] == rest[j - 1] && r[j] in rest;
          if i > 0 { assert r[i] == rest[i - 1]; }
        }
      } else {
        assert r == rest;
      }
    }
  }

  lemma KeepNodesHas(ns: seq<Node>, gone: seq<string>, id: string)
    ensures Has(KeepNodes(ns, gone), id) <==> Has(ns, id) && id !in gone
  {
    var r := KeepNodes(ns, gone);
    if Has(r, id) {
      var i :| 0 <= i < |r| && r[i].id == id;
      assert r[i] in r;
      var k :| 0 <= k < |ns| && ns[k] == r[i];
    }
    if Has(ns, id) && id !in gone {
      var k :| 0 <= k < |ns| && ns[k].id == id;
      assert ns[k] in r;
      var i :| 0 <= i < |r| && r[i] == ns[k];
    }
  }

  /** The edges that survive deleting the selection: those touching no deleted node. */
  function KeepEdges(es: seq<Edge>, gone: seq<string>): (r: seq<Edge>)
    ensures forall e :: e in r <==> e in es && e.fromNode !in gone && e.toNode !in gone
  {
    if |es| == 0 then []
    else (if es[0].fromNode !in gone && es[0].toNode !in gone then [es[0]] else []) + KeepEdges(es[1..], gone)
  }

  /** What the host does on Delete or Backspace: the selected nodes and their edges go, and nothing stays selected. */
  function HostDelete(s: Snapshot): (r: Snapshot)
    requires Valid(s)
    ensures Valid(r)
    ensures forall n :: n in r.nodes <==> n in s.nodes && n.id !in s.selection
    ensures forall e :: e in r.edges <==> e in s.edges && e.fromNode !in s.selection && e.toNode !in s.selection
    ensures r.selection == []
  {
    KeepNodesUnique(s.nodes, s.selection);
    forall id ensures Has(KeepNodes(s.nodes, s.selection), id) <==> Has(s.nodes, id) && id !in s.selection {
      KeepNodesHas(s.nodes, s.selection, id);
    }
    Snapshot(KeepNodes(s.nodes, s.selection), KeepEdges(s.edges, s.selection), [])
  }

  /** Replacing nodes by nodes with the same ids, position by position, keeps a snapshot valid. */
  lemma SameIdsKeepValid(s: Snapshot, ns: seq<Node>)
    requires Valid(s) && |ns| == |s.nodes| && forall k :: 0 <= k < |ns| ==> ns[k].id == s.nodes[k].id
    ensures Valid(s.(nodes := ns))
  {
    forall id ensures Has(ns, id) <==> Has(s.nodes, id) {
      SameIdsSameIndex(s.nodes, ns, id);
    }
  }

  class Canvas {
    var nodes: seq<Node>
    var edges: seq<Edge>
    var selection: seq<string>
    /** Whether getData() yields a snapshot; addNode and addEdge return early without one. */
    const hasData: bool

    function Snap(): Snapshot
      reads this
    {
      Snapshot(nodes, edges, selection)
    }

    ghost predicate Valid()
      reads this
    {
      Model.Valid(Snap())
    }

    constructor (s: Snapshot, hasData: bool)
      requires Model.Valid(s)
      ensures Snap() == s && this.hasData == hasData && Valid()
    {
      nodes, edges, selection := s.nodes, s.edges, s.selection;
      this.hasData := hasData;
    }

    /** importData: replaces the node and edge lists whole; the selection is kept. */
    method ImportData(ns: seq<Node>, es: seq<Edge>)
      requires Model.Valid(Snapshot(ns, es, selection))
      modifies this
      ensures Valid() && nodes == ns && edges == es && selection == old(selection)
    {
      nodes, edges := ns, es;
    }

    /** moveTo on the live node carrying `id`. */
    method MoveTo(id: string, x: real, y: real)
      requires Valid() && Has(nodes, id)
      modifies this
      ensures Valid() && nodes == MoveNode(old(nodes), id, x, y)
      ensures edges == old(edges) && selection == old(selection)
    {
      SameIdsKeepValid(Snap(), MoveNode(nodes, id, x, y));
      nodes := MoveNode(nodes, id, x, y);
    }

    method SelectOnly(id: string)
      requires Valid() && Has(nodes, id)
      modifies this
      ensures Valid() && selection == [id] && nodes == old(nodes) && edges == old(edges)
    {
      selection := [id];
    }

    method DeselectAll()
      requires Valid()
      modifies this
      ensures Valid() && selection == [] && nodes == old(nodes) && edges == old(edges)
    {
      selection := [];
    }

    /** startEditing on the live node carrying `id`. */
    method StartEditing(id: string)
      requires Valid()
      modifies this
      ensures Valid() && nodes == SetEditing(old(nodes), id)
      ensures edges == old(edges) && selection == old(selection)
    {
      SameIdsKeepValid(Snap(), SetEditing(nodes, id));
      nodes := SetEditing(nodes, id);
    }

    /** The host's own setColor on a node. */
    method SetColor(id: string, c: string)
      requires Valid()
      modifies this
      ensures Valid() && nodes == SetNodeColor(old(nodes), id, c)
      ensures edges == old(edges) && selection == old(selection)
    {
      SameIdsKeepValid(Snap(), SetNodeColor(nodes, id, c));
      nodes := SetNodeColor(nodes, id, c);
    }

    /** setColor on the k-th edge. */
    method SetEdgeColor(k: nat, c: string)
      requires Valid() && k < |edges|
      modifies this
      ensures Valid() && edges == old(edges)[k := old(edges)[k].(color := c)]
      ensures nodes == old(nodes) && selection == old(selection)
    {
      edges := edges[k := edges[k].(color := c)];
    }

    /** The host's own handling of Delete or Backspace. */
    method DeleteSelection()
      requires Valid()
      modifies this
      ensures Valid() && Snap() == HostDelete(old(Snap()))
    {
      var r := HostDelete(Snap());
      nodes, edges, selection := r.nodes, r.edges, r.selection;
    }
  }
}
