/**
 * buildTrees: the forest of a canvas snapshot. An adjacency map lists, per
 * node id, the targets of the edges leaving it in edge-list order; the roots
 * are the nodes no edge points at, in node-list order; from each root,
 * buildTree descends into every target that lies strictly further along the
 * chosen axis, pushing the subtree it returns onto the parent's `children`.
 *
 * There is one TreeNode object per node id, shared by every visit: a node
 * reached along two paths is visited twice and gets its children pushed
 * twice. The pure part describes the pushes a visit makes, in order (Visit);
 * the class and methods build the objects and are proved to leave each
 * object's children equal to the pushes made to it.
 */
module TreeBuilder {
  import opened Model

  /** The `direction` argument: left to right, right to left, top to bottom, bottom to top. */
  datatype Axis = LR | RL | TB | BT

  /** shouldAddChild: the child lies strictly further than the parent along the axis. */
  predicate ShouldAddChild(parent: Node, child: Node, dir: Axis) {
    match dir
    case LR => parent.x < child.x
    case RL => parent.x > child.x
    case TB => parent.y < child.y
    case BT => parent.y > child.y
  }

  /** The targets of the edges leaving `id`, in edge-list order: what edgeMap holds for `id`. */
  function Successors(es: seq<Edge>, id: string): seq<string> {
    if |es| == 0 then []
    else
      var last := es[|es| - 1];
      Successors(es[..|es| - 1], id) + (if last.fromNode == id then [last.toNode] else [])
  }

  /** The targets of `id` are exactly the ends of the edges leaving `id`. */
  lemma {:induction false} SuccessorsMembers(es: seq<Edge>, id: string)
    ensures forall c :: c in Successors(es, id) <==> exists e :: e in es && e.fromNode == id && e.toNode == c
  {
    if |es| > 0 {
      var last := es[|es| - 1];
      assert es == es[..|es| - 1] + [last];
      SuccessorsMembers(es[..|es| - 1], id);
    }
  }

  predicate SuccessorsClosed(ns: seq<Node>, es: seq<Edge>, id: string) {
    forall j :: 0 <= j < |Successors(es, id)| ==> Has(ns, Successors(es, id)[j])
  }

  /** With every edge endpoint a node, every target is a node. */
  lemma SuccessorsIn(ns: seq<Node>, es: seq<Edge>, id: string)
    requires EdgesClosed(ns, es)
    ensures SuccessorsClosed(ns, es, id)
  {
    var r := Successors(es, id);
    SuccessorsMembers(es, id);
    forall j | 0 <= j < |r| ensures Has(ns, r[j]) {
      assert r[j] in r;
      var e :| e in es && e.fromNode == id && e.toNode == r[j];
    }
  }

  /** Some edge points at node `id`. */
  predicate Targeted(es: seq<Edge>, id: string) {
    exists e :: e in es && e.toNode == id
  }

  /** The roots: the nodes no edge points at, whatever its side, in node-list order. */
  function Roots(ns: seq<Node>, es: seq<Edge>): (r: seq<Node>)
    ensures |r| <= |ns|
    ensures forall n :: n in r <==> n in ns && !Targeted(es, n.id)
  {
    if |ns| == 0 then []
    else (if Targeted(es, ns[0].id) then [] else [ns[0]]) + Roots(ns[1..], es)
  }

  /** How many nodes of `ns` lie strictly further than `p` along the axis. */
  function Ahead(ns: seq<Node>, dir: Axis, p: Node): nat {
    if |ns| == 0 then 0 else (if ShouldAddChild(p, ns[0], dir) then 1 else 0) + Ahead(ns[1..], dir, p)
  }

  /**
   * A child admitted by shouldAddChild has fewer nodes ahead of it than its parent (every node further
   * than the child is further than the parent, and the child itself is only further than the parent),
   * so the descent ends.
   */
  lemma {:induction false} AheadShrinks(ns: seq<Node>, dir: Axis, p: Node, c: Node)
    requires ShouldAddChild(p, c, dir)
    ensures Ahead(ns, dir, c) <= Ahead(ns, dir, p)
    ensures c in ns ==> Ahead(ns, dir, c) < Ahead(ns, dir, p)
  {
    if |ns| > 0 {
      AheadShrinks(ns[1..], dir, p, c);
      assert ns == [ns[0]] + ns[1..];
    }
  }

  /** A push of the subtree of `child` onto the children of `parent`. */
  datatype Push = Push(parent: string, child: string)

  /** The pushes buildTree(id) makes, in the order it makes them. */
  function Visit(ns: seq<Node>, es: seq<Edge>, dir: Axis, id: string): seq<Push>
    requires EdgesClosed(ns, es) && Has(ns, id)
    decreases Ahead(ns, dir, NodeOf(ns, id)), 1, 0
  {
    SuccessorsIn(ns, es, id);
    Pushes(ns, es, dir, id, Successors(es, id))
  }

  /**
   * The pushes made while buildTree(id) walks the targets `cs`: for each target that lies further along
   * the axis, the pushes of its own visit, then the push of its subtree onto `id`.
   */
  function Pushes(ns: seq<Node>, es: seq<Edge>, dir: Axis, id: string, cs: seq<string>): seq<Push>
    requires EdgesClosed(ns, es) && Has(ns, id) && forall j :: 0 <= j < |cs| ==> Has(ns, cs[j])
    decreases Ahead(ns, dir, NodeOf(ns, id)), 0, |cs|
  {
    if |cs| == 0 then []
    else
      var c := cs[|cs| - 1];
      var before := Pushes(ns, es, dir, id, cs[..|cs| - 1]);
      if ShouldAddChild(NodeOf(ns, id), NodeOf(ns, c), dir) then
        AheadShrinks(ns, dir, NodeOf(ns, id), NodeOf(ns, c));
        before + Visit(ns, es, dir, c) + [Push(id, c)]
      else before
  }

  /** The pushes of buildTrees: the visits of the roots, one after the other. */
  function Forest(ns: seq<Node>, es: seq<Edge>, dir: Axis, roots: seq<Node>): seq<Push>
    requires EdgesClosed(ns, es) && forall j :: 0 <= j < |roots| ==> roots[j] in ns
  {
    if |roots| == 0 then []
    else Forest(ns, es, dir, roots[..|roots| - 1]) + Visit(ns, es, dir, roots[|roots| - 1].id)
  }

  /** The children pushed onto `x`, in push order. */
  function Pushed(ls: seq<Push>, x: string): seq<string> {
    if |ls| == 0 then []
    else Pushed(ls[..|ls| - 1], x) + (if ls[|ls| - 1].parent == x then [ls[|ls| - 1].child] else [])
  }

  /** The children pushed onto `x` are exactly the children of the pushes onto `x`. */
  lemma {:induction false} PushedMembers(ls: seq<Push>, x: string)
    ensures forall c :: c in Pushed(ls, x) <==> Push(x, c) in ls
  {
    if |ls| > 0 {
      assert ls == ls[..|ls| - 1] + [ls[|ls| - 1]];
      PushedMembers(ls[..|ls| - 1], x);
    }
  }

  lemma {:induction false} PushedAppend(a: seq<Push>, b: seq<Push>, x: string)
    ensures Pushed(a + b, x) == Pushed(a, x) + Pushed(b, x)
  {
    if |b| > 0 {
      var b' := b[..|b| - 1];
      assert (a + b)[..|a + b| - 1] == a + b';
      PushedAppend(a, b', x);
    } else {
      assert a + b == a;
    }
  }

  /** The targets of `id` that shouldAddChild admits, in edge-list order (repeated edges repeated). */
  function Admitted(ns: seq<Node>, dir: Axis, id: string, cs: seq<string>): (r: seq<string>)
    requires Has(ns, id) && forall j :: 0 <= j < |cs| ==> Has(ns, cs[j])
    ensures |r| <= |cs|
    ensures forall c :: c in r <==> c in cs && ShouldAddChild(NodeOf(ns, id), NodeOf(ns, c), dir)
  {
    if |cs| == 0 then []
    else
      var c := cs[|cs| - 1];
      assert cs == cs[..|cs| - 1] + [c];
      Admitted(ns, dir, id, cs[..|cs| - 1]) + (if ShouldAddChild(NodeOf(ns, id), NodeOf(ns, c), dir) then [c] else [])
  }

  /**
   * Every push of a visit of `id` joins two nodes of the snapshot along an edge, the child lies strictly
   * further along the axis than the parent, and the parent is `id` itself or lies further than `id`.
   */
  lemma {:induction false} VisitLinks(ns: seq<Node>, es: seq<Edge>, dir: Axis, id: string)
    requires EdgesClosed(ns, es) && Has(ns, id)
    ensures forall l :: l in Visit(ns, es, dir, id) ==>
      && Has(ns, l.parent) && Has(ns, l.child) && l.child in Successors(es, l.parent)
      && ShouldAddChild(NodeOf(ns, l.parent), NodeOf(ns, l.child), dir)
      && (l.parent == id || ShouldAddChild(NodeOf(ns, id), NodeOf(ns, l.parent), dir))
    decreases Ahead(ns, dir, NodeOf(ns, id)), 1, 0
  {
    SuccessorsIn(ns, es, id);
    PushesLinks(ns, es, dir, id, Successors(es, id));
  }

  lemma {:induction false} PushesLinks(ns: seq<Node>, es: seq<Edge>, dir: Axis, id: string, cs: seq<string>)
    requires EdgesClosed(ns, es) && Has(ns, id) && forall j :: 0 <= j < |cs| ==> Has(ns, cs[j])
    requires forall j :: 0 <= j < |cs| ==> cs[j] in Successors(es, id)
    ensures forall l :: l in Pushes(ns, es, dir, id, cs) ==>
      && Has(ns, l.parent) && Has(ns, l.child) && l.child in Successors(es, l.parent)
      && ShouldAddChild(NodeOf(ns, l.parent), NodeOf(ns, l.child), dir)
      && (l.parent == id || ShouldAddChild(NodeOf(ns, id), NodeOf(ns, l.parent), dir))
    decreases Ahead(ns, dir, NodeOf(ns, id)), 0, |cs|
  {
    if |cs| > 0 {
      var c := cs[|cs| - 1];
      PushesLinks(ns, es, dir, id, cs[..|cs| - 1]);
      if ShouldAddChild(NodeOf(ns, id), NodeOf(ns, c), dir) {
        AheadShrinks(ns, dir, NodeOf(ns, id), NodeOf(ns, c));
        VisitLinks(ns, es, dir, c);
      }
    }
  }

  /**
   * A visit of `id` pushes onto `id` exactly its admitted targets, in edge-list order: the descent never
   * comes back to `id`, since every node it enters lies strictly further along the axis.
   */
  lemma {:induction false} VisitOwnChildren(ns: seq<Node>, es: seq<Edge>, dir: Axis, id: string)
    requires EdgesClosed(ns, es) && Has(ns, id)
    ensures SuccessorsClosed(ns, es, id) && Pushed(Visit(ns, es, dir, id), id) == Admitted(ns, dir, id, Successors(es, id))
  {
    SuccessorsIn(ns, es, id);
    PushesOwnChildren(ns, es, dir, id, Successors(es, id));
  }

  lemma {:induction false} PushesOwnChildren(ns: seq<Node>, es: seq<Edge>, dir: Axis, id: string, cs: seq<string>)
    requires EdgesClosed(ns, es) && Has(ns, id) && forall j :: 0 <= j < |cs| ==> Has(ns, cs[j])
    ensures Pushed(Pushes(ns, es, dir, id, cs), id) == Admitted(ns, dir, id, cs)
  {
    if |cs| > 0 {
      var c := cs[|cs| - 1];
      var rest := cs[..|cs| - 1];
      PushesOwnChildren(ns, es, dir, id, rest);
      if ShouldAddChild(NodeOf(ns, id), NodeOf(ns, c), dir) {
        AdmittedPush(ns, es, dir, id, cs);
      } else {
        assert Pushes(ns, es, dir, id, cs) == Pushes(ns, es, dir, id, rest);
        assert Admitted(ns, dir, id, cs) == Admitted(ns, dir, id, rest);
      }
    }
  }

  /** One admitted target: its visit pushes nothing onto `id`, then its subtree is pushed onto `id`. */
  lemma AdmittedPush(ns: seq<Node>, es: seq<Edge>, dir: Axis, id: string, cs: seq<string>)
    requires EdgesClosed(ns, es) && Has(ns, id) && forall j :: 0 <= j < |cs| ==> Has(ns, cs[j])
    requires cs != [] && ShouldAddChild(NodeOf(ns, id), NodeOf(ns, cs[|cs| - 1]), dir)
    requires Pushed(Pushes(ns, es, dir, id, cs[..|cs| - 1]), id) == Admitted(ns, dir, id, cs[..|cs| - 1])
    ensures Pushed(Pushes(ns, es, dir, id, cs), id) == Admitted(ns, dir, id, cs)
  {
    var c := cs[|cs| - 1];
    var rest := cs[..|cs| - 1];
    var before := Pushes(ns, es, dir, id, rest);
    var inner := Visit(ns, es, dir, c);
    assert Pushes(ns, es, dir, id, cs) == before + inner + [Push(id, c)];
    assert Admitted(ns, dir, id, cs) == Admitted(ns, dir, id, rest) + [c];
    NoReturn(ns, es, dir, id, c);
    PushedAppend(before, inner, id);
    PushedAppend(before + inner, [Push(id, c)], id);
    assert Pushed([Push(id, c)], id) == [c];
    assert Pushed(before + inner, id) == Pushed(before, id);
  }

  /** A visit of a node further along the axis than `id` pushes nothing onto `id`. */
  lemma NoReturn(ns: seq<Node>, es: seq<Edge>, dir: Axis, id: string, c: string)
    requires EdgesClosed(ns, es) && Has(ns, id) && Has(ns, c) && ShouldAddChild(NodeOf(ns, id), NodeOf(ns, c), dir)
    ensures Pushed(Visit(ns, es, dir, c), id) == []
  {
    var inner := Visit(ns, es, dir, c);
    VisitLinks(ns, es, dir, c);
    forall l | l in inner ensures l.parent != id {
      if l.parent != c {
        assert ShouldAddChild(NodeOf(ns, c), NodeOf(ns, l.parent), dir);
      }
    }
    PushedNone(inner, id);
  }

  lemma {:induction false} PushedNone(ls: seq<Push>, x: string)
    requires forall l :: l in ls ==> l.parent != x
    ensures Pushed(ls, x) == []
  {
    if |ls| > 0 {
      assert ls[|ls| - 1] in ls;
      PushedNone(ls[..|ls| - 1], x);
    }
  }

  /** Every push of buildTrees follows an edge to a node strictly further along the axis. */
  lemma {:induction false} ForestLinks(ns: seq<Node>, es: seq<Edge>, dir: Axis, roots: seq<Node>)
    requires EdgesClosed(ns, es) && forall j :: 0 <= j < |roots| ==> roots[j] in ns
    ensures forall l :: l in Forest(ns, es, dir, roots) ==>
      && Has(ns, l.parent) && Has(ns, l.child) && l.child in Successors(es, l.parent)
      && ShouldAddChild(NodeOf(ns, l.parent), NodeOf(ns, l.child), dir)
  {
    if |roots| > 0 {
      var r := roots[|roots| - 1];
      ForestLinks(ns, es, dir, roots[..|roots| - 1]);
      assert Has(ns, r.id) by { var k :| 0 <= k < |ns| && ns[k] == r; }
      VisitLinks(ns, es, dir, r.id);
    }
  }

  // ---------------------------------------------------------------- the objects

  /** The TreeNode of one canvas node: the node's data and the subtrees pushed onto it. */
  class TreeNode {
    const node: Node
    var children: seq<TreeNode>

    constructor (n: Node)
      ensures node == n && children == []
    {
      node := n;
      children := [];
    }
  }

  /** The node ids of a list of TreeNodes (their `node` is fixed, so this reads nothing). */
  function Ids(ts: seq<TreeNode>): (r: seq<string>)
    ensures |r| == |ts| && forall j :: 0 <= j < |r| ==> r[j] == ts[j].node.id
  {
    seq(|ts|, j requires 0 <= j < |ts| => ts[j].node.id)
  }

  /** nodeMap holds one TreeNode per node id, carrying that node, and no object twice. */
  ghost predicate NodeTable(nodeMap: map<string, TreeNode>, ns: seq<Node>) {
    && (forall id :: id in nodeMap <==> Has(ns, id))
    && (forall id :: id in nodeMap ==> nodeMap[id].node == NodeOf(ns, id))
    && (forall a, b :: a in nodeMap && b in nodeMap && a != b ==> nodeMap[a] != nodeMap[b])
  }

  /** Every TreeNode of `ts` is the shared TreeNode of its node id. */
  predicate SharedList(nodeMap: map<string, TreeNode>, ts: seq<TreeNode>) {
    forall j :: 0 <= j < |ts| ==> ts[j].node.id in nodeMap && ts[j] == nodeMap[ts[j].node.id]
  }

  /** Every child of a TreeNode is the shared TreeNode of its node id. */
  ghost predicate Shared(nodeMap: map<string, TreeNode>)
    reads nodeMap.Values
  {
    forall x :: x in nodeMap ==> SharedList(nodeMap, nodeMap[x].children)
  }

  /** edgeMap.get(id), or nothing when `id` has no entry (the `?.forEach` of buildTree). */
  function Lookup(edgeMap: map<string, seq<string>>, id: string): seq<string> {
    if id in edgeMap then edgeMap[id] else []
  }

  /** Walking one more target adds its pushes, if it is admitted. */
  lemma PushesStep(ns: seq<Node>, es: seq<Edge>, dir: Axis, id: string, cs: seq<string>, i: nat, p: Node, q: Node)
    requires EdgesClosed(ns, es) && Has(ns, id) && (forall j :: 0 <= j < |cs| ==> Has(ns, cs[j])) && i < |cs|
    requires p == NodeOf(ns, id) && q == NodeOf(ns, cs[i])
    ensures ShouldAddChild(p, q, dir) ==>
      Pushes(ns, es, dir, id, cs[..i + 1]) == Pushes(ns, es, dir, id, cs[..i]) + (Visit(ns, es, dir, cs[i]) + [Push(id, cs[i])])
    ensures !ShouldAddChild(p, q, dir) ==> Pushes(ns, es, dir, id, cs[..i + 1]) == Pushes(ns, es, dir, id, cs[..i])
  {
    assert cs[..i + 1][..i] == cs[..i];
  }

  /** Every TreeNode's child ids are its ids in `m` followed by the pushes `ls` made onto it. */
  ghost predicate Grown(nodeMap: map<string, TreeNode>, m: map<string, seq<string>>, ls: seq<Push>)
    reads nodeMap.Values
  {
    forall x :: x in nodeMap ==> x in m && Ids(nodeMap[x].children) == m[x] + Pushed(ls, x)
  }

  /** One more push onto `id` adds `c` at the end of its children and nothing to the others'. */
  lemma PushedLast(ls: seq<Push>, id: string, c: string, x: string)
    ensures Pushed(ls + [Push(id, c)], x) == Pushed(ls, x) + (if x == id then [c] else [])
  {
    assert (ls + [Push(id, c)])[..|ls|] == ls;
  }

  /** The child lists after one push onto `id`, on top of the pushes `ls`. */
  lemma GrownPush(nodeMap: map<string, TreeNode>, id: string, c: string, m: map<string, seq<string>>, ls: seq<Push>)
    requires id in nodeMap && forall x :: x in nodeMap ==> x in m
    requires forall x :: x in nodeMap && x != id ==> Ids(nodeMap[x].children) == m[x] + Pushed(ls, x)
    requires Ids(nodeMap[id].children) == m[id] + Pushed(ls, id) + [c]
    ensures Grown(nodeMap, m, ls + [Push(id, c)])
  {
    forall x | x in nodeMap ensures Ids(nodeMap[x].children) == m[x] + Pushed(ls + [Push(id, c)], x) {
      PushedAt(Ids(nodeMap[x].children), m[x], ls, id, c, x);
    }
  }

  /** The child ids of one TreeNode `x` after the push of `c` onto `id`. */
  lemma PushedAt(ids: seq<string>, before: seq<string>, ls: seq<Push>, id: string, c: string, x: string)
    requires x == id ==> ids == before + Pushed(ls, x) + [c]
    requires x != id ==> ids == before + Pushed(ls, x)
    ensures ids == before + Pushed(ls + [Push(id, c)], x)
  {
    PushedLast(ls, id, c, x);
    if x == id {
      assert before + Pushed(ls, x) + [c] == before + (Pushed(ls, x) + [c]);
    } else {
      assert Pushed(ls, x) + [] == Pushed(ls, x);
    }
  }

  /** parent.children.push(child): one more child on `t`, every other TreeNode untouched. */
  method AddChild(nodeMap: map<string, TreeNode>, t: TreeNode, ghost id: string, child: TreeNode, ghost c: string,
                  ghost m: map<string, seq<string>>, ghost ls: seq<Push>)
    requires id in nodeMap && t == nodeMap[id] && c in nodeMap && child == nodeMap[c] && child.node.id == c
    requires forall x :: x in nodeMap && x != id ==> nodeMap[x] != t
    requires Shared(nodeMap) && Grown(nodeMap, m, ls)
    modifies t
    ensures Shared(nodeMap) && Grown(nodeMap, m, ls + [Push(id, c)])
  {
    ghost var had := t.children;
    assert SharedList(nodeMap, had);
    assert Ids(had) == m[id] + Pushed(ls, id);
    t.children := t.children + [child];
    assert SharedList(nodeMap, t.children);
    assert Ids(t.children) == Ids(had) + [c];
    assert forall x :: x in nodeMap && x != id ==> nodeMap[x].children == old(nodeMap[x].children);
    GrownPush(nodeMap, id, c, m, ls);
  }

  /**
   * The callback buildTree runs for the i-th target `cs[i]` of `id`: when it lies further along the
   * axis, build its subtree and push it onto `t`, the TreeNode of `id`; otherwise do nothing. Either
   * way the children have grown by the pushes of the targets up to and including this one.
   */
  method VisitTarget(id: string, t: TreeNode, cs: seq<string>, i: nat, edgeMap: map<string, seq<string>>,
                     nodeMap: map<string, TreeNode>, dir: Axis,
                     ghost ns: seq<Node>, ghost es: seq<Edge>, ghost m: map<string, seq<string>>, ghost done: seq<Push>)
    requires EdgesClosed(ns, es) && Has(ns, id) && (forall j :: 0 <= j < |cs| ==> Has(ns, cs[j])) && i < |cs|
    requires NodeTable(nodeMap, ns) && Shared(nodeMap) && t == nodeMap[id]
    requires forall x :: Lookup(edgeMap, x) == Successors(es, x)
    requires Grown(nodeMap, m, done + Pushes(ns, es, dir, id, cs[..i]))
    modifies nodeMap.Values
    decreases Ahead(ns, dir, NodeOf(ns, id)), 0
    ensures Shared(nodeMap) && Grown(nodeMap, m, done + Pushes(ns, es, dir, id, cs[..i + 1]))
  {
    ghost var acc := done + Pushes(ns, es, dir, id, cs[..i]);
    ghost var next := Walked(ns, es, dir, id, cs, i, done, acc);
    var c := cs[i];
    var childNode := nodeMap[c];
    if ShouldAddChild(t.node, childNode.node, dir) {
      assert Ahead(ns, dir, NodeOf(ns, c)) < Ahead(ns, dir, NodeOf(ns, id)) by {
        AheadShrinks(ns, dir, NodeOf(ns, id), NodeOf(ns, c));
      }
      var child := BuildTree(c, edgeMap, nodeMap, dir, ns, es, m, acc);
      AddChild(nodeMap, t, id, child, c, m, acc + Visit(ns, es, dir, c));
    }
  }

  /**
   * buildTree: walks the targets of `id` in edge-list order and, for each one further along the axis,
   * builds its subtree and pushes it onto the TreeNode of `id`, which it returns. If every TreeNode's
   * children were those of `m` plus the pushes `done`, they end as those plus the pushes Visit lists.
   */
  method BuildTree(id: string, edgeMap: map<string, seq<string>>, nodeMap: map<string, TreeNode>, dir: Axis,
                   ghost ns: seq<Node>, ghost es: seq<Edge>, ghost m: map<string, seq<string>>, ghost done: seq<Push>)
    returns (t: TreeNode)
    requires EdgesClosed(ns, es) && Has(ns, id) && NodeTable(nodeMap, ns) && Shared(nodeMap)
    requires forall x :: Lookup(edgeMap, x) == Successors(es, x)
    requires Grown(nodeMap, m, done)
    modifies nodeMap.Values
    decreases Ahead(ns, dir, NodeOf(ns, id)), 2
    ensures t == nodeMap[id] && Shared(nodeMap)
    ensures Grown(nodeMap, m, done + Visit(ns, es, dir, id))
  {
    t := nodeMap[id];
    var cs := Lookup(edgeMap, id);
    SuccessorsIn(ns, es, id);
    WalkTargets(id, t, cs, edgeMap, nodeMap, dir, ns, es, m, done);
  }

  /** The forEach of buildTree over the targets `cs` of `id`, each handed to the callback in turn. */
  method WalkTargets(id: string, t: TreeNode, cs: seq<string>, edgeMap: map<string, seq<string>>,
                     nodeMap: map<string, TreeNode>, dir: Axis,
                     ghost ns: seq<Node>, ghost es: seq<Edge>, ghost m: map<string, seq<string>>, ghost done: seq<Push>)
    requires EdgesClosed(ns, es) && Has(ns, id) && (forall j :: 0 <= j < |cs| ==> Has(ns, cs[j]))
    requires NodeTable(nodeMap, ns) && Shared(nodeMap) && t == nodeMap[id]
    requires forall x :: Lookup(edgeMap, x) == Successors(es, x)
    requires Grown(nodeMap, m, done)
    modifies nodeMap.Values
    decreases Ahead(ns, dir, NodeOf(ns, id)), 1
    ensures Shared(nodeMap) && Grown(nodeMap, m, done + Pushes(ns, es, dir, id, cs))
  {
    assert cs[..0] == [] && done + [] == done;
    var i := 0;
    while i < |cs|
      invariant 0 <= i <= |cs| && Shared(nodeMap)
      invariant Grown(nodeMap, m, done + Pushes(ns, es, dir, id, cs[..i]))
    {
      VisitTarget(id, t, cs, i, edgeMap, nodeMap, dir, ns, es, m, done);
      i := i + 1;
    }
    assert cs[..|cs|] == cs;
  }

  /** The pushes after one more target, regrouped as the loop of buildTree accumulates them. */
  lemma Walked(ns: seq<Node>, es: seq<Edge>, dir: Axis, id: string, cs: seq<string>, i: nat, done: seq<Push>, acc: seq<Push>)
    returns (next: seq<Push>)
    requires EdgesClosed(ns, es) && Has(ns, id) && (forall j :: 0 <= j < |cs| ==> Has(ns, cs[j])) && i < |cs|
    requires acc == done + Pushes(ns, es, dir, id, cs[..i])
    ensures next == done + Pushes(ns, es, dir, id, cs[..i + 1])
    ensures ShouldAddChild(NodeOf(ns, id), NodeOf(ns, cs[i]), dir) ==> next == acc + Visit(ns, es, dir, cs[i]) + [Push(id, cs[i])]
    ensures !ShouldAddChild(NodeOf(ns, id), NodeOf(ns, cs[i]), dir) ==> next == acc
  {
    next := done + Pushes(ns, es, dir, id, cs[..i + 1]);
    var before := Pushes(ns, es, dir, id, cs[..i]);
    if ShouldAddChild(NodeOf(ns, id), NodeOf(ns, cs[i]), dir) {
      var more := Visit(ns, es, dir, cs[i]) + [Push(id, cs[i])];
      assert Pushes(ns, es, dir, id, cs[..i + 1]) == before + more by {
        PushesStep(ns, es, dir, id, cs, i, NodeOf(ns, id), NodeOf(ns, cs[i]));
      }
      assert done + (before + more) == done + before + more;
    } else {
      assert Pushes(ns, es, dir, id, cs[..i + 1]) == before by {
        PushesStep(ns, es, dir, id, cs, i, NodeOf(ns, id), NodeOf(ns, cs[i]));
      }
    }
  }

  /** Every node id with no children yet: the child lists of a freshly built nodeMap. */
  function Childless(ns: seq<Node>): (r: map<string, seq<string>>)
    ensures forall x :: x in r <==> Has(ns, x)
    ensures forall x :: x in r ==> r[x] == []
  {
    var ids := IdsOf(ns);
    assert forall x :: Has(ns, x) ==> x in ids by {
      forall x | Has(ns, x) ensures x in ids {
        var i :| 0 <= i < |ns| && ns[i].id == x;
        assert ids[i] == x;
      }
    }
    map x | x in ids :: []
  }

  /** Before any push, a table of childless TreeNodes has grown from Childless by nothing. */
  lemma StartChildless(nodeMap: map<string, TreeNode>, ns: seq<Node>)
    requires NodeTable(nodeMap, ns) && forall x :: x in nodeMap ==> nodeMap[x].children == []
    ensures Grown(nodeMap, Childless(ns), [])
  {
    var none := Childless(ns);
    forall x | x in nodeMap ensures Ids(nodeMap[x].children) == none[x] + Pushed([], x) {
      assert none[x] + [] == none[x];
    }
  }

  /** The first forEach of buildTrees: one new childless TreeNode per canvas node, keyed by its id. */
  method NewNodeMap(ns: seq<Node>) returns (nodeMap: map<string, TreeNode>)
    requires UniqueIds(ns)
    ensures NodeTable(nodeMap, ns)
    ensures forall x :: x in nodeMap ==> fresh(nodeMap[x]) && nodeMap[x].children == []
  {
    nodeMap := map[];
    for i := 0 to |ns|
      invariant forall x :: x in nodeMap <==> Has(ns[..i], x)
      invariant forall k :: 0 <= k < i ==> ns[k].id in nodeMap && nodeMap[ns[k].id].node == ns[k]
      invariant forall x :: x in nodeMap ==> fresh(nodeMap[x]) && nodeMap[x].children == []
      invariant forall a, b :: a in nodeMap && b in nodeMap && a != b ==> nodeMap[a] != nodeMap[b]
    {
      var t := new TreeNode(ns[i]);
      assert ns[..i + 1] == ns[..i] + [ns[i]];
      forall x ensures Has(ns[..i + 1], x) <==> Has(ns[..i], x) || ns[i].id == x {
        HasAppend(ns[..i], ns[i], x);
      }
      nodeMap := nodeMap[ns[i].id := t];
    }
    assert ns[..|ns|] == ns;
    forall x | x in nodeMap ensures nodeMap[x].node == NodeOf(ns, x) {
      var k :| 0 <= k < |ns| && ns[k].id == x;
      NodeOfAt(ns, k);
    }
  }

  /** The second forEach of buildTrees: edgeMap.get(id) lists the targets of the edges leaving id, in edge order. */
  method NewEdgeMap(es: seq<Edge>) returns (edgeMap: map<string, seq<string>>)
    ensures forall x :: Lookup(edgeMap, x) == Successors(es, x)
  {
    edgeMap := map[];
    for j := 0 to |es|
      invariant forall x :: Lookup(edgeMap, x) == Successors(es[..j], x)
    {
      var e := es[j];
      assert es[..j + 1][..j] == es[..j];
      if e.fromNode !in edgeMap {
        edgeMap := edgeMap[e.fromNode := []];
      }
      edgeMap := edgeMap[e.fromNode := edgeMap[e.fromNode] + [e.toNode]];
    }
    assert es[..|es|] == es;
  }

  /** The roots are canvas nodes. */
  lemma RootsIn(ns: seq<Node>, es: seq<Edge>)
    ensures var roots := Roots(ns, es);
      forall k :: 0 <= k < |roots| ==> roots[k] in ns && Has(ns, roots[k].id)
  {
    var roots := Roots(ns, es);
    forall k | 0 <= k < |roots| ensures roots[k] in ns && Has(ns, roots[k].id) {
      assert roots[k] in roots;
      var i :| 0 <= i < |ns| && ns[i] == roots[k];
    }
  }

  /** The pushes after the walk from one more root. */
  lemma ForestStep(ns: seq<Node>, es: seq<Edge>, dir: Axis, roots: seq<Node>, k: nat)
    requires EdgesClosed(ns, es) && (forall j :: 0 <= j < |roots| ==> roots[j] in ns) && k < |roots|
    ensures Forest(ns, es, dir, roots[..k + 1]) == Forest(ns, es, dir, roots[..k]) + Visit(ns, es, dir, roots[k].id)
  {
    assert roots[..k + 1][..k] == roots[..k];
  }

  /** trees.push(tree) with the tree of the next root keeps the trees those of the roots so far. */
  lemma RootTreesStep(nodeMap: map<string, TreeNode>, roots: seq<Node>, trees: seq<TreeNode>, tree: TreeNode)
    requires |trees| < |roots| && forall j :: 0 <= j < |trees| ==> roots[j].id in nodeMap && trees[j] == nodeMap[roots[j].id]
    requires roots[|trees|].id in nodeMap && tree == nodeMap[roots[|trees|].id]
    ensures forall j :: 0 <= j < |trees| + 1 ==> (trees + [tree])[j] == nodeMap[roots[j].id]
  {
  }

  /**
   * The last forEach of buildTrees: builds the tree of every root in turn and collects them. Every
   * TreeNode's children grow by the pushes of the walks from all the roots, one walk after the other.
   */
  method PlantTrees(roots: seq<Node>, edgeMap: map<string, seq<string>>, nodeMap: map<string, TreeNode>, dir: Axis,
                    ghost ns: seq<Node>, ghost es: seq<Edge>, ghost m: map<string, seq<string>>) returns (trees: seq<TreeNode>)
    requires EdgesClosed(ns, es) && NodeTable(nodeMap, ns) && Shared(nodeMap)
    requires forall k :: 0 <= k < |roots| ==> roots[k] in ns && Has(ns, roots[k].id) && roots[k].id in nodeMap
    requires forall x :: Lookup(edgeMap, x) == Successors(es, x)
    requires Grown(nodeMap, m, [])
    modifies nodeMap.Values
    ensures Shared(nodeMap) && Grown(nodeMap, m, Forest(ns, es, dir, roots))
    ensures |trees| == |roots| && forall k :: 0 <= k < |roots| ==> trees[k] == nodeMap[roots[k].id]
  {
    assert roots[..0] == [];
    trees := [];
    ghost var acc: seq<Push> := [];
    for k := 0 to |roots|
      invariant Shared(nodeMap)
      invariant |trees| == k
      invariant forall j :: 0 <= j < k ==> trees[j] == nodeMap[roots[j].id]
      invariant acc == Forest(ns, es, dir, roots[..k])
      invariant Grown(nodeMap, m, acc)
    {
      var tree := BuildTree(roots[k].id, edgeMap, nodeMap, dir, ns, es, m, acc);
      RootTreesStep(nodeMap, roots, trees, tree);
      trees := trees + [tree];
      ForestStep(ns, es, dir, roots, k);
      acc := acc + Visit(ns, es, dir, roots[k].id);
    }
    assert roots[..|roots|] == roots;
  }

  /**
   * buildTrees: a TreeNode per node, the targets of each node, then one tree per root (a node no edge
   * points at), in canvas order. The trees are the shared TreeNodes of the roots, and every TreeNode's
   * children are exactly the pushes the walk from every root in turn makes onto it.
   */
  method BuildTrees(ns: seq<Node>, es: seq<Edge>, dir: Axis) returns (trees: seq<TreeNode>, nodeMap: map<string, TreeNode>)
    requires UniqueIds(ns) && EdgesClosed(ns, es)
    ensures NodeTable(nodeMap, ns) && Shared(nodeMap)
    ensures |trees| == |Roots(ns, es)| && forall k :: 0 <= k < |trees| ==> trees[k] == nodeMap[Roots(ns, es)[k].id]
    ensures Grown(nodeMap, Childless(ns), Forest(ns, es, dir, Roots(ns, es)))
  {
    nodeMap := NewNodeMap(ns);
    var edgeMap := NewEdgeMap(es);
    var roots := Roots(ns, es);
    RootsIn(ns, es);
    StartChildless(nodeMap, ns);
    trees := PlantTrees(roots, edgeMap, nodeMap, dir, ns, es, Childless(ns));
  }
}
