/**
 * The sibling-column relayout shared by createSiblingNode and the delete
 * handler: the children of a parent, sorted by y, are moved one by one to a
 * common x, the first to a given top y0 and each following one to the
 * (already moved) y of its predecessor plus the predecessor's height plus 20.
 *
 * Restacked gives the closed form of where that loop leaves every node; the
 * lemmas say that the column is evenly spaced and how long it is.
 */
module Layout {
  import opened Model
  import opened Sorting

  /** The vertical gap between two nodes of a column. */
  const Gap: real := 20.0

  /** Σ (height + 20) over `ns`, added up from the first node to the last. */
  function SumHeights(ns: seq<Node>): real {
    if |ns| == 0 then 0.0 else SumHeights(ns[..|ns| - 1]) + ns[|ns| - 1].height + Gap
  }

  predicate AllIn(ns: seq<Node>, ids: seq<string>) {
    forall j :: 0 <= j < |ids| ==> Has(ns, ids[j])
  }

  predicate Distinct(ids: seq<string>) {
    forall i, j :: 0 <= i < j < |ids| ==> ids[i] != ids[j]
  }

  /** Distance from the top of the column to the top of its i-th entry: Σ (h + 20) over the entries before it. */
  function Offset(ns: seq<Node>, ids: seq<string>, i: nat): real
    requires i <= |ids| && forall j :: 0 <= j < i ==> Has(ns, ids[j])
  {
    if i == 0 then 0.0 else Offset(ns, ids, i - 1) + NodeOf(ns, ids[i - 1]).height + Gap
  }

  /** The last position at which `id` occurs in `ids`. */
  function LastIndex(ids: seq<string>, id: string): (k: nat)
    requires id in ids
    ensures k < |ids| && ids[k] == id && forall j :: k < j < |ids| ==> ids[j] != id
  {
    if ids[|ids| - 1] == id then |ids| - 1 else LastIndex(ids[..|ids| - 1], id)
  }

  /** Where the column loop leaves node `n`: a column entry at x, at the offset of its last occurrence below y0. */
  function Placed(ns: seq<Node>, ids: seq<string>, x: real, y0: real, n: Node): Node
    requires AllIn(ns, ids)
  {
    if n.id in ids then n.(x := x, y := y0 + Offset(ns, ids, LastIndex(ids, n.id))) else n
  }

  /** The node list after the column loop over `ids` with common x and first top y0. */
  function Restacked(ns: seq<Node>, ids: seq<string>, x: real, y0: real): (r: seq<Node>)
    requires AllIn(ns, ids)
    ensures |r| == |ns| && forall k :: 0 <= k < |ns| ==> r[k] == Placed(ns, ids, x, y0, ns[k])
  {
    seq(|ns|, k requires 0 <= k < |ns| => Placed(ns, ids, x, y0, ns[k]))
  }

  /** An offset only depends on the entries before it. */
  lemma {:induction false} OffsetPrefix(ns: seq<Node>, ids: seq<string>, m: nat, i: nat)
    requires i <= m <= |ids| && AllIn(ns, ids)
    ensures AllIn(ns, ids[..m]) && Offset(ns, ids[..m], i) == Offset(ns, ids, i)
  {
    assert AllIn(ns, ids[..m]) by {
      forall j | 0 <= j < m ensures Has(ns, ids[..m][j]) { assert ids[..m][j] == ids[j]; }
    }
    if i > 0 {
      OffsetPrefix(ns, ids, m, i - 1);
      assert ids[..m][i - 1] == ids[i - 1];
    }
  }

  /** The relayout keeps every node's id in place, so lookups by id answer at the same positions. */
  lemma RestackedKeepsIds(ns: seq<Node>, ids: seq<string>, x: real, y0: real, id: string)
    requires AllIn(ns, ids)
    ensures var r := Restacked(ns, ids, x, y0);
      IndexOf(r, id) == IndexOf(ns, id) && (Has(r, id) <==> Has(ns, id))
  {
    var r := Restacked(ns, ids, x, y0);
    assert forall k :: 0 <= k < |ns| ==> ns[k].id == r[k].id;
    SameIdsSameIndex(ns, r, id);
  }

  /** With distinct entries, the j-th entry ends at (x, y0 + Offset(j)) and keeps its size and content. */
  lemma ColumnEntry(ns: seq<Node>, ids: seq<string>, x: real, y0: real, j: nat)
    requires AllIn(ns, ids) && Distinct(ids) && j < |ids|
    ensures var r := Restacked(ns, ids, x, y0);
      Has(r, ids[j]) && NodeOf(r, ids[j]) == NodeOf(ns, ids[j]).(x := x, y := y0 + Offset(ns, ids, j))
  {
    RestackedKeepsIds(ns, ids, x, y0, ids[j]);
    assert LastIndex(ids, ids[j]) == j;
  }

  /**
   * With distinct entries the relayout puts the i-th entry at (x, y0 + Offset(i)), keeps its size and
   * content, and puts the next entry 20 below the bottom of the i-th.
   */
  lemma ColumnStacked(ns: seq<Node>, ids: seq<string>, x: real, y0: real, i: nat)
    requires AllIn(ns, ids) && Distinct(ids) && i < |ids|
    ensures var r := Restacked(ns, ids, x, y0);
      && Has(r, ids[i])
      && NodeOf(r, ids[i]) == NodeOf(ns, ids[i]).(x := x, y := y0 + Offset(ns, ids, i))
      && (i + 1 < |ids| ==>
            Has(r, ids[i + 1]) &&
            NodeOf(r, ids[i + 1]).y == NodeOf(r, ids[i]).y + NodeOf(r, ids[i]).height + Gap)
  {
    ColumnEntry(ns, ids, x, y0, i);
    if i + 1 < |ids| {
      ColumnEntry(ns, ids, x, y0, i + 1);
    }
  }

  /** The relayout only moves nodes: every node keeps its place in the list, its id, size, content, colour and edit state. */
  lemma RestackedOnlyMoves(ns: seq<Node>, ids: seq<string>, x: real, y0: real)
    requires AllIn(ns, ids)
    ensures var r := Restacked(ns, ids, x, y0);
      forall k :: 0 <= k < |ns| ==> r[k] == ns[k].(x := r[k].x, y := r[k].y)
  {
  }

  /** Nodes outside the column are left where they are. */
  lemma OutsideColumnUnchanged(ns: seq<Node>, ids: seq<string>, x: real, y0: real, k: nat)
    requires AllIn(ns, ids) && k < |ns| && ns[k].id !in ids
    ensures Restacked(ns, ids, x, y0)[k] == ns[k]
  {
  }

  /** Dropping the last entry, when it is not `id`, leaves the last position of `id` where it was. */
  lemma LastIndexDrop(ids: seq<string>, i: nat, id: string)
    requires i < |ids| && id in ids[..i + 1] && id != ids[i]
    ensures id in ids[..i] && LastIndex(ids[..i + 1], id) == LastIndex(ids[..i], id)
  {
    assert ids[..i + 1] == ids[..i] + [ids[i]];
    assert ids[..i + 1][..i] == ids[..i];
  }

  /** Where one node stands after i + 1 moves, given where it stood after i; the i-th entry goes to (x, y). */
  lemma PlacedStep(ns: seq<Node>, ids: seq<string>, x: real, y0: real, i: nat, n: Node, id: string, y: real)
    requires AllIn(ns, ids) && i < |ids| && id == ids[i] && y == y0 + Offset(ns, ids, i)
    ensures AllIn(ns, ids[..i]) && AllIn(ns, ids[..i + 1])
    ensures var p := Placed(ns, ids[..i], x, y0, n);
      p.id == n.id && (if p.id == id then p.(x := x, y := y) else p) == Placed(ns, ids[..i + 1], x, y0, n)
  {
    OffsetPrefix(ns, ids, i, 0);
    OffsetPrefix(ns, ids, i + 1, 0);
    if n.id == id {
      PlacedMoved(ns, ids, x, y0, i, n, y);
    } else if n.id in ids[..i + 1] {
      PlacedEarlier(ns, ids, x, y0, i, n);
    } else {
      assert ids[..i + 1] == ids[..i] + [ids[i]];
    }
  }

  /** The entry just moved stands at (x, y), wherever an earlier move had put it. */
  lemma PlacedMoved(ns: seq<Node>, ids: seq<string>, x: real, y0: real, i: nat, n: Node, y: real)
    requires AllIn(ns, ids) && i < |ids| && n.id == ids[i] && y == y0 + Offset(ns, ids, i)
    requires AllIn(ns, ids[..i]) && AllIn(ns, ids[..i + 1])
    ensures Placed(ns, ids[..i], x, y0, n).(x := x, y := y) == n.(x := x, y := y) == Placed(ns, ids[..i + 1], x, y0, n)
  {
    assert ids[..i + 1][i] == n.id;
    assert LastIndex(ids[..i + 1], n.id) == i;
    OffsetPrefix(ns, ids, i + 1, i);
    assert Placed(ns, ids[..i + 1], x, y0, n).y == y;
  }

  /** An entry moved before, and not again, stays where that move put it. */
  lemma PlacedEarlier(ns: seq<Node>, ids: seq<string>, x: real, y0: real, i: nat, n: Node)
    requires AllIn(ns, ids) && i < |ids| && n.id != ids[i] && n.id in ids[..i + 1]
    requires AllIn(ns, ids[..i]) && AllIn(ns, ids[..i + 1])
    ensures Placed(ns, ids[..i], x, y0, n) == Placed(ns, ids[..i + 1], x, y0, n)
  {
    LastIndexDrop(ids, i, n.id);
    var j := LastIndex(ids[..i], n.id);
    OffsetPrefix(ns, ids, i, j);
    OffsetPrefix(ns, ids, i + 1, j);
  }

  /** `cur` is the node list after the column loop has moved the entries `pre`. */
  predicate Stage(ns: seq<Node>, pre: seq<string>, x: real, y0: real, cur: seq<Node>) {
    && AllIn(ns, pre)
    && |cur| == |ns|
    && forall k :: 0 <= k < |ns| ==> cur[k] == Placed(ns, pre, x, y0, ns[k])
  }

  /**
   * One more turn of the column loop: moving the i-th entry to (x, y0 + Offset(i)) takes the list
   * placed by the first i entries to the list placed by the first i + 1.
   */
  lemma RestackStep(ns: seq<Node>, ids: seq<string>, x: real, y0: real, i: nat, cur: seq<Node>, id: string, y: real)
    requires AllIn(ns, ids) && i < |ids| && Stage(ns, ids[..i], x, y0, cur)
    requires id == ids[i] && y == y0 + Offset(ns, ids, i)
    ensures Stage(ns, ids[..i + 1], x, y0, MoveNode(cur, id, x, y))
  {
    OffsetPrefix(ns, ids, i + 1, 0);
    var next := MoveNode(cur, id, x, y);
    forall k | 0 <= k < |ns| ensures next[k] == Placed(ns, ids[..i + 1], x, y0, ns[k]) {
      PlacedStep(ns, ids, x, y0, i, ns[k], id, y);
    }
  }

  /** Before the first move nothing is placed; after the last the list is the closed form. */
  lemma StageEnds(ns: seq<Node>, ids: seq<string>, x: real, y0: real, cur: seq<Node>)
    requires AllIn(ns, ids)
    ensures Stage(ns, ids[..0], x, y0, ns)
    ensures Stage(ns, ids[..|ids|], x, y0, cur) ==> cur == Restacked(ns, ids, x, y0)
  {
    assert ids[..0] == [];
    assert ids[..|ids|] == ids;
  }

  /** The entry moved last stands at its offset in the column. */
  lemma PlacedLast(ns: seq<Node>, ids: seq<string>, x: real, y0: real, i: nat, n: Node)
    requires AllIn(ns, ids) && 0 < i <= |ids| && n.id == ids[i - 1]
    ensures AllIn(ns, ids[..i]) && Placed(ns, ids[..i], x, y0, n) == n.(x := x, y := y0 + Offset(ns, ids, i - 1))
  {
    OffsetPrefix(ns, ids, i, i - 1);
    assert ids[..i][i - 1] == n.id;
    assert LastIndex(ids[..i], n.id) == i - 1;
  }

  /**
   * What the loop reads before the i-th move: the already moved (i-1)-th entry ends 20 above where the
   * i-th one goes.
   */
  lemma RestackPrev(ns: seq<Node>, ids: seq<string>, x: real, y0: real, i: nat, cur: seq<Node>)
    requires AllIn(ns, ids) && 0 < i <= |ids| && Stage(ns, ids[..i], x, y0, cur)
    ensures Has(cur, ids[i - 1])
    ensures var p := NodeOf(cur, ids[i - 1]); p.y + p.height + Gap == y0 + Offset(ns, ids, i)
  {
    var id := ids[i - 1];
    var k := IndexOf(ns, id);
    PlacedLast(ns, ids, x, y0, i, ns[k]);
    StageKeepsIds(ns, ids[..i], x, y0, cur, id);
    assert NodeOf(cur, id) == cur[k];
    OffsetNext(ns, ids, i, x, y0, cur[k]);
  }

  /** Every stage keeps each node's id in place, so lookups by id answer at the same positions. */
  lemma StageKeepsIds(ns: seq<Node>, pre: seq<string>, x: real, y0: real, cur: seq<Node>, id: string)
    requires Stage(ns, pre, x, y0, cur)
    ensures IndexOf(cur, id) == IndexOf(ns, id) && (Has(cur, id) <==> Has(ns, id))
  {
    assert forall k :: 0 <= k < |ns| ==> ns[k].id == cur[k].id;
    SameIdsSameIndex(ns, cur, id);
  }

  /** A node of the height of the (i-1)-th entry standing at that entry's offset ends 20 above the i-th offset. */
  lemma OffsetNext(ns: seq<Node>, ids: seq<string>, i: nat, x: real, y0: real, p: Node)
    requires AllIn(ns, ids) && 0 < i <= |ids|
    requires p == NodeOf(ns, ids[i - 1]).(x := x, y := y0 + Offset(ns, ids, i - 1))
    ensures p.y + p.height + Gap == y0 + Offset(ns, ids, i)
  {
  }

  lemma {:induction false} SumHeightsCons(n: Node, s: seq<Node>)
    ensures SumHeights([n] + s) == n.height + Gap + SumHeights(s)
  {
    if |s| > 0 {
      assert ([n] + s)[..|s|] == [n] + s[..|s| - 1];
      SumHeightsCons(n, s[..|s| - 1]);
    }
  }

  lemma {:induction false} SumHeightsInsert(n: Node, s: seq<Node>, c: Coord)
    ensures SumHeights(Insert(n, s, c)) == SumHeights(s) + n.height + Gap
  {
    if |s| == 0 {
      assert Insert(n, s, c) == [n];
    } else if Key(n, c) < Key(s[0], c) {
      SumHeightsCons(n, s);
    } else {
      SumHeightsInsert(n, s[1..], c);
      SumHeightsCons(s[0], Insert(n, s[1..], c));
      SumHeightsCons(s[0], s[1..]);
      assert s == [s[0]] + s[1..];
    }
  }

  /** Sorting a column does not change its total height, so the sum taken before the sort fits the sorted column. */
  lemma {:induction false} SumHeightsSort(s: seq<Node>, c: Coord)
    ensures SumHeights(SortBy(s, c)) == SumHeights(s)
  {
    if |s| > 0 {
      SumHeightsSort(s[..|s| - 1], c);
      SumHeightsInsert(s[|s| - 1], SortBy(s[..|s| - 1], c), c);
    }
  }

  /**
   * The column spans exactly the summed heights: the offset just past the last entry of a column of
   * snapshot nodes equals Σ (h + 20) over them.
   */
  lemma {:induction false} ColumnSpan(ns: seq<Node>, t: seq<Node>, i: nat)
    requires UniqueIds(ns) && (forall j :: 0 <= j < |t| ==> t[j] in ns) && i <= |t|
    ensures AllIn(ns, IdsOf(t)) && Offset(ns, IdsOf(t), i) == SumHeights(t[..i])
  {
    assert AllIn(ns, IdsOf(t)) by {
      forall j | 0 <= j < |t| ensures Has(ns, IdsOf(t)[j]) {
        var k :| 0 <= k < |ns| && ns[k] == t[j];
      }
    }
    if i > 0 {
      ColumnSpan(ns, t, i - 1);
      var k :| 0 <= k < |ns| && ns[k] == t[i - 1];
      NodeOfAt(ns, k);
      assert t[..i][..i - 1] == t[..i - 1];
    }
  }
}
