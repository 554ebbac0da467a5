/**
 * navigate's choice of the next node: among the viewport's nodes, those
 * strictly beyond the selection in the requested direction whose span on the
 * other axis straddles the selection's midpoint, sorted ascending by the
 * movement coordinate; failing any, all nodes strictly beyond, sorted by the
 * other coordinate. The first after the (stable) sort wins.
 */
module Navigation {
  import opened Model
  import opened Sorting

  predicate IsVertical(d: Side) {
    d == Top || d == Bottom
  }

  /** navigate's directionCondition: strictly beyond the selection's x or y in direction `d`. */
  predicate Beyond(n: Node, sel: Node, d: Side) {
    match d
    case Top => n.y < sel.y
    case Bottom => n.y > sel.y
    case Left => n.x < sel.x
    case Right => n.x > sel.x
  }

  /** navigate's inRange: the node's span on the other axis strictly contains the selection's midpoint there. */
  predicate InRange(n: Node, sel: Node, d: Side) {
    if IsVertical(d) then n.x < sel.x + sel.width / 2.0 && n.x + n.width > sel.x + sel.width / 2.0
    else n.y < sel.y + sel.height / 2.0 && n.y + n.height > sel.y + sel.height / 2.0
  }

  /** The filter of the first pass (`aligned`) or of the fallback pass. */
  predicate Keep(n: Node, sel: Node, d: Side, aligned: bool) {
    (!aligned || InRange(n, sel, d)) && Beyond(n, sel, d)
  }

  /** The viewport nodes that pass the filter, in viewport order. */
  function Candidates(vs: seq<Node>, sel: Node, d: Side, aligned: bool): (r: seq<Node>)
    ensures forall n :: n in r <==> n in vs && Keep(n, sel, d, aligned)
  {
    if |vs| == 0 then []
    else
      var last := vs[|vs| - 1];
      assert vs == vs[..|vs| - 1] + [last];
      Candidates(vs[..|vs| - 1], sel, d, aligned) + (if Keep(last, sel, d, aligned) then [last] else [])
  }

  /** comparePrimary compares the movement coordinate, compareSecondary the other one. */
  function Primary(d: Side): Coord {
    if IsVertical(d) then Y else X
  }

  function Secondary(d: Side): Coord {
    if IsVertical(d) then X else Y
  }

  /** sortedNodes[0] of navigate, or None when both passes find nothing. */
  function ChooseNext(vs: seq<Node>, sel: Node, d: Side): Option<Node> {
    var aligned := Candidates(vs, sel, d, true);
    if |aligned| > 0 then Some(SortBy(aligned, Primary(d))[0])
    else
      var beyond := Candidates(vs, sel, d, false);
      if |beyond| > 0 then Some(SortBy(beyond, Secondary(d))[0]) else None
  }

  /**
   * vs[i] passes the filter, no passing node has a smaller key, and every passing node
   * before it in viewport order has a strictly larger key: the winner of a stable sort.
   */
  ghost predicate FirstMinAt(vs: seq<Node>, sel: Node, d: Side, aligned: bool, c: Coord, i: int) {
    && 0 <= i < |vs|
    && Keep(vs[i], sel, d, aligned)
    && (forall j :: 0 <= j < |vs| && Keep(vs[j], sel, d, aligned) ==> Key(vs[i], c) <= Key(vs[j], c))
    && (forall j :: 0 <= j < i && Keep(vs[j], sel, d, aligned) ==> Key(vs[i], c) < Key(vs[j], c))
  }

  /** A first-minimum of `p` stays one when a node is appended that fails the filter or has no smaller key. */
  lemma FirstMinExtend(p: seq<Node>, v: Node, sel: Node, d: Side, aligned: bool, c: Coord, i: int)
    requires FirstMinAt(p, sel, d, aligned, c, i)
    requires Keep(v, sel, d, aligned) ==> Key(p[i], c) <= Key(v, c)
    ensures FirstMinAt(p + [v], sel, d, aligned, c, i)
  {
    var vs := p + [v];
    assert forall j :: 0 <= j < |p| ==> vs[j] == p[j];
  }

  /** An appended node that passes and has a strictly smaller key than every passing node before it is a first-minimum. */
  lemma FirstMinLast(p: seq<Node>, v: Node, sel: Node, d: Side, aligned: bool, c: Coord)
    requires Keep(v, sel, d, aligned)
    requires forall j :: 0 <= j < |p| && Keep(p[j], sel, d, aligned) ==> Key(v, c) < Key(p[j], c)
    ensures FirstMinAt(p + [v], sel, d, aligned, c, |p|)
  {
    var vs := p + [v];
    assert forall j :: 0 <= j < |p| ==> vs[j] == p[j];
  }

  lemma CandidatesAppend(p: seq<Node>, v: Node, sel: Node, d: Side, aligned: bool)
    ensures Candidates(p + [v], sel, d, aligned) == Candidates(p, sel, d, aligned) + (if Keep(v, sel, d, aligned) then [v] else [])
  {
    assert (p + [v])[..|p|] == p;
  }

  lemma SortAppend(s: seq<Node>, v: Node, c: Coord)
    ensures SortBy(s + [v], c) == Insert(v, SortBy(s, c), c)
  {
    assert (s + [v])[..|s|] == s;
  }

  /** The head of the sorted candidates is vs[i], the first viewport node carrying the least key. */
  lemma {:induction false} SortedCandidatesHead(vs: seq<Node>, sel: Node, d: Side, aligned: bool, c: Coord) returns (i: int)
    requires |Candidates(vs, sel, d, aligned)| > 0
    ensures FirstMinAt(vs, sel, d, aligned, c, i) && SortBy(Candidates(vs, sel, d, aligned), c)[0] == vs[i]
  {
    var p := vs[..|vs| - 1];
    var v := vs[|vs| - 1];
    assert vs == p + [v];
    var cp := Candidates(p, sel, d, aligned);
    CandidatesAppend(p, v, sel, d, aligned);
    if !Keep(v, sel, d, aligned) {
      assert Candidates(vs, sel, d, aligned) == cp;
      i := SortedCandidatesHead(p, sel, d, aligned, c);
      FirstMinExtend(p, v, sel, d, aligned, c, i);
      assert vs[i] == p[i];
    } else {
      assert Candidates(vs, sel, d, aligned) == cp + [v];
      SortAppend(cp, v, c);
      if |cp| == 0 {
        FirstPassing(p, v, sel, d, aligned, c);
        i := |p|;
      } else {
        var i0 := SortedCandidatesHead(p, sel, d, aligned, c);
        i := HeadAfterInsert(p, v, sel, d, aligned, c, i0);
      }
    }
  }

  /** A passing node appended to nodes none of which passes is the head of the sorted candidates. */
  lemma FirstPassing(p: seq<Node>, v: Node, sel: Node, d: Side, aligned: bool, c: Coord)
    requires Keep(v, sel, d, aligned) && |Candidates(p, sel, d, aligned)| == 0
    ensures FirstMinAt(p + [v], sel, d, aligned, c, |p|)
    ensures Insert(v, SortBy(Candidates(p, sel, d, aligned), c), c)[0] == v
  {
    CandidatesNonEmpty(p, sel, d, aligned);
    FirstMinLast(p, v, sel, d, aligned, c);
  }

  /** Inserting a passing node into the sorted candidates of `p` keeps or replaces the head as the stable sort does. */
  lemma HeadAfterInsert(p: seq<Node>, v: Node, sel: Node, d: Side, aligned: bool, c: Coord, i0: int) returns (i: int)
    requires Keep(v, sel, d, aligned) && |Candidates(p, sel, d, aligned)| > 0
    requires FirstMinAt(p, sel, d, aligned, c, i0) && SortBy(Candidates(p, sel, d, aligned), c)[0] == p[i0]
    ensures FirstMinAt(p + [v], sel, d, aligned, c, i)
    ensures Insert(v, SortBy(Candidates(p, sel, d, aligned), c), c)[0] == (p + [v])[i]
  {
    if Key(v, c) < Key(p[i0], c) {
      FirstMinLast(p, v, sel, d, aligned, c);
      i := |p|;
    } else {
      FirstMinExtend(p, v, sel, d, aligned, c, i0);
      i := i0;
    }
  }

  lemma CandidatesNonEmpty(vs: seq<Node>, sel: Node, d: Side, aligned: bool)
    ensures |Candidates(vs, sel, d, aligned)| > 0 <==> exists j :: 0 <= j < |vs| && Keep(vs[j], sel, d, aligned)
  {
    var r := Candidates(vs, sel, d, aligned);
    if |r| > 0 {
      assert r[0] in r;
      var j :| 0 <= j < |vs| && vs[j] == r[0];
    }
    if exists j :: 0 <= j < |vs| && Keep(vs[j], sel, d, aligned) {
      var j :| 0 <= j < |vs| && Keep(vs[j], sel, d, aligned);
      assert vs[j] in r;
    }
  }

  /** navigate finds nothing exactly when no viewport node lies strictly beyond the selection. */
  lemma ChooseNextNone(vs: seq<Node>, sel: Node, d: Side)
    ensures ChooseNext(vs, sel, d).None? <==> forall j :: 0 <= j < |vs| ==> !Beyond(vs[j], sel, d)
  {
    CandidatesNonEmpty(vs, sel, d, true);
    CandidatesNonEmpty(vs, sel, d, false);
  }

  /**
   * When some viewport node is aligned and beyond, the choice is the first such node with the least
   * movement coordinate: for Bottom and Right the nearest one, for Top and Left the farthest one.
   */
  lemma ChooseNextAligned(vs: seq<Node>, sel: Node, d: Side)
    requires exists j :: 0 <= j < |vs| && Keep(vs[j], sel, d, true)
    ensures exists i :: FirstMinAt(vs, sel, d, true, Primary(d), i) && ChooseNext(vs, sel, d) == Some(vs[i])
  {
    CandidatesNonEmpty(vs, sel, d, true);
    var i := SortedCandidatesHead(vs, sel, d, true, Primary(d));
  }

  /** Otherwise the choice is the first node beyond the selection with the least coordinate on the other axis. */
  lemma ChooseNextFallback(vs: seq<Node>, sel: Node, d: Side)
    requires forall j :: 0 <= j < |vs| ==> !Keep(vs[j], sel, d, true)
    requires exists j :: 0 <= j < |vs| && Beyond(vs[j], sel, d)
    ensures exists i :: FirstMinAt(vs, sel, d, false, Secondary(d), i) && ChooseNext(vs, sel, d) == Some(vs[i])
  {
    CandidatesNonEmpty(vs, sel, d, true);
    CandidatesNonEmpty(vs, sel, d, false);
    var i := SortedCandidatesHead(vs, sel, d, false, Secondary(d));
  }

  /** Any choice is a viewport node strictly beyond the selection, so never the selection itself. */
  lemma ChooseNextBeyond(vs: seq<Node>, sel: Node, d: Side)
    requires ChooseNext(vs, sel, d).Some?
    ensures var r := ChooseNext(vs, sel, d).value; r in vs && Beyond(r, sel, d) && r != sel
  {
    if exists j :: 0 <= j < |vs| && Keep(vs[j], sel, d, true) {
      ChooseNextAligned(vs, sel, d);
    } else {
      ChooseNextNone(vs, sel, d);
      ChooseNextFallback(vs, sel, d);
    }
  }
}
