/**
 * Where the plugin puts a new node: the fixed offsets of childNode,
 * createChildFileNode, createSiblingNode, createFloatingNode and the heading
 * split, and the top of a relaid sibling column.
 */
module Placement {
  import opened Model

  /** Horizontal distance from a parent's right edge to its new child's left edge. */
  const ChildGap: real := 200.0
  /** Horizontal and vertical distances between a node and a floating node spawned beside it. */
  const FloatGapX: real := 50.0
  const FloatGapY: real := 100.0
  /** How far below the selected node's vertical midpoint a new sibling starts. */
  const SiblingDrop: real := 110.0
  /** A heading child is 0.6 times as tall as its file node, and heading children are 20 apart. */
  const HeadingScale: real := 0.6
  const HeadingGap: real := 20.0

  datatype Point = Point(x: real, y: real)

  /** The left edge of a new child of `parent` (childNode and createChildFileNode). */
  function ChildX(parent: Node): (x: real)
    ensures x - (parent.x + parent.width) == ChildGap
  {
    parent.x + parent.width + ChildGap
  }

  /** The y at which createSiblingNode asks for the new sibling, before any relayout. */
  function SiblingY(sel: Node): (y: real)
    ensures y - (sel.y + sel.height / 2.0) == SiblingDrop
  {
    sel.y + sel.height / 2.0 + SiblingDrop
  }

  /** Two boxes of positive size that share no interior point. */
  predicate Apart(x1: real, y1: real, x2: real, y2: real, w: real, h: real) {
    x1 + w <= x2 || x2 + w <= x1 || y1 + h <= y2 || y2 + h <= y1
  }

  /**
   * createFloatingNode's position for a node of the selection's size: beside the
   * selection on side `d`, 50 units away horizontally or 100 vertically, level
   * with it on the other axis, so the two never overlap.
   */
  function FloatingPosition(n: Node, d: Side): (p: Point)
    ensures d == Left ==> p.x + n.width + FloatGapX == n.x && p.y == n.y
    ensures d == Right ==> p.x == n.x + n.width + FloatGapX && p.y == n.y
    ensures d == Top ==> p.y + n.height + FloatGapY == n.y && p.x == n.x
    ensures d == Bottom ==> p.y == n.y + n.height + FloatGapY && p.x == n.x
    ensures Apart(p.x, p.y, n.x, n.y, n.width, n.height)
  {
    match d
    case Left => Point(n.x - n.width - FloatGapX, n.y)
    case Right => Point(n.x + n.width + FloatGapX, n.y)
    case Top => Point(n.x, n.y - n.height - FloatGapY)
    case Bottom => Point(n.x, n.y + n.height + FloatGapY)
  }

  /** The vertical pitch of heading children: their height plus the gap. */
  function HeadingPitch(parent: Node): real {
    parent.height * HeadingScale + HeadingGap
  }

  /**
   * The y of the i-th of k heading children, computed as the split command does
   * (a group start moved by half the group height in direction -1, then i pitches
   * back against that direction).
   */
  function HeadingY(parent: Node, k: nat, i: nat): (y: real)
    ensures y == parent.y + parent.height / 2.0 - (k as real) * HeadingPitch(parent) / 2.0 + (i as real) * HeadingPitch(parent)
  {
    var direction := -1.0;
    var groupHeight := HeadingPitch(parent) * (k as real);
    var groupY := parent.y + parent.height / 2.0 + (groupHeight / 2.0) * direction;
    groupY - direction * HeadingPitch(parent) * (i as real)
  }

  /** The top of a sibling column relaid by createSiblingNode: half the column above the parent's midpoint. */
  function SiblingColumnTop(parent: Node, total: real): (y0: real)
    ensures y0 + total / 2.0 == parent.y + parent.height / 2.0
  {
    parent.y + parent.height / 2.0 - total / 2.0
  }

  /** The top of a sibling column relaid by the delete handler: half the column above the parent's bottom edge. */
  function DeleteColumnTop(parent: Node, total: real): (y0: real)
    ensures y0 + total / 2.0 == parent.y + parent.height
  {
    parent.y + parent.height - total / 2.0
  }

  /**
   * The k heading rows, from the top of the first to one pitch below the top of the last, are centred
   * on the parent's vertical midpoint.
   */
  lemma HeadingGroupCentred(parent: Node, k: nat)
    requires k > 0
    ensures (HeadingY(parent, k, 0) + HeadingY(parent, k, k - 1) + HeadingPitch(parent)) / 2.0 == parent.y + parent.height / 2.0
  {
    assert ((k - 1) as real) * HeadingPitch(parent) + HeadingPitch(parent) == (k as real) * HeadingPitch(parent);
  }
}
