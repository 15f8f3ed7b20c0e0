/**
 * A tree on which the source's SET_CHILD_POSITION places the new arm off
 * its parent's segment: the search finds the root, the target becomes the
 * root's first child, and the base is the child's base plus the root's
 * projection.
 */
module PlacementExample {
  import opened Geometry
  import opened Projection
  import opened ArmTree
  import opened HitTest
  import opened Wrappers
  import opened EditorModel

  /**
   * The trees that show the difference: the root at the origin, one unit
   * long down the y axis, with a single childless arm 10 to its right, half
   * a unit long down the y axis.
   */
  predicate OffsetShape(root: Arm)
  {
    root.positionInitial == Origin && root.directionInitial == Vec2(0.0, 1.0) && |root.children| == 1 &&
    root.children[0].positionInitial == Vec2(10.0, 0.0) && root.children[0].directionInitial == Vec2(0.0, 0.5) &&
    root.children[0].children == []
  }

  /** The root arm with such a child is one of them. */
  lemma OffsetShapeExists()
    ensures OffsetShape(NewArm(0, Origin, Vec2(0.0, 1.0)).(children := [NewArm(1, Vec2(10.0, 0.0), Vec2(0.0, 0.5))]))
  {
  }

  /** The numbers of the example. */
  lemma OffsetArithmetic()
    ensures Norm2(Vec2(0.0, 1.0)) == 1.0 && Norm2(Vec2(0.0, 0.5)) == 0.25
    ensures Dot(Sub(Vec2(0.0, 1.0), Vec2(10.0, 0.0)), Vec2(0.0, 0.5)) == 0.5
    ensures Sub(Add(Vec2(10.0, 0.0), Vec2(0.0, 0.5)), Vec2(0.0, 1.0)) == Vec2(10.0, -0.5)
  {
  }

  /** The squared distance from the child's tip to the cursor. */
  lemma OffsetDistance()
    ensures Norm2(Vec2(10.0, -0.5)) == 100.25
  {
  }

  /** The cursor on the root's tip is at distance 0 from the root. */
  lemma OffsetRootProbe(root: Arm)
    requires OffsetShape(root)
    ensures ProbeOf(root, Vec2(0.0, 1.0)) == Some(Probe(0.0, Vec2(0.0, 1.0)))
  {
    OffsetArithmetic();
    assert RestTip(root) == Vec2(0.0, 1.0);
    ProbeAtTip(root);
  }

  /** For an arm from (10, 0) half a unit down the y axis, the cursor (0, 1) lies beyond its tip. */
  lemma OffsetArmBeyondTip(c: Arm)
    requires c.positionInitial == Vec2(10.0, 0.0) && c.directionInitial == Vec2(0.0, 0.5)
    ensures 0.0 < Norm2(c.directionInitial) <= Dot(Sub(Vec2(0.0, 1.0), c.positionInitial), c.directionInitial)
  {
    OffsetArithmetic();
  }

  /** That arm's tip (10, 0.5) is at squared distance 100.25 from the cursor. */
  lemma OffsetTipDistance(c: Arm)
    requires c.positionInitial == Vec2(10.0, 0.0) && c.directionInitial == Vec2(0.0, 0.5)
    ensures Norm2(Sub(RestTip(c), Vec2(0.0, 1.0))) == 100.25
  {
    OffsetArithmetic();
    OffsetDistance();
  }

  /** An arm from (10, 0) half a unit down the y axis is probed at its tip (10, 0.5), at squared distance 100.25. */
  lemma OffsetArmProbe(c: Arm)
    requires c.positionInitial == Vec2(10.0, 0.0) && c.directionInitial == Vec2(0.0, 0.5)
    ensures ProbeOf(c, Vec2(0.0, 1.0)) == Some(Probe(100.25, Vec2(0.0, 0.5)))
  {
    OffsetArmBeyondTip(c);
    ProbeBeyondTip(c, Vec2(0.0, 1.0));
    OffsetTipDistance(c);
  }

  /** With the cursor on the root's tip, the search settles on the root, at distance 0. */
  lemma OffsetNearest(root: Arm)
    requires OffsetShape(root)
    ensures Nearest(root, Vec2(0.0, 1.0)) == Hit([], Some(Probe(0.0, Vec2(0.0, 1.0))))
  {
    var cursor := Vec2(0.0, 1.0);
    OffsetRootProbe(root);
    OffsetArmProbe(root.children[0]);
    assert NearestFrom(root, cursor, 0) == Hit([], Some(Probe(0.0, Vec2(0.0, 1.0))));
    assert Nearest(root.children[0], cursor) == Hit([], Some(Probe(100.25, Vec2(0.0, 0.5))));
  }

  /**
   * With the cursor on the root's tip the root is the nearest node, so the
   * target is its first child, but the base is offset by the root's
   * projection: it lands at (10, 1), off the target's segment from (10, 0)
   * to (10, 0.5).
   */
  lemma PlaceBaseOffTarget(root: Arm)
    requires OffsetShape(root)
    ensures SearchTarget(root, Vec2(0.0, 1.0)) == [0]
    ensures PlaceBaseAsWritten(root, Vec2(0.0, 1.0)) == Some(Vec2(10.0, 1.0))
  {
    OffsetNearest(root);
    assert At(root, [0]) == root.children[0];
  }

  /** Any arm based at (10, 1) is anchored at fraction 2 of the root's child. */
  lemma RatioAtOffsetBase(parent: Arm, child: Arm)
    requires parent.positionInitial == Vec2(10.0, 0.0) && parent.directionInitial == Vec2(0.0, 0.5)
    requires child.positionInitial == Vec2(10.0, 1.0)
    ensures AttachRatio(parent, child) == 2.0
  {
    assert Sub(child.positionInitial, parent.positionInitial) == Vec2(0.0, 1.0);
  }

  /** The arm placed there is anchored at fraction 2 of its parent, outside [0, 1]. */
  lemma PlacedOffTargetRatio(root: Arm)
    requires OffsetShape(root)
    ensures AttachRatio(root.children[0], NewChildArm(2, Vec2(10.0, 1.0), Vec2(0.0, 1.0))) == 2.0
  {
    RatioAtOffsetBase(root.children[0], NewChildArm(2, Vec2(10.0, 1.0), Vec2(0.0, 1.0)));
  }
}
