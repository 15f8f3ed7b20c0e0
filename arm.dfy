/**
 * The arm tree (`Spirograph`): each arm is a vector with a rest pose (the
 * `*_initial` fields) and a live pose, a rotation rate, a trail, and an
 * ordered list of child arms anchored at fractions of its length.
 *
 * A node's parent is not stored: a node is reached by its `Path` from the
 * root, and its parent is the node at the path without its last step. The
 * source's pointer identity is the `id` field.
 */
module ArmTree {
  import opened Geometry
  import opened Projection
  import opened TrailRecorder

  const PI: real := 3.14159265358979323

  /** Rotation rate of a new arm, in revolutions per second. */
  const DefaultRevps: real := 0.3

  /** Radius of a resting head or base handle. */
  const DefaultRadius: int := 5

  /** Radius of a hovered or grabbed handle, and the reach of the hover test. */
  const HoverRadius: int := 7

  /** A hovered or grabbed handle is drawn larger than a resting one. */
  lemma HoverRadiusExceedsDefault()
    ensures DefaultRadius < HoverRadius
  {
  }

  datatype Arm = Arm(
    id: nat,
    positionInitial: Vec2,
    position: Vec2,
    directionInitial: Vec2,
    direction: Vec2,
    revps: real,
    isRoot: bool,
    positionOnParent: real,
    children: seq<Arm>,
    trailOn: bool,
    trail: TrailState,
    headRadius: int,
    baseRadius: int)

  /** The rest-pose tip. */
  function RestTip(a: Arm): Vec2 { Add(a.positionInitial, a.directionInitial) }

  /** The live tip, where the trail samples. */
  function Tip(a: Arm): Vec2 { Add(a.position, a.direction) }

  /** Where a child anchored at fraction `t` of arm `a`'s live vector sits. */
  function LiveAnchor(a: Arm, t: real): Vec2 { Add(a.position, Scale(a.direction, t)) }

  /** True when the live pose is the rest pose and the trail holds no samples. */
  predicate AtRest(a: Arm)
  {
    a.position == a.positionInitial && a.direction == a.directionInitial && a.trail.length == 0
  }

  /**
   * `Spirograph::Spirograph`: an arm at rest at `position` with vector
   * `direction`, the default rate, no children, not the root, its trail off
   * and seeded with its rest tip. The source leaves `position_on_parent`
   * unset; the model puts 0 there, and `AddChild` always overwrites it.
   */
  function NewArm(id: nat, position: Vec2, direction: Vec2): (a: Arm)
    ensures AtRest(a) && a.positionInitial == position && a.directionInitial == direction
    ensures a.trail.firstPoint == RestTip(a)
    ensures a.children == [] && !a.isRoot && !a.trailOn && a.revps == DefaultRevps
  {
    Arm(id, position, position, direction, direction, DefaultRevps, false, 0.0, [], false,
        Blank.(firstPoint := Add(position, direction)), DefaultRadius, DefaultRadius)
  }

  /** `Spirograph::update_trail_first_point`: this arm only, not its children. */
  function UpdateTrailFirstPoint(a: Arm): (r: Arm)
    ensures r.trail.firstPoint == RestTip(r)
    ensures r.(trail := a.trail) == a && r.trail.(firstPoint := a.trail.firstPoint) == a.trail
  {
    a.(trail := a.trail.(firstPoint := RestTip(a)))
  }

  // ---------------------------------------------------------------------
  // What the recursive walks leave alone

  /** The shape of a tree: identities, the root flag, and the child lists. */
  datatype Shape = Shape(id: nat, isRoot: bool, children: seq<Shape>)

  function ShapeOf(a: Arm): Shape
  {
    Shape(a.id, a.isRoot, seq(|a.children|, i requires 0 <= i < |a.children| => ShapeOf(a.children[i])))
  }

  /** The shape reads only the identity, the root flag and the children. */
  lemma ShapeOfOwnFields(a: Arm, b: Arm)
    requires a.id == b.id && a.isRoot == b.isRoot && a.children == b.children
    ensures ShapeOf(a) == ShapeOf(b)
  {
  }

  /**
   * Everything but the live pose and the trail's samples: the rest pose, the
   * rates, the anchors, the flags and the shape. `rotate` and `reset` keep it.
   */
  function Skeleton(a: Arm): Arm
  {
    a.(position := Origin, direction := Origin,
       trail := a.trail.(currentPoint := Origin, previousPoint := Origin, length := 0),
       children := seq(|a.children|, i requires 0 <= i < |a.children| => Skeleton(a.children[i])))
  }

  /** Everything but the positions, live and rest: what re-placing descendants keeps. */
  function Unplaced(a: Arm): Arm
  {
    a.(position := Origin, positionInitial := Origin,
       children := seq(|a.children|, i requires 0 <= i < |a.children| => Unplaced(a.children[i])))
  }

  // ---------------------------------------------------------------------
  // rotate

  function Angle(a: Arm, dt: real): real { a.revps * 2.0 * PI * dt }

  /**
   * `Spirograph::rotate(dt)` applied to an arm whose parent has just moved its
   * live anchor to `position` (the source writes the child's `position` and
   * then calls `rotate` on it). The live direction turns by the arm's angle
   * for this frame; with `play` set the new tip is recorded; each child is
   * re-anchored on the turned vector and rotated in turn.
   */
  function RotateAt(a: Arm, position: Vec2, dt: real, play: bool, trig: Trig): (r: Arm)
    ensures r.position == position
    ensures r.direction == Rotated(a.direction, trig.cos(Angle(a, dt)), trig.sin(Angle(a, dt)))
    ensures r.trail == if play then a.trail.NewPoint(Tip(r)) else a.trail
    ensures Skeleton(r) == Skeleton(a)
    ensures ShapeOf(r) == ShapeOf(a)
  {
    var angle := Angle(a, dt);
    var dir := Rotated(a.direction, trig.cos(angle), trig.sin(angle));
    var r := a.(position := position, direction := dir,
      trail := if play then a.trail.NewPoint(Add(position, dir)) else a.trail,
      children := seq(|a.children|, i requires 0 <= i < |a.children| =>
        RotateAt(a.children[i], Add(position, Scale(dir, a.children[i].positionOnParent)), dt, play, trig)));
    assert Skeleton(r).children == Skeleton(a).children;
    assert ShapeOf(r).children == ShapeOf(a).children;
    r
  }

  /** `Spirograph::rotate(dt)` on a whole subtree: its root keeps its live position. */
  function Rotate(a: Arm, dt: real, play: bool, trig: Trig): Arm
  {
    RotateAt(a, a.position, dt, play, trig)
  }

  /** Every child's live anchor is at its fraction of its parent's live vector, all the way down. */
  predicate Placed(a: Arm)
  {
    forall i :: 0 <= i < |a.children| ==>
      a.children[i].position == LiveAnchor(a, a.children[i].positionOnParent) && Placed(a.children[i])
  }

  /** Corresponding arms of two trees of the same shape have live vectors of the same squared length. */
  predicate SameNorms(a: Arm, b: Arm)
  {
    Norm2(a.direction) == Norm2(b.direction) && |a.children| == |b.children| &&
    forall i :: 0 <= i < |a.children| ==> SameNorms(a.children[i], b.children[i])
  }

  /** Every arm of `b` has `k` more trail samples than its counterpart in `a`. */
  predicate TrailsGrew(a: Arm, b: Arm, k: nat)
  {
    b.trail.length == a.trail.length + k && |a.children| == |b.children| &&
    forall i :: 0 <= i < |a.children| ==> TrailsGrew(a.children[i], b.children[i], k)
  }

  lemma {:induction false} RotatePlacesChildren(a: Arm, position: Vec2, dt: real, play: bool, trig: Trig)
    ensures Placed(RotateAt(a, position, dt, play, trig))
  {
    var r := RotateAt(a, position, dt, play, trig);
    forall i | 0 <= i < |a.children|
      ensures r.children[i].position == LiveAnchor(r, r.children[i].positionOnParent) && Placed(r.children[i])
    {
      assert Skeleton(r.children[i]) == Skeleton(a.children[i]);
      RotatePlacesChildren(a.children[i], LiveAnchor(r, a.children[i].positionOnParent), dt, play, trig);
    }
  }

  /** Given cos² + sin² = 1, rotation leaves every live vector's squared length unchanged. */
  lemma {:induction false} RotatePreservesNorms(a: Arm, position: Vec2, dt: real, play: bool, trig: Trig)
    requires OnUnitCircle(trig)
    ensures SameNorms(a, RotateAt(a, position, dt, play, trig))
  {
    var angle := Angle(a, dt);
    RotationPreservesNorm(a.direction, trig.cos(angle), trig.sin(angle));
    var r := RotateAt(a, position, dt, play, trig);
    forall i | 0 <= i < |a.children|
      ensures SameNorms(a.children[i], r.children[i])
    {
      RotatePreservesNorms(a.children[i], LiveAnchor(r, a.children[i].positionOnParent), dt, play, trig);
    }
  }

  /** With `play` set every arm of the subtree records exactly one sample; otherwise none. */
  lemma {:induction false} RotateAdvancesTrails(a: Arm, position: Vec2, dt: real, play: bool, trig: Trig)
    ensures TrailsGrew(a, RotateAt(a, position, dt, play, trig), if play then 1 else 0)
  {
    var r := RotateAt(a, position, dt, play, trig);
    forall i | 0 <= i < |a.children|
      ensures TrailsGrew(a.children[i], r.children[i], if play then 1 else 0)
    {
      RotateAdvancesTrails(a.children[i], LiveAnchor(r, a.children[i].positionOnParent), dt, play, trig);
    }
  }

  /**
   * Every arm of the subtree, wherever it sits, turns its own live vector by
   * its own angle for this frame and, with `play` set, records its new live
   * tip, the previous sample moving back one place.
   */
  lemma {:induction false} RotateTurnsEveryArm(a: Arm, position: Vec2, dt: real, play: bool, trig: Trig, p: Path)
    requires ValidPath(a, p)
    ensures ValidPath(RotateAt(a, position, dt, play, trig), p)
    ensures var n, n' := At(a, p), At(RotateAt(a, position, dt, play, trig), p);
            n'.direction == Rotated(n.direction, trig.cos(Angle(n, dt)), trig.sin(Angle(n, dt))) &&
            n'.trail == (if play then n.trail.NewPoint(Tip(n')) else n.trail)
    decreases |p|
  {
    if p != [] {
      var r := RotateAt(a, position, dt, play, trig);
      var c := a.children[p[0]];
      assert r.children[p[0]] == RotateAt(c, LiveAnchor(r, c.positionOnParent), dt, play, trig);
      RotateTurnsEveryArm(c, LiveAnchor(r, c.positionOnParent), dt, play, trig, p[1..]);
    }
  }

  // ---------------------------------------------------------------------
  // reset

  /** Every arm of the subtree is at rest. */
  predicate AllAtRest(a: Arm)
  {
    AtRest(a) && forall i :: 0 <= i < |a.children| ==> AllAtRest(a.children[i])
  }

  /**
   * `Spirograph::reset`: every arm of the subtree goes back to its rest pose
   * and its trail count to 0; nothing else changes.
   */
  function Reset(a: Arm): (r: Arm)
    ensures AllAtRest(r)
    ensures Skeleton(r) == Skeleton(a)
    ensures ShapeOf(r) == ShapeOf(a)
  {
    var r := a.(position := a.positionInitial, direction := a.directionInitial, trail := a.trail.Reset(),
      children := seq(|a.children|, i requires 0 <= i < |a.children| => Reset(a.children[i])));
    assert Skeleton(r).children == Skeleton(a).children;
    assert ShapeOf(r).children == ShapeOf(a).children;
    r
  }

  /** A tree already at rest everywhere is its own reset. */
  lemma {:induction false} ResetFixesRestingTrees(a: Arm)
    requires AllAtRest(a)
    ensures Reset(a) == a
  {
    forall i | 0 <= i < |a.children|
      ensures Reset(a.children[i]) == a.children[i]
    {
      ResetFixesRestingTrees(a.children[i]);
    }
    assert Reset(a).children == a.children;
  }

  lemma ResetIdempotent(a: Arm)
    ensures Reset(Reset(a)) == Reset(a)
  {
    ResetFixesRestingTrees(Reset(a));
  }

  // ---------------------------------------------------------------------
  // update_childrens_position_on_parent

  /**
   * An arm moved, rest and live position alike, to `position`, with its
   * descendants re-anchored below it (the body of the source's loop).
   */
  function MoveTo(a: Arm, position: Vec2): (r: Arm)
    ensures r.position == position && r.positionInitial == position
    ensures Unplaced(r) == Unplaced(a)
    ensures ShapeOf(r) == ShapeOf(a)
  {
    var r := a.(positionInitial := position, position := position,
      children := seq(|a.children|, i requires 0 <= i < |a.children| =>
        MoveTo(a.children[i], Add(position, Scale(a.direction, a.children[i].positionOnParent)))));
    assert Unplaced(r).children == Unplaced(a).children;
    assert ShapeOf(r).children == ShapeOf(a).children;
    r
  }

  /**
   * `Spirograph::update_childrens_position_on_parent`: every descendant is put
   * at its fraction of its parent's LIVE vector, and that point becomes its
   * rest position too. The arm itself does not move.
   */
  function UpdateChildrensPositionOnParent(a: Arm): (r: Arm)
    ensures r.position == a.position && r.positionInitial == a.positionInitial
    ensures Unplaced(r) == Unplaced(a)
    ensures ShapeOf(r) == ShapeOf(a)
  {
    var r := a.(children := seq(|a.children|, i requires 0 <= i < |a.children| =>
      MoveTo(a.children[i], LiveAnchor(a, a.children[i].positionOnParent))));
    assert Unplaced(r).children == Unplaced(a).children;
    assert ShapeOf(r).children == ShapeOf(a).children;
    r
  }

  /** Every descendant's rest position equals its live position. */
  predicate DescendantsAnchored(a: Arm)
  {
    forall i :: 0 <= i < |a.children| ==>
      a.children[i].positionInitial == a.children[i].position && DescendantsAnchored(a.children[i])
  }

  lemma {:induction false} MoveToPlaces(a: Arm, position: Vec2)
    ensures Placed(MoveTo(a, position)) && DescendantsAnchored(MoveTo(a, position))
  {
    var r := MoveTo(a, position);
    forall i | 0 <= i < |a.children|
      ensures r.children[i].position == LiveAnchor(r, r.children[i].positionOnParent)
      ensures r.children[i].positionInitial == r.children[i].position
      ensures Placed(r.children[i]) && DescendantsAnchored(r.children[i])
    {
      assert Unplaced(r.children[i]) == Unplaced(a.children[i]);
      MoveToPlaces(a.children[i], LiveAnchor(r, a.children[i].positionOnParent));
    }
  }

  /** After the update every descendant sits on its parent's live vector, at rest there. */
  lemma UpdatePlacesDescendants(a: Arm)
    ensures Placed(UpdateChildrensPositionOnParent(a))
    ensures DescendantsAnchored(UpdateChildrensPositionOnParent(a))
  {
    var r := UpdateChildrensPositionOnParent(a);
    forall i | 0 <= i < |a.children|
      ensures r.children[i].position == LiveAnchor(r, r.children[i].positionOnParent)
      ensures r.children[i].positionInitial == r.children[i].position
      ensures Placed(r.children[i]) && DescendantsAnchored(r.children[i])
    {
      assert Unplaced(r.children[i]) == Unplaced(a.children[i]);
      MoveToPlaces(a.children[i], LiveAnchor(a, a.children[i].positionOnParent));
    }
  }

  // ---------------------------------------------------------------------
  // add_child

  /**
   * The fraction of the parent's rest vector at which `add_child` anchors a
   * child: the x-ratio of the child's offset from the parent's base, or the
   * y-ratio when the parent's rest vector is vertical. It is not clamped.
   */
  function AttachRatio(parent: Arm, child: Arm): real
    requires !Degenerate(parent.directionInitial)
  {
    NonDegenerateAxis(parent.directionInitial);
    var offset := Sub(child.positionInitial, parent.positionInitial);
    if parent.directionInitial.x != 0.0 then offset.x / parent.directionInitial.x
    else offset.y / parent.directionInitial.y
  }

  /**
   * `Spirograph::add_child`: the child is appended after the existing
   * children, anchored at `AttachRatio`, and its rate becomes relative to the
   * parent's by adding the parent's rate. The parent pointer is the path.
   */
  function AddChild(parent: Arm, child: Arm): (r: Arm)
    requires !Degenerate(parent.directionInitial)
    ensures |r.children| == |parent.children| + 1 && r.children[..|parent.children|] == parent.children
    ensures r.(children := parent.children) == parent
    ensures var c := r.children[|parent.children|];
            c.positionOnParent == AttachRatio(parent, child) && c.revps == child.revps + parent.revps &&
            c.(positionOnParent := child.positionOnParent, revps := child.revps) == child
  {
    parent.(children := parent.children + [child.(positionOnParent := AttachRatio(parent, child), revps := child.revps + parent.revps)])
  }

  /** A child whose base lies at fraction `t` of the parent's rest vector is anchored at exactly `t`. */
  lemma AttachRecoversFraction(parent: Arm, child: Arm, t: real)
    requires !Degenerate(parent.directionInitial)
    requires child.positionInitial == Add(parent.positionInitial, Scale(parent.directionInitial, t))
    ensures AttachRatio(parent, child) == t
  {
    var d := parent.directionInitial;
    var offset := Sub(child.positionInitial, parent.positionInitial);
    if d.x != 0.0 {
      assert offset.x == d.x * t;
    } else {
      NonDegenerateAxis(d);
      assert offset.y == d.y * t;
    }
  }

  /**
   * Attaching and then re-placing the children of a parent whose live pose is
   * its rest pose puts the new child back where it was created.
   */
  lemma AttachThenUpdateKeepsPlace(parent: Arm, child: Arm, t: real)
    requires !Degenerate(parent.directionInitial)
    requires parent.position == parent.positionInitial && parent.direction == parent.directionInitial
    requires child.positionInitial == Add(parent.positionInitial, Scale(parent.directionInitial, t))
    ensures var r := UpdateChildrensPositionOnParent(AddChild(parent, child));
            r.children[|parent.children|].positionInitial == child.positionInitial &&
            r.children[|parent.children|].position == child.positionInitial
  {
    AttachRecoversFraction(parent, child, t);
  }

  /**
   * A child created at the clamped projection of the cursor onto the parent's
   * rest segment is anchored at a fraction in [0, 1], although `add_child`
   * itself does not clamp.
   */
  lemma AttachAtClampedPointInRange(parent: Arm, child: Arm, cursor: Vec2)
    requires !Degenerate(parent.directionInitial)
    requires child.positionInitial ==
             Add(parent.positionInitial, ClampedProjection(cursor, parent.positionInitial, parent.directionInitial))
    ensures 0.0 <= AttachRatio(parent, child) <= 1.0
  {
    AttachRecoversFraction(parent, child, ClampedScale(cursor, parent.positionInitial, parent.directionInitial));
  }

  // ---------------------------------------------------------------------
  // remove_child and clear_children on the child sequence

  /** Sibling identities are pairwise distinct, as the pointers of distinct allocations are. */
  predicate DistinctIds(cs: seq<Arm>)
  {
    forall i, j :: 0 <= i < j < |cs| ==> cs[i].id != cs[j].id
  }

  /** The index of the first child with identity `id`, or `|cs|` when there is none. */
  function IndexOf(cs: seq<Arm>, id: nat): (k: nat)
    ensures k <= |cs|
    ensures k < |cs| ==> cs[k].id == id
    ensures forall j :: 0 <= j < k ==> cs[j].id != id
  {
    if cs == [] then 0
    else if cs[0].id == id then 0
    else 1 + IndexOf(cs[1..], id)
  }

  /**
   * The children left by `Spirograph::remove_child`, branch by branch: an
   * empty list stays empty; a match in last place is dropped; then a match
   * in first place; then the first inner match; no match leaves the list.
   */
  function Removed(cs: seq<Arm>, id: nat): seq<Arm>
  {
    if |cs| == 0 then cs
    else if cs[|cs| - 1].id == id then cs[..|cs| - 1]
    else if cs[0].id == id then cs[1..]
    else
      var k := IndexOf(cs, id);
      if k < |cs| then cs[..k] + cs[k + 1..] else cs
  }

  /** Among distinct siblings, removing one deletes exactly its entry and keeps the others in order. */
  lemma RemovedDeletesEntry(cs: seq<Arm>, k: nat)
    requires DistinctIds(cs) && k < |cs|
    ensures Removed(cs, cs[k].id) == cs[..k] + cs[k + 1..]
    ensures |Removed(cs, cs[k].id)| == |cs| - 1
  {
    var id := cs[k].id;
    if k == |cs| - 1 {
      assert cs[k + 1..] == [];
    } else if k == 0 {
      assert cs[..k] == [];
    } else {
      var i := IndexOf(cs, id);
      assert i == k;
    }
  }

  /** Removing an identity that is not among the children changes nothing. */
  lemma RemovedAbsent(cs: seq<Arm>, id: nat)
    requires forall j :: 0 <= j < |cs| ==> cs[j].id != id
    ensures Removed(cs, id) == cs
  {
  }

  /** `Spirograph::clear_children`: whatever its loop visits, the arm ends with no children. */
  function ClearChildren(a: Arm): (r: Arm)
    ensures r.children == [] && r.(children := a.children) == a
  {
    a.(children := [])
  }

  // ---------------------------------------------------------------------
  // Paths: the parent pointers

  /** A node's address: the child indices from the root down to it. */
  type Path = seq<nat>

  predicate ValidPath(a: Arm, p: Path)
    decreases |p|
  {
    p == [] || (p[0] < |a.children| && ValidPath(a.children[p[0]], p[1..]))
  }

  function At(a: Arm, p: Path): Arm
    requires ValidPath(a, p)
    decreases |p|
  {
    if p == [] then a else At(a.children[p[0]], p[1..])
  }

  /** The tree with the node at `p` replaced by `n`; the root's own fields stay when `p` is not empty. */
  function Replace(a: Arm, p: Path, n: Arm): (r: Arm)
    requires ValidPath(a, p)
    ensures ValidPath(r, p) && At(r, p) == n
    ensures p != [] ==> r.(children := a.children) == a && |r.children| == |a.children|
    decreases |p|
  {
    if p == [] then n
    else a.(children := a.children[p[0] := Replace(a.children[p[0]], p[1..], n)])
  }

  /** A child index of a reachable node extends its path. */
  lemma {:induction false} ExtendPath(a: Arm, p: Path, k: nat)
    requires ValidPath(a, p) && k < |At(a, p).children|
    ensures ValidPath(a, p + [k]) && At(a, p + [k]) == At(a, p).children[k]
    decreases |p|
  {
    if p != [] {
      assert (p + [k])[1..] == p[1..] + [k];
      ExtendPath(a.children[p[0]], p[1..], k);
    }
  }

  /** The path without its last step reaches the parent, whose child at that step is the node. */
  lemma {:induction false} ParentPath(a: Arm, p: Path)
    requires ValidPath(a, p) && p != []
    ensures ValidPath(a, p[..|p| - 1]) && p[|p| - 1] < |At(a, p[..|p| - 1]).children|
    ensures At(a, p[..|p| - 1]).children[p[|p| - 1]] == At(a, p)
    decreases |p|
  {
    if |p| > 1 {
      assert p[1..][..|p| - 2] == p[..|p| - 1][1..];
      ParentPath(a.children[p[0]], p[1..]);
    }
  }

  /** Replacing a node changes its parent's children at that one index and nothing else of the parent. */
  lemma {:induction false} ReplaceAtParent(a: Arm, p: Path, n: Arm)
    requires ValidPath(a, p) && p != []
    ensures ValidPath(a, p[..|p| - 1]) && ValidPath(Replace(a, p, n), p[..|p| - 1])
    ensures p[|p| - 1] < |At(a, p[..|p| - 1]).children|
    ensures At(Replace(a, p, n), p[..|p| - 1]) ==
            At(a, p[..|p| - 1]).(children := At(a, p[..|p| - 1]).children[p[|p| - 1] := n])
    decreases |p|
  {
    if |p| > 1 {
      assert p[1..][..|p| - 2] == p[..|p| - 1][1..];
      ReplaceAtParent(a.children[p[0]], p[1..], n);
    }
  }

  /** Replacing a node and then one of its ancestors is replacing the ancestor alone. */
  lemma {:induction false} ReplaceUnderReplace(a: Arm, p: Path, n: Arm, q: Path, m: Arm)
    requires ValidPath(a, p) && q <= p
    ensures ValidPath(a, q) && ValidPath(Replace(a, p, n), q)
    ensures Replace(Replace(a, p, n), q, m) == Replace(a, q, m)
    decreases |q|
  {
    if q != [] {
      ReplaceUnderReplace(a.children[p[0]], p[1..], n, q[1..], m);
    }
  }

  // ---------------------------------------------------------------------
  // The tree invariant

  /**
   * Every identity is below `bound` (the next one to hand out), siblings have
   * distinct identities, and no arm below the top is a root.
   */
  predicate ArmsOk(a: Arm, bound: nat)
  {
    a.id < bound && DistinctIds(a.children) &&
    forall i :: 0 <= i < |a.children| ==> !a.children[i].isRoot && ArmsOk(a.children[i], bound)
  }

  /** The invariant depends on the shape alone. */
  lemma {:induction false} ArmsOkByShape(a: Arm, b: Arm, bound: nat)
    requires ShapeOf(a) == ShapeOf(b) && ArmsOk(a, bound)
    ensures ArmsOk(b, bound)
  {
    assert |a.children| == |ShapeOf(a).children| == |b.children|;
    forall i | 0 <= i < |b.children|
      ensures ShapeOf(a.children[i]) == ShapeOf(b.children[i])
    {
      assert ShapeOf(a).children[i] == ShapeOf(a.children[i]);
      assert ShapeOf(b).children[i] == ShapeOf(b.children[i]);
    }
    forall i | 0 <= i < |b.children|
      ensures ArmsOk(b.children[i], bound)
    {
      ArmsOkByShape(a.children[i], b.children[i], bound);
    }
  }

  lemma {:induction false} ArmsOkWeaken(a: Arm, bound: nat, bound': nat)
    requires ArmsOk(a, bound) && bound <= bound'
    ensures ArmsOk(a, bound')
  {
    forall i | 0 <= i < |a.children|
      ensures ArmsOk(a.children[i], bound')
    {
      ArmsOkWeaken(a.children[i], bound, bound');
    }
  }

  /** Below a well-formed tree every node is well formed, and only the top is a root. */
  lemma {:induction false} ArmsOkAt(a: Arm, p: Path, bound: nat)
    requires ArmsOk(a, bound) && ValidPath(a, p)
    ensures ArmsOk(At(a, p), bound)
    ensures p != [] ==> !At(a, p).isRoot
    decreases |p|
  {
    if p != [] {
      ArmsOkAt(a.children[p[0]], p[1..], bound);
    }
  }

  /** Replacing a node by a well-formed one with the same identity and root flag keeps the invariant. */
  lemma {:induction false} ArmsOkReplace(a: Arm, p: Path, n: Arm, bound: nat)
    requires ArmsOk(a, bound) && ValidPath(a, p) && ArmsOk(n, bound)
    requires n.id == At(a, p).id && n.isRoot == At(a, p).isRoot
    ensures ArmsOk(Replace(a, p, n), bound)
    decreases |p|
  {
    if p != [] {
      var c := a.children[p[0]];
      ArmsOkReplace(c, p[1..], n, bound);
      var c' := Replace(c, p[1..], n);
      assert c'.id == c.id && c'.isRoot == c.isRoot;
      var r := Replace(a, p, n);
      assert forall i :: 0 <= i < |r.children| ==> r.children[i].id == a.children[i].id;
    }
  }

  /** Attaching a fresh childless arm with the next identity keeps the invariant for the next bound. */
  lemma AddChildKeepsArmsOk(parent: Arm, child: Arm, bound: nat)
    requires !Degenerate(parent.directionInitial) && ArmsOk(parent, bound)
    requires child.id == bound && child.children == [] && !child.isRoot
    ensures ArmsOk(AddChild(parent, child), bound + 1)
  {
    ArmsOkWeaken(parent, bound, bound + 1);
    var r := AddChild(parent, child);
    forall i | 0 <= i < |parent.children|
      ensures r.children[i].id < bound
    {
      assert r.children[i] == parent.children[i];
      ArmsOkAt(parent, [i], bound);
    }
  }

  /** Deleting one child keeps the invariant. */
  lemma DeleteKeepsArmsOk(parent: Arm, k: nat, bound: nat)
    requires ArmsOk(parent, bound) && k < |parent.children|
    ensures ArmsOk(parent.(children := parent.children[..k] + parent.children[k + 1..]), bound)
  {
    var cs := parent.children;
    var ds := cs[..k] + cs[k + 1..];
    assert forall i :: 0 <= i < |ds| ==> ds[i] == cs[if i < k then i else i + 1];
  }

  // ---------------------------------------------------------------------
  // Edits that keep the shape

  /** Whether a path leads anywhere depends on the shape alone. */
  lemma {:induction false} ValidPathByShape(a: Arm, b: Arm, p: Path)
    requires ShapeOf(a) == ShapeOf(b)
    ensures ValidPath(a, p) == ValidPath(b, p)
    decreases |p|
  {
    assert |a.children| == |ShapeOf(a).children| == |b.children|;
    if p != [] && p[0] < |a.children| {
      assert ShapeOf(a).children[p[0]] == ShapeOf(a.children[p[0]]);
      assert ShapeOf(b).children[p[0]] == ShapeOf(b.children[p[0]]);
      ValidPathByShape(a.children[p[0]], b.children[p[0]], p[1..]);
    }
  }

  /** Replacing a node by one of the same shape keeps the shape of the whole tree. */
  lemma {:induction false} ReplaceKeepsShape(a: Arm, p: Path, n: Arm)
    requires ValidPath(a, p) && ShapeOf(n) == ShapeOf(At(a, p))
    ensures ShapeOf(Replace(a, p, n)) == ShapeOf(a)
    decreases |p|
  {
    if p != [] {
      ReplaceKeepsShape(a.children[p[0]], p[1..], n);
      var r := Replace(a, p, n);
      assert forall i :: 0 <= i < |r.children| ==> ShapeOf(r.children[i]) == ShapeOf(a.children[i]);
      assert ShapeOf(r).children == ShapeOf(a).children;
    }
  }

  /** Trees with the same skeleton have the same paths, and the same skeleton at each. */
  lemma {:induction false} SkeletonAt(a: Arm, b: Arm, p: Path)
    requires Skeleton(a) == Skeleton(b) && ValidPath(a, p)
    ensures ValidPath(b, p) && Skeleton(At(a, p)) == Skeleton(At(b, p))
    decreases |p|
  {
    assert |a.children| == |Skeleton(a).children| == |b.children|;
    if p != [] {
      assert Skeleton(a).children[p[0]] == Skeleton(a.children[p[0]]);
      assert Skeleton(b).children[p[0]] == Skeleton(b.children[p[0]]);
      SkeletonAt(a.children[p[0]], b.children[p[0]], p[1..]);
    }
  }

  /** Replacing a node by one with the same skeleton keeps the skeleton of the whole tree. */
  lemma {:induction false} ReplaceKeepsSkeleton(a: Arm, p: Path, n: Arm)
    requires ValidPath(a, p) && Skeleton(n) == Skeleton(At(a, p))
    ensures Skeleton(Replace(a, p, n)) == Skeleton(a)
    decreases |p|
  {
    if p != [] {
      ReplaceKeepsSkeleton(a.children[p[0]], p[1..], n);
      var r := Replace(a, p, n);
      assert forall i :: 0 <= i < |r.children| ==> Skeleton(r.children[i]) == Skeleton(a.children[i]);
      assert Skeleton(r).children == Skeleton(a).children;
    }
  }
}
