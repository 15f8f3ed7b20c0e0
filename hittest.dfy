/**
 * `node_near_cursor_orthproj`: the arm whose rest segment passes closest to
 * the cursor, searched parent before children, a later arm winning only when
 * it is strictly closer.
 *
 * The source's arithmetic is float: an arm with a degenerate rest vector
 * gets a NaN projection and a NaN distance. Here that is `None`, and, like a
 * NaN, it is never less than anything and nothing is less than it.
 */
module HitTest {
  import opened Geometry
  import opened Projection
  import opened ArmTree
  import opened Wrappers

  /**
   * What the search computes for one arm: the point of its rest segment
   * nearest the cursor, relative to the arm's base, and the squared distance
   * from that point to the cursor.
   */
  datatype Probe = Probe(distance: real, projection: Vec2)

  /** The probe of one arm: its projection bounded to the segment, then the squared distance. */
  function ProbeOf(a: Arm, cursor: Vec2): Option<Probe>
  {
    if Degenerate(a.directionInitial) then None
    else
      var proj := ClampedProjection(cursor, a.positionInitial, a.directionInitial);
      Some(Probe(Norm2(Sub(Add(a.positionInitial, proj), cursor)), proj))
  }

  /** A cursor at or beyond an arm's rest tip, along the arm, is probed at the tip. */
  lemma ProbeBeyondTip(a: Arm, cursor: Vec2)
    requires 0.0 < Norm2(a.directionInitial) <= Dot(Sub(cursor, a.positionInitial), a.directionInitial)
    ensures ProbeOf(a, cursor) == Some(Probe(Norm2(Sub(RestTip(a), cursor)), a.directionInitial))
  {
    ProjectionBeyondTip(cursor, a.positionInitial, a.directionInitial);
  }

  /** The cursor on an arm's rest tip is probed there, at distance 0. */
  lemma ProbeAtTip(a: Arm)
    requires 0.0 < Norm2(a.directionInitial)
    ensures ProbeOf(a, RestTip(a)) == Some(Probe(0.0, a.directionInitial))
  {
    assert Sub(RestTip(a), a.positionInitial) == a.directionInitial;
    ProbeBeyondTip(a, RestTip(a));
    assert Sub(RestTip(a), RestTip(a)) == Origin;
  }

  /** The source's `child_distance2 < closest_distance2`, false whenever either side is NaN. */
  predicate Less(x: Option<Probe>, y: Option<Probe>)
  {
    x.Some? && y.Some? && x.value.distance < y.value.distance
  }

  /** The search's results: the node found and its probe. */
  datatype Hit = Hit(path: Path, probe: Option<Probe>)

  /**
   * The search over the arm and the subtrees of its first `k` children: the
   * arm itself first, then each child's own best, taken only when strictly
   * closer than the best so far.
   */
  function NearestFrom(a: Arm, cursor: Vec2, k: nat): Hit
    requires k <= |a.children|
    decreases a, k
  {
    if k == 0 then Hit([], ProbeOf(a, cursor))
    else
      var best := NearestFrom(a, cursor, k - 1);
      var c := Nearest(a.children[k - 1], cursor);
      if Less(c.probe, best.probe) then Hit([k - 1] + c.path, c.probe) else best
  }

  function Nearest(a: Arm, cursor: Vec2): Hit
    decreases a, |a.children| + 1
  {
    NearestFrom(a, cursor, |a.children|)
  }

  /**
   * `node_near_cursor_orthproj`: the running best starts at the arm itself
   * and each child's recursive result replaces it only when strictly closer.
   */
  method NodeNearCursor(a: Arm, cursor: Vec2) returns (closest: Path, probe: Option<Probe>)
    ensures Hit(closest, probe) == Nearest(a, cursor)
    decreases a
  {
    closest := [];
    probe := ProbeOf(a, cursor);
    var i := 0;
    while i < |a.children|
      invariant 0 <= i <= |a.children|
      invariant Hit(closest, probe) == NearestFrom(a, cursor, i)
    {
      var childClosest, childProbe := NodeNearCursor(a.children[i], cursor);
      if Less(childProbe, probe) {
        closest := [i] + childClosest;
        probe := childProbe;
      }
      i := i + 1;
    }
  }

  // ---------------------------------------------------------------------
  // What the search finds

  /** `q` comes before `p` in the parent-before-children order of the search. */
  predicate PathBefore(q: Path, p: Path)
    decreases |q|
  {
    p != [] && (q == [] || q[0] < p[0] || (q[0] == p[0] && PathBefore(q[1..], p[1..])))
  }

  /** Every rest vector of the subtree can be projected onto: no NaN anywhere. */
  predicate AllProbed(a: Arm)
  {
    !Degenerate(a.directionInitial) && forall i :: 0 <= i < |a.children| ==> AllProbed(a.children[i])
  }

  /** The node at `p` is no closer than the hit, and strictly farther if it comes first. */
  predicate NoCloser(a: Arm, cursor: Vec2, h: Hit, p: Path)
    requires ValidPath(a, p)
  {
    var q := ProbeOf(At(a, p), cursor);
    !Less(q, h.probe) && (PathBefore(p, h.path) ==> Less(h.probe, q))
  }

  /** The search over the first `k` children returns a node of that part of the tree with that node's probe. */
  lemma {:induction false} NearestFromFound(a: Arm, cursor: Vec2, k: nat)
    requires k <= |a.children|
    ensures var h := NearestFrom(a, cursor, k);
            ValidPath(a, h.path) && h.probe == ProbeOf(At(a, h.path), cursor) &&
            (h.path == [] || h.path[0] < k)
    decreases a, k
  {
    if k > 0 {
      NearestFromFound(a, cursor, k - 1);
      var child := a.children[k - 1];
      NearestFromFound(child, cursor, |child.children|);
      var c := Nearest(child, cursor);
      assert ([k - 1] + c.path)[1..] == c.path;
    }
  }

  lemma {:induction false} AllProbedAt(a: Arm, p: Path)
    requires AllProbed(a) && ValidPath(a, p)
    ensures !Degenerate(At(a, p).directionInitial)
    decreases |p|
  {
    if p != [] {
      AllProbedAt(a.children[p[0]], p[1..]);
    }
  }

  /** Before-ness is decided below a shared first step. */
  lemma PathBeforeCons(k: nat, q: Path, p: Path)
    ensures PathBefore([k] + q, [k] + p) == PathBefore(q, p)
  {
    assert ([k] + q)[1..] == q && ([k] + p)[1..] == p;
  }

  /** A node the first `k - 1` children's search already beat keeps losing after child `k - 1` is searched. */
  lemma StepKeepsEarlier(a: Arm, cursor: Vec2, k: nat, p: Path)
    requires 0 < k <= |a.children| && ValidPath(a, p)
    requires NearestFrom(a, cursor, k - 1).probe.Some? && ProbeOf(At(a, p), cursor).Some?
    requires NoCloser(a, cursor, NearestFrom(a, cursor, k - 1), p)
    ensures NoCloser(a, cursor, NearestFrom(a, cursor, k), p)
  {
  }

  /** A node under child `k - 1` that the child's own search beat also loses to the combined search. */
  lemma StepCoversChild(a: Arm, cursor: Vec2, k: nat, p: Path)
    requires 0 < k <= |a.children|
    requires ValidPath(a.children[k - 1], p)
    requires var best := NearestFrom(a, cursor, k - 1);
             best.probe.Some? && (best.path == [] || best.path[0] < k - 1)
    requires Nearest(a.children[k - 1], cursor).probe.Some?
    requires NoCloser(a.children[k - 1], cursor, Nearest(a.children[k - 1], cursor), p)
    ensures ValidPath(a, [k - 1] + p) && NoCloser(a, cursor, NearestFrom(a, cursor, k), [k - 1] + p)
  {
    var q := [k - 1] + p;
    assert q[1..] == p;
    assert At(a, q) == At(a.children[k - 1], p);
    PathBeforeCons(k - 1, p, Nearest(a.children[k - 1], cursor).path);
  }

  /**
   * With every arm projectable, the search over the arm and its first `k`
   * children finds a node no farther than any node of that part, and every
   * node before it in search order is strictly farther.
   */
  lemma {:induction false} NearestFromBest(a: Arm, cursor: Vec2, k: nat)
    requires k <= |a.children| && AllProbed(a)
    ensures forall p | ValidPath(a, p) && (p == [] || p[0] < k) :: NoCloser(a, cursor, NearestFrom(a, cursor, k), p)
    decreases a, k
  {
    if k > 0 {
      var best := NearestFrom(a, cursor, k - 1);
      var child := a.children[k - 1];
      var c := Nearest(child, cursor);
      NearestFromBest(a, cursor, k - 1);
      NearestFromBest(child, cursor, |child.children|);
      NearestFromFound(a, cursor, k - 1);
      NearestFromFound(child, cursor, |child.children|);
      AllProbedAt(a, best.path);
      AllProbedAt(child, c.path);
      forall p | ValidPath(a, p) && (p == [] || p[0] < k)
        ensures NoCloser(a, cursor, NearestFrom(a, cursor, k), p)
      {
        AllProbedAt(a, p);
        if p != [] && p[0] == k - 1 {
          assert p == [k - 1] + p[1..];
          StepCoversChild(a, cursor, k, p[1..]);
        } else {
          StepKeepsEarlier(a, cursor, k, p);
        }
      }
    }
  }

  /**
   * `node_near_cursor_orthproj`'s promise: when every rest vector is
   * projectable, the node found is in the tree, carries its own probe, is at
   * least as close as every node, and is strictly closer than every node
   * searched before it, so ties go to the earliest node.
   */
  lemma NearestIsClosest(a: Arm, cursor: Vec2)
    requires AllProbed(a)
    ensures var h := Nearest(a, cursor);
            ValidPath(a, h.path) && h.probe == ProbeOf(At(a, h.path), cursor) &&
            forall p | ValidPath(a, p) :: NoCloser(a, cursor, h, p)
  {
    NearestFromFound(a, cursor, |a.children|);
    NearestFromBest(a, cursor, |a.children|);
  }
}
