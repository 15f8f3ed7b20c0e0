/**
 * The editor: the top-level EDIT/ANIMATE switch of the main loop, the
 * editor's three modes (edit menu, placing a new arm's base, aiming its
 * head), and the state the source keeps in globals and function statics.
 * The mouse is the record the event handler leaves for each frame; the
 * editor clears the flags it consumes. Key states, the frame time and
 * cosine/sine come in as parameters.
 */
module EditorModel {
  import opened Geometry
  import opened Projection
  import opened ArmTree
  import opened HitTest
  import opened Keyboard
  import opened Wrappers

  datatype Mode = Edit | Animate

  datatype EditMode = SetChildPosition | SetChildDirection | EditMenu | Preview

  /** The mouse as a frame sees it: the integer cursor and the button flags. */
  datatype MouseState = MouseState(x: int, y: int, leftDown: bool, rightDown: bool, leftUp: bool, rightUp: bool)

  function Cursor(m: MouseState): Vec2 { FromInt(m.x, m.y) }

  /**
   * The root arm `main` builds: at the centre of the display, a 0.1-long
   * vertical vector, not rotating, flagged as the root.
   */
  function RootArm(width: int, height: int): (a: Arm)
    ensures a.isRoot && a.children == [] && a.revps == 0.0 && AtRest(a)
    ensures a.positionInitial == Vec2(width as real / 2.0, height as real / 2.0)
    ensures !Degenerate(a.directionInitial)
  {
    NewArm(0, Vec2(width as real / 2.0, height as real / 2.0), Vec2(0.0, 0.1)).(revps := 0.0, isRoot := true)
  }

  // ---------------------------------------------------------------------
  // The colour palette's claim on the frame

  const PaletteMargin: int := 20
  const PalettePartitions: int := 3
  /** A quarter of the margin, converted to int. */
  const PaletteSpacing: int := 5

  /** The radius of a palette button, as the source computes it and truncates it. */
  function ButtonRadius(height: int): int
  {
    var cells := (PalettePartitions * PalettePartitions) as real;
    Trunc((((height - 2 * PaletteMargin) as real) / cells - (PaletteSpacing as real) * ((cells - 1.0) / cells)) / 2.0)
  }

  /** The palette claims the frame when the cursor is over its strip at the left edge. */
  predicate PaletteHovered(x: int, height: int)
  {
    x <= 2 * PaletteMargin + (PalettePartitions - 1) * PaletteSpacing + PalettePartitions * 2 * ButtonRadius(height)
  }

  /** The strip is 50 pixels plus three button diameters wide, a button's radius being (height - 80) / 18 truncated. */
  lemma PaletteStripWidth(x: int, height: int)
    ensures ButtonRadius(height) == Trunc((height - 80) as real / 18.0)
    ensures PaletteHovered(x, height) <==> x <= 50 + 6 * ButtonRadius(height)
  {
    var cells := 9.0;
    assert (((height - 40) as real) / cells - 5.0 * ((cells - 1.0) / cells)) / 2.0 == (height - 80) as real / 18.0;
  }

  // ---------------------------------------------------------------------
  // The rotation-speed slider

  const SliderMargin: int := 30
  const SliderTop: int := SliderMargin
  const SliderHoverRadius: int := 7
  const SliderMin: real := 0.0
  const SliderMax: real := 2.0

  function SliderX(width: int): int { width - SliderMargin }

  function SliderBottom(height: int): int { height - SliderMargin }

  /** The knob's height for a rate: 0 at the bottom of the track, 2 at the top, truncated to a pixel. */
  function KnobY(revps: real, height: int): int
  {
    Trunc(((SliderTop - SliderBottom(height)) as real / (SliderMax - SliderMin)) * revps + SliderBottom(height) as real)
  }

  /** The cursor height held to the track: first not below the bottom, then not above the top. */
  function ClampToTrack(y: int, height: int): (c: int)
    ensures SliderTop <= SliderBottom(height) ==> SliderTop <= c <= SliderBottom(height)
    ensures SliderTop <= y <= SliderBottom(height) ==> c == y
    ensures SliderTop > SliderBottom(height) ==> c == SliderTop
  {
    var below := if y > SliderBottom(height) then SliderBottom(height) else y;
    if below < SliderTop then SliderTop else below
  }

  /** The rate a track height stands for, before rounding. */
  function TrackValue(y: int, height: int): real
    requires height != 2 * SliderMargin
  {
    ((SliderMax - SliderMin) / (SliderTop - SliderBottom(height)) as real) * (y - SliderBottom(height)) as real
  }

  /** `ceil(v * 100) / 100`: the least multiple of 0.01 not below `v`. */
  function RoundUpHundredths(v: real): (r: real)
    ensures v <= r < v + 0.01
    ensures (r * 100.0).Floor as real == r * 100.0
  {
    Ceil(v * 100.0) as real / 100.0
  }

  /** The rate a drag of the knob to cursor height `y` sets. */
  function SliderRate(y: int, height: int): real
    requires height != 2 * SliderMargin
  {
    RoundUpHundredths(TrackValue(ClampToTrack(y, height), height))
  }

  /** The track's ends stand for 0 (bottom) and 2 (top), and the knob drawn for a track value is at that height. */
  lemma TrackRoundTrip(y: int, height: int)
    requires height != 2 * SliderMargin
    ensures TrackValue(SliderBottom(height), height) == 0.0
    ensures TrackValue(SliderTop, height) == 2.0
    ensures KnobY(TrackValue(y, height), height) == y
  {
    var t := (SliderTop - SliderBottom(height)) as real;
    var d := (y - SliderBottom(height)) as real;
    assert TrackValue(y, height) * t == 2.0 * d;
    assert (t / 2.0) * TrackValue(y, height) == d;
  }

  /** A value that scales the track's (negative) length to twice a height between its bottom and top lies in [0, 2]. */
  lemma TrackScaleInRange(v: real, d: real, t: real)
    requires t < 0.0 && t <= d <= 0.0 && v * t == 2.0 * d
    ensures 0.0 <= v <= 2.0
  {
    assert v < 0.0 ==> v * t > 0.0;
    assert v > 2.0 ==> (v - 2.0) * t < 0.0;
  }

  /** A slider drag always sets a rate in [0, 2], whatever the cursor height. */
  lemma SliderRateInRange(y: int, height: int)
    requires height != 2 * SliderMargin
    ensures 0.0 <= SliderRate(y, height) <= 2.0
  {
    var c := ClampToTrack(y, height);
    var t := (SliderTop - SliderBottom(height)) as real;
    var d := (c - SliderBottom(height)) as real;
    var v := TrackValue(c, height);
    assert v * t == 2.0 * d;
    if t < 0.0 {
      assert t <= d <= 0.0;
      TrackScaleInRange(v, d, t);
    } else {
      assert d == t;
      assert v == 2.0;
    }
    var n := Ceil(v * 100.0);
    assert n as real < 201.0;
  }

  /** The slider's own hover test, its area, and the hold flag the frame leaves. */
  predicate KnobHovered(m: MouseState, revps: real, width: int, height: int)
  {
    Within(Cursor(m), FromInt(SliderX(width), KnobY(revps, height)), SliderHoverRadius)
  }

  predicate SliderAreaHovered(m: MouseState, width: int)
  {
    m.x > width - 2 * SliderMargin
  }

  predicate SliderHeld(m: MouseState, holding: bool, width: int)
  {
    m.leftDown && (SliderAreaHovered(m, width) || holding)
  }

  /** `change_rotation_speed` claims the frame when the knob or its area is hovered or the knob is held. */
  predicate SpeedClaims(m: MouseState, revps: real, holding: bool, width: int, height: int)
  {
    KnobHovered(m, revps, width, height) || SliderHeld(m, holding, width) || SliderAreaHovered(m, width)
  }

  /**
   * `change_rotation_speed` on the selected arm: the hold flag is set by a
   * press in the slider's area and cleared by a release; a left-button
   * release resets the subtree; while held, the subtree turns for this frame
   * and its rate becomes the rounded track value at the clamped cursor
   * height, which lies in [0, 2]. It claims the frame when the knob or its
   * area is hovered or the knob is held.
   */
  method SpeedSlider(node: Arm, mouse: MouseState, holding: bool, width: int, height: int,
                     dt: real, play: bool, trig: Trig) returns (node': Arm, holding': bool, editing: bool)
    requires SliderHeld(mouse, holding, width) ==> height != 2 * SliderMargin
    ensures holding' == SliderHeld(mouse, holding, width)
    ensures editing == SpeedClaims(mouse, node.revps, holding, width, height)
    ensures var n := if mouse.leftUp then Reset(node) else node;
            node' == if holding' then Rotate(n, dt, play, trig).(revps := SliderRate(mouse.y, height)) else n
    ensures holding' ==> 0.0 <= node'.revps <= 2.0
    ensures ShapeOf(node') == ShapeOf(node)
    ensures !editing ==> Skeleton(node') == Skeleton(node)
  {
    node' := node;
    var knobY := KnobY(node.revps, height);
    var hoveringSlider := Within(Cursor(mouse), FromInt(SliderX(width), knobY), SliderHoverRadius);
    var hoveringArea := mouse.x > width - 2 * SliderMargin;
    holding' := holding;
    if mouse.leftDown && hoveringArea {
      holding' := true;
    } else if !mouse.leftDown {
      holding' := false;
    }
    if mouse.leftUp {
      node' := Reset(node');
    }
    editing := hoveringSlider || holding' || hoveringArea;
    if holding' {
      var rate := SliderDrag(mouse.y, height);
      node' := Rotate(node', dt, play, trig);
      node' := node'.(revps := rate);
    }
  }

  /**
   * The held knob's new rate: the cursor height held to the track, read as
   * a track value and rounded up to a hundredth; it lies in [0, 2].
   */
  method SliderDrag(cursorY: int, height: int) returns (rate: real)
    requires height != 2 * SliderMargin
    ensures rate == SliderRate(cursorY, height)
    ensures 0.0 <= rate <= 2.0
  {
    var y := cursorY;
    if y > SliderBottom(height) {
      y := SliderBottom(height);
    }
    if y < SliderTop {
      y := SliderTop;
    }
    rate := TrackValue(y, height);
    rate := Ceil(rate * 100.0) as real / 100.0;
    SliderRateInRange(cursorY, height);
  }

  // ---------------------------------------------------------------------
  // Dragging the selected arm's head and base

  /** The cursor is within the hover radius of the arm's rest tip (its head) or of its rest base. */
  predicate HeadHovered(a: Arm, m: MouseState)
  {
    Within(Cursor(m), RestTip(a), HoverRadius)
  }

  predicate BaseHovered(a: Arm, m: MouseState)
  {
    Within(Cursor(m), a.positionInitial, HoverRadius)
  }

  /** The head stays held while the left button is, and is taken by the head key or a press over it. */
  predicate HeadHeld(a: Arm, m: MouseState, keyE: bool, holding: bool)
  {
    keyE || (m.leftDown && (HeadHovered(a, m) || holding))
  }

  /** The same for the base, except that a press over the root's base does not take it. */
  predicate BaseHeld(a: Arm, m: MouseState, keyW: bool, holding: bool)
  {
    keyW || (m.leftDown && ((BaseHovered(a, m) && !a.isRoot) || holding))
  }

  /** A held head that is not hovered follows the cursor. */
  predicate HeadDragged(a: Arm, m: MouseState, keyE: bool, holding: bool)
  {
    HeadHeld(a, m, keyE, holding) && !HeadHovered(a, m)
  }

  /** A held base that is not hovered (or is the root's) is moved onto the parent's rest vector. */
  predicate BaseDragged(a: Arm, m: MouseState, keyW: bool, holding: bool)
  {
    BaseHeld(a, m, keyW, holding) && !(BaseHovered(a, m) && !a.isRoot)
  }

  /**
   * The head half of `edit_dirpos`: a head neither hovered nor held is drawn
   * at the default size, a hovered one bigger, and a held one that is not
   * hovered takes the cursor as its rest tip, rest and live vector alike.
   */
  method HeadStep(node: Arm, cursor: Vec2, hovering: bool, holding: bool) returns (node': Arm)
    ensures node'.headRadius == if !hovering && !holding then DefaultRadius
                                else if hovering then HoverRadius else node.headRadius
    ensures holding && !hovering ==>
            node'.directionInitial == node'.direction == Sub(cursor, node.positionInitial) &&
            RestTip(node') == cursor
    ensures !(holding && !hovering) ==> node'.directionInitial == node.directionInitial && node'.direction == node.direction
    ensures node' == node.(headRadius := node'.headRadius, directionInitial := node'.directionInitial, direction := node'.direction)
  {
    node' := node;
    if !hovering && !holding {
      node' := node'.(headRadius := DefaultRadius);
    } else if hovering {
      node' := node'.(headRadius := HoverRadius);
    } else if holding {
      var dir := Sub(cursor, node'.positionInitial);
      node' := node'.(directionInitial := dir, direction := dir);
    }
  }

  /**
   * The base half of `edit_dirpos`: a base neither hovered nor held is drawn
   * at the default size, a hovered one (not the root's) bigger, and a held
   * one otherwise moves, rest and live position alike, to the point of the
   * parent's rest segment nearest the cursor, anchored at that fraction,
   * which lies in [0, 1].
   */
  method BaseStep(node: Arm, parent: Option<Arm>, cursor: Vec2, hovering: bool, holding: bool) returns (node': Arm)
    requires holding && !(hovering && !node.isRoot) ==> parent.Some? && !Degenerate(parent.value.directionInitial)
    ensures node'.baseRadius == if !hovering && !holding then DefaultRadius
                                else if hovering && !node.isRoot then HoverRadius else node.baseRadius
    ensures holding && !(hovering && !node.isRoot) ==>
            var p := parent.value;
            0.0 <= node'.positionOnParent <= 1.0 &&
            node'.positionOnParent == ClampedScale(cursor, p.positionInitial, p.directionInitial) &&
            node'.positionInitial == node'.position ==
            Add(p.positionInitial, Scale(p.directionInitial, node'.positionOnParent))
    ensures !(holding && !(hovering && !node.isRoot)) ==>
            node'.positionInitial == node.positionInitial && node'.position == node.position &&
            node'.positionOnParent == node.positionOnParent
    ensures node' == node.(baseRadius := node'.baseRadius, positionInitial := node'.positionInitial,
                           position := node'.position, positionOnParent := node'.positionOnParent)
  {
    node' := node;
    if !hovering && !holding {
      node' := node'.(baseRadius := DefaultRadius);
    } else if hovering && !node'.isRoot {
      node' := node'.(baseRadius := HoverRadius);
    } else if holding {
      var p := parent.value;
      var scale := ClampedScale(cursor, p.positionInitial, p.directionInitial);
      var pos := Add(p.positionInitial, ClampedProjection(cursor, p.positionInitial, p.directionInitial));
      node' := node'.(positionInitial := pos, position := pos, positionOnParent := scale);
    }
  }

  /**
   * The last step of `edit_dirpos`: while the head or base is held, the
   * descendants are re-placed on the arm's live vector and come to rest
   * there; the arm itself keeps its pose and anchor, and nothing but
   * positions changes anywhere in the subtree.
   */
  method PlaceDescendants(node: Arm, holding: bool) returns (node': Arm)
    ensures holding ==> Placed(node') && DescendantsAnchored(node')
    ensures !holding ==> node' == node
    ensures Unplaced(node') == Unplaced(node) && ShapeOf(node') == ShapeOf(node)
    ensures node'.positionInitial == node.positionInitial && node'.position == node.position
    ensures node'.directionInitial == node.directionInitial && node'.direction == node.direction
    ensures node'.positionOnParent == node.positionOnParent
  {
    node' := node;
    if holding {
      node' := UpdateChildrensPositionOnParent(node);
      UpdatePlacesDescendants(node);
    }
  }

  /**
   * What the arm part of `edit_dirpos` does to arm `a`, given what the cursor
   * hovers and what is held after this frame's update of the hold flags.
   *
   * The radii follow the source's else-if chains. A held head that is not
   * hovered takes the vector from the OLD rest base to the cursor, rest and
   * live alike; otherwise both vectors stay. A held base that is not hovered
   * (or is the root's) moves, rest and live alike, to the point of the
   * parent's rest segment at its clamped projection fraction, which becomes
   * its anchor; otherwise base and anchor stay. While either is held the
   * descendants sit on the arm's live vector, at rest; otherwise the
   * children are untouched. Nothing else changes; with nothing hovered or
   * held only the two radii change, to the default.
   */
  predicate DirposStep(a: Arm, parent: Option<Arm>, cursor: Vec2,
                       hoveringHead: bool, hoveringBase: bool, holdingHead: bool, holdingBase: bool, a': Arm)
  {
    var headDragged := holdingHead && !hoveringHead;
    var baseDragged := holdingBase && !(hoveringBase && !a.isRoot);
    a'.headRadius == (if !hoveringHead && !holdingHead then DefaultRadius
                      else if hoveringHead then HoverRadius else a.headRadius) &&
    a'.baseRadius == (if !hoveringBase && !holdingBase then DefaultRadius
                      else if hoveringBase && !a.isRoot then HoverRadius else a.baseRadius) &&
    (headDragged ==> a'.directionInitial == a'.direction == Sub(cursor, a.positionInitial)) &&
    (!headDragged ==> a'.directionInitial == a.directionInitial && a'.direction == a.direction) &&
    (headDragged && !baseDragged ==> RestTip(a') == cursor) &&
    (baseDragged ==>
       parent.Some? && !Degenerate(parent.value.directionInitial) &&
       a'.positionOnParent == ClampedScale(cursor, parent.value.positionInitial, parent.value.directionInitial) &&
       0.0 <= a'.positionOnParent <= 1.0 &&
       a'.positionInitial == a'.position ==
       Add(parent.value.positionInitial, Scale(parent.value.directionInitial, a'.positionOnParent))) &&
    (!baseDragged ==>
       a'.positionInitial == a.positionInitial && a'.position == a.position &&
       a'.positionOnParent == a.positionOnParent) &&
    (holdingHead || holdingBase ==> Placed(a') && DescendantsAnchored(a')) &&
    (!(holdingHead || holdingBase) ==> a'.children == a.children) &&
    Unplaced(a') == Unplaced(a.(headRadius := a'.headRadius, baseRadius := a'.baseRadius,
                                directionInitial := a'.directionInitial, direction := a'.direction,
                                positionOnParent := a'.positionOnParent)) &&
    ShapeOf(a') == ShapeOf(a) &&
    (!(hoveringHead || holdingHead || hoveringBase || holdingBase) ==>
       a' == a.(headRadius := DefaultRadius, baseRadius := DefaultRadius))
  }

  /** The arm part of `edit_dirpos`: the head step, then the base step, then the descendants re-placed while either is held. */
  method DirposArm(node: Arm, parent: Option<Arm>, cursor: Vec2,
                   hoveringHead: bool, hoveringBase: bool, holdingHead: bool, holdingBase: bool)
    returns (node': Arm)
    requires holdingBase && !(hoveringBase && !node.isRoot) ==>
             parent.Some? && !Degenerate(parent.value.directionInitial)
    ensures DirposStep(node, parent, cursor, hoveringHead, hoveringBase, holdingHead, holdingBase, node')
  {
    var headed := HeadStep(node, cursor, hoveringHead, holdingHead);
    var based := BaseStep(headed, parent, cursor, hoveringBase, holdingBase);
    ShapeOfOwnFields(node, based);
    node' := PlaceDescendants(based, holdingHead || holdingBase);
    assert Unplaced(based) == Unplaced(node.(headRadius := based.headRadius, baseRadius := based.baseRadius,
                                             directionInitial := based.directionInitial, direction := based.direction,
                                             positionOnParent := based.positionOnParent));
  }

  /**
   * What one frame of `edit_dirpos` does, from arm `a` and hold flags `hh`,
   * `hb` to `a'`, `hh'`, `hb'`: the flags follow the head and base keys and
   * the left button, the arm changes as `DirposStep` says for the cursor's
   * hover and the new flags, and the frame is claimed when the head or base
   * is hovered or held.
   */
  predicate DirposDone(a: Arm, parent: Option<Arm>, m: MouseState, keyE: bool, keyW: bool, hh: bool, hb: bool,
                       a': Arm, hh': bool, hb': bool, editing: bool)
  {
    hh' == HeadHeld(a, m, keyE, hh) && hb' == BaseHeld(a, m, keyW, hb) &&
    editing == (HeadHovered(a, m) || hh' || BaseHovered(a, m) || hb') &&
    DirposStep(a, parent, Cursor(m), HeadHovered(a, m), BaseHovered(a, m), hh', hb', a')
  }

  /**
   * `edit_dirpos` on the selected arm, whose parent is `parent` (`None` for
   * the root, whose parent pointer is null): the hold flags follow the head
   * and base keys and the left button, and the arm changes as `DirposArm`
   * says.
   */
  method DirposEdit(node: Arm, parent: Option<Arm>, mouse: MouseState, keyE: bool, keyW: bool,
                    holdingHead: bool, holdingBase: bool)
    returns (node': Arm, holdingHead': bool, holdingBase': bool, editing: bool)
    requires BaseDragged(node, mouse, keyW, holdingBase) ==>
             parent.Some? && !Degenerate(parent.value.directionInitial)
    ensures DirposDone(node, parent, mouse, keyE, keyW, holdingHead, holdingBase, node', holdingHead', holdingBase', editing)
  {
    var cursor := Cursor(mouse);
    var hoveringBase := BaseHovered(node, mouse);
    var hoveringHead := HeadHovered(node, mouse);
    holdingHead', holdingBase' := HoldFlags(node, mouse, keyE, keyW, holdingHead, holdingBase);
    node' := DirposArm(node, parent, cursor, hoveringHead, hoveringBase, holdingHead', holdingBase');
    editing := hoveringBase || holdingBase' || hoveringHead || holdingHead';
  }

  /**
   * The hold flags' update in `edit_dirpos`: the head key or a press over
   * the head takes the head, the base key or a press over a non-root base
   * takes the base, and lifting the left button lets go of whatever is not
   * taken again.
   */
  method HoldFlags(node: Arm, mouse: MouseState, keyE: bool, keyW: bool, holdingHead: bool, holdingBase: bool)
    returns (holdingHead': bool, holdingBase': bool)
    ensures holdingHead' == HeadHeld(node, mouse, keyE, holdingHead)
    ensures holdingBase' == BaseHeld(node, mouse, keyW, holdingBase)
  {
    var hoveringBase := Within(Cursor(mouse), node.positionInitial, HoverRadius);
    var hoveringHead := Within(Cursor(mouse), Add(node.positionInitial, node.directionInitial), HoverRadius);
    holdingHead' := holdingHead;
    if keyE || (hoveringHead && mouse.leftDown) {
      holdingHead' := true;
    } else if !mouse.leftDown {
      holdingHead' := false;
    }
    holdingBase' := holdingBase;
    if keyW || (hoveringBase && !node.isRoot && mouse.leftDown) {
      holdingBase' := true;
    } else if !mouse.leftDown {
      holdingBase' := false;
    }
  }

  // ---------------------------------------------------------------------
  // Parents and targets in the tree

  /** The parent of the node at `p`, or `None` for the root, whose parent pointer is null. */
  function ParentOf(root: Arm, p: Path): (r: Option<Arm>)
    requires ValidPath(root, p)
    ensures r.None? <==> p == []
  {
    if p == [] then None
    else
      ParentPath(root, p);
      Some(At(root, p[..|p| - 1]))
  }

  /**
   * A base drag this frame has a parent to slide along whose rest vector can
   * be projected onto. The source dereferences a null parent when the root's
   * base is dragged (by the base key, or by a hold carried over from another
   * arm), and divides by zero on a degenerate parent.
   */
  predicate BaseDragSafe(root: Arm, selected: Path, m: MouseState, keyW: bool, holdingBase: bool)
    requires ValidPath(root, selected)
  {
    var parent := ParentOf(root, selected);
    BaseDragged(At(root, selected), m, keyW, holdingBase) ==>
      parent.Some? && !Degenerate(parent.value.directionInitial)
  }

  /** Whether a base drag is safe depends only on the rest pose, which rotating and resetting keep. */
  lemma SkeletonKeepsBaseDragSafe(root: Arm, root': Arm, selected: Path, m: MouseState, keyW: bool, holdingBase: bool)
    requires ValidPath(root, selected) && Skeleton(root) == Skeleton(root')
    ensures ValidPath(root', selected)
    ensures BaseDragSafe(root', selected, m, keyW, holdingBase) == BaseDragSafe(root, selected, m, keyW, holdingBase)
  {
    SkeletonAt(root, root', selected);
    var a, a' := At(root, selected), At(root', selected);
    assert a.positionInitial == Skeleton(a).positionInitial && a'.positionInitial == Skeleton(a').positionInitial;
    assert a.isRoot == Skeleton(a).isRoot && a'.isRoot == Skeleton(a').isRoot;
    if selected != [] {
      var q := selected[..|selected| - 1];
      ParentPath(root, selected);
      SkeletonAt(root, root', q);
      assert At(root, q).directionInitial == Skeleton(At(root, q)).directionInitial;
      assert At(root', q).directionInitial == Skeleton(At(root', q)).directionInitial;
    }
  }

  /**
   * The node a search from the cursor settles on once the root is set
   * aside: the nearest node, or the root's first child when the nearest is
   * the root. The root itself is a target only when it has no children.
   */
  function SearchTarget(root: Arm, cursor: Vec2): (p: Path)
    ensures ValidPath(root, p)
    ensures p == [] <==> root.children == []
    ensures p == [] ==> Nearest(root, cursor).path == []
    ensures Nearest(root, cursor).path != [] ==> p == Nearest(root, cursor).path
    ensures Nearest(root, cursor).path == [] && root.children != [] ==> p == [0]
  {
    NearestFromFound(root, cursor, |root.children|);
    var h := Nearest(root, cursor);
    if h.path == [] && |root.children| > 0 then [0] else h.path
  }

  // ---------------------------------------------------------------------
  // Placing a new arm

  /**
   * What `SET_CHILD_DIRECTION` does to the arm being aimed every frame: its
   * rest and live vectors both reach from its rest base to the cursor.
   */
  function Aim(a: Arm, cursor: Vec2): (r: Arm)
    ensures RestTip(r) == cursor && r.direction == r.directionInitial
    ensures r.(directionInitial := a.directionInitial, direction := a.direction) == a
  {
    a.(directionInitial := Sub(cursor, a.positionInitial), direction := Sub(cursor, a.positionInitial))
  }

  /**
   * The arm a press in `SET_CHILD_POSITION` creates: built at `base` with
   * the cursor itself as its vector (so its trail's first point is `base`
   * plus the cursor), then aimed at the cursor.
   */
  function NewChildArm(id: nat, base: Vec2, cursor: Vec2): (c: Arm)
    ensures c.id == id && c.children == [] && !c.isRoot && !c.trailOn && c.revps == DefaultRevps
    ensures c.positionInitial == c.position == base && RestTip(c) == cursor && Tip(c) == cursor
    ensures c.trail.firstPoint == Add(base, cursor)
  {
    Aim(NewArm(id, base, cursor), cursor)
  }

  /**
   * The new arm's base as the source computes it: the target's rest base
   * plus the bounded projection found for the nearest node. The two are
   * different nodes when the nearest node is the root and the root has
   * children; a projection that cannot be computed is a NaN (`None`).
   */
  function PlaceBaseAsWritten(root: Arm, cursor: Vec2): Option<Vec2>
  {
    var h := Nearest(root, cursor);
    if h.probe.None? then None
    else Some(Add(At(root, SearchTarget(root, cursor)).positionInitial, h.probe.value.projection))
  }

  /** The new arm's base as intended: the point of the target's own rest segment nearest the cursor. */
  function PlaceBase(root: Arm, cursor: Vec2): Vec2
    requires !Degenerate(At(root, SearchTarget(root, cursor)).directionInitial)
  {
    var t := At(root, SearchTarget(root, cursor));
    Add(t.positionInitial, ClampedProjection(cursor, t.positionInitial, t.directionInitial))
  }

  /** Whenever the target is the node the search found, the source's base is the intended one. */
  lemma PlaceBaseAgrees(root: Arm, cursor: Vec2)
    requires !Degenerate(At(root, SearchTarget(root, cursor)).directionInitial)
    requires Nearest(root, cursor).path != [] || root.children == []
    ensures PlaceBaseAsWritten(root, cursor) == Some(PlaceBase(root, cursor))
  {
    NearestFromFound(root, cursor, |root.children|);
  }

  /**
   * The arm placed at the intended base lies on its parent's rest segment:
   * it is anchored at a fraction in [0, 1] whose point is its base, its
   * vector reaches the cursor, and it spins at the default rate plus the
   * parent's.
   */
  lemma PlacedArmOnTarget(root: Arm, cursor: Vec2, id: nat)
    requires !Degenerate(At(root, SearchTarget(root, cursor)).directionInitial)
    ensures var t := At(root, SearchTarget(root, cursor));
            var c := AddChild(t, NewChildArm(id, PlaceBase(root, cursor), cursor)).children[|t.children|];
            0.0 <= c.positionOnParent <= 1.0 &&
            c.positionInitial == Add(t.positionInitial, Scale(t.directionInitial, c.positionOnParent)) &&
            RestTip(c) == cursor && c.revps == DefaultRevps + t.revps
  {
    var t := At(root, SearchTarget(root, cursor));
    var s := ClampedScale(cursor, t.positionInitial, t.directionInitial);
    AttachRecoversFraction(t, NewChildArm(id, PlaceBase(root, cursor), cursor), s);
  }

  /**
   * Attaching a fresh childless arm with the next identity to the node at
   * `target` keeps the tree well formed under the next bound and makes the
   * new arm reachable at the target's next child index.
   */
  lemma AttachKeepsTreeOk(root: Arm, bound: nat, target: Path, child: Arm)
    requires root.isRoot && ArmsOk(root, bound) && ValidPath(root, target)
    requires !Degenerate(At(root, target).directionInitial)
    requires child.id == bound && child.children == [] && !child.isRoot
    ensures TreeOk(Replace(root, target, AddChild(At(root, target), child)), bound + 1,
                   target, target + [|At(root, target).children|], true)
  {
    var parent := At(root, target);
    var n := AddChild(parent, child);
    ArmsOkAt(root, target, bound);
    AddChildKeepsArmsOk(parent, child, bound);
    ArmsOkWeaken(root, bound, bound + 1);
    ArmsOkReplace(root, target, n, bound + 1);
    ExtendPath(Replace(root, target, n), target, |parent.children|);
  }

  /**
   * The editor's tree invariant: the top arm is the root, the arms are well
   * formed below the next identity, the selection names an arm, and so does
   * the arm being aimed while it is.
   */
  predicate TreeOk(root: Arm, nextId: nat, selected: Path, newChild: Path, aiming: bool)
  {
    root.isRoot && ArmsOk(root, nextId) && ValidPath(root, selected) &&
    (aiming ==> newChild != [] && ValidPath(root, newChild))
  }

  // ---------------------------------------------------------------------
  // The editor state

  /**
   * Replacing the node at `p` by one of the same shape keeps the tree
   * invariant, the root flag, and every path that led somewhere.
   */
  lemma SameShapeEdit(root: Arm, p: Path, n: Arm, other: Path, bound: nat)
    requires ValidPath(root, p) && ShapeOf(n) == ShapeOf(At(root, p)) && ArmsOk(root, bound)
    ensures ShapeOf(Replace(root, p, n)) == ShapeOf(root)
    ensures ArmsOk(Replace(root, p, n), bound) && Replace(root, p, n).isRoot == root.isRoot
    ensures ValidPath(Replace(root, p, n), other) == ValidPath(root, other)
  {
    ReplaceKeepsShape(root, p, n);
    ArmsOkByShape(root, Replace(root, p, n), bound);
    ValidPathByShape(root, Replace(root, p, n), other);
  }

  /** Replacing an arm by one of the same shape keeps the tree invariant. */
  lemma SameShapeKeepsTreeOk(root: Arm, nextId: nat, selected: Path, newChild: Path, aiming: bool, p: Path, n: Arm)
    requires TreeOk(root, nextId, selected, newChild, aiming) && ValidPath(root, p) && ShapeOf(n) == ShapeOf(At(root, p))
    ensures TreeOk(Replace(root, p, n), nextId, selected, newChild, aiming)
  {
    SameShapeEdit(root, p, n, selected, nextId);
    SameShapeEdit(root, p, n, newChild, nextId);
  }

  /**
   * `remove_child` called on the parent of the node at `p` with that node:
   * the parent's children lose the entry with the node's identity.
   */
  function DeleteAt(root: Arm, p: Path): Arm
    requires ValidPath(root, p) && p != []
  {
    ParentPath(root, p);
    var parent := At(root, p[..|p| - 1]);
    Replace(root, p[..|p| - 1], parent.(children := Removed(parent.children, At(root, p).id)))
  }

  /**
   * In a well-formed tree, deleting a node below the root takes out exactly
   * its own entry among its parent's children, keeps the parent otherwise as
   * it was and still reachable, and keeps the tree well formed; the parent
   * is flagged as the root exactly when it is the top.
   */
  lemma DeleteAtOk(root: Arm, p: Path, bound: nat)
    requires root.isRoot && ArmsOk(root, bound) && ValidPath(root, p) && p != []
    ensures var q, k := p[..|p| - 1], p[|p| - 1];
            var r := DeleteAt(root, p);
            ValidPath(root, q) && k < |At(root, q).children| && ValidPath(r, q) &&
            At(r, q).children == At(root, q).children[..k] + At(root, q).children[k + 1..] &&
            At(r, q).(children := At(root, q).children) == At(root, q) &&
            r.isRoot && ArmsOk(r, bound) && (At(root, q).isRoot <==> q == [])
  {
    var q, k := p[..|p| - 1], p[|p| - 1];
    ParentPath(root, p);
    var parent := At(root, q);
    ArmsOkAt(root, q, bound);
    RemovedDeletesEntry(parent.children, k);
    DeleteKeepsArmsOk(parent, k, bound);
    var parent' := parent.(children := Removed(parent.children, At(root, p).id));
    assert parent' == parent.(children := parent.children[..k] + parent.children[k + 1..]);
    ArmsOkReplace(root, q, parent', bound);
  }

  /** Deleting the selected arm and selecting its parent keeps the tree invariant outside aiming. */
  lemma DeleteKeepsTreeOk(root: Arm, nextId: nat, selected: Path, newChild: Path)
    requires TreeOk(root, nextId, selected, newChild, false) && selected != []
    ensures var q := selected[..|selected| - 1];
            var r := DeleteAt(root, selected);
            TreeOk(r, nextId, q, newChild, false) && (At(r, q).isRoot <==> q == [])
  {
    DeleteAtOk(root, selected, nextId);
    var q := selected[..|selected| - 1];
    assert At(DeleteAt(root, selected), q).isRoot == At(root, q).isRoot;
  }

  /**
   * Replacing an arm by one with its identity and then deleting it is
   * deleting it: whatever the replacement changed leaves with the arm.
   */
  lemma ReplaceThenDelete(root: Arm, p: Path, n: Arm, bound: nat)
    requires ArmsOk(root, bound) && ValidPath(root, p) && p != [] && n.id == At(root, p).id
    ensures DeleteAt(Replace(root, p, n), p) == DeleteAt(root, p)
  {
    var q, k := p[..|p| - 1], p[|p| - 1];
    ReplaceAtParent(root, p, n);
    ParentPath(root, p);
    ArmsOkAt(root, q, bound);
    var parent := At(root, q);
    var cs := parent.children[k := n];
    assert forall i :: 0 <= i < |cs| ==> cs[i].id == parent.children[i].id;
    RemovedDeletesEntry(parent.children, k);
    RemovedDeletesEntry(cs, k);
    assert cs[..k] + cs[k + 1..] == parent.children[..k] + parent.children[k + 1..];
    var parent' := parent.(children := Removed(parent.children, At(root, p).id));
    ReplaceUnderReplace(root, p, n, q, parent');
  }

  /** What the trail, delete and reset keys change: the tree, the selection and the placing state. */
  datatype KeyState = KeyState(root: Arm, selected: Path, creatingFirst: bool, editMode: EditMode)

  /** A trail key-down flips the selected arm's trail flag. */
  function ToggleKey(s: KeyState, down: bool): (r: KeyState)
    requires ValidPath(s.root, s.selected)
    ensures ValidPath(r.root, r.selected) && r.selected == s.selected
  {
    if down then
      var n := At(s.root, s.selected);
      s.(root := Replace(s.root, s.selected, n.(trailOn := !n.trailOn)))
    else s
  }

  /**
   * A delete key-down below the root deletes the selection and selects its
   * parent; when that leaves the root with no arms, a first arm is placed.
   */
  function DeleteKey(s: KeyState, down: bool): KeyState
    requires ValidPath(s.root, s.selected)
  {
    if down && s.selected != [] then
      var r := DeleteAt(s.root, s.selected);
      var q := s.selected[..|s.selected| - 1];
      if q == [] && r.children == [] then KeyState(r, q, true, SetChildPosition)
      else s.(root := r, selected := q)
    else s
  }

  /** A reset key-down, outside first placing and with arms present, clears the root and selects it. */
  function ResetKey(s: KeyState, down: bool): KeyState
  {
    if down && !s.creatingFirst && s.root.children != [] then KeyState(ClearChildren(s.root), [], true, SetChildPosition)
    else s
  }

  /** The three keys in the source's order, then holding left Ctrl goes to placing. */
  function KeyEditsAfter(s: KeyState, toggle: bool, delete: bool, reset: bool, ctrl: bool): KeyState
    requires ValidPath(s.root, s.selected)
  {
    var r := ResetKey(DeleteKey(ToggleKey(s, toggle), delete), reset);
    if ctrl then r.(editMode := SetChildPosition) else r
  }

  /**
   * Because the trail key comes first, a trail key-down and a delete key-down
   * in one frame delete the arm as if the trail key had not been pressed.
   */
  lemma ToggleLostOnDelete(s: KeyState, bound: nat)
    requires ArmsOk(s.root, bound) && ValidPath(s.root, s.selected) && s.selected != []
    ensures DeleteKey(ToggleKey(s, true), true) == DeleteKey(s, true)
  {
    var n := At(s.root, s.selected);
    ReplaceThenDelete(s.root, s.selected, n.(trailOn := !n.trailOn), bound);
  }

  class Editor {
    /** The tree; `main`'s local root arm. */
    var root: Arm
    /** `main`'s `mode`. */
    var mode: Mode
    /** The `play` global. */
    var play: bool
    /** `editorState.edit_mode` and `editorState.creating_first`. */
    var editMode: EditMode
    var creatingFirst: bool
    /** `edit`'s statics `selected_node` and `new_child`, as paths. */
    var selected: Path
    var newChild: Path
    /** `edit_dirpos`'s statics and `change_rotation_speed`'s `holding`. */
    var holdingHead: bool
    var holdingBase: bool
    var sliderHolding: bool
    /** The `MouseState` global. */
    var mouse: MouseState
    const keyboard: KeyboardState
    /** The identity the next arm created gets. */
    var nextId: nat
    /** The display's size. */
    const width: int
    const height: int

    ghost predicate Valid()
      reads this
    {
      keyboard.Valid() && TreeOk(root, nextId, selected, newChild, editMode == SetChildDirection) &&
      (mode == Edit ==> play) &&
      (mode == Animate ==> editMode == EditMenu)
    }

    /**
     * The program's start: the root arm alone, `play` set, mode EDIT, and
     * the editor placing the first arm's base (`EditorState`'s constructor).
     * The first frame selects before anything reads the selection, so the
     * initial selection, the root, is never used.
     */
    constructor (width: int, height: int)
      ensures Valid() && fresh(keyboard) && fresh(keyboard.downHistory) && fresh(keyboard.upHistory)
      ensures this.width == width && this.height == height
      ensures root == RootArm(width, height) && nextId == 1 && selected == []
      ensures mode == Edit && play && editMode == SetChildPosition && creatingFirst
      ensures !holdingHead && !holdingBase && !sliderHolding
    {
      root := RootArm(width, height);
      mode := Edit;
      play := true;
      editMode := SetChildPosition;
      creatingFirst := true;
      selected := [];
      newChild := [];
      holdingHead := false;
      holdingBase := false;
      sliderHolding := false;
      mouse := MouseState(0, 0, false, false, false, false);
      keyboard := new KeyboardState();
      nextId := 1;
      this.width := width;
      this.height := height;
    }

    /** The selected arm. */
    function Selected(): Arm
      reads this
      requires ValidPath(root, selected)
    {
      At(root, selected)
    }

    /**
     * The selected subtree becomes `node`, which has its shape, so that the
     * selection and the arm being aimed still name arms; nothing else changes.
     */
    method ReplaceSelected(node: Arm)
      requires Valid() && ShapeOf(node) == ShapeOf(Selected())
      modifies this`root
      ensures Valid() && root == Replace(old(root), old(selected), node) && Selected() == node
      ensures Skeleton(node) == Skeleton(old(Selected())) ==> Skeleton(root) == Skeleton(old(root))
    {
      SameShapeEdit(root, selected, node, newChild, nextId);
      if Skeleton(node) == Skeleton(Selected()) {
        ReplaceKeepsSkeleton(root, selected, node);
      }
      root := Replace(root, selected, node);
    }

    /**
     * `change_rotation_speed` on the editor: the selected subtree and the
     * hold flag become what `SpeedSlider` makes of them; nothing else changes.
     */
    method ChangeRotationSpeed(dt: real, trig: Trig) returns (editing: bool)
      requires Valid()
      requires SliderHeld(mouse, sliderHolding, width) ==> height != 2 * SliderMargin
      modifies this`root, this`sliderHolding
      ensures Valid()
      ensures editing == SpeedClaims(mouse, old(Selected()).revps, old(sliderHolding), width, height)
      ensures sliderHolding == SliderHeld(mouse, old(sliderHolding), width)
      ensures var n := if mouse.leftUp then Reset(old(Selected())) else old(Selected());
              root == Replace(old(root), selected,
                              if sliderHolding then Rotate(n, dt, play, trig).(revps := SliderRate(mouse.y, height)) else n)
      ensures sliderHolding ==> 0.0 <= Selected().revps <= 2.0
      ensures !editing ==> Skeleton(root) == Skeleton(old(root))
    {
      var node, holding;
      node, holding, editing := SpeedSlider(Selected(), mouse, sliderHolding, width, height, dt, play, trig);
      sliderHolding := holding;
      ReplaceSelected(node);
    }

    /**
     * `edit_dirpos` on the selected arm: the arm is replaced by what
     * `DirposEdit` makes of it and the hold flags are kept for the next
     * frame; the rest of the tree and of the editor is unchanged.
     */
    method EditDirpos(keys: seq<bool>) returns (editing: bool, ghost node: Arm)
      requires Valid() && |keys| == NumScancodes
      requires BaseDragSafe(root, selected, mouse, keys[ScancodeW], holdingBase)
      modifies this`root, this`holdingHead, this`holdingBase
      ensures Valid()
      ensures root == Replace(old(root), selected, node)
      ensures DirposDone(At(old(root), selected), ParentOf(old(root), selected), mouse, keys[ScancodeE], keys[ScancodeW],
                         old(holdingHead), old(holdingBase), node, holdingHead, holdingBase, editing)
    {
      var edited, head, base;
      edited, head, base, editing :=
        DirposEdit(At(root, selected), ParentOf(root, selected), mouse, keys[ScancodeE], keys[ScancodeW], holdingHead, holdingBase);
      holdingHead, holdingBase := head, base;
      SameShapeKeepsTreeOk(root, nextId, selected, newChild, editMode == SetChildDirection, selected, edited);
      root := Replace(root, selected, edited);
      node := edited;
    }

    /** The trail key's key-down flips the selected arm's trail flag. */
    method ToggleTrail(keys: seq<bool>)
      requires Valid() && |keys| == NumScancodes
      modifies this`root, keyboard.downHistory
      ensures Valid()
      ensures keyboard.downHistory[..] == old(keyboard.downHistory[..])[ScancodeQ := keys[ScancodeQ]]
      ensures KeyState(root, selected, creatingFirst, editMode) ==
              ToggleKey(old(KeyState(root, selected, creatingFirst, editMode)), keys[ScancodeQ] && !old(keyboard.downHistory[ScancodeQ]))
    {
      var down := keyboard.KeyDown(keys, ScancodeQ);
      if down {
        var node := Selected();
        ShapeOfOwnFields(node, node.(trailOn := !node.trailOn));
        ReplaceSelected(node.(trailOn := !node.trailOn));
      }
    }

    /**
     * The delete key's key-down, when the selection is not the root, takes
     * the selected arm (and its subtree) from its parent and selects the
     * parent. When that leaves the root with no arms, the editor goes back to
     * placing a first arm.
     */
    method DeleteSelected(keys: seq<bool>)
      requires Valid() && mode == Edit && |keys| == NumScancodes && editMode != SetChildDirection
      modifies this`root, this`selected, this`creatingFirst, this`editMode, keyboard.downHistory
      ensures Valid()
      ensures keyboard.downHistory[..] == old(keyboard.downHistory[..])[ScancodeBackspace := keys[ScancodeBackspace]]
      ensures KeyState(root, selected, creatingFirst, editMode) ==
              DeleteKey(old(KeyState(root, selected, creatingFirst, editMode)),
                        keys[ScancodeBackspace] && !old(keyboard.downHistory[ScancodeBackspace]))
    {
      var down := keyboard.KeyDown(keys, ScancodeBackspace);
      if down && selected != [] {
        DeleteKeepsTreeOk(root, nextId, selected, newChild);
        var parent := selected[..|selected| - 1];
        root := DeleteAt(root, selected);
        selected := parent;
        if At(root, selected).isRoot && |root.children| == 0 {
          creatingFirst := true;
          editMode := SetChildPosition;
        }
      }
    }

    /**
     * The reset key's key-down, unless a first arm is being placed already
     * or the root has no arms, clears the root's children, selects the root
     * and goes back to placing a first arm.
     */
    method ClearTree(keys: seq<bool>)
      requires Valid() && mode == Edit && |keys| == NumScancodes && editMode != SetChildDirection
      modifies this`root, this`selected, this`creatingFirst, this`editMode, keyboard.downHistory
      ensures Valid()
      ensures keyboard.downHistory[..] == old(keyboard.downHistory[..])[ScancodeR := keys[ScancodeR]]
      ensures KeyState(root, selected, creatingFirst, editMode) ==
              ResetKey(old(KeyState(root, selected, creatingFirst, editMode)), keys[ScancodeR] && !old(keyboard.downHistory[ScancodeR]))
    {
      var down := keyboard.KeyDown(keys, ScancodeR);
      if down && !creatingFirst && |root.children| > 0 {
        root := ClearChildren(root);
        selected := [];
        creatingFirst := true;
        editMode := SetChildPosition;
      }
    }

    /**
     * The edit menu's frame: the palette and the speed slider look first;
     * when neither claims the frame, the head and base drags and then the
     * reselection do. The trail, delete and reset keys follow, in that
     * order, and holding left Ctrl switches to placing a new arm. The new
     * arm being aimed, the identities and the top-level mode are untouched.
     */
    method EditMenuStep(keys: seq<bool>, dt: real, trig: Trig)
      requires Valid() && mode == Edit && editMode == EditMenu && |keys| == NumScancodes
      requires SliderHeld(mouse, sliderHolding, width) ==> height != 2 * SliderMargin
      requires BaseDragSafe(root, selected, mouse, keys[ScancodeW], holdingBase)
      modifies this`root, this`sliderHolding, this`holdingHead, this`holdingBase, this`editMode, this`selected,
               this`mouse, this`creatingFirst, keyboard.downHistory
      ensures Valid()
      ensures editMode == EditMenu || editMode == SetChildPosition
      ensures keys[ScancodeLCtrl] ==> editMode == SetChildPosition
      ensures keyboard.downHistory[ScancodeSpace] == old(keyboard.downHistory[ScancodeSpace])
    {
      PointerEdits(keys, dt, trig);
      KeyEdits(keys);
    }

    /** The palette, the slider, the drags and the reselection, each only when the ones before have not claimed the frame. */
    method PointerEdits(keys: seq<bool>, dt: real, trig: Trig)
      requires Valid() && mode == Edit && editMode == EditMenu && |keys| == NumScancodes
      requires SliderHeld(mouse, sliderHolding, width) ==> height != 2 * SliderMargin
      requires BaseDragSafe(root, selected, mouse, keys[ScancodeW], holdingBase)
      modifies this`root, this`sliderHolding, this`holdingHead, this`holdingBase, this`editMode, this`selected, this`mouse
      ensures Valid()
      ensures editMode == EditMenu || editMode == SetChildPosition
      ensures sliderHolding == SliderHeld(old(mouse), old(sliderHolding), width)
      ensures PaletteHovered(old(mouse).x, height) ||
              SpeedClaims(old(mouse), old(Selected()).revps, old(sliderHolding), width, height) ==>
              holdingHead == old(holdingHead) && holdingBase == old(holdingBase) &&
              selected == old(selected) && editMode == old(editMode) && mouse == old(mouse)
    {
      var editingColour := PaletteHovered(mouse.x, height);
      var editingRevps := ChangeRotationSpeed(dt, trig);
      if !editingColour && !editingRevps {
        SkeletonKeepsBaseDragSafe(old(root), root, selected, mouse, keys[ScancodeW], holdingBase);
        var editingDirpos, _ := EditDirpos(keys);
        ReselectNode(editingDirpos);
      }
    }

    /**
     * The trail, delete and reset keys in that order, then left Ctrl, each
     * acting on the state the one before left (`KeyEditsAfter`).
     */
    method KeyEdits(keys: seq<bool>)
      requires Valid() && mode == Edit && editMode != SetChildDirection && |keys| == NumScancodes
      modifies this`root, this`selected, this`creatingFirst, this`editMode, keyboard.downHistory
      ensures Valid()
      ensures keyboard.downHistory[..] == old(keyboard.downHistory[..])[ScancodeQ := keys[ScancodeQ]]
                                          [ScancodeBackspace := keys[ScancodeBackspace]][ScancodeR := keys[ScancodeR]]
      ensures KeyState(root, selected, creatingFirst, editMode) ==
              KeyEditsAfter(old(KeyState(root, selected, creatingFirst, editMode)),
                            keys[ScancodeQ] && !old(keyboard.downHistory[ScancodeQ]),
                            keys[ScancodeBackspace] && !old(keyboard.downHistory[ScancodeBackspace]),
                            keys[ScancodeR] && !old(keyboard.downHistory[ScancodeR]),
                            keys[ScancodeLCtrl])
    {
      KeyDowns(keys);
      CtrlPlaces(keys);
    }

    /** The trail key, then the delete and reset keys. */
    method KeyDowns(keys: seq<bool>)
      requires Valid() && mode == Edit && editMode != SetChildDirection && |keys| == NumScancodes
      modifies this`root, this`selected, this`creatingFirst, this`editMode, keyboard.downHistory
      ensures Valid()
      ensures keyboard.downHistory[..] == old(keyboard.downHistory[..])[ScancodeQ := keys[ScancodeQ]]
                                          [ScancodeBackspace := keys[ScancodeBackspace]][ScancodeR := keys[ScancodeR]]
      ensures KeyState(root, selected, creatingFirst, editMode) ==
              ResetKey(DeleteKey(ToggleKey(old(KeyState(root, selected, creatingFirst, editMode)),
                                           keys[ScancodeQ] && !old(keyboard.downHistory[ScancodeQ])),
                                 keys[ScancodeBackspace] && !old(keyboard.downHistory[ScancodeBackspace])),
                       keys[ScancodeR] && !old(keyboard.downHistory[ScancodeR]))
    {
      ToggleTrail(keys);
      DeleteThenReset(keys);
    }

    /** The delete and reset keys in that order. */
    method DeleteThenReset(keys: seq<bool>)
      requires Valid() && mode == Edit && editMode != SetChildDirection && |keys| == NumScancodes
      modifies this`root, this`selected, this`creatingFirst, this`editMode, keyboard.downHistory
      ensures Valid()
      ensures keyboard.downHistory[..] == old(keyboard.downHistory[..])[ScancodeBackspace := keys[ScancodeBackspace]][ScancodeR := keys[ScancodeR]]
      ensures var r := ResetKey(DeleteKey(old(KeyState(root, selected, creatingFirst, editMode)),
                                          keys[ScancodeBackspace] && !old(keyboard.downHistory[ScancodeBackspace])),
                                keys[ScancodeR] && !old(keyboard.downHistory[ScancodeR]));
              KeyState(root, selected, creatingFirst, editMode) == r
    {
      DeleteSelected(keys);
      ClearTree(keys);
    }

    /** Holding left Ctrl in the edit menu goes to placing a new arm. */
    method CtrlPlaces(keys: seq<bool>)
      requires Valid() && mode == Edit && editMode != SetChildDirection && |keys| == NumScancodes
      modifies this`editMode
      ensures Valid()
      ensures editMode == if keys[ScancodeLCtrl] then SetChildPosition else old(editMode)
    {
      if keys[ScancodeLCtrl] {
        editMode := SetChildPosition;
      }
    }

    /**
     * `SET_CHILD_POSITION`: the search target (the root set aside) becomes
     * the selection. A left press attaches a new arm to it, based at the
     * point of the target's rest segment nearest the cursor and reaching the
     * cursor, and the editor goes on to aiming that arm; placing on the root
     * ends the placing of a first arm. Releasing left Ctrl returns to the
     * edit menu. The press is left for the next frame.
     */
    method PlaceChild(keys: seq<bool>)
      requires Valid() && mode == Edit && editMode == SetChildPosition && |keys| == NumScancodes
      requires mouse.leftDown ==> !Degenerate(At(root, SearchTarget(root, Cursor(mouse))).directionInitial)
      modifies this`root, this`selected, this`newChild, this`nextId, this`editMode, this`creatingFirst, keyboard.upHistory
      ensures Valid()
      ensures selected == SearchTarget(old(root), Cursor(mouse))
      ensures keyboard.upHistory[..] == old(keyboard.upHistory[..])[ScancodeLCtrl := keys[ScancodeLCtrl]]
      ensures mouse.leftDown ==>
              root == Replace(old(root), selected, AddChild(At(old(root), selected),
                                NewChildArm(old(nextId), PlaceBase(old(root), Cursor(mouse)), Cursor(mouse)))) &&
              newChild == selected + [|At(old(root), selected).children|] && nextId == old(nextId) + 1 &&
              creatingFirst == (old(creatingFirst) && selected != [])
      ensures !mouse.leftDown ==>
              root == old(root) && newChild == old(newChild) && nextId == old(nextId) && creatingFirst == old(creatingFirst)
      ensures editMode == if !keys[ScancodeLCtrl] && old(keyboard.upHistory[ScancodeLCtrl]) then EditMenu
                          else if mouse.leftDown then SetChildDirection else SetChildPosition
    {
      SelectTarget();
      if mouse.leftDown {
        AttachAtSelected();
      }
      var up := keyboard.KeyUp(keys, ScancodeLCtrl);
      if up {
        editMode := EditMenu;
      }
    }

    /** The search from the cursor, with the root set aside, picks the selection. */
    method SelectTarget()
      requires Valid()
      modifies this`selected
      ensures Valid() && selected == SearchTarget(root, Cursor(mouse))
    {
      var cursor := Cursor(mouse);
      var closest, probe := NodeNearCursor(root, cursor);
      if closest == [] && |root.children| > 0 {
        closest := [0];
      }
      assert closest == SearchTarget(root, cursor);
      selected := closest;
    }

    /**
     * A new arm with the next identity is attached to the selection, based at
     * the point of its rest segment nearest the cursor and reaching the cursor,
     * and becomes the arm being aimed.
     */
    method AttachAtSelected()
      requires Valid() && mode == Edit && !Degenerate(Selected().directionInitial)
      modifies this`root, this`newChild, this`nextId, this`editMode, this`creatingFirst
      ensures Valid() && editMode == SetChildDirection && nextId == old(nextId) + 1
      ensures var target := At(old(root), selected);
              var cursor := Cursor(mouse);
              root == Replace(old(root), selected, AddChild(target, NewChildArm(old(nextId),
                        Add(target.positionInitial, ClampedProjection(cursor, target.positionInitial, target.directionInitial)), cursor))) &&
              newChild == selected + [|target.children|]
      ensures creatingFirst == (old(creatingFirst) && selected != [])
    {
      var cursor := Cursor(mouse);
      var target := Selected();
      var base := Add(target.positionInitial, ClampedProjection(cursor, target.positionInitial, target.directionInitial));
      var child := NewChildArm(nextId, base, cursor);
      AttachKeepsTreeOk(root, nextId, selected, child);
      root := Replace(root, selected, AddChild(target, child));
      newChild := selected + [|target.children|];
      nextId := nextId + 1;
      editMode := SetChildDirection;
      if selected == [] {
        creatingFirst := false;
      }
    }

    /**
     * `SET_CHILD_DIRECTION`: the arm being aimed points at the cursor. A left
     * release is consumed, selects that arm, turns its trail on and returns
     * to the edit menu, or to placing another arm while left Ctrl is held; a
     * right press instead is consumed and returns to placing, the arm staying
     * attached.
     */
    method AimChild(keys: seq<bool>)
      requires Valid() && mode == Edit && editMode == SetChildDirection && |keys| == NumScancodes
      modifies this`root, this`selected, this`editMode, this`mouse
      ensures Valid()
      ensures var aimed := Aim(At(old(root), newChild), Cursor(old(mouse)));
              root == Replace(old(root), newChild,
                              if old(mouse).leftUp && !aimed.isRoot then aimed.(trailOn := true) else aimed)
      ensures old(mouse).leftUp ==>
              selected == newChild && mouse == old(mouse).(leftUp := false) &&
              editMode == if keys[ScancodeLCtrl] then SetChildPosition else EditMenu
      ensures !old(mouse).leftUp && old(mouse).rightDown ==>
              selected == old(selected) && mouse == old(mouse).(rightDown := false) && editMode == SetChildPosition
      ensures !old(mouse).leftUp && !old(mouse).rightDown ==>
              selected == old(selected) && mouse == old(mouse) && editMode == old(editMode)
    {
      var node := Aim(At(root, newChild), Cursor(mouse));
      if mouse.leftUp {
        mouse := mouse.(leftUp := false);
        selected := newChild;
        if !node.isRoot {
          node := node.(trailOn := true);
        }
        editMode := if keys[ScancodeLCtrl] then SetChildPosition else EditMenu;
      } else if mouse.rightDown {
        mouse := mouse.(rightDown := false);
        editMode := SetChildPosition;
      }
      ShapeOfOwnFields(node, At(root, newChild));
      SameShapeKeepsTreeOk(root, nextId, selected, newChild, editMode == SetChildDirection, newChild, node);
      root := Replace(root, newChild, node);
    }

    /**
     * `reselect_node`: the search target (the root set aside) becomes the
     * selection on a left press the head and base edits did not claim, and
     * the press is consumed. A tree with no arm under the root sends the
     * editor to placing a base instead.
     */
    method ReselectNode(editingDirpos: bool)
      requires Valid() && mode == Edit
      modifies this`editMode, this`selected, this`mouse
      ensures Valid()
      ensures old(root).children == [] ==>
              editMode == SetChildPosition && selected == old(selected) && mouse == old(mouse)
      ensures old(root).children != [] ==> editMode == old(editMode)
      ensures old(root).children != [] && old(mouse).leftDown && !editingDirpos ==>
              selected == SearchTarget(root, Cursor(old(mouse))) && selected != [] &&
              mouse == old(mouse).(leftDown := false)
      ensures !(old(root).children != [] && old(mouse).leftDown && !editingDirpos) ==>
              selected == old(selected) && mouse == old(mouse)
    {
      var closest, probe := NodeNearCursor(root, Cursor(mouse));
      NearestFromFound(root, Cursor(mouse), |root.children|);
      if closest == [] {
        if |root.children| > 0 {
          closest := [0];
        } else {
          editMode := SetChildPosition;
          return;
        }
      }
      if mouse.leftDown && !editingDirpos {
        mouse := mouse.(leftDown := false);
        selected := closest;
      }
    }

    /** `edit`: one frame of whichever editor mode is current; there is nothing to do in PREVIEW. */
    method EditStep(keys: seq<bool>, dt: real, trig: Trig)
      requires Valid() && mode == Edit && |keys| == NumScancodes
      requires editMode == EditMenu ==>
               (SliderHeld(mouse, sliderHolding, width) ==> height != 2 * SliderMargin) &&
               BaseDragSafe(root, selected, mouse, keys[ScancodeW], holdingBase)
      requires editMode == SetChildPosition && mouse.leftDown ==>
               !Degenerate(At(root, SearchTarget(root, Cursor(mouse))).directionInitial)
      modifies this`root, this`sliderHolding, this`holdingHead, this`holdingBase, this`editMode, this`selected,
               this`mouse, this`creatingFirst, this`newChild, this`nextId, keyboard.downHistory, keyboard.upHistory
      ensures Valid()
      ensures keyboard.downHistory[ScancodeSpace] == old(keyboard.downHistory[ScancodeSpace])
    {
      match editMode {
        case EditMenu => EditMenuStep(keys, dt, trig);
        case SetChildPosition => PlaceChild(keys);
        case SetChildDirection => AimChild(keys);
        case Preview =>
      }
    }

    /**
     * One pass of the main loop's mode switch. In EDIT the editor runs, and
     * a space key-down in the edit menu starts the animation from the rest
     * pose. In ANIMATE the menu is forced, the tree turns while playing, and
     * a space key-down pauses or resumes; otherwise an R key-down returns to
     * editing, playing, from the rest pose.
     */
    method Frame(keys: seq<bool>, dt: real, trig: Trig)
      requires Valid() && |keys| == NumScancodes
      requires mode == Edit && editMode == EditMenu ==>
               (SliderHeld(mouse, sliderHolding, width) ==> height != 2 * SliderMargin) &&
               BaseDragSafe(root, selected, mouse, keys[ScancodeW], holdingBase)
      requires mode == Edit && editMode == SetChildPosition && mouse.leftDown ==>
               !Degenerate(At(root, SearchTarget(root, Cursor(mouse))).directionInitial)
      modifies this`root, this`sliderHolding, this`holdingHead, this`holdingBase, this`editMode, this`selected,
               this`mouse, this`creatingFirst, this`newChild, this`nextId, this`mode, this`play,
               keyboard.downHistory, keyboard.upHistory
      ensures Valid()
      ensures old(mode) == Edit ==>
              (mode == Animate <==> keys[ScancodeSpace] && !old(keyboard.downHistory[ScancodeSpace]) && editMode == EditMenu)
      ensures old(mode) == Edit && mode == Animate ==> AllAtRest(root) && root.trail.firstPoint == RestTip(root)
      ensures old(mode) == Animate ==>
              var space := keys[ScancodeSpace] && !old(keyboard.downHistory[ScancodeSpace]);
              var back := !space && keys[ScancodeR] && !old(keyboard.downHistory[ScancodeR]);
              var turned := if old(play) then Rotate(old(root), dt, true, trig) else old(root);
              editMode == EditMenu && mode == (if back then Edit else Animate) &&
              play == (if space then !old(play) else old(play) || back) &&
              root == (if back then Reset(turned) else turned)
    {
      match mode {
        case Edit =>
          EditStep(keys, dt, trig);
          var space := keyboard.KeyDown(keys, ScancodeSpace);
          if space && editMode == EditMenu {
            mode := Animate;
            var rested := UpdateTrailFirstPoint(Reset(root));
            ShapeOfOwnFields(rested, Reset(root));
            SameShapeKeepsTreeOk(root, nextId, selected, newChild, false, [], rested);
            root := rested;
          }
        case Animate =>
          editMode := EditMenu;
          if play {
            var turned := Rotate(root, dt, play, trig);
            SameShapeKeepsTreeOk(root, nextId, selected, newChild, false, [], turned);
            root := turned;
          }
          var space := keyboard.KeyDown(keys, ScancodeSpace);
          if space {
            play := !play;
          } else {
            var back := keyboard.KeyDown(keys, ScancodeR);
            if back {
              mode := Edit;
              play := true;
              SameShapeKeepsTreeOk(root, nextId, selected, newChild, false, [], Reset(root));
              root := Reset(root);
            }
          }
      }
    }
  }
}
