# Spirograph-Maker: a verified model of the arm tree and its editor

Spirograph-Maker draws spirographs from a tree of rotating vectors called
"arms". Each arm has a rest pose (`position_initial`, `direction_initial`)
and a live pose. It turns at `revps` revolutions per second and is anchored
at a fraction `position_on_parent` of its parent's vector. An arm can record
the path of its tip in a two-sample trail. An interactive editor places new
arms, drags their heads and bases, sets their speed on a slider, and
deletes or clears them. The main loop switches between editing and
animating.

This project models:

- the arm tree (`Spirograph`): its constructor, `rotate`, `reset`,
  `update_childrens_position_on_parent`, `update_trail_first_point`,
  `add_child`, `remove_child` and `clear_children`;
- the children buffer with its counter, append, shift-left removal and
  skipping clear loop;
- the `Trail` recorder;
- the cursor projection and the nearest-arm search
  (`node_near_cursor_orthproj`);
- the editor: `edit_dirpos`, `reselect_node`, `change_rotation_speed`, the
  palette's claim on the frame, and the three modes of `edit`;
- the `keydown`/`keyup` edge detectors;
- the EDIT/ANIMATE switch of `main`.

Modules:

| file | module | what it holds |
|---|---|---|
| geometry.dfy | `Geometry` | `Vec2Float` as real vectors, C's truncation and `ceil`, abstract cosine/sine |
| wrappers.dfy | `Wrappers` | `Option` |
| projection.dfy | `Projection` | the orthogonal projection, the source's x-ratio/y-ratio scale and its clamping |
| trail.dfy | `TrailRecorder` | `Trail` as a value and as a class |
| arm.dfy | `ArmTree` | the arm tree as a datatype; the recursive walks; `add_child`/`remove_child`/`clear_children` on child sequences; paths |
| children.dfy | `ChildBuffer` | the children array with its counter, as a class |
| keyboard.dfy | `Keyboard` | the two edge detectors with their history arrays |
| hittest.dfy | `HitTest` | `node_near_cursor_orthproj` and its correctness |
| editor.dfy | `EditorModel` | slider, drags, placement, and the `Editor` class holding the editor's globals and statics |
| placement_example.dfy | `PlacementExample` | a concrete tree on which the source's arm placement misses its target |

Modelling choices:

- Pointers become values. A node is addressed by its path of child indices
  from the root, and its parent is the path without its last step. Pointer
  identity, which `remove_child` compares, becomes an `id` field. The editor
  hands out fresh ids, and siblings' ids are distinct (`ArmsOk`).
- `float` becomes `real`. Two NaNs of the source are carried as `None`:
  the nearest-arm search's distance for an arm with a zero vector, which
  like a NaN is never less than anything, and the as-written placement's
  base point when its ratio is 0/0 (`PlaceBaseAsWritten`). The base drag's
  0/0 fraction (first row of "## Findings") is replaced by the corrected
  fraction 0 in `BaseStep`. The remaining inputs that would give a NaN or
  divide by zero are excluded by preconditions, listed under "## Left out".
- Cosine and sine are a parameter (`Trig`). `rotate`'s length preservation
  assumes only cos² + sin² = 1.
- Inputs are parameters:
  - the frame time `dt`;
  - the key states, as a sequence of booleans indexed by SDL scancode;
  - the mouse record `MouseState`, which the event handler fills each
    frame. The editor keeps it as a field because it consumes flags in it.

## Model

| member | source | states |
|---|---|---|
| Geometry.RotationPreservesNorm | spirograph.cpp:522-526 | rotating a vector by an angle whose cosine and sine satisfy c² + s² = 1 keeps its squared length |
| Geometry.NonDegenerateAxis | spirograph.cpp:672 | a vector of nonzero length has a nonzero coordinate, so `add_child`'s x-ratio or its y-ratio fallback has a divisor |
| Geometry.Trunc | spirograph.cpp:461 | the float-to-int conversion truncates toward zero: the result is within 1 of the input, on the zero side |
| Geometry.Ceil | spirograph.cpp:491 | `ceil` gives the least integer not below its argument |
| Projection.OrthogonalProjection | spirograph.cpp:749-757 | the projection of cursor − base onto the arm's vector is parallel to that vector and leaves a remainder perpendicular to it |
| Projection.ProjectionUnique | spirograph.cpp:749-757 | for a nonzero vector, any vector parallel to it whose remainder from cursor − base is perpendicular to it is the projection, so the two clauses above determine it |
| Projection.RatioScaleIsCoefficient | spirograph.cpp:344 | wherever the source's x-ratio/y-ratio has a nonzero divisor, it equals the projection coefficient |
| Projection.RatioUndefinedAboveBase | spirograph.cpp:310 | for a horizontal arm and a cursor straight above or below its base, the ratio's divisor is 0 (0/0) |
| Projection.Clamp01 | spirograph.cpp:347-354 | the clamp lands in [0, 1] and leaves values already in [0, 1] alone |
| Projection.ClampedScale | spirograph.cpp:310-320 | the anchor fraction of a base drag lies in [0, 1] and is the source's clamped ratio wherever that ratio is defined |
| Projection.ClampedProjection | spirograph.cpp:343-354 | the bounded projection equals the source's in every case, including 0/0, and is the arm's vector scaled by `ClampedScale` |
| Projection.ProjectionBeyondTip | spirograph.cpp:351-354 | a cursor at or past the tip, measured along the arm, is bounded to the tip |
| TrailRecorder.RecordCounts | spirograph.cpp:781-787 | recording n points raises the trail's length by n |
| TrailRecorder.DrawJoinsLastTwo | spirograph.cpp:767-798 | after a reset, `draw` emits nothing until two points are recorded, then exactly the segment from the second-last point to the last |
| TrailRecorder.Trail.constructor | spirograph.cpp:760-765 | a new trail has all three points at the origin and length 0 |
| TrailRecorder.Trail.NewPoint | spirograph.cpp:781-787 | the current point becomes the previous one, the argument becomes current, the length grows by 1 |
| TrailRecorder.Trail.Reset | spirograph.cpp:789-798 | only the length is zeroed; both samples stay |
| TrailRecorder.Trail.Draw | spirograph.cpp:767-779 | a segment is emitted exactly when the length is at least 2, and it joins the previous point to the current one |
| ArmTree.HoverRadiusExceedsDefault | spirograph.hpp:99-100 | a hovered or grabbed handle (radius 7) is larger than a resting one (radius 5) |
| ArmTree.NewArm | spirograph.cpp:498-517 | a new arm is at rest at its given base and vector, with the default rate 0.3, no children, not the root, trail off, trail seeded with its rest tip |
| ArmTree.UpdateTrailFirstPoint | spirograph.cpp:556-563 | the trail's first point becomes the rest tip; nothing else changes, and children are not visited |
| ArmTree.RotateAt | spirograph.cpp:519-545 | rotating puts the arm at its parent-given live anchor, turns its live vector by its own angle (x·cos − y·sin, x·sin + y·cos), records the new live tip in its trail when `play` is set and leaves the trail alone otherwise, and changes neither the rest pose, rates, anchors, flags, trail seed nor the tree's shape |
| ArmTree.RotateTurnsEveryArm | spirograph.cpp:521-542 | the same turn and trail sample hold of every arm of the subtree, each by its own rate |
| ArmTree.RotatePlacesChildren | spirograph.cpp:531-542 | after `rotate` every descendant's live position is its parent's live position plus the parent's live vector times its anchor fraction |
| ArmTree.RotatePreservesNorms | spirograph.cpp:519-545 | given cos² + sin² = 1, `rotate` keeps every arm's squared live length |
| ArmTree.RotateAdvancesTrails | spirograph.cpp:529 | with `play` set, every arm of the subtree records exactly one trail sample; with it clear, none |
| ArmTree.Reset | spirograph.cpp:621-637 | every arm of the subtree is back at its rest pose with trail length 0, and nothing else (rest pose, rates, anchors, flags, shape) changes |
| ArmTree.ResetFixesRestingTrees | spirograph.cpp:621-637 | a subtree already at rest everywhere is unchanged by `reset` |
| ArmTree.ResetIdempotent | spirograph.cpp:621-637 | resetting twice is resetting once |
| ArmTree.MoveTo | spirograph.cpp:644-650 | one iteration of the re-placing loop moves the child, rest and live alike, and changes no field other than positions |
| ArmTree.UpdateChildrensPositionOnParent | spirograph.cpp:639-654 | the arm itself does not move, and the walk changes nothing but positions and keeps the shape |
| ArmTree.MoveToPlaces | spirograph.cpp:644-650 | after a move, every descendant sits at its fraction of its parent's live vector, with rest position equal to live position |
| ArmTree.UpdatePlacesDescendants | spirograph.cpp:639-654 | after the walk, every descendant sits at its fraction of its parent's live vector, and its rest position equals its live position |
| ArmTree.AddChild | spirograph.cpp:656-676 | the old children are kept in order, the new one is appended last, anchored at the x-ratio (or y-ratio) of its offset, with the parent's rate added to its own; the parent is otherwise unchanged |
| ArmTree.AttachRecoversFraction | spirograph.cpp:671-672 | a child whose base is at fraction t of the parent's rest vector is anchored at exactly t |
| ArmTree.AttachThenUpdateKeepsPlace | spirograph.cpp:639-676 | with the parent at rest, attaching and then re-placing the children leaves the new child exactly where it was created |
| ArmTree.AttachAtClampedPointInRange | spirograph.hpp:87 | a child created at the clamped projection onto its parent is anchored in [0, 1], although `add_child` does not clamp |
| ArmTree.AddChildKeepsArmsOk | spirograph.cpp:656-676 | attaching a fresh childless non-root arm with the next id keeps ids distinct among siblings and below the next id |
| ArmTree.DeleteKeepsArmsOk | spirograph.cpp:678-723 | deleting one child keeps the tree well formed |
| ArmTree.IndexOf | spirograph.cpp:706-709 | the scan finds the first child with the given id, or the end when none has it |
| ArmTree.RemovedDeletesEntry | spirograph.cpp:678-723 | among distinct ids, removing a present child deletes exactly its entry, keeps the rest in order, and shortens the list by one |
| ArmTree.RemovedAbsent | spirograph.cpp:678-723 | removing an id that is not among the children (or from an empty list) changes nothing |
| ArmTree.ClearChildren | spirograph.cpp:737-747 | clearing leaves the arm with no children and otherwise unchanged |
| ChildBuffer.ClearStep | spirograph.cpp:739-743 | at pass i of the clearing loop, slot i holds the original entry 2i, and removing it gives the state after pass i + 1 |
| ChildBuffer.ChildList.constructor | spirograph.cpp:507-508 | a new buffer holds no children |
| ChildBuffer.ChildList.Append | spirograph.cpp:658-667 | the grown array holds the old children followed by the new one |
| ChildBuffer.ChildList.ShiftLeft | spirograph.cpp:710-713 | the shift loop drops slot i and moves every later entry one slot left |
| ChildBuffer.ChildList.Find | spirograph.cpp:706-709 | the front-to-back scan returns the first slot holding the id, or the length |
| ChildBuffer.ChildList.Remove | spirograph.cpp:678-723 | the buffer's children become `Removed` of the old ones: last slot checked first, then first, then a scan, with the same array |
| ChildBuffer.ChildList.ClearAndRemoveAt | spirograph.cpp:739-743 | one pass clears slot i's own children and removes it by id, dropping exactly slot i |
| ChildBuffer.ChildList.Clear | spirograph.cpp:737-747 | the list ends empty, and the loop visits exactly the entries at even positions of the original list |
| Keyboard.EditKeysDistinct | spirograph.hpp:82-102 | Backspace, R, Q, E and W are pairwise distinct scancodes |
| Keyboard.KeyboardState.constructor | spirograph.cpp:927 | both detectors start with every key released |
| Keyboard.KeyboardState.KeyDown | spirograph.cpp:924-936 | reports a key held now and not at this detector's previous look, and remembers the current state of that key only |
| Keyboard.KeyboardState.KeyUp | spirograph.cpp:938-950 | reports a key released now and held at this detector's previous look, and remembers the current state of that key only |
| Keyboard.DownsAndUpsAlternate | spirograph.cpp:924-950 | for one key's detectors each called on every state of a run (each in isolation: the source calls `keyup` only on LCTRL), there is one more key-down report than key-up reports while the key is held, and as many when it is not |
| HitTest.ProbeBeyondTip | spirograph.cpp:343-357 | a cursor past an arm's tip is measured from the tip |
| HitTest.ProbeAtTip | spirograph.cpp:343-357 | a cursor on an arm's rest tip is at distance 0 from it |
| HitTest.NodeNearCursor | spirograph.cpp:338-380 | the recursive loop computes the search `Nearest`: each child's result replaces the best so far only when strictly closer |
| HitTest.NearestFromFound | spirograph.cpp:360-375 | the node found is in the tree and carries its own probe |
| HitTest.NearestFromBest | spirograph.cpp:360-375 | searching the arm and its first k children gives a node no farther than any node there, and strictly closer than every node searched before it |
| HitTest.NearestIsClosest | spirograph.cpp:338-380 | with no zero-length arm, the node found is in the tree, is at least as close as every node, and is strictly closer than every node before it in parent-before-children order, so ties go to the earliest |
| EditorModel.RootArm | spirograph.cpp:9-11 | the root starts at the display's centre with a nonzero vector, not rotating, at rest, childless, flagged as the root |
| EditorModel.PaletteStripWidth | spirograph.cpp:386-394 | a palette button's radius is (height − 80) / 18 truncated, and the palette claims the frame when x ≤ 50 + 6·radius |
| EditorModel.ClampToTrack | spirograph.cpp:484-486 | the slider's y lands in [top, bottom] and is unchanged when already there |
| EditorModel.RoundUpHundredths | spirograph.cpp:491 | the rounded rate is a whole number of hundredths, at least the input and less than 0.01 above it |
| EditorModel.TrackRoundTrip | spirograph.cpp:461-490 | the track's bottom stands for 0 and its top for 2, and the knob drawn for a track value sits at the height that value came from |
| EditorModel.SliderRateInRange | spirograph.cpp:482-492 | a slider drag sets a rate in [0, 2] whatever the cursor height |
| EditorModel.SliderDrag | spirograph.cpp:484-491 | the held knob's code computes `SliderRate`, which lies in [0, 2] |
| EditorModel.SpeedSlider | spirograph.cpp:441-495 | a press in the area holds, and lifting the left button lets go; a left release resets the subtree; while held the subtree turns and takes the rate in [0, 2]; the frame is claimed when the knob or area is hovered or held; the shape is kept, and an unclaimed frame keeps the rest pose |
| EditorModel.HeadStep | spirograph.cpp:281-294 | radii by hover/hold; a held head that is not hovered takes the cursor as its rest tip, with the live vector equal to the rest vector; nothing else changes |
| EditorModel.BaseStep | spirograph.cpp:296-325 | radii by hover/hold; a held base (not a hovered non-root one) moves, rest and live, to the parent's segment at its clamped fraction, which is in [0, 1]; nothing else changes |
| EditorModel.PlaceDescendants | spirograph.cpp:327-331 | while a handle is held the descendants are placed on the arm's live vector at rest; otherwise nothing changes; the arm keeps its pose, vectors and anchor, and no field but positions changes anywhere (`Unplaced`, shape) |
| EditorModel.DirposArm | spirograph.cpp:281-331 | `DirposStep`: radii by the else-if chains; a held, unhovered head sets rest and live vector to cursor − old base, else both stay; a held base (not a hovered non-root one) lands rest and live at the parent's clamped fraction in [0, 1], else base and fraction stay; descendants re-placed while held, children untouched otherwise; rate, trail, flags and ids unchanged; only the radii change when nothing is hovered or held |
| EditorModel.HoldFlags | spirograph.cpp:262-279 | the head is held after the head key or a press over it, and stays held while the left button is; the same for the base except a press over the root's base |
| EditorModel.DirposEdit | spirograph.cpp:254-336 | `DirposDone`: the hold flags as `HoldFlags` sets them, the arm as `DirposStep` says for this frame's hovers and new flags, and the frame claimed exactly when head or base is hovered or held |
| EditorModel.ParentOf | spirograph.cpp:309 | only the root has no parent |
| EditorModel.SkeletonKeepsBaseDragSafe | spirograph.cpp:86-92 | whether a base drag has a usable parent is unchanged by the slider's turn and reset, which keep the rest pose |
| EditorModel.SearchTarget | spirograph.cpp:136-144 | the target is in the tree; it is the root only when the root is childless; otherwise it is the nearest node, or the root's first child when the nearest is the root |
| EditorModel.Aim | spirograph.cpp:178-179 | the aimed arm's rest tip is on the cursor and its live vector equals its rest vector; nothing else changes |
| EditorModel.NewChildArm | spirograph.cpp:158-160 | the new arm is based at the chosen point, its rest and live tips are on the cursor, with the default rate, trail off, no children, and a trail seeded with base + cursor as the source does |
| EditorModel.PlaceBaseAgrees | spirograph.cpp:138-146 | whenever the search's own result is the target, the source's base point is the corrected one |
| EditorModel.PlacedArmOnTarget | spirograph.cpp:146-167 | an arm placed at the corrected base lies on the target's rest segment at a fraction in [0, 1], reaches the cursor, and spins at 0.3 plus the target's rate |
| EditorModel.AttachKeepsTreeOk | spirograph.cpp:156-167 | attaching the new arm keeps the tree well formed under the next id and makes it reachable at the target's next child index |
| EditorModel.DeleteAtOk | spirograph.cpp:102-106 | deleting a non-root node takes out exactly its entry in its parent, keeps the parent otherwise the same and the tree well formed, and the parent is flagged as the root exactly when it is the top |
| EditorModel.DeleteKeepsTreeOk | spirograph.cpp:102-113 | deleting the selection and selecting its parent keeps the editor's tree invariant |
| EditorModel.Editor.constructor | spirograph.hpp:166-169 | the editor starts with the root alone, `play` set, mode EDIT, placing the first arm (`SET_CHILD_POSITION`, `creating_first`) |
| EditorModel.Editor.ChangeRotationSpeed | spirograph.cpp:441-495 | the selected subtree and the hold flag become what `SpeedSlider` makes of them; the tree invariant holds |
| EditorModel.Editor.EditDirpos | spirograph.cpp:254-336 | only the selected arm changes, to an arm that is to the old one as `DirposDone` states, and the hold flags persist to the next frame |
| EditorModel.Editor.ToggleTrail | spirograph.cpp:95-99 | `ToggleKey`: a Q key-down flips the selected arm's trail flag and changes nothing else |
| EditorModel.Editor.DeleteSelected | spirograph.cpp:101-113 | `DeleteKey`: a Backspace key-down on a non-root selection deletes it from its parent and selects the parent; the editor returns to placing a first arm exactly when the root is left childless; the root is never deleted |
| EditorModel.Editor.ClearTree | spirograph.cpp:115-125 | `ResetKey`: an R key-down, unless a first arm is being placed or the root is childless, clears the root's children, selects the root and returns to placing a first arm |
| EditorModel.ReplaceThenDelete | spirograph.cpp:101-106 | replacing an arm by one with its identity and then deleting it is deleting it |
| EditorModel.ToggleLostOnDelete | spirograph.cpp:95-106 | a Q and a Backspace key-down in one frame give the state a Backspace key-down alone gives: the toggled arm is the one deleted |
| EditorModel.Editor.EditMenuStep | spirograph.cpp:82-133 | the edit-menu frame keeps the tree invariant, stays in the menu or goes to placing, and goes to placing whenever left Ctrl is held |
| EditorModel.Editor.PointerEdits | spirograph.cpp:84-93 | the slider's hold flag is always updated; when the palette or the slider claims the frame, the hold flags, selection, mode and mouse are as before, since the drags and reselection do not run |
| EditorModel.Editor.KeyEdits | spirograph.cpp:95-132 | the tree, selection, first-placing flag and mode become `KeyEditsAfter` of the old ones: trail, delete and reset keys in that order, each on the state the one before left, then left Ctrl forces placing; the three keys' histories record this frame |
| EditorModel.Editor.KeyDowns | spirograph.cpp:95-125 | the trail, delete and reset keys' combined effect is `ResetKey` after `DeleteKey` after `ToggleKey` |
| EditorModel.Editor.DeleteThenReset | spirograph.cpp:101-125 | the delete key's effect and then the reset key's, on the state the delete left |
| EditorModel.Editor.CtrlPlaces | spirograph.cpp:127-132 | holding left Ctrl sets the mode to placing; otherwise the mode stays |
| EditorModel.Editor.PlaceChild | spirograph.cpp:134-175 | the search target becomes the selection; a left press attaches a new arm there with the next id at the corrected base, aimed at the cursor, and starts aiming; placing on the root ends `creating_first`; a left-Ctrl release returns to the menu |
| EditorModel.Editor.SelectTarget | spirograph.cpp:136-144 | the selection becomes `SearchTarget` of the cursor |
| EditorModel.Editor.AttachAtSelected | spirograph.cpp:156-167 | the new arm is attached to the selection at the point of its segment nearest the cursor and becomes the arm being aimed |
| EditorModel.Editor.AimChild | spirograph.cpp:176-208 | the new arm points at the cursor; a left release is consumed, selects it, turns its trail on and goes to the menu (or to placing under Ctrl); a right press is consumed and goes to placing |
| EditorModel.Editor.ReselectNode | spirograph.cpp:213-252 | with a childless root the editor goes to placing; otherwise an unclaimed left press is consumed and selects the search target |
| EditorModel.Editor.EditStep | spirograph.cpp:78-211 | one frame of the current editor mode keeps the tree invariant and leaves the Space key's history to the mode switch |
| EditorModel.Editor.Frame | spirograph.cpp:32-67 | EDIT goes to ANIMATE exactly on a Space key-down in the menu, from the rest pose with the root's trail seeded at its rest tip; ANIMATE forces the menu, turns while playing, toggles `play` on Space, else returns to EDIT on R with `play` set and the tree reset; `play` holds in EDIT |
| PlacementExample.OffsetShapeExists | spirograph.cpp:134-146 | the example tree exists |
| PlacementExample.OffsetNearest | spirograph.cpp:338-380 | with the cursor on the root's tip, the search picks the root at distance 0 |
| PlacementExample.PlaceBaseOffTarget | spirograph.cpp:141-146 | the source targets the root's first child but puts the new base at (10, 1), off that child's segment from (10, 0) to (10, 0.5) |
| PlacementExample.PlacedOffTargetRatio | spirograph.cpp:672 | the arm placed there is anchored at fraction 2 of its parent, outside [0, 1] |

## Left out

- SDL setup, event polling (`handleEvents`), rendering, the circle and line rasterisers, and `test.cpp`: these are I/O. Mouse and key states are inputs. `handleEvents`' per-frame clearing of the release flags is not modelled.
- `colour_palette` is modelled only as the claim it makes on the frame. Choosing a trail colour, and the colours themselves, are left out; so are `rgba_to_hsva` and `hsva_to_rgba`.
- The wall clock (`dt`) and cosine/sine are parameters. Float rounding and drift are not modelled; `Vec2::length`'s square root is never needed.
- Memory: `malloc`, `realloc`, `free`, `exit`, `free_members` and the leaks. The shrinking `realloc` in `remove_child` does not change the children and is not modelled.
- Aliasing: the arm tree is a value, written back through paths. `ChildBuffer.ChildList` keeps the array-and-counter form of one node's children, but the tree itself holds child sequences.
- The constructor leaves `position_on_parent` uninitialised; the model puts 0 there. `add_child` always overwrites it.
- Integer overflow of cursor and display coordinates is not modelled.
- Per-node key constants are the same for every arm, so they are module constants.
- The source's initial `selected_node` is a null pointer (spirograph.cpp:80). A path cannot be null, so the model's initial selection `[]`, the root, stands for it; the first frame selects before anything reads the selection, so the two cannot be told apart.
- EditorModel.Editor.EditDirpos: requires `BaseDragSafe`. A base drag with the root selected dereferences a null parent, and a parent with a zero vector divides by zero; both are excluded.
- EditorModel.Editor.ChangeRotationSpeed: requires a display height other than 60 while the slider is held. At 60 the track has zero length and the rate is a division by zero.
- EditorModel.Editor.PlaceChild: requires the target's rest vector to be nonzero when the left button is down. Otherwise `add_child` and the projection divide by zero.
- ArmTree.AddChild: requires a nonzero parent vector, for the same reason.
- ArmTree.RotatePreservesNorms: holds only for a `Trig` on the unit circle. The source's `cos`/`sin` satisfy this up to float rounding.
- EditorModel.Editor.EditMenuStep: states the invariant and the mode only. The full new state is stated by its parts, `PointerEdits` and `KeyEdits`.
- EditorModel.Editor.PointerEdits: states the slider's hold flag and what a claimed frame leaves alone; when neither the palette nor the slider claims the frame, the new tree, flags, selection and mouse are stated by `ChangeRotationSpeed`, `EditDirpos` and `ReselectNode`, not composed in its own contract.
- EditorModel.Editor.EditStep: the same; `EditMenuStep`, `PlaceChild` and `AimChild` state the changes.

## Findings

| source | as written | input that shows it | evidently intended | confidence | as-written member | corrected member |
|---|---|---|---|---|---|---|
| spirograph.cpp:310-324 | a base drag reads the anchor fraction back as x-ratio, else y-ratio, of the projection; with the projection (0, 0) on a horizontal parent this is 0/0, a NaN that both clamps miss, so `position_on_parent` becomes NaN | W held on a child of a horizontal arm, cursor straight above or below that arm's base | fraction 0, the parent's base | not executed; high | Projection.RatioUndefinedAboveBase | Projection.ClampedScale |
| spirograph.cpp:141-146 | when the search finds the root, the target becomes the root's first child, but the new base adds the ROOT's projection to the CHILD's base, so the new arm can land off its parent's segment | root at (0, 0) with vector (0, 1), one child at (10, 0) with vector (0, 0.5), cursor at (0, 1), left press | the point of the target's own segment nearest the cursor, a fraction in [0, 1] | not executed; high (small in practice: the root's vector is 0.1 long) | PlacementExample.PlaceBaseOffTarget | EditorModel.PlacedArmOnTarget |

The editor (`EditorModel.Editor.PlaceChild`, `AttachAtSelected`) and base drags
(`EditorModel.BaseStep`) use the corrected definitions. `EditorModel.PlaceBaseAgrees`
shows that the corrected base is the source's whenever the search's own result is the target.
