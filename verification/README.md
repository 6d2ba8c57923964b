# blender-iks-to-fks in Dafny

This project models the two Blender scripts of blender-iks-to-fks. They turn
an inverse-kinematics (IK) rig into a forward-kinematics (FK) rig that other
engines can play back:

- `script.py` works on every action in the file;
- `convert-ik-to-fk.py` works on the active action only.

Both scripts follow these steps:

1. Classify the selection. The last ARMATURE and the last MESH win, and a
   wrong count or a missing type only prints a message.
2. Duplicate the rig.
3. Strip every bone constraint of the duplicate.
4. Remove its non-deform bones.
5. Give each selected FK bone a COPY_TRANSFORMS constraint. The target is
   the original armature and the subtarget is the bone's own name.
   Only `script.py` first selects every FK pose bone (script.py:46-48). In
   `convert-ik-to-fk.py` the constraint and the bake reach only the bones
   the user had selected. The others keep no constraint and get no key.
6. Collect the keyframe times of the action, rounded up with `ceil`.
7. Bake visual keys from the first collected frame to the last.

`script.py` then deletes the baked keys on frames that were not collected.
It does this for every frame in `range(first, last)` that is missing from
the list. It also skips actions without keyframes.

Blender itself is not modelled; only the effects the scripts rely on are.
A scene object is a name and a kind: an armature with its bones, a mesh, or
something else. A bone is a name, a deform flag, a selection flag and a
list of constraints. An action is a name with F-curves of keyframe points
`(time, value)`. A run of a script is a pure function from the selection
and the actions to either a crash or an outcome:

- the printed diagnostics;
- the final FK bones;
- for `script.py`, the log of bakes and deleted keyframes;
- for `convert-ik-to-fk.py`, the bake range.

Modules follow the program's structure:

- `Basics`: Option, Result, Repeat.
- `Skeleton`: bones, constraints, stripping, pruning, attaching and clearing.
- `Selection`: the selection loop and its diagnostics.
- `Keyframes`: F-curves, `ceil`, and the keyframe list.
- `BatchScript`: `script.py`.
- `IkToFk`: `convert-ik-to-fk.py`.

Two behaviours of the code are kept as written, and lemmas show where they
matter:

- **The duplicate check compares the raw time with ceiled frames.** The
  test `x not in keyframes` compares the float time `x` with a list of
  integers. A fractional time therefore never matches, and its ceiling can
  be listed twice: `Collect([2.5, 2.5]) == [3, 3]`. For whole times the list
  has no repeats (`WholeTimesCollectDistinct`).
- **The bake range is the first and the last collected frame, not the
  minimum and the maximum.** With curves {0, 10} and {0, 5} the range is
  0..5, and frame 10 is collected but never baked (`LateFrameNeverBaked`).
  The closing frame is the ceiling of the last time that was appended to
  the list (`LastFrameIsLastAppendedTime`).
  When the times arrive in non-decreasing order, the range covers every
  time and the trim keeps exactly the collected frames
  (`SortedActionKeepsEveryFrame`, `SortedBakeRangeCoversAllTimes`).

Where the comments in the scripts promise more than the code does, the model follows
the code:

- A bad selection does not stop either script; it only prints.
  - `script.py` crashes later, at `fkArmature.pose` (line 47), when no
    armature was selected. A missing mesh is harmless there.
  - `convert-ik-to-fk.py` crashes at `fkMesh.select` (line 58) without a
    mesh, and by line 66 without an armature. It also crashes at line 99
    when the active FK armature has no action.
  - Every message is printed before the crash, so a failed run still carries
    the selection's diagnostics.
- `script.py` adds COPY_TRANSFORMS to the selected bones before it checks
  for an empty action. A skipped action therefore leaves one constraint per
  bone, and runs of skipped actions stack them (`ConstraintsLeftByLoop`).
- `convert-ik-to-fk.py` has no guard for an action without keyframes:
  `keyframes[0]` raises IndexError (`BakeRange`).

These host behaviours are taken as given:

- `bpy.ops.object.duplicate` copies each selected object with its kind and
  bones, and keeps the selection order. The last armature among the copies
  (script.py:38-42) is then the copy of the last selected armature
  (script.py:13-15). The copies get new names, but the model only uses the
  original armature's name, as the constraint target.
- `bpy.ops.nla.bake` with `only_selected` and `clear_constraints` keys every
  frame of the inclusive range and clears all constraints of the selected
  bones.
- Python's `math.ceil` and float-to-int comparison behave as on reals.

## Model

| member | source | states |
|---|---|---|
| Selection.Classify | script.py:7-23 | The kept armature is absent exactly when no armature is selected. Otherwise it is the last armature in selection order; the same holds for the mesh. The count message appears exactly when the selection does not hold two objects. Each missing-type message appears exactly when that type is absent. |
| Selection.WellFormedSelectionIsSilent | script.py:9-23 | An armature and a mesh, in either order, are both kept and print nothing. |
| Selection.TwoArmaturesLastWins | script.py:13-17 | With two armatures the second one wins and only the missing-mesh message is printed. |
| Selection.Scan | script.py:13-17 | From any index on, the loop ends holding an armature met after that index, or what it started with. When no armature lies ahead it keeps what it started with. The same holds for the mesh. |
| Selection.ScanKeepsLastArmature | script.py:13-15 | From any point on, the front-to-back loop ends holding the last armature after that point, or the armature it already held if there is none. |
| Selection.ScanKeepsLastMesh | script.py:16-17 | The same holds for meshes. |
| Skeleton.SelectAll | script.py:47-48 | Every bone becomes selected, and nothing else about any bone changes. |
| Skeleton.StripConstraints | script.py:52-54 | Every bone keeps its name and flags and loses all of its constraints. |
| Skeleton.PruneNonDeform | script.py:61-63 | A bone survives exactly when it was present and is a deform bone. Nothing is added: each bone is kept at most as often as it occurred. |
| Skeleton.FkSkeleton | script.py:50-63 | Every bone of the shaped FK skeleton is a deform bone without constraints. |
| Skeleton.FkSkeletonNamesDeformBones | script.py:50-63 | Every deform bone of the original has an FK bone of the same name, and every FK bone has the name of a deform bone of the original. |
| Skeleton.SameNamesKeepDeformNames | script.py:66-106 | Steps that keep each bone's name in place keep that one-to-one naming of the deform bones. |
| Skeleton.FkSkeletonIsDeformOnly | script.py:50-63 | The FK skeleton holds only unconstrained deform bones. Every deform bone of the original is present, and every FK bone comes from a deform bone. |
| Skeleton.AttachCopyTransforms | script.py:73-78 | A selected bone gains exactly one trailing COPY_TRANSFORMS whose target is the original armature and whose subtarget is its own name. An unselected bone is unchanged. |
| Skeleton.CopyTransformsPairsSameNamedBones | script.py:73-78 | On the FK skeleton each selected bone carries exactly one COPY_TRANSFORMS, and its subtarget names a deform bone of the original armature. |
| Skeleton.ClearSelectedConstraints | script.py:99 | The bake clears all constraints of the selected bones and leaves the others untouched. |
| Keyframes.CurveTimes | script.py:87-89 | The visited times are empty exactly when every F-curve is empty. |
| Keyframes.Ceil | script.py:94 | `ceil(x)` is the least integer not below `x`. |
| Keyframes.CeilMonotone | script.py:94 | `ceil` preserves order. |
| Keyframes.ListedIsNumericMembership | script.py:92 | The test `x in keyframes` holds exactly when some listed integer equals the float `x` numerically. |
| Keyframes.AdmitListsCeil | script.py:92-94 | After one visit `ceil(x)` is listed, the old list is a prefix of the new one, and the list grows by one exactly when the raw `x` was not listed. |
| Keyframes.Collect | script.py:86-94 | The list is no longer than the visited times, and it is empty exactly when there are none. |
| Keyframes.CollectKeyframes | script.py:86-94 | The nested loop over curves and points computes the recursive definition `Collect`, and is empty exactly when all curves are empty. |
| Keyframes.FirstFrameIsFirstTime | script.py:86-94 | The first listed frame is the ceiling of the first visited time. |
| Keyframes.CollectFollowsEncounterOrder | script.py:86-94 | Each listed frame is the ceiling of one visited time, and the listed frames appear in visiting order. |
| Keyframes.AppendsIffUnlisted | script.py:92-94 | A visited time adds a frame exactly when the raw time is not yet listed. |
| Keyframes.LastFrameIsLastAppendedTime | script.py:86-99 | The last listed frame, which closes the bake, is the ceiling of the last time that was appended: that time was unlisted when visited, and every later time was already listed. |
| Keyframes.ClosingFrameIsLastAppendedTime | script.py:86-99 | The same fact for a frame known to close the list. |
| Keyframes.CollectPrefix | script.py:86-94 | The list built from a prefix of the times is a prefix of the full list. |
| Keyframes.CollectedFrameValues | script.py:86-94 | A frame is listed exactly when it is the ceiling of some visited time. |
| Keyframes.CollectedFramesComeFromTimes | script.py:86-94 | Every listed frame is the ceiling of some visited time. |
| Keyframes.EveryTimeIsCollected | script.py:86-94 | The ceiling of every visited time is listed. |
| Keyframes.WholeTimesCollectDistinct | script.py:92-94 | When all times are whole, no frame is listed twice. |
| Keyframes.FractionalTimeListedTwice | script.py:92-94 | Two points at time 2.5 list frame 3 twice. |
| Keyframes.SortedTimesCollectSorted | script.py:86-94 | Times visited in non-decreasing order give a non-decreasing frame list. |
| BatchScript.MissingFrames | script.py:103-104 | Deleted frames are exactly those in `[first, last)` that are not listed, in increasing order. |
| BatchScript.PlanFrames | script.py:95-104 | An empty list skips the action. Otherwise the bake runs from the first to the last entry of the list, and the deletions are the unlisted frames in `[start, end)`. |
| BatchScript.PlanAction | script.py:86-104 | An action is skipped exactly when it has no keyframe point. Otherwise the bake starts at the ceiling of the first time visited and ends on the last collected frame. It deletes exactly the unlisted frames in `[start, end)`. |
| BatchScript.BakeEndsOnLastAppendedTime | script.py:86-99 | The bake ends at the ceiling of the last time appended to the list, not at the largest time. |
| BatchScript.TrimKeepsOriginalFrames | script.py:99-106 | The trim never deletes the ceiling of any keyframe time, nor the bake's first or last frame. |
| BatchScript.TrimRestoresCollectedFrames | script.py:99-106 | After the bake and the trim, the frames with a baked key are exactly the collected frames inside the bake range. |
| BatchScript.SortedActionKeepsEveryFrame | script.py:86-106 | With times in non-decreasing order, the frames that keep a baked key are exactly the ceilings of the keyframe times. |
| BatchScript.LaterCurveShortensBakeRange | script.py:99-104 | With curves {0, 10} and {0, 5} the bake runs 0..5 and deletes frames 1 to 4. |
| BatchScript.LateFrameNeverBaked | script.py:99 | In that action frame 10 is listed but gets no baked key. |
| BatchScript.PlanEvents | script.py:99-106 | A skipped action issues no host operation. Otherwise the bake comes first and every later event is a deletion. Every event names the action. A frame is deleted exactly when it is in the plan's deletions. |
| BatchScript.ProcessAction | script.py:72-106 | One pass keeps every bone's identity and leaves unselected bones alone. A keyed action first issues the bake of its planned range, then only deletions, of exactly the planned frames. Every event names the action. It leaves the selected bones unconstrained. A skipped action issues nothing and leaves one more COPY_TRANSFORMS to the bone's own name. |
| BatchScript.RunActions | script.py:66-106 | The action loop keeps every bone's name and flags, and the bone count. |
| BatchScript.ActionEvents | script.py:95-106 | One action's events hold a deletion of frame `f` exactly when the action has keyframes and its plan deletes `f`. They hold a bake of `[s, e]` exactly when the planned range is `[s, e]`. |
| BatchScript.LoopLogIsPlannedLog | script.py:66-106 | The loop's log does not depend on the bones. It is each action's planned events, in action order. |
| BatchScript.PlannedLogDeletes | script.py:66-106 | The planned log deletes frame `f` under an action's name exactly when an action of that name plans to delete `f`. |
| BatchScript.PlannedLogBakes | script.py:66-106 | The planned log bakes `[s, e]` under an action's name exactly when an action of that name has keyframes and plans that range. |
| BatchScript.LoopDeletesPlannedFrames | script.py:66-106 | Over the whole loop, frame `f` of an action is deleted exactly when an action of that name plans to delete it: a frame of `range(keyframes[0], keyframes[-1])` that is not listed. |
| BatchScript.LoopBakesPlannedRanges | script.py:66-106 | Over the whole loop, an action is baked over `[s, e]` exactly when an action of that name has keyframes and `s`, `e` are its first and last listed frames. |
| BatchScript.OneBakePerKeyedAction | script.py:66-99 | The loop bakes once per action that has a keyframe point, in action order, and never bakes the others. |
| BatchScript.FkBonesAfterLoop | script.py:66-106 | After the action loop every FK bone is a selected deform bone whose constraints are the COPY_TRANSFORMS left by trailing skipped actions. |
| BatchScript.LoopKeepsDeformNames | script.py:66-106 | The action loop keeps one FK bone for each deform bone of the original, by name. |
| BatchScript.ConstraintsLeftByLoop | script.py:66-99 | After the loop each selected bone holds one COPY_TRANSFORMS to its own name for every skipped action after the last bake. Unselected bones are untouched. |
| BatchScript.ConvertFrom | script.py:34-106 | After classification the run keeps the printed diagnostics. Its log is the planned log of the actions, whatever the bones. |
| BatchScript.ConvertLogFollowsPlans | script.py:4-106 | A run that does not crash deletes a frame of an action exactly when that action's plan deletes it. It bakes a range exactly when that range is the action's planned range. |
| BatchScript.Convert | script.py:4-48 | The script crashes exactly when no armature is selected. The crash carries the classification's diagnostics, including the missing-armature message. |
| BatchScript.FkBones | script.py:34-63 | The FK bones are selected, unconstrained deform bones. Every deform bone of the selected armature has an FK bone of the same name, and every FK bone has the name of such a bone. |
| BatchScript.ConvertBakesKeyedActions | script.py:4-99 | A run that does not crash prints the selection's diagnostics and bakes each keyed action once, in order. |
| BatchScript.ConvertLeavesDeformBones | script.py:34-106 | After a run every FK bone is a selected deform bone. Its constraints are only the COPY_TRANSFORMS left by trailing skipped actions. Every deform bone of the selected armature has an FK bone of the same name, and every FK bone has the name of such a bone. |
| IkToFk.BakeRange | convert-ik-to-fk.py:97-109 | The bake fails with IndexError exactly when the action has no keyframe point. Otherwise it starts at the ceiling of the first time visited and ends on the last collected frame. |
| IkToFk.BakeRangeEndsOnLastAppendedTime | convert-ik-to-fk.py:97-109 | The bake range ends at the ceiling of the last time appended to the list, not at the largest time. |
| IkToFk.SortedBakeRangeCoversAllTimes | convert-ik-to-fk.py:97-109 | With times in non-decreasing order, the bake range covers the ceiling of every time. |
| IkToFk.BakedFkBones | convert-ik-to-fk.py:64-109 | After stripping, pruning, attaching and baking, every FK bone is an unconstrained deform bone. Every deform bone of the armature has an FK bone of the same name, and every FK bone has the name of such a bone. |
| IkToFk.Convert | convert-ik-to-fk.py:13-109 | The script crashes exactly when the mesh, the armature, the active action or every keyframe is missing. It stops at the first of these the code reaches, carrying the classification's diagnostics. A successful run prints those diagnostics and bakes from the ceiling of the first time to the last collected frame. |
| IkToFk.ConvertLeavesUnconstrainedDeformBones | convert-ik-to-fk.py:64-109 | After a successful run every FK bone is an unconstrained deform bone. Every deform bone of the selected armature has an FK bone of the same name, and every FK bone has the name of such a bone. |

## Left out

- Operator side effects are not modelled beyond what the scripts rely on: mode switches, the active-object assignment, and deleting the temporary IK armature.
- The copied armature's pose and the visual transforms the bake samples are not modelled. No IK solving or matrix numerics appear; a bake is recorded as its range.
- Iterating over a collection while removing from it can skip elements in Blender. The model removes every non-deform bone and every constraint.
- The text of the printed messages is not modelled; only which message appears. The non-deform bone names that `convert-ik-to-fk.py` prints at line 78 are also left out.
- In `script.py` an armature without `animation_data` (lines 83-84) is taken never to occur. `bpy.data.actions.get` always finds its action there, because the names come from `bpy.data.actions` itself. In `convert-ik-to-fk.py` a missing action or animation data is modelled as the `NoAction` crash.
- `convert-ik-to-fk.py` uses `selected_objects[0]` as the IK copy (line 62). It is only deselected and deleted, so the model does not track it.
- The test runner `test/test.js` drives Blender as a subprocess and is not part of this model.
- Keyframes.Ceil: it is defined on exact reals. Float rounding of keyframe times is not modelled.
- BatchScript.RunActions: its own contract states only that bone identity is preserved. ConstraintsLeftByLoop states what the loop does to constraints. LoopLogIsPlannedLog, LoopDeletesPlannedFrames and LoopBakesPlannedRanges state what it logs.
