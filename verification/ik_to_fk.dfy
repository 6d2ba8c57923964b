/**
 The single-action variant, convert-ik-to-fk.py. It classifies the selection
 and shapes the FK skeleton as script.py does, attaches COPY_TRANSFORMS once
 to the selected FK bones, collects the frames of the active action and bakes
 them from the first to the last collected frame. It has no empty-list
 guard and no trimming of the baked frames.
 */
module IkToFk {
  import opened Basics
  import opened Skeleton
  import opened Selection
  import opened Keyframes

  /** Where the script stops with an uncaught exception. */
  datatype Crash =
    | NoFkMesh      // no mesh was duplicated: `fkMesh` is None when deselected
    | NoFkArmature  // no armature was duplicated: the IK copy and the FK pose bones are missing
    | NoAction      // the FK armature has no animation data or no action to read curves from
    | NoKeyframes   // `keyframes[0]` on an empty list raises IndexError

  /** The bake range of the active action: first to last collected frame,
      or the IndexError of indexing an empty frame list. */
  function BakeRange(a: Action): (r: Result<(int, int), Crash>)
    ensures r.Err? <==> !HasKeyframes(a)
    ensures r.Err? ==> r.error == NoKeyframes
    ensures r.Ok? ==> r.value.0 == Ceil(Times(a)[0])
    ensures r.Ok? ==> r.value.1 == Collect(Times(a))[|Collect(Times(a))| - 1]
  {
    var frames := Collect(Times(a));
    if |frames| == 0 then Err(NoKeyframes)
    else
      FirstFrameIsFirstTime(Times(a));
      Ok((frames[0], frames[|frames| - 1]))
  }

  /** The bake range closes on the ceiling of the last time that was
      appended to the frame list, not on the largest time. */
  lemma BakeRangeEndsOnLastAppendedTime(a: Action)
    requires BakeRange(a).Ok?
    ensures exists j {:trigger IsLastAppend(Times(a), j)} :: IsLastAppend(Times(a), j) && BakeRange(a).value.1 == Ceil(Times(a)[j])
  {
    ClosingFrameIsLastAppendedTime(Times(a), BakeRange(a).value.1);
  }

  /** With the times visited in non-decreasing order, the bake range covers
      the ceiling of every keyframe time. */
  lemma SortedBakeRangeCoversAllTimes(a: Action)
    requires BakeRange(a).Ok?
    requires NonDecreasing(Times(a))
    ensures forall j :: 0 <= j < |Times(a)| ==>
      BakeRange(a).value.0 <= Ceil(Times(a)[j]) <= BakeRange(a).value.1
  {
    var ts := Times(a);
    var fs := Collect(ts);
    SortedTimesCollectSorted(ts);
    EveryTimeIsCollected(ts);
    forall j | 0 <= j < |ts|
      ensures fs[0] <= Ceil(ts[j]) <= fs[|fs| - 1]
    {
      var i :| 0 <= i < |fs| && fs[i] == Ceil(ts[j]);
    }
  }

  /** What the script leaves behind: its diagnostics, the FK bones and the
      one bake range. */
  datatype Outcome = Outcome(diagnostics: seq<Diagnostic>, fkBones: seq<Bone>, bakeStart: int, bakeEnd: int)

  /** Every bone is a deform bone without constraints. */
  predicate DeformUnconstrained(bones: seq<Bone>) {
    forall k :: 0 <= k < |bones| ==> bones[k].useDeform && bones[k].constraints == []
  }

  /** The FK bones after the bake: the duplicate's bones stripped and
      pruned, COPY_TRANSFORMS attached to the selected ones, and those
      cleared again by the bake. */
  function BakedFkBones(original: SceneObject): (fk: seq<Bone>)
    ensures DeformUnconstrained(fk)
    ensures NamesDeformBones(fk, BonesOf(original))
  {
    var shaped := FkSkeleton(BonesOf(original));
    var attached := AttachCopyTransforms(shaped, original.name);
    var baked := ClearSelectedConstraints(attached);
    assert forall k :: 0 <= k < |attached| ==> SameBone(attached[k], shaped[k]);
    FkSkeletonNamesDeformBones(BonesOf(original));
    SameNamesKeepDeformNames(baked, shaped, BonesOf(original));
    baked
  }

  /** The crash the script meets first when something is missing: the FK
      mesh is read before the FK armature, both before the action, and the
      action before its frames. */
  function FirstMissing(sel: seq<SceneObject>, active: Option<Action>): Crash {
    if !HasTag(sel, MeshTag) then NoFkMesh
    else if !HasTag(sel, ArmatureTag) then NoFkArmature
    else if active.None? then NoAction
    else NoKeyframes
  }

  /** The whole script. It stops where it first touches a missing object:
      the FK mesh, then the FK armature, then the action of the active FK
      armature (`None` when it has no animation data or no action), then the
      frame list. Every message is printed before any of these. */
  function Convert(sel: seq<SceneObject>, active: Option<Action>): (r: Result<Outcome, Failure<Crash>>)
    ensures r.Err? <==>
      !HasTag(sel, MeshTag) || !HasTag(sel, ArmatureTag) || active.None? || !HasKeyframes(active.value)
    ensures r.Err? ==> r.error == Failure(Classify(sel).diagnostics, FirstMissing(sel, active))
    ensures r.Ok? ==> r.value.diagnostics == Classify(sel).diagnostics
    ensures r.Ok? ==> r.value.bakeStart == Ceil(Times(active.value)[0])
    ensures r.Ok? ==>
      r.value.bakeEnd == Collect(Times(active.value))[|Collect(Times(active.value))| - 1]
  {
    var c := Classify(sel);
    if c.mesh.None? then Err(Failure(c.diagnostics, NoFkMesh))
    else if c.armature.None? then Err(Failure(c.diagnostics, NoFkArmature))
    else if active.None? then Err(Failure(c.diagnostics, NoAction))
    else
      match BakeRange(active.value)
      case Err(e) => Err(Failure(c.diagnostics, e))
      case Ok((start, end)) => Ok(Outcome(c.diagnostics, BakedFkBones(c.armature.value), start, end))
  }

  /** After a successful run every FK bone is a deform bone and carries no
      constraint: the stripped bones that were not selected never got one,
      and the bake cleared the COPY_TRANSFORMS of the selected ones. */
  lemma ConvertLeavesUnconstrainedDeformBones(sel: seq<SceneObject>, active: Option<Action>)
    requires HasTag(sel, MeshTag) && HasTag(sel, ArmatureTag) && active.Some? && HasKeyframes(active.value)
    ensures DeformUnconstrained(Convert(sel, active).value.fkBones)
    ensures NamesDeformBones(Convert(sel, active).value.fkBones, BonesOf(Classify(sel).armature.value))
  {
    assert Convert(sel, active).value.fkBones == BakedFkBones(Classify(sel).armature.value);
  }
}
