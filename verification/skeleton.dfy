/**
 The bone-level part of the conversion: a bone record that merges the
 edit-bone and pose-bone views of one bone, the constraints attached to it,
 and the pure transformations the scripts apply to the duplicated (FK)
 armature: constraint stripping, pruning of non-deform bones, selection of
 every bone, and attachment of COPY_TRANSFORMS constraints.
 */
module Skeleton {

  /** A bone constraint. Only COPY_TRANSFORMS is ever created; every other
      kind (the IK solver among them) is carried by name only. */
  datatype Constraint =
    | CopyTransforms(target: string, subtarget: string)
    | OtherConstraint(kind: string)

  /** One bone: its name, its `use_deform` flag, whether it is selected in
      pose mode, and its constraint stack in order. */
  datatype Bone = Bone(name: string, useDeform: bool, selected: bool, constraints: seq<Constraint>)

  /** Two bone records describe the same bone, whatever their constraints. */
  predicate SameBone(a: Bone, b: Bone) {
    a.name == b.name && a.useDeform == b.useDeform && a.selected == b.selected
  }

  /** Every pose bone is selected (script.py does this before anything else). */
  function SelectAll(bones: seq<Bone>): (r: seq<Bone>)
    ensures |r| == |bones|
    ensures forall i :: 0 <= i < |r| ==> r[i].selected
    ensures forall i :: 0 <= i < |r| ==>
      r[i].name == bones[i].name && r[i].useDeform == bones[i].useDeform
      && r[i].constraints == bones[i].constraints
  {
    seq(|bones|, i requires 0 <= i < |bones| => bones[i].(selected := true))
  }

  /** Every constraint of every bone is removed. */
  function StripConstraints(bones: seq<Bone>): (r: seq<Bone>)
    ensures |r| == |bones|
    ensures forall i :: 0 <= i < |r| ==> |r[i].constraints| == 0 && SameBone(r[i], bones[i])
  {
    seq(|bones|, i requires 0 <= i < |bones| => bones[i].(constraints := []))
  }

  /** Only the bones whose `use_deform` flag is set are kept. */
  function PruneNonDeform(bones: seq<Bone>): (r: seq<Bone>)
    ensures |r| <= |bones|
    ensures forall b :: b in r <==> b in bones && b.useDeform
    ensures multiset(r) <= multiset(bones)
    decreases |bones|
  {
    if |bones| == 0 then []
    else
      var rest := PruneNonDeform(bones[1..]);
      assert bones == [bones[0]] + bones[1..];
      assert forall b :: b in bones <==> b == bones[0] || b in bones[1..];
      if bones[0].useDeform then [bones[0]] + rest else rest
  }

  /** Each selected bone gains one COPY_TRANSFORMS constraint at the end of
      its stack, aimed at `target` and at the bone of the same name there.
      Unselected bones are left alone. */
  function AttachCopyTransforms(bones: seq<Bone>, target: string): (r: seq<Bone>)
    ensures |r| == |bones|
    ensures forall i :: 0 <= i < |r| ==> SameBone(r[i], bones[i])
    ensures forall i :: 0 <= i < |r| && bones[i].selected ==>
      r[i].constraints == bones[i].constraints + [CopyTransforms(target, bones[i].name)]
    ensures forall i :: 0 <= i < |r| && !bones[i].selected ==> r[i] == bones[i]
  {
    seq(|bones|, i requires 0 <= i < |bones| =>
      if bones[i].selected
      then bones[i].(constraints := bones[i].constraints + [CopyTransforms(target, bones[i].name)])
      else bones[i])
  }

  /** The constraint clearing done by a bake restricted to the selected
      bones: selected bones lose every constraint, the others keep theirs. */
  function ClearSelectedConstraints(bones: seq<Bone>): (r: seq<Bone>)
    ensures |r| == |bones|
    ensures forall i :: 0 <= i < |r| ==> SameBone(r[i], bones[i])
    ensures forall i :: 0 <= i < |r| ==>
      r[i].constraints == (if bones[i].selected then [] else bones[i].constraints)
  {
    seq(|bones|, i requires 0 <= i < |bones| =>
      if bones[i].selected then bones[i].(constraints := []) else bones[i])
  }

  /** The FK skeleton as the scripts shape it before any action is baked:
      constraints stripped, then non-deform bones removed. */
  function FkSkeleton(bones: seq<Bone>): (fk: seq<Bone>)
    ensures forall k :: 0 <= k < |fk| ==> fk[k].useDeform && fk[k].constraints == []
  {
    var stripped := StripConstraints(bones);
    var fk := PruneNonDeform(stripped);
    assert forall k :: 0 <= k < |fk| ==> fk[k] in fk;
    fk
  }

  /** The shaped FK skeleton holds exactly the deform bones of the source
      armature, none of them constrained. */
  lemma FkSkeletonIsDeformOnly(bones: seq<Bone>)
    ensures forall b :: b in FkSkeleton(bones) ==> b.useDeform && |b.constraints| == 0
    ensures forall b :: b in bones && b.useDeform ==>
      exists f :: f in FkSkeleton(bones) && SameBone(f, b)
    ensures forall f :: f in FkSkeleton(bones) ==>
      exists b :: b in bones && b.useDeform && SameBone(f, b)
  {
    var stripped := StripConstraints(bones);
    forall b | b in bones && b.useDeform
      ensures exists f :: f in FkSkeleton(bones) && SameBone(f, b)
    {
      var i :| 0 <= i < |bones| && bones[i] == b;
      assert stripped[i] in stripped && stripped[i].useDeform;
    }
    forall f | f in FkSkeleton(bones)
      ensures exists b :: b in bones && b.useDeform && SameBone(f, b)
    {
      var i :| 0 <= i < |stripped| && stripped[i] == f;
      assert bones[i] in bones;
    }
  }

  /** Some bone of `bones` is called `name`. */
  predicate HasBoneNamed(bones: seq<Bone>, name: string) {
    exists k :: 0 <= k < |bones| && bones[k].name == name
  }

  /** Some deform bone of `bones` is called `name`. */
  predicate HasDeformBoneNamed(bones: seq<Bone>, name: string) {
    exists i :: 0 <= i < |bones| && bones[i].useDeform && bones[i].name == name
  }

  /** The FK bones name exactly the deform bones of the source armature:
      each deform bone has an FK bone of its name, and each FK bone is named
      after a deform bone. */
  predicate NamesDeformBones(fk: seq<Bone>, bones: seq<Bone>) {
    && (forall i :: 0 <= i < |bones| && bones[i].useDeform ==> HasBoneNamed(fk, bones[i].name))
    && (forall k :: 0 <= k < |fk| ==> HasDeformBoneNamed(bones, fk[k].name))
  }

  /** The shaped FK skeleton names exactly the deform bones. */
  lemma FkSkeletonNamesDeformBones(bones: seq<Bone>)
    ensures NamesDeformBones(FkSkeleton(bones), bones)
  {
    var stripped := StripConstraints(bones);
    var fk := PruneNonDeform(stripped);
    assert fk == FkSkeleton(bones);
    forall i | 0 <= i < |bones| && bones[i].useDeform
      ensures HasBoneNamed(fk, bones[i].name)
    {
      assert stripped[i] in stripped && stripped[i].useDeform;
      var k :| 0 <= k < |fk| && fk[k] == stripped[i];
      assert fk[k].name == bones[i].name;
    }
    forall k | 0 <= k < |fk|
      ensures HasDeformBoneNamed(bones, fk[k].name)
    {
      assert fk[k] in fk;
      var i :| 0 <= i < |stripped| && stripped[i] == fk[k];
      assert bones[i].useDeform && bones[i].name == fk[k].name;
    }
  }

  /** Passes that keep every bone's name at its index keep the naming. */
  lemma SameNamesKeepDeformNames(x: seq<Bone>, y: seq<Bone>, bones: seq<Bone>)
    requires |x| == |y|
    requires forall k :: 0 <= k < |x| ==> x[k].name == y[k].name
    requires NamesDeformBones(y, bones)
    ensures NamesDeformBones(x, bones)
  {
    forall i | 0 <= i < |bones| && bones[i].useDeform
      ensures HasBoneNamed(x, bones[i].name)
    {
      assert HasBoneNamed(y, bones[i].name);
      var k :| 0 <= k < |y| && y[k].name == bones[i].name;
      assert x[k].name == bones[i].name;
    }
    forall k | 0 <= k < |x|
      ensures HasDeformBoneNamed(bones, x[k].name)
    {
      assert HasDeformBoneNamed(bones, y[k].name);
    }
  }

  /** After the COPY_TRANSFORMS pass on a freshly shaped FK skeleton, every
      selected FK bone carries exactly one constraint, and it copies the
      same-named bone of `target`; that name is a deform bone of the source
      armature, so the pairing never points at a pruned bone. */
  lemma CopyTransformsPairsSameNamedBones(bones: seq<Bone>, target: string)
    ensures forall f :: f in AttachCopyTransforms(FkSkeleton(bones), target) && f.selected ==>
      f.constraints == [CopyTransforms(target, f.name)]
      && exists b :: b in bones && b.useDeform && b.name == f.constraints[0].subtarget
  {
    var fk := FkSkeleton(bones);
    var attached := AttachCopyTransforms(fk, target);
    FkSkeletonIsDeformOnly(bones);
    forall f | f in attached && f.selected
      ensures f.constraints == [CopyTransforms(target, f.name)]
      ensures exists b :: b in bones && b.useDeform && b.name == f.constraints[0].subtarget
    {
      var i :| 0 <= i < |attached| && attached[i] == f;
      assert fk[i] in fk;
      assert f.constraints == [] + [CopyTransforms(target, fk[i].name)];
    }
  }
}
