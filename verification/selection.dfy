/**
 The selected scene objects and how both scripts classify them. Objects are
 told apart only by their `type` tag; the scan keeps the LAST armature and
 the LAST mesh it meets. A wrong selection count, a missing armature or a
 missing mesh only adds a diagnostic: classification always runs to the end.
 */
module Selection {
  import opened Basics
  import Skeleton

  /** The `type` tag of a scene object; an armature carries its bones. */
  datatype ObjectKind = ArmatureObject(bones: seq<Skeleton.Bone>) | MeshObject | OtherObject

  datatype SceneObject = SceneObject(name: string, kind: ObjectKind)

  /** The tag alone, without the armature's bones. */
  datatype Tag = ArmatureTag | MeshTag | OtherTag

  function TagOf(o: SceneObject): Tag {
    match o.kind
    case ArmatureObject(_) => ArmatureTag
    case MeshObject => MeshTag
    case OtherObject => OtherTag
  }

  /** The bones of an armature; other objects have none. */
  function BonesOf(o: SceneObject): seq<Skeleton.Bone> {
    if o.kind.ArmatureObject? then o.kind.bones else []
  }

  /** Some selected object has tag `t`. */
  predicate HasTag(sel: seq<SceneObject>, t: Tag) {
    exists i :: 0 <= i < |sel| && TagOf(sel[i]) == t
  }

  /** The messages the scripts print; only the fact that one was printed is kept. */
  datatype Diagnostic = WrongSelectionCount | MissingArmature | MissingMesh

  datatype Classification = Classification(
    armature: Option<SceneObject>,
    mesh: Option<SceneObject>,
    diagnostics: seq<Diagnostic>)

  /** A run that stopped on an uncaught exception: the messages printed
      before it and the point where it stopped. */
  datatype Failure<C> = Failure(diagnostics: seq<Diagnostic>, crash: C)

  /** Index `i` below `hi` holds an object tagged `t`, and no index
      between `i` and `hi` does. */
  predicate IsLastTagged(sel: seq<SceneObject>, t: Tag, i: int, hi: int)
    requires hi <= |sel|
  {
    0 <= i < hi && TagOf(sel[i]) == t && forall j :: i < j < hi ==> TagOf(sel[j]) != t
  }

  /** Reference definition: the last index in `[lo, hi)` whose object has tag `t`. */
  function LastIndexIn(sel: seq<SceneObject>, t: Tag, lo: nat, hi: nat): (r: Option<nat>)
    requires lo <= hi <= |sel|
    ensures r.None? <==> forall i :: lo <= i < hi ==> TagOf(sel[i]) != t
    ensures r.Some? ==> lo <= r.value && IsLastTagged(sel, t, r.value, hi)
    decreases hi - lo
  {
    if hi == lo then None
    else if TagOf(sel[hi - 1]) == t then Some(hi - 1)
    else LastIndexIn(sel, t, lo, hi - 1)
  }

  /** Looking one index further down only matters when nothing above it
      has the tag. */
  lemma {:induction false} LastIndexInExtendDown(sel: seq<SceneObject>, t: Tag, lo: nat, hi: nat)
    requires lo < hi <= |sel|
    ensures LastIndexIn(sel, t, lo, hi) ==
      (if LastIndexIn(sel, t, lo + 1, hi).Some? then LastIndexIn(sel, t, lo + 1, hi)
       else if TagOf(sel[lo]) == t then Some(lo) else None)
    decreases hi - lo
  {
    if hi - 1 > lo && TagOf(sel[hi - 1]) != t {
      LastIndexInExtendDown(sel, t, lo, hi - 1);
    }
  }

  /** The script's loop, object by object from index `k` on: an armature
      overwrites `armature`, a mesh overwrites `mesh`, anything else is
      ignored. */
  function Scan(armature: Option<SceneObject>, mesh: Option<SceneObject>, sel: seq<SceneObject>, k: nat)
    : (r: (Option<SceneObject>, Option<SceneObject>))
    requires k <= |sel|
    ensures r.0 == armature || exists i :: k <= i < |sel| && TagOf(sel[i]) == ArmatureTag && r.0 == Some(sel[i])
    ensures (forall i :: k <= i < |sel| ==> TagOf(sel[i]) != ArmatureTag) ==> r.0 == armature
    ensures r.1 == mesh || exists i :: k <= i < |sel| && TagOf(sel[i]) == MeshTag && r.1 == Some(sel[i])
    ensures (forall i :: k <= i < |sel| ==> TagOf(sel[i]) != MeshTag) ==> r.1 == mesh
    decreases |sel| - k
  {
    if k == |sel| then (armature, mesh)
    else
      match TagOf(sel[k])
      case ArmatureTag => Scan(Some(sel[k]), mesh, sel, k + 1)
      case MeshTag => Scan(armature, Some(sel[k]), sel, k + 1)
      case OtherTag => Scan(armature, mesh, sel, k + 1)
  }

  /** What the scan holds for tag `t` once it has run from `k` to the end:
      the last object with that tag from `k` on, or what it started with. */
  function LastFrom(start: Option<SceneObject>, sel: seq<SceneObject>, t: Tag, k: nat): Option<SceneObject>
    requires k <= |sel|
  {
    match LastIndexIn(sel, t, k, |sel|)
    case None => start
    case Some(i) => Some(sel[i])
  }

  /** The front-to-back scan ends holding the last armature it met, or
      what it started with when it met none. */
  lemma {:induction false} ScanKeepsLastArmature(
    armature: Option<SceneObject>, mesh: Option<SceneObject>, sel: seq<SceneObject>, k: nat)
    requires k <= |sel|
    ensures Scan(armature, mesh, sel, k).0 == LastFrom(armature, sel, ArmatureTag, k)
    decreases |sel| - k
  {
    if k < |sel| {
      LastIndexInExtendDown(sel, ArmatureTag, k, |sel|);
      match TagOf(sel[k])
      case ArmatureTag => ScanKeepsLastArmature(Some(sel[k]), mesh, sel, k + 1);
      case MeshTag => ScanKeepsLastArmature(armature, Some(sel[k]), sel, k + 1);
      case OtherTag => ScanKeepsLastArmature(armature, mesh, sel, k + 1);
    }
  }

  /** Likewise for the last mesh. */
  lemma {:induction false} ScanKeepsLastMesh(
    armature: Option<SceneObject>, mesh: Option<SceneObject>, sel: seq<SceneObject>, k: nat)
    requires k <= |sel|
    ensures Scan(armature, mesh, sel, k).1 == LastFrom(mesh, sel, MeshTag, k)
    decreases |sel| - k
  {
    if k < |sel| {
      LastIndexInExtendDown(sel, MeshTag, k, |sel|);
      match TagOf(sel[k])
      case ArmatureTag => ScanKeepsLastMesh(Some(sel[k]), mesh, sel, k + 1);
      case MeshTag => ScanKeepsLastMesh(armature, Some(sel[k]), sel, k + 1);
      case OtherTag => ScanKeepsLastMesh(armature, mesh, sel, k + 1);
    }
  }

  /** The diagnostics both scripts print, in their order: a count other
      than two, then a missing armature, then a missing mesh. */
  function Diagnostics(count: int, armature: Option<SceneObject>, mesh: Option<SceneObject>)
    : seq<Diagnostic>
  {
    (if count != 2 then [WrongSelectionCount] else [])
    + (if armature.None? then [MissingArmature] else [])
    + (if mesh.None? then [MissingMesh] else [])
  }

  /** Classification of the selection: last-wins by tag, with the
      diagnostics printed along the way. The count check never stops it. */
  function Classify(sel: seq<SceneObject>): (c: Classification)
    ensures c.armature.None? <==> forall i :: 0 <= i < |sel| ==> TagOf(sel[i]) != ArmatureTag
    ensures c.armature.Some? ==>
      exists i :: IsLastTagged(sel, ArmatureTag, i, |sel|) && c.armature.value == sel[i]
    ensures c.mesh.None? <==> forall i :: 0 <= i < |sel| ==> TagOf(sel[i]) != MeshTag
    ensures c.mesh.Some? ==>
      exists i :: IsLastTagged(sel, MeshTag, i, |sel|) && c.mesh.value == sel[i]
    ensures (WrongSelectionCount in c.diagnostics) <==> |sel| != 2
    ensures (MissingArmature in c.diagnostics) <==> c.armature.None?
    ensures (MissingMesh in c.diagnostics) <==> c.mesh.None?
  {
    var (armature, mesh) := Scan(None, None, sel, 0);
    ScanKeepsLastArmature(None, None, sel, 0);
    ScanKeepsLastMesh(None, None, sel, 0);
    Classification(armature, mesh, Diagnostics(|sel|, armature, mesh))
  }

  /** A well-formed selection (one armature, one mesh) classifies without a
      message, whichever order the two objects come in. */
  lemma WellFormedSelectionIsSilent(a: SceneObject, m: SceneObject)
    requires TagOf(a) == ArmatureTag && TagOf(m) == MeshTag
    ensures Classify([a, m]) == Classification(Some(a), Some(m), [])
    ensures Classify([m, a]) == Classification(Some(a), Some(m), [])
  {
    var am, ma := [a, m], [m, a];
    assert TagOf(am[0]) == ArmatureTag && TagOf(am[1]) == MeshTag;
    assert TagOf(ma[0]) == MeshTag && TagOf(ma[1]) == ArmatureTag;
    assert Classify(am).armature == Some(a) && Classify(am).mesh == Some(m);
    assert Classify(ma).armature == Some(a) && Classify(ma).mesh == Some(m);
  }

  /** With two armatures selected the first is silently dropped, and the
      missing mesh is only reported. */
  lemma TwoArmaturesLastWins(a1: SceneObject, a2: SceneObject)
    requires TagOf(a1) == ArmatureTag && TagOf(a2) == ArmatureTag
    ensures Classify([a1, a2]) == Classification(Some(a2), None, [MissingMesh])
  {
    var aa := [a1, a2];
    assert TagOf(aa[0]) == ArmatureTag && TagOf(aa[1]) == ArmatureTag;
    assert Classify(aa).armature == Some(a2);
  }
}
