/**
 The per-action conversion loop of script.py. For each action the selected
 FK bones gain a COPY_TRANSFORMS constraint, the action's keyframe times are
 collected, an action with no frames is skipped, and otherwise the pose is
 baked over `frames[0] .. frames[-1]` and every frame of
 `range(frames[0], frames[-1])` that is not listed is deleted again.

 The host operations are recorded as events. The bake is modelled by the two
 effects the script relies on: it keys every frame of its inclusive range,
 and (baking only the selected bones with constraint clearing on) it removes
 every constraint of the selected bones.
 */
module BatchScript {
  import opened Basics
  import opened Skeleton
  import opened Selection
  import opened Keyframes

  /** The host operations issued for one action. */
  datatype Event =
    | Baked(action: string, start: int, end: int)
    | KeyframeDeleted(action: string, frame: int)

  /** The frames of Python's `range(lo, hi)` that are not in `frames`, ascending. */
  function MissingFrames(lo: int, hi: int, frames: seq<int>): (del: seq<int>)
    ensures forall f :: f in del <==> lo <= f < hi && f !in frames
    ensures forall i, j :: 0 <= i < j < |del| ==> del[i] < del[j]
    decreases hi - lo
  {
    if hi <= lo then []
    else
      var rest := MissingFrames(lo + 1, hi, frames);
      assert forall k :: 0 <= k < |rest| ==> rest[k] in rest;
      if lo in frames then rest else [lo] + rest
  }

  /** What the loop does with one action. */
  datatype ActionPlan = Skip | BakeAndTrim(start: int, end: int, deletions: seq<int>)

  /** The plan for a collected frame list: skipped when it is empty;
      otherwise baked from its first to its last entry and trimmed back to
      the listed frames inside that range. */
  function PlanFrames(frames: seq<int>): (p: ActionPlan)
    ensures p.Skip? <==> |frames| == 0
    ensures p.BakeAndTrim? ==> p.start == frames[0] && p.end == frames[|frames| - 1]
    ensures p.BakeAndTrim? ==> forall f :: f in p.deletions <==> p.start <= f < p.end && f !in frames
  {
    if |frames| == 0 then Skip
    else
      var first, last := frames[0], frames[|frames| - 1];
      BakeAndTrim(first, last, MissingFrames(first, last, frames))
  }

  /** The plan for one action, from the frames collected from its curves:
      skipped exactly when no curve has a keyframe point. The bake opens at
      the ceiling of the first time visited and closes on the LAST collected
      frame, the ceiling of the last time that was appended, not on the
      largest one. */
  function PlanAction(a: Action): (p: ActionPlan)
    ensures p.Skip? <==> !HasKeyframes(a)
    ensures p.BakeAndTrim? ==> p.start == Ceil(Times(a)[0])
    ensures p.BakeAndTrim? ==> p.end == Collect(Times(a))[|Collect(Times(a))| - 1]
    ensures p.BakeAndTrim? ==> forall f :: f in p.deletions <==>
      p.start <= f < p.end && f !in Collect(Times(a))
  {
    assert |Times(a)| > 0 ==> Collect(Times(a))[0] == Ceil(Times(a)[0]) by {
      if |Times(a)| > 0 {
        FirstFrameIsFirstTime(Times(a));
      }
    }
    PlanFrames(Collect(Times(a)))
  }

  /** The bake closes on the ceiling of the last time that was appended to
      the frame list: later times, however large, do not move it. */
  lemma BakeEndsOnLastAppendedTime(a: Action)
    requires PlanAction(a).BakeAndTrim?
    ensures exists j {:trigger IsLastAppend(Times(a), j)} :: IsLastAppend(Times(a), j) && PlanAction(a).end == Ceil(Times(a)[j])
  {
    ClosingFrameIsLastAppendedTime(Times(a), PlanAction(a).end);
  }

  /** No keyframe the action had is deleted, and neither is the frame that
      closes the bake range. */
  lemma TrimKeepsOriginalFrames(a: Action)
    requires PlanAction(a).BakeAndTrim?
    ensures forall j :: 0 <= j < |Times(a)| ==> Ceil(Times(a)[j]) !in PlanAction(a).deletions
    ensures PlanAction(a).end !in PlanAction(a).deletions
    ensures PlanAction(a).start !in PlanAction(a).deletions
  {
    EveryTimeIsCollected(Times(a));
  }

  /** The frames that carry a baked key once the bake has keyed every frame
      of `[start, end]` and the deletions have run. Keys the action already
      had outside that range are not tracked. */
  function KeptFrames(p: ActionPlan): set<int>
    requires p.BakeAndTrim?
  {
    set f | p.start <= f <= p.end && f !in p.deletions
  }

  /** Bake then trim restores exactly the collected frames that lie inside
      the bake range. */
  lemma TrimRestoresCollectedFrames(a: Action)
    requires PlanAction(a).BakeAndTrim?
    ensures KeptFrames(PlanAction(a)) ==
      set f | f in Collect(Times(a)) && PlanAction(a).start <= f <= PlanAction(a).end
  {
  }

  /** When the times are visited in non-decreasing order (one curve, or
      curves that never step back), the kept frames are exactly the ceilings
      of the action's keyframe times. */
  lemma SortedActionKeepsEveryFrame(a: Action)
    requires PlanAction(a).BakeAndTrim?
    requires NonDecreasing(Times(a))
    ensures forall f :: f in KeptFrames(PlanAction(a)) <==>
      exists j :: 0 <= j < |Times(a)| && f == Ceil(Times(a)[j])
  {
    var ts := Times(a);
    var fs := Collect(ts);
    var p := PlanAction(a);
    assert p.start == fs[0] && p.end == fs[|fs| - 1];
    SortedTimesCollectSorted(ts);
    CollectedFrameValues(ts);
    forall f | f in fs
      ensures p.start <= f <= p.end
    {
      var i :| 0 <= i < |fs| && fs[i] == f;
      assert fs[0] <= fs[i] <= fs[|fs| - 1];
    }
    TrimRestoresCollectedFrames(a);
    assert forall f :: f in KeptFrames(p) <==> f in fs;
  }

  /** Two curves keyed at {0, 10} and {0, 5}, visited one after the other. */
  function TwoCurveAction(): Action {
    Action("walk", [FCurve([KeyframePoint(0.0, 0.0), KeyframePoint(10.0, 1.0)]),
                    FCurve([KeyframePoint(0.0, 0.0), KeyframePoint(5.0, 1.0)])])
  }

  lemma TwoCurveActionTimes()
    ensures Times(TwoCurveAction()) == [0.0, 10.0, 0.0, 5.0]
  {
    var cs := TwoCurveAction().fcurves;
    assert cs[..1][..0] == [];
    assert CurveTimes(cs[..1]) == [0.0, 10.0];
    assert cs[..2][..1] == cs[..1];
    assert cs[..2] == cs;
  }

  lemma TwoCurveActionFrames()
    ensures Collect([0.0, 10.0, 0.0, 5.0]) == [0, 10, 5]
  {
    var t1, t2, t3, t4 := [0.0], [0.0, 10.0], [0.0, 10.0, 0.0], [0.0, 10.0, 0.0, 5.0];
    assert Collect(t1) == [0] by {
      CollectSnoc([], 0.0);
      assert t1 == [] + [0.0];
    }
    assert Collect(t2) == [0, 10] by {
      CollectSnoc(t1, 10.0);
      assert t2 == t1 + [10.0];
      assert !Listed(10.0, [0]);
    }
    assert Collect(t3) == [0, 10] by {
      CollectSnoc(t2, 0.0);
      assert t3 == t2 + [0.0];
      assert Listed(0.0, [0, 10]);
    }
    CollectSnoc(t3, 5.0);
    assert t4 == t3 + [5.0];
    assert !Listed(5.0, [0, 10]);
  }

  /** The frame list of that action is [0, 10, 5], so the bake runs from
      0 to 5 only and frames 1 to 4 are deleted. */
  lemma LaterCurveShortensBakeRange()
    ensures PlanAction(TwoCurveAction()).BakeAndTrim?
    ensures PlanAction(TwoCurveAction()).start == 0 && PlanAction(TwoCurveAction()).end == 5
    ensures forall f :: f in PlanAction(TwoCurveAction()).deletions <==> 1 <= f <= 4
  {
    var p := PlanAction(TwoCurveAction());
    var fs: seq<int> := [0, 10, 5];
    assert Collect(Times(TwoCurveAction())) == fs by {
      TwoCurveActionTimes();
      TwoCurveActionFrames();
    }
    assert p.start == 0 && p.end == 5;
    assert forall f :: f in fs <==> f == 0 || f == 10 || f == 5;
  }

  /** Frame 10, which that action keys, gets no baked key: the bake never
      reaches it. */
  lemma LateFrameNeverBaked()
    ensures 10 in Collect(Times(TwoCurveAction()))
    ensures PlanAction(TwoCurveAction()).BakeAndTrim?
    ensures 10 !in KeptFrames(PlanAction(TwoCurveAction()))
  {
    LaterCurveShortensBakeRange();
    TwoCurveActionTimes();
    TwoCurveActionFrames();
    assert [0, 10, 5][1] == 10;
    assert PlanAction(TwoCurveAction()).end == 5;
  }

  /** The host events for one planned action: nothing for a skipped action;
      otherwise one bake, first, followed by one deletion per trimmed frame. */
  function PlanEvents(name: string, p: ActionPlan): (evs: seq<Event>)
    ensures |evs| == 0 <==> p.Skip?
    ensures forall i :: 0 <= i < |evs| ==> evs[i].action == name
    ensures p.BakeAndTrim? ==> evs[0] == Baked(name, p.start, p.end)
    ensures forall i :: 1 <= i < |evs| ==> evs[i].KeyframeDeleted?
    ensures forall f :: KeyframeDeleted(name, f) in evs <==> p.BakeAndTrim? && f in p.deletions
  {
    match p
    case Skip => []
    case BakeAndTrim(s, e, dels) =>
      var trims := seq(|dels|, i requires 0 <= i < |dels| => KeyframeDeleted(name, dels[i]));
      assert forall f :: KeyframeDeleted(name, f) in trims <==> f in dels by {
        forall f | f in dels
          ensures KeyframeDeleted(name, f) in trims
        {
          var i :| 0 <= i < |dels| && dels[i] == f;
          assert trims[i] == KeyframeDeleted(name, f);
        }
      }
      [Baked(name, s, e)] + trims
  }

  /** One pass of the loop: constraints are attached first, whatever the
      action; the bake (when there is one) then clears them again. A skipped
      action issues no host operation and leaves its constraint behind. */
  function ProcessAction(bones: seq<Bone>, target: string, a: Action): (r: (seq<Bone>, seq<Event>))
    ensures |r.0| == |bones|
    ensures forall i :: 0 <= i < |bones| ==> SameBone(r.0[i], bones[i])
    ensures forall i :: 0 <= i < |bones| && !bones[i].selected ==> r.0[i] == bones[i]
    ensures forall i :: 0 <= i < |bones| && bones[i].selected ==>
      r.0[i].constraints ==
        (if HasKeyframes(a) then [] else bones[i].constraints + [CopyTransforms(target, bones[i].name)])
    ensures !HasKeyframes(a) ==> r.1 == []
    ensures HasKeyframes(a) ==> |r.1| > 0 && r.1[0] == Baked(a.name, PlanAction(a).start, PlanAction(a).end)
    ensures forall f :: KeyframeDeleted(a.name, f) in r.1 <==> HasKeyframes(a) && f in PlanAction(a).deletions
    ensures forall i :: 0 <= i < |r.1| ==> r.1[i].action == a.name
    ensures forall i :: 1 <= i < |r.1| ==> r.1[i].KeyframeDeleted?
  {
    var attached := AttachCopyTransforms(bones, target);
    var p := PlanAction(a);
    (if p.Skip? then attached else ClearSelectedConstraints(attached), PlanEvents(a.name, p))
  }

  /** The loop over every action, in order. */
  function RunActions(bones: seq<Bone>, target: string, actions: seq<Action>): (r: (seq<Bone>, seq<Event>))
    ensures |r.0| == |bones|
    ensures forall i :: 0 <= i < |bones| ==> SameBone(r.0[i], bones[i])
    decreases |actions|
  {
    if |actions| == 0 then (bones, [])
    else
      var (b, log) := RunActions(bones, target, actions[..|actions| - 1]);
      var (b', more) := ProcessAction(b, target, actions[|actions| - 1]);
      (b', log + more)
  }

  /** Action `a`, named `n`, has keyframes and its plan deletes frame `f`. */
  predicate PlansDeletion(a: Action, n: string, f: int) {
    a.name == n && HasKeyframes(a) && f in PlanAction(a).deletions
  }

  /** Action `a`, named `n`, has keyframes and its plan bakes `[s, e]`. */
  predicate PlansBake(a: Action, n: string, s: int, e: int) {
    a.name == n && HasKeyframes(a) && s == PlanAction(a).start && e == PlanAction(a).end
  }

  /** The events of one action's plan, seen one at a time: a deletion or a
      bake is issued exactly when the plan calls for it. */
  lemma ActionEvents(a: Action, n: string, f: int, s: int, e: int)
    ensures KeyframeDeleted(n, f) in PlanEvents(a.name, PlanAction(a)) <==> PlansDeletion(a, n, f)
    ensures Baked(n, s, e) in PlanEvents(a.name, PlanAction(a)) <==> PlansBake(a, n, s, e)
  {
    var evs := PlanEvents(a.name, PlanAction(a));
    if KeyframeDeleted(n, f) in evs {
      var i :| 0 <= i < |evs| && evs[i] == KeyframeDeleted(n, f);
      assert evs[i].action == a.name;
    }
    if Baked(n, s, e) in evs {
      var i :| 0 <= i < |evs| && evs[i] == Baked(n, s, e);
      assert i == 0;
    }
  }

  /** The log the loop issues, read off the plans alone: the events of each
      action's plan, in action order. */
  function PlannedLog(actions: seq<Action>): seq<Event>
    decreases |actions|
  {
    if |actions| == 0 then []
    else
      var a := actions[|actions| - 1];
      PlannedLog(actions[..|actions| - 1]) + PlanEvents(a.name, PlanAction(a))
  }

  /** What the loop logs does not depend on the bones: it is the planned log. */
  lemma {:induction false} LoopLogIsPlannedLog(bones: seq<Bone>, target: string, actions: seq<Action>)
    ensures RunActions(bones, target, actions).1 == PlannedLog(actions)
    decreases |actions|
  {
    if |actions| > 0 {
      var init := actions[..|actions| - 1];
      LoopLogIsPlannedLog(bones, target, init);
      RunActionsSnoc(bones, target, actions);
    }
  }

  /** Frame `f` of the action named `n` is deleted in the planned log
      exactly when some action of that name plans to delete it. */
  lemma {:induction false} PlannedLogDeletes(actions: seq<Action>, n: string, f: int)
    ensures KeyframeDeleted(n, f) in PlannedLog(actions) <==>
      exists i :: 0 <= i < |actions| && PlansDeletion(actions[i], n, f)
    decreases |actions|
  {
    if |actions| > 0 {
      var init := actions[..|actions| - 1];
      var a := actions[|actions| - 1];
      PlannedLogDeletes(init, n, f);
      ActionEvents(a, n, f, 0, 0);
      if KeyframeDeleted(n, f) in PlannedLog(init) {
        var i :| 0 <= i < |init| && PlansDeletion(init[i], n, f);
        assert actions[i] == init[i];
      }
      if exists i :: 0 <= i < |actions| && PlansDeletion(actions[i], n, f) {
        var i :| 0 <= i < |actions| && PlansDeletion(actions[i], n, f);
        if i < |init| {
          assert init[i] == actions[i];
        }
      }
    }
  }

  /** The action named `n` is baked over `[s, e]` in the planned log exactly
      when some action of that name plans that bake. */
  lemma {:induction false} PlannedLogBakes(actions: seq<Action>, n: string, s: int, e: int)
    ensures Baked(n, s, e) in PlannedLog(actions) <==>
      exists i :: 0 <= i < |actions| && PlansBake(actions[i], n, s, e)
    decreases |actions|
  {
    if |actions| > 0 {
      var init := actions[..|actions| - 1];
      var a := actions[|actions| - 1];
      PlannedLogBakes(init, n, s, e);
      ActionEvents(a, n, 0, s, e);
      if Baked(n, s, e) in PlannedLog(init) {
        var i :| 0 <= i < |init| && PlansBake(init[i], n, s, e);
        assert actions[i] == init[i];
      }
      if exists i :: 0 <= i < |actions| && PlansBake(actions[i], n, s, e) {
        var i :| 0 <= i < |actions| && PlansBake(actions[i], n, s, e);
        if i < |init| {
          assert init[i] == actions[i];
        }
      }
    }
  }

  /** Over the whole loop, frame `f` of the action named `n` is deleted
      exactly when some action of that name plans to delete it. */
  lemma LoopDeletesPlannedFrames(bones: seq<Bone>, target: string, actions: seq<Action>, n: string, f: int)
    ensures KeyframeDeleted(n, f) in RunActions(bones, target, actions).1 <==>
      exists i :: 0 <= i < |actions| && PlansDeletion(actions[i], n, f)
  {
    LoopLogIsPlannedLog(bones, target, actions);
    PlannedLogDeletes(actions, n, f);
  }

  /** Over the whole loop, the action named `n` is baked over `[s, e]`
      exactly when some action of that name plans that bake. */
  lemma LoopBakesPlannedRanges(bones: seq<Bone>, target: string, actions: seq<Action>, n: string, s: int, e: int)
    ensures Baked(n, s, e) in RunActions(bones, target, actions).1 <==>
      exists i :: 0 <= i < |actions| && PlansBake(actions[i], n, s, e)
  {
    LoopLogIsPlannedLog(bones, target, actions);
    PlannedLogBakes(actions, n, s, e);
  }

  /** The names on the bake events of a log, in order. */
  function BakedNames(log: seq<Event>): seq<string>
    decreases |log|
  {
    if |log| == 0 then []
    else BakedNames(log[..|log| - 1]) + (if log[|log| - 1].Baked? then [log[|log| - 1].action] else [])
  }

  lemma {:induction false} BakedNamesAppend(l1: seq<Event>, l2: seq<Event>)
    ensures BakedNames(l1 + l2) == BakedNames(l1) + BakedNames(l2)
    decreases |l2|
  {
    if |l2| == 0 {
      assert l1 + l2 == l1;
    } else {
      var init := l2[..|l2| - 1];
      BakedNamesAppend(l1, init);
      assert (l1 + l2)[..|l1 + l2| - 1] == l1 + init;
    }
  }

  /** The names of the actions that have keyframes, in order. */
  function KeyedNames(actions: seq<Action>): seq<string>
    decreases |actions|
  {
    if |actions| == 0 then []
    else
      var a := actions[|actions| - 1];
      KeyedNames(actions[..|actions| - 1]) + (if HasKeyframes(a) then [a.name] else [])
  }

  /** One more action runs after the ones before it. */
  lemma RunActionsSnoc(bones: seq<Bone>, target: string, actions: seq<Action>)
    requires |actions| > 0
    ensures var before := RunActions(bones, target, actions[..|actions| - 1]);
      var step := ProcessAction(before.0, target, actions[|actions| - 1]);
      RunActions(bones, target, actions) == (step.0, before.1 + step.1)
  {
  }

  /** One pass bakes the action once when it has keyframes, and issues
      nothing otherwise. */
  lemma ProcessActionBakes(bones: seq<Bone>, target: string, a: Action)
    ensures BakedNames(ProcessAction(bones, target, a).1) == if HasKeyframes(a) then [a.name] else []
    ensures !HasKeyframes(a) ==> ProcessAction(bones, target, a).1 == []
  {
    var p := PlanAction(a);
    if p.BakeAndTrim? {
      var dels := seq(|p.deletions|, i requires 0 <= i < |p.deletions| => KeyframeDeleted(a.name, p.deletions[i]));
      assert ProcessAction(bones, target, a).1 == [Baked(a.name, p.start, p.end)] + dels;
      BakedNamesAppend([Baked(a.name, p.start, p.end)], dels);
      NoBakesAmongDeletions(dels);
      assert BakedNames([Baked(a.name, p.start, p.end)]) == [] + [a.name];
    }
  }

  /** Exactly the actions with keyframes are baked, once each and in order. */
  lemma {:induction false} OneBakePerKeyedAction(bones: seq<Bone>, target: string, actions: seq<Action>)
    ensures BakedNames(RunActions(bones, target, actions).1) == KeyedNames(actions)
    decreases |actions|
  {
    if |actions| > 0 {
      var init := actions[..|actions| - 1];
      var a := actions[|actions| - 1];
      OneBakePerKeyedAction(bones, target, init);
      RunActionsSnoc(bones, target, actions);
      var before := RunActions(bones, target, init);
      var step := ProcessAction(before.0, target, a);
      BakedNamesAppend(before.1, step.1);
      ProcessActionBakes(before.0, target, a);
    }
  }

  lemma {:induction false} NoBakesAmongDeletions(dels: seq<Event>)
    requires forall i :: 0 <= i < |dels| ==> dels[i].KeyframeDeleted?
    ensures BakedNames(dels) == []
    decreases |dels|
  {
    if |dels| > 0 {
      NoBakesAmongDeletions(dels[..|dels| - 1]);
    }
  }

  /** How many actions at the end of the list have no keyframes. */
  function TrailingSkips(actions: seq<Action>): nat
    decreases |actions|
  {
    if |actions| == 0 || HasKeyframes(actions[|actions| - 1]) then 0
    else 1 + TrailingSkips(actions[..|actions| - 1])
  }

  /** Starting from unconstrained selected bones, each selected bone ends the
      loop with one COPY_TRANSFORMS per action skipped after the last bake:
      none when the last action was baked, and a stack of identical
      constraints left behind when trailing actions had no keyframes.
      Unselected bones are never touched. */
  lemma {:induction false} ConstraintsLeftByLoop(bones: seq<Bone>, target: string, actions: seq<Action>)
    requires forall i :: 0 <= i < |bones| && bones[i].selected ==> bones[i].constraints == []
    ensures var out := RunActions(bones, target, actions).0;
      forall i :: 0 <= i < |bones| ==>
        out[i].constraints ==
          (if bones[i].selected
           then Repeat(CopyTransforms(target, bones[i].name), TrailingSkips(actions))
           else bones[i].constraints)
    decreases |actions|
  {
    if |actions| > 0 {
      var init := actions[..|actions| - 1];
      var a := actions[|actions| - 1];
      ConstraintsLeftByLoop(bones, target, init);
      RunActionsSnoc(bones, target, actions);
      var b := RunActions(bones, target, init).0;
      var out := ProcessAction(b, target, a).0;
      var attached := AttachCopyTransforms(b, target);
      assert out == if HasKeyframes(a) then ClearSelectedConstraints(attached) else attached;
      forall i | 0 <= i < |bones|
        ensures out[i].constraints ==
          (if bones[i].selected
           then Repeat(CopyTransforms(target, bones[i].name), TrailingSkips(actions))
           else bones[i].constraints)
      {
        assert SameBone(b[i], bones[i]);
      }
    }
  }

  /** What script.py leaves behind. */
  datatype Outcome = Outcome(diagnostics: seq<Diagnostic>, fkBones: seq<Bone>, log: seq<Event>)

  /** script.py stops with an exception only when no armature was selected:
      `fkArmature` is then `None` when its pose bones are selected. */
  datatype Crash = NoFkArmature

  /** The whole script. The FK armature is the duplicate of the selected
      armature: its bones are all selected, stripped of constraints and
      pruned to the deform bones; then every action is processed with the
      original armature as the constraint target. A wrong selection count
      or a missing mesh does not stop it. */
  function Convert(sel: seq<SceneObject>, actions: seq<Action>): (r: Result<Outcome, Failure<Crash>>)
    ensures r.Err? <==> !HasTag(sel, ArmatureTag)
    ensures r.Err? ==> r.error.crash == NoFkArmature && MissingArmature in r.error.diagnostics
    ensures r.Err? ==> r.error.diagnostics == Classify(sel).diagnostics
  {
    var c := Classify(sel);
    match c.armature
    case None => Err(Failure(c.diagnostics, NoFkArmature))
    case Some(original) => Ok(ConvertFrom(original, c.diagnostics, actions))
  }

  /** The part of the script after classification, for a found armature:
      the messages already printed are kept, and the host operations are
      those the actions' plans call for, whatever the bones. */
  function ConvertFrom(original: SceneObject, diagnostics: seq<Diagnostic>, actions: seq<Action>): (o: Outcome)
    ensures o.diagnostics == diagnostics
    ensures o.log == PlannedLog(actions)
  {
    var run := RunActions(FkBones(original), original.name, actions);
    LoopLogIsPlannedLog(FkBones(original), original.name, actions);
    Outcome(diagnostics, run.0, run.1)
  }

  /** The FK armature's bones before the first action: the duplicate's
      bones, all selected, stripped and pruned. */
  function FkBones(original: SceneObject): (fk: seq<Bone>)
    ensures forall k :: 0 <= k < |fk| ==> fk[k].useDeform && fk[k].selected && fk[k].constraints == []
    ensures NamesDeformBones(fk, BonesOf(original))
  {
    var shaped := FkSkeleton(BonesOf(original));
    FkSkeletonNamesDeformBones(BonesOf(original));
    SameNamesKeepDeformNames(SelectAll(shaped), shaped, BonesOf(original));
    SelectAll(shaped)
  }

  /** script.py bakes each action that has keyframes once, in order, and
      prints exactly the diagnostics of the classification. */
  lemma ConvertBakesKeyedActions(sel: seq<SceneObject>, actions: seq<Action>)
    requires HasTag(sel, ArmatureTag)
    ensures Convert(sel, actions).value.diagnostics == Classify(sel).diagnostics
    ensures BakedNames(Convert(sel, actions).value.log) == KeyedNames(actions)
  {
    var original := Classify(sel).armature.value;
    OneBakePerKeyedAction(FkBones(original), original.name, actions);
  }

  /** A run of script.py deletes frame `f` of the action named `n` exactly
      when some action of that name plans to delete it, and bakes `[s, e]`
      for it exactly when some action of that name plans that bake. */
  lemma ConvertLogFollowsPlans(sel: seq<SceneObject>, actions: seq<Action>, n: string, f: int, s: int, e: int)
    requires HasTag(sel, ArmatureTag)
    ensures KeyframeDeleted(n, f) in Convert(sel, actions).value.log <==>
      exists i :: 0 <= i < |actions| && PlansDeletion(actions[i], n, f)
    ensures Baked(n, s, e) in Convert(sel, actions).value.log <==>
      exists i :: 0 <= i < |actions| && PlansBake(actions[i], n, s, e)
  {
    PlannedLogDeletes(actions, n, f);
    PlannedLogBakes(actions, n, s, e);
  }

  /** Every bone is a selected deform bone carrying exactly `n` COPY_TRANSFORMS
      constraints, each aimed at the same-named bone of `target`. */
  predicate DeformWithCopies(bones: seq<Bone>, target: string, n: nat) {
    forall k :: 0 <= k < |bones| ==>
      bones[k].useDeform && bones[k].selected && bones[k].constraints == Repeat(CopyTransforms(target, bones[k].name), n)
  }

  /** After script.py the FK armature holds only selected deform bones, and each
      carries one COPY_TRANSFORMS (aimed at the same-named bone of the
      original armature) per trailing action without keyframes: none at all
      when the last action was baked. */
  lemma ConvertLeavesDeformBones(sel: seq<SceneObject>, actions: seq<Action>)
    requires HasTag(sel, ArmatureTag)
    ensures DeformWithCopies(Convert(sel, actions).value.fkBones,
                             Classify(sel).armature.value.name, TrailingSkips(actions))
    ensures NamesDeformBones(Convert(sel, actions).value.fkBones, BonesOf(Classify(sel).armature.value))
  {
    var c := Classify(sel);
    assert Convert(sel, actions).value == ConvertFrom(c.armature.value, c.diagnostics, actions);
    FkBonesAfterLoop(c.armature.value, actions);
    LoopKeepsDeformNames(c.armature.value, actions);
  }

  /** The action loop leaves the FK bones of `original` deform-only, with
      one COPY_TRANSFORMS per trailing skipped action. */
  lemma FkBonesAfterLoop(original: SceneObject, actions: seq<Action>)
    ensures DeformWithCopies(RunActions(FkBones(original), original.name, actions).0,
                             original.name, TrailingSkips(actions))
  {
    var fk := FkBones(original);
    var bones := RunActions(fk, original.name, actions).0;
    ConstraintsLeftByLoop(fk, original.name, actions);
    assert forall k :: 0 <= k < |bones| ==> SameBone(bones[k], fk[k]);
  }

  /** The action loop keeps one FK bone per deform bone of `original`. */
  lemma LoopKeepsDeformNames(original: SceneObject, actions: seq<Action>)
    ensures NamesDeformBones(RunActions(FkBones(original), original.name, actions).0, BonesOf(original))
  {
    var fk := FkBones(original);
    var bones := RunActions(fk, original.name, actions).0;
    assert forall k :: 0 <= k < |bones| ==> bones[k].name == fk[k].name;
    SameNamesKeepDeformNames(bones, fk, BonesOf(original));
  }
}
