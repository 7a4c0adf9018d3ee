/**
 * Lost-binding detection: scanning every curve of every one of a clip's six
 * curve arrays and recording those whose path does not resolve under the
 * selected root (`FindLostAnimations`), and running that over every clip of
 * the selected object's animator controller (`ValidateAnimation`),
 * AnimationValidator.cs, lines 29-80 and 106-143.
 */
module Validator {
  import opened Wrappers
  import opened Paths
  import opened Hierarchy
  import opened Clips

  /** The attribute name shown for a curve; "Position" when it has no `attribute` field. */
  function AttributeName(c: Curve): string {
    match c.attribute
    case Some(a) => a
    case None => "Position"
  }

  /** The record made for a curve at `h` whose path did not resolve. */
  function MakeLost(h: Handle, c: Curve): (p: LostProperty)
    ensures p.state == FixState.Lost && p.propPath == c.path && p.handle == h
    ensures p.objectName == GetObjectName(c.path) && p.attributeName == AttributeName(c)
  {
    LostProperty(AttributeName(c), GetObjectName(c.path), c.path, h, FixState.Lost)
  }

  /** The test a curve's path fails when it is lost: `root.Find(path)` gives null. */
  function Unresolved(root: Node): string -> bool {
    path => Find(root, path).None?
  }

  /**
   * The records among the first `n` curves of array `g` whose path passes
   * the test `lost`, in order. The scan is stated for any such test; the
   * validator's is `Unresolved(root)`.
   */
  function LostInGroup(lost: string -> bool, g: nat, curves: seq<Curve>, n: nat): seq<LostProperty>
    requires n <= |curves|
  {
    if n == 0 then []
    else
      LostInGroup(lost, g, curves, n - 1)
      + (if lost(curves[n - 1].path) then [MakeLost(Handle(g, n - 1), curves[n - 1])] else [])
  }

  /** The records of the first `m` curve arrays, array by array. */
  function LostUpTo(lost: string -> bool, groups: seq<seq<Curve>>, m: nat): seq<LostProperty>
    requires m <= |groups|
  {
    if m == 0 then []
    else LostUpTo(lost, groups, m - 1) + LostInGroup(lost, m - 1, groups[m - 1], |groups[m - 1]|)
  }

  /** The lost records of a whole clip. */
  function LostBindings(root: Node, groups: seq<seq<Curve>>): seq<LostProperty> {
    LostUpTo(Unresolved(root), groups, |groups|)
  }

  /** Handle order: by array, then by position in the array. */
  predicate Before(a: Handle, b: Handle) {
    a.group < b.group || (a.group == b.group && a.index < b.index)
  }

  /** One more curve of array `g`: its record is added exactly when it fails `lost`. */
  lemma LostInGroupNext(lost: string -> bool, g: nat, curves: seq<Curve>, i: nat)
    requires i < |curves|
    ensures LostInGroup(lost, g, curves, i + 1)
      == LostInGroup(lost, g, curves, i) + (if lost(curves[i].path) then [MakeLost(Handle(g, i), curves[i])] else [])
  {
  }

  /** One more curve array: its records follow those of the arrays before it. */
  lemma LostUpToNext(lost: string -> bool, groups: seq<seq<Curve>>, m: nat)
    requires m < |groups|
    ensures LostUpTo(lost, groups, m + 1) == LostUpTo(lost, groups, m) + LostInGroup(lost, m, groups[m], |groups[m]|)
  {
  }

  /**
   * The scan of curve array `ci` of a clip inside `FindLostAnimations`: a
   * record for each curve, in order, whose path `root.Find` does not resolve.
   */
  method FindLostInArray(root: Node, ci: nat, curves: seq<Curve>) returns (lost: seq<LostProperty>)
    ensures lost == LostInGroup(Unresolved(root), ci, curves, |curves|)
  {
    lost := [];
    for i := 0 to |curves|
      invariant lost == LostInGroup(Unresolved(root), ci, curves, i)
    {
      var curve := curves[i];
      var attribute := AttributeName(curve);
      var path := curve.path;
      var result := Find(root, path);
      LostInGroupNext(Unresolved(root), ci, curves, i);
      assert Unresolved(root)(path) == result.None?;
      if result.None? {
        var record := LostProperty(attribute, GetObjectName(path), path, Handle(ci, i), FixState.Lost);
        assert record == MakeLost(Handle(ci, i), curve);
        lost := lost + [record];
      }
    }
  }

  /**
   * `FindLostAnimations(clip, root)`: one report on the clip holding a
   * record for each curve of the six arrays whose path `root.Find` does not
   * resolve, in array order and then element order.
   */
  method FindLostAnimations(clip: AnimationClip, root: Node) returns (container: ClipValidationContainer)
    ensures fresh(container) && container.clip == clip && container.clipName == clip.name
    ensures container.lostProperties == LostBindings(root, clip.curves)
    ensures container.Valid()
  {
    var groups := clip.curves;
    var lostAnimations: seq<LostProperty> := [];
    for ci := 0 to |CurveNames|
      invariant lostAnimations == LostUpTo(Unresolved(root), groups, ci)
    {
      var lost := FindLostInArray(root, ci, groups[ci]);
      LostUpToNext(Unresolved(root), groups, ci);
      lostAnimations := lostAnimations + lost;
    }
    LostBindingsInClip(root, groups);
    container := new ClipValidationContainer(lostAnimations, clip);
  }

  // ---------------------------------------------------------------------------
  // What the scan records
  // ---------------------------------------------------------------------------

  lemma {:induction false} LostInGroupSound(lost: string -> bool, g: nat, curves: seq<Curve>, n: nat, k: nat)
    requires n <= |curves| && k < |LostInGroup(lost, g, curves, n)|
    ensures var p := LostInGroup(lost, g, curves, n)[k];
      p.handle.group == g && p.handle.index < n
      && p == MakeLost(p.handle, curves[p.handle.index])
      && lost(p.propPath)
  {
    var front := LostInGroup(lost, g, curves, n - 1);
    if k < |front| {
      LostInGroupSound(lost, g, curves, n - 1, k);
    }
  }

  lemma {:induction false} LostInGroupComplete(lost: string -> bool, g: nat, curves: seq<Curve>, n: nat, i: nat)
    requires i < n <= |curves| && lost(curves[i].path)
    ensures MakeLost(Handle(g, i), curves[i]) in LostInGroup(lost, g, curves, n)
  {
    var front := LostInGroup(lost, g, curves, n - 1);
    var whole := LostInGroup(lost, g, curves, n);
    if i < n - 1 {
      LostInGroupComplete(lost, g, curves, n - 1, i);
      var k :| 0 <= k < |front| && front[k] == MakeLost(Handle(g, i), curves[i]);
      assert whole[k] == front[k];
    } else {
      assert whole == front + [MakeLost(Handle(g, i), curves[i])];
      assert whole[|front|] == MakeLost(Handle(g, i), curves[i]);
    }
  }

  lemma {:induction false} LostInGroupOrdered(lost: string -> bool, g: nat, curves: seq<Curve>, n: nat, a: nat, b: nat)
    requires n <= |curves| && a < b < |LostInGroup(lost, g, curves, n)|
    ensures LostInGroup(lost, g, curves, n)[a].handle.index < LostInGroup(lost, g, curves, n)[b].handle.index
  {
    var front := LostInGroup(lost, g, curves, n - 1);
    var whole := LostInGroup(lost, g, curves, n);
    assert whole[a] == front[a];
    if b < |front| {
      LostInGroupOrdered(lost, g, curves, n - 1, a, b);
      assert whole[b] == front[b];
    } else {
      LostInGroupSound(lost, g, curves, n - 1, a);
      assert whole[b] == MakeLost(Handle(g, n - 1), curves[n - 1]);
    }
  }

  /**
   * Every record is in state `Lost`, names a curve of the clip, copies that
   * curve's path, leaf name and attribute name, and that path does not resolve.
   */
  lemma {:induction false} LostBindingsSound(root: Node, groups: seq<seq<Curve>>, k: nat)
    requires k < |LostBindings(root, groups)|
    ensures var p := LostBindings(root, groups)[k];
      ValidHandle(groups, p.handle)
      && p == MakeLost(p.handle, groups[p.handle.group][p.handle.index])
      && Find(root, p.propPath).None?
  {
    LostUpToSound(Unresolved(root), groups, |groups|, k);
  }

  /** Every record points at a curve of the clip. */
  lemma LostBindingsInClip(root: Node, groups: seq<seq<Curve>>)
    ensures forall k :: 0 <= k < |LostBindings(root, groups)| ==> ValidHandle(groups, LostBindings(root, groups)[k].handle)
  {
    forall k | 0 <= k < |LostBindings(root, groups)|
      ensures ValidHandle(groups, LostBindings(root, groups)[k].handle)
    {
      LostBindingsSound(root, groups, k);
    }
  }

  lemma {:induction false} LostUpToSound(lost: string -> bool, groups: seq<seq<Curve>>, m: nat, k: nat)
    requires m <= |groups| && k < |LostUpTo(lost, groups, m)|
    ensures var p := LostUpTo(lost, groups, m)[k];
      p.handle.group < m && ValidHandle(groups, p.handle)
      && p == MakeLost(p.handle, groups[p.handle.group][p.handle.index])
      && lost(p.propPath)
  {
    var front := LostUpTo(lost, groups, m - 1);
    if k < |front| {
      LostUpToSound(lost, groups, m - 1, k);
    } else {
      LostInGroupSound(lost, m - 1, groups[m - 1], |groups[m - 1]|, k - |front|);
    }
  }

  /** Every curve, in every one of the six arrays, whose path does not resolve is recorded. */
  lemma {:induction false} LostBindingsComplete(root: Node, groups: seq<seq<Curve>>, g: nat, i: nat)
    requires ValidHandle(groups, Handle(g, i)) && Find(root, groups[g][i].path).None?
    ensures MakeLost(Handle(g, i), groups[g][i]) in LostBindings(root, groups)
  {
    LostUpToComplete(Unresolved(root), groups, |groups|, g, i);
  }

  lemma {:induction false} LostUpToComplete(lost: string -> bool, groups: seq<seq<Curve>>, m: nat, g: nat, i: nat)
    requires g < m <= |groups| && i < |groups[g]| && lost(groups[g][i].path)
    ensures MakeLost(Handle(g, i), groups[g][i]) in LostUpTo(lost, groups, m)
  {
    var front := LostUpTo(lost, groups, m - 1);
    var group := LostInGroup(lost, m - 1, groups[m - 1], |groups[m - 1]|);
    var whole := LostUpTo(lost, groups, m);
    assert whole == front + group;
    var x := MakeLost(Handle(g, i), groups[g][i]);
    if g < m - 1 {
      LostUpToComplete(lost, groups, m - 1, g, i);
      InLeft(front, group, x);
    } else {
      LostInGroupComplete(lost, g, groups[g], |groups[g]|, i);
      InRight(front, group, x);
    }
  }

  lemma InLeft(a: seq<LostProperty>, b: seq<LostProperty>, x: LostProperty)
    requires x in a
    ensures x in a + b
  {
    var k :| 0 <= k < |a| && a[k] == x;
    assert (a + b)[k] == x;
  }

  lemma InRight(a: seq<LostProperty>, b: seq<LostProperty>, x: LostProperty)
    requires x in b
    ensures x in a + b
  {
    var k :| 0 <= k < |b| && b[k] == x;
    assert (a + b)[|a| + k] == x;
  }

  /** Records come in handle order, so no two of them point at the same curve. */
  lemma {:induction false} LostBindingsOrdered(root: Node, groups: seq<seq<Curve>>, a: nat, b: nat)
    requires a < b < |LostBindings(root, groups)|
    ensures Before(LostBindings(root, groups)[a].handle, LostBindings(root, groups)[b].handle)
  {
    LostUpToOrdered(Unresolved(root), groups, |groups|, a, b);
  }

  lemma {:induction false} LostUpToOrdered(lost: string -> bool, groups: seq<seq<Curve>>, m: nat, a: nat, b: nat)
    requires m <= |groups| && a < b < |LostUpTo(lost, groups, m)|
    ensures Before(LostUpTo(lost, groups, m)[a].handle, LostUpTo(lost, groups, m)[b].handle)
  {
    var front := LostUpTo(lost, groups, m - 1);
    if b < |front| {
      LostUpToOrdered(lost, groups, m - 1, a, b);
      LostUpToPrefix(lost, groups, m, a);
      LostUpToPrefix(lost, groups, m, b);
    } else if a >= |front| {
      OrderedInLastGroup(lost, groups, m, a - |front|, b - |front|);
      LostUpToSuffix(lost, groups, m, a);
      LostUpToSuffix(lost, groups, m, b);
    } else {
      LostUpToGroups(lost, groups, m - 1, a);
      LostUpToPrefix(lost, groups, m, a);
      LostUpToSuffix(lost, groups, m, b);
      LostInGroupGroup(lost, m - 1, groups[m - 1], |groups[m - 1]|, b - |front|);
    }
  }

  /** The records of the first `m - 1` arrays keep their positions among those of `m`. */
  lemma LostUpToPrefix(lost: string -> bool, groups: seq<seq<Curve>>, m: nat, k: nat)
    requires 0 < m <= |groups| && k < |LostUpTo(lost, groups, m - 1)|
    ensures k < |LostUpTo(lost, groups, m)|
    ensures LostUpTo(lost, groups, m)[k] == LostUpTo(lost, groups, m - 1)[k]
  {
  }

  /** The records of array `m - 1` follow those of the arrays before it. */
  lemma LostUpToSuffix(lost: string -> bool, groups: seq<seq<Curve>>, m: nat, k: nat)
    requires 0 < m <= |groups| && |LostUpTo(lost, groups, m - 1)| <= k < |LostUpTo(lost, groups, m)|
    ensures LostUpTo(lost, groups, m)[k]
         == LostInGroup(lost, m - 1, groups[m - 1], |groups[m - 1]|)[k - |LostUpTo(lost, groups, m - 1)|]
  {
  }

  /** Two records of the same array are in element order. */
  lemma OrderedInLastGroup(lost: string -> bool, groups: seq<seq<Curve>>, m: nat, a: nat, b: nat)
    requires 0 < m <= |groups|
    requires a < b < |LostInGroup(lost, m - 1, groups[m - 1], |groups[m - 1]|)|
    ensures var group := LostInGroup(lost, m - 1, groups[m - 1], |groups[m - 1]|);
      Before(group[a].handle, group[b].handle)
  {
    LostInGroupOrdered(lost, m - 1, groups[m - 1], |groups[m - 1]|, a, b);
    LostInGroupGroup(lost, m - 1, groups[m - 1], |groups[m - 1]|, a);
    LostInGroupGroup(lost, m - 1, groups[m - 1], |groups[m - 1]|, b);
  }

  /** Records of array `g` carry `g` as their handle's group. */
  lemma {:induction false} LostInGroupGroup(lost: string -> bool, g: nat, curves: seq<Curve>, n: nat, k: nat)
    requires n <= |curves| && k < |LostInGroup(lost, g, curves, n)|
    ensures LostInGroup(lost, g, curves, n)[k].handle.group == g
  {
    LostInGroupSound(lost, g, curves, n, k);
  }

  /** Records of the first `m` arrays carry a group below `m`. */
  lemma {:induction false} LostUpToGroups(lost: string -> bool, groups: seq<seq<Curve>>, m: nat, k: nat)
    requires m <= |groups| && k < |LostUpTo(lost, groups, m)|
    ensures LostUpTo(lost, groups, m)[k].handle.group < m
  {
    LostUpToSound(lost, groups, m, k);
  }

  /**
   * A fresh report has no error exactly when nothing was lost, that is when
   * every curve of the clip resolves.
   */
  lemma FreshReportHasNoErrorIffAllResolve(root: Node, groups: seq<seq<Curve>>)
    ensures NoError(LostBindings(root, groups))
        <==> forall g, i :: 0 <= g < |groups| && 0 <= i < |groups[g]| ==> Find(root, groups[g][i].path).Some?
  {
    var lost := LostBindings(root, groups);
    if |lost| > 0 {
      LostBindingsSound(root, groups, 0);
    }
    if exists g, i :: 0 <= g < |groups| && 0 <= i < |groups[g]| && Find(root, groups[g][i].path).None? {
      var g, i :| 0 <= g < |groups| && 0 <= i < |groups[g]| && Find(root, groups[g][i].path).None?;
      LostBindingsComplete(root, groups, g, i);
    }
  }

  // ---------------------------------------------------------------------------
  // Clip enumeration (ValidateAnimation)
  // ---------------------------------------------------------------------------

  /**
   * A state machine layer: the motion of each of its top-level states, when
   * that motion is a clip. States of sub-state machines are not listed, and a
   * blend tree is not a clip.
   */
  datatype Layer = Layer(states: seq<Option<AnimationClip>>)

  datatype AnimatorController = AnimatorController(layers: seq<Layer>)

  /** An Animator component; its runtime controller, when that is an animator controller. */
  datatype Animator = Animator(controller: Option<AnimatorController>)

  /** The selected game object: its transform hierarchy and its Animator component, if any. */
  datatype GameObject = GameObject(transform: Node, animator: Option<Animator>)

  /** The controller validation works on, or None when one of the checks stops it. */
  function ControllerOf(selection: Option<GameObject>): Option<AnimatorController> {
    match selection
    case None => Option.None
    case Some(go) =>
      match go.animator
      case None => Option.None
      case Some(a) => a.controller
  }

  /** The clips of the first `j` states, skipping states whose motion is not a clip. */
  function StateClips(states: seq<Option<AnimationClip>>, j: nat): seq<AnimationClip>
    requires j <= |states|
  {
    if j == 0 then []
    else StateClips(states, j - 1) + (if states[j - 1].Some? then [states[j - 1].value] else [])
  }

  /** The clips of the given layers, layer by layer, then state by state. */
  function LayerClips(layers: seq<Layer>): seq<AnimationClip> {
    if layers == [] then []
    else
      var last := layers[|layers| - 1];
      LayerClips(layers[..|layers| - 1]) + StateClips(last.states, |last.states|)
  }

  /** The reports `ValidateAnimation` is to produce, one per clip, in the same order. */
  ghost predicate ReportsFor(reports: seq<ClipValidationContainer>, clips: seq<AnimationClip>, root: Node)
    reads set k | 0 <= k < |reports| :: reports[k]
    reads set k | 0 <= k < |reports| :: reports[k].clip
  {
    && |reports| == |clips|
    && forall k :: 0 <= k < |reports| ==>
      && reports[k].clip == clips[k]
      && reports[k].clipName == clips[k].name
      && reports[k].lostProperties == LostBindings(root, clips[k].curves)
      && reports[k].Valid()
  }

  /** One more clip's report extends the reports for the clips before it. */
  lemma ReportsForAppend(
    reports: seq<ClipValidationContainer>, clips: seq<AnimationClip>, root: Node, report: ClipValidationContainer)
    requires ReportsFor(reports, clips, root)
    requires report.clipName == report.clip.name && report.Valid()
    requires report.lostProperties == LostBindings(root, report.clip.curves)
    ensures ReportsFor(reports + [report], clips + [report.clip], root)
  {
  }

  /** The clips of the first `i + 1` layers: those of the first `i`, then layer `i`'s. */
  lemma LayerClipsStep(layers: seq<Layer>, i: nat)
    requires i < |layers|
    ensures LayerClips(layers[..i + 1]) == LayerClips(layers[..i]) + StateClips(layers[i].states, |layers[i].states|)
  {
    assert layers[..i + 1][..i] == layers[..i];
  }

  /**
   * The states of one layer inside `ValidateAnimation`: a fresh report for
   * each clip-valued state, in order, appended to the reports so far.
   */
  method ValidateLayer(
    states: seq<Option<AnimationClip>>, root: Node,
    reports: seq<ClipValidationContainer>, ghost clips: seq<AnimationClip>)
    returns (reports': seq<ClipValidationContainer>, ghost clips': seq<AnimationClip>)
    requires ReportsFor(reports, clips, root)
    ensures clips' == clips + StateClips(states, |states|)
    ensures |reports'| >= |reports| && reports'[..|reports|] == reports
    ensures forall k :: |reports| <= k < |reports'| ==> fresh(reports'[k])
    ensures ReportsFor(reports', clips', root)
  {
    reports', clips' := reports, clips;
    for j := 0 to |states|
      invariant clips' == clips + StateClips(states, j)
      invariant |reports'| >= |reports| && reports'[..|reports|] == reports
      invariant forall k :: |reports| <= k < |reports'| ==> fresh(reports'[k])
      invariant ReportsFor(reports', clips', root)
    {
      var clip := states[j];
      if clip.None? {
        assert StateClips(states, j + 1) == StateClips(states, j);
        continue;
      }
      var validationData := FindLostAnimations(clip.value, root);
      ReportsForAppend(reports', clips', root, validationData);
      assert clips + StateClips(states, j + 1) == clips' + [clip.value];
      reports' := reports' + [validationData];
      clips' := clips' + [clip.value];
    }
  }

  /**
   * `ValidateAnimation()`: nothing when no object is selected, it has no
   * Animator or that has no animator controller; otherwise one fresh report
   * per clip-valued state, layer by layer and state by state (a clip used by
   * two states is reported twice).
   */
  method ValidateAnimation(selection: Option<GameObject>) returns (r: Option<seq<ClipValidationContainer>>)
    ensures r.None? <==> ControllerOf(selection).None?
    ensures r.Some? ==>
      && (forall k :: 0 <= k < |r.value| ==> fresh(r.value[k]))
      && ReportsFor(r.value, LayerClips(ControllerOf(selection).value.layers), selection.value.transform)
  {
    if selection.None? {
      return Option.None;
    }
    var selectedTransform := selection.value.transform;
    if selection.value.animator.None? {
      return Option.None;
    }
    var animationController := selection.value.animator.value.controller;
    if animationController.None? {
      return Option.None;
    }
    var layers := animationController.value.layers;
    var clipValidations: seq<ClipValidationContainer> := [];
    ghost var clips: seq<AnimationClip> := [];
    for i := 0 to |layers|
      invariant clips == LayerClips(layers[..i])
      invariant forall k :: 0 <= k < |clipValidations| ==> fresh(clipValidations[k])
      invariant ReportsFor(clipValidations, clips, selectedTransform)
    {
      clipValidations, clips := ValidateLayer(layers[i].states, selectedTransform, clipValidations, clips);
      LayerClipsStep(layers, i);
    }
    assert layers[..|layers|] == layers;
    r := Some(clipValidations);
  }
}
