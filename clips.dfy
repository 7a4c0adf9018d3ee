/**
 * What the validator reads and writes: an animation clip's six serialized
 * curve arrays, the fix state of a binding, the record of a lost binding
 * (`LostProperty`) and the per-clip report (`ClipValidationContainer`), from
 * AnimationValidator.cs, lines 14-24 and 251-307.
 */
module Clips {
  import opened Wrappers

  /** The serialized curve arrays of a clip, in the order they are scanned. */
  const CurveNames: seq<string> :=
    ["m_PositionCurves", "m_ScaleCurves", "m_FloatCurves", "m_PPtrCurves", "m_EditorCurves", "m_EulerEditorCurves"]

  /**
   * One element of a curve array, as far as the validator looks at it: its
   * `path` field and its `attribute` field, which some curve kinds lack.
   */
  datatype Curve = Curve(path: string, attribute: Option<string>)

  /** The six curve arrays, one per name in `CurveNames`. */
  type CurveGroups = g: seq<seq<Curve>> | |g| == 6 witness [[], [], [], [], [], []]


  /**
   * An animation clip asset seen through its serialized form: writes to a
   * curve's `path` land in `curves` (the edit and its commit are one step).
   */
  class AnimationClip {
    const name: string
    var curves: CurveGroups

    constructor (name: string, curves: CurveGroups)
      ensures this.name == name && this.curves == curves
    {
      this.name := name;
      this.curves := curves;
    }
  }

  /** Where a curve sits: which of the six arrays, and which element of it. */
  datatype Handle = Handle(group: nat, index: nat)

  predicate ValidHandle(curves: seq<seq<Curve>>, h: Handle) {
    h.group < |curves| && h.index < |curves[h.group]|
  }

  /** Every record points at a curve of `curves`. */
  predicate HandlesIn(curves: seq<seq<Curve>>, ps: seq<LostProperty>) {
    forall k :: 0 <= k < |ps| ==> ValidHandle(curves, ps[k].handle)
  }

  /** Same number of arrays and the same length for each: what path writes keep. */
  predicate SameShape(a: seq<seq<Curve>>, b: seq<seq<Curve>>) {
    |a| == |b| && forall g :: 0 <= g < |a| ==> |a[g]| == |b[g]|
  }

  /** Writing `path` into the `path` field of the curve at `h`; nothing else changes. */
  function SetPath(curves: seq<seq<Curve>>, h: Handle, path: string): (r: seq<seq<Curve>>)
    requires ValidHandle(curves, h)
    ensures SameShape(r, curves)
    ensures r[h.group][h.index] == curves[h.group][h.index].(path := path)
    ensures forall g, i | 0 <= g < |r| && 0 <= i < |r[g]| && (g, i) != (h.group, h.index) ::
      r[g][i] == curves[g][i]
  {
    curves[h.group := curves[h.group][h.index := curves[h.group][h.index].(path := path)]]
  }

  /** The fix state of a binding; `None` is the initial value of the field. */
  datatype FixState = None | Lost | ErrorNoSameName | ErrorDuplicate | Fixed

  /**
   * A binding whose path did not resolve: its attribute name, its leaf
   * object name and path as found, the location of its serialized `path`
   * field in the clip, and its current state.
   */
  datatype LostProperty = LostProperty(
    attributeName: string,
    objectName: string,
    propPath: string,
    handle: Handle,
    state: FixState)

  /** `HasNoError` of a report with these bindings: none, or every one fixed. */
  predicate NoError(props: seq<LostProperty>) {
    |props| == 0 || forall i :: 0 <= i < |props| ==> props[i].state == FixState.Fixed
  }

  /** The report on one clip: its name, its clip and its lost bindings. */
  class ClipValidationContainer {
    const clipName: string
    const clip: AnimationClip
    var lostProperties: seq<LostProperty>

    /** Every lost binding points at a curve of this report's clip. */
    ghost predicate Valid()
      reads this, clip
    {
      HandlesIn(clip.curves, lostProperties)
    }

    predicate HasNoError()
      reads this
    {
      NoError(lostProperties)
    }

    constructor (lostAnims: seq<LostProperty>, clip: AnimationClip)
      ensures this.lostProperties == lostAnims && this.clip == clip && this.clipName == clip.name
    {
      lostProperties := lostAnims;
      this.clip := clip;
      clipName := clip.name;
    }
  }
}
