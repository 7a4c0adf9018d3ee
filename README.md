# AnimationValidator, modelled in Dafny

AnimationValidator is a Unity editor extension that finds broken bindings
in a character's animation clips and repairs them. An animation clip stores,
for every animated property, a `path` such as `Arm/Hand` naming a transform
below the animated object. When an object is renamed or moved, those paths
stop resolving. The "lost" bindings remain.

This project models the reconciliation logic of
`AnimationValidator.cs` and proves what it does:

- **Validation** (`ValidateAnimation`, `FindLostAnimations`) goes through
  every clip that is the motion of a top-level state of a layer of the
  selected object's animator controller, layer by layer and then state by
  state. For each clip it scans the six serialized curve
  arrays (`CurveNames`) and records every curve whose path `root.Find`
  does not resolve. Each record is a `LostProperty` in state `Lost`, kept
  in one `ClipValidationContainer` report per clip.
- **Hierarchy flattening** (`GetChildren`, `GetAllObjects`,
  `ParentRelativePath`, `PathModel`, `GetChildObjectNames`) lists every
  descendant of the selected object in pre-order, each with its
  root-relative path.
- **Recovery** (`Recovery`, `ExecuteUnitRecovery`, `ExecuteAllRecovery`)
  matches each lost record against candidates with the same leaf name
  (`GetObjectName`). No match gives `ErrorNoSameName`, and two or more give
  `ErrorDuplicate`. Exactly one match gives `Fixed` and rewrites the
  curve's serialized path to that candidate's relative path.
- **Report state** (`HasNoError`, `FixState`).

## Modules

| Module | File | Contents |
|---|---|---|
| `Wrappers` | `wrappers.dfy` | `Option` |
| `Paths` | `paths.dfy` | `Split` (C#'s `Split('/')`), `Join`, `GetObjectName` and its lemmas |
| `Hierarchy` | `hierarchy.dfy` | the transform tree `Node`, `Find` (a child-name walk), pre-order flattening, `ParentRelativePath`, `PathModel` and the candidate list |
| `Clips` | `clips.dfy` | curves; the `AnimationClip` class, whose six curve arrays are updated in place; `FixState`; `LostProperty`; the `ClipValidationContainer` class |
| `Validator` | `validator.dfy` | `FindLostAnimations`, `ValidateAnimation` and what the scan records |
| `Recovery` | `recovery.dfy` | the matching outcome, the path writes, `Recovery`, `ExecuteUnitRecovery` and `ExecuteAllRecovery` |

### How the source's state is modelled

- A `Transform` hierarchy is a value tree: `Node(name, children)`.
- A flattened descendant carries the names of its ancestors, from the
  selected root (inclusive) down to its parent. This `Located` value is
  what `ParentRelativePath` reads of the `parent` chain.
- `ParentRelativePathIgnoresAbove` proves that nothing above the selected
  root affects the result.
- An asset's `SerializedObject` and the `SerializedProperty` of each curve
  are modelled as the clip's `curves` field, six sequences of
  `Curve(path, attribute)`.
- Writing `stringValue` and then `ApplyModifiedProperties` is one
  assignment to `curves`.
- A `LostProperty` locates its serialized property by a
  `Handle(group, index)` into those arrays.
- The source's report stores only the records and `ClipName`
  (`AnimationValidator.cs:253-257`). The model's report also has a `clip`
  field. It stands for the `SerializedClip` that every one of the report's
  records carries: the clip whose curves the handles index.
- Each report's `lostProperties` is a sequence field. `Recovery`
  reassigns its elements with the new states.
- `ClipValidationContainer.Valid()` states the invariant that makes the
  handles meaningful: every record points at a curve of the report's clip.
  `FindLostAnimations` establishes it and every recovery keeps it.
- Where the source loops, the model has a method with a loop. Each such
  method is proved against a specification function:
  - `LostBindings` for the scan;
  - `Descendants` for the flattening;
  - `Candidates` for the candidate list;
  - `RecoverAll` and `WriteFixes` for recovery.
- The source nests two loops in `FindLostAnimations` and two in
  `ValidateAnimation`. Each inner loop is its own method,
  `FindLostInArray` and `ValidateLayer`, and the outer loop calls it.

### Reports per state

One report is made per state whose motion is a clip
(`AnimationValidator.cs:69-76`). A clip without curves still gets a
report, and a clip used by two states gets two.

### Paths that do not resolve

- An empty path splits into one empty segment. It resolves only when the
  root has a child called "". So a curve on the selected object itself is
  always recorded as lost (`Hierarchy.EmptyPathUnresolved`).
- `ParentRelativePath` stops at the nearest ancestor named like the root.
  An intermediate node with the root's name therefore shortens a
  candidate's path. `Recovery` can then mark a record `Fixed` with a path
  that `root.Find` does not resolve. `Recovery.TruncatedFixUnresolved`
  shows this for the tree `Root` → `Root` → `Hand`: the candidate `Hand`
  gets the path "Hand". This is why `Recovery.FixedPathResolves` assumes
  a plain path.

## Model

| member | source | states |
|---|---|---|
| Paths.LeafName | Assets/StaTech/AnimationValidator/Editor/AnimationValidator.cs:182-189 | the leaf name holds no '/', is a suffix of the path, and is the whole path or preceded by a '/': it is the text after the last separator ("" for an empty path) |
| Paths.LeafAfterSeparator | Assets/StaTech/AnimationValidator/Editor/AnimationValidator.cs:186-188 | for any prefix, the leaf name of `prefix/name` is `name` when `name` holds no '/' |
| Paths.SplitJoin | Assets/StaTech/AnimationValidator/Editor/AnimationValidator.cs:186 | splitting segments joined by '/' gives the segments back when none holds a '/' |
| Paths.JoinSplit | Assets/StaTech/AnimationValidator/Editor/AnimationValidator.cs:186 | joining the segments of `Split('/')` with '/' gives the path back |
| Hierarchy.FirstChild | Assets/StaTech/AnimationValidator/Editor/AnimationValidator.cs:123 | one step of the path walk: no index exactly when no child has the name; otherwise the first child with it |
| Hierarchy.FoundNodeHasLeafName | Assets/StaTech/AnimationValidator/Editor/AnimationValidator.cs:123 | whatever `root.Find(path)` resolves to is named by the path's leaf name |
| Hierarchy.GetChildren | Assets/StaTech/AnimationValidator/Editor/AnimationValidator.cs:210-220 | appends exactly the descendants of `obj` (not `obj` itself) to the accumulator, in pre-order, each child before its subtree |
| Hierarchy.GetAllObjects | Assets/StaTech/AnimationValidator/Editor/AnimationValidator.cs:202-208 | all descendants of the object, in pre-order, starting from an empty list |
| Hierarchy.ParentRelativePathEndsWith | Assets/StaTech/AnimationValidator/Editor/AnimationValidator.cs:222-236 | the relative path always ends with the path passed in |
| Hierarchy.ParentRelativePathIsJoin | Assets/StaTech/AnimationValidator/Editor/AnimationValidator.cs:222-236 | the relative path is the ancestor names below the nearest ancestor called `rootName` (all of them when none is), then the path, joined by '/' |
| Hierarchy.ParentRelativePathIgnoresAbove | Assets/StaTech/AnimationValidator/Editor/AnimationValidator.cs:224-235 | ancestors above the selected root, which is called `rootName`, never change the result |
| Hierarchy.SameNamedAncestorTruncates | Assets/StaTech/AnimationValidator/Editor/AnimationValidator.cs:232 | an intermediate node called like the root cuts the path short (`Root/Body/Root/Arm/Hand` gives `Arm/Hand`, `Root/Body/Arm/Hand` gives `Body/Arm/Hand`) |
| Hierarchy.EmptyPathUnresolved | Assets/StaTech/AnimationValidator/Editor/AnimationValidator.cs:122-124 | an empty path resolves iff the root has a child called "", so a binding on the selected object itself is recorded as lost |
| Hierarchy.TruncatedPathUnresolved | Assets/StaTech/AnimationValidator/Editor/AnimationValidator.cs:232 | under `Root` with a child `Root` holding `Hand`, the candidate `Hand` gets the path "Hand", which `Find` does not resolve from the root |
| Hierarchy.GetChildObjectNames | Assets/StaTech/AnimationValidator/Editor/AnimationValidator.cs:191-200 | one path model per descendant, in pre-order, built from the descendant and the root's name |
| Hierarchy.CandidatePath | Assets/StaTech/AnimationValidator/Editor/AnimationValidator.cs:243-247 | a candidate carries its object's name. Its path is the names between the root and the object, then the object's name, joined by '/'. When a node in between is called like the root, the path holds only the names below the nearest such node |
| Hierarchy.CandidateResolves | Assets/StaTech/AnimationValidator/Editor/AnimationValidator.cs:243-247 | with unique sibling names, no '/' in names and no root-named node on the way, `root.Find` of a candidate's relative path gives that candidate's node back |
| Clips.SetPath | Assets/StaTech/AnimationValidator/Editor/AnimationValidator.cs:177-178 | writing a curve's `path` changes that field of that curve and nothing else, keeping every array's length |
| Clips.ClipValidationContainer.constructor | Assets/StaTech/AnimationValidator/Editor/AnimationValidator.cs:253-257 | the report holds the given records, the clip and the clip's name |
| Validator.MakeLost | Assets/StaTech/AnimationValidator/Editor/AnimationValidator.cs:120-134 | a lost record is in state `Lost` and carries the curve's path, its leaf name and its attribute name ("Position" when the curve has no attribute) |
| Validator.FindLostInArray | Assets/StaTech/AnimationValidator/Editor/AnimationValidator.cs:113-137 | the scan of one curve array gives the records of exactly its unresolved curves, in element order |
| Validator.FindLostAnimations | Assets/StaTech/AnimationValidator/Editor/AnimationValidator.cs:106-143 | a fresh report on the clip (its name, the clip) whose records are exactly `LostBindings` of the clip's six arrays, each pointing into the clip |
| Validator.LostBindingsSound | Assets/StaTech/AnimationValidator/Editor/AnimationValidator.cs:123-135 | every record names a curve of the clip, copies its path, leaf name and attribute, is in state `Lost`, and its path does not resolve |
| Validator.LostBindingsComplete | Assets/StaTech/AnimationValidator/Editor/AnimationValidator.cs:111-137 | every curve of every one of the six arrays whose path does not resolve has its record |
| Validator.LostBindingsOrdered | Assets/StaTech/AnimationValidator/Editor/AnimationValidator.cs:111-116 | records come in array order, then element order |
| Validator.LostBindingsInClip | Assets/StaTech/AnimationValidator/Editor/AnimationValidator.cs:117-131 | every record's handle is a valid position in the clip's curve arrays |
| Validator.FreshReportHasNoErrorIffAllResolve | Assets/StaTech/AnimationValidator/Editor/AnimationValidator.cs:264-267 | a report straight from validation has no error iff every curve of the clip resolves |
| Validator.ValidateLayer | Assets/StaTech/AnimationValidator/Editor/AnimationValidator.cs:69-76 | appends one fresh report per clip-valued state of a layer, in state order, skipping states whose motion is not a clip, and keeps the earlier reports |
| Validator.ValidateAnimation | Assets/StaTech/AnimationValidator/Editor/AnimationValidator.cs:29-80 | no result iff there is no selection, no Animator or no animator controller. Otherwise one fresh report per clip-valued state, layer by layer then state by state, each holding that clip's `LostBindings` |
| Recovery.SameNameCount | Assets/StaTech/AnimationValidator/Editor/AnimationValidator.cs:151-152 | the name filter keeps nothing iff no candidate has the name, and two or more iff two candidates have it. When it keeps one, that is the only candidate with the name |
| Recovery.RecoverOutcome | Assets/StaTech/AnimationValidator/Editor/AnimationValidator.cs:158-176 | `ErrorNoSameName` iff no candidate shares the leaf name; `ErrorDuplicate` iff two do; `Fixed` iff exactly one does, and a path is written iff `Fixed` (the unique candidate's relative path); attribute, object name and path of the record never change |
| Recovery.NoErrorAfterRecovery | Assets/StaTech/AnimationValidator/Editor/AnimationValidator.cs:264-267 | after recovery a report has no error iff every one of its records had exactly one same-named candidate |
| Recovery.RecoverAllIdempotent | Assets/StaTech/AnimationValidator/Editor/AnimationValidator.cs:148-179 | recovering the recovered records again with the same candidates changes no state |
| Recovery.LostBindingsDistinct | Assets/StaTech/AnimationValidator/Editor/AnimationValidator.cs:111-137 | no two records of a fresh report point at the same curve |
| Recovery.WriteFixesAt | Assets/StaTech/AnimationValidator/Editor/AnimationValidator.cs:173-178 | after the writes each curve holds the last path written at it, or its old value when nothing was |
| Recovery.WriteFixesOwnCell | Assets/StaTech/AnimationValidator/Editor/AnimationValidator.cs:158-178 | with one record per curve, a record's curve ends with the unique candidate's path when it is fixed, and is unchanged when it ends in an error state |
| Recovery.WriteFixesOtherCell | Assets/StaTech/AnimationValidator/Editor/AnimationValidator.cs:148-179 | a curve that no record points at is never written |
| Recovery.WriteFixesIdempotent | Assets/StaTech/AnimationValidator/Editor/AnimationValidator.cs:148-179 | re-running the writes of the recovered records on the repaired curves changes nothing |
| Recovery.FixedPathResolves | Assets/StaTech/AnimationValidator/Editor/AnimationValidator.cs:173-177 | a `Fixed` record's written path is the relative path of the one descendant with its leaf name. With unique sibling names and a plain path, the written path's leaf name is the record's object name and `root.Find` resolves it to that descendant |
| Recovery.TruncatedFixUnresolved | Assets/StaTech/AnimationValidator/Editor/AnimationValidator.cs:173-177 | without a plain path a record is marked `Fixed` with a path that `root.Find` does not resolve (the tree `Root` → `Root` → `Hand`) |
| Recovery.Recovery | Assets/StaTech/AnimationValidator/Editor/AnimationValidator.cs:145-180 | the report's records become `RecoverAll` of the old ones and the clip's curves become `WriteFixes` of the old curves and records; the report stays valid |
| Recovery.ExecuteUnitRecovery | Assets/StaTech/AnimationValidator/Editor/AnimationValidator.cs:82-88 | recovery of one report against the candidates of the selected hierarchy, with the same outcome as `Recovery` |
| Recovery.RecoverReport | Assets/StaTech/AnimationValidator/Editor/AnimationValidator.cs:95-98 | recovering report `i` of the list advances the batch invariant from `i` to `i + 1` |
| Recovery.ExecuteAllRecovery | Assets/StaTech/AnimationValidator/Editor/AnimationValidator.cs:90-104 | every report's records become `RecoverAll` of its old records against one candidate list, and every report stays valid. A clip only one report works on ends with that report's writes |

## Left out

- `AnimationValidatorView.cs` is not part of this model: it is drawing, icons and window life-cycle.
- `Selection`, `GetComponent<Animator>` and the cast of a runtime controller to an `AnimatorController` become the input `Option<GameObject>`, whose animator and controller are optional values.
- A state's motion cast to a clip becomes an optional clip per state.
- `Layer.states` stands for the top-level states of a layer's state machine (`layer.stateMachine.states`, the only states the source reads). Sub-state machines and the clips inside blend trees are not modelled: the source never visits them, and a blend tree fails the cast to a clip.
- `EditorUtility.DisplayDialog`, `Debug.Log`, `Debug.LogError` (including the error `ParentRelativePath` logs at the top of the chain), `ClearProgressBar` and `AssetDatabase.SaveAssets` have no content to model and are left out.
- The progress callbacks of `Recovery` and `ExecuteAllRecovery` are left out, and so are their floating-point fractions.
- The static fields `_animator` and `_clipValidations` are not modelled. `ValidateAnimation` returns a new list where the source clears and refills a shared one, so the aliasing of the returned list with later validations is not modelled.
- `GetChildren`: `obj.GetComponentInChildren<Transform>()` is taken to return the object's own transform, so every object is treated as active. Unity returns null for an inactive object, and the source would then fail at `childCount`. Inactive objects are not modelled.
- `Transform.Find` is modelled as a walk from the root: each '/'-separated segment names a child of the node reached so far, and the first child with that name is taken. Unity's own handling of empty paths and empty segments is not visible in the source.
- Unity's `Transform` enumeration order is taken to be child order.
- The serialized property layer is folded into the clip. `SerializedObject`, `FindProperty`, `GetArrayElementAtIndex` and `FindPropertyRelative` are reads of `curves`. A `stringValue` write together with `ApplyModifiedProperties` is one write to `curves`.
- Unity's notion of a dirty asset is not modelled.
- `LostProperty` is a value in the model. In the source it is a shared object. Two reports holding the same record object is not modelled: the model's reports each own their records.
- `Recovery`: requires the report's records to point into its clip (`Valid`). Every report `FindLostAnimations` makes satisfies this, and every recovery keeps it. The source's property references cannot dangle.
- `ExecuteUnitRecovery`: has the same `Valid` precondition, for the same reason.
- `ExecuteAllRecovery`: has the same `Valid` precondition. It states the final curves only for clips that one report alone works on. When several reports share a clip, the writes of all of them land in order on the same curves. The model proves that each report's records are recovered and that every clip stays consistent with every report on it, but it does not state the combined curves.
