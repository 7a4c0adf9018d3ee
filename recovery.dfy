/**
 * Repairing lost bindings: for each lost record, look for hierarchy objects
 * with the same name; none or several leave an error state, exactly one
 * rewrites the curve's path with that object's relative path (`Recovery`,
 * `ExecuteUnitRecovery`, `ExecuteAllRecovery`, AnimationValidator.cs, lines
 * 82-104 and 145-180).
 */
module Recovery {
  import opened Wrappers
  import opened Paths
  import opened Hierarchy
  import opened Clips
  import opened Validator

  // ---------------------------------------------------------------------------
  // Same-named candidates
  // ---------------------------------------------------------------------------

  /** `paths.Where(path => path.ObjectName == name)`: the candidates called `name`, in order. */
  function SameName(paths: seq<PathModel>, name: string): seq<PathModel> {
    if paths == [] then []
    else
      var last := paths[|paths| - 1];
      SameName(paths[..|paths| - 1], name) + (if last.objectName == name then [last] else [])
  }

  /** No candidate is called `name`. */
  ghost predicate Absent(paths: seq<PathModel>, name: string) {
    forall i :: 0 <= i < |paths| ==> paths[i].objectName != name
  }

  /** Two or more candidates are called `name`. */
  ghost predicate Duplicated(paths: seq<PathModel>, name: string) {
    exists i, j :: 0 <= i < j < |paths| && paths[i].objectName == name && paths[j].objectName == name
  }

  /** Candidate `i` is the only one called `name`. */
  ghost predicate UniqueAt(paths: seq<PathModel>, name: string, i: int) {
    && 0 <= i < |paths| && paths[i].objectName == name
    && forall j :: 0 <= j < |paths| && j != i ==> paths[j].objectName != name
  }

  /** Exactly one candidate is called `name`. */
  ghost predicate HasUniqueMatch(paths: seq<PathModel>, name: string) {
    exists i :: UniqueAt(paths, name, i)
  }

  /**
   * How many candidates the filter keeps: none exactly when no candidate
   * has the name, two or more exactly when two candidates have it, and when
   * it keeps one, that is the only candidate with the name.
   */
  lemma {:induction false} SameNameCount(paths: seq<PathModel>, name: string)
    ensures |SameName(paths, name)| == 0 <==> Absent(paths, name)
    ensures |SameName(paths, name)| >= 2 <==> Duplicated(paths, name)
    ensures |SameName(paths, name)| == 1 ==>
      exists i :: UniqueAt(paths, name, i) && SameName(paths, name)[0] == paths[i]
    decreases |paths|
  {
    if paths != [] {
      var n := |paths|;
      var front := paths[..n - 1];
      var last := paths[n - 1];
      SameNameCount(front, name);
      assert forall i :: 0 <= i < n - 1 ==> front[i] == paths[i];
      if last.objectName == name {
        assert !Absent(paths, name);
        if |SameName(front, name)| >= 1 {
          var i :| 0 <= i < n - 1 && front[i].objectName == name;
          assert Duplicated(paths, name);
        }
        if Duplicated(paths, name) {
          var i, j :| 0 <= i < j < n && paths[i].objectName == name && paths[j].objectName == name;
          assert front[i].objectName == name;
        }
        if |SameName(paths, name)| == 1 {
          assert UniqueAt(paths, name, n - 1);
        }
      } else {
        if Duplicated(paths, name) {
          var i, j :| 0 <= i < j < n && paths[i].objectName == name && paths[j].objectName == name;
          assert front[i].objectName == name && front[j].objectName == name;
        }
        if |SameName(paths, name)| == 1 {
          var i :| UniqueAt(front, name, i) && SameName(front, name)[0] == front[i];
          assert UniqueAt(paths, name, i);
        }
      }
    }
  }

  // ---------------------------------------------------------------------------
  // The outcome for one record
  // ---------------------------------------------------------------------------

  /** The record after recovery: only its state changes. */
  function Recover(p: LostProperty, paths: seq<PathModel>): LostProperty {
    var pathInHierarchy := SameName(paths, p.objectName);
    if |pathInHierarchy| == 0 then p.(state := FixState.ErrorNoSameName)
    else if |pathInHierarchy| >= 2 then p.(state := FixState.ErrorDuplicate)
    else p.(state := FixState.Fixed)
  }

  /** The path recovery writes for a record, if it writes one. */
  function FixedPath(p: LostProperty, paths: seq<PathModel>): Option<string> {
    var pathInHierarchy := SameName(paths, p.objectName);
    if |pathInHierarchy| == 1 then Some(pathInHierarchy[0].relativePath) else Option.None
  }

  /**
   * The three outcomes: no same-named candidate gives `ErrorNoSameName`, two
   * or more give `ErrorDuplicate`, exactly one gives `Fixed` and writes that
   * candidate's relative path. Nothing but the state of the record changes.
   */
  lemma RecoverOutcome(p: LostProperty, paths: seq<PathModel>)
    ensures Recover(p, paths) == p.(state := Recover(p, paths).state)
    ensures Recover(p, paths).state == FixState.ErrorNoSameName <==> Absent(paths, p.objectName)
    ensures Recover(p, paths).state == FixState.ErrorDuplicate <==> Duplicated(paths, p.objectName)
    ensures Recover(p, paths).state == FixState.Fixed <==> HasUniqueMatch(paths, p.objectName)
    ensures FixedPath(p, paths).Some? <==> Recover(p, paths).state == FixState.Fixed
    ensures forall i :: UniqueAt(paths, p.objectName, i) ==> FixedPath(p, paths) == Some(paths[i].relativePath)
  {
    var name := p.objectName;
    SameNameCount(paths, name);
    forall i | UniqueAt(paths, name, i)
      ensures FixedPath(p, paths) == Some(paths[i].relativePath)
    {
      assert !Duplicated(paths, name);
      var i' :| UniqueAt(paths, name, i') && SameName(paths, name)[0] == paths[i'];
    }
    if HasUniqueMatch(paths, name) {
      var i :| UniqueAt(paths, name, i);
      assert !Absent(paths, name);
    }
  }

  /** Recovering every record of a report, each on its own. */
  function RecoverAll(ps: seq<LostProperty>, paths: seq<PathModel>): (r: seq<LostProperty>) {
    seq(|ps|, k requires 0 <= k < |ps| => Recover(ps[k], paths))
  }

  /**
   * A report has no error after recovery exactly when every lost record has
   * exactly one same-named candidate.
   */
  lemma NoErrorAfterRecovery(ps: seq<LostProperty>, paths: seq<PathModel>)
    ensures NoError(RecoverAll(ps, paths))
        <==> forall k :: 0 <= k < |ps| ==> HasUniqueMatch(paths, ps[k].objectName)
  {
    forall k | 0 <= k < |ps|
      ensures RecoverAll(ps, paths)[k].state == FixState.Fixed <==> HasUniqueMatch(paths, ps[k].objectName)
    {
      RecoverOutcome(ps[k], paths);
    }
  }

  /** Recovering a second time changes no record: the outcome depends only on the name. */
  lemma RecoverAllIdempotent(ps: seq<LostProperty>, paths: seq<PathModel>)
    ensures RecoverAll(RecoverAll(ps, paths), paths) == RecoverAll(ps, paths)
  {
  }

  /**
   * Descendant `k` of `root` has a plain path: no node between the root and
   * it is called like the root, and no name on the way holds a '/'.
   */
  ghost predicate PlainAt(root: Node, k: nat)
    requires k < |Descendants(root, [])|
  {
    var loc := Descendants(root, [])[k];
    && |loc.ancestors| >= 1
    && root.name !in loc.ancestors[1..]
    && AllNoSlash(loc.ancestors[1..] + [loc.node.name])
  }

  /**
   * A record recovery marks `Fixed` against the hierarchy of `root` gets the
   * relative path of the one descendant sharing its leaf name; when sibling
   * names are unique and that descendant's path is plain, `root.Find`
   * resolves the written path to that descendant, so the binding binds again,
   * and the written path's leaf name is the record's object name.
   * (`TruncatedPathUnresolved` shows why the plain-path hypothesis is needed.)
   */
  lemma FixedPathResolves(root: Node, p: LostProperty)
    requires UniqueSiblingNames(root)
    requires Recover(p, Candidates(root)).state == FixState.Fixed
    ensures exists k ::
      && UniqueAt(Candidates(root), p.objectName, k)
      && FixedPath(p, Candidates(root)) == Some(Candidates(root)[k].relativePath)
      && Descendants(root, [])[k].node.name == p.objectName
      && (PlainAt(root, k) ==>
           && GetObjectName(Candidates(root)[k].relativePath) == p.objectName
           && Find(root, Candidates(root)[k].relativePath) == Some(Descendants(root, [])[k].node))
  {
    var paths := Candidates(root);
    RecoverOutcome(p, paths);
    var k :| UniqueAt(paths, p.objectName, k);
    CandidatePath(root, k);
    if PlainAt(root, k) {
      var loc := Descendants(root, [])[k];
      LeafOfJoin(loc.ancestors[1..] + [loc.node.name]);
      CandidateResolves(root, k);
    }
  }

  /**
   * Without a plain path a fix can write a path that does not resolve: under
   * `Root` with a child `Root` holding `Hand`, a lost `Hand` record is marked
   * `Fixed` with the path "Hand", which `root.Find` does not resolve.
   */
  lemma TruncatedFixUnresolved(p: LostProperty)
    requires p.objectName == "Hand"
    ensures var root := Node("Root", [Node("Root", [Node("Hand", [])])]);
      && Recover(p, Candidates(root)).state == FixState.Fixed
      && FixedPath(p, Candidates(root)) == Some("Hand")
      && Find(root, "Hand").None?
  {
    var root := Node("Root", [Node("Root", [Node("Hand", [])])]);
    TruncatedPathUnresolved();
    var paths := Candidates(root);
    assert paths[..1][..0] == [];
    assert paths[..|paths| - 1] == [paths[0]];
    assert paths[0].objectName == "Root";
    assert SameName(paths, "Hand") == [PathModel("Hand", "Hand")];
  }

  // ---------------------------------------------------------------------------
  // The path writes
  // ---------------------------------------------------------------------------

  /** No two records point at the same curve. */
  predicate DistinctHandles(ps: seq<LostProperty>) {
    forall a, b :: 0 <= a < b < |ps| ==> ps[a].handle != ps[b].handle
  }

  /** The records of a fresh report point at distinct curves. */
  lemma LostBindingsDistinct(root: Node, groups: seq<seq<Curve>>)
    ensures DistinctHandles(LostBindings(root, groups))
  {
    var ps := LostBindings(root, groups);
    forall a, b | 0 <= a < b < |ps|
      ensures ps[a].handle != ps[b].handle
    {
      LostBindingsOrdered(root, groups, a, b);
    }
  }

  /** The curves after recovery has handled the first `n` records. */
  function WriteFixes(curves: seq<seq<Curve>>, ps: seq<LostProperty>, paths: seq<PathModel>, n: nat): (r: seq<seq<Curve>>)
    requires n <= |ps| && HandlesIn(curves, ps)
    ensures SameShape(r, curves)
  {
    if n == 0 then curves
    else
      var before := WriteFixes(curves, ps, paths, n - 1);
      match FixedPath(ps[n - 1], paths)
      case None => before
      case Some(path) => SetPath(before, ps[n - 1].handle, path)
  }

  /** The last path written at `h` among the first `n` records, if any is. */
  function LastFix(ps: seq<LostProperty>, paths: seq<PathModel>, n: nat, h: Handle): Option<string>
    requires n <= |ps|
  {
    if n == 0 then Option.None
    else if ps[n - 1].handle == h && FixedPath(ps[n - 1], paths).Some? then FixedPath(ps[n - 1], paths)
    else LastFix(ps, paths, n - 1, h)
  }

  /** Each curve ends with the last path written at it, or as it was when none was. */
  lemma {:induction false} WriteFixesAt(curves: seq<seq<Curve>>, ps: seq<LostProperty>, paths: seq<PathModel>, n: nat, h: Handle)
    requires n <= |ps| && HandlesIn(curves, ps) && ValidHandle(curves, h)
    ensures WriteFixes(curves, ps, paths, n)[h.group][h.index]
         == match LastFix(ps, paths, n, h)
            case None => curves[h.group][h.index]
            case Some(path) => curves[h.group][h.index].(path := path)
  {
    if n > 0 {
      WriteFixesAt(curves, ps, paths, n - 1, h);
    }
  }

  /** No write lands on a curve no record points at. */
  lemma {:induction false} LastFixElsewhere(ps: seq<LostProperty>, paths: seq<PathModel>, n: nat, h: Handle)
    requires n <= |ps| && forall k :: 0 <= k < n ==> ps[k].handle != h
    ensures LastFix(ps, paths, n, h).None?
  {
    if n > 0 {
      LastFixElsewhere(ps, paths, n - 1, h);
    }
  }

  /** With one record per curve, the write at a record's curve is that record's own. */
  lemma {:induction false} LastFixOwn(ps: seq<LostProperty>, paths: seq<PathModel>, n: nat, k: nat)
    requires k < n <= |ps| && DistinctHandles(ps)
    ensures LastFix(ps, paths, n, ps[k].handle) == FixedPath(ps[k], paths)
  {
    if k == n - 1 {
      LastFixElsewhere(ps, paths, n - 1, ps[k].handle);
    } else {
      LastFixOwn(ps, paths, n - 1, k);
    }
  }

  /**
   * With one record per curve: a record's curve gets the record's fixed path,
   * or stays as it was when the record ends in an error state.
   */
  lemma WriteFixesOwnCell(curves: seq<seq<Curve>>, ps: seq<LostProperty>, paths: seq<PathModel>, k: nat)
    requires HandlesIn(curves, ps) && DistinctHandles(ps) && k < |ps|
    ensures var h := ps[k].handle;
      WriteFixes(curves, ps, paths, |ps|)[h.group][h.index]
      == match FixedPath(ps[k], paths)
         case None => curves[h.group][h.index]
         case Some(path) => curves[h.group][h.index].(path := path)
  {
    WriteFixesAt(curves, ps, paths, |ps|, ps[k].handle);
    LastFixOwn(ps, paths, |ps|, k);
  }

  /** A curve that no record points at is left as it was. */
  lemma WriteFixesOtherCell(curves: seq<seq<Curve>>, ps: seq<LostProperty>, paths: seq<PathModel>, h: Handle)
    requires HandlesIn(curves, ps) && ValidHandle(curves, h)
    requires forall k :: 0 <= k < |ps| ==> ps[k].handle != h
    ensures WriteFixes(curves, ps, paths, |ps|)[h.group][h.index] == curves[h.group][h.index]
  {
    WriteFixesAt(curves, ps, paths, |ps|, h);
    LastFixElsewhere(ps, paths, |ps|, h);
  }

  /** Recovered records write what the original records wrote. */
  lemma {:induction false} LastFixRecovered(ps: seq<LostProperty>, paths: seq<PathModel>, n: nat, h: Handle)
    requires n <= |ps|
    ensures LastFix(RecoverAll(ps, paths), paths, n, h) == LastFix(ps, paths, n, h)
  {
    if n > 0 {
      LastFixRecovered(ps, paths, n - 1, h);
      assert RecoverAll(ps, paths)[n - 1] == Recover(ps[n - 1], paths);
    }
  }

  /**
   * Running recovery again on a report it has run on (the recovered records,
   * the repaired curves) writes nothing new.
   */
  lemma WriteFixesIdempotent(curves: seq<seq<Curve>>, ps: seq<LostProperty>, paths: seq<PathModel>)
    requires HandlesIn(curves, ps)
    ensures var once := WriteFixes(curves, ps, paths, |ps|);
      HandlesIn(once, RecoverAll(ps, paths))
      && WriteFixes(once, RecoverAll(ps, paths), paths, |ps|) == once
  {
    var once := WriteFixes(curves, ps, paths, |ps|);
    var rs := RecoverAll(ps, paths);
    assert HandlesIn(once, rs);
    var twice := WriteFixes(once, rs, paths, |ps|);
    forall g | 0 <= g < |once|
      ensures twice[g] == once[g]
    {
      forall i | 0 <= i < |once[g]|
        ensures twice[g][i] == once[g][i]
      {
        var h := Handle(g, i);
        WriteFixesAt(curves, ps, paths, |ps|, h);
        WriteFixesAt(once, rs, paths, |ps|, h);
        LastFixRecovered(ps, paths, |ps|, h);
      }
    }
  }

  /** Path writes keep the curves every record points at. */
  lemma ShapeKeepsHandles(before: seq<seq<Curve>>, after: seq<seq<Curve>>, ps: seq<LostProperty>)
    requires HandlesIn(before, ps) && SameShape(after, before)
    ensures HandlesIn(after, ps)
  {
  }

  /** The records as recovery leaves them after handling the first `i`. */
  ghost predicate RecoveredUpTo(now: seq<LostProperty>, ps: seq<LostProperty>, paths: seq<PathModel>, i: nat)
    requires i <= |ps|
  {
    && |now| == |ps|
    && (forall k :: 0 <= k < i ==> now[k] == Recover(ps[k], paths))
    && (forall k :: i <= k < |ps| ==> now[k] == ps[k])
  }

  lemma RecoveredNext(now: seq<LostProperty>, ps: seq<LostProperty>, paths: seq<PathModel>, i: nat)
    requires i < |ps| && RecoveredUpTo(now, ps, paths, i)
    ensures RecoveredUpTo(now[i := Recover(ps[i], paths)], ps, paths, i + 1)
  {
  }

  /** Once every record is handled, the records are the recovered ones, pointing where they did. */
  lemma RecoveredAll(
    now: seq<LostProperty>, ps: seq<LostProperty>, paths: seq<PathModel>, before: seq<seq<Curve>>, after: seq<seq<Curve>>)
    requires RecoveredUpTo(now, ps, paths, |ps|) && HandlesIn(before, ps) && SameShape(after, before)
    ensures now == RecoverAll(ps, paths)
    ensures HandlesIn(after, now)
  {
  }

  /** One more record written: its candidate's path when it has exactly one, else nothing. */
  lemma WriteFixesNext(curves: seq<seq<Curve>>, ps: seq<LostProperty>, paths: seq<PathModel>, i: nat)
    requires i < |ps| && HandlesIn(curves, ps)
    ensures ValidHandle(WriteFixes(curves, ps, paths, i), ps[i].handle)
    ensures var same := SameName(paths, ps[i].objectName);
      WriteFixes(curves, ps, paths, i + 1)
      == if |same| == 1 then SetPath(WriteFixes(curves, ps, paths, i), ps[i].handle, same[0].relativePath)
         else WriteFixes(curves, ps, paths, i)
  {
    assert ValidHandle(curves, ps[i].handle);
  }

  // ---------------------------------------------------------------------------
  // The operations
  // ---------------------------------------------------------------------------

  /**
   * `Recovery(container, paths)`: each record gets its outcome state, and
   * each record with exactly one same-named candidate has its curve's path
   * rewritten to that candidate's relative path, record by record.
   */
  method Recovery(c: ClipValidationContainer, paths: seq<PathModel>)
    requires c.Valid()
    modifies c, c.clip
    ensures c.lostProperties == RecoverAll(old(c.lostProperties), paths)
    ensures HandlesIn(old(c.clip.curves), old(c.lostProperties))
    ensures c.clip.curves == WriteFixes(old(c.clip.curves), old(c.lostProperties), paths, |old(c.lostProperties)|)
    ensures c.Valid()
  {
    ghost var ps := c.lostProperties;
    ghost var curves := c.clip.curves;
    for i := 0 to |c.lostProperties|
      invariant RecoveredUpTo(c.lostProperties, ps, paths, i)
      invariant c.clip.curves == WriteFixes(curves, ps, paths, i)
    {
      var anim := c.lostProperties[i];
      RecoveredNext(c.lostProperties, ps, paths, i);
      WriteFixesNext(curves, ps, paths, i);
      var pathInHierarchy := SameName(paths, anim.objectName);
      var hierarchyCount := |pathInHierarchy|;
      if hierarchyCount == 0 {
        c.lostProperties := c.lostProperties[i := anim.(state := FixState.ErrorNoSameName)];
        continue;
      }
      if hierarchyCount >= 2 {
        c.lostProperties := c.lostProperties[i := anim.(state := FixState.ErrorDuplicate)];
        continue;
      }
      var correctPath := pathInHierarchy[0].relativePath;
      c.lostProperties := c.lostProperties[i := anim.(state := FixState.Fixed)];
      c.clip.curves := SetPath(c.clip.curves, anim.handle, correctPath);
    }
    RecoveredAll(c.lostProperties, ps, paths, curves, c.clip.curves);
  }

  /** `ExecuteUnitRecovery(selected, container)`: recovery of one report against the selected hierarchy. */
  method ExecuteUnitRecovery(selected: Node, container: ClipValidationContainer)
    requires container.Valid()
    modifies container, container.clip
    ensures container.lostProperties == RecoverAll(old(container.lostProperties), Candidates(selected))
    ensures HandlesIn(old(container.clip.curves), old(container.lostProperties))
    ensures container.clip.curves
         == WriteFixes(old(container.clip.curves), old(container.lostProperties), Candidates(selected), |old(container.lostProperties)|)
    ensures container.Valid()
  {
    var childObjectsNames := GetChildObjectNames(selected);
    Recovery(container, childObjectsNames);
  }

  /** The report at position `k` is among the first `i`, perhaps at another position too. */
  ghost predicate Handled(cs: seq<ClipValidationContainer>, k: nat, i: nat) {
    exists j :: 0 <= j < i && j < |cs| && k < |cs| && cs[j] == cs[k]
  }

  /** Handling report `i` handles exactly the reports equal to it besides those handled before. */
  lemma HandledNext(cs: seq<ClipValidationContainer>, i: nat)
    requires i < |cs|
    ensures forall k :: 0 <= k < |cs| ==> (Handled(cs, k, i + 1) <==> Handled(cs, k, i) || cs[k] == cs[i])
  {
    forall k | 0 <= k < |cs| && cs[k] == cs[i]
      ensures Handled(cs, k, i + 1)
    {
      assert cs[i] == cs[k];
    }
  }

  /** No other report at position `j` of `cs` works on the clip of the report at `k`. */
  ghost predicate SoleOwner(cs: seq<ClipValidationContainer>, k: nat)
    requires k < |cs|
  {
    forall j :: 0 <= j < |cs| && cs[j].clip == cs[k].clip ==> cs[j] == cs[k]
  }

  /** The records of each report. */
  ghost function RecordsOf(cs: seq<ClipValidationContainer>): (r: seq<seq<LostProperty>>)
    reads set k | 0 <= k < |cs| :: cs[k]
    ensures |r| == |cs| && forall k {:trigger r[k]} {:trigger cs[k].lostProperties} :: 0 <= k < |cs| ==> r[k] == cs[k].lostProperties
  {
    if cs == [] then [] else RecordsOf(cs[..|cs| - 1]) + [cs[|cs| - 1].lostProperties]
  }

  /** The curves of each report's clip. */
  ghost function CurvesOf(cs: seq<ClipValidationContainer>): (r: seq<seq<seq<Curve>>>)
    reads set k | 0 <= k < |cs| :: cs[k].clip
    ensures |r| == |cs| && forall k {:trigger r[k]} {:trigger cs[k].clip.curves} :: 0 <= k < |cs| ==> r[k] == cs[k].clip.curves
  {
    if cs == [] then [] else CurvesOf(cs[..|cs| - 1]) + [cs[|cs| - 1].clip.curves]
  }

  /**
   * Records `lost[k]` and curves `curves[k]` as they can be for the reports
   * `cs`: equal records for a report listed twice, equal curves for reports
   * on one clip.
   */
  ghost predicate Coherent(cs: seq<ClipValidationContainer>, lost: seq<seq<LostProperty>>, curves: seq<seq<seq<Curve>>>) {
    && |lost| == |cs| && |curves| == |cs|
    && (forall a, b {:trigger lost[a], lost[b]} :: 0 <= a < |cs| && 0 <= b < |cs| && cs[a] == cs[b] ==> lost[a] == lost[b])
    && (forall a, b {:trigger curves[a], curves[b]} :: 0 <= a < |cs| && 0 <= b < |cs| && cs[a].clip == cs[b].clip ==> curves[a] == curves[b])
  }

  /** Every report's records point at curves of its clip. */
  ghost predicate AllValid(lost: seq<seq<LostProperty>>, curves: seq<seq<seq<Curve>>>)
    requires |lost| == |curves|
  {
    forall k :: 0 <= k < |lost| ==> HandlesIn(curves[k], lost[k])
  }

  /**
   * After the first `i` reports, against the starting records `lost0`:
   * handled reports hold recovered records, the others their own.
   */
  ghost predicate RecordsDone(
    cs: seq<ClipValidationContainer>, lost0: seq<seq<LostProperty>>, lost: seq<seq<LostProperty>>,
    paths: seq<PathModel>, i: nat)
    requires |lost0| == |cs| && |lost| == |cs|
  {
    forall k {:trigger lost[k]} :: 0 <= k < |cs| ==> lost[k] == if Handled(cs, k, i) then RecoverAll(lost0[k], paths) else lost0[k]
  }

  /**
   * After the first `i` reports, against the starting curves `curves0`: a
   * clip only one report works on holds that report's writes once it is
   * handled.
   */
  ghost predicate CurvesDone(
    cs: seq<ClipValidationContainer>, lost0: seq<seq<LostProperty>>, curves0: seq<seq<seq<Curve>>>,
    curves: seq<seq<seq<Curve>>>, paths: seq<PathModel>, i: nat)
    requires Coherent(cs, lost0, curves0) && AllValid(lost0, curves0) && |curves| == |cs|
  {
    forall k {:trigger curves[k]} :: 0 <= k < |cs| && SoleOwner(cs, k) ==>
      curves[k] == if Handled(cs, k, i) then WriteFixes(curves0[k], lost0[k], paths, |lost0[k]|) else curves0[k]
  }

  /**
   * What recovering report `i` does to the records and curves of all the
   * reports: that report (wherever listed) gets recovered records, every
   * report on its clip sees the written curves, nothing else changes.
   */
  ghost predicate RecoveredReport(
    cs: seq<ClipValidationContainer>, i: nat, paths: seq<PathModel>,
    lost: seq<seq<LostProperty>>, curves: seq<seq<seq<Curve>>>,
    lost': seq<seq<LostProperty>>, curves': seq<seq<seq<Curve>>>)
  {
    && i < |cs| && |lost| == |cs| && |curves| == |cs| && |lost'| == |cs| && |curves'| == |cs|
    && HandlesIn(curves[i], lost[i])
    && (forall k {:trigger lost'[k]} :: 0 <= k < |cs| ==> lost'[k] == if cs[k] == cs[i] then RecoverAll(lost[i], paths) else lost[k])
    && (forall k {:trigger curves'[k]} :: 0 <= k < |cs| ==>
         curves'[k] == if cs[k].clip == cs[i].clip then WriteFixes(curves[i], lost[i], paths, |lost[i]|) else curves[k])
  }

  /** Recovering report `i` keeps the records and curves coherent and valid. */
  lemma RecoveryStepValid(
    cs: seq<ClipValidationContainer>, paths: seq<PathModel>, i: nat,
    lost: seq<seq<LostProperty>>, curves: seq<seq<seq<Curve>>>,
    lost': seq<seq<LostProperty>>, curves': seq<seq<seq<Curve>>>)
    requires Coherent(cs, lost, curves) && AllValid(lost, curves)
    requires RecoveredReport(cs, i, paths, lost, curves, lost', curves')
    ensures Coherent(cs, lost', curves') && AllValid(lost', curves')
  {
    forall k | 0 <= k < |cs|
      ensures HandlesIn(curves'[k], lost'[k])
    {
      if cs[k].clip == cs[i].clip {
        ShapeKeepsHandles(curves[i], curves'[k], lost[k]);
      }
    }
  }

  /** Recovering report `i` advances `RecordsDone`; recovering a report listed again changes nothing more. */
  lemma RecoveryStepRecords(
    cs: seq<ClipValidationContainer>, lost0: seq<seq<LostProperty>>, paths: seq<PathModel>, i: nat,
    lost: seq<seq<LostProperty>>, curves: seq<seq<seq<Curve>>>,
    lost': seq<seq<LostProperty>>, curves': seq<seq<seq<Curve>>>)
    requires |lost0| == |cs| && forall a, b {:trigger lost0[a], lost0[b]} :: 0 <= a < |cs| && 0 <= b < |cs| && cs[a] == cs[b] ==> lost0[a] == lost0[b]
    requires RecoveredReport(cs, i, paths, lost, curves, lost', curves')
    requires RecordsDone(cs, lost0, lost, paths, i)
    ensures RecordsDone(cs, lost0, lost', paths, i + 1)
  {
    HandledNext(cs, i);
    RecoverAllIdempotent(lost0[i], paths);
  }

  /** Recovering report `i` advances `CurvesDone`; recovering a report listed again writes nothing new. */
  lemma RecoveryStepCurves(
    cs: seq<ClipValidationContainer>, lost0: seq<seq<LostProperty>>, curves0: seq<seq<seq<Curve>>>,
    paths: seq<PathModel>, i: nat,
    lost: seq<seq<LostProperty>>, curves: seq<seq<seq<Curve>>>,
    lost': seq<seq<LostProperty>>, curves': seq<seq<seq<Curve>>>)
    requires Coherent(cs, lost0, curves0) && AllValid(lost0, curves0)
    requires RecoveredReport(cs, i, paths, lost, curves, lost', curves')
    requires RecordsDone(cs, lost0, lost, paths, i) && CurvesDone(cs, lost0, curves0, curves, paths, i)
    ensures CurvesDone(cs, lost0, curves0, curves', paths, i + 1)
  {
    HandledNext(cs, i);
    if SoleOwner(cs, i) {
      if Handled(cs, i, i) {
        WriteFixesIdempotent(curves0[i], lost0[i], paths);
      }
      assert curves'[i] == WriteFixes(curves0[i], lost0[i], paths, |lost0[i]|);
    }
    forall k | 0 <= k < |cs| && SoleOwner(cs, k)
      ensures curves'[k] == if Handled(cs, k, i + 1) then WriteFixes(curves0[k], lost0[k], paths, |lost0[k]|) else curves0[k]
    {
      if cs[k].clip == cs[i].clip {
        assert cs[k] == cs[i];
      }
    }
  }

  /** The invariant of `ExecuteAllRecovery` after the first `i` reports. */
  ghost predicate Progress(
    cs: seq<ClipValidationContainer>, paths: seq<PathModel>, i: nat,
    lost0: seq<seq<LostProperty>>, curves0: seq<seq<seq<Curve>>>,
    lost: seq<seq<LostProperty>>, curves: seq<seq<seq<Curve>>>)
  {
    && i <= |cs|
    && Coherent(cs, lost0, curves0) && AllValid(lost0, curves0)
    && Coherent(cs, lost, curves) && AllValid(lost, curves)
    && RecordsDone(cs, lost0, lost, paths, i)
    && CurvesDone(cs, lost0, curves0, curves, paths, i)
  }

  /** Before any report is recovered. */
  lemma RecoveryStart(
    cs: seq<ClipValidationContainer>, paths: seq<PathModel>,
    lost0: seq<seq<LostProperty>>, curves0: seq<seq<seq<Curve>>>)
    requires Coherent(cs, lost0, curves0) && AllValid(lost0, curves0)
    ensures Progress(cs, paths, 0, lost0, curves0, lost0, curves0)
  {
  }

  /** Recovering report `i` keeps the invariant. */
  lemma RecoveryStep(
    cs: seq<ClipValidationContainer>, paths: seq<PathModel>, i: nat,
    lost0: seq<seq<LostProperty>>, curves0: seq<seq<seq<Curve>>>,
    lost: seq<seq<LostProperty>>, curves: seq<seq<seq<Curve>>>,
    lost': seq<seq<LostProperty>>, curves': seq<seq<seq<Curve>>>)
    requires i < |cs| && Progress(cs, paths, i, lost0, curves0, lost, curves)
    requires RecoveredReport(cs, i, paths, lost, curves, lost', curves')
    ensures Progress(cs, paths, i + 1, lost0, curves0, lost', curves')
  {
    RecoveryStepValid(cs, paths, i, lost, curves, lost', curves');
    RecoveryStepRecords(cs, lost0, paths, i, lost, curves, lost', curves');
    RecoveryStepCurves(cs, lost0, curves0, paths, i, lost, curves, lost', curves');
  }

  /** Once every report is recovered: all records recovered, sole-owned clips written. */
  lemma {:induction false} RecoveryComplete(
    cs: seq<ClipValidationContainer>, paths: seq<PathModel>,
    lost0: seq<seq<LostProperty>>, curves0: seq<seq<seq<Curve>>>,
    lost: seq<seq<LostProperty>>, curves: seq<seq<seq<Curve>>>)
    requires Progress(cs, paths, |cs|, lost0, curves0, lost, curves)
    ensures forall k :: 0 <= k < |cs| ==> lost[k] == RecoverAll(lost0[k], paths) && HandlesIn(curves[k], lost[k])
    ensures forall k :: 0 <= k < |cs| && SoleOwner(cs, k) ==>
      HandlesIn(curves0[k], lost0[k]) && curves[k] == WriteFixes(curves0[k], lost0[k], paths, |lost0[k]|)
  {
    forall k | 0 <= k < |cs|
      ensures Handled(cs, k, |cs|)
      ensures lost[k] == RecoverAll(lost0[k], paths) && HandlesIn(curves[k], lost[k])
    {
      ghost var c := cs[k];
      assert c == cs[k];
    }
    forall k | 0 <= k < |cs| && SoleOwner(cs, k)
      ensures HandlesIn(curves0[k], lost0[k]) && curves[k] == WriteFixes(curves0[k], lost0[k], paths, |lost0[k]|)
    {
      assert Handled(cs, k, |cs|);
    }
  }

  /**
   * The recovery of report `i` of `containers` inside `ExecuteAllRecovery`,
   * seen on the records and curves of all the reports: it keeps the loop's
   * invariant.
   */
  method RecoverReport(
    containers: seq<ClipValidationContainer>, i: nat, paths: seq<PathModel>,
    ghost lost0: seq<seq<LostProperty>>, ghost curves0: seq<seq<seq<Curve>>>)
    requires i < |containers|
    requires Progress(containers, paths, i, lost0, curves0, RecordsOf(containers), CurvesOf(containers))
    modifies containers[i], containers[i].clip
    ensures Progress(containers, paths, i + 1, lost0, curves0, RecordsOf(containers), CurvesOf(containers))
  {
    var container := containers[i];
    ghost var lost := RecordsOf(containers);
    ghost var curves := CurvesOf(containers);
    assert HandlesIn(curves[i], lost[i]);
    Recovery(container, paths);
    ghost var lost' := RecordsOf(containers);
    ghost var curves' := CurvesOf(containers);
    forall k | 0 <= k < |containers|
      ensures lost'[k] == if containers[k] == container then RecoverAll(lost[i], paths) else lost[k]
    {
      if containers[k] != container {
        assert containers[k].lostProperties == old(containers[k].lostProperties);
      }
    }
    forall k | 0 <= k < |containers|
      ensures curves'[k] == if containers[k].clip == container.clip then
                              WriteFixes(curves[i], lost[i], paths, |lost[i]|) else curves[k]
    {
      if containers[k].clip != container.clip {
        assert containers[k].clip.curves == old(containers[k].clip.curves);
      }
    }
    RecoveryStep(containers, paths, i, lost0, curves0, lost, curves, lost', curves');
  }

  /**
   * `ExecuteAllRecovery(selected, containers)`: recovery of every report in
   * turn against one candidate list. Every report's records get their
   * outcome (a report listed twice is recovered twice, to the same effect),
   * and a clip that only one report works on ends with that report's writes.
   */
  method ExecuteAllRecovery(selected: Node, containers: seq<ClipValidationContainer>)
    requires forall k :: 0 <= k < |containers| ==> containers[k].Valid()
    modifies set k | 0 <= k < |containers| :: containers[k]
    modifies set k | 0 <= k < |containers| :: containers[k].clip
    ensures forall k :: 0 <= k < |containers| ==>
      containers[k].lostProperties == RecoverAll(old(containers[k].lostProperties), Candidates(selected))
    ensures forall k :: 0 <= k < |containers| ==> containers[k].Valid()
    ensures forall k :: 0 <= k < |containers| && SoleOwner(containers, k) ==>
      && HandlesIn(old(containers[k].clip.curves), old(containers[k].lostProperties))
      && containers[k].clip.curves
         == WriteFixes(old(containers[k].clip.curves), old(containers[k].lostProperties), Candidates(selected),
                       |old(containers[k].lostProperties)|)
  {
    ghost var lost0 := RecordsOf(containers);
    ghost var curves0 := CurvesOf(containers);
    var childObjectsNames := GetChildObjectNames(selected);
    RecoveryStart(containers, childObjectsNames, lost0, curves0);
    for i := 0 to |containers|
      invariant lost0 == old(RecordsOf(containers)) && curves0 == old(CurvesOf(containers))
      invariant Progress(containers, childObjectsNames, i, lost0, curves0, RecordsOf(containers), CurvesOf(containers))
    {
      RecoverReport(containers, i, childObjectsNames, lost0, curves0);
    }
    RecoveryComplete(containers, childObjectsNames, lost0, curves0, RecordsOf(containers), CurvesOf(containers));
  }
}
