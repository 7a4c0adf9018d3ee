/**
 * The transform hierarchy under the selected object: resolving a binding path
 * against it (`Transform.Find`), flattening it in pre-order (`GetChildren`,
 * `GetAllObjects`) and naming each flattened node by its path relative to the
 * root (`ParentRelativePath`, `PathModel`, `GetChildObjectNames`).
 */
module Hierarchy {
  import opened Wrappers
  import opened Paths

  /** A transform: its object's name (not unique) and its children, in order. */
  datatype Node = Node(name: string, children: seq<Node>)

  /**
   * A node reached by the flattening walk, with the names of its ancestors
   * from the selected root (inclusive) down to its parent: the part of its
   * `parent` chain that the relative-path computation looks at.
   */
  datatype Located = Located(node: Node, ancestors: seq<string>)

  /** One flattened candidate: the object's name and its root-relative path. */
  datatype PathModel = PathModel(objectName: string, relativePath: string)

  // ---------------------------------------------------------------------------
  // Resolving a path (Transform.Find, used at AnimationValidator.cs:123)
  // ---------------------------------------------------------------------------

  /** The index of the first child called `name`, if there is one. */
  function FirstChild(kids: seq<Node>, name: string): (r: Option<nat>)
    ensures r.None? <==> forall i :: 0 <= i < |kids| ==> kids[i].name != name
    ensures r.Some? ==> (r.value < |kids| && kids[r.value].name == name
      && forall j :: 0 <= j < r.value ==> kids[j].name != name)
  {
    if kids == [] then None
    else if kids[0].name == name then Some(0)
    else match FirstChild(kids[1..], name)
      case None => None
      case Some(i) => Some(i + 1)
  }

  /** Follows `segments` downwards from `n`, one child-name lookup per segment. */
  function Walk(n: Node, segments: seq<string>): Option<Node>
    decreases |segments|
  {
    if segments == [] then Some(n)
    else match FirstChild(n.children, segments[0])
      case None => None
      case Some(i) => Walk(n.children[i], segments[1..])
  }

  /**
   * `root.Find(path)`: the first segment names a direct child of the root, and
   * every further segment a child of the node found so far; the first child of
   * that name is taken each time.
   */
  function Find(root: Node, path: string): Option<Node> {
    Walk(root, Split(path))
  }

  /** A successful walk over at least one segment ends at a node of the last segment's name. */
  lemma {:induction false} WalkEndsAtLastName(n: Node, segments: seq<string>)
    requires |segments| >= 1 && Walk(n, segments).Some?
    ensures Walk(n, segments).value.name == segments[|segments| - 1]
    decreases |segments|
  {
    var i := FirstChild(n.children, segments[0]).value;
    if |segments| > 1 {
      WalkEndsAtLastName(n.children[i], segments[1..]);
    }
  }

  /** Whatever `Find` resolves a path to is called by that path's leaf name. */
  lemma FoundNodeHasLeafName(root: Node, path: string)
    requires Find(root, path).Some?
    ensures Find(root, path).value.name == GetObjectName(path)
  {
    WalkEndsAtLastName(root, Split(path));
    if path == "" {
      assert Split(path) == [""];
    }
  }

  // ---------------------------------------------------------------------------
  // Flattening (GetChildren / GetAllObjects, AnimationValidator.cs:202-220)
  // ---------------------------------------------------------------------------

  /**
   * Pre-order listing of every node in the forest `kids` and below, each
   * with its ancestor chain; `anc` is the chain of the forest's parent
   * followed by the parent's own name.
   */
  function Forest(kids: seq<Node>, anc: seq<string>): seq<Located>
    decreases kids
  {
    if kids == [] then []
    else
      var last := kids[|kids| - 1];
      Forest(kids[..|kids| - 1], anc) + [Located(last, anc)] + Forest(last.children, anc + [last.name])
  }

  /** All descendants of `n` (not `n` itself), where `above` is `n`'s own ancestor chain. */
  function Descendants(n: Node, above: seq<string>): seq<Located> {
    Forest(n.children, above + [n.name])
  }

  /**
   * `GetChildren(obj, ref allChildren)`: appends every descendant of `obj`
   * to the accumulator, each child before its own subtree, and returns at
   * once when `obj` has no children.
   */
  method GetChildren(obj: Node, ancestors: seq<string>, allChildren: seq<Located>) returns (result: seq<Located>)
    ensures result == allChildren + Descendants(obj, ancestors)
    decreases obj
  {
    if |obj.children| == 0 {
      return allChildren;
    }
    var here := ancestors + [obj.name];
    result := allChildren;
    for i := 0 to |obj.children|
      invariant result == allChildren + Forest(obj.children[..i], here)
    {
      var ob := obj.children[i];
      result := result + [Located(ob, here)];
      result := GetChildren(ob, here, result);
      assert obj.children[..i + 1][..i] == obj.children[..i];
    }
    assert obj.children[..|obj.children|] == obj.children;
  }

  /** `GetAllObjects(obj)`: the descendants of the selected object, in pre-order. */
  method GetAllObjects(obj: Node) returns (allChildren: seq<Located>)
    ensures allChildren == Descendants(obj, [])
  {
    allChildren := GetChildren(obj, [], []);
  }

  /** Every node listed under `anc` has `anc` at the head of its ancestor chain. */
  lemma {:induction false} ForestAncestors(kids: seq<Node>, anc: seq<string>, k: nat)
    requires k < |Forest(kids, anc)|
    ensures |Forest(kids, anc)[k].ancestors| >= |anc|
    ensures Forest(kids, anc)[k].ancestors[..|anc|] == anc
    decreases kids
  {
    var last := kids[|kids| - 1];
    var front := Forest(kids[..|kids| - 1], anc);
    var back := Forest(last.children, anc + [last.name]);
    assert Forest(kids, anc) == front + [Located(last, anc)] + back;
    if k < |front| {
      ForestAncestors(kids[..|kids| - 1], anc, k);
    } else if k > |front| {
      ForestAncestors(last.children, anc + [last.name], k - |front| - 1);
      assert Forest(kids, anc)[k] == back[k - |front| - 1];
    }
  }

  /** No two children of the same node share a name, at any depth. */
  ghost predicate UniqueSiblingNames(n: Node) {
    && (forall i, j :: 0 <= i < j < |n.children| ==> n.children[i].name != n.children[j].name)
    && (forall i :: 0 <= i < |n.children| ==> UniqueSiblingNames(n.children[i]))
  }

  /**
   * When sibling names are unique, the names on a listed node's ancestor
   * chain below `n`, then its own name, lead `Walk` from `n` back to it.
   */
  lemma {:induction false} ForestWalks(n: Node, m: nat, anc: seq<string>, k: nat)
    requires m <= |n.children| && UniqueSiblingNames(n)
    requires k < |Forest(n.children[..m], anc)|
    ensures var loc := Forest(n.children[..m], anc)[k];
      |loc.ancestors| >= |anc|
      && Walk(n, loc.ancestors[|anc|..] + [loc.node.name]) == Some(loc.node)
    decreases n, m
  {
    var kids := n.children[..m];
    ForestAncestors(kids, anc, k);
    var last := kids[m - 1];
    var front := Forest(kids[..m - 1], anc);
    assert Forest(kids, anc) == front + [Located(last, anc)] + Forest(last.children, anc + [last.name]);
    assert kids[..m - 1] == n.children[..m - 1];
    if k < |front| {
      ForestWalks(n, m - 1, anc, k);
      assert Forest(kids, anc)[k] == front[k];
    } else if k == |front| {
      WalkToChild(n, m - 1, anc);
      assert Forest(kids, anc)[k] == Located(last, anc);
    } else {
      var k' := k - |front| - 1;
      assert Forest(kids, anc)[k] == Forest(last.children, anc + [last.name])[k'];
      ForestWalksBelowChild(n, m - 1, anc, k');
    }
  }

  /** A child is reached from its parent by its own name, when sibling names are unique. */
  lemma WalkToChild(n: Node, i: nat, anc: seq<string>)
    requires i < |n.children| && UniqueSiblingNames(n)
    ensures var loc := Located(n.children[i], anc);
      Walk(n, loc.ancestors[|anc|..] + [loc.node.name]) == Some(loc.node)
  {
    var c := n.children[i];
    var segments := [c.name];
    assert anc[|anc|..] + [c.name] == segments;
    ChildByName(n, i);
    assert segments[1..] == [];
    assert Walk(n, segments) == Walk(c, []);
  }

  /** With unique sibling names, the first child called like child `i` is child `i`. */
  lemma ChildByName(n: Node, i: nat)
    requires i < |n.children| && UniqueSiblingNames(n)
    ensures FirstChild(n.children, n.children[i].name) == Some(i)
  {
    var r := FirstChild(n.children, n.children[i].name);
    assert r.Some? by {
      assert n.children[i].name == n.children[i].name;
    }
  }

  /** The nodes below child `i` are reached through that child. */
  lemma {:induction false} ForestWalksBelowChild(n: Node, i: nat, anc: seq<string>, k: nat)
    requires i < |n.children| && UniqueSiblingNames(n)
    requires k < |Forest(n.children[i].children, anc + [n.children[i].name])|
    ensures var loc := Forest(n.children[i].children, anc + [n.children[i].name])[k];
      |loc.ancestors| >= |anc|
      && Walk(n, loc.ancestors[|anc|..] + [loc.node.name]) == Some(loc.node)
    decreases n, 0
  {
    var c := n.children[i];
    var anc' := anc + [c.name];
    var loc := Forest(c.children, anc')[k];
    assert c.children[..|c.children|] == c.children;
    ForestWalks(c, |c.children|, anc', k);
    ForestAncestors(c.children, anc', k);
    var rest := loc.ancestors[|anc'|..] + [loc.node.name];
    assert loc.ancestors[..|anc'|] == anc';
    assert loc.ancestors[|anc|..] + [loc.node.name] == [c.name] + rest;
    ChildByName(n, i);
    assert ([c.name] + rest)[1..] == rest;
  }

  // ---------------------------------------------------------------------------
  // Relative paths (ParentRelativePath, PathModel, AnimationValidator.cs:222-248)
  // ---------------------------------------------------------------------------

  /** The last position holding `x`, or -1 when there is none. */
  function LastIndexOf(s: seq<string>, x: string): (r: int)
    ensures -1 <= r < |s|
    ensures r >= 0 ==> s[r] == x
    ensures forall j :: r < j < |s| ==> s[j] != x
    decreases |s|
  {
    if s == [] then -1
    else if s[|s| - 1] == x then |s| - 1
    else LastIndexOf(s[..|s| - 1], x)
  }

  /**
   * `ParentRelativePath(t, path, rootName)`, with `t.parent`, its parent and
   * so on given by `ancestors` (nearest last): prefixes the ancestors' names
   * one by one until the next one up is called `rootName` or there is none
   * left (where the source logs an error when `t` is not called `rootName`).
   */
  function ParentRelativePath(ancestors: seq<string>, path: string, rootName: string): string
    decreases |ancestors|
  {
    if ancestors == [] then path
    else
      var parent := ancestors[|ancestors| - 1];
      if parent == rootName then path
      else ParentRelativePath(ancestors[..|ancestors| - 1], parent + "/" + path, rootName)
  }

  /** The relative path always ends with the path it started from. */
  lemma {:induction false} ParentRelativePathEndsWith(ancestors: seq<string>, path: string, rootName: string)
    ensures var r := ParentRelativePath(ancestors, path, rootName);
      |r| >= |path| && r[|r| - |path|..] == path
    decreases |ancestors|
  {
    if ancestors != [] {
      var parent := ancestors[|ancestors| - 1];
      if parent != rootName {
        var longer := parent + "/" + path;
        ParentRelativePathEndsWith(ancestors[..|ancestors| - 1], longer, rootName);
        var r := ParentRelativePath(ancestors, path, rootName);
        assert r[|r| - |longer|..][|longer| - |path|..] == r[|r| - |path|..];
        assert longer[|longer| - |path|..] == path;
      }
    }
  }

  /**
   * The relative path is the names below the NEAREST ancestor called
   * `rootName` (all of them when none is), then `path`, joined by '/'.
   * A same-named intermediate node therefore cuts the path short.
   */
  lemma {:induction false} ParentRelativePathIsJoin(ancestors: seq<string>, path: string, rootName: string)
    ensures ParentRelativePath(ancestors, path, rootName)
         == Join(ancestors[LastIndexOf(ancestors, rootName) + 1..] + [path])
    decreases |ancestors|
  {
    if ancestors == [] {
      assert ancestors[0..] + [path] == [path];
    } else {
      var parent := ancestors[|ancestors| - 1];
      var front := ancestors[..|ancestors| - 1];
      if parent == rootName {
        assert ancestors[|ancestors|..] + [path] == [path];
      } else {
        var k := LastIndexOf(front, rootName);
        var xs := front[k + 1..];
        ParentRelativePathStep(ancestors, path, rootName);
        ParentRelativePathIsJoin(front, parent + "/" + path, rootName);
        JoinMergesSeparator(xs, parent, path);
        assert ancestors[k + 1..] + [path] == xs + [parent] + [path];
      }
    }
  }

  /** Below an ancestor not called `rootName`: its name joins the path and the search moves up. */
  lemma ParentRelativePathStep(ancestors: seq<string>, path: string, rootName: string)
    requires ancestors != [] && ancestors[|ancestors| - 1] != rootName
    ensures var front := ancestors[..|ancestors| - 1];
      && ParentRelativePath(ancestors, path, rootName)
         == ParentRelativePath(front, ancestors[|ancestors| - 1] + "/" + path, rootName)
      && LastIndexOf(ancestors, rootName) == LastIndexOf(front, rootName)
  {
  }

  /** Joining with `a + "/" + p` as last segment is joining with `a` and `p` as two. */
  lemma {:induction false} JoinMergesSeparator(xs: seq<string>, a: string, p: string)
    ensures Join(xs + [a + "/" + p]) == Join(xs + [a] + [p])
    decreases |xs|
  {
    if xs != [] {
      JoinMergesSeparator(xs[1..], a, p);
      assert (xs + [a + "/" + p])[1..] == xs[1..] + [a + "/" + p];
      assert (xs + [a] + [p])[1..] == xs[1..] + [a] + [p];
    }
  }

  /**
   * Ancestors above a node called `rootName` are never looked at: the
   * selected root's own parents do not change any candidate's path.
   */
  lemma {:induction false} ParentRelativePathIgnoresAbove(above: seq<string>, chain: seq<string>, path: string, rootName: string)
    requires |chain| >= 1 && chain[0] == rootName
    ensures ParentRelativePath(above + chain, path, rootName) == ParentRelativePath(chain, path, rootName)
    decreases |chain|
  {
    var whole := above + chain;
    var n := |chain|;
    var parent := chain[n - 1];
    assert whole[|whole| - 1] == parent;
    if parent != rootName {
      var front := chain[..n - 1];
      assert whole[..|whole| - 1] == above + front;
      assert front[0] == rootName;
      ParentRelativePathIgnoresAbove(above, front, parent + "/" + path, rootName);
    }
  }

  /** An intermediate node named like the root truncates the path (a concrete case). */
  lemma SameNamedAncestorTruncates()
    ensures ParentRelativePath(["Root", "Body", "Root", "Arm"], "Hand", "Root") == "Arm/Hand"
    ensures ParentRelativePath(["Root", "Body", "Arm"], "Hand", "Root") == "Body/Arm/Hand"
  {
    var cut: seq<string> := ["Root", "Body", "Root", "Arm"];
    assert cut[..3] == ["Root", "Body", "Root"];
    assert ParentRelativePath(cut, "Hand", "Root") == ParentRelativePath(cut[..3], "Arm/Hand", "Root");
    var full: seq<string> := ["Root", "Body", "Arm"];
    assert full[..2] == ["Root", "Body"];
    assert ["Root", "Body"][..1] == ["Root"];
    assert ParentRelativePath(full, "Hand", "Root") == ParentRelativePath(full[..2], "Arm/Hand", "Root");
    assert ParentRelativePath(full[..2], "Arm/Hand", "Root") == ParentRelativePath(["Root"], "Body/Arm/Hand", "Root");
  }

  /**
   * An empty path splits into one empty segment, so it resolves only when the
   * root has a child called "": a binding on the selected object itself is lost.
   */
  lemma EmptyPathUnresolved(root: Node)
    ensures Find(root, "").Some? <==> exists i :: 0 <= i < |root.children| && root.children[i].name == ""
  {
    assert Split("") == [""];
    assert [""][1..] == [];
  }

  /**
   * The truncation makes a candidate's path unresolvable: under a root `Root`
   * with a child `Root` holding `Hand`, the candidate `Hand` gets the path
   * "Hand", which `Find` does not resolve from the root.
   */
  lemma TruncatedPathUnresolved()
    ensures var hand := Node("Hand", []);
      var root := Node("Root", [Node("Root", [hand])]);
      && |Candidates(root)| == 2
      && Candidates(root)[1] == PathModel("Hand", "Hand")
      && Find(root, "Hand").None?
  {
    var hand := Node("Hand", []);
    var inner := Node("Root", [hand]);
    var root := Node("Root", [inner]);
    var below: seq<string> := ["Root", "Root"];
    assert [inner][..0] == [] && [hand][..0] == [];
    assert ["Root"] + [inner.name] == below;
    assert Forest([hand], below) == [Located(hand, below)];
    assert Forest([inner], ["Root"]) == [] + [Located(inner, ["Root"])] + Forest([hand], below);
    assert ["Root", "Root"][..1] == ["Root"];
    assert ParentRelativePath(["Root", "Root"], "Hand", "Root") == "Hand";
    assert ParentRelativePath(["Root"], "Root", "Root") == "Root";
    assert Split("Hand") == ["Hand"] by { SplitPrefixed("Hand", ""); }
    assert FirstChild(root.children, "Hand").None?;
  }

  /** `new PathModel(go, rootName)`: the object's name and its relative path. */
  function MakePathModel(loc: Located, rootName: string): (m: PathModel)
  {
    PathModel(loc.node.name, ParentRelativePath(loc.ancestors, loc.node.name, rootName))
  }

  /** The candidate list for recovery: one path model per descendant of `root`, in pre-order. */
  function Candidates(root: Node): seq<PathModel> {
    var all := Descendants(root, []);
    seq(|all|, i requires 0 <= i < |all| => MakePathModel(all[i], root.name))
  }

  /** `GetChildObjectNames(root)`: flattens the hierarchy and names each node by its path. */
  method GetChildObjectNames(root: Node) returns (paths: seq<PathModel>)
    ensures paths == Candidates(root)
  {
    var children := GetAllObjects(root);
    paths := [];
    for i := 0 to |children|
      invariant paths == seq(i, k requires 0 <= k < i => MakePathModel(children[k], root.name))
    {
      paths := paths + [MakePathModel(children[i], root.name)];
    }
  }

  /**
   * What a candidate's relative path is: the names between the root and the
   * node, then the node's name, joined by '/', unless some node in between
   * is called like the root; then only the names below the nearest such node.
   */
  lemma CandidatePath(root: Node, k: nat)
    requires k < |Candidates(root)|
    ensures var loc := Descendants(root, [])[k];
      var anc := loc.ancestors;
      && |anc| >= 1 && anc[0] == root.name
      && Candidates(root)[k].objectName == loc.node.name
      && Candidates(root)[k].relativePath
         == Join(anc[LastIndexOf(anc, root.name) + 1..] + [loc.node.name])
      && (root.name !in anc[1..] ==> Candidates(root)[k].relativePath == Join(anc[1..] + [loc.node.name]))
  {
    assert [] + [root.name] == [root.name];
    var loc := Descendants(root, [])[k];
    var anc := loc.ancestors;
    assert Candidates(root)[k] == MakePathModel(loc, root.name);
    ForestAncestors(root.children, [root.name], k);
    ParentRelativePathIsJoin(anc, loc.node.name, root.name);
    if root.name !in anc[1..] {
      NoLaterIndex(anc, root.name);
    }
  }

  /** When `x` heads `s` and occurs nowhere after, its last position is 0. */
  lemma NoLaterIndex(s: seq<string>, x: string)
    requires |s| >= 1 && s[0] == x && x !in s[1..]
    ensures LastIndexOf(s, x) == 0
  {
  }

  /**
   * A candidate's path resolves to that very node when sibling names are
   * unique, names hold no '/', and no node between the root and the
   * candidate is named like the root: a repaired binding then binds again.
   */
  lemma CandidateResolves(root: Node, k: nat)
    requires k < |Candidates(root)| && UniqueSiblingNames(root)
    requires var loc := Descendants(root, [])[k];
      |loc.ancestors| >= 1
      && root.name !in loc.ancestors[1..]
      && AllNoSlash(loc.ancestors[1..] + [loc.node.name])
    ensures Find(root, Candidates(root)[k].relativePath) == Some(Descendants(root, [])[k].node)
  {
    assert [] + [root.name] == [root.name];
    var loc := Descendants(root, [])[k];
    CandidatePath(root, k);
    var segs := loc.ancestors[1..] + [loc.node.name];
    SplitJoin(segs);
    assert root.children[..|root.children|] == root.children;
    ForestWalks(root, |root.children|, [root.name], k);
  }
}
