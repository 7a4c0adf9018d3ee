/**
 * Slash-separated hierarchy paths: splitting a path into its segments the way
 * C#'s `string.Split('/')` does, joining segments back, and the leaf name
 * taken by `GetObjectName` (AnimationValidator.cs, lines 182-189).
 */
module Paths {

  /** True when `s` holds no path separator. */
  predicate NoSlash(s: string) {
    '/' !in s
  }

  /** True when no segment of `parts` holds a path separator. */
  predicate AllNoSlash(parts: seq<string>) {
    forall i :: 0 <= i < |parts| ==> NoSlash(parts[i])
  }

  /**
   * The segments of `s` between separators, as `s.Split('/')` gives them:
   * never empty, empty segments kept ("" gives [""], "a/" gives ["a", ""]).
   */
  function Split(s: string): (parts: seq<string>)
    ensures |parts| >= 1
    decreases |s|
  {
    if s == [] then [""]
    else
      var rest := Split(s[1..]);
      if s[0] == '/' then [""] + rest
      else [[s[0]] + rest[0]] + rest[1..]
  }

  /** No segment of a split holds a separator. */
  lemma {:induction false} SplitNoSlash(s: string)
    ensures AllNoSlash(Split(s))
    decreases |s|
  {
    if s != [] {
      SplitNoSlash(s[1..]);
      var rest := Split(s[1..]);
      if s[0] != '/' {
        assert NoSlash(rest[0]);
        assert Split(s)[1..] == rest[1..];
      }
    }
  }

  /** The segments joined by single separators. */
  function Join(parts: seq<string>): string
    requires |parts| >= 1
    decreases |parts|
  {
    if |parts| == 1 then parts[0] else parts[0] + "/" + Join(parts[1..])
  }

  /**
   * The leaf name of a binding path: "" for an empty path, otherwise the
   * last segment of the split.
   */
  function GetObjectName(path: string): string {
    if path == "" then ""
    else
      var separated := Split(path);
      separated[|separated| - 1]
  }

  /**
   * The leaf name holds no separator, it ends the path, and either it is the
   * whole path or a separator stands just before it: it is the text after
   * the last '/'.
   */
  lemma LeafName(path: string)
    ensures var r := GetObjectName(path);
      && NoSlash(r)
      && |r| <= |path| && path[|path| - |r|..] == r
      && (|r| < |path| ==> path[|path| - |r| - 1] == '/')
  {
    if path != "" {
      SplitLast(path);
      SplitNoSlash(path);
    }
  }

  /** The last segment of a split is the text after the last separator. */
  lemma {:induction false} SplitLast(s: string)
    ensures var last := Split(s)[|Split(s)| - 1];
      |last| <= |s| && s[|s| - |last|..] == last
      && (|last| < |s| ==> s[|s| - |last| - 1] == '/')
    decreases |s|
  {
    if s != [] {
      var rest := Split(s[1..]);
      SplitLast(s[1..]);
      var t := s[1..];
      var last := rest[|rest| - 1];
      assert t[|t| - |last|..] == last;
      if s[0] == '/' || |rest| > 1 {
        assert Split(s)[|Split(s)| - 1] == last;
        assert s[|s| - |last|..] == t[|t| - |last|..];
        if |last| < |t| {
          assert s[|s| - |last| - 1] == t[|t| - |last| - 1];
        } else {
          assert |last| == |t| && s[|s| - |last| - 1] == s[0];
          if s[0] != '/' {
            // then |rest| > 1, so `rest[0]` and a separator precede `last` in `t`
            SplitLengths(t);
            assert false;
          }
        }
      } else {
        assert Split(s)[|Split(s)| - 1] == [s[0]] + rest[0];
        assert |last| == |t| by { SplitLengths(t); }
        assert s == [s[0]] + t;
      }
    }
  }

  /** A split with k segments consumes k - 1 separators besides their text. */
  lemma {:induction false} SplitLengths(s: string)
    ensures |Split(s)| == 1 ==> |Split(s)[0]| == |s|
    ensures |Split(s)| > 1 ==> |Split(s)[|Split(s)| - 1]| < |s|
    decreases |s|
  {
    if s != [] {
      SplitLengths(s[1..]);
      var rest := Split(s[1..]);
      if |rest| > 1 {
        assert Split(s)[|Split(s)| - 1] == rest[|rest| - 1];
      }
    }
  }

  /** Splitting and joining back gives the path unchanged. */
  lemma {:induction false} JoinSplit(s: string)
    ensures Join(Split(s)) == s
    decreases |s|
  {
    if s != [] {
      var rest := Split(s[1..]);
      JoinSplit(s[1..]);
      if s[0] == '/' {
        assert Split(s)[1..] == rest;
        assert Join(Split(s)) == "" + "/" + Join(rest);
      } else {
        var parts := Split(s);
        assert parts == [[s[0]] + rest[0]] + rest[1..];
        if |rest| == 1 {
          assert Join(parts) == [s[0]] + rest[0];
        } else {
          assert parts[1..] == rest[1..];
          assert Join(parts) == [s[0]] + rest[0] + "/" + Join(rest[1..]);
        }
        assert s == [s[0]] + s[1..];
      }
    }
  }

  /** Splitting a separator-free text prefixed to the rest of a path. */
  lemma {:induction false} SplitPrefixed(a: string, t: string)
    requires NoSlash(a)
    ensures Split(a + "/" + t) == [a] + Split(t)
    ensures Split(a) == [a]
    decreases |a|
  {
    if a == [] {
      assert a + "/" + t == ['/'] + t;
      assert (a + "/" + t)[1..] == t;
    } else {
      SplitPrefixed(a[1..], t);
      assert (a + "/" + t)[1..] == a[1..] + "/" + t;
      assert Split(a[1..]) == [a[1..]];
      assert [a[0]] + a[1..] == a;
    }
  }

  /** Joining separator-free segments and splitting again gives them back. */
  lemma {:induction false} SplitJoin(parts: seq<string>)
    requires |parts| >= 1 && AllNoSlash(parts)
    ensures Split(Join(parts)) == parts
    decreases |parts|
  {
    SplitPrefixed(parts[0], "");
    if |parts| > 1 {
      SplitJoin(parts[1..]);
      SplitPrefixed(parts[0], Join(parts[1..]));
      assert parts == [parts[0]] + parts[1..];
    }
  }

  /** The leaf name of joined separator-free segments is the last segment. */
  lemma {:induction false} LeafOfJoin(parts: seq<string>)
    requires |parts| >= 1 && AllNoSlash(parts)
    ensures GetObjectName(Join(parts)) == parts[|parts| - 1]
  {
    var path := Join(parts);
    SplitJoin(parts);
    if path == "" {
      assert Split(path) == [""];
      assert parts == [""];
    } else {
      assert GetObjectName(path) == Split(path)[|Split(path)| - 1];
    }
  }

  /** Appending a separator and a separator-free name: that name is the leaf. */
  lemma LeafAfterSeparator(prefix: string, name: string)
    requires NoSlash(name)
    ensures GetObjectName(prefix + "/" + name) == name
  {
    var p := prefix + "/" + name;
    var r := GetObjectName(p);
    LeafName(p);
    assert p[|p| - |name| - 1] == '/';
    assert p[|p| - |r|..] == name[|name| - |r|..];
  }
}
