/** Slash-separated device paths: `strings.Split(p, "/")`,
    `strings.Join(parts, "/")`, and the `filepath.Dir`, `filepath.Base` and
    `filepath.Join` forms the scanner applies to the already clean, relative
    paths that a directory walk produces. */
module Paths {
  import opened Strings

  /** strings.Split(s, "/"): the text between slashes; never empty. */
  function Split(s: string): (parts: seq<string>)
    ensures |parts| >= 1
    ensures forall i :: 0 <= i < |parts| ==> '/' !in parts[i]
    decreases |s|
  {
    var (first, rest, found) := Cut(s, '/');
    if found then [first] + Split(rest) else [s]
  }

  /** strings.Join(parts, "/"). */
  function Join(parts: seq<string>): string
    requires |parts| >= 1
  {
    if |parts| == 1 then parts[0]
    else Join(parts[..|parts| - 1]) + "/" + parts[|parts| - 1]
  }

  /** Joining two non-empty runs of segments puts one slash between them. */
  lemma {:induction false} JoinAppend(x: seq<string>, y: seq<string>)
    requires |x| >= 1 && |y| >= 1
    ensures Join(x + y) == Join(x) + "/" + Join(y)
    decreases |y|
  {
    var xy := x + y;
    assert xy[..|xy| - 1] == x + y[..|y| - 1];
    if |y| == 1 {
      assert xy[..|xy| - 1] == x;
    } else {
      JoinAppend(x, y[..|y| - 1]);
    }
  }

  /** Split distributes over a slash: the segments of `a/r` are those of `a`
      followed by those of `r`. */
  lemma {:induction false} SplitAppend(a: string, r: string)
    ensures Split(a + "/" + r) == Split(a) + Split(r)
    decreases |a|
  {
    var s := a + "/" + r;
    if '/' !in a {
      CutJoin(a, '/', r);
    } else {
      var (first, rest, _) := Cut(a, '/');
      assert s == first + "/" + (rest + "/" + r);
      CutJoin(first, '/', rest + "/" + r);
      SplitAppend(rest, r);
    }
  }

  /** Joining the segments of a path gives the path back. */
  lemma {:induction false} JoinSplit(s: string)
    ensures Join(Split(s)) == s
    decreases |s|
  {
    var (first, rest, found) := Cut(s, '/');
    if found {
      JoinSplit(rest);
      JoinAppend([first], Split(rest));
    }
  }

  /** Splitting a join of slash-free segments gives the segments back. */
  lemma {:induction false} SplitJoin(parts: seq<string>)
    requires |parts| >= 1
    requires forall i :: 0 <= i < |parts| ==> '/' !in parts[i]
    ensures Split(Join(parts)) == parts
    decreases |parts|
  {
    var last := parts[|parts| - 1];
    assert Cut(last, '/') == (last, "", false);
    if |parts| > 1 {
      var init := parts[..|parts| - 1];
      SplitJoin(init);
      SplitAppend(Join(init), last);
      assert parts == init + [last];
    }
  }

  /** `a` names a directory strictly above `p`: `p` is `a`, a slash and more. */
  predicate IsAncestor(a: string, p: string) {
    |a| < |p| && p[..|a|] == a && p[|a|] == '/'
  }

  /** The number of segments of a path, its depth. */
  function Depth(p: string): nat {
    |Split(p)|
  }

  /** A path is `a`, a slash and `r` exactly when `a` is an ancestor. */
  lemma AncestorDecompose(a: string, p: string)
    requires IsAncestor(a, p)
    ensures p == a + "/" + p[|a| + 1..]
  {
  }

  /** An ancestor is a join of the leading segments of the path, and it is
      shallower than the path. */
  lemma AncestorIsPrefixJoin(a: string, p: string)
    requires IsAncestor(a, p)
    ensures 1 <= Depth(a) < Depth(p)
    ensures Split(p)[..Depth(a)] == Split(a)
    ensures Join(Split(p)[..Depth(a)]) == a
  {
    var r := p[|a| + 1..];
    AncestorDecompose(a, p);
    SplitAppend(a, r);
    JoinSplit(a);
  }

  /** Every join of a proper leading run of segments is an ancestor. */
  lemma PrefixJoinIsAncestor(p: string, i: nat)
    requires 1 <= i < Depth(p)
    ensures IsAncestor(Join(Split(p)[..i]), p)
  {
    var parts := Split(p);
    assert parts == parts[..i] + parts[i..];
    JoinAppend(parts[..i], parts[i..]);
    JoinSplit(p);
    var a := Join(parts[..i]);
    assert p == a + "/" + Join(parts[i..]);
    assert p[..|a|] == a;
  }

  /** Longer leading runs of segments join to longer strings. */
  lemma PrefixJoinLonger(parts: seq<string>, i: nat, j: nat)
    requires 1 <= i < j <= |parts|
    ensures |Join(parts[..i])| < |Join(parts[..j])|
  {
    assert parts[..j] == parts[..i] + parts[i..j];
    JoinAppend(parts[..i], parts[i..j]);
  }

  /** io/fs.ValidPath: "." alone, or segments none of which is empty, "."
      or "..". Every path a directory walk reports has this form. */
  predicate ValidPath(p: string) {
    p == "." || forall i :: 0 <= i < |Split(p)| ==> Split(p)[i] !in {"", ".", ".."}
  }

  /** filepath.Dir for a clean relative path: everything before the last
      slash, or "." when there is none. */
  function Dir(p: string): string {
    var parts := Split(p);
    if |parts| == 1 then "." else Join(parts[..|parts| - 1])
  }

  /** filepath.Base for a clean relative path: the last segment. */
  function Base(p: string): string {
    var parts := Split(p);
    parts[|parts| - 1]
  }

  /** filepath.Join(dir, name) for a clean directory and a plain name. */
  function PathJoin(dir: string, name: string): string {
    if dir == "." then name else dir + "/" + name
  }

  /** The directory of a top-level path is "."; below the top level it is
      the ancestor made of all segments but the last. */
  lemma DirOf(p: string)
    ensures Depth(p) == 1 ==> Dir(p) == "."
    ensures Depth(p) >= 2 ==> IsAncestor(Dir(p), p) && Split(Dir(p)) == Split(p)[..Depth(p) - 1]
  {
    var parts := Split(p);
    if |parts| >= 2 {
      PrefixJoinIsAncestor(p, |parts| - 1);
      SplitJoin(parts[..|parts| - 1]);
    }
  }

  /** The base name is the slash-free tail of the path. */
  lemma BaseOf(p: string)
    ensures '/' !in Base(p)
    ensures |Base(p)| <= |p| && p[|p| - |Base(p)|..] == Base(p)
    ensures |Base(p)| == |p| || (|Base(p)| < |p| && p[|p| - |Base(p)| - 1] == '/')
  {
    var parts := Split(p);
    var n := |parts|;
    JoinSplit(p);
    if n >= 2 {
      var dir := Join(parts[..n - 1]);
      assert p == dir + "/" + parts[n - 1];
      assert p[|dir|] == '/' && |p| - |Base(p)| - 1 == |dir|;
    }
  }

  /** Joining a name below a directory other than "." appends its segments,
      and the directory is an ancestor of the result. */
  lemma PathJoinOf(dir: string, name: string)
    ensures dir == "." ==> PathJoin(dir, name) == name
    ensures dir != "." ==> IsAncestor(dir, PathJoin(dir, name))
    ensures dir != "." ==> Split(PathJoin(dir, name)) == Split(dir) + Split(name)
  {
    if dir != "." {
      SplitAppend(dir, name);
    }
  }

  /** A walked path is its directory joined with its base name; below the
      top level the directory is an ancestor of it. */
  lemma DirBase(p: string)
    requires ValidPath(p)
    ensures PathJoin(Dir(p), Base(p)) == p
    ensures Depth(p) >= 2 ==> IsAncestor(Dir(p), p)
  {
    var parts := Split(p);
    var n := |parts|;
    JoinSplit(p);
    if n >= 2 {
      assert parts == parts[..n - 1] + [parts[n - 1]];
      DirOf(p);
      assert Split(".") == ["."];
    }
  }

}
