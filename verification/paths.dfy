/** POSIX paths as the plugins see them.

    A location in the corpus is a normalized absolute path, written as the sequence of its
    segments (`/docs/foo/One.md` is `["docs", "foo", "One.md"]`). A relative path is a
    segment sequence too, where `..` climbs one directory; the empty sequence is `.`.
    Text written inside a link goes through the `pathlib` model (`PureParts` and friends),
    and text handed to `os.path` through `NormAbs`. */
module Paths {
  import opened Strings

  type Segs = seq<string>

  /** A segment that names a directory entry, as every segment of a normalized path does. */
  predicate PlainSegment(x: string) {
    x != "" && x != "." && x != ".." && '/' !in x
  }

  predicate Normal(p: Segs) {
    forall i :: 0 <= i < |p| ==> PlainSegment(p[i])
  }

  /** `Path.name` of a location: its final segment, or `''` for the root. */
  function Name(p: Segs): string {
    if |p| == 0 then "" else p[|p| - 1]
  }

  /** `Path.parent` of a location; the root is its own parent. */
  function Parent(p: Segs): (r: Segs)
    ensures |p| > 0 ==> r + [Name(p)] == p
    ensures |p| == 0 ==> r == p
  {
    if |p| == 0 then p else p[..|p| - 1]
  }

  /** `n` copies of `..`. */
  function Up(n: nat): (r: Segs)
    ensures |r| == n
    ensures forall i :: 0 <= i < n ==> r[i] == ".."
  {
    seq(n, _ => "..")
  }

  /** Length of the longest common prefix of `a` and `b`. */
  function CommonPrefixLen(a: Segs, b: Segs): (k: nat)
    ensures k <= |a| && k <= |b|
    ensures a[..k] == b[..k]
    ensures k < |a| && k < |b| ==> a[k] != b[k]
    decreases |a|
  {
    if |a| == 0 || |b| == 0 || a[0] != b[0] then 0
    else 1 + CommonPrefixLen(a[1..], b[1..])
  }

  /** `os.path.relpath(target, start)` for normalized absolute paths: climb out of the part
      of `start` not shared with `target`, then descend into the rest of `target`. */
  function RelPath(target: Segs, start: Segs): (r: Segs)
    ensures var k := CommonPrefixLen(target, start);
      |r| == (|start| - k) + (|target| - k)
  {
    var k := CommonPrefixLen(target, start);
    Up(|start| - k) + target[k..]
  }

  /** `str()` of a relative path: segments joined with `/`, and `.` for the empty path. */
  function RelStr(r: Segs): string {
    if |r| == 0 then "." else JoinWith("/", r)
  }

  /** `/`-joined absolute path text of a location. */
  function AbsStr(p: Segs): string {
    "/" + JoinWith("/", p)
  }

  /** One step of `os.path.normpath`: `..` leaves the current directory (the root stays the
      root), empty and `.` segments stay put, any other segment enters a subdirectory. */
  function StepInto(dir: Segs, x: string): Segs {
    if x == ".." then (if |dir| == 0 then dir else dir[..|dir| - 1])
    else if x == "" || x == "." then dir
    else dir + [x]
  }

  /** The directory reached from `dir` by walking the segments of `rel` in order. */
  function Resolve(dir: Segs, rel: Segs): Segs
    decreases |rel|
  {
    if |rel| == 0 then dir else Resolve(StepInto(dir, rel[0]), rel[1..])
  }

  /** Walking plain-named steps from a normalized directory stays normalized. */
  lemma {:induction false} ResolveNormal(dir: Segs, rel: Segs)
    requires Normal(dir)
    requires forall i :: 0 <= i < |rel| ==> '/' !in rel[i]
    ensures Normal(Resolve(dir, rel))
    decreases |rel|
  {
    if |rel| > 0 {
      assert forall i :: 0 <= i < |rel[1..]| ==> rel[1..][i] == rel[i + 1];
      ResolveNormal(StepInto(dir, rel[0]), rel[1..]);
    }
  }

  /** `os.path.abspath` of an absolute path text, as segments. */
  function NormAbs(s: string): Segs {
    Resolve([], SplitOn(s, '/'))
  }

  lemma NormAbsNormal(s: string)
    ensures Normal(NormAbs(s))
  {
    ResolveNormal([], SplitOn(s, '/'));
  }

  lemma {:induction false} ResolveConcat(dir: Segs, a: Segs, b: Segs)
    ensures Resolve(dir, a + b) == Resolve(Resolve(dir, a), b)
    decreases |a|
  {
    if |a| > 0 {
      assert (a + b)[0] == a[0];
      assert (a + b)[1..] == a[1..] + b;
      ResolveConcat(StepInto(dir, a[0]), a[1..], b);
    } else {
      assert a + b == b;
    }
  }

  lemma {:induction false} ResolvePlain(dir: Segs, a: Segs)
    requires Normal(a)
    ensures Resolve(dir, a) == dir + a
    decreases |a|
  {
    if |a| > 0 {
      ResolvePlain(dir + [a[0]], a[1..]);
      assert dir + [a[0]] + a[1..] == dir + a;
    }
  }

  lemma {:induction false} ResolveUp(dir: Segs, n: nat)
    requires n <= |dir|
    ensures Resolve(dir, Up(n)) == dir[..|dir| - n]
    decreases n
  {
    if n > 0 {
      assert Up(n)[1..] == Up(n - 1);
      ResolveUp(dir[..|dir| - 1], n - 1);
      assert dir[..|dir| - 1][..|dir| - 1 - (n - 1)] == dir[..|dir| - n];
    }
  }

  /** The relative path leads back to its target: walking `RelPath(target, start)` from
      `start` arrives at `target`. */
  lemma RelPathResolves(target: Segs, start: Segs)
    requires Normal(target)
    ensures Resolve(start, RelPath(target, start)) == target
  {
    var k := CommonPrefixLen(target, start);
    ResolveConcat(start, Up(|start| - k), target[k..]);
    ResolveUp(start, |start| - k);
    assert start[..k] == target[..k];
    ResolvePlain(target[..k], target[k..]);
    assert target[..k] + target[k..] == target;
  }

  /** Relative from a directory to itself is the empty path, printed as `.`. */
  lemma RelPathToSelf(p: Segs)
    ensures RelPath(p, p) == [] && RelStr(RelPath(p, p)) == "."
  {
    assert CommonPrefixLen(p, p) == |p|;
  }

  /** From a location's parent to the location is its bare name. */
  lemma RelPathToChild(p: Segs)
    requires |p| > 0
    ensures RelPath(p, Parent(p)) == [Name(p)]
  {
    assert CommonPrefixLen(p, Parent(p)) == |p| - 1;
  }

  // ---- pathlib.PurePosixPath of link text ----

  /** The root `pathlib` recognises: exactly two leading slashes are kept, one or three or
      more become a single `/`. */
  function PureRoot(s: string): string {
    if |s| == 0 || s[0] != '/' then ""
    else if |s| >= 2 && s[1] == '/' && !(|s| >= 3 && s[2] == '/') then "//"
    else "/"
  }

  /** The non-root parts `pathlib` keeps: empty and `.` pieces are dropped. */
  function PureParts(s: string): (r: Segs)
    ensures forall i :: 0 <= i < |r| ==> r[i] != "" && r[i] != "." && '/' !in r[i]
  {
    var rel := s[|PureRoot(s)|..];
    KeepParts(SplitOn(rel, '/'))
  }

  function KeepParts(xs: Segs): (r: Segs)
    ensures forall i :: 0 <= i < |r| ==> r[i] in xs && r[i] != "" && r[i] != "."
    ensures (forall i :: 0 <= i < |xs| ==> xs[i] != "" && xs[i] != ".") ==> r == xs
    decreases |xs|
  {
    if |xs| == 0 then []
    else if xs[0] == "" || xs[0] == "." then KeepParts(xs[1..])
    else [xs[0]] + KeepParts(xs[1..])
  }

  /** `Path(s).name`. */
  function PureName(s: string): string {
    Name(PureParts(s))
  }

  /** `str(Path(s))`. */
  function PureStr(s: string): string {
    var root := PureRoot(s);
    var parts := PureParts(s);
    if root == "" && |parts| == 0 then "." else root + JoinWith("/", parts)
  }

  // ---- os.path on strings ----

  /** `os.path.join(a, b)`. */
  function PyJoin(a: string, b: string): string {
    if |b| > 0 && b[0] == '/' then b
    else if |a| == 0 || a[|a| - 1] == '/' then a + b
    else a + "/" + b
  }

  /** `os.path.basename(p)`. */
  function Basename(p: string): (r: string)
    ensures '/' !in r
  {
    p[AfterLast(p, '/')..]
  }

  /** `os.path.dirname(p)`: everything before the last `/`, trailing slashes removed unless
      the head is all slashes. */
  function Dirname(p: string): string {
    var head := p[..AfterLast(p, '/')];
    if |head| > 0 && exists k :: 0 <= k < |head| && head[k] != '/'
    then head[..|head| - TrailCount(head, c => c == '/')]
    else head
  }

  // ---- os.path on the text of locations ----

  /** The text of a non-empty list of plain segments neither begins nor ends with `/`. */
  lemma JoinPlainEnds(p: Segs)
    requires Normal(p) && |p| > 0
    ensures var j := JoinWith("/", p); |j| > 0 && j[0] != '/' && j[|j| - 1] != '/'
  {
    JoinEnds("/", p);
    var j := JoinWith("/", p);
    var first, last := p[0], p[|p| - 1];
    assert PlainSegment(first) && PlainSegment(last);
    assert j[0] == j[..|first|][0] == first[0];
    assert j[|j| - 1] == j[|j| - |last|..][|last| - 1] == last[|last| - 1];
  }

  /** `os.path.abspath` reads the text of a location back as that location. */
  lemma NormAbsAbs(p: Segs)
    requires Normal(p)
    ensures NormAbs(AbsStr(p)) == p
  {
    var j := JoinWith("/", p);
    var s := "/" + j;
    assert IndexOf(s, '/') == 0;
    assert s[1..] == j;
    assert SplitOn(s, '/') == [""] + SplitOn(j, '/');
    if |p| == 0 {
      assert SplitOn(j, '/') == [""];
      assert Resolve([], [""]) == [];
      assert Resolve([], ["", ""]) == Resolve([], [""]);
    } else {
      SplitJoin(p, '/');
      assert ([""] + p)[1..] == p;
      assert Resolve([], [""] + p) == Resolve([], p);
      ResolvePlain([], p);
    }
  }

  /** `os.path.join` of a location's text with a relative path of plain segments is the
      text of the location reached. */
  lemma PyJoinAbs(dir: Segs, rel: Segs)
    requires Normal(dir) && Normal(rel) && |rel| > 0
    ensures PyJoin(AbsStr(dir), JoinWith("/", rel)) == AbsStr(dir + rel)
  {
    var b := JoinWith("/", rel);
    JoinPlainEnds(rel);
    if |dir| == 0 {
      assert dir + rel == rel;
      assert AbsStr(dir) == "/";
    } else {
      var a := JoinWith("/", dir);
      JoinPlainEnds(dir);
      var abs := "/" + a;
      assert abs[|abs| - 1] == a[|a| - 1];
      assert PyJoin(abs, b) == abs + "/" + b;
      JoinConcat("/", dir, rel);
      ConcatAssoc("/", a, "/");
      ConcatAssoc("/", a + "/", b);
    }
  }

  /** `os.path.dirname` of a location's text is the text of its parent. */
  lemma DirnameAbs(p: Segs, name: string)
    requires Normal(p) && PlainSegment(name)
    ensures Dirname(AbsStr(p + [name])) == AbsStr(p)
  {
    if |p| == 0 {
      assert p + [name] == [name];
      assert AbsStr(p + [name]) == "/" + name;
      DirnameRoot(name);
    } else {
      var a := JoinWith("/", p);
      JoinConcat("/", p, [name]);
      assert JoinWith("/", p + [name]) == a + "/" + name;
      Strings.ConcatAssoc("/", a + "/", name);
      Strings.ConcatAssoc("/", a, "/");
      assert AbsStr(p + [name]) == "/" + a + "/" + name;
      JoinPlainEnds(p);
      DirnameNested(a, name);
    }
  }

  /** The parent of a top-level entry is the root. */
  lemma DirnameRoot(name: string)
    requires PlainSegment(name)
    ensures Dirname("/" + name) == "/"
  {
    DirnameAt("/" + name, 1);
  }

  /** The parent of an entry below a non-root directory is that directory. */
  lemma DirnameNested(a: string, name: string)
    requires |a| > 0 && a[0] != '/' && a[|a| - 1] != '/' && PlainSegment(name)
    ensures Dirname("/" + a + "/" + name) == "/" + a
  {
    var head := "/" + a + "/";
    var s := head + name;
    assert head[1] == a[0] && head[|head| - 2] == a[|a| - 1];
    assert s[..|head|] == head;
    DirnameAt(s, |head|);
    assert s[..|head| - 1] == "/" + a;
  }

  /** `dirname` of a text whose last `/` sits just before position `n`. */
  lemma DirnameAt(s: string, n: nat)
    requires 0 < n <= |s| && s[n - 1] == '/' && forall k :: n <= k < |s| ==> s[k] != '/'
    requires n == 1 || (s[n - 2] != '/' && s[1] != '/')
    ensures Dirname(s) == if n == 1 then s[..1] else s[..n - 1]
  {
    var i := AfterLast(s, '/');
    assert i == n;
    var head := s[..n];
    if n > 1 {
      assert head[1] != '/';
      var t := TrailCount(head, c => c == '/');
      assert t == 1;
    } else {
      assert forall k :: 0 <= k < |head| ==> head[k] == '/';
    }
  }
}
