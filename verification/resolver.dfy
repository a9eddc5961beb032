/** Choosing among same-named candidates (`best_path`, `find_best_path`). */
module Resolver {
  import opened Wrappers
  import opened Paths
  import opened FileIndex

  /** Index of the first shortest path in `rels`: the element Python's `min(rels, key=len)`
      returns, since `min` only replaces its running best with a strictly shorter one. */
  function FirstShortest(rels: seq<Segs>): (i: nat)
    requires |rels| > 0
    ensures i < |rels|
    ensures forall j :: 0 <= j < |rels| ==> |rels[i]| <= |rels[j]|
    ensures forall j :: 0 <= j < i ==> |rels[j]| > |rels[i]|
    decreases |rels|
  {
    if |rels| == 1 then 0
    else
      var k := FirstShortest(rels[..|rels| - 1]);
      if |rels[|rels| - 1]| < |rels[k]| then |rels| - 1 else k
  }

  /** Candidate `i` is the winner: no candidate is closer to `dir`, and every earlier one is
      strictly farther. */
  predicate IsFirstShortest(cands: seq<Segs>, dir: Segs, i: int) {
    && 0 <= i < |cands|
    && (forall j :: 0 <= j < |cands| ==> |RelPath(cands[i], dir)| <= |RelPath(cands[j], dir)|)
    && (forall j :: 0 <= j < i ==> |RelPath(cands[j], dir)| > |RelPath(cands[i], dir)|)
  }

  /** The winner is unique, so the choice never depends on anything but the candidate order. */
  lemma FirstShortestUnique(cands: seq<Segs>, dir: Segs, i: int, j: int)
    requires IsFirstShortest(cands, dir, i) && IsFirstShortest(cands, dir, j)
    ensures i == j
  {
    assert |RelPath(cands[i], dir)| == |RelPath(cands[j], dir)|;
  }

  datatype ResolveError = NoCandidatesError

  /** Every candidate made relative to `dir`, in candidate order. */
  function RelPaths(cands: seq<Segs>, dir: Segs): (rels: seq<Segs>)
    ensures |rels| == |cands|
    ensures forall j :: 0 <= j < |cands| ==> rels[j] == RelPath(cands[j], dir)
  {
    seq(|cands|, j requires 0 <= j < |cands| => RelPath(cands[j], dir))
  }

  /** `best_path`: the relative path from `pageDir` to the candidate with the fewest path
      parts, the earliest such candidate on ties; `NoCandidatesError` when there is none. */
  function BestPath(pageDir: Segs, cands: seq<Segs>): (r: Result<Segs, ResolveError>)
    ensures r.Failure? <==> |cands| == 0
    ensures |cands| == 1 ==> r == Success(RelPath(cands[0], pageDir))
    ensures r.Success? ==>
      exists i :: IsFirstShortest(cands, pageDir, i) && r.value == RelPath(cands[i], pageDir)
  {
    if |cands| == 1 then
      assert IsFirstShortest(cands, pageDir, 0);
      Success(RelPath(cands[0], pageDir))
    else if |cands| > 1 then
      var rels := RelPaths(cands, pageDir);
      var i := FirstShortest(rels);
      assert IsFirstShortest(cands, pageDir, i) && rels[i] == RelPath(cands[i], pageDir);
      Success(rels[i])
    else Failure(NoCandidatesError)
  }

  /** `find_best_path`: look up the link's bare filename and resolve it from the page's
      directory. Unknown names and empty candidate lists give `None`; nothing is raised. */
  function FindBestPath(ix: Index, linkName: string, pagePath: Segs): (r: Option<Segs>)
    ensures r.None? <==> linkName !in ix || |ix[linkName]| == 0
    ensures r.Some? ==> exists i :: (IsFirstShortest(ix[linkName], Parent(pagePath), i)
      && r.value == RelPath(ix[linkName][i], Parent(pagePath)))
  {
    if linkName !in ix then None
    else
      match BestPath(Parent(pagePath), ix[linkName])
      case Success(p) => Some(p)
      case Failure(_) => None
  }

  /** Resolution against an index built from the corpus: `None` exactly when no location has
      the link's filename; otherwise the relative path to a location with that filename that
      is no farther than any other such location, and strictly nearer than every earlier one. */
  lemma ResolveInCorpus(files: seq<Segs>, linkName: string, pagePath: Segs)
    ensures var r := FindBestPath(BuildFileMap(files), linkName, pagePath);
      && (r.None? <==> !HasName(files, linkName))
      && (r.Some? ==> exists i :: (0 <= i < |files| && Name(files[i]) == linkName
            && r.value == RelPath(files[i], Parent(pagePath))
            && forall j :: (0 <= j < |files| && Name(files[j]) == linkName ==>
                 |r.value| <= |RelPath(files[j], Parent(pagePath))|)))
  {
    var ix := BuildFileMap(files);
    var r := FindBestPath(ix, linkName, pagePath);
    if r.Some? {
      var dir := Parent(pagePath);
      var cands := ix[linkName];
      assert cands == Select(files, linkName);
      var i :| IsFirstShortest(cands, dir, i) && r.value == RelPath(cands[i], dir);
      var fi := SelectIndex(files, linkName, i);
      forall j | 0 <= j < |files| && Name(files[j]) == linkName
        ensures |r.value| <= |RelPath(files[j], dir)|
      {
        var sj := SelectHas(files, linkName, j);
      }
    }
  }

  /** Entry `j` of `Select(files, key)` is one of the supplied locations. */
  lemma {:induction false} SelectIndex(files: seq<Segs>, key: string, j: nat) returns (i: nat)
    requires j < |Select(files, key)|
    ensures i < |files| && files[i] == Select(files, key)[j] && Name(files[i]) == key
    decreases |files|
  {
    var init := files[..|files| - 1];
    var last := files[|files| - 1];
    if j < |Select(init, key)| {
      i := SelectIndex(init, key, j);
    } else {
      i := |files| - 1;
    }
  }

  /** Every supplied location with filename `key` is some entry of `Select(files, key)`. */
  lemma {:induction false} SelectHas(files: seq<Segs>, key: string, i: nat) returns (j: nat)
    requires i < |files| && Name(files[i]) == key
    ensures j < |Select(files, key)| && Select(files, key)[j] == files[i]
    decreases |files|
  {
    var init := files[..|files| - 1];
    if i == |files| - 1 {
      j := |Select(init, key)|;
    } else {
      j := SelectHas(init, key, i);
    }
  }

  /** When only location `k` has filename `key`, it is the whole candidate list. */
  lemma {:induction false} SelectSingle(files: seq<Segs>, key: string, k: nat)
    requires k < |files| && Name(files[k]) == key
    requires forall j :: 0 <= j < |files| && j != k ==> Name(files[j]) != key
    ensures Select(files, key) == [files[k]]
    decreases |files|
  {
    var init := files[..|files| - 1];
    if k == |files| - 1 {
      if |Select(init, key)| > 0 {
        var i := SelectIndex(init, key, 0);
      }
    } else {
      SelectSingle(init, key, k);
    }
  }

  /** A filename carried by exactly one location resolves to the direct relative path to it,
      whatever other filenames collide elsewhere. */
  lemma UniqueNameResolvesDirectly(files: seq<Segs>, k: nat, pagePath: Segs)
    requires k < |files|
    requires forall j :: 0 <= j < |files| && j != k ==> Name(files[j]) != Name(files[k])
    ensures FindBestPath(BuildFileMap(files), Name(files[k]), pagePath)
      == Some(RelPath(files[k], Parent(pagePath)))
  {
    var name := Name(files[k]);
    assert HasName(files, name);
    SelectSingle(files, name, k);
  }
}
