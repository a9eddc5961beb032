/** The filename index (`build_file_map`): every location of the corpus, filed under its
    bare filename. */
module FileIndex {
  import opened Paths

  /** Bare filename to the ordered list of locations carrying it. */
  type Index = map<string, seq<Segs>>

  /** The locations in `files` whose bare filename is `key`, in supply order. */
  function Select(files: seq<Segs>, key: string): (r: seq<Segs>)
    ensures |r| <= |files|
    ensures forall j :: 0 <= j < |r| ==> Name(r[j]) == key
    decreases |files|
  {
    if |files| == 0 then []
    else
      var last := files[|files| - 1];
      Select(files[..|files| - 1], key) + (if Name(last) == key then [last] else [])
  }

  /** Appends one location to the list of its filename, creating the list if needed. */
  function Add(ix: Index, f: Segs): Index {
    var k := Name(f);
    ix[k := (if k in ix then ix[k] else []) + [f]]
  }

  predicate HasName(files: seq<Segs>, key: string) {
    exists i :: 0 <= i < |files| && Name(files[i]) == key
  }

  /** `build_file_map`: a key for every filename that occurs, and under it exactly the
      locations with that filename, in supply order, duplicates kept. */
  function BuildFileMap(files: seq<Segs>): (ix: Index)
    ensures forall k :: k in ix <==> HasName(files, k)
    ensures forall k :: k in ix ==> ix[k] == Select(files, k) && |ix[k]| > 0
    decreases |files|
  {
    if |files| == 0 then map[]
    else
      var init := files[..|files| - 1];
      var last := files[|files| - 1];
      var ix := BuildFileMap(init);
      HasNameSnoc(files);
      NotFiledSelectsNothing(init, ix);
      Add(ix, last)
  }

  /** A filename occurs in `files` exactly when it occurs before the last location or is the
      last location's. */
  lemma HasNameSnoc(files: seq<Segs>)
    requires |files| > 0
    ensures var init := files[..|files| - 1];
      forall k :: HasName(files, k) <==> HasName(init, k) || Name(files[|files| - 1]) == k
  {
    var init := files[..|files| - 1];
    var last := files[|files| - 1];
    forall k ensures HasName(files, k) ==> HasName(init, k) || Name(last) == k {
      if HasName(files, k) && Name(last) != k {
        var i :| 0 <= i < |files| && Name(files[i]) == k;
        assert i < |init| && init[i] == files[i];
      }
    }
    forall k ensures HasName(init, k) ==> HasName(files, k) {
      if HasName(init, k) {
        var i :| 0 <= i < |init| && Name(init[i]) == k;
        assert files[i] == init[i];
      }
    }
  }

  /** A filename with no key selects no location. */
  lemma NotFiledSelectsNothing(files: seq<Segs>, ix: Index)
    requires forall k :: k in ix <==> HasName(files, k)
    ensures forall k :: k !in ix ==> Select(files, k) == []
  {
    forall k | k !in ix ensures Select(files, k) == [] {
      if |Select(files, k)| > 0 {
        SelectMember(files, k, 0);
      }
    }
  }

  /** Every entry `Select` returns is one of the supplied locations. */
  lemma {:induction false} SelectMember(files: seq<Segs>, key: string, j: nat)
    requires j < |Select(files, key)|
    ensures HasName(files, key)
    decreases |files|
  {
    var init := files[..|files| - 1];
    var last := files[|files| - 1];
    if Name(last) == key {
      assert Name(files[|files| - 1]) == key;
    } else {
      assert Select(files, key) == Select(init, key);
      SelectMember(init, key, j);
      var i :| 0 <= i < |init| && Name(init[i]) == key;
      assert files[i] == init[i];
    }
  }

  // ---- total number of entries ----

  /** The distinct filenames of `files` in order of first occurrence: the key order of the
      Python dictionary. */
  function KeyOrder(files: seq<Segs>): seq<string>
    decreases |files|
  {
    if |files| == 0 then []
    else
      var ks := KeyOrder(files[..|files| - 1]);
      var k := Name(files[|files| - 1]);
      if k in ks then ks else ks + [k]
  }

  predicate Distinct(ks: seq<string>) {
    forall i, j :: 0 <= i < j < |ks| ==> ks[i] != ks[j]
  }

  /** Number of locations filed under the keys `ks`. */
  function Total(ix: Index, ks: seq<string>): nat
    decreases |ks|
  {
    if |ks| == 0 then 0
    else
      var k := ks[|ks| - 1];
      Total(ix, ks[..|ks| - 1]) + (if k in ix then |ix[k]| else 0)
  }

  lemma {:induction false} TotalAgree(ix: Index, ix': Index, ks: seq<string>)
    requires forall j :: 0 <= j < |ks| ==> (ks[j] in ix <==> ks[j] in ix')
    requires forall j :: 0 <= j < |ks| && ks[j] in ix ==> |ix[ks[j]]| == |ix'[ks[j]]|
    ensures Total(ix, ks) == Total(ix', ks)
    decreases |ks|
  {
    if |ks| > 0 {
      TotalAgree(ix, ix', ks[..|ks| - 1]);
    }
  }

  lemma {:induction false} TotalBump(ix: Index, k0: string, f: Segs, ks: seq<string>)
    requires Distinct(ks) && k0 in ks && k0 in ix
    ensures Total(ix[k0 := ix[k0] + [f]], ks) == Total(ix, ks) + 1
    decreases |ks|
  {
    var ix' := ix[k0 := ix[k0] + [f]];
    var init := ks[..|ks| - 1];
    if ks[|ks| - 1] == k0 {
      TotalAgree(ix, ix', init);
    } else {
      var j :| 0 <= j < |ks| && ks[j] == k0;
      assert j < |init| && init[j] == k0;
      TotalBump(ix, k0, f, init);
    }
  }

  /** The index holds exactly one entry per supplied location: its keys, in dictionary order,
      are the distinct filenames, and the lengths of their lists add up to `|files|`. */
  lemma {:induction false} BuildFileMapTotal(files: seq<Segs>)
    ensures Distinct(KeyOrder(files))
    ensures forall k :: k in KeyOrder(files) <==> k in BuildFileMap(files)
    ensures Total(BuildFileMap(files), KeyOrder(files)) == |files|
    decreases |files|
  {
    if |files| > 0 {
      var init := files[..|files| - 1];
      BuildFileMapTotal(init);
      AddStep(BuildFileMap(init), KeyOrder(init), files[|files| - 1]);
    }
  }

  /** Filing one more location keeps the key order duplicate-free and in step with the map,
      and raises the total by one. */
  lemma AddStep(ix: Index, ks: seq<string>, f: Segs)
    requires Distinct(ks)
    requires forall k :: k in ks <==> k in ix
    ensures var ks' := if Name(f) in ks then ks else ks + [Name(f)];
      && Distinct(ks')
      && (forall k :: k in ks' <==> k in Add(ix, f))
      && Total(Add(ix, f), ks') == Total(ix, ks) + 1
  {
    var n := Name(f);
    var ix' := Add(ix, f);
    if n in ks {
      assert ix' == ix[n := ix[n] + [f]];
      TotalBump(ix, n, f, ks);
    } else {
      var ks' := ks + [n];
      assert [] + [f] == [f];
      assert ix' == ix[n := [f]];
      TotalAgree(ix, ix', ks);
      assert ks'[..|ks|] == ks;
      forall i, j | 0 <= i < j < |ks'| ensures ks'[i] != ks'[j] {
        if j == |ks| {
          assert ks'[i] == ks[i];
        }
      }
    }
  }
}
