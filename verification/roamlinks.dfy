/** The legacy roamlinks plugin: `[text](file.md)` auto-links and `[[file#title|alias]]`
    roam links, resolved by scanning the docs directory. */
module RoamLinks {
  import opened Wrappers
  import opened Strings
  import opened Paths
  import opened Url

  // ---- name matching and anchors ----

  predicate Ignorable(c: char) { c == '-' || c == '_' || c == ' ' }

  predicate Significant(c: char) { !Ignorable(c) }

  predicate NotUpper(c: char) { !IsUpper(c) }

  predicate SimpleChar(c: char) { !Ignorable(c) && !IsUpper(c) }

  /** `simplify`: lower-case, drop every `-`, `_` and space, then delete every `.md`
      (anywhere, not only at the end). */
  function Simplify(name: string): (r: string)
    ensures forall k :: 0 <= k < |r| ==> !Ignorable(r[k]) && !IsUpper(r[k])
    ensures SimpleName(name) ==> r == name
  {
    var f := Filter(Lower(name), Significant);
    FilterKeeps(Lower(name), Significant, NotUpper);
    assert All(f, SimpleChar);
    ReplaceAllKeeps(f, ".md", "", SimpleChar);
    SimplifyPlain(name);
    ReplaceAll(f, ".md", "")
  }

  /** A name with nothing to drop: no `-`, `_`, space, upper-case letter or `.`. */
  predicate SimpleName(name: string) {
    forall k :: 0 <= k < |name| ==> SimpleChar(name[k]) && name[k] != '.'
  }

  lemma SimplifyPlain(name: string)
    ensures SimpleName(name) ==> ReplaceAll(Filter(Lower(name), Significant), ".md", "") == name
  {
    if SimpleName(name) {
      assert Lower(name) == name;
      assert Filter(name, Significant) == name;
      assert ".md"[0] == '.';
      HeadAbsent(name, ".md", "");
    }
  }

  /** A name with no `-`, `_`, space, upper-case letter or `.md` is its own simplification:
      every other `.`, such as an extension's, survives. */
  lemma SimplifyKeepsText(name: string)
    requires forall k :: 0 <= k < |name| ==> SimpleChar(name[k])
    requires !Contains(name, ".md")
    ensures Simplify(name) == name
  {
    LowerFixed(name);
    assert Filter(name, Significant) == name;
    ReplaceAbsent(name, ".md", "");
  }

  /** A `-`, `_` or space anywhere in a name is ignored by the matching. */
  lemma SimplifyIgnores(a: string, c: char, b: string)
    requires Ignorable(c)
    ensures Simplify(a + [c] + b) == Simplify(a + b)
  {
    SignificantIgnores(a, c, b);
  }

  lemma SignificantIgnores(a: string, c: char, b: string)
    requires Ignorable(c)
    ensures Filter(Lower(a + [c] + b), Significant) == Filter(Lower(a + b), Significant)
  {
    var la, lb := Lower(a), Lower(b);
    var fa, fb := Filter(la, Significant), Filter(lb, Significant);
    LowerConcat(a + [c], b);
    LowerConcat(a, [c]);
    LowerConcat(a, b);
    assert Lower(a + [c] + b) == (la + [c]) + lb by {
      assert Lower([c]) == [c];
    }
    FilterConcat(la + [c], lb, Significant);
    FilterConcat(la, [c], Significant);
    assert Filter([c], Significant) == [] by {
      assert !Significant(c);
    }
    assert Filter(la + [c], Significant) == fa;
    FilterConcat(la, lb, Significant);
  }

  /** The matching ignores case: a name matches exactly as its lower-cased form does. */
  lemma SimplifyIgnoresCase(name: string)
    ensures Simplify(Lower(name)) == Simplify(name)
  {
    assert Lower(Lower(name)) == Lower(name);
  }

  lemma SignificantMd(x: string)
    ensures Filter(Lower(x + ".md"), Significant) == Filter(Lower(x), Significant) + ".md"
  {
    LowerConcat(x, ".md");
    assert Lower(".md") == ".md";
    FilterConcat(Lower(x), ".md", Significant);
    assert Filter(".md", Significant) == ".md";
  }

  /** A name matches its `.md` file: appending `.md` does not change the simplification. */
  lemma SimplifyMdSuffix(x: string)
    ensures Simplify(x + ".md") == Simplify(x)
  {
    var a := Filter(Lower(x), Significant);
    SignificantMd(x);
    MdHead();
    ReplaceAround(a, ".md", "", "");
    assert a + ".md" + "" == a + ".md";
    assert ReplaceAll("", ".md", "") == "";
  }

  /** The first character of `.md` does not recur in it, so occurrences never overlap. */
  lemma MdHead()
    ensures |".md"| > 0 && ".md"[0] !in ".md"[1..]
  {
    assert ".md"[1..] == "md";
  }

  /** Kept by the anchor filter: word characters, CJK ideographs, `-` and space. */
  predicate AnchorKeep(c: char) {
    || ('a' <= c <= 'z') || ('A' <= c <= 'Z') || ('0' <= c <= '9')
    || c == '_' || c == '-' || c == ' '
    || (c >= '\U{80}' && !IsSpace(c))
  }

  /** `gfm_anchor`: empty for an empty title; otherwise stripped, lower-cased, filtered to
      the kept characters, and every run of spaces turned into one `-`. */
  function GfmAnchor(title: string): (r: string)
    ensures title == "" ==> r == ""
    ensures forall k :: 0 <= k < |r| ==> AnchorKeep(r[k]) && r[k] != ' ' && !IsUpper(r[k])
  {
    if title == "" then ""
    else
      var t := Filter(Lower(Strip(title)), AnchorKeep);
      FilterKeeps(Lower(Strip(title)), AnchorKeep, NotUpper);
      assert All(t, LowerAnchorKeep);
      CollapseRunsKeeps(t, ' ', '-', LowerAnchorKeep);
      CollapseRuns(t, ' ', '-')
  }

  predicate LowerAnchorKeep(c: char) { AnchorKeep(c) && !IsUpper(c) }

  /** Text the anchor keeps as it is: kept, lower-case characters and no space. */
  predicate AnchorWord(w: string) {
    forall k :: 0 <= k < |w| ==> LowerAnchorKeep(w[k]) && w[k] != ' '
  }

  /** A title that is already a single anchor word is its own anchor. */
  lemma GfmAnchorWord(w: string)
    requires AnchorWord(w)
    ensures GfmAnchor(w) == w
  {
    if w != "" {
      assert !IsSpace(w[0]) && !IsSpace(w[|w| - 1]);
      assert Strip(w) == w;
      LowerFixed(w);
      assert Filter(w, AnchorKeep) == w;
    }
  }

  /** The anchor ignores case: a title and its lower-cased form give the same anchor. */
  lemma GfmAnchorIgnoresCase(title: string)
    ensures GfmAnchor(Lower(title)) == GfmAnchor(title)
  {
    if title != "" {
      assert Lower(title) != "";
      StripLower(title);
      LowerTwice(Strip(title));
    }
  }

  /** Whitespace before and after a title does not change its anchor. */
  lemma GfmAnchorPadded(ws1: string, title: string, ws2: string)
    requires All(ws1, IsSpace) && All(ws2, IsSpace)
    ensures GfmAnchor(ws1 + title + ws2) == GfmAnchor(title)
  {
    var s := ws1 + title + ws2;
    StripPadded(ws1, title, ws2);
    if title == "" && s != "" {
      assert Strip(title) == "";
      assert Filter(Lower(Strip(s)), AnchorKeep) == "";
    }
  }

  /** A character the filter does not keep, inside a title, leaves no trace in the anchor. */
  lemma GfmAnchorDrops(a: string, c: char, b: string)
    requires !AnchorKeep(c)
    requires a != "" && b != "" && !IsSpace(a[0]) && !IsSpace(b[|b| - 1])
    ensures GfmAnchor(a + [c] + b) == GfmAnchor(a + b)
  {
    var s, t := a + [c] + b, a + b;
    assert s[0] == a[0] && s[|s| - 1] == b[|b| - 1];
    assert t[0] == a[0] && t[|t| - 1] == b[|b| - 1];
    assert Strip(s) == s && Strip(t) == t;
    LowerAround(a, c, b);
    LowerConcat(a, b);
    FilterSkips(Lower(a), c, Lower(b), AnchorKeep);
  }

  /** A character outside the kept set at the end of a title is dropped, whether or not
      it is whitespace. */
  lemma GfmAnchorDropsLast(a: string, c: char)
    requires !AnchorKeep(c)
    requires a == "" || (!IsSpace(a[0]) && !IsSpace(a[|a| - 1]))
    ensures GfmAnchor(a + [c]) == GfmAnchor(a)
  {
    var s := a + [c];
    if IsSpace(c) {
      GfmAnchorPadded([], a, [c]);
      ConcatNil(a, []);
    } else {
      assert s[0] == (if a == [] then c else a[0]) && s[|s| - 1] == c;
      StripFixed(s);
      KeptSkipLast(a, c);
      AnchorByKept(s, a);
    }
  }

  /** A character outside the kept set at the start of a title is dropped, whether or not
      it is whitespace. */
  lemma GfmAnchorDropsFirst(c: char, b: string)
    requires !AnchorKeep(c)
    requires b == "" || (!IsSpace(b[0]) && !IsSpace(b[|b| - 1]))
    ensures GfmAnchor([c] + b) == GfmAnchor(b)
  {
    var s := [c] + b;
    if IsSpace(c) {
      GfmAnchorPadded([c], b, []);
      ConcatNil(s, []);
    } else {
      assert s[0] == c && s[|s| - 1] == (if b == [] then c else b[|b| - 1]);
      StripFixed(s);
      KeptSkipFirst(c, b);
      AnchorByKept(s, b);
    }
  }

  /** A non-empty stripped title whose kept characters are those of `t`, stripped or empty,
      has the anchor of `t`. */
  lemma AnchorByKept(s: string, t: string)
    requires s != "" && Strip(s) == s
    requires t == "" || Strip(t) == t
    requires Filter(Lower(s), AnchorKeep) == Filter(Lower(t), AnchorKeep)
    ensures GfmAnchor(s) == GfmAnchor(t)
  {
    if t == "" {
      assert Filter(Lower(t), AnchorKeep) == "";
    }
  }

  lemma KeptSkipLast(a: string, c: char)
    requires !AnchorKeep(c)
    ensures Filter(Lower(a + [c]), AnchorKeep) == Filter(Lower(a), AnchorKeep)
  {
    LowerConcat(a, [c]);
    assert Lower([c]) == [c];
    FilterConcat(Lower(a), [c], AnchorKeep);
    assert Filter([c], AnchorKeep) == [];
  }

  lemma KeptSkipFirst(c: char, b: string)
    requires !AnchorKeep(c)
    ensures Filter(Lower([c] + b), AnchorKeep) == Filter(Lower(b), AnchorKeep)
  {
    LowerConcat([c], b);
    assert Lower([c]) == [c];
    FilterConcat([c], Lower(b), AnchorKeep);
    assert Filter([c], AnchorKeep) == [];
  }

  /** Two anchor words separated by a run of spaces are joined by a single `-`. */
  lemma GfmAnchorWords(w1: string, sp: string, w2: string)
    requires w1 != "" && w2 != "" && AnchorWord(w1) && AnchorWord(w2)
    requires |sp| > 0 && forall k :: 0 <= k < |sp| ==> sp[k] == ' '
    ensures GfmAnchor(w1 + sp + w2) == w1 + "-" + w2
  {
    var t := w1 + sp + w2;
    AnchorWordsKeep(w1, sp, w2);
    assert t[0] == w1[0] && t[|t| - 1] == w2[|w2| - 1];
    AnchorTextCollapses(t);
    CollapseRunsBetween(w1, sp, w2, ' ', '-');
  }

  lemma AnchorWordsKeep(w1: string, sp: string, w2: string)
    requires AnchorWord(w1) && AnchorWord(w2)
    requires forall k :: 0 <= k < |sp| ==> sp[k] == ' '
    ensures forall k :: 0 <= k < |w1 + sp + w2| ==> LowerAnchorKeep((w1 + sp + w2)[k])
  {
    var t := w1 + sp + w2;
    forall k | 0 <= k < |t| ensures LowerAnchorKeep(t[k]) {
      if k < |w1| {
        assert t[k] == w1[k];
      } else if k < |w1| + |sp| {
        assert t[k] == sp[k - |w1|];
      } else {
        assert t[k] == w2[k - |w1| - |sp|];
      }
    }
  }

  /** Kept lower-case text with no space at either end only has its space runs collapsed. */
  lemma AnchorTextCollapses(t: string)
    requires t != "" && !IsSpace(t[0]) && !IsSpace(t[|t| - 1])
    requires forall k :: 0 <= k < |t| ==> LowerAnchorKeep(t[k])
    ensures GfmAnchor(t) == CollapseRuns(t, ' ', '-')
  {
    assert Strip(t) == t;
    LowerFixed(t);
    assert Filter(t, AnchorKeep) == t;
  }

  /** An anchor is its own anchor. */
  lemma GfmAnchorIdempotent(title: string)
    ensures GfmAnchor(GfmAnchor(title)) == GfmAnchor(title)
  {
    GfmAnchorWord(GfmAnchor(title));
  }

  // ---- the directory scan ----

  /** One file seen by `os.walk`: the directory it was listed in and its name. */
  datatype WalkEntry = WalkEntry(root: Segs, name: string)

  /** What `os.walk` yields: normalized directories and non-empty plain file names. */
  predicate ValidWalk(walk: seq<WalkEntry>) {
    forall i :: 0 <= i < |walk| ==> Normal(walk[i].root) && walk[i].name != "" && '/' !in walk[i].name
  }

  /** `os.path.join(os.path.relpath(root, linker_dir), name)`. */
  function EntryLink(e: WalkEntry, linkerDir: Segs): string {
    PyJoin(RelStr(RelPath(e.root, linkerDir)), e.name)
  }

  /** The link from `linkerDir` leads to the entry: a relative directory that walks from
      `linkerDir` to the entry's directory, then the entry's name. */
  lemma EntryLinkLeadsToFile(e: WalkEntry, linkerDir: Segs)
    requires Normal(e.root)
    ensures exists rp :: EntryLink(e, linkerDir) == PyJoin(RelStr(rp), e.name) && Resolve(linkerDir, rp) == e.root
  {
    RelPathResolves(e.root, linkerDir);
  }

  /** Entry `i` is the last one whose name `matches` accepts. */
  predicate IsLastMatch(walk: seq<WalkEntry>, matches: string -> bool, i: int) {
    && 0 <= i < |walk| && matches(walk[i].name)
    && forall j :: i < j < |walk| ==> !matches(walk[j].name)
  }

  /** The scan's result: the link to the last accepted entry, `""` when none is accepted. */
  function LastLink(walk: seq<WalkEntry>, matches: string -> bool, linkerDir: Segs): (r: string)
    ensures (forall j :: 0 <= j < |walk| ==> !matches(walk[j].name)) ==> r == ""
    decreases |walk|
  {
    if |walk| == 0 then ""
    else
      var last := walk[|walk| - 1];
      if matches(last.name) then EntryLink(last, linkerDir)
      else LastLink(walk[..|walk| - 1], matches, linkerDir)
  }

  /** On a well-formed walk, when some entry is accepted the scan returns the (non-empty)
      link to the last accepted one. */
  lemma {:induction false} LastLinkFound(walk: seq<WalkEntry>, matches: string -> bool, linkerDir: Segs) returns (i: nat)
    requires ValidWalk(walk)
    requires exists j :: 0 <= j < |walk| && matches(walk[j].name)
    ensures IsLastMatch(walk, matches, i)
    ensures LastLink(walk, matches, linkerDir) == EntryLink(walk[i], linkerDir) != ""
    decreases |walk|
  {
    var init := walk[..|walk| - 1];
    if matches(walk[|walk| - 1].name) {
      i := |walk| - 1;
    } else {
      var j :| 0 <= j < |walk| && matches(walk[j].name);
      assert j < |init| && init[j] == walk[j];
      ValidWalkInit(walk);
      i := LastLinkFound(init, matches, linkerDir);
      LastMatchExtend(walk, matches, i);
    }
  }

  lemma ValidWalkInit(walk: seq<WalkEntry>)
    requires ValidWalk(walk) && |walk| > 0
    ensures ValidWalk(walk[..|walk| - 1])
  {
    var init := walk[..|walk| - 1];
    assert forall k :: 0 <= k < |init| ==> init[k] == walk[k];
  }

  /** The last match before an entry that is not accepted stays the last match. */
  lemma LastMatchExtend(walk: seq<WalkEntry>, matches: string -> bool, i: nat)
    requires |walk| > 0 && !matches(walk[|walk| - 1].name)
    requires IsLastMatch(walk[..|walk| - 1], matches, i)
    ensures IsLastMatch(walk, matches, i)
  {
    var init := walk[..|walk| - 1];
    forall k | i < k < |walk| ensures !matches(walk[k].name) {
      if k < |init| {
        assert walk[k] == init[k];
      }
    }
  }

  /** The scan as the plugin writes it: forwards through the walk, each accepted entry
      overwriting the link found so far. */
  method ScanWalk(walk: seq<WalkEntry>, matches: string -> bool, linkerDir: Segs) returns (rel: string)
    ensures rel == LastLink(walk, matches, linkerDir)
  {
    rel := "";
    var i := 0;
    while i < |walk|
      invariant 0 <= i <= |walk|
      invariant rel == LastLink(walk[..i], matches, linkerDir)
    {
      LastLinkStep(walk, matches, linkerDir, i);
      if matches(walk[i].name) {
        rel := EntryLink(walk[i], linkerDir);
      }
      i := i + 1;
    }
    assert walk[..|walk|] == walk;
  }

  /** Extending the scanned prefix by one entry: that entry's link if it is accepted,
      otherwise the link found so far. */
  lemma LastLinkStep(walk: seq<WalkEntry>, matches: string -> bool, linkerDir: Segs, i: nat)
    requires i < |walk|
    ensures LastLink(walk[..i + 1], matches, linkerDir)
      == if matches(walk[i].name) then EntryLink(walk[i], linkerDir)
         else LastLink(walk[..i], matches, linkerDir)
  {
    var prefix := walk[..i + 1];
    assert prefix[..i] == walk[..i] && prefix[i] == walk[i];
  }

  /** Directory of the page doing the linking: `dirname(join(docs_dir, page_url))`. */
  function LinkerDir(docs: Segs, pageUrl: string): Segs {
    NormAbs(Dirname(PyJoin(AbsStr(docs), pageUrl)))
  }

  /** For a page at `dirs/file` under the docs directory, the linker's directory is
      `docs/dirs`. */
  lemma LinkerDirOfPage(docs: Segs, dirs: Segs, file: string)
    requires Normal(docs) && Normal(dirs) && PlainSegment(file)
    ensures LinkerDir(docs, JoinWith("/", dirs + [file])) == docs + dirs
  {
    var rel := dirs + [file];
    var dir := docs + dirs;
    assert Normal(rel) by {
      forall i | 0 <= i < |rel| ensures PlainSegment(rel[i]) {
        if i < |dirs| {
          assert rel[i] == dirs[i];
        }
      }
    }
    assert Normal(dir) by {
      forall i | 0 <= i < |dir| ensures PlainSegment(dir[i]) {
        if i < |docs| {
          assert dir[i] == docs[i];
        } else {
          assert dir[i] == dirs[i - |docs|];
        }
      }
    }
    PyJoinAbs(docs, rel);
    ConcatAssoc(docs, dirs, [file]);
    var joined := AbsStr(dir + [file]);
    assert PyJoin(AbsStr(docs), JoinWith("/", rel)) == joined;
    DirnameAbs(dir, file);
    NormAbsAbs(dir);
    assert LinkerDir(docs, JoinWith("/", rel)) == NormAbs(Dirname(joined));
  }

  // ---- auto links ----

  /** A match of the auto-link pattern `[text](file.ext#fragment)`. */
  datatype AutoMatch = AutoMatch(text: string, filename: string, fragment: Option<string>) {

    /** The `(...)` part: the file name and the fragment. */
    function Url(): string { filename + fragment.GetOr("") }

    /** The matched text. */
    function Whole(): string { "[" + text + "](" + Url() + ")" }
  }

  /** `AutoLinkReplacer.__call__`: the file name is unquoted and looked up by exact name;
      when nothing matches the link is left alone, otherwise every occurrence of the URL text
      in the match is replaced by the relative link with the fragment appended. */
  function AutoLink(docs: Segs, pageUrl: string, walk: seq<WalkEntry>, m: AutoMatch): (r: string)
    ensures var filename := Unquote(Strip(m.filename));
      (forall j :: 0 <= j < |walk| ==> walk[j].name != filename) ==> r == m.Whole()
  {
    var filename := Unquote(Strip(m.filename));
    var rel := LastLink(walk, n => n == filename, LinkerDir(docs, pageUrl));
    if rel == "" then m.Whole()
    else ReplaceAll(m.Whole(), m.Url(), rel + m.fragment.GetOr(""))
  }

  /** When the URL text does not occur before its own place in the match, replacing it
      touches only that place. */
  lemma ReplaceUrlOnly(m: AutoMatch, rep: string)
    requires |m.Url()| > 0 && m.Url()[0] != ')'
    requires forall p :: 0 <= p < |m.text| + 3 ==> !(m.Url() <= m.Whole()[p..])
    ensures ReplaceAll(m.Whole(), m.Url(), rep) == "[" + m.text + "](" + rep + ")"
  {
    var pre := "[" + m.text + "](";
    assert m.Whole() == pre + m.Url() + ")";
    ReplaceFirstAt(pre, m.Url(), ")", rep);
    assert ReplaceAll(")", m.Url(), rep) == ")";
  }

  /** When the URL text does not occur earlier in the match, a found auto link keeps its text
      and points at the last file of that name in the walk, fragment appended verbatim. */
  lemma AutoLinkResolved(docs: Segs, pageUrl: string, walk: seq<WalkEntry>, m: AutoMatch, i: nat)
    requires ValidWalk(walk)
    requires IsLastMatch(walk, n => n == Unquote(Strip(m.filename)), i)
    requires |m.Url()| > 0 && m.Url()[0] != ')'
    requires forall p :: 0 <= p < |m.text| + 3 ==> !(m.Url() <= m.Whole()[p..])
    ensures AutoLink(docs, pageUrl, walk, m)
      == "[" + m.text + "](" + (EntryLink(walk[i], LinkerDir(docs, pageUrl)) + m.fragment.GetOr("")) + ")"
  {
    var filename := Unquote(Strip(m.filename));
    var matches := n => n == filename;
    var linker := LinkerDir(docs, pageUrl);
    var k := LastLinkFound(walk, matches, linker);
    assert k == i;
    var rep := EntryLink(walk[i], linker) + m.fragment.GetOr("");
    assert AutoLink(docs, pageUrl, walk, m) == ReplaceAll(m.Whole(), m.Url(), rep);
    ReplaceUrlOnly(m, rep);
  }

  /** `str.replace` rewrites every occurrence: when the link text is the URL itself, both
      are replaced. */
  lemma ReplaceUrlTwice(u: string, rep: string)
    requires |u| > 0 && u[0] !in "[]()"
    ensures ReplaceAll("[" + u + "](" + u + ")", u, rep) == "[" + rep + "](" + rep + ")"
  {
    var o, mid, c := "[", "](", ")";
    assert u[0] !in o && u[0] !in mid && u[0] !in c;
    ReplaceBetween(o, u, mid, c, rep);
  }

  /** A found auto link whose text is its own URL has both replaced: the text too becomes
      the link to the last file of that name, with the fragment. */
  lemma AutoLinkLabelIsUrl(docs: Segs, pageUrl: string, walk: seq<WalkEntry>, m: AutoMatch, i: nat)
    requires ValidWalk(walk)
    requires IsLastMatch(walk, n => n == Unquote(Strip(m.filename)), i)
    requires m.text == m.Url() && |m.Url()| > 0 && m.Url()[0] !in "[]()"
    ensures var rep := EntryLink(walk[i], LinkerDir(docs, pageUrl)) + m.fragment.GetOr("");
      AutoLink(docs, pageUrl, walk, m) == "[" + rep + "](" + rep + ")"
  {
    var filename := Unquote(Strip(m.filename));
    var linker := LinkerDir(docs, pageUrl);
    var k := LastLinkFound(walk, n => n == filename, linker);
    assert k == i;
    var rep := EntryLink(walk[i], linker) + m.fragment.GetOr("");
    assert AutoLink(docs, pageUrl, walk, m) == ReplaceAll(m.Whole(), m.Url(), rep);
    ReplaceUrlTwice(m.Url(), rep);
  }

  // ---- roam links ----

  /** A match of the roam-link pattern `[[filename#title|alias]]`; the title keeps its `#`
      and the alias its `|`. */
  datatype RoamMatch = RoamMatch(filename: string, title: Option<string>, alias: Option<string>) {

    function Whole(): string { "[[" + filename + title.GetOr("") + alias.GetOr("") + "]]" }

    function File(): string { Strip(filename) }

    function Title(): string { if title.Some? then Strip(title.value) else "" }

    function Alias(): string { if alias.Some? then StripBy(alias.value, c => c == '|') else "" }

    /** The link text: the alias, else the file name and title, else the title. */
    function Label(): string {
      if Alias() != "" then Alias() else if File() != "" then File() + Title() else Title()
    }
  }

  /** The file a path-like roam link names: `.md` is added when it has no `.` at all. */
  function RelFile(filename: string): (r: string)
    ensures '.' in r
    ensures '.' !in filename ==> r == filename + ".md"
    ensures '.' in filename ==> r == filename
  {
    if '.' !in filename then filename + ".md" else filename
  }

  /** The link for a path-like roam link: from the linker's directory to the directory of
      `docs_dir/rel_file`, then the file's base name. */
  function ExplicitPathLink(docs: Segs, linkerDir: Segs, filename: string): string {
    var relFile := RelFile(filename);
    var dir := NormAbs(Dirname(PyJoin(AbsStr(docs), relFile)));
    PyJoin(RelStr(RelPath(dir, linkerDir)), Basename(relFile))
  }

  /** `rel_link_url` before backslashes are replaced, `""` when the search found nothing. */
  function RoamUrl(docs: Segs, pageUrl: string, walk: seq<WalkEntry>, m: RoamMatch): string {
    if m.File() == "" then "#" + GfmAnchor(m.Title()) else FileUrl(docs, pageUrl, walk, m)
  }

  /** `rel_link_url` for a link that names a file: a path-like name is used as written or
      followed from the docs directory, a plain name is searched for in the walk. */
  function FileUrl(docs: Segs, pageUrl: string, walk: seq<WalkEntry>, m: RoamMatch): string {
    var filename := m.File();
    var suffix := if m.Title() != "" then "#" + GfmAnchor(m.Title()) else "";
    if '/' in filename then
      if Contains(filename, "http") then filename
      else ExplicitPathLink(docs, LinkerDir(docs, pageUrl), filename) + suffix
    else
      var found := LastLink(walk, n => Simplify(n) == Simplify(filename), LinkerDir(docs, pageUrl));
      if found == "" then "" else found + suffix
  }

  /** `url.replace("\\", "/")`: every backslash becomes `/` and nothing else changes. */
  function FixBackslashes(url: string): (r: string)
    ensures |r| == |url|
    ensures forall k :: 0 <= k < |url| ==> r[k] == (if url[k] == '\\' then '/' else url[k])
  {
    ReplaceSingleChar(url, '\\', '/');
    ReplaceAll(url, "\\", "/")
  }

  /** `RoamLinkReplacer.__call__`: a link whose file is not found is left alone; anything else
      becomes a markdown link whose URL is the computed one with every backslash turned
      into `/`. */
  function RoamLink(docs: Segs, pageUrl: string, walk: seq<WalkEntry>, m: RoamMatch): (r: string)
    ensures var u := RoamUrl(docs, pageUrl, walk, m);
      m.File() != "" && u == "" ==> r == m.Whole()
    ensures var u := RoamUrl(docs, pageUrl, walk, m);
      !(m.File() != "" && u == "") ==>
        exists url :: (r == "[" + m.Label() + "](" + url + ")" && |url| == |u|
          && forall k :: 0 <= k < |u| ==> url[k] == (if u[k] == '\\' then '/' else u[k]))
  {
    var url := RoamUrl(docs, pageUrl, walk, m);
    if m.File() != "" && url == "" then m.Whole()
    else "[" + m.Label() + "](" + FixBackslashes(url) + ")"
  }

  /** A link with no file name points at the anchor of its title in the same page. */
  lemma RoamAnchorOnly(docs: Segs, pageUrl: string, walk: seq<WalkEntry>, m: RoamMatch)
    requires m.File() == ""
    ensures RoamLink(docs, pageUrl, walk, m) == "[" + m.Label() + "](" + ("#" + GfmAnchor(m.Title())) + ")"
  {
    var url := "#" + GfmAnchor(m.Title());
    assert RoamUrl(docs, pageUrl, walk, m) == url;
    AnchorUrlKept(GfmAnchor(m.Title()));
    assert RoamLink(docs, pageUrl, walk, m) == "[" + m.Label() + "](" + FixBackslashes(url) + ")";
  }

  /** The backslash fix leaves an in-page anchor URL alone. */
  lemma AnchorUrlKept(anchor: string)
    requires forall k :: 0 <= k < |anchor| ==> AnchorKeep(anchor[k])
    ensures FixBackslashes("#" + anchor) == "#" + anchor
  {
    var url := "#" + anchor;
    forall k | 0 <= k < |url| ensures url[k] != '\\' {
      if k > 0 {
        assert url[k] == anchor[k - 1];
      }
    }
  }

  /** A plain file name no walk entry matches, even after simplification, leaves the link
      as it is. */
  lemma RoamNotFound(docs: Segs, pageUrl: string, walk: seq<WalkEntry>, m: RoamMatch)
    requires m.File() != "" && '/' !in m.File()
    requires forall j :: 0 <= j < |walk| ==> Simplify(walk[j].name) != Simplify(m.File())
    ensures RoamLink(docs, pageUrl, walk, m) == m.Whole()
  {
  }

  /** A plain file name resolves to the last walk entry that matches it after
      simplification, with the title's anchor appended when there is a title. */
  lemma RoamFound(docs: Segs, pageUrl: string, walk: seq<WalkEntry>, m: RoamMatch, i: nat)
    requires ValidWalk(walk)
    requires m.File() != "" && '/' !in m.File()
    requires IsLastMatch(walk, n => Simplify(n) == Simplify(m.File()), i)
    ensures RoamUrl(docs, pageUrl, walk, m)
      == EntryLink(walk[i], LinkerDir(docs, pageUrl))
         + (if m.Title() != "" then "#" + GfmAnchor(m.Title()) else "")
  {
    var filename := m.File();
    var k := LastLinkFound(walk, n => Simplify(n) == Simplify(filename), LinkerDir(docs, pageUrl));
  }

  /** A plain file name gets an empty URL, and so leaves the link alone, exactly when no walk
      entry matches it after simplification. */
  lemma RoamUrlEmptyIffMissing(docs: Segs, pageUrl: string, walk: seq<WalkEntry>, m: RoamMatch)
    requires ValidWalk(walk)
    requires m.File() != "" && '/' !in m.File()
    ensures RoamUrl(docs, pageUrl, walk, m) == ""
      <==> forall j :: 0 <= j < |walk| ==> Simplify(walk[j].name) != Simplify(m.File())
  {
    var matches := n => Simplify(n) == Simplify(m.File());
    if exists j :: 0 <= j < |walk| && matches(walk[j].name) {
      var i := LastLinkFound(walk, matches, LinkerDir(docs, pageUrl));
    }
  }

  /** A path-like file name is used verbatim when it mentions `http`; otherwise it names a
      file under the docs directory, `.md` added when it has no `.`, and the link walks from
      the linker's directory to that file's directory and then names the file. */
  lemma RoamExplicitPath(docs: Segs, pageUrl: string, walk: seq<WalkEntry>, m: RoamMatch)
    requires '/' in m.File()
    ensures Contains(m.File(), "http") ==> RoamUrl(docs, pageUrl, walk, m) == m.File()
    ensures !Contains(m.File(), "http") ==>
      var relFile := RelFile(m.File());
      var linker := LinkerDir(docs, pageUrl);
      exists rp :: (RoamUrl(docs, pageUrl, walk, m)
          == PyJoin(RelStr(rp), Basename(relFile)) + (if m.Title() != "" then "#" + GfmAnchor(m.Title()) else "")
        && Resolve(linker, rp) == NormAbs(Dirname(PyJoin(AbsStr(docs), relFile))))
  {
    var relFile := RelFile(m.File());
    var dir := NormAbs(Dirname(PyJoin(AbsStr(docs), relFile)));
    NormAbsNormal(Dirname(PyJoin(AbsStr(docs), relFile)));
    RelPathResolves(dir, LinkerDir(docs, pageUrl));
  }
}
