/** The Obsidian bridge plugin: slugs, the invalid-link annotation, and the two link
    rewriters (markdown links, then wiki links outside code). */
module Bridge {
  import opened Wrappers
  import opened Strings
  import opened Paths
  import opened Url
  import opened FileIndex
  import opened Resolver

  /** Per-run settings: the heading slug function with its separator (an external
      collaborator), and the annotation for links that could not be resolved. */
  datatype Config = Config(
    tocSlugify: (string, string) -> string,
    separator: string,
    attrList: Option<string>)

  /** `on_config`'s gate: the annotation is active exactly when attribute names are
      configured and the `attr_list` extension is enabled, and it lists them space-separated. */
  function AttrListGate(attributes: seq<string>, attrListEnabled: bool): (r: Option<string>)
    ensures r.Some? <==> |attributes| > 0 && attrListEnabled
    ensures r.Some? ==> r.value == JoinWith(" ", attributes)
  {
    if |attributes| > 0 && attrListEnabled then Some(JoinWith(" ", attributes)) else None
  }

  /** `slugify`: no text gives no fragment; any other text gives `#` and its slug. */
  function Slugify(cfg: Config, text: Option<string>): (r: string)
    ensures r == "" <==> text.None? || text.value == ""
    ensures r != "" ==> r[0] == '#' && r[1..] == cfg.tocSlugify(text.value, cfg.separator)
  {
    if text.None? || text.value == "" then ""
    else "#" + cfg.tocSlugify(text.value, cfg.separator)
  }

  /** `with_attrs`: appends `{: attrs}` when the annotation is active and `when` holds, and
      otherwise returns the link as it is. The link itself is never altered. */
  function WithAttrs(cfg: Config, link: string, when: bool): (r: string)
    ensures link <= r
    ensures r == link <==> !(when && cfg.attrList.Some?)
    ensures when && cfg.attrList.Some? ==> r[|link|..] == "{: " + cfg.attrList.value + "}"
  {
    if cfg.attrList.Some? && when then link + "{: " + cfg.attrList.value + "}" else link
  }

  // ---- markdown links ----

  /** A match of the markdown-link pattern: `[label](filepath#fragment "title")`, or the
      `![]` form, where the label group does not take part. `fragment` and `title` always take part,
      possibly empty. */
  datatype MdMatch = MdMatch(linkText: Option<string>, filepath: string, fragment: string, title: string) {

    /** The matched text. */
    function Whole(): string {
      (if linkText.None? then "![]" else "[" + linkText.value + "]")
      + "(" + filepath + fragment + title + ")"
    }
  }

  /** How Python formats the label group: an absent group prints as `None`. */
  function LabelText(group: Option<string>): string {
    if group.Some? then group.value else "None"
  }

  /** URL text as `quote` emits it. */
  predicate UrlText(url: string) {
    forall k :: 0 <= k < |url| ==> QuoteSafe(url[k]) || url[k] == '%'
  }

  /** `replace_markdown_link`. Only the bare filename of the path is looked up. A resolved
      link is rebuilt around the percent-encoded relative path, which decodes back to that
      path, followed by the slug of the fragment and the title as matched. An unresolved
      link is the matched text, with the `{: attrs}` annotation appended when one is set. */
  function ReplaceMarkdownLink(cfg: Config, ix: Index, pagePath: Segs, m: MdMatch): (r: string)
    ensures var found := FindBestPath(ix, PureName(Strip(m.filepath)), pagePath);
      && (found.None? && cfg.attrList.None? ==> r == m.Whole())
      && (found.None? && cfg.attrList.Some? ==> r == m.Whole() + "{: " + cfg.attrList.value + "}")
      && (found.Some? ==> exists url :: (UrlText(url) && Unquote(url) == RelStr(found.value)
            && r == "[" + LabelText(m.linkText) + "](" + url + Slugify(cfg, Some(m.fragment))
                    + m.title + ")"))
  {
    match FindBestPath(ix, PureName(Strip(m.filepath)), pagePath)
    case Some(p) =>
      var url := Quote(RelStr(p));
      UnquoteQuote(RelStr(p));
      "[" + LabelText(m.linkText) + "](" + url + Slugify(cfg, Some(m.fragment)) + m.title + ")"
    case None => WithAttrs(cfg, m.Whole(), true)
  }

  /** The text between and including matches, as `re.sub` sees it. */
  datatype MdPiece = MdText(text: string) | MdLink(m: MdMatch)

  /** The text the pieces were cut from. */
  function MdSource(ps: seq<MdPiece>): string
    decreases |ps|
  {
    if |ps| == 0 then ""
    else (if ps[0].MdText? then ps[0].text else ps[0].m.Whole()) + MdSource(ps[1..])
  }

  /** `process_markdown_links`: every match replaced, the text in between kept. */
  function ProcessMarkdownLinks(cfg: Config, ix: Index, pagePath: Segs, ps: seq<MdPiece>): string
    decreases |ps|
  {
    if |ps| == 0 then ""
    else
      (if ps[0].MdText? then ps[0].text else ReplaceMarkdownLink(cfg, ix, pagePath, ps[0].m))
      + ProcessMarkdownLinks(cfg, ix, pagePath, ps[1..])
  }

  predicate Unresolved(ix: Index, pagePath: Segs, m: MdMatch) {
    FindBestPath(ix, PureName(Strip(m.filepath)), pagePath).None?
  }

  /** With the annotation off, a text whose markdown links all fail to resolve comes out of
      the markdown pass exactly as it went in. */
  lemma {:induction false} UnresolvedMarkdownUnchanged(cfg: Config, ix: Index, pagePath: Segs, ps: seq<MdPiece>)
    requires cfg.attrList.None?
    requires forall i :: 0 <= i < |ps| && ps[i].MdLink? ==> Unresolved(ix, pagePath, ps[i].m)
    ensures ProcessMarkdownLinks(cfg, ix, pagePath, ps) == MdSource(ps)
    decreases |ps|
  {
    if |ps| > 0 {
      assert forall i :: 0 <= i < |ps[1..]| ==> ps[1..][i] == ps[i + 1];
      UnresolvedMarkdownUnchanged(cfg, ix, pagePath, ps[1..]);
    }
  }

  /** `re.sub` rewrites each match on its own and copies the text between: the markdown
      pass over two stretches of pieces is the two passes joined. */
  lemma {:induction false} MarkdownPassConcat(cfg: Config, ix: Index, pagePath: Segs, a: seq<MdPiece>, b: seq<MdPiece>)
    ensures ProcessMarkdownLinks(cfg, ix, pagePath, a + b)
      == ProcessMarkdownLinks(cfg, ix, pagePath, a) + ProcessMarkdownLinks(cfg, ix, pagePath, b)
    decreases |a|
  {
    if |a| == 0 {
      assert a + b == b;
    } else {
      var ab := a + b;
      assert ab[0] == a[0] && ab[1..] == a[1..] + b;
      var head := if a[0].MdText? then a[0].text else ReplaceMarkdownLink(cfg, ix, pagePath, a[0].m);
      MarkdownStep(cfg, ix, pagePath, ab);
      MarkdownStep(cfg, ix, pagePath, a);
      MarkdownPassConcat(cfg, ix, pagePath, a[1..], b);
      ConcatAssoc(head, ProcessMarkdownLinks(cfg, ix, pagePath, a[1..]), ProcessMarkdownLinks(cfg, ix, pagePath, b));
    }
  }

  /** One piece of the markdown pass. */
  lemma MarkdownStep(cfg: Config, ix: Index, pagePath: Segs, ps: seq<MdPiece>)
    requires |ps| > 0
    ensures ProcessMarkdownLinks(cfg, ix, pagePath, ps)
      == (if ps[0].MdText? then ps[0].text else ReplaceMarkdownLink(cfg, ix, pagePath, ps[0].m))
         + ProcessMarkdownLinks(cfg, ix, pagePath, ps[1..])
  {
  }

  // ---- wiki links ----

  /** A match of the wiki-link pattern `[[filepath#fragment_text|label]]`; the fragment and
      the label may be absent. */
  datatype WikiMatch = WikiMatch(filepath: string, fragmentText: Option<string>, alias: Option<string>) {

    /** The `fragment` group: `#` and the fragment text. */
    function Fragment(): Option<string> {
      if fragmentText.Some? then Some("#" + fragmentText.value) else None
    }

    /** The matched text. */
    function Whole(): string {
      "[[" + filepath + (if fragmentText.Some? then "#" + fragmentText.value else "")
      + (if alias.Some? then "|" + alias.value else "") + "]]"
    }
  }

  /** `Path.with_suffix` raises `ValueError` on a path whose name is empty (`/`, `.`). */
  datatype LinkError = EmptyName(filepath: string)

  /** The target of a wiki link's path: the lookup as written, else the retry with `.md`
      appended to the name (`.png` becomes `.png.md`); `None` when both fail. */
  function WikiTarget(ix: Index, pagePath: Segs, name: string): Option<Segs> {
    var first := FindBestPath(ix, name, pagePath);
    if first.Some? then first else FindBestPath(ix, name + ".md", pagePath)
  }

  /** Against the index built from the files, a wiki link's name resolves unless neither it
      nor the name with `.md` appended belongs to a file; an exact match is preferred, and
      the result leads to a file carrying the name that was found. */
  lemma WikiTargetInCorpus(files: seq<Segs>, pagePath: Segs, name: string)
    ensures var r := WikiTarget(BuildFileMap(files), pagePath, name);
      && (r.None? <==> !HasName(files, name) && !HasName(files, name + ".md"))
      && (r.Some? ==> exists i :: (0 <= i < |files| && r.value == RelPath(files[i], Parent(pagePath))
            && Name(files[i]) == (if HasName(files, name) then name else name + ".md")))
  {
    ResolveInCorpus(files, name, pagePath);
    ResolveInCorpus(files, name + ".md", pagePath);
  }

  /** `replace_obsidian_link`. An in-page link (empty path) becomes a link to the slug of its
      fragment with no lookup; an error is raised only when the first lookup fails on a path
      with no name. */
  function ReplaceObsidianLink(cfg: Config, ix: Index, pagePath: Segs, m: WikiMatch): (r: Result<string, LinkError>)
    ensures Strip(m.filepath) == "" ==>
      r == Success("[" + OrElse(m.alias, OrElse(m.fragmentText, "")) + "](" + Slugify(cfg, m.Fragment()) + ")")
    ensures r.Failure? <==>
      (Strip(m.filepath) != "" && PureName(Strip(m.filepath)) == "" && FindBestPath(ix, "", pagePath).None?)
  {
    var fp := Strip(m.filepath);
    if fp == "" then
      Success("[" + OrElse(m.alias, OrElse(m.fragmentText, "")) + "](" + Slugify(cfg, m.Fragment()) + ")")
    else
      var name := PureName(fp);
      if FindBestPath(ix, name, pagePath).None? && name == "" then Failure(EmptyName(fp))
      else
        var target := WikiTarget(ix, pagePath, name);
        var slug := Slugify(cfg, m.Fragment());
        var text := OrElse(m.alias, fp + slug);
        var path := if target.Some? then RelStr(target.value) else PureStr(fp);
        Success(WithAttrs(cfg, "[" + text + "](" + Quote(path) + slug + ")", target.None?))
  }

  /** A wiki link with a path becomes `[label](url#slug)`: the label is the alias if there is
      one, else the path and the fragment's slug; the URL decodes to the resolved relative
      path, or to the path as written when neither lookup succeeds; and the annotation is
      appended exactly when neither lookup succeeds. */
  lemma ObsidianLinkShape(cfg: Config, ix: Index, pagePath: Segs, m: WikiMatch)
    requires Strip(m.filepath) != ""
    ensures var fp := Strip(m.filepath);
      var r := ReplaceObsidianLink(cfg, ix, pagePath, m);
      var target := WikiTarget(ix, pagePath, PureName(fp));
      var slug := Slugify(cfg, m.Fragment());
      r.Success? ==> exists url :: (UrlText(url)
        && Unquote(url) == (if target.Some? then RelStr(target.value) else PureStr(fp))
        && r.value == WithAttrs(cfg, "[" + OrElse(m.alias, fp + slug) + "](" + url + slug + ")",
                                target.None?))
  {
    var fp := Strip(m.filepath);
    var target := WikiTarget(ix, pagePath, PureName(fp));
    var path := if target.Some? then RelStr(target.value) else PureStr(fp);
    UnquoteQuote(path);
  }

  /** A wiki link whose path resolves under neither name keeps the path as written,
      percent-encoded, and is annotated. */
  lemma UnresolvedWikiLink(cfg: Config, ix: Index, pagePath: Segs, m: WikiMatch)
    requires Strip(m.filepath) != "" && PureName(Strip(m.filepath)) != ""
    requires WikiTarget(ix, pagePath, PureName(Strip(m.filepath))).None?
    ensures var fp := Strip(m.filepath);
      var slug := Slugify(cfg, m.Fragment());
      ReplaceObsidianLink(cfg, ix, pagePath, m)
        == Success(WithAttrs(cfg, "[" + OrElse(m.alias, fp + slug) + "](" + Quote(PureStr(fp)) + slug + ")", true))
  {
  }

  /** Two pieces of output in order; the first failure is the one raised. */
  function Then(a: Result<string, LinkError>, b: Result<string, LinkError>): Result<string, LinkError> {
    if a.Failure? then a else if b.Failure? then b else Success(a.value + b.value)
  }

  /** The text of a prose chunk, as `re.sub` sees it. */
  datatype WikiPiece = WikiText(text: string) | WikiLink(m: WikiMatch)

  function WikiSource(ps: seq<WikiPiece>): string
    decreases |ps|
  {
    if |ps| == 0 then ""
    else (if ps[0].WikiText? then ps[0].text else ps[0].m.Whole()) + WikiSource(ps[1..])
  }

  /** `re.sub(OBSIDIAN_LINK, ...)` on one prose chunk; the first error aborts it. */
  function RewriteProse(cfg: Config, ix: Index, pagePath: Segs, ps: seq<WikiPiece>): Result<string, LinkError>
    decreases |ps|
  {
    if |ps| == 0 then Success("")
    else
      var head := if ps[0].WikiText? then Success(ps[0].text)
                  else ReplaceObsidianLink(cfg, ix, pagePath, ps[0].m);
      Then(head, RewriteProse(cfg, ix, pagePath, ps[1..]))
  }

  /** The wiki pass over one prose chunk handles its pieces in order: over two stretches of
      pieces it is the two rewrites joined, and the earlier error wins. */
  lemma {:induction false} RewriteProseConcat(cfg: Config, ix: Index, pagePath: Segs, a: seq<WikiPiece>, b: seq<WikiPiece>)
    ensures RewriteProse(cfg, ix, pagePath, a + b)
      == Then(RewriteProse(cfg, ix, pagePath, a), RewriteProse(cfg, ix, pagePath, b))
    decreases |a|
  {
    if |a| == 0 {
      assert a + b == b;
      var rb := RewriteProse(cfg, ix, pagePath, b);
      if rb.Success? {
        assert "" + rb.value == rb.value;
      }
    } else {
      assert (a + b)[0] == a[0] && (a + b)[1..] == a[1..] + b;
      RewriteProseConcat(cfg, ix, pagePath, a[1..], b);
      var head := if a[0].WikiText? then Success(a[0].text) else ReplaceObsidianLink(cfg, ix, pagePath, a[0].m);
      ThenAssoc(head, RewriteProse(cfg, ix, pagePath, a[1..]), RewriteProse(cfg, ix, pagePath, b));
    }
  }

  predicate NoWikiLinks(ps: seq<WikiPiece>) {
    forall i :: 0 <= i < |ps| ==> ps[i].WikiText?
  }

  /** Prose without wiki links is returned as it is. */
  lemma {:induction false} ProseWithoutLinksUnchanged(cfg: Config, ix: Index, pagePath: Segs, ps: seq<WikiPiece>)
    requires NoWikiLinks(ps)
    ensures RewriteProse(cfg, ix, pagePath, ps) == Success(WikiSource(ps))
    decreases |ps|
  {
    if |ps| > 0 {
      assert ps[0].WikiText?;
      assert forall i :: 0 <= i < |ps[1..]| ==> ps[1..][i] == ps[i + 1];
      ProseWithoutLinksUnchanged(cfg, ix, pagePath, ps[1..]);
    }
  }

  // ---- code / prose split ----

  /** One element of `re.split(CODE_BLOCK, text)`: the text before a code span, the code span
      with its delimiters, and the captured backtick run (absent for `<pre>`/`<code>`). */
  datatype Chunk = Prose(pieces: seq<WikiPiece>) | Code(text: string) | Ticks(run: Option<string>)

  /** A code span as `CODE_BLOCK` matches it: a backtick run, at least one character, the same
      run again; or a `<pre>` or `<code>` element with non-empty content. Without the DOTALL
      flag none of it crosses a line break. */
  predicate CodeSpan(text: string, run: Option<string>) {
    && '\n' !in text
    && match run
       case Some(r) =>
         && |r| > 0 && (forall k :: 0 <= k < |r| ==> r[k] == '`')
         && |text| > 2 * |r| && text[..|r|] == r && text[|text| - |r|..] == r
       case None =>
         || (|text| > 11 && text[..5] == "<pre>" && text[|text| - 6..] == "</pre>")
         || (|text| > 13 && text[..6] == "<code>" && text[|text| - 7..] == "</code>")
  }

  /** The shape `re.split` with two groups produces: prose, code, run, prose, ..., prose. */
  predicate WellFormedSplit(chunks: seq<Chunk>) {
    && |chunks| % 3 == 1
    && (forall i :: 0 <= i < |chunks| ==>
          (i % 3 == 0 <==> chunks[i].Prose?) && (i % 3 == 1 <==> chunks[i].Code?))
    && (forall i :: 0 <= i < |chunks| && i % 3 == 1 ==>
          chunks[i + 1].Ticks? && CodeSpan(chunks[i].text, chunks[i + 1].run))
  }

  function ChunkText(c: Chunk): string {
    match c
    case Prose(ps) => WikiSource(ps)
    case Code(t) => t
    case Ticks(r) => r.GetOr("")
  }

  /** The document the chunks came from: the run capture lies inside its code span, so only
      the other chunks are text of their own. */
  function SourceText(chunks: seq<Chunk>, start: nat): string
    decreases |chunks|
  {
    if |chunks| == 0 then ""
    else (if start % 3 == 2 then "" else ChunkText(chunks[0])) + SourceText(chunks[1..], start + 1)
  }

  /** `process_chunk`: position decides, as in the plugin: 0 mod 3 is prose and is
      rewritten, 1 mod 3 is code and is returned as it is, anything else is dropped. */
  function ProcessChunk(cfg: Config, ix: Index, pagePath: Segs, index: nat, c: Chunk): Result<string, LinkError> {
    if index % 3 == 0 then
      (if c.Prose? then RewriteProse(cfg, ix, pagePath, c.pieces) else Success(ChunkText(c)))
    else if index % 3 == 1 then Success(ChunkText(c))
    else Success("")
  }

  /** The list comprehension and `''.join` over the split, chunks from position `start` on;
      positions 2 mod 3 are skipped. */
  function ProcessFrom(cfg: Config, ix: Index, pagePath: Segs, chunks: seq<Chunk>, start: nat): Result<string, LinkError>
    decreases |chunks|
  {
    if |chunks| == 0 then Success("")
    else if start % 3 == 2 then ProcessFrom(cfg, ix, pagePath, chunks[1..], start + 1)
    else
      Then(ProcessChunk(cfg, ix, pagePath, start, chunks[0]),
           ProcessFrom(cfg, ix, pagePath, chunks[1..], start + 1))
  }

  /** `process_obsidian_links` on the split of the page. */
  function ProcessObsidianLinks(cfg: Config, ix: Index, pagePath: Segs, chunks: seq<Chunk>): Result<string, LinkError> {
    ProcessFrom(cfg, ix, pagePath, chunks, 0)
  }

  predicate NoLinksInProse(chunks: seq<Chunk>) {
    forall i :: 0 <= i < |chunks| && chunks[i].Prose? ==> NoWikiLinks(chunks[i].pieces)
  }

  /** A page whose prose holds no wiki links comes back exactly as it was: code chunks are
      returned verbatim and the run captures add nothing. */
  lemma {:induction false} NoWikiLinksUnchanged(cfg: Config, ix: Index, pagePath: Segs, chunks: seq<Chunk>, start: nat)
    requires NoLinksInProse(chunks)
    ensures ProcessFrom(cfg, ix, pagePath, chunks, start) == Success(SourceText(chunks, start))
    decreases |chunks|
  {
    if |chunks| > 0 {
      var rest := chunks[1..];
      assert NoLinksInProse(rest) by {
        forall i | 0 <= i < |rest| && rest[i].Prose? ensures NoWikiLinks(rest[i].pieces) {
          assert rest[i] == chunks[i + 1];
        }
      }
      NoWikiLinksUnchanged(cfg, ix, pagePath, rest, start + 1);
      var tailText := SourceText(rest, start + 1);
      if start % 3 == 2 {
        assert "" + tailText == tailText;
      } else {
        if chunks[0].Prose? {
          ProseWithoutLinksUnchanged(cfg, ix, pagePath, chunks[0].pieces);
        }
        assert ProcessChunk(cfg, ix, pagePath, start, chunks[0]) == Success(ChunkText(chunks[0]));
      }
    }
  }

  // ---- the same split as tagged regions ----

  /** The tokenizer read as tagged regions: prose, or a code span with its run. */
  datatype Region = ProseRegion(pieces: seq<WikiPiece>) | CodeRegion(text: string, run: Option<string>)

  /** Prose and code regions alternating, beginning and ending with prose (possibly empty). */
  predicate Alternating(rs: seq<Region>) {
    && |rs| % 2 == 1
    && forall i :: 0 <= i < |rs| ==> (i % 2 == 0 <==> rs[i].ProseRegion?)
  }

  /** A well-formed split longer than one chunk opens with prose, a code span and its run,
      and continues with a well-formed split. */
  lemma SplitTail(chunks: seq<Chunk>)
    requires WellFormedSplit(chunks) && |chunks| > 1
    ensures |chunks| >= 4
    ensures chunks[0].Prose? && chunks[1].Code? && chunks[2].Ticks?
    ensures CodeSpan(chunks[1].text, chunks[2].run)
    ensures WellFormedSplit(chunks[3..])
  {
    var tail := chunks[3..];
    assert chunks[1].Code? && chunks[2].Ticks?;
    forall i | 0 <= i < |tail|
      ensures (i % 3 == 0 <==> tail[i].Prose?) && (i % 3 == 1 <==> tail[i].Code?)
    {
      assert tail[i] == chunks[i + 3];
    }
    forall i | 0 <= i < |tail| && i % 3 == 1
      ensures tail[i + 1].Ticks? && CodeSpan(tail[i].text, tail[i + 1].run)
    {
      assert (i + 3) % 3 == 1;
      assert tail[i] == chunks[i + 3] && tail[i + 1] == chunks[i + 4];
    }
  }

  /** The split read as regions: prose chunks become prose regions, and each code chunk with
      the run after it becomes one code region. */
  function Regions(chunks: seq<Chunk>): (rs: seq<Region>)
    requires WellFormedSplit(chunks)
    ensures Alternating(rs)
    decreases |chunks|
  {
    if |chunks| == 1 then [ProseRegion(chunks[0].pieces)]
    else
      SplitTail(chunks);
      var rest := Regions(chunks[3..]);
      var rs := [ProseRegion(chunks[0].pieces), CodeRegion(chunks[1].text, chunks[2].run)] + rest;
      assert Alternating(rs) by {
        forall i | 2 <= i < |rs| ensures (i % 2 == 0 <==> rs[i].ProseRegion?) {
          assert rs[i] == rest[i - 2];
          assert (i - 2) % 2 == i % 2;
        }
      }
      rs
  }

  /** The regions written back as the split they came from. */
  function Flatten(rs: seq<Region>): seq<Chunk>
    decreases |rs|
  {
    if |rs| == 0 then []
    else
      (match rs[0]
       case ProseRegion(ps) => [Prose(ps)]
       case CodeRegion(t, r) => [Code(t), Ticks(r)])
      + Flatten(rs[1..])
  }

  function RegionText(r: Region): string {
    match r
    case ProseRegion(ps) => WikiSource(ps)
    case CodeRegion(t, _) => t
  }

  function RegionsSource(rs: seq<Region>): string
    decreases |rs|
  {
    if |rs| == 0 then "" else RegionText(rs[0]) + RegionsSource(rs[1..])
  }

  /** The reference rewriter over tagged regions: prose rewritten, code emitted verbatim. */
  function RewriteRegions(cfg: Config, ix: Index, pagePath: Segs, rs: seq<Region>): Result<string, LinkError>
    decreases |rs|
  {
    if |rs| == 0 then Success("")
    else
      var head := match rs[0]
        case ProseRegion(ps) => RewriteProse(cfg, ix, pagePath, ps)
        case CodeRegion(t, _) => Success(t);
      Then(head, RewriteRegions(cfg, ix, pagePath, rs[1..]))
  }

  /** Reading the split as regions loses nothing: flattening them gives the split back. */
  lemma {:induction false} FlattenRegions(chunks: seq<Chunk>)
    requires WellFormedSplit(chunks)
    ensures Flatten(Regions(chunks)) == chunks
    decreases |chunks|
  {
    var rs := Regions(chunks);
    if |chunks| == 1 {
      assert rs[1..] == [];
      assert chunks == [chunks[0]];
    } else {
      SplitTail(chunks);
      var tail := chunks[3..];
      FlattenRegions(tail);
      assert rs[1..][1..] == Regions(tail);
      assert Flatten(rs[1..]) == [Code(chunks[1].text), Ticks(chunks[2].run)] + Flatten(Regions(tail));
      assert chunks == [chunks[0], chunks[1], chunks[2]] + tail;
    }
  }

  /** One period of the split, prose, code and run, as the plugin processes it. */
  lemma ProcessPeriod(cfg: Config, ix: Index, pagePath: Segs, chunks: seq<Chunk>)
    requires |chunks| >= 3 && chunks[0].Prose? && chunks[1].Code?
    ensures ProcessFrom(cfg, ix, pagePath, chunks, 0)
      == Then(RewriteProse(cfg, ix, pagePath, chunks[0].pieces),
              Then(Success(chunks[1].text), ProcessFrom(cfg, ix, pagePath, chunks[3..], 0)))
  {
    var c1 := chunks[1..];
    var c2 := c1[1..];
    assert c2[1..] == chunks[3..];
    ProcessDropRun(cfg, ix, pagePath, c2);
    ProcessAtOne(cfg, ix, pagePath, c1);
    assert ProcessChunk(cfg, ix, pagePath, 1, c1[0]) == Success(chunks[1].text);
    ProcessAtZero(cfg, ix, pagePath, chunks);
    assert ProcessChunk(cfg, ix, pagePath, 0, chunks[0]) == RewriteProse(cfg, ix, pagePath, chunks[0].pieces);
  }

  // The step lemmas below name their positions as literals, so that their conclusions
  // match the terms of their callers without arithmetic.

  /** The chunk at position 0 is processed and joined to the rest. */
  lemma ProcessAtZero(cfg: Config, ix: Index, pagePath: Segs, chunks: seq<Chunk>)
    requires |chunks| > 0
    ensures ProcessFrom(cfg, ix, pagePath, chunks, 0)
      == Then(ProcessChunk(cfg, ix, pagePath, 0, chunks[0]), ProcessFrom(cfg, ix, pagePath, chunks[1..], 1))
  {
  }

  /** The chunk at position 1 is processed and joined to the rest. */
  lemma ProcessAtOne(cfg: Config, ix: Index, pagePath: Segs, chunks: seq<Chunk>)
    requires |chunks| > 0
    ensures ProcessFrom(cfg, ix, pagePath, chunks, 1)
      == Then(ProcessChunk(cfg, ix, pagePath, 1, chunks[0]), ProcessFrom(cfg, ix, pagePath, chunks[1..], 2))
  {
  }

  /** The run capture at position 2 is skipped, and the rest starts a new period. */
  lemma ProcessDropRun(cfg: Config, ix: Index, pagePath: Segs, chunks: seq<Chunk>)
    requires |chunks| > 0
    ensures ProcessFrom(cfg, ix, pagePath, chunks, 2) == ProcessFrom(cfg, ix, pagePath, chunks[1..], 0)
  {
    ProcessAtTwo(cfg, ix, pagePath, chunks);
    ShiftBy3(cfg, ix, pagePath, chunks[1..], 0);
  }

  /** The chunk at position 2 is skipped. */
  lemma ProcessAtTwo(cfg: Config, ix: Index, pagePath: Segs, chunks: seq<Chunk>)
    requires |chunks| > 0
    ensures ProcessFrom(cfg, ix, pagePath, chunks, 2) == ProcessFrom(cfg, ix, pagePath, chunks[1..], 3)
  {
  }

  /** One period of the split, prose, code and run, as document text. */
  lemma SourcePeriod(chunks: seq<Chunk>)
    requires |chunks| >= 3 && chunks[0].Prose? && chunks[1].Code?
    ensures SourceText(chunks, 0)
      == WikiSource(chunks[0].pieces) + (chunks[1].text + SourceText(chunks[3..], 0))
  {
    var c1 := chunks[1..];
    var c2 := c1[1..];
    assert c2[1..] == chunks[3..];
    SourceDropRun(c2);
    SourceAtOne(c1);
    assert ChunkText(c1[0]) == chunks[1].text;
    SourceAtZero(chunks);
    assert ChunkText(chunks[0]) == WikiSource(chunks[0].pieces);
  }

  /** The chunk at position 0 contributes its text. */
  lemma SourceAtZero(chunks: seq<Chunk>)
    requires |chunks| > 0
    ensures SourceText(chunks, 0) == ChunkText(chunks[0]) + SourceText(chunks[1..], 1)
  {
  }

  /** The chunk at position 1 contributes its text. */
  lemma SourceAtOne(chunks: seq<Chunk>)
    requires |chunks| > 0
    ensures SourceText(chunks, 1) == ChunkText(chunks[0]) + SourceText(chunks[1..], 2)
  {
    SourceKeep(chunks, 1);
  }

  /** A chunk at a position that is not 2 mod 3 contributes its text. */
  lemma SourceKeep(chunks: seq<Chunk>, start: nat)
    requires |chunks| > 0 && start % 3 != 2
    ensures SourceText(chunks, start) == ChunkText(chunks[0]) + SourceText(chunks[1..], start + 1)
  {
  }

  /** The run capture at position 2 contributes nothing, and the rest starts a new period. */
  lemma SourceDropRun(chunks: seq<Chunk>)
    requires |chunks| > 0
    ensures SourceText(chunks, 2) == SourceText(chunks[1..], 0)
  {
    SourceAtTwo(chunks);
    SourceShift(chunks[1..], 0);
  }

  /** The chunk at position 2 contributes nothing. */
  lemma SourceAtTwo(chunks: seq<Chunk>)
    requires |chunks| > 0
    ensures SourceText(chunks, 2) == SourceText(chunks[1..], 3)
  {
    assert "" + SourceText(chunks[1..], 3) == SourceText(chunks[1..], 3);
  }

  /** The positional processing of the plugin and the tagged reference agree on every
      well-formed split, errors included, and both read the same document text. */
  lemma {:induction false} PositionalMatchesTagged(cfg: Config, ix: Index, pagePath: Segs, chunks: seq<Chunk>)
    requires WellFormedSplit(chunks)
    ensures ProcessObsidianLinks(cfg, ix, pagePath, chunks) == RewriteRegions(cfg, ix, pagePath, Regions(chunks))
    ensures SourceText(chunks, 0) == RegionsSource(Regions(chunks))
    decreases |chunks|
  {
    var rs := Regions(chunks);
    if |chunks| == 1 {
      assert chunks[0].Prose?;
      assert rs == [ProseRegion(chunks[0].pieces)];
      assert chunks[1..] == [];
      assert rs[1..] == [];
      var r0 := RewriteProse(cfg, ix, pagePath, chunks[0].pieces);
      assert ProcessFrom(cfg, ix, pagePath, chunks, 0) == Then(r0, Success(""));
      assert RewriteRegions(cfg, ix, pagePath, rs) == Then(r0, Success(""));
    } else {
      SplitTail(chunks);
      var tail := chunks[3..];
      PositionalMatchesTagged(cfg, ix, pagePath, tail);
      ProcessPeriod(cfg, ix, pagePath, chunks);
      SourcePeriod(chunks);
      assert rs[1..][1..] == Regions(tail);
    }
  }

  /** Processing depends on positions only modulo 3. */
  lemma {:induction false} ShiftBy3(cfg: Config, ix: Index, pagePath: Segs, chunks: seq<Chunk>, start: nat)
    ensures ProcessFrom(cfg, ix, pagePath, chunks, start + 3) == ProcessFrom(cfg, ix, pagePath, chunks, start)
    decreases |chunks|
  {
    if |chunks| > 0 {
      var next := start + 1;
      ShiftBy3(cfg, ix, pagePath, chunks[1..], next);
      ProcessUnfold(cfg, ix, pagePath, chunks, start, next);
      ProcessUnfold(cfg, ix, pagePath, chunks, start + 3, next + 3);
      assert (start + 3) % 3 == start % 3;
      assert ProcessChunk(cfg, ix, pagePath, start + 3, chunks[0])
          == ProcessChunk(cfg, ix, pagePath, start, chunks[0]);
    }
  }

  /** One step of the positional processing, with the next position named. */
  lemma ProcessUnfold(cfg: Config, ix: Index, pagePath: Segs, chunks: seq<Chunk>, start: nat, next: nat)
    requires |chunks| > 0 && next == start + 1
    ensures ProcessFrom(cfg, ix, pagePath, chunks, start)
      == if start % 3 == 2 then ProcessFrom(cfg, ix, pagePath, chunks[1..], next)
         else Then(ProcessChunk(cfg, ix, pagePath, start, chunks[0]), ProcessFrom(cfg, ix, pagePath, chunks[1..], next))
  {
  }

  /** The document text depends on positions only modulo 3. */
  lemma {:induction false} SourceShift(chunks: seq<Chunk>, start: nat)
    ensures SourceText(chunks, start + 3) == SourceText(chunks, start)
    decreases |chunks|
  {
    if |chunks| > 0 {
      SourceShift(chunks[1..], start + 1);
      assert (start + 3) % 3 == start % 3;
    }
  }

  lemma ThenAssoc(a: Result<string, LinkError>, b: Result<string, LinkError>, c: Result<string, LinkError>)
    ensures Then(Then(a, b), c) == Then(a, Then(b, c))
  {
    if a.Success? && b.Success? && c.Success? {
      assert (a.value + b.value) + c.value == a.value + (b.value + c.value);
    }
  }

  /** Rewriting distributes over concatenation of regions: each region is rewritten on its
      own, in order, and the first error wins. */
  lemma {:induction false} RewriteRegionsConcat(cfg: Config, ix: Index, pagePath: Segs, a: seq<Region>, b: seq<Region>)
    ensures RewriteRegions(cfg, ix, pagePath, a + b)
      == Then(RewriteRegions(cfg, ix, pagePath, a), RewriteRegions(cfg, ix, pagePath, b))
    decreases |a|
  {
    if |a| == 0 {
      assert a + b == b;
      var rb := RewriteRegions(cfg, ix, pagePath, b);
      if rb.Success? {
        assert "" + rb.value == rb.value;
      }
    } else {
      assert (a + b)[0] == a[0];
      assert (a + b)[1..] == a[1..] + b;
      RewriteRegionsConcat(cfg, ix, pagePath, a[1..], b);
      var head := match a[0]
        case ProseRegion(ps) => RewriteProse(cfg, ix, pagePath, ps)
        case CodeRegion(t, _) => Success(t);
      ThenAssoc(head, RewriteRegions(cfg, ix, pagePath, a[1..]), RewriteRegions(cfg, ix, pagePath, b));
    }
  }

  /** Code is inviolable: a code region comes out of the rewrite character for character,
      between the rewrites of what precedes and what follows it. */
  lemma CodeRegionVerbatim(cfg: Config, ix: Index, pagePath: Segs, before: seq<Region>, code: string, run: Option<string>, after: seq<Region>)
    ensures var rb := RewriteRegions(cfg, ix, pagePath, before);
      var ra := RewriteRegions(cfg, ix, pagePath, after);
      rb.Success? && ra.Success? ==>
        RewriteRegions(cfg, ix, pagePath, before + [CodeRegion(code, run)] + after)
          == Success(rb.value + code + ra.value)
  {
    var c := [CodeRegion(code, run)];
    RewriteRegionsConcat(cfg, ix, pagePath, before + c, after);
    RewriteRegionsConcat(cfg, ix, pagePath, before, c);
    assert c[1..] == [];
    assert code + "" == code;
  }

  // ---- the page ----

  /** `on_page_markdown`: the markdown pass over the whole text (code spans included), then
      the wiki pass over the split of its output. */
  function PageMarkdown(cfg: Config, ix: Index, pagePath: Segs, md: seq<MdPiece>, chunks: seq<Chunk>): (r: Result<string, LinkError>)
    requires SourceText(chunks, 0) == ProcessMarkdownLinks(cfg, ix, pagePath, md)
    ensures NoLinksInProse(chunks) ==> r == Success(ProcessMarkdownLinks(cfg, ix, pagePath, md))
  {
    if NoLinksInProse(chunks) then
      NoWikiLinksUnchanged(cfg, ix, pagePath, chunks, 0);
      ProcessObsidianLinks(cfg, ix, pagePath, chunks)
    else ProcessObsidianLinks(cfg, ix, pagePath, chunks)
  }
}
