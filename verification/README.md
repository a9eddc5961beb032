# Link rewriting of the Obsidian bridge and roamlinks MkDocs plugins

This project is a Dafny model of the link rewriting at the heart of two MkDocs plugins,
with proofs about it.

**The Obsidian bridge** (`mkdocs_obsidian_bridge/plugin.py`) rewrites a page's markdown in
two passes.

1. **Markdown links.** `[label](path.ext#fragment "title")` is rewritten first.
2. **Wiki links.** `[[path#fragment|alias]]` is rewritten next, but only outside code spans.

Both passes resolve a link the same way:
- Only the link's bare filename is used. It is looked up in an index of every file of the site.
- When several files share that name, the link goes to the one whose relative path from the
  page's directory has the fewest parts. On a tie, the earliest file in the index wins.
- Links that cannot be resolved may be flagged with an `attr_list` annotation.

**The legacy roamlinks plugin** (`mkdocs_roamlinks_plugin/plugin.py`) resolves links by walking
the docs directory instead.
- `[text](file.md#frag)` auto links are found by exact file name.
- `[[file#title|alias]]` roam links are found by a simplified name. The simplified name is
  lower-cased, with `-`, `_`, spaces and `.md` removed.
- In both kinds, the last matching file of the walk wins.

## Modules

| file | module | contents |
|---|---|---|
| `wrappers.dfy` | `Wrappers` | `Option`, `Result`, and Python's `or` on optional strings. |
| `strings.dfy` | `Strings` | The `str` operations the plugins use: `strip`, `lower`, `replace`, `join`, `split`, and the two `re.sub` character filters. |
| `paths.dfy` | `Paths` | Locations as normalized absolute segment sequences; `os.path.relpath` and its resolution back to the target; `pathlib` parsing of link text; `os.path.join`, `basename` and `dirname`. |
| `url.dfy` | `Utf8`, `Url` | `urllib.parse.quote` and `unquote` over UTF-8, and their round trip. |
| `fileindex.dfy` | `FileIndex` | `build_file_map`. |
| `resolver.dfy` | `Resolver` | `best_path` and `find_best_path`. |
| `bridge.dfy` | `Bridge` | Slugs, the annotation, both rewriters, the code/prose split, and the page hook. |
| `roamlinks.dfy` | `RoamLinks` | `simplify`, `gfm_anchor`, the directory scan, and both replacers. |
| `scenarios.dfy` | `Scenarios` | Cases from the plugins' end-to-end test expectations, worked through the model. |

## Model

| member | source | states |
|---|---|---|
| `FileIndex.BuildFileMap` | mkdocs_obsidian_bridge/plugin.py:108-114 | There is a key exactly for each filename that occurs. Under each key are exactly the locations with that filename, in supply order, duplicates kept, never an empty list. |
| `FileIndex.BuildFileMapTotal` | mkdocs_obsidian_bridge/plugin.py:108-114 | The keys, in dictionary insertion order, are the distinct filenames. The list lengths add up to the number of files, so every file is filed exactly once. |
| `Paths.RelPath` | mkdocs_obsidian_bridge/plugin.py:124-128 | The relative path has one `..` for each part of the start directory not shared with the target, plus each remaining part of the target. |
| `Paths.RelPathResolves` | mkdocs_obsidian_bridge/plugin.py:124-128 | Walking the relative path from the start directory arrives at the target. |
| `Paths.RelPathToSelf` | mkdocs_obsidian_bridge/plugin.py:124 | From a directory to itself the relative path is empty, and its text is `.`. |
| `Paths.RelPathToChild` | mkdocs_obsidian_bridge/plugin.py:124 | From a location's parent directory, the relative path is just the location's bare name. |
| `Resolver.FirstShortest` | mkdocs_obsidian_bridge/plugin.py:130 | `min(key=len)` returns a shortest element, and every earlier element is strictly longer, so ties go to the first. |
| `Resolver.FirstShortestUnique` | mkdocs_obsidian_bridge/plugin.py:126-130 | The winning candidate is unique: the choice depends only on candidate order. |
| `Resolver.BestPath` | mkdocs_obsidian_bridge/plugin.py:116-133 | It fails (NoCandidatesError) exactly when there are no candidates, which is what the code does with its asserts disabled. One candidate gives its relative path. Otherwise it gives the relative path of the first candidate with the fewest parts. |
| `Resolver.FindBestPath` | mkdocs_obsidian_bridge/plugin.py:135-156 | It gives None when the name is not a key. An empty candidate list also gives None, as it does when the asserts are disabled (see "Left out"). Otherwise it gives the best relative path from the page's parent directory. |
| `Resolver.ResolveInCorpus` | mkdocs_obsidian_bridge/plugin.py:108-156 | Against the index built from the files, a name resolves exactly when some file has it. The result leads to such a file and is no longer than the path to any other file with that name. |
| `Resolver.UniqueNameResolvesDirectly` | mkdocs_obsidian_bridge/plugin.py:135-156 | A filename carried by only one file resolves to the direct relative path to that file. |
| `Url.Quote` | mkdocs_obsidian_bridge/plugin.py:208 | Its output holds only safe characters and `%`. Text that is already safe comes back unchanged. |
| `Url.QuoteConcat` | mkdocs_obsidian_bridge/plugin.py:295 | Quoting works piece by piece: quoting a concatenation is concatenating the quotes. |
| `Url.UnquoteQuote` | mkdocs_roamlinks_plugin/plugin.py:37 | `unquote(quote(s)) == s` for every string, including non-ASCII text. |
| `Url.UnquoteLiteral` | mkdocs_roamlinks_plugin/plugin.py:37 | `unquote` returns text without `%` unchanged. |
| `Bridge.AttrListGate` | mkdocs_obsidian_bridge/plugin.py:63-71 | The annotation is active exactly when attribute names are configured and `attr_list` is enabled. It lists those names separated by spaces. |
| `Bridge.Slugify` | mkdocs_obsidian_bridge/plugin.py:94-100 | It gives the empty string exactly for absent or empty text. Otherwise it gives `#` followed by the configured slug of the text. |
| `Bridge.WithAttrs` | mkdocs_obsidian_bridge/plugin.py:102-106 | The link is always a prefix of the result. The result equals the link unless both the annotation and `when` are active, and then the rest is `{: attrs}`. |
| `Bridge.ReplaceMarkdownLink` | mkdocs_obsidian_bridge/plugin.py:198-217 | When the bare filename does not resolve, the result is the matched text: unchanged when no attribute list is set, otherwise followed by exactly `{: attrs}` (`with_attrs`, lines 102-106). When it resolves, the result is `[label](url slug title)`, where the URL is quote-safe and decodes to the resolved relative path. |
| `Bridge.MarkdownPassConcat` | mkdocs_obsidian_bridge/plugin.py:192-196 | `process_markdown_links` (`ProcessMarkdownLinks`) rewrites each match on its own and copies the text between. The pass over two stretches of pieces is the two passes joined. |
| `Bridge.UnresolvedMarkdownUnchanged` | mkdocs_obsidian_bridge/plugin.py:192-217 | With the annotation off, a text none of whose markdown links resolve comes out of the markdown pass unchanged. |
| `Bridge.ReplaceObsidianLink` | mkdocs_obsidian_bridge/plugin.py:270-300 | An empty path gives `[alias or fragment text](slug)` with no lookup. The only error is `with_suffix`'s ValueError: the path is non-empty, its name is empty, and the first lookup fails. |
| `Bridge.WikiTargetInCorpus` | mkdocs_obsidian_bridge/plugin.py:285-289 | The target lookup (`WikiTarget`) against the index built from the files fails exactly when neither the name nor the name with `.md` belongs to a file. An exact name is preferred, and the result leads to a file carrying the name that was found. |
| `Bridge.ObsidianLinkShape` | mkdocs_obsidian_bridge/plugin.py:283-300 | A link with a path gives `[alias or path+slug](url slug)`. The URL decodes to the resolved path, or to the path as written when both lookups fail. The annotation is added exactly when both lookups fail. |
| `Bridge.UnresolvedWikiLink` | mkdocs_obsidian_bridge/plugin.py:283-300 | When neither lookup resolves a path with a name, the link keeps the path as written, percent-encoded, and carries the annotation. |
| `Bridge.ProseWithoutLinksUnchanged` | mkdocs_obsidian_bridge/plugin.py:241-246 | Prose holding no wiki link is returned unchanged. |
| `Bridge.RewriteProseConcat` | mkdocs_obsidian_bridge/plugin.py:242-246 | The `re.sub` on one prose chunk (`RewriteProse`) handles its pieces in order. Over two stretches of pieces it is the two rewrites joined, and the earlier error wins. |
| `Bridge.NoWikiLinksUnchanged` | mkdocs_obsidian_bridge/plugin.py:240-268 | A page whose prose holds no wiki link comes back exactly as the text it was split from. |
| `Bridge.Regions` | mkdocs_obsidian_bridge/plugin.py:254-260 | A well-formed `re.split` result reads as prose and code regions alternating, starting and ending with prose. |
| `Bridge.FlattenRegions` | mkdocs_obsidian_bridge/plugin.py:254-260 | Reading the split as regions loses nothing: flattening the regions gives the split back. |
| `Bridge.ProcessPeriod` | mkdocs_obsidian_bridge/plugin.py:240-265 | Over one period of the split, `process_chunk` and the comprehension (`ProcessChunk`, `ProcessFrom`) rewrite the prose chunk and keep the code chunk verbatim. They drop the backtick capture, then continue with the rest. |
| `Bridge.PositionalMatchesTagged` | mkdocs_obsidian_bridge/plugin.py:240-268 | The plugin's position-mod-3 processing (`ProcessObsidianLinks`) equals rewriting the tagged regions (prose rewritten, code verbatim), errors included. Both read the same document text. |
| `Bridge.ShiftBy3` | mkdocs_obsidian_bridge/plugin.py:240-250 | Chunk processing depends on the chunk's position only modulo 3. |
| `Bridge.RewriteRegionsConcat` | mkdocs_obsidian_bridge/plugin.py:262-268 | Rewriting a concatenation of regions is rewriting each part in order, and the first error wins. |
| `Bridge.CodeRegionVerbatim` | mkdocs_obsidian_bridge/plugin.py:247-248 | A code region appears in the output character for character, between the rewrites of what precedes and what follows it. |
| `Bridge.PageMarkdown` | mkdocs_obsidian_bridge/plugin.py:81-92 | When the split of the markdown pass's output holds no wiki link in prose, the page is the markdown pass's output. |
| `RoamLinks.Simplify` | mkdocs_roamlinks_plugin/plugin.py:74-78 | The simplified name holds no `-`, `_`, space or upper-case letter. A name with nothing to drop (none of those and no `.`) is its own simplification. |
| `RoamLinks.SimplifyKeepsText` | mkdocs_roamlinks_plugin/plugin.py:74-78 | A name with no `-`, `_`, space or upper-case letter, in which `.md` does not occur, is its own simplification: every other `.` survives, so an attachment keeps its extension. |
| `RoamLinks.SimplifyIgnores` | mkdocs_roamlinks_plugin/plugin.py:78 | A `-`, `_` or space anywhere in a name does not change its simplification. |
| `RoamLinks.SimplifyIgnoresCase` | mkdocs_roamlinks_plugin/plugin.py:78 | A name simplifies exactly as its lower-cased form does. |
| `RoamLinks.SimplifyMdSuffix` | mkdocs_roamlinks_plugin/plugin.py:74-78 | Any name simplifies the same as that name with `.md` appended, dots included, so a link needs no `.md` to match a markdown file. |
| `RoamLinks.GfmAnchor` | mkdocs_roamlinks_plugin/plugin.py:80-89 | An empty title gives an empty anchor. Every anchor character is a kept word, CJK or `-` character, never a space or an upper-case letter. The strip, lower-case, filter and collapse steps are each stated by the lemmas below. |
| `RoamLinks.GfmAnchorWord` | mkdocs_roamlinks_plugin/plugin.py:80-89 | A title made only of kept, lower-case characters with no space is returned unchanged. |
| `RoamLinks.GfmAnchorWords` | mkdocs_roamlinks_plugin/plugin.py:84-86 | Two such words separated by a run of spaces become the two words joined by a single `-`. |
| `RoamLinks.GfmAnchorIdempotent` | mkdocs_roamlinks_plugin/plugin.py:80-89 | An anchor is its own anchor. |
| `RoamLinks.GfmAnchorIgnoresCase` | mkdocs_roamlinks_plugin/plugin.py:84 | A title and its lower-cased form give the same anchor. |
| `RoamLinks.GfmAnchorPadded` | mkdocs_roamlinks_plugin/plugin.py:84 | Whitespace before and after a title does not change its anchor. |
| `RoamLinks.GfmAnchorDrops` | mkdocs_roamlinks_plugin/plugin.py:85 | A character outside the kept set, inside a title, leaves the anchor as if it were not there. |
| `RoamLinks.GfmAnchorDropsLast` | mkdocs_roamlinks_plugin/plugin.py:84-85 | A character outside the kept set at the end of a title, whitespace or not, is dropped: the title has the anchor of the text before it, when that text is empty or has no whitespace at either end. Whitespace left inside by the dropped character would survive stripping: `Header !` gives `header-`. |
| `RoamLinks.GfmAnchorDropsFirst` | mkdocs_roamlinks_plugin/plugin.py:84-85 | A character outside the kept set at the start of a title, whitespace or not, is dropped: the title has the anchor of the text after it, under the same condition on that text. |
| `RoamLinks.EntryLinkLeadsToFile` | mkdocs_roamlinks_plugin/plugin.py:51-55 | The link built for a walk entry (`EntryLink`) is a relative directory that resolves from the linker's directory to the entry's directory, joined with the entry's name. |
| `RoamLinks.LinkerDirOfPage` | mkdocs_roamlinks_plugin/plugin.py:40-41 | For a page at `dirs/file` under the docs directory, the linker's directory (`LinkerDir`) is `docs/dirs`. |
| `RoamLinks.LastLink` | mkdocs_roamlinks_plugin/plugin.py:44-56 | When no walk entry matches, the scan's result is empty. |
| `RoamLinks.LastLinkFound` | mkdocs_roamlinks_plugin/plugin.py:123-134 | When some entry matches, the scan gives the non-empty link to the last matching entry. |
| `RoamLinks.ScanWalk` | mkdocs_roamlinks_plugin/plugin.py:44-55 | The forward loop, which overwrites on every match, computes the same result as the last-match reference definition. |
| `RoamLinks.AutoLink` | mkdocs_roamlinks_plugin/plugin.py:35-66 | When no walk entry has the unquoted, stripped file name, the matched text is returned unchanged. |
| `RoamLinks.AutoLinkResolved` | mkdocs_roamlinks_plugin/plugin.py:60-66 | A found auto link keeps its text. It points at the link to the last file with that name, with the fragment appended verbatim. |
| `RoamLinks.AutoLinkLabelIsUrl` | mkdocs_roamlinks_plugin/plugin.py:60-66 | `str.replace` rewrites every occurrence. When the link text is the URL itself, both become the link to the last file of that name with the fragment. |
| `RoamLinks.ReplaceUrlOnly` | mkdocs_roamlinks_plugin/plugin.py:61-65 | `str.replace` of the URL touches only the URL's own place when the URL does not occur earlier in the match. |
| `RoamLinks.RelFile` | mkdocs_roamlinks_plugin/plugin.py:111-113 | `.md` is appended exactly when the name has no `.`. Otherwise the name is kept as it is. Either way the result has a `.`. |
| `RoamLinks.RoamLink` | mkdocs_roamlinks_plugin/plugin.py:91-156 | A named file that is not found leaves the link as it was. Anything else becomes `[label](url)`, where the URL is the computed one, character for character, except that each backslash becomes `/`. |
| `RoamLinks.FixBackslashes` | mkdocs_roamlinks_plugin/plugin.py:143 | `replace("\\", "/")` keeps the length, turns every backslash into `/` and leaves every other character in place. |
| `RoamLinks.RoamAnchorOnly` | mkdocs_roamlinks_plugin/plugin.py:138-154 | A link with no file name points at `#` plus its title's anchor in the same page. |
| `RoamLinks.RoamNotFound` | mkdocs_roamlinks_plugin/plugin.py:122-137 | A plain name that no walk entry matches after simplification leaves the link as it was. |
| `RoamLinks.RoamUrlEmptyIffMissing` | mkdocs_roamlinks_plugin/plugin.py:122-137 | For a plain file name, the computed URL (`RoamUrl`, `FileUrl`) is empty exactly when no walk entry matches after simplification. |
| `RoamLinks.RoamFound` | mkdocs_roamlinks_plugin/plugin.py:122-134 | A plain name resolves to the link to the last simplified-name match, with `#anchor` appended when there is a title. |
| `RoamLinks.RoamExplicitPath` | mkdocs_roamlinks_plugin/plugin.py:106-121 | A path mentioning `http` is used verbatim. Any other path (`ExplicitPathLink`) leads from the linker's directory to the directory of `docs_dir/file`, then names the file, with the anchor when there is a title. |
| `Scenarios.TieGoesToFirst` | mkdocs_obsidian_bridge/plugin.py:126-130 | Two notes named `One.md` at equal distance: the first in index order wins. |
| `Scenarios.NearerWins` | tests/test_e2e.py:189-193 | From `docs/2025/Sport.md`, `Books.md` resolves to the note beside the page rather than the earlier one in `2024`. |
| `Scenarios.QuoteSpaceBetween` | tests/test_e2e.py:161-164 | In a name of safe words, only the space is escaped, as `%20`. |
| `Scenarios.UnknownName` | mkdocs_obsidian_bridge/plugin.py:283-300 | A plain note name missing from the index becomes `[name](quoted name)`, with no annotation when none is configured. |
| `Scenarios.InvalidPage` | tests/test_e2e.py:78 | `[[Invalid Page]]` with no such note becomes a link to `Invalid%20Page`. |
| `Scenarios.SimplifyInnerMd` | mkdocs_roamlinks_plugin/plugin.py:78 | `.md` is deleted anywhere in any name, not only at its end: the parts before and after it simplify separately and are joined. |
| `Scenarios.VersionedName` | mkdocs_roamlinks_plugin/plugin.py:74-78 | The dotted name `v1.2` is its own simplification and matches `v1.2.md`. |
| `Scenarios.SimplifyKeepsExtension` | mkdocs_roamlinks_plugin/plugin.py:74-78 | `a.png` and `a.jpg` simplify to themselves, so they stay apart. |
| `Scenarios.HeadingAnchor` | mkdocs_roamlinks_plugin/plugin.py:80-89 | The heading `My Header` has the anchor `my-header`. |
| `Scenarios.ExclaimedHeadingAnchor` | mkdocs_roamlinks_plugin/plugin.py:80-89 | The heading `Header!` has the anchor `header`. |
| `Scenarios.PunctuatedHeadingAnchor` | mkdocs_roamlinks_plugin/plugin.py:80-89 | The heading ` My, Header ` also has the anchor `my-header`: the comma is dropped and the outer spaces stripped. |

Behaviour reproduced as written:
- **The `![]` form of a markdown link.** The label group does not take part in this form. When
  the link resolves, the label is rendered as the text `None` and the `!` is consumed, as
  Python's f-string does.
- **A wiki link whose path has no name** (`[[/]]`, `[[.]]`). When the first lookup fails, the
  retry calls `with_suffix`, which raises. The model returns `Failure(EmptyName)`, and that
  failure aborts the whole wiki pass.

## Left out

- The MkDocs hooks (`on_config`, `on_files`) and the roamlinks `on_page_markdown` at mkdocs_roamlinks_plugin/plugin.py:159-179. They only wire the passes to MkDocs objects. The gate of `on_config` is modelled as `Bridge.AttrListGate`.
- Logging. It has no effect on output.
- Resolver.BestPath: the asserts at mkdocs_obsidian_bridge/plugin.py:118-120 and 136-137 are treated as disabled, as under `python -O`. So an empty candidate list reaches `raise NoCandidatesError()`, and `find_best_path` turns that into None. With the asserts on, Python raises AssertionError instead. No index built by `build_file_map` holds an empty list (`FileIndex.BuildFileMap`), and `Resolver.ResolveInCorpus` states resolution for such indexes. The absolute-path asserts hold by construction, because locations are normalized absolute segment sequences.
- The regular-expression engines. Matches are given to the model as records of their groups, interleaved with the text between them, so `re.sub` becomes a fold over pieces. Which file types the markdown-link pattern accepts (`OBSIDIAN_FORMATS`) belongs to the pattern and is not modelled. The output of `re.split(CODE_BLOCK, ...)` is likewise a given chunk list, constrained by `Bridge.WellFormedSplit`.
- The heading slug function (`toc.slugify` with its separator). It belongs to another package, so it is a parameter of `Bridge.Config`.
- `str.lower` is modelled for ASCII letters only. Python also lower-cases non-ASCII letters.
- The `\w` class in `gfm_anchor` is approximated as ASCII letters, digits and `_`, plus every non-ASCII character that is not whitespace. Python's Unicode word-character table is not modelled.
- `os.walk` is given as a list of (directory, name) entries in walk order; the filesystem is not modelled.
- Windows path separators. Paths are POSIX, so the backslash replacement in `RoamLink` only matters for backslashes inside names.
- `Path.with_suffix` is modelled as appending `.md` to the name. For a name with a suffix, the source's `suffix + '.md'` yields the same name.
- `process_obsidian_callouts` and `process_obsidian_comments` (mkdocs_obsidian_bridge/plugin.py:302-308). They are identity functions and are not called.
- RoamLinks.AutoLink: the resolved case is stated in two lemmas. `RoamLinks.AutoLinkResolved` covers the URL text not occurring before its own place. `RoamLinks.AutoLinkLabelIsUrl` covers the link text being the URL, for a URL that does not begin with a bracket or parenthesis. Other texts that contain the URL are rewritten by the same `ReplaceAll`, but no lemma gives their result in closed form.
- RoamLinks.LastLink: its own contract covers only the no-match case. The found case is `RoamLinks.LastLinkFound`.
- Bridge.PageMarkdown: it is stated only for pages without wiki links. Pages with wiki links are covered by `Bridge.PositionalMatchesTagged` and the per-link contracts.
