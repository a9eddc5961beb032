/** Concrete cases: the expectations of the plugins' end-to-end site build, and the
    documented behaviours of the legacy plugin, worked through the model. */
module Scenarios {
  import opened Wrappers
  import opened Strings
  import opened Paths
  import opened Utf8
  import opened Url
  import opened Resolver
  import opened Bridge
  import opened RoamLinks

  /** Two notes named `One.md` at the same distance: the first in index order wins. */
  lemma TieGoesToFirst()
    ensures BestPath(["docs", "C"], [["docs", "A", "One.md"], ["docs", "B", "One.md"]])
      == Success(["..", "A", "One.md"])
  {
    var dir: Segs := ["docs", "C"];
    var cands: seq<Segs> := [["docs", "A", "One.md"], ["docs", "B", "One.md"]];
    assert CommonPrefixLen(cands[0], dir) == 1;
    assert CommonPrefixLen(cands[1], dir) == 1;
    assert RelPath(cands[0], dir) == ["..", "A", "One.md"];
    assert RelPath(cands[1], dir) == ["..", "B", "One.md"];
    var r := BestPath(dir, cands);
    var i :| IsFirstShortest(cands, dir, i) && r.value == RelPath(cands[i], dir);
    assert i == 0;
  }

  /** From `docs/2025/Sport.md`, a link to `Books.md` picks the note beside the page over the
      earlier one in `docs/2024`; the site then shows it as `../Books/`. */
  lemma NearerWins()
    ensures BestPath(["docs", "2025"], [["docs", "2024", "Books.md"], ["docs", "2025", "Books.md"]])
      == Success(["Books.md"])
  {
    var dir: Segs := ["docs", "2025"];
    var cands: seq<Segs> := [["docs", "2024", "Books.md"], ["docs", "2025", "Books.md"]];
    assert CommonPrefixLen(cands[0], dir) == 1;
    assert CommonPrefixLen(cands[1], dir) == 2;
    assert RelPath(cands[0], dir) == ["..", "2024", "Books.md"];
    assert RelPath(cands[1], dir) == ["Books.md"];
    var r := BestPath(dir, cands);
    var i :| IsFirstShortest(cands, dir, i) && r.value == RelPath(cands[i], dir);
    assert i == 1;
  }

  lemma QuoteSpaceChar()
    ensures Quote(" ") == "%20"
  {
    assert !QuoteSafe(' ');
    assert Encode(' ') == [32];
    assert HexDigit(2) == '2' && HexDigit(0) == '0';
    assert Escape(32) == "%20";
    assert EscapeAll([32]) == Escape(32) + EscapeAll([]);
    assert QuoteChar(' ') == "%20";
    assert Quote(" ") == QuoteChar(' ') + Quote("");
  }

  /** Only the space is escaped in a note name made of safe words. */
  lemma QuoteSpaceBetween(a: string, b: string)
    requires forall k :: 0 <= k < |a| ==> QuoteSafe(a[k])
    requires forall k :: 0 <= k < |b| ==> QuoteSafe(b[k])
    ensures Quote(a + " " + b) == a + "%20" + b
  {
    QuoteConcat(a + " ", b);
    QuoteConcat(a, " ");
    QuoteSpaceChar();
  }

  /** A name with no `/` and no surrounding space is its own path, name and text. */
  lemma PlainName(n: string)
    requires n != "" && n != "." && '/' !in n && !IsSpace(n[0]) && !IsSpace(n[|n| - 1])
    ensures Strip(n) == n && PureName(n) == n && PureStr(n) == n
  {
    assert IndexOf(n, '/') == |n|;
    assert SplitOn(n, '/') == [n];
    assert KeepParts([n]) == [n];
    assert PureParts(n) == [n];
  }

  /** A plain note name that is not in the index: the link keeps the name as its text and
      points at the escaped name; with no annotation configured nothing is appended. */
  lemma UnknownName(cfg: Config, pagePath: Segs, n: string)
    requires cfg.attrList.None?
    requires n != "" && n != "." && '/' !in n && !IsSpace(n[0]) && !IsSpace(n[|n| - 1])
    ensures ReplaceObsidianLink(cfg, map[], pagePath, WikiMatch(n, None, None))
      == Success("[" + n + "](" + Quote(n) + ")")
  {
    var m := WikiMatch(n, None, None);
    PlainName(n);
    UnknownNameFacts(cfg, pagePath, m);
    UnresolvedWikiLink(cfg, map[], pagePath, m);
    var link := "[" + OrElse(None, n + "") + "](" + Quote(n) + "" + ")";
    assert WithAttrs(cfg, link, true) == link;
    EmptySlug(n, Quote(n));
  }

  lemma UnknownNameFacts(cfg: Config, pagePath: Segs, m: WikiMatch)
    requires m.alias.None? && m.fragmentText.None?
    ensures Slugify(cfg, m.Fragment()) == ""
    ensures forall n :: WikiTarget(map[], pagePath, n) == None
  {
  }

  /** The link text with an empty slug in both places. */
  lemma EmptySlug(n: string, url: string)
    ensures "[" + OrElse(None, n + "") + "](" + url + "" + ")" == "[" + n + "](" + url + ")"
  {
    assert n + "" == n;
    assert url + "" == url;
  }

  /** `[[Invalid Page]]` with no such note becomes a link to `Invalid%20Page`. */
  lemma InvalidPage(cfg: Config, pagePath: Segs)
    requires cfg.attrList.None?
    ensures ReplaceObsidianLink(cfg, map[], pagePath, WikiMatch("Invalid" + " " + "Page", None, None))
      == Success("[" + ("Invalid" + " " + "Page") + "](" + ("Invalid" + "%20" + "Page") + ")")
  {
    QuoteSpaceBetween("Invalid", "Page");
    UnknownName(cfg, pagePath, "Invalid" + " " + "Page");
  }

  lemma SignificantInnerMd(x: string, y: string)
    ensures Filter(Lower(x + ".md" + y), Significant)
      == Filter(Lower(x), Significant) + ".md" + Filter(Lower(y), Significant)
  {
    LowerConcat(x + ".md", y);
    FilterConcat(Lower(x + ".md"), Lower(y), Significant);
    SignificantMd(x);
  }

  /** A dotted name finds its markdown file: `[[v1.2]]` matches `v1.2.md`. */
  lemma VersionedName(name: string)
    requires name == "v1.2"
    ensures Simplify(name + ".md") == name && Simplify(name) == name
  {
    SimplifyMdSuffix(name);
    CharMissing(name, ".md", 1);
    SimplifyKeepsText(name);
  }

  /** Attachment names keep their extension, so two attachments that differ only there
      are told apart. */
  lemma SimplifyKeepsExtension(png: string, jpg: string)
    requires png == "a.png" && jpg == "a.jpg"
    ensures Simplify(png) == png && Simplify(jpg) == jpg
    ensures Simplify(png) != Simplify(jpg)
  {
    CharMissing(png, ".md", 1);
    SimplifyKeepsText(png);
    CharMissing(jpg, ".md", 1);
    SimplifyKeepsText(jpg);
  }

  /** A heading as written becomes its GitHub anchor: case is folded and the space turned
      into `-`. */
  lemma HeadingAnchor(title: string)
    requires title == "My Header"
    ensures GfmAnchor(title) == "my-header"
  {
    HeadingLower(title);
    GfmAnchorIgnoresCase(title);
    LowerHeadingAnchor();
  }

  lemma HeadingLower(title: string)
    requires title == "My Header"
    ensures Lower(title) == "my header"
  {
  }

  /** Punctuation at the end of a heading is dropped: `Header!` has the anchor `header`. */
  lemma ExclaimedHeadingAnchor(title: string)
    requires title == "Header!"
    ensures GfmAnchor(title) == "header"
  {
    var word := ExclaimedWord(title);
    GfmAnchorDropsLast(word, '!');
    WordAnchor(word);
  }

  lemma ExclaimedWord(title: string) returns (word: string)
    requires title == "Header!"
    ensures word == "Header" && title == word + ['!']
  {
    word := "Header";
  }

  lemma WordAnchor(word: string)
    requires word == "Header"
    ensures GfmAnchor(word) == "header"
  {
    var low := "header";
    assert Lower(word) == low;
    assert AnchorWord(low);
    GfmAnchorIgnoresCase(word);
    GfmAnchorWord(low);
  }

  /** Punctuation is dropped and surrounding whitespace ignored. */
  lemma PunctuatedHeadingAnchor(title: string)
    requires title == " My, Header "
    ensures GfmAnchor(title) == "my-header"
  {
    var inner := PaddedHeading(title);
    PunctuatedHeadingLower(inner);
    GfmAnchorIgnoresCase(inner);
    DroppedComma();
    LowerHeadingAnchor();
  }

  lemma LowerHeadingAnchor()
    ensures GfmAnchor("my header") == "my-header"
  {
    HeadingWords();
    HeadingLiterals();
  }

  lemma HeadingWords()
    ensures GfmAnchor("my" + " " + "header") == "my" + "-" + "header"
  {
    GfmAnchorWords("my", " ", "header");
  }

  lemma HeadingLiterals()
    ensures "my" + "-" + "header" == "my-header"
    ensures "my" + " " + "header" == "my header"
    ensures "my" + " header" == "my header"
  {
  }

  lemma PaddedHeading(title: string) returns (inner: string)
    requires title == " My, Header "
    ensures inner == "My, Header" && GfmAnchor(title) == GfmAnchor(inner)
  {
    inner := "My, Header";
    assert title == " " + inner + " ";
    GfmAnchorPadded(" ", inner, " ");
  }

  lemma PunctuatedHeadingLower(inner: string)
    requires inner == "My, Header"
    ensures Lower(inner) == "my" + [','] + " header"
  {
  }

  lemma DroppedComma()
    ensures GfmAnchor("my" + [','] + " header") == GfmAnchor("my header")
  {
    GfmAnchorDrops("my", ',', " header");
    HeadingLiterals();
  }

  /** A `.md` anywhere in a name is deleted, not only at its end. */
  lemma SimplifyInnerMd(x: string, y: string)
    ensures Simplify(x + ".md" + y) == Simplify(x) + Simplify(y)
  {
    var fx := Filter(Lower(x), Significant);
    var fy := Filter(Lower(y), Significant);
    SignificantInnerMd(x, y);
    MdHead();
    ReplaceAround(fx, ".md", fy, "");
    JoinEmpty(ReplaceAll(fx, ".md", ""), "", ReplaceAll(fy, ".md", ""));
  }

}
