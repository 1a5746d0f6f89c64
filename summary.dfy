/** The summary generator (`generate_summary`): `SUMMARY.md`, the site's
    navigation, lists the home page, the articles index, one link per
    article in file-name order, and the tables section as a wildcard. */
module Summary {
  import opened Wrappers
  import opened Seqs
  import opened Sorting
  import opened Files
  import opened Markdown
  import opened Articles

  const SummaryPath: string := "SUMMARY.md"

  const Head: seq<string> := ["- [Home](index.md)", "- [Articles](articles/index.md)"]

  const Tail: seq<string> := ["- [Tables](tables/index.md)", "    - tables/*.md"]

  /** Matched by `glob("*.md")`. */
  predicate IsMarkdown(f: SourceFile) {
    MatchesGlob(f.name, ".md")
  }

  predicate NotIndex(f: SourceFile) {
    f.name != "index.md"
  }

  function NameKey(f: SourceFile): string {
    f.name
  }

  /** `sorted(articles_dir.glob("*.md"))`: paths of one directory compare
      by file name. */
  function MarkdownFiles(entries: seq<SourceFile>): seq<SourceFile> {
    SortBy(Filter(entries, IsMarkdown), NameKey)
  }

  /** The files linked from the summary. */
  function Listed(dir: Option<seq<SourceFile>>): seq<SourceFile> {
    match dir
    case None => []
    case Some(entries) => Filter(MarkdownFiles(entries), NotIndex)
  }

  /** The link to one article. Its title comes from the same extraction as
      the article generator's; an unreadable file falls back to its stem. */
  function ArticleLink(f: SourceFile): string {
    "    - [" + ExtractTitle(f.content, Stem(f.name)) + "](articles/" + f.name + ")"
  }

  function Links(files: seq<SourceFile>): seq<string> {
    seq(|files|, i requires 0 <= i < |files| => ArticleLink(files[i]))
  }

  /** The lines of `SUMMARY.md`. */
  function SummaryLines(dir: Option<seq<SourceFile>>): seq<string> {
    Head + Links(Listed(dir)) + Tail
  }

  lemma LinksStep(files: seq<SourceFile>, f: SourceFile)
    ensures Links(files + [f]) == Links(files) + [ArticleLink(f)]
  {
  }

  lemma WithTail(lines: seq<string>)
    ensures lines + ["- [Tables](tables/index.md)"] + ["    - tables/*.md"] == lines + Tail
  {
  }

  /** The loop of `generate_summary` over the sorted `.md` files: one
      link per file other than `index.md`, in order. */
  method NavLinks(files: seq<SourceFile>) returns (links: seq<string>)
    ensures links == Links(Filter(files, NotIndex))
  {
    links := [];
    var i := 0;
    while i < |files|
      invariant 0 <= i <= |files|
      invariant links == Links(Filter(files[..i], NotIndex))
    {
      var f := files[i];
      FilterStep(files, i, NotIndex);
      if f.name != "index.md" {
        var title := ExtractTitle(f.content, Stem(f.name));
        var line := "    - [" + title + "](articles/" + f.name + ")";
        LinksStep(Filter(files[..i], NotIndex), f);
        links := links + [line];
      }
      i := i + 1;
    }
    assert files[..i] == files;
  }

  /** `generate_summary`, writing `SUMMARY.md` into `out`. */
  method GenerateSummary(out: OutputTree, dir: Option<seq<SourceFile>>)
    modifies out
    ensures out.files == old(out.files)[SummaryPath := FileText(SummaryLines(dir))]
  {
    var navLines := Head;
    if dir.Some? {
      var links := NavLinks(MarkdownFiles(dir.value));
      navLines := navLines + links;
    } else {
      assert Links(Listed(dir)) == [];
    }
    assert navLines == Head + Links(Listed(dir));
    navLines := navLines + ["- [Tables](tables/index.md)"];
    navLines := navLines + ["    - tables/*.md"];
    WithTail(Head + Links(Listed(dir)));
    out.Write(SummaryPath, FileText(navLines));
  }

  /** The summary starts with the home and articles lines, ends with the
      tables line and its wildcard, and has one line per listed file in
      between; without an articles directory it is exactly those four
      lines. */
  lemma SummaryFrame(dir: Option<seq<SourceFile>>)
    ensures var lines := SummaryLines(dir);
      |lines| == 4 + |Listed(dir)|
      && lines[..2] == Head
      && lines[|lines| - 2..] == Tail
      && forall i :: 2 <= i < |lines| - 2 ==> lines[i] == ArticleLink(Listed(dir)[i - 2])
    ensures dir.None? ==> SummaryLines(dir) == Head + Tail
  {
    var listed := Listed(dir);
    LinksFrame(listed);
    if dir.None? {
      assert listed == [];
      assert Links(listed) == [];
    }
  }

  lemma LinksFrame(files: seq<SourceFile>)
    ensures var lines := Head + Links(files) + Tail;
      |lines| == 4 + |files|
      && lines[..2] == Head
      && lines[|lines| - 2..] == Tail
      && forall i :: 2 <= i < |lines| - 2 ==> lines[i] == ArticleLink(files[i - 2])
  {
    var links := Links(files);
    var lines := Head + links + Tail;
    assert lines[|lines| - 2..] == Tail;
    forall i | 2 <= i < |lines| - 2 ensures lines[i] == ArticleLink(files[i - 2]) {
      assert lines[i] == links[i - 2];
    }
  }

  /** The summary links exactly the articles (the `.md` files other than
      `index.md`), each once, in ascending file-name order. */
  lemma SummaryListsArticles(entries: seq<SourceFile>)
    ensures var listed := Listed(Some(entries));
      SortedBy(listed, NameKey)
      && multiset(listed) == multiset(ArticleFiles(entries))
  {
    var md := MarkdownFiles(entries);
    var listed := Listed(Some(entries));
    SortBySorted(Filter(entries, IsMarkdown), NameKey);
    FilterSorted(md, NameKey, NotIndex);
    forall x ensures multiset(listed)[x] == multiset(ArticleFiles(entries))[x] {
      FilterMultiset(md, NotIndex, x);
      FilterMultiset(entries, IsMarkdown, x);
      FilterMultiset(entries, IsArticle, x);
    }
    assert multiset(listed) == multiset(ArticleFiles(entries));
  }

  /** Each summary link carries the title and path of the article record
      the article generator builds for the same file. */
  lemma SummaryAgreesWithArticles(dir: Option<seq<SourceFile>>, i: nat)
    requires i < |Listed(dir)|
    ensures var a := ToArticle(Listed(dir)[i]);
      SummaryLines(dir)[2 + i] == "    - [" + a.title + "](articles/" + a.path + ")"
  {
    SummaryFrame(dir);
  }
}
