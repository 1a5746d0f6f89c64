/** The articles generator (`generate_articles`): every markdown file of the
    articles directory except `index.md` is copied into the generated tree
    and listed, sorted by lower-cased title, in `articles/index.md`. The
    directory is given as its files in discovery order, `None` when the
    directory does not exist. */
module Articles {
  import opened Wrappers
  import opened Text
  import opened Sorting
  import opened Files
  import opened Markdown
  import opened Seqs

  /** A file of the source directory; `content` is `None` when it cannot be read. */
  datatype SourceFile = SourceFile(name: string, content: Option<string>)

  /** One record of `article_files`. */
  datatype Article = Article(title: string, description: string, path: string)

  const IndexPath: string := "articles/index.md"

  const IndexHeader: seq<string> := [
    "# Articles",
    "",
    "Welcome to the Europa 1400 articles section. Here you'll find detailed guides, explanations, and documentation about various aspects of the game.",
    "",
    "## Available Articles",
    ""
  ]

  const NoArticles: string := "_No articles available yet._"

  /** Matched by `glob("*.md")` and not skipped as the index file. */
  predicate IsArticle(f: SourceFile) {
    MatchesGlob(f.name, ".md") && f.name != "index.md"
  }

  /** The articles of a directory listing, in discovery order. */
  function ArticleFiles(entries: seq<SourceFile>): seq<SourceFile> {
    Filter(entries, IsArticle)
  }

  /** The articles found: none when the directory does not exist. */
  function ArticleSources(dir: Option<seq<SourceFile>>): seq<SourceFile> {
    match dir
    case None => []
    case Some(entries) => ArticleFiles(entries)
  }

  function ToArticle(f: SourceFile): Article {
    Article(ExtractTitle(f.content, Stem(f.name)), ExtractDescription(f.content), f.name)
  }

  function ToArticles(files: seq<SourceFile>): seq<Article> {
    seq(|files|, i requires 0 <= i < |files| => ToArticle(files[i]))
  }

  /** The sort key `x["title"].lower()`. */
  function TitleKey(a: Article): string {
    Lower(a.title)
  }

  function Bullet(a: Article): string {
    "- [" + a.title + "](" + a.path + ")"
  }

  function NavLine(a: Article): string {
    "    - " + a.title + ": articles/" + a.path
  }

  function Bullets(articles: seq<Article>): seq<string> {
    seq(|articles|, i requires 0 <= i < |articles| => Bullet(articles[i]))
  }

  function NavLines(articles: seq<Article>): seq<string> {
    seq(|articles|, i requires 0 <= i < |articles| => NavLine(articles[i]))
  }

  /** The lines of `articles/index.md`. */
  function IndexLines(articles: seq<Article>): seq<string> {
    IndexHeader + (if articles == [] then [NoArticles] else Bullets(SortBy(articles, TitleKey)))
  }

  predicate AllReadable(files: seq<SourceFile>) {
    forall i :: 0 <= i < |files| ==> files[i].content.Some?
  }

  /** How many files, from the first, can be read. */
  function ReadablePrefix(files: seq<SourceFile>): (n: nat)
    ensures n <= |files|
    ensures AllReadable(files[..n])
    ensures n < |files| ==> files[n].content.None?
    decreases |files|
  {
    if files == [] || files[0].content.None? then 0
    else
      var n := 1 + ReadablePrefix(files[1..]);
      assert forall i :: 1 <= i < n ==> files[..n][i] == files[1..][..n - 1][i - 1];
      n
  }

  lemma {:induction false} ReadablePrefixAfterReadable(a: seq<SourceFile>, b: seq<SourceFile>)
    requires AllReadable(a)
    ensures ReadablePrefix(a + b) == |a| + ReadablePrefix(b)
    decreases |a|
  {
    if a != [] {
      assert (a + b)[0] == a[0];
      assert (a + b)[1..] == a[1..] + b;
      assert AllReadable(a[1..]) by {
        assert forall i :: 0 <= i < |a| - 1 ==> a[1..][i] == a[i + 1];
      }
      ReadablePrefixAfterReadable(a[1..], b);
    } else {
      assert a + b == b;
    }
  }

  /** The verbatim copies `articles/<name>` of readable files. */
  function Copies(files: seq<SourceFile>): seq<(string, string)>
    requires AllReadable(files)
  {
    seq(|files|, i requires 0 <= i < |files| => ("articles/" + files[i].name, files[i].content.value))
  }

  /** Everything one run writes, in order: the copy of each article until the
      first one that cannot be read (reading it for the copy is not guarded,
      so the run stops there), then, if every article could be read, the
      index. */
  function ArticleWrites(dir: Option<seq<SourceFile>>): seq<(string, string)> {
    var files := ArticleSources(dir);
    var n := ReadablePrefix(files);
    Copies(files[..n])
    + (if n == |files| then [(IndexPath, FileText(IndexLines(ToArticles(files))))] else [])
  }

  /** What one run returns: the navigation lines in discovery order, or the
      name of the file whose copy could not be read. */
  function ArticleResult(dir: Option<seq<SourceFile>>): Result<seq<string>, string> {
    var files := ArticleSources(dir);
    var n := ReadablePrefix(files);
    if n == |files| then Ok(NavLines(ToArticles(files))) else Err(files[n].name)
  }

  /** An article that cannot be read, after readable ones, ends the run with
      its name and only the earlier copies written. */
  lemma StopsAtUnreadable(entries: seq<SourceFile>, i: nat, files: seq<SourceFile>)
    requires i < |entries| && IsArticle(entries[i]) && entries[i].content.None?
    requires files == ArticleFiles(entries[..i]) && AllReadable(files)
    ensures ArticleResult(Some(entries)) == Err(entries[i].name)
    ensures ArticleWrites(Some(entries)) == Copies(files)
  {
    var f := entries[i];
    FilterStep(entries, i, IsArticle);
    FilterAppend(entries[..i + 1], entries[i + 1..], IsArticle);
    assert entries == entries[..i + 1] + entries[i + 1..];
    var all := ArticleFiles(entries);
    var rest := ArticleFiles(entries[i + 1..]);
    assert all == files + ([f] + rest);
    ReadablePrefixAfterReadable(files, [f] + rest);
    assert ReadablePrefix([f] + rest) == 0;
    assert all[..|files|] == files;
  }

  /** When every article can be read the run copies them all. */
  lemma ReadsAll(entries: seq<SourceFile>, files: seq<SourceFile>)
    requires files == ArticleFiles(entries) && AllReadable(files)
    ensures ArticleResult(Some(entries)) == Ok(NavLines(ToArticles(files)))
    ensures ArticleWrites(Some(entries))
      == Copies(files) + [(IndexPath, FileText(IndexLines(ToArticles(files))))]
  {
    ReadablePrefixAfterReadable(files, []);
    assert files + [] == files;
    assert files[..|files|] == files;
  }

  /** Without an articles directory the run writes only the index, with the
      placeholder line, and returns no navigation lines. */
  lemma NoDirectory()
    ensures ArticleResult(None) == Ok([])
    ensures ArticleWrites(None) == [(IndexPath, FileText(IndexHeader + [NoArticles]))]
  {
    assert ToArticles([]) == [];
    assert NavLines([]) == [];
    assert Copies([]) == [];
  }

  /** Reading one more article adds its copy to what is written. */
  lemma CopyStep(tree: map<string, string>, files: seq<SourceFile>, f: SourceFile)
    requires AllReadable(files) && f.content.Some?
    ensures AllReadable(files + [f])
    ensures WriteAll(tree, Copies(files + [f]))
      == WriteAll(tree, Copies(files))["articles/" + f.name := f.content.value]
  {
    assert AllReadable(files + [f]) by {
      forall i | 0 <= i < |files| + 1 ensures (files + [f])[i].content.Some? {
        if i < |files| {
          assert (files + [f])[i] == files[i];
        }
      }
    }
    var c := Copies(files + [f]);
    assert c[..|c| - 1] == Copies(files);
  }

  /** ... and its record to the records. */
  lemma RecordStep(files: seq<SourceFile>, f: SourceFile)
    ensures ToArticles(files + [f]) == ToArticles(files) + [ToArticle(f)]
  {
  }

  lemma NavLinesStep(articles: seq<Article>, a: Article)
    ensures NavLines(articles + [a]) == NavLines(articles) + [NavLine(a)]
  {
  }

  /** The index lines as `generate_articles` assembles them: the header,
      then the placeholder or one bullet per article sorted by lower-cased
      title. */
  method BuildIndexLines(articles: seq<Article>) returns (lines: seq<string>)
    ensures lines == IndexLines(articles)
  {
    lines := IndexHeader;
    var sorted := SortBy(articles, TitleKey);
    if sorted == [] {
      lines := lines + [NoArticles];
    } else {
      var k := 0;
      while k < |sorted|
        invariant 0 <= k <= |sorted|
        invariant lines == IndexHeader + Bullets(sorted[..k])
      {
        assert Bullets(sorted[..k + 1]) == Bullets(sorted[..k]) + [Bullet(sorted[k])];
        lines := lines + [Bullet(sorted[k])];
        k := k + 1;
      }
      assert sorted[..k] == sorted;
    }
  }

  /** `generate_articles`, writing into `out`. */
  method GenerateArticles(out: OutputTree, dir: Option<seq<SourceFile>>)
    returns (r: Result<seq<string>, string>)
    modifies out
    ensures r == ArticleResult(dir)
    ensures out.files == WriteAll(old(out.files), ArticleWrites(dir))
  {
    var indexLines := IndexHeader;
    if dir.None? {
      indexLines := indexLines + [NoArticles];
      out.Write(IndexPath, FileText(indexLines));
      NoDirectory();
      return Ok([]);
    }
    var entries := dir.value;
    var articleFiles: seq<Article> := [];
    var navLines: seq<string> := [];
    ghost var files: seq<SourceFile> := [];
    var i := 0;
    while i < |entries|
      invariant 0 <= i <= |entries|
      invariant files == ArticleFiles(entries[..i])
      invariant AllReadable(files)
      invariant articleFiles == ToArticles(files)
      invariant navLines == NavLines(articleFiles)
      invariant out.files == WriteAll(old(out.files), Copies(files))
    {
      var f := entries[i];
      FilterStep(entries, i, IsArticle);
      if IsArticle(f) {
        var title := ExtractTitle(f.content, Stem(f.name));
        var description := ExtractDescription(f.content);
        if f.content.None? {
          StopsAtUnreadable(entries, i, files);
          return Err(f.name);
        }
        CopyStep(old(out.files), files, f);
        RecordStep(files, f);
        NavLinesStep(articleFiles, ToArticle(f));
        out.Write("articles/" + f.name, f.content.value);
        var article := Article(title, description, f.name);
        articleFiles := articleFiles + [article];
        navLines := navLines + [NavLine(article)];
        files := files + [f];
      }
      i := i + 1;
    }
    assert entries[..i] == entries;
    ReadsAll(entries, files);
    indexLines := BuildIndexLines(articleFiles);
    out.Write(IndexPath, FileText(indexLines));
    return Ok(navLines);
  }

  /** No two files of a directory share a name. */
  predicate DistinctNames(files: seq<SourceFile>) {
    forall i, j :: 0 <= i < j < |files| ==> files[i].name != files[j].name
  }

  lemma {:induction false} ArticleFilesDistinct(entries: seq<SourceFile>)
    requires DistinctNames(entries)
    ensures DistinctNames(ArticleFiles(entries))
    decreases |entries|
  {
    if entries != [] {
      var init, last := entries[..|entries| - 1], entries[|entries| - 1];
      assert DistinctNames(init) by {
        forall i, j | 0 <= i < j < |init| ensures init[i].name != init[j].name {
          assert init[i] == entries[i] && init[j] == entries[j];
        }
      }
      ArticleFilesDistinct(init);
      var a := ArticleFiles(init);
      forall i | 0 <= i < |a| ensures a[i].name != last.name {
        FilterMembers(init, IsArticle, a[i]);
        var k :| 0 <= k < |init| && init[k] == a[i];
        assert entries[k] == a[i];
      }
    }
  }

  /** The articles and their records: every one is a `.md` file other than
      `index.md`, so the index never lists itself, and the records keep the
      discovery order. */
  lemma ArticlesExcludeIndex(dir: Option<seq<SourceFile>>)
    ensures var files := ArticleSources(dir);
      |ToArticles(files)| == |files|
      && forall i :: 0 <= i < |files| ==>
        files[i].name != "index.md" && MatchesGlob(files[i].name, ".md")
        && ToArticles(files)[i].path == files[i].name
  {
    var files := ArticleSources(dir);
    forall i | 0 <= i < |files|
      ensures files[i].name != "index.md" && MatchesGlob(files[i].name, ".md")
    {
      FilterMembers(dir.value, IsArticle, files[i]);
    }
  }

  /** The bullets of `articles/index.md` are the articles sorted by
      lower-cased title: ascending keys, the same articles, and titles that
      compare equal keep their discovery order. Without articles the
      placeholder stands alone after the header. */
  lemma IndexOrder(articles: seq<Article>)
    ensures IndexLines(articles)[..|IndexHeader|] == IndexHeader
    ensures articles == [] ==> IndexLines(articles) == IndexHeader + [NoArticles]
    ensures articles != [] ==>
      var sorted := SortBy(articles, TitleKey);
      IndexLines(articles)[|IndexHeader|..] == Bullets(sorted)
      && SortedBy(sorted, TitleKey)
      && multiset(sorted) == multiset(articles)
      && forall k :: WithKey(sorted, TitleKey, k) == WithKey(articles, TitleKey, k)
  {
    if articles != [] {
      var sorted := SortBy(articles, TitleKey);
      SortBySorted(articles, TitleKey);
      forall k ensures WithKey(sorted, TitleKey, k) == WithKey(articles, TitleKey, k) {
        SortByStable(articles, TitleKey, k);
      }
    }
  }

  /** Paths `articles/<name>` of different names differ. */
  lemma CopyPathsDiffer(a: string, b: string)
    requires a != b
    ensures "articles/" + a != "articles/" + b
    ensures "articles/" + a != IndexPath || a == "index.md"
  {
    var pre := "articles/";
    assert (pre + a)[|pre|..] == a && (pre + b)[|pre|..] == b;
    assert IndexPath == pre + "index.md";
    assert (pre + "index.md")[|pre|..] == "index.md";
  }

  /** After a run every article's copy holds that article's text unchanged. */
  lemma CopiedVerbatim(entries: seq<SourceFile>, f: SourceFile)
    requires DistinctNames(entries)
    requires f in ArticleFiles(entries)[..ReadablePrefix(ArticleFiles(entries))]
    ensures f.content.Some?
    ensures var written := Written(ArticleWrites(Some(entries)));
      "articles/" + f.name in written && written["articles/" + f.name] == f.content.value
  {
    var files := ArticleFiles(entries);
    var n := ReadablePrefix(files);
    var w := ArticleWrites(Some(entries));
    ArticleFilesDistinct(entries);
    var i :| 0 <= i < n && files[..n][i] == f;
    assert w[i] == ("articles/" + f.name, f.content.value);
    assert f in files;
    FilterMembers(entries, IsArticle, f);
    forall j | i < j < |w| ensures w[j].0 != w[i].0 {
      if j < n {
        assert w[j].0 == "articles/" + files[j].name;
        CopyPathsDiffer(files[j].name, f.name);
      } else {
        assert w[j].0 == IndexPath;
        CopyPathsDiffer(f.name, "index.md");
      }
    }
    WrittenLast(w, i);
  }

  /** The index is written exactly when the run succeeds, and then holds the
      index lines of all articles. */
  lemma IndexWritten(dir: Option<seq<SourceFile>>)
    ensures IndexPath in Written(ArticleWrites(dir)) <==> ArticleResult(dir).Ok?
    ensures ArticleResult(dir).Ok? ==>
      Written(ArticleWrites(dir))[IndexPath] == FileText(IndexLines(ToArticles(ArticleSources(dir))))
  {
    var files := ArticleSources(dir);
    var n := ReadablePrefix(files);
    var w := ArticleWrites(dir);
    if n == |files| {
      WrittenLast(w, |w| - 1);
    } else {
      WrittenPaths(w, IndexPath);
      forall i | 0 <= i < |w| ensures w[i].0 != IndexPath {
        assert w[i].0 == "articles/" + files[i].name;
        FilterMembers(dir.value, IsArticle, files[i]);
        CopyPathsDiffer(files[i].name, "index.md");
      }
    }
  }
}
