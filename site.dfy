/** The three generators together, as one documentation build runs them
    over the same generated-file tree. */
module Site {
  import opened Wrappers
  import opened Files
  import Articles
  import Tables
  import Summary

  /** Every path the articles generator writes starts with `a`
      (`articles/`), every table path with `t` (`tables/`), and the
      summary's with `S`. */
  lemma ArticlePaths(dir: Option<seq<Articles.SourceFile>>)
    ensures forall i :: 0 <= i < |Articles.ArticleWrites(dir)| ==>
      |Articles.ArticleWrites(dir)[i].0| > 0 && Articles.ArticleWrites(dir)[i].0[0] == 'a'
  {
  }

  lemma TablePaths(data: seq<Tables.TableFile>)
    ensures forall i :: 0 <= i < |Tables.TableWrites(data)| ==>
      |Tables.TableWrites(data)[i].0| > 0 && Tables.TableWrites(data)[i].0[0] == 't'
  {
    var w := Tables.TableWrites(data);
    var files := Tables.TableFiles(data);
    forall i | 0 <= i < |w| ensures |w[i].0| > 0 && w[i].0[0] == 't' {
      if i < |files| {
        assert w[i].0 == "tables/" + Tables.PageName(files[i]);
      } else {
        assert w[i].0 == Tables.IndexPath;
      }
    }
  }

  /** Everything one build writes, with the generators run as articles,
      then tables, then the summary. When an article cannot be read, the
      exception from the module-level call ends the build after the copies
      made so far, so the other two generators write nothing. */
  function BuildWrites(dir: Option<seq<Articles.SourceFile>>, data: seq<Tables.TableFile>): (w: seq<(string, string)>)
    ensures Articles.ArticleResult(dir).Err? ==> w == Articles.ArticleWrites(dir)
    ensures Articles.ArticleResult(dir).Ok? ==> |w| > 0 && w[|w| - 1] == SummaryWrite(dir)
  {
    var articles := Articles.ArticleWrites(dir);
    if Articles.ArticleResult(dir).Ok? then
      var rest := Tables.TableWrites(data) + [SummaryWrite(dir)];
      assert (articles + rest)[|articles + rest| - 1] == SummaryWrite(dir);
      articles + rest
    else articles
  }

  /** The one write of the summary generator. */
  function SummaryWrite(dir: Option<seq<Articles.SourceFile>>): (string, string) {
    (Summary.SummaryPath, FileText(Summary.SummaryLines(dir)))
  }

  /** The generators never write the same path, so running the articles and
      tables generators in the other order leaves the same tree. */
  lemma GeneratorsIndependent(tree: map<string, string>, dir: Option<seq<Articles.SourceFile>>, data: seq<Tables.TableFile>)
    ensures WriteAll(WriteAll(tree, Articles.ArticleWrites(dir)), Tables.TableWrites(data))
      == WriteAll(WriteAll(tree, Tables.TableWrites(data)), Articles.ArticleWrites(dir))
    ensures forall i :: 0 <= i < |Articles.ArticleWrites(dir)| ==> Articles.ArticleWrites(dir)[i].0 != Summary.SummaryPath
    ensures forall i :: 0 <= i < |Tables.TableWrites(data)| ==> Tables.TableWrites(data)[i].0 != Summary.SummaryPath
  {
    ArticlePaths(dir);
    TablePaths(data);
    WritesCommute(tree, Articles.ArticleWrites(dir), Tables.TableWrites(data));
  }

  /** Running the build again over its own output changes nothing. */
  lemma RebuildIdempotent(tree: map<string, string>, dir: Option<seq<Articles.SourceFile>>, data: seq<Tables.TableFile>)
    ensures WriteAll(WriteAll(tree, BuildWrites(dir, data)), BuildWrites(dir, data))
      == WriteAll(tree, BuildWrites(dir, data))
  {
    WriteAllIdempotent(tree, BuildWrites(dir, data));
  }

  /** After a build that gets past the articles, `SUMMARY.md` holds the
      summary. After one that stops at an unreadable article, `SUMMARY.md`
      is as it was before the build. */
  lemma BuildSummary(tree: map<string, string>, dir: Option<seq<Articles.SourceFile>>, data: seq<Tables.TableFile>)
    ensures var after := WriteAll(tree, BuildWrites(dir, data));
      Articles.ArticleResult(dir).Ok? ==>
        Summary.SummaryPath in after && after[Summary.SummaryPath] == FileText(Summary.SummaryLines(dir))
    ensures var after := WriteAll(tree, BuildWrites(dir, data));
      Articles.ArticleResult(dir).Err? ==>
        (Summary.SummaryPath in after <==> Summary.SummaryPath in tree)
        && (Summary.SummaryPath in tree ==> after[Summary.SummaryPath] == tree[Summary.SummaryPath])
  {
    var w := BuildWrites(dir, data);
    WriteAllOverrides(tree, w);
    if Articles.ArticleResult(dir).Ok? {
      WrittenLast(w, |w| - 1);
    } else {
      ArticlePaths(dir);
      WrittenPaths(w, Summary.SummaryPath);
      assert Summary.SummaryPath !in Written(w);
    }
  }
}
