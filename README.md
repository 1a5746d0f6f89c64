# europa1400-database documentation generators, modelled in Dafny

The Europa 1400 database builds its documentation site with three
generator scripts. Each runs while the site is built and writes markdown
into the generated-file tree of `mkdocs_gen_files`:

- `generate_articles` copies every markdown article of `docs/articles`
  (except `index.md`) into `articles/`. It writes `articles/index.md`: a
  fixed header, then one bullet per article, sorted by lower-cased title.
  Each title comes from the article's first `# ` heading, or from its file
  name when there is none. It returns navigation lines in discovery order.
- `generate_tables` renders every `data/*.yml` table, in sorted file-name
  order, as a markdown table page `tables/<stem>.md`. The columns are the
  sorted union of the elements' keys. It writes `tables/index.md` with one
  bullet per page.
- `generate_summary` writes `SUMMARY.md`, the site navigation: home,
  articles index, one link per article in file-name order, and the tables
  section as a wildcard.

The filesystem is modelled as inputs:

- the articles directory is `Option<seq<SourceFile>>`. `None` means the
  directory does not exist. The files come in discovery order, and a file's
  content is `None` when it cannot be read;
- the data directory is a sequence of `TableFile`s, each a file name paired
  with its parsed YAML document.

The generated-file tree is the class `Files.OutputTree`, whose `files` map
each `Write` updates. Every generator is a method proved against a function
that lists the writes of one run, in order (`ArticleWrites`, `TableWrites`,
the summary line list). Lemmas then state what the tree holds afterwards.

Python semantics are written out where they matter:

- the six regular expressions of the description extraction (the title-line
  removal and five markup substitutions), with lazy
  matching and backtracking;
- `str.strip` with Python's whitespace set;
- `str.split`, `rsplit(" ", 1)`;
- `str.title` and `str.lower` on ASCII;
- `PurePath.stem`;
- the stable `sort`/`sorted` on strings in code-point order.

Three behaviours of the code are worth noting:

- An article that cannot be read does not degrade gracefully in
  `generate_articles`. The title and description extractors catch the read
  error, but the copy at `scripts/generate_articles.py:83-84` reads the
  file again outside any `try`. The run therefore stops there, with the
  earlier copies written and no index. This is modelled as
  `Err(file name)`.
- A table cell holding the empty text is written with a space on each
  side, so an empty last cell gives a row ending in two spaces and a pipe:
  `| 1 | 2 |  |`.
- A missing data directory is an empty listing. Globbing a missing
  directory yields nothing.

Module layout, one file each:

- `Wrappers` (Option, Result);
- `Text` (string operations);
- `Seqs` (filtering);
- `Sorting` (stable sort);
- `Files` (stems, file text, the generated tree);
- `Markdown` (title and description extraction);
- `Articles`, `Tables`, `Summary` (the three generators);
- `Site` (the generators together).

## Model

| member | source | states |
|---|---|---|
| Markdown.FindHeading | scripts/generate_articles.py:14 | the result is the leftmost position at or after `from` where a line starts with `# ` followed by at least one character on that line; none if there is no such line |
| Markdown.TitleFromFirstHeading | scripts/generate_articles.py:14-16 | when the first heading line starts at `j`, the title is the rest of that line after `# `, stripped, and it contains no newline |
| Markdown.TitleWithoutHeading | scripts/generate_articles.py:18-22 | with no heading line, or when the file cannot be read, the title is the stem-based fallback and contains neither `_` nor `-` |
| Markdown.ExtractTitle | scripts/generate_articles.py:7-22 | the title extractor; its contract is stated by TitleFromFirstHeading (first heading line, stripped) and TitleWithoutHeading (stem fallback, also for an unreadable file) |
| Markdown.FallbackTitle | scripts/generate_articles.py:19 | the fallback title is as long as the stem and contains neither `_` nor `-` |
| Text.TitleCaseAt | scripts/generate_articles.py:19 | each character of `title()` is upper-cased at the start of a word (first character or after a non-letter) and lower-cased after a letter |
| Text.ReplaceChar | scripts/generate_articles.py:19 | `replace` of one character keeps the length and swaps exactly the matching characters |
| Text.Strip | scripts/generate_articles.py:16 | `strip()` yields a slice of the input, everything removed from either end is whitespace, and the result neither starts nor ends with whitespace |
| Text.StripEmptyIffBlank | scripts/generate_articles.py:42 | a piece strips to the empty text exactly when all its characters are whitespace |
| Markdown.CloseFrom | scripts/generate_articles.py:36-39 | the lazy group `(.+?)` ends at the first later occurrence of the closing delimiter, with no newline before it; none when every occurrence follows a newline |
| Markdown.RemoveTitleLine | scripts/generate_articles.py:32 | the result is the content with characters deleted, in order; it is the content unchanged without a heading line, and at least three characters shorter when there is one |
| Markdown.RemoveHeaderMarks | scripts/generate_articles.py:35 | the result is the text with characters deleted, in order; text without `#` is unchanged (HeaderMarksKeepPlain) |
| Markdown.RemoveDelimited | scripts/generate_articles.py:36-38 | the result is the text with characters deleted, in order; text without the delimiter's first character is unchanged (DelimitedKeepPlain) |
| Markdown.RemoveLinks | scripts/generate_articles.py:39 | the result is the text with characters deleted, in order; text without `[` is unchanged (LinksKeepPlain) |
| Markdown.Clean | scripts/generate_articles.py:32-39 | the cleaned content is the content with characters deleted, in order |
| Markdown.CleanKeepsPlainText | scripts/generate_articles.py:32-39 | text without `#`, `*`, backticks and `[` passes through the markup removal unchanged |
| Text.Split | scripts/generate_articles.py:42 | `split(sep)` gives at least one piece, the pieces joined with `sep` give back the text, no piece contains `sep`, and each cut is at the leftmost occurrence of `sep` in what remains |
| Text.SplitUnique | scripts/generate_articles.py:42 | any pieces that join back to the text, contain no `sep` and each end at the leftmost occurrence of `sep` are exactly the pieces `split(sep)` gives, so the contract of `Text.Split` determines its result |
| Markdown.NonBlankFirst | scripts/generate_articles.py:42-44 | the first paragraph is the stripped form of the first piece that is not blank |
| Markdown.NonBlankEmpty | scripts/generate_articles.py:42-43 | there is no paragraph exactly when every piece is blank |
| Markdown.Truncate | scripts/generate_articles.py:45-46 | a text of at most `maxLength` characters is unchanged; a longer one becomes a prefix of its first `maxLength` characters, cut at the last space among them or not cut when there is none, followed by `...` |
| Markdown.ExtractDescription | scripts/generate_articles.py:25-51 | a description has at most 153 characters |
| Markdown.DescriptionFromFirstParagraph | scripts/generate_articles.py:41-47 | the description is the first non-blank piece of the cleaned content, stripped and truncated, and is that piece unchanged when it has at most 150 characters |
| Markdown.DescriptionFromText | scripts/generate_articles.py:28-47 | a description other than the placeholder is the article text with characters deleted, in order, possibly followed by `...` when it was cut |
| Markdown.DescriptionPlaceholder | scripts/generate_articles.py:49-51 | with no non-blank piece, or when the file cannot be read, the description is exactly `No description available.` |
| Seqs.FilterMembers | scripts/generate_articles.py:76-77 | the kept files are exactly the listed files that pass the test |
| Seqs.FilterAppend | scripts/generate_articles.py:76-77 | filtering a concatenation is the concatenation of the filtered parts |
| Seqs.FilterMultiset | scripts/generate_summary.py:38-39 | filtering keeps each passing element with its multiplicity and drops the others |
| Text.Lower | scripts/generate_articles.py:104 | the lowered text has the same length, no ASCII capital, each ASCII capital turned into its small letter and every other character kept |
| Sorting.SortBy | scripts/generate_articles.py:104 | the sorted list is a permutation of the input |
| Sorting.SortBySorted | scripts/generate_articles.py:104 | the sorted list ascends by key |
| Sorting.SortByStable | scripts/generate_articles.py:104 | for every key, the elements with that key keep their input order |
| Sorting.StableSortUnique | scripts/generate_articles.py:104 | any arrangement that ascends by key and keeps every key's elements in input order equals the sort's result |
| Sorting.FilterSorted | scripts/generate_summary.py:38-39 | skipping files of a sorted list leaves it sorted |
| Files.Stem | scripts/generate_tables.py:23 | the stem is a prefix of the name; it differs from the name exactly when a dot that is neither first nor last is the name's last dot, and then it ends just before that dot |
| Files.StemOfSuffixed | scripts/generate_tables.py:22-23 | a non-empty base plus a dot-extension matches `*<extension>` and has the base as its stem |
| Files.FileTextLines | scripts/generate_articles.py:114 | a file written as lines joined by `\n` plus a final `\n`, split on `\n`, gives back the lines and then an empty text |
| Files.WriteAllOverrides | scripts/generate_articles.py:113-114 | a sequence of writes leaves the tree overridden at each written path by the last text written there |
| Files.WrittenPaths | scripts/generate_articles.py:86-87 | the paths present after writes into an empty tree are exactly the written paths |
| Files.WrittenLast | scripts/generate_articles.py:86-87 | a path holds the text of the last write to it |
| Files.WriteAllIdempotent | scripts/generate_articles.py:113-114 | repeating the same writes on their own result changes nothing |
| Files.WritesCommute | scripts/generate_tables.py:56-57 | writes to disjoint paths can be performed in either order |
| Articles.ReadablePrefix | scripts/generate_articles.py:83-84 | the run reads articles until the first that cannot be read: all before it are readable and it is not |
| Articles.GenerateArticles | scripts/generate_articles.py:54-118 | the method returns the navigation lines of all articles in discovery order, or the name of the first unreadable article. The tree afterwards is the old tree followed by the copies of the articles read, and the index only when all could be read |
| Articles.IndexLines | scripts/generate_articles.py:103-110 | the index lines; their contents are stated by IndexOrder |
| Articles.ArticleWrites | scripts/generate_articles.py:76-114 | the writes of one run; what they leave in the tree is stated by StopsAtUnreadable, ReadsAll, CopiedVerbatim and IndexWritten |
| Articles.ArticleResult | scripts/generate_articles.py:76-118 | the run's outcome; stated by StopsAtUnreadable, ReadsAll and NoDirectory |
| Articles.BuildIndexLines | scripts/generate_articles.py:104-110 | the loop builds exactly the index lines: the header, then the placeholder or one bullet per article in sorted order |
| Articles.NoDirectory | scripts/generate_articles.py:69-70 | without an articles directory the run writes only the index (header plus placeholder), copies nothing and returns no navigation lines |
| Articles.StopsAtUnreadable | scripts/generate_articles.py:83-84 | an unreadable article after readable ones ends the run with its name, with only the earlier copies written |
| Articles.ReadsAll | scripts/generate_articles.py:74-118 | when every article can be read the run copies them all, writes the index and returns every navigation line |
| Articles.ArticlesExcludeIndex | scripts/generate_articles.py:76-77 | every article record comes from a `.md` file other than `index.md`, one record per file in discovery order, with the file's name as its path |
| Articles.IndexOrder | scripts/generate_articles.py:60-67 | the index starts with the six header lines. It is then the lone placeholder without articles, otherwise bullets for the articles ascending by lower-cased title, a permutation in which equal keys keep discovery order |
| Articles.CopiedVerbatim | scripts/generate_articles.py:83-87 | after the run, `articles/<name>` holds the unchanged content of every article read before the run stopped |
| Articles.IndexWritten | scripts/generate_articles.py:113-114 | `articles/index.md` is written exactly when the run succeeds, and then holds the index lines of all articles |
| Articles.ArticleFilesDistinct | scripts/generate_articles.py:76 | the articles of a directory have distinct names |
| Tables.Lookup | scripts/generate_tables.py:39 | the cell is the text paired with the key when the element has it, and the empty text otherwise |
| Tables.LookupPresent | scripts/generate_tables.py:39 | a key present in the element yields exactly the text it is paired with |
| Tables.Row | scripts/generate_tables.py:39 | a row has one cell per header: the element's text for a key it has, `""` for a key it lacks |
| Tables.HeadersSpec | scripts/generate_tables.py:35 | the headers ascend strictly (sorted, no duplicates) and are exactly the keys that occur in some element |
| Tables.Headers | scripts/generate_tables.py:35 | the column headers; stated by HeadersSpec and HeadersAreSortedKeys |
| Tables.HeadersAreSortedKeys | scripts/generate_tables.py:35 | any strictly ascending list of exactly the table's keys equals the headers |
| Tables.AscendingUnique | scripts/generate_tables.py:35 | two strictly ascending lists with the same members are equal |
| Tables.InsertKeyAscending | scripts/generate_tables.py:35 | adding a key keeps the list strictly ascending |
| Tables.PageLines | scripts/generate_tables.py:31-40 | the lines of one page; stated by PageShape and TableIsRectangular |
| Tables.PageShape | scripts/generate_tables.py:31-40 | a page without elements is exactly the title, a blank line and `_No elements defined._`; otherwise it has `4 + len(elements)` lines: title, blank line, header line, separator, one row per element in order |
| Tables.RenderPage | scripts/generate_tables.py:31-40 | the loop builds exactly the page lines |
| Tables.CellsLineColumns | scripts/generate_tables.py:40 | a table line of cells without a pipe character, split at pipes, shows exactly one column per cell |
| Tables.SeparatorColumns | scripts/generate_tables.py:37 | the separator line, split at pipes, shows one `---` per column |
| Tables.TableIsRectangular | scripts/generate_tables.py:35-40 | when no key or cell contains a pipe character, the header line, the separator and every row have one column per header |
| Tables.TableTitle | scripts/generate_tables.py:27 | the page title; stated by TableTitleSpec |
| Tables.TableTitleSpec | scripts/generate_tables.py:27 | the title is the table's `name` when present. Otherwise it is the stem title-cased with `_` turned into spaces: as long as the stem, without `_`, every `-` kept |
| Tables.GenerateTables | scripts/generate_tables.py:7-59 | the method returns the navigation lines of the sorted table files. The tree afterwards is the old tree followed by one page per sorted file, then the index |
| Tables.TableWrites | scripts/generate_tables.py:22-57 | the writes of one run; stated by TablesOrder and TablesWritten |
| Tables.TablesOrder | scripts/generate_tables.py:22-53 | the pages are exactly the `*.yml` files, ascending by file name. The i-th index bullet `- [title](stem.md)` and the i-th navigation line belong to the i-th of them, not re-sorted by title |
| Tables.TablesWritten | scripts/generate_tables.py:45-57 | after the run `tables/index.md` holds the index, even over a table named `index.yml`, and every other page holds its table when stems are distinct |
| Summary.GenerateSummary | scripts/generate_summary.py:26-49 | the method writes `SUMMARY.md` as the summary lines joined by `\n` plus a final `\n`, and nothing else |
| Summary.NavLinks | scripts/generate_summary.py:38-41 | the loop over the sorted `.md` files yields one link per file other than `index.md`, in the order of the files, each linking the extracted title to `articles/<name>` |
| Summary.SummaryLines | scripts/generate_summary.py:30-45 | the lines of `SUMMARY.md`; stated by SummaryFrame, SummaryListsArticles and SummaryAgreesWithArticles |
| Summary.SummaryFrame | scripts/generate_summary.py:30-45 | the summary starts with the Home and Articles lines and ends with the Tables line and `    - tables/*.md`, with one article link per listed file between them; without an articles directory it is exactly those four lines |
| Summary.SummaryListsArticles | scripts/generate_summary.py:37-41 | the linked files are exactly the articles the article generator uses, each once, in ascending file-name order |
| Summary.SummaryAgreesWithArticles | scripts/generate_summary.py:6-23 | each summary link shows the same title (same heading rule, same stem fallback) and path as the article generator's record for that file |
| Site.GeneratorsIndependent | scripts/generate_tables.py:45-57 | the article and table generators never write the same path, and neither writes `SUMMARY.md`; swapping their order leaves the same tree |
| Site.BuildWrites | scripts/generate_articles.py:122 | everything one build writes: when an article cannot be read, exactly the article generator's writes up to that article, since the exception at the module-level call ends the build; otherwise the summary is the last write |
| Site.BuildSummary | scripts/generate_summary.py:48-49 | after a build that gets past the articles `SUMMARY.md` holds the summary; after one that stops at an unreadable article `SUMMARY.md` is as before the build |
| Site.RebuildIdempotent | scripts/generate_summary.py:48-49 | running the whole build again over its own output changes nothing |

## Left out

- File reading, decoding and directory scanning are inputs. The glob's
  discovery order is the input order, and a read or decoding failure is
  `None` content. The article generator reads each article three times
  (`scripts/generate_articles.py:10-11`, `28-29` and `83-84`) and the
  summary generator a fourth time (`scripts/generate_summary.py:9-10`);
  the one `content` of a `SourceFile` stands for all four reads, so a file
  changing or becoming unreadable between them is not modelled.
- `content` is what text-mode `read()` returns: the bytes decoded as UTF-8
  with `\r\n` and `\r` turned into `\n`. Articles.CopiedVerbatim states
  that the copy equals that text, not the bytes on disk.
- `yaml.safe_load` is a foreign library. A table file is given already
  parsed: an optional `name` and a list of mappings with distinct keys.
  Malformed YAML, non-mapping documents, and `name` or `elements` present
  with a null value are not modelled.
- Cell values are already-rendered text. `str()` of numbers, booleans and
  null is not modelled.
- Case mapping (`lower`, `title`) covers ASCII only. Other letters are left
  unchanged.
- Text.TitleFrom: a non-ASCII letter counts as uncased, so the ASCII letter
  after it starts a new word and is upper-cased. The stem `münze` gives the
  fallback title `MüNze`, where CPython's `title()` gives `Münze`. The same
  holds for Tables.TableTitle.
- Site.BuildWrites: the order of the generators (articles, then tables,
  then the summary) is taken from the site's plugin configuration, which
  is not part of these scripts; the model takes it as given.
- Globs and path ordering follow POSIX rules. A glob is a case-sensitive
  suffix test, and paths of one directory compare by file name in
  code-point order.
- The module-level calls that run each generator at import time are not
  modelled; each generator is an explicit method.
- `set_edit_path` is not called by the source; there is nothing to model.
- No concurrency, clocks or environment access are involved.
- Markdown.Clean: the contracts state that each substitution only deletes
  characters (its result is a subsequence of its input) and that text
  without markup passes unchanged. Which characters a substitution deletes
  is given by its definition, which follows the regex semantics, with no
  separate reference definition.
- Articles.CopiedVerbatim: requires distinct file names, as in one
  directory.
- Tables.TablesWritten: states a page's contents only when stems are
  distinct and the stem is not `index`. Names such as `.yml` and
  `.yml.yml` share a stem and so one page path, and the index replaces the
  page of `index.yml`.
- Tables.TableIsRectangular: requires at least one key. With no keys the
  header line is `|  |`, which splits into three pieces.
