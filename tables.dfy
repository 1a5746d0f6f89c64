/** The tables generator (`generate_tables`): every `*.yml` file of the data
    directory, in sorted path order, becomes a markdown page
    `tables/<stem>.md` holding its elements as a markdown table, and
    `tables/index.md` lists the pages. A YAML file is given as its parsed
    document: an optional `name` and the list of `elements`, each a mapping
    whose values are already rendered as text. */
module Tables {
  import opened Wrappers
  import opened Text
  import opened Seqs
  import opened Sorting
  import opened Files

  /** No key occurs twice, as in a YAML mapping. */
  predicate DistinctKeys(m: seq<(string, string)>) {
    forall i, j :: 0 <= i < j < |m| ==> m[i].0 != m[j].0
  }

  /** One element of a table: column name to cell text, in document order. */
  type Mapping = m: seq<(string, string)> | DistinctKeys(m)

  /** A parsed table document; a missing `elements` entry is the empty list. */
  datatype Table = Table(name: Option<string>, elements: seq<Mapping>)

  /** A file of the data directory and its parsed contents. */
  datatype TableFile = TableFile(fileName: string, table: Table)

  const IndexPath: string := "tables/index.md"

  const IndexHeader: seq<string> := [
    "# Tables Overview",
    "",
    "This section contains all available data tables for Europa 1400.",
    "",
    "## Available Tables",
    ""
  ]

  const NoElements: string := "_No elements defined._"

  predicate HasKey(m: seq<(string, string)>, k: string) {
    exists i :: 0 <= i < |m| && m[i].0 == k
  }

  /** `str(el.get(k, ""))`: the text under `k`, or the empty text. Keys are
      distinct in a mapping, so the text is the one paired with `k`. */
  function Lookup(m: seq<(string, string)>, k: string): (r: string)
    ensures HasKey(m, k) ==> exists i :: 0 <= i < |m| && m[i] == (k, r)
    ensures !HasKey(m, k) ==> r == ""
    decreases |m|
  {
    if m == [] then ""
    else if m[0].0 == k then m[0].1
    else
      var r := Lookup(m[1..], k);
      assert HasKey(m[1..], k) ==> exists i :: 0 <= i < |m| && m[i] == (k, r) by {
        if HasKey(m[1..], k) {
          var i :| 0 <= i < |m[1..]| && m[1..][i] == (k, r);
          assert m[i + 1] == (k, r);
        }
      }
      assert HasKey(m, k) ==> HasKey(m[1..], k) by {
        if HasKey(m, k) {
          var i :| 0 <= i < |m| && m[i].0 == k;
          assert m[1..][i - 1] == m[i];
        }
      }
      r
  }

  /** The value under a present key is the one the mapping pairs with it. */
  lemma LookupPresent(m: Mapping, i: nat)
    requires i < |m|
    ensures Lookup(m, m[i].0) == m[i].1
  {
    var r := Lookup(m, m[i].0);
    var j :| 0 <= j < |m| && m[j] == (m[i].0, r);
    assert i == j;
  }

  // ---- column headers: `sorted({k for el in elements for k in el})` ----

  ghost predicate StrictlyAscending(s: seq<string>) {
    forall i, j :: 0 <= i < j < |s| ==> LexLt(s[i], s[j])
  }

  /** Adds `k` to an ascending list of distinct keys. */
  function InsertKey(k: string, s: seq<string>): (r: seq<string>)
    ensures forall x :: x in r <==> x == k || x in s
    decreases |s|
  {
    if s == [] then [k]
    else if k == s[0] then s
    else if LexLe(k, s[0]) then [k] + s
    else
      assert s == [s[0]] + s[1..];
      [s[0]] + InsertKey(k, s[1..])
  }

  lemma {:induction false} InsertKeyAscending(k: string, s: seq<string>)
    requires StrictlyAscending(s)
    ensures StrictlyAscending(InsertKey(k, s))
    decreases |s|
  {
    if s == [] {
    } else if k == s[0] {
    } else if LexLe(k, s[0]) {
      var r := [k] + s;
      forall i, j | 0 <= i < j < |r| ensures LexLt(r[i], r[j]) {
        if i == 0 && j > 1 {
          LexLtTransitive(k, s[0], s[j - 1]);
        } else if i > 0 {
          assert r[i] == s[i - 1] && r[j] == s[j - 1];
        }
      }
    } else {
      StrictlyAscendingTail(s);
      InsertKeyAscending(k, s[1..]);
      var tail := InsertKey(k, s[1..]);
      LexLeTotal(k, s[0]);
      forall j | 0 <= j < |tail| ensures LexLt(s[0], tail[j]) {
        assert tail[j] in tail;
        if tail[j] != k {
          var m :| 0 <= m < |s[1..]| && s[1..][m] == tail[j];
          assert s[m + 1] == tail[j];
        }
      }
      var r := [s[0]] + tail;
      forall i, j | 0 <= i < j < |r| ensures LexLt(r[i], r[j]) {
        if i > 0 {
          assert r[i] == tail[i - 1] && r[j] == tail[j - 1];
        } else {
          assert r[j] == tail[j - 1];
        }
      }
    }
  }

  lemma StrictlyAscendingTail(s: seq<string>)
    requires StrictlyAscending(s) && s != []
    ensures StrictlyAscending(s[1..])
  {
    forall i, j | 0 <= i < j < |s| - 1 ensures LexLt(s[1..][i], s[1..][j]) {
      assert s[1..][i] == s[i + 1] && s[1..][j] == s[j + 1];
    }
  }

  lemma LexLtTransitive(a: string, b: string, c: string)
    requires LexLt(a, b) && LexLt(b, c)
    ensures LexLt(a, c)
  {
    LexLeTransitive(a, b, c);
    if a == c {
      LexLeAntisymmetric(a, b);
    }
  }

  /** The keys of one element added to `acc`, in document order. */
  function AddKeys(m: seq<(string, string)>, acc: seq<string>): seq<string>
    decreases |m|
  {
    if m == [] then acc else AddKeys(m[1..], InsertKey(m[0].0, acc))
  }

  /** The keys of all elements added to `acc`. */
  function AddAllKeys(elements: seq<Mapping>, acc: seq<string>): seq<string>
    decreases |elements|
  {
    if elements == [] then acc else AddAllKeys(elements[1..], AddKeys(elements[0], acc))
  }

  /** The column headers of a table page. */
  function Headers(elements: seq<Mapping>): seq<string> {
    AddAllKeys(elements, [])
  }

  /** Some element has key `k`. */
  predicate KeyOf(elements: seq<Mapping>, k: string) {
    exists i :: 0 <= i < |elements| && HasKey(elements[i], k)
  }

  lemma {:induction false} AddKeysSpec(m: seq<(string, string)>, acc: seq<string>)
    requires StrictlyAscending(acc)
    ensures StrictlyAscending(AddKeys(m, acc))
    ensures forall x :: x in AddKeys(m, acc) <==> x in acc || HasKey(m, x)
    decreases |m|
  {
    if m != [] {
      InsertKeyAscending(m[0].0, acc);
      AddKeysSpec(m[1..], InsertKey(m[0].0, acc));
      forall x ensures HasKey(m, x) <==> x == m[0].0 || HasKey(m[1..], x) {
        if HasKey(m, x) && x != m[0].0 {
          var i :| 0 <= i < |m| && m[i].0 == x;
          assert m[1..][i - 1] == m[i];
        }
        if HasKey(m[1..], x) {
          var i :| 0 <= i < |m[1..]| && m[1..][i].0 == x;
          assert m[i + 1] == m[1..][i];
        }
      }
    }
  }

  lemma {:induction false} AddAllKeysSpec(elements: seq<Mapping>, acc: seq<string>)
    requires StrictlyAscending(acc)
    ensures StrictlyAscending(AddAllKeys(elements, acc))
    ensures forall x :: x in AddAllKeys(elements, acc) <==> x in acc || KeyOf(elements, x)
    decreases |elements|
  {
    if elements != [] {
      AddKeysSpec(elements[0], acc);
      AddAllKeysSpec(elements[1..], AddKeys(elements[0], acc));
      forall x ensures KeyOf(elements, x) <==> HasKey(elements[0], x) || KeyOf(elements[1..], x) {
        if KeyOf(elements, x) && !HasKey(elements[0], x) {
          var i :| 0 <= i < |elements| && HasKey(elements[i], x);
          assert elements[1..][i - 1] == elements[i];
        }
        if KeyOf(elements[1..], x) {
          var i :| 0 <= i < |elements[1..]| && HasKey(elements[1..][i], x);
          assert elements[i + 1] == elements[1..][i];
        }
      }
    }
  }

  /** The headers are strictly ascending (sorted, no duplicates) and are
      exactly the keys that occur in some element. */
  lemma HeadersSpec(elements: seq<Mapping>)
    ensures StrictlyAscending(Headers(elements))
    ensures forall k :: k in Headers(elements) <==> KeyOf(elements, k)
  {
    AddAllKeysSpec(elements, []);
  }

  /** Only one strictly ascending list holds a given set of keys, so the
      headers are `sorted` of the key set and nothing else. */
  lemma {:induction false} AscendingUnique(s: seq<string>, t: seq<string>)
    requires StrictlyAscending(s) && StrictlyAscending(t)
    requires forall x :: x in s <==> x in t
    ensures s == t
    decreases |s|
  {
    assert s != [] ==> s[0] in t;
    assert t != [] ==> t[0] in s;
    if s != [] && t != [] {
      var i :| 0 <= i < |t| && t[i] == s[0];
      var j :| 0 <= j < |s| && s[j] == t[0];
      if i != 0 && j != 0 {
        LexLtTransitive(s[0], s[j], s[0]);
        assert false;
      } else if i != 0 {
        assert false;
      } else if j != 0 {
        assert false;
      }
      StrictlyAscendingTail(s);
      StrictlyAscendingTail(t);
      forall x ensures x in s[1..] <==> x in t[1..] {
        TailMember(s, t, x);
        TailMember(t, s, x);
      }
      AscendingUnique(s[1..], t[1..]);
      assert s == [s[0]] + s[1..] && t == [t[0]] + t[1..];
    }
  }

  lemma TailMember(s: seq<string>, t: seq<string>, x: string)
    requires StrictlyAscending(s) && s != [] && t != [] && s[0] == t[0]
    requires forall y :: y in s <==> y in t
    ensures x in s[1..] ==> x in t[1..]
  {
    if x in s[1..] {
      var a :| 0 <= a < |s[1..]| && s[1..][a] == x;
      assert LexLt(s[0], s[a + 1]);
      assert x in t;
      var b :| 0 <= b < |t| && t[b] == x;
      assert b != 0;
      assert t[1..][b - 1] == x;
    }
  }

  /** Any strictly ascending list of exactly the table's keys is its header
      row. */
  lemma HeadersAreSortedKeys(elements: seq<Mapping>, t: seq<string>)
    requires StrictlyAscending(t)
    requires forall k :: k in t <==> KeyOf(elements, k)
    ensures t == Headers(elements)
  {
    HeadersSpec(elements);
    AscendingUnique(t, Headers(elements));
  }

  // ---- page lines ----

  /** `[str(el.get(h, "")) for h in headers]`: one cell per header, the
      element's text for a key it has, the empty text otherwise. */
  function Row(el: Mapping, headers: seq<string>): (r: seq<string>)
    ensures |r| == |headers|
    ensures forall i :: 0 <= i < |headers| && !HasKey(el, headers[i]) ==> r[i] == ""
    ensures forall i :: 0 <= i < |headers| && HasKey(el, headers[i]) ==>
      exists j :: 0 <= j < |el| && el[j] == (headers[i], r[i])
  {
    seq(|headers|, i requires 0 <= i < |headers| => Lookup(el, headers[i]))
  }

  /** A markdown table line `| a | b | c |`. */
  function CellsLine(cells: seq<string>): string {
    "| " + Join(" | ", cells) + " |"
  }

  function Dashes(n: nat): seq<string> {
    seq(n, _ => "---")
  }

  /** The separator line `|---|---|`. */
  function Separator(n: nat): string {
    "|" + Join("|", Dashes(n)) + "|"
  }

  function Rows(elements: seq<Mapping>, headers: seq<string>): seq<string> {
    seq(|elements|, i requires 0 <= i < |elements| => CellsLine(Row(elements[i], headers)))
  }

  /** The lines of one table page. */
  function PageLines(title: string, elements: seq<Mapping>): seq<string> {
    ["# " + title, ""]
    + if elements == [] then [NoElements]
      else
        var headers := Headers(elements);
        [CellsLine(headers), Separator(|headers|)] + Rows(elements, headers)
  }

  /** A page without elements is the title, a blank line and the
      placeholder; any other page is the title, a blank line, the header
      line, the separator and one line per element, in element order. */
  lemma PageShape(title: string, elements: seq<Mapping>)
    ensures var lines := PageLines(title, elements);
      lines[0] == "# " + title && lines[1] == ""
      && (elements == [] ==> lines == ["# " + title, "", NoElements])
      && (elements != [] ==>
        |lines| == 4 + |elements|
        && lines[2] == CellsLine(Headers(elements))
        && lines[3] == Separator(|Headers(elements)|)
        && forall i :: 0 <= i < |elements| ==>
          lines[4 + i] == CellsLine(Row(elements[i], Headers(elements))))
  {
  }

  /** The page as `generate_tables` assembles it, row by row. */
  method RenderPage(title: string, elements: seq<Mapping>) returns (lines: seq<string>)
    ensures lines == PageLines(title, elements)
  {
    lines := ["# " + title, ""];
    if elements == [] {
      lines := lines + [NoElements];
    } else {
      var headers := Headers(elements);
      lines := lines + [CellsLine(headers)];
      lines := lines + [Separator(|headers|)];
      var k := 0;
      while k < |elements|
        invariant 0 <= k <= |elements|
        invariant lines == ["# " + title, "", CellsLine(headers), Separator(|headers|)]
          + Rows(elements[..k], headers)
      {
        var row := Row(elements[k], headers);
        assert Rows(elements[..k + 1], headers) == Rows(elements[..k], headers) + [CellsLine(row)];
        lines := lines + [CellsLine(row)];
        k := k + 1;
      }
      assert elements[..k] == elements;
    }
  }

  // ---- the columns a markdown reader sees ----

  function Padded(cells: seq<string>): seq<string> {
    seq(|cells|, i requires 0 <= i < |cells| => " " + cells[i] + " ")
  }

  lemma JoinCons(sep: string, x: string, parts: seq<string>)
    requires parts != []
    ensures Join(sep, [x] + parts) == x + sep + Join(sep, parts)
  {
    assert ([x] + parts)[1..] == parts;
  }

  lemma {:induction false} PaddedJoin(cells: seq<string>)
    requires cells != []
    ensures " " + Join(" | ", cells) + " " == Join("|", Padded(cells))
    decreases |cells|
  {
    if |cells| > 1 {
      PaddedJoin(cells[1..]);
      assert Padded(cells) == [Padded(cells)[0]] + Padded(cells[1..]);
      JoinCons("|", Padded(cells)[0], Padded(cells[1..]));
      var c, rest := cells[0], Join(" | ", cells[1..]);
      assert " " + (c + " | " + rest) + " " == (" " + c + " ") + "|" + (" " + rest + " ");
    }
  }

  /** Wrapping a join in `|` on both sides is the join of the parts with an
      empty part at each end. */
  lemma Framed(parts: seq<string>)
    requires parts != []
    ensures "|" + Join("|", parts) + "|" == Join("|", [""] + parts + [""])
  {
    JoinSnoc("|", [""] + parts, "");
    JoinCons("|", "", parts);
    assert [""] + parts + [""] == ([""] + parts) + [""];
  }

  /** Split on `|`, a line of cells that contain no `|` falls apart into one
      piece per cell between an empty piece at each end: a markdown reader
      sees exactly one column per cell. */
  lemma CellsLineColumns(cells: seq<string>)
    requires cells != []
    requires forall i :: 0 <= i < |cells| ==> '|' !in cells[i]
    ensures Split(CellsLine(cells), "|") == [""] + Padded(cells) + [""]
  {
    PaddedJoin(cells);
    Framed(Padded(cells));
    var parts := [""] + Padded(cells) + [""];
    assert CellsLine(cells) == "|" + Join("|", Padded(cells)) + "|";
    forall i | 0 <= i < |parts| ensures '|' !in parts[i] {
      if 0 < i < |parts| - 1 {
        assert parts[i] == " " + cells[i - 1] + " ";
      }
    }
    SplitJoin(parts, '|');
  }

  /** The separator splits into one `---` per column. */
  lemma SeparatorColumns(n: nat)
    requires n > 0
    ensures Split(Separator(n), "|") == [""] + Dashes(n) + [""]
  {
    Framed(Dashes(n));
    var parts := [""] + Dashes(n) + [""];
    forall i | 0 <= i < |parts| ensures '|' !in parts[i] {
      if 0 < i < |parts| - 1 {
        assert parts[i] == "---";
      }
    }
    SplitJoin(parts, '|');
  }

  /** No key and no cell text of the table contains `|`. */
  predicate PipeFree(elements: seq<Mapping>) {
    forall i, j :: 0 <= i < |elements| && 0 <= j < |elements[i]| ==>
      '|' !in elements[i][j].0 && '|' !in elements[i][j].1
  }

  /** When no key or cell text contains `|` and some element has a key,
      every line of the table (header, separator and each row) has one
      column per header. */
  lemma TableIsRectangular(title: string, elements: seq<Mapping>)
    requires PipeFree(elements)
    requires Headers(elements) != []
    ensures var lines := PageLines(title, elements);
      forall k :: 2 <= k < |lines| ==> |Split(lines[k], "|")| == |Headers(elements)| + 2
  {
    forall k | 2 <= k < |PageLines(title, elements)|
      ensures |Split(PageLines(title, elements)[k], "|")| == |Headers(elements)| + 2
    {
      LineColumns(title, elements, k);
    }
  }

  lemma LineColumns(title: string, elements: seq<Mapping>, k: nat)
    requires PipeFree(elements)
    requires Headers(elements) != []
    requires 2 <= k < |PageLines(title, elements)|
    ensures |Split(PageLines(title, elements)[k], "|")| == |Headers(elements)| + 2
  {
    var headers := Headers(elements);
    PageShape(title, elements);
    if k >= 4 {
      var row := Row(elements[k - 4], headers);
      RowPipeFree(elements, k - 4, headers);
      CellsLineColumns(row);
    } else if k == 3 {
      SeparatorColumns(|headers|);
    } else {
      HeadersPipeFree(elements);
      CellsLineColumns(headers);
    }
  }

  lemma HeadersPipeFree(elements: seq<Mapping>)
    requires PipeFree(elements)
    ensures forall h :: 0 <= h < |Headers(elements)| ==> '|' !in Headers(elements)[h]
  {
    var headers := Headers(elements);
    HeadersSpec(elements);
    forall h | 0 <= h < |headers| ensures '|' !in headers[h] {
      assert KeyOf(elements, headers[h]);
      var i :| 0 <= i < |elements| && HasKey(elements[i], headers[h]);
      var j :| 0 <= j < |elements[i]| && elements[i][j].0 == headers[h];
    }
  }

  lemma RowPipeFree(elements: seq<Mapping>, e: nat, headers: seq<string>)
    requires PipeFree(elements) && e < |elements|
    ensures forall c :: 0 <= c < |headers| ==> '|' !in Row(elements[e], headers)[c]
  {
    var el := elements[e];
    var row := Row(el, headers);
    forall c | 0 <= c < |row| ensures '|' !in row[c] {
      if HasKey(el, headers[c]) {
        var j :| 0 <= j < |el| && el[j] == (headers[c], row[c]);
        assert '|' !in elements[e][j].1;
      }
    }
  }

  // ---- titles ----

  /** `table.get("name", stem.replace("_", " ").title())` */
  function TableTitle(t: Table, stem: string): string {
    match t.name
    case Some(n) => n
    case None => TitleCase(ReplaceChar(stem, '_', ' '))
  }

  /** The title is the table's own `name` when it has one. Otherwise it is
      the stem with underscores turned into spaces and title-cased: as
      long as the stem, without underscores, and, unlike an article's
      title, with every hyphen kept. */
  lemma TableTitleSpec(t: Table, stem: string)
    ensures t.name.Some? ==> TableTitle(t, stem) == t.name.value
    ensures t.name.None? ==>
      var title := TableTitle(t, stem);
      |title| == |stem|
      && '_' !in title
      && forall i :: 0 <= i < |stem| && stem[i] == '-' ==> title[i] == '-'
  {
    if t.name.None? {
      var spaced := ReplaceChar(stem, '_', ' ');
      var title := TitleCase(spaced);
      forall i | 0 <= i < |stem| ensures title[i] != '_' && (stem[i] == '-' ==> title[i] == '-') {
        TitleCaseAt(spaced, i);
      }
      if |stem| > 0 {
        TitleCaseAt(spaced, 0);
      }
      assert '_' !in title by {
        forall c | c in title ensures c != '_' {
          var i :| 0 <= i < |title| && title[i] == c;
        }
      }
    }
  }

  // ---- the run ----

  /** Matched by `glob("*.yml")`. */
  predicate IsTableFile(f: TableFile) {
    MatchesGlob(f.fileName, ".yml")
  }

  function FileNameKey(f: TableFile): string {
    f.fileName
  }

  /** `sorted(data_dir.glob("*.yml"))`: paths of one directory compare by
      file name. */
  function TableFiles(dir: seq<TableFile>): seq<TableFile> {
    SortBy(Filter(dir, IsTableFile), FileNameKey)
  }

  function TitleOf(f: TableFile): string {
    TableTitle(f.table, Stem(f.fileName))
  }

  /** `f"{name}.md"` */
  function PageName(f: TableFile): string {
    Stem(f.fileName) + ".md"
  }

  function PagePath(f: TableFile): string {
    "tables/" + PageName(f)
  }

  function IndexBullet(f: TableFile): string {
    "- [" + TitleOf(f) + "](" + PageName(f) + ")"
  }

  function NavLine(f: TableFile): string {
    "    - " + TitleOf(f) + ": tables/" + PageName(f)
  }

  function PageText(f: TableFile): string {
    FileText(PageLines(TitleOf(f), f.table.elements))
  }

  function IndexLinesOf(files: seq<TableFile>): seq<string> {
    IndexHeader + seq(|files|, i requires 0 <= i < |files| => IndexBullet(files[i]))
  }

  function NavLinesOf(files: seq<TableFile>): seq<string> {
    seq(|files|, i requires 0 <= i < |files| => NavLine(files[i]))
  }

  function PageWrites(files: seq<TableFile>): seq<(string, string)> {
    seq(|files|, i requires 0 <= i < |files| => (PagePath(files[i]), PageText(files[i])))
  }

  /** Everything one run writes, in order: each page, then the index. */
  function TableWrites(dir: seq<TableFile>): seq<(string, string)> {
    var files := TableFiles(dir);
    PageWrites(files) + [(IndexPath, FileText(IndexLinesOf(files)))]
  }

  /** `generate_tables`, writing into `out` and returning the navigation
      lines. */
  method GenerateTables(out: OutputTree, dir: seq<TableFile>) returns (navLines: seq<string>)
    modifies out
    ensures navLines == NavLinesOf(TableFiles(dir))
    ensures out.files == WriteAll(old(out.files), TableWrites(dir))
  {
    navLines := [];
    var indexLines := IndexHeader;
    var files := TableFiles(dir);
    var i := 0;
    while i < |files|
      invariant 0 <= i <= |files|
      invariant navLines == NavLinesOf(files[..i])
      invariant indexLines == IndexLinesOf(files[..i])
      invariant out.files == WriteAll(old(out.files), PageWrites(files[..i]))
    {
      var f := files[i];
      var name := Stem(f.fileName);
      var title := TableTitle(f.table, name);
      var lines := RenderPage(title, f.table.elements);
      var mdFile := name + ".md";
      PageStep(old(out.files), files, i);
      out.Write("tables/" + mdFile, FileText(lines));
      navLines := navLines + ["    - " + title + ": tables/" + mdFile];
      indexLines := indexLines + ["- [" + title + "](" + mdFile + ")"];
      i := i + 1;
    }
    assert files[..i] == files;
    out.Write(IndexPath, FileText(indexLines));
  }

  lemma PageStep(tree: map<string, string>, files: seq<TableFile>, i: nat)
    requires i < |files|
    ensures NavLinesOf(files[..i + 1]) == NavLinesOf(files[..i]) + [NavLine(files[i])]
    ensures IndexLinesOf(files[..i + 1]) == IndexLinesOf(files[..i]) + [IndexBullet(files[i])]
    ensures WriteAll(tree, PageWrites(files[..i + 1]))
      == WriteAll(tree, PageWrites(files[..i]))[PagePath(files[i]) := PageText(files[i])]
  {
    NavStep(files, i);
    IndexStep(files, i);
    WriteStep(tree, files, i);
  }

  lemma NavStep(files: seq<TableFile>, i: nat)
    requires i < |files|
    ensures NavLinesOf(files[..i + 1]) == NavLinesOf(files[..i]) + [NavLine(files[i])]
  {
  }

  lemma IndexStep(files: seq<TableFile>, i: nat)
    requires i < |files|
    ensures IndexLinesOf(files[..i + 1]) == IndexLinesOf(files[..i]) + [IndexBullet(files[i])]
  {
  }

  lemma WriteStep(tree: map<string, string>, files: seq<TableFile>, i: nat)
    requires i < |files|
    ensures WriteAll(tree, PageWrites(files[..i + 1]))
      == WriteAll(tree, PageWrites(files[..i]))[PagePath(files[i]) := PageText(files[i])]
  {
    var w := PageWrites(files[..i + 1]);
    assert w[..i] == PageWrites(files[..i]);
  }

  /** The pages are the `*.yml` files of the directory, sorted by file name;
      the i-th index bullet and the i-th navigation line belong to the i-th
      of them, whatever their titles. */
  lemma TablesOrder(dir: seq<TableFile>)
    ensures var files := TableFiles(dir);
      SortedBy(files, FileNameKey)
      && (forall f :: f in files <==> f in dir && IsTableFile(f))
      && |IndexLinesOf(files)| == |IndexHeader| + |files|
      && IndexLinesOf(files)[..|IndexHeader|] == IndexHeader
      && |NavLinesOf(files)| == |files|
      && forall i :: 0 <= i < |files| ==>
        IndexLinesOf(files)[|IndexHeader| + i] == "- [" + TitleOf(files[i]) + "](" + PageName(files[i]) + ")"
        && NavLinesOf(files)[i] == "    - " + TitleOf(files[i]) + ": tables/" + PageName(files[i])
  {
    var files := TableFiles(dir);
    SortBySorted(Filter(dir, IsTableFile), FileNameKey);
    forall f ensures f in files <==> f in dir && IsTableFile(f) {
      assert f in files <==> f in multiset(files);
      FilterMembers(dir, IsTableFile, f);
    }
  }

  /** Paths `tables/<x>` of different `x` differ. */
  lemma PagePathsDiffer(a: string, b: string)
    requires a != b
    ensures "tables/" + a != "tables/" + b
  {
    var pre := "tables/";
    assert (pre + a)[|pre|..] == a && (pre + b)[|pre|..] == b;
  }

  lemma PageNamesDiffer(a: string, b: string)
    requires a != b
    ensures a + ".md" != b + ".md"
  {
    if |a| == |b| {
      assert a == (a + ".md")[..|a|] && b == (b + ".md")[..|b|];
    }
  }

  /** Distinct stems give distinct page paths, and only the stem `index`
      gives the index's path. */
  lemma PagePathSeparate(f: TableFile, g: TableFile)
    ensures Stem(f.fileName) != Stem(g.fileName) ==> PagePath(f) != PagePath(g)
    ensures Stem(f.fileName) != "index" ==> PagePath(f) != IndexPath
  {
    if Stem(f.fileName) != Stem(g.fileName) {
      PageNamesDiffer(Stem(f.fileName), Stem(g.fileName));
      PagePathsDiffer(PageName(f), PageName(g));
    }
    if Stem(f.fileName) != "index" {
      PageNamesDiffer(Stem(f.fileName), "index");
      PagePathsDiffer(PageName(f), "index.md");
      assert IndexPath == "tables/" + "index.md";
    }
  }

  lemma PageWritesPaths(files: seq<TableFile>, index: string)
    ensures var w := PageWrites(files) + [(IndexPath, index)];
      |w| == |files| + 1
      && w[|files|] == (IndexPath, index)
      && forall j :: 0 <= j < |files| ==> w[j] == (PagePath(files[j]), PageText(files[j]))
  {
  }

  /** After a run `tables/index.md` holds the index (it is written last, so
      it also replaces the page of a table named `index.yml`), and every
      other page holds its table, provided no two tables share a stem. */
  lemma TablesWritten(dir: seq<TableFile>, f: TableFile)
    requires var files := TableFiles(dir);
      forall i, j :: 0 <= i < j < |files| ==> Stem(files[i].fileName) != Stem(files[j].fileName)
    requires f in TableFiles(dir) && Stem(f.fileName) != "index"
    ensures var written := Written(TableWrites(dir));
      IndexPath in written && written[IndexPath] == FileText(IndexLinesOf(TableFiles(dir)))
      && PagePath(f) in written && written[PagePath(f)] == PageText(f)
  {
    var files := TableFiles(dir);
    var index := FileText(IndexLinesOf(files));
    var w := PageWrites(files) + [(IndexPath, index)];
    assert w == TableWrites(dir);
    PageWritesPaths(files, index);
    WrittenLast(w, |w| - 1);
    var i :| 0 <= i < |files| && files[i] == f;
    forall j | i < j < |w| ensures w[j].0 != w[i].0 {
      if j < |files| {
        PagePathSeparate(files[j], f);
      } else {
        PagePathSeparate(f, f);
      }
    }
    WrittenLast(w, i);
  }
}
