/** Title and description of a markdown article (`extract_title_from_markdown`
    and `extract_description_from_markdown`). The file's content is `None`
    when it cannot be read; both extractors then fall back instead of
    failing. The regular expressions are written out as functions with the
    semantics of Python's `re` for these patterns: leftmost match, lazy
    `.+?` that never crosses a newline, greedy repetition with backtracking. */
module Markdown {
  import opened Wrappers
  import opened Text
  import opened Seqs

  const MaxDescriptionLength: nat := 150
  const NoDescription: string := "No description available."

  // ---------------------------------------------------------------------
  // Title

  /** The multi-line pattern `^# .+$` matches starting at `j`: `j` starts a
      line, the line begins with `# `, and at least one more character
      follows on that line. */
  predicate HeadingAt(c: string, j: int) {
    0 <= j && j + 2 < |c| && (j == 0 || c[j - 1] == '\n')
    && c[j] == '#' && c[j + 1] == ' ' && c[j + 2] != '\n'
  }

  /** The end of the line that contains position `j`. */
  function LineEnd(c: string, j: nat): (e: nat)
    requires j <= |c|
    ensures j <= e <= |c|
    ensures e == |c| || c[e] == '\n'
    ensures forall k :: j <= k < e ==> c[k] != '\n'
    decreases |c| - j
  {
    if j == |c| || c[j] == '\n' then j else LineEnd(c, j + 1)
  }

  /** `re.search(r"^# (.+)$", c, re.MULTILINE)` from position `from`: the
      leftmost position where a heading line starts. */
  function FindHeading(c: string, from: nat): (r: Option<nat>)
    ensures r.Some? ==> from <= r.value && HeadingAt(c, r.value)
    ensures r.Some? ==> forall k :: from <= k < r.value ==> !HeadingAt(c, k)
    ensures r.None? ==> forall k :: from <= k ==> !HeadingAt(c, k)
    decreases |c| - from
  {
    if from + 2 >= |c| then None
    else if HeadingAt(c, from) then Some(from)
    else FindHeading(c, from + 1)
  }

  /** Group 1 of the heading match at `j`: the rest of the line after `# `. */
  function HeadingText(c: string, j: nat): string
    requires HeadingAt(c, j)
  {
    c[j + 2..LineEnd(c, j + 2)]
  }

  /** `stem.replace("_", " ").replace("-", " ").title()` */
  function FallbackTitle(stem: string): (r: string)
    ensures |r| == |stem|
    ensures '_' !in r && '-' !in r
  {
    var spaced := ReplaceChar(ReplaceChar(stem, '_', ' '), '-', ' ');
    var r := TitleCase(spaced);
    assert forall i :: 0 <= i < |r| ==> r[i] != '_' && r[i] != '-' by {
      forall i | 0 <= i < |r| ensures r[i] != '_' && r[i] != '-' {
        TitleCaseAt(spaced, i);
      }
    }
    r
  }

  /** `extract_title_from_markdown`: the stripped text of the first heading
      line, or the title made from the file's stem when there is none or the
      file cannot be read. */
  function ExtractTitle(content: Option<string>, stem: string): string {
    match content
    case None => FallbackTitle(stem)
    case Some(c) =>
      match FindHeading(c, 0)
      case Some(j) => Strip(HeadingText(c, j))
      case None => FallbackTitle(stem)
  }

  /** The title is the stripped text after `# ` on the first line that
      matches `^# (.+)$`. */
  lemma TitleFromFirstHeading(c: string, stem: string, j: nat)
    requires HeadingAt(c, j)
    requires forall k :: 0 <= k < j ==> !HeadingAt(c, k)
    ensures ExtractTitle(Some(c), stem) == Strip(c[j + 2..LineEnd(c, j + 2)])
    ensures '\n' !in ExtractTitle(Some(c), stem)
  {
    FirstHeadingFound(c, j);
    var t := HeadingText(c, j);
    assert '\n' !in t;
    StripKeepsAbsent(t, '\n');
  }

  lemma FirstHeadingFound(c: string, j: nat)
    requires HeadingAt(c, j)
    requires forall k :: 0 <= k < j ==> !HeadingAt(c, k)
    ensures FindHeading(c, 0) == Some(j)
  {
  }

  /** Without a heading line, or when the file cannot be read, the title is
      the stem with `_` and `-` turned into spaces, title-cased; it then
      contains neither `_` nor `-`. */
  lemma TitleWithoutHeading(content: Option<string>, stem: string)
    requires content.Some? ==> forall k :: 0 <= k <= |content.value| ==> !HeadingAt(content.value, k)
    ensures ExtractTitle(content, stem) == FallbackTitle(stem)
    ensures '_' !in ExtractTitle(content, stem) && '-' !in ExtractTitle(content, stem)
  {
  }

  // ---------------------------------------------------------------------
  // Markup removal

  /** `re.sub(r"^# .+$", "", c, count=1, flags=re.MULTILINE)`: the text of
      the first heading line is removed, its newline stays. */
  function RemoveTitleLine(c: string): (r: string)
    ensures |r| <= |c|
    ensures IsSubseq(r, c)
    ensures FindHeading(c, 0).None? ==> r == c
    ensures FindHeading(c, 0).Some? ==> |r| + 3 <= |c|
  {
    match FindHeading(c, 0)
    case None => SubseqRefl(c); c
    case Some(j) =>
      var e := LineEnd(c, j + 2);
      SubseqRefl(c[e..]);
      KeepSlice(c, 0, j, e, c[e..]);
      c[..j] + c[e..]
  }

  /** Number of leading characters of `s` that satisfy `p`. */
  function RunLength(s: string, p: char -> bool): (n: nat)
    ensures n <= |s|
    ensures forall k :: 0 <= k < n ==> p(s[k])
    ensures n == |s| || !p(s[n])
    decreases |s|
  {
    if s != [] && p(s[0]) then 1 + RunLength(s[1..], p) else 0
  }

  /** `re.sub(r"#{1,6}\s+", "", s)`. A match starts where a run of one to six
      `#` is followed by whitespace (a longer run matches only at its last
      six), and takes all the whitespace that follows. */
  function RemoveHeaderMarks(s: string): (r: string)
    ensures |r| <= |s|
    ensures IsSubseq(r, s)
    decreases |s|
  {
    if s == [] then []
    else
      var n := RunLength(s, c => c == '#');
      if 1 <= n <= 6 && n < |s| && IsSpace(s[n]) then
        var m := n + RunLength(s[n..], IsSpace);
        var rest := RemoveHeaderMarks(s[m..]);
        KeepSlice(s, m, m, m, rest);
        assert s[m..m] + rest == rest;
        rest
      else
        var rest := RemoveHeaderMarks(s[1..]);
        KeepFirst(s, rest);
        [s[0]] + rest
  }

  /** The lazy group `(.+?)` followed by the literal `d`, its first character
      at `j - 1`: the first position `k >= j` where `d` occurs, if no newline
      comes before it. */
  function CloseFrom(s: string, j: nat, d: string): (r: Option<nat>)
    requires 1 <= j && |d| > 0
    ensures r.Some? ==> j <= r.value && OccursAt(s, d, r.value)
    ensures r.Some? ==> forall m :: j - 1 <= m < r.value ==> s[m] != '\n'
    ensures r.Some? ==> forall m :: j <= m < r.value ==> !OccursAt(s, d, m)
    ensures r.None? ==> forall m :: j <= m && OccursAt(s, d, m) ==> '\n' in s[j - 1..m]
    decreases |s| - j
  {
    if j + |d| > |s| then None
    else if s[j - 1] == '\n' then None
    else if s[j..j + |d|] == d then Some(j)
    else
      var r := CloseFrom(s, j + 1, d);
      assert r.None? ==> forall m :: j + 1 <= m && OccursAt(s, d, m) ==> '\n' in s[j - 1..m] by {
        forall m | j + 1 <= m && OccursAt(s, d, m) && r.None? ensures '\n' in s[j - 1..m] {
          var n :| n in s[j..m] && n == '\n';
          var i :| 0 <= i < m - j && s[j..m][i] == n;
          assert s[j - 1..m][i + 1] == '\n';
        }
      }
      r
  }

  /** `re.sub(d + "(.+?)" + d, r"\1", s)` for a literal delimiter `d`:
      `**` for bold, `*` for italic, a backtick for code. */
  function RemoveDelimited(s: string, d: string): (r: string)
    requires |d| > 0
    ensures |r| <= |s|
    ensures IsSubseq(r, s)
    decreases |s|
  {
    if s == [] then []
    else if OccursAt(s, d, 0) && CloseFrom(s, |d| + 1, d).Some? then
      var k := CloseFrom(s, |d| + 1, d).value;
      var rest := RemoveDelimited(s[k + |d|..], d);
      KeepSlice(s, |d|, k, k + |d|, rest);
      s[|d|..k] + rest
    else
      var rest := RemoveDelimited(s[1..], d);
      KeepFirst(s, rest);
      [s[0]] + rest
  }

  /** The pattern `\[(.+?)\]\(.+?\)` at position 0, trying the end `j` of
      the link text in increasing order (lazy, with backtracking) and for
      each the first `)` that closes the target. Gives `(j, k)`: the text is
      `s[1..j]`, the whole match ends at `k + 1`. */
  function FindLink(s: string, j: nat): (r: Option<(nat, nat)>)
    requires 2 <= j
    ensures r.Some? ==> j <= r.value.0 && r.value.0 + 3 <= r.value.1 < |s|
    decreases |s| - j
  {
    if j + 2 > |s| then None
    else if s[j - 1] == '\n' then None
    else if s[j..j + 2] == "](" && CloseFrom(s, j + 3, ")").Some? then
      Some((j, CloseFrom(s, j + 3, ")").value))
    else FindLink(s, j + 1)
  }

  /** `re.sub(r"\[(.+?)\]\(.+?\)", r"\1", s)` */
  function RemoveLinks(s: string): (r: string)
    ensures |r| <= |s|
    ensures IsSubseq(r, s)
    decreases |s|
  {
    if s == [] then []
    else if s[0] == '[' && FindLink(s, 2).Some? then
      var (j, k) := FindLink(s, 2).value;
      var rest := RemoveLinks(s[k + 1..]);
      KeepSlice(s, 1, j, k + 1, rest);
      s[1..j] + rest
    else
      var rest := RemoveLinks(s[1..]);
      KeepFirst(s, rest);
      [s[0]] + rest
  }

  /** Keeping the first character in front of a subsequence of the rest. */
  lemma KeepFirst(s: string, rest: string)
    requires s != [] && IsSubseq(rest, s[1..])
    ensures IsSubseq([s[0]] + rest, s)
  {
    SubseqRefl([s[0]]);
    SubseqAppend([s[0]], [s[0]], rest, s[1..]);
    assert [s[0]] + s[1..] == s;
  }

  /** Keeping the slice `s[i..j]` in front of a subsequence of `s[m..]`. */
  lemma KeepSlice(s: string, i: nat, j: nat, m: nat, rest: string)
    requires i <= j <= m <= |s| && IsSubseq(rest, s[m..])
    ensures IsSubseq(s[i..j] + rest, s)
  {
    var front := s[..m];
    SubseqSlice(front, i, j);
    assert front[i..j] == s[i..j];
    SubseqAppend(s[i..j], front, rest, s[m..]);
    assert front + s[m..] == s;
  }

  /** The content after the chain of substitutions: title line, header
      marks, bold, italic, code, links. */
  function Clean(c: string): (r: string)
    ensures IsSubseq(r, c)
  {
    var noTitle := RemoveTitleLine(c);
    var noHeaders := RemoveHeaderMarks(noTitle);
    var noBold := RemoveDelimited(noHeaders, "**");
    var noItalic := RemoveDelimited(noBold, "*");
    var noCode := RemoveDelimited(noItalic, "`");
    var r := RemoveLinks(noCode);
    SubseqTransitive(noHeaders, noTitle, c);
    SubseqTransitive(noBold, noHeaders, c);
    SubseqTransitive(noItalic, noBold, c);
    SubseqTransitive(noCode, noItalic, c);
    SubseqTransitive(r, noCode, c);
    r
  }

  lemma {:induction false} HeaderMarksKeepPlain(s: string)
    requires '#' !in s
    ensures RemoveHeaderMarks(s) == s
    decreases |s|
  {
    if s != [] {
      assert RunLength(s, c => c == '#') == 0;
      HeaderMarksKeepPlain(s[1..]);
      assert s == [s[0]] + s[1..];
    }
  }

  lemma {:induction false} DelimitedKeepPlain(s: string, d: string)
    requires |d| > 0 && d[0] !in s
    ensures RemoveDelimited(s, d) == s
    decreases |s|
  {
    if s != [] {
      assert !OccursAt(s, d, 0);
      DelimitedKeepPlain(s[1..], d);
      assert s == [s[0]] + s[1..];
    }
  }

  lemma {:induction false} LinksKeepPlain(s: string)
    requires '[' !in s
    ensures RemoveLinks(s) == s
    decreases |s|
  {
    if s != [] {
      LinksKeepPlain(s[1..]);
      assert s == [s[0]] + s[1..];
    }
  }

  /** Text without any of the characters `#`, `*`, backtick and `[` comes
      through the markup removal unchanged. */
  lemma CleanKeepsPlainText(c: string)
    requires '#' !in c && '*' !in c && '`' !in c && '[' !in c
    ensures Clean(c) == c
  {
    assert FindHeading(c, 0).None?;
    HeaderMarksKeepPlain(c);
    DelimitedKeepPlain(c, "**");
    DelimitedKeepPlain(c, "*");
    DelimitedKeepPlain(c, "`");
    LinksKeepPlain(c);
  }

  // ---------------------------------------------------------------------
  // Paragraphs and truncation

  /** `[p.strip() for p in pieces if p.strip()]` */
  function NonBlank(pieces: seq<string>): (r: seq<string>)
    ensures |r| <= |pieces|
    ensures forall i :: 0 <= i < |r| ==> r[i] != [] && !IsSpace(r[i][0]) && !IsSpace(r[i][|r[i]| - 1])
    decreases |pieces|
  {
    if pieces == [] then []
    else if Strip(pieces[0]) == [] then NonBlank(pieces[1..])
    else [Strip(pieces[0])] + NonBlank(pieces[1..])
  }

  /** The first paragraph is the stripped form of the first piece that is
      not blank. */
  lemma {:induction false} NonBlankFirst(pieces: seq<string>, m: nat)
    requires m < |pieces| && Strip(pieces[m]) != []
    requires forall i :: 0 <= i < m ==> Strip(pieces[i]) == []
    ensures NonBlank(pieces) != [] && NonBlank(pieces)[0] == Strip(pieces[m])
    decreases m
  {
    if m > 0 {
      NonBlankFirst(pieces[1..], m - 1);
    }
  }

  /** There is no paragraph exactly when every piece is blank. */
  lemma {:induction false} NonBlankEmpty(pieces: seq<string>)
    ensures NonBlank(pieces) == [] <==> forall i :: 0 <= i < |pieces| ==> Strip(pieces[i]) == []
    decreases |pieces|
  {
    if pieces != [] {
      NonBlankEmpty(pieces[1..]);
      assert forall i :: 1 <= i < |pieces| ==> pieces[i] == pieces[1..][i - 1];
    }
  }

  /** `pieces[m]` is the first piece that is not blank. */
  predicate FirstNonBlankAt(pieces: seq<string>, m: int) {
    0 <= m < |pieces| && Strip(pieces[m]) != []
    && forall i :: 0 <= i < m ==> Strip(pieces[i]) == []
  }

  /** `content.split("\n\n")`, then the non-blank pieces, stripped. */
  function Paragraphs(s: string): seq<string> {
    NonBlank(Split(s, "\n\n"))
  }

  /** `t.rsplit(" ", 1)[0]`: `t` up to its last space, or all of `t`. */
  function BeforeLastSpace(t: string): string {
    match LastIndexOf(t, ' ')
    case Some(p) => t[..p]
    case None => t
  }

  /** `d` when it fits in `maxLength`; otherwise its first `maxLength`
      characters cut before the last space among them (if any), then `...`. */
  function Truncate(d: string, maxLength: nat): (r: string)
    ensures |d| <= maxLength ==> r == d
    ensures |d| > maxLength ==> 3 <= |r| <= maxLength + 3 && r[|r| - 3..] == "..."
    ensures |d| > maxLength ==>
      var cut := |r| - 3;
      r[..cut] == d[..cut]
      && (cut < maxLength ==> d[cut] == ' ' && forall k :: cut < k < maxLength ==> d[k] != ' ')
      && (cut == maxLength ==> forall k :: 0 <= k < maxLength ==> d[k] != ' ')
  {
    if |d| <= maxLength then d
    else
      var t := d[..maxLength];
      var r := BeforeLastSpace(t) + "...";
      assert r[..|r| - 3] == BeforeLastSpace(t);
      r
  }

  /** The description made from the cleaned content: its first paragraph,
      truncated, or the placeholder when there is none. */
  function Describe(text: string): (r: string)
    ensures |r| <= MaxDescriptionLength + 3
  {
    var paragraphs := Paragraphs(text);
    if paragraphs == [] then NoDescription
    else Truncate(paragraphs[0], MaxDescriptionLength)
  }

  /** `extract_description_from_markdown`: the description of the cleaned
      content; the placeholder when the file cannot be read. */
  function ExtractDescription(content: Option<string>): (r: string)
    ensures |r| <= MaxDescriptionLength + 3
  {
    match content
    case None => NoDescription
    case Some(c) => Describe(Clean(c))
  }

  lemma DescribeFirstParagraph(text: string)
    ensures var pieces := Split(text, "\n\n");
      forall m :: FirstNonBlankAt(pieces, m) ==> Describe(text) == Truncate(Strip(pieces[m]), MaxDescriptionLength)
  {
    var pieces := Split(text, "\n\n");
    var paragraphs := Paragraphs(text);
    assert paragraphs == NonBlank(pieces);
    forall m | FirstNonBlankAt(pieces, m)
      ensures Describe(text) == Truncate(Strip(pieces[m]), MaxDescriptionLength)
    {
      NonBlankFirst(pieces, m);
      assert paragraphs != [] && paragraphs[0] == Strip(pieces[m]);
    }
  }

  /** The description comes from the first piece of the cleaned content,
      split on blank lines, that is not blank: that piece stripped, unchanged
      when it has at most 150 characters. */
  lemma DescriptionFromFirstParagraph(c: string)
    ensures var pieces := Split(Clean(c), "\n\n");
      forall m :: FirstNonBlankAt(pieces, m) ==>
        ExtractDescription(Some(c)) == Truncate(Strip(pieces[m]), MaxDescriptionLength)
        && (|Strip(pieces[m])| <= MaxDescriptionLength ==> ExtractDescription(Some(c)) == Strip(pieces[m]))
  {
    DescribeFirstParagraph(Clean(c));
  }

  /** With no non-blank piece the description is exactly the placeholder;
      it is also the placeholder when the file cannot be read. */
  lemma DescriptionPlaceholder(c: string)
    requires forall i :: 0 <= i < |Split(Clean(c), "\n\n")| ==> Strip(Split(Clean(c), "\n\n")[i]) == []
    ensures ExtractDescription(Some(c)) == NoDescription
    ensures ExtractDescription(None) == NoDescription
  {
    var pieces := Split(Clean(c), "\n\n");
    NonBlankEmpty(pieces);
    assert Paragraphs(Clean(c)) == [];
  }

  /** Each piece of a join is a subsequence of the joined text. */
  lemma {:induction false} JoinPieceSubseq(sep: string, parts: seq<string>, i: nat)
    requires i < |parts|
    ensures IsSubseq(parts[i], Join(sep, parts))
    decreases |parts|
  {
    if |parts| == 1 {
      SubseqRefl(parts[0]);
    } else {
      var rest := Join(sep, parts[1..]);
      assert Join(sep, parts) == parts[0] + (sep + rest);
      if i == 0 {
        SubseqRefl(parts[0]);
        SubseqAppend(parts[0], parts[0], [], sep + rest);
        assert parts[0] + [] == parts[0];
      } else {
        JoinPieceSubseq(sep, parts[1..], i - 1);
        SubseqUnderPrefix(parts[i], parts[0] + sep, rest);
        assert (parts[0] + sep) + rest == parts[0] + (sep + rest);
      }
    }
  }

  /** The first paragraph is one of the pieces, stripped. */
  lemma {:induction false} NonBlankHead(pieces: seq<string>)
    requires NonBlank(pieces) != []
    ensures exists m :: 0 <= m < |pieces| && NonBlank(pieces)[0] == Strip(pieces[m])
    decreases |pieces|
  {
    if Strip(pieces[0]) == [] {
      NonBlankHead(pieces[1..]);
      var m :| 0 <= m < |pieces[1..]| && NonBlank(pieces[1..])[0] == Strip(pieces[1..][m]);
      assert pieces[1..][m] == pieces[m + 1];
    } else {
      assert NonBlank(pieces)[0] == Strip(pieces[0]);
    }
  }

  lemma StripSubseq(p: string)
    ensures IsSubseq(Strip(p), p)
  {
    var lead := LeadingSpaces(p);
    SubseqSlice(p, lead, lead + |Strip(p)|);
  }

  lemma SplitPieceSubseq(text: string, sep: string, m: nat)
    requires |sep| > 0 && m < |Split(text, sep)|
    ensures IsSubseq(Split(text, sep)[m], text)
  {
    JoinPieceSubseq(sep, Split(text, sep), m);
  }

  /** The first paragraph of a text is that text with characters deleted. */
  lemma FirstParagraphSubseq(text: string)
    requires Paragraphs(text) != []
    ensures IsSubseq(Paragraphs(text)[0], text)
  {
    var pieces := Split(text, "\n\n");
    NonBlankHead(pieces);
    var m :| 0 <= m < |pieces| && NonBlank(pieces)[0] == Strip(pieces[m]);
    StripSubseq(pieces[m]);
    SplitPieceSubseq(text, "\n\n", m);
    SubseqTransitive(Strip(pieces[m]), pieces[m], text);
  }

  /** The first paragraph is the article with characters deleted. */
  lemma ParagraphFromText(c: string)
    requires Paragraphs(Clean(c)) != []
    ensures IsSubseq(Paragraphs(Clean(c))[0], c)
  {
    var cleaned := Clean(c);
    FirstParagraphSubseq(cleaned);
    SubseqTransitive(Paragraphs(cleaned)[0], cleaned, c);
  }

  /** Truncating a subsequence of `c` leaves a subsequence of `c`, or one
      followed by `...`. */
  lemma TruncateSubseq(p: string, n: nat, c: string)
    requires IsSubseq(p, c)
    ensures var t := Truncate(p, n);
      IsSubseq(t, c) || (|t| >= 3 && t[|t| - 3..] == "..." && IsSubseq(t[..|t| - 3], c))
  {
    var t := Truncate(p, n);
    if |p| > n {
      var cut := |t| - 3;
      SubseqSlice(p, 0, cut);
      assert t[..cut] == p[..cut];
      SubseqTransitive(t[..cut], p, c);
    }
  }

  /** The description is drawn from the article's text: apart from the
      placeholder, it is the article with characters deleted, in order,
      followed by `...` when it was cut. */
  lemma DescriptionFromText(c: string)
    ensures var d := ExtractDescription(Some(c));
      d == NoDescription
      || IsSubseq(d, c)
      || (|d| >= 3 && d[|d| - 3..] == "..." && IsSubseq(d[..|d| - 3], c))
  {
    var paragraphs := Paragraphs(Clean(c));
    if paragraphs != [] {
      ParagraphFromText(c);
      TruncateSubseq(paragraphs[0], MaxDescriptionLength, c);
    }
  }
}
