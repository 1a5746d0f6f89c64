/** The string operations of Python's `str` that the generators use:
    `strip`, `lower`, `title`, `replace`, `join`, `split` and the ordering
    `<` of strings (lexicographic by code point). Case mapping is ASCII only. */
module Text {
  import opened Wrappers

  /** Python's `str.isspace()` for one character (the characters whose
      bidirectional class is WS, B or S, or whose category is Zs). */
  predicate IsSpace(c: char) {
    c == '\t' || c == '\n' || c == '\U{0B}' || c == '\U{0C}' || c == '\r'
    || ('\U{1C}' <= c <= '\U{1F}') || c == ' ' || c == '\U{85}' || c == '\U{A0}'
    || c == '\U{1680}' || ('\U{2000}' <= c <= '\U{200A}') || c == '\U{2028}'
    || c == '\U{2029}' || c == '\U{202F}' || c == '\U{205F}' || c == '\U{3000}'
  }

  /** `s.lstrip()` */
  function LStrip(s: string): (r: string)
    ensures |r| <= |s| && r == s[|s| - |r|..]
    ensures forall i :: 0 <= i < |s| - |r| ==> IsSpace(s[i])
    ensures r != [] ==> !IsSpace(r[0])
    decreases |s|
  {
    if s != [] && IsSpace(s[0]) then LStrip(s[1..]) else s
  }

  /** `s.rstrip()` */
  function RStrip(s: string): (r: string)
    ensures |r| <= |s| && r == s[..|r|]
    ensures forall i :: |r| <= i < |s| ==> IsSpace(s[i])
    ensures r != [] ==> !IsSpace(r[|r| - 1])
    decreases |s|
  {
    if s != [] && IsSpace(s[|s| - 1]) then RStrip(s[..|s| - 1]) else s
  }

  /** Number of whitespace characters `s.strip()` removes at the front. */
  function LeadingSpaces(s: string): nat {
    |s| - |LStrip(s)|
  }

  /** `s.strip()`: the slice of `s` left after removing whitespace at both
      ends; what is removed is whitespace and what is left starts and ends
      with a non-whitespace character. */
  function Strip(s: string): (r: string)
    ensures LeadingSpaces(s) + |r| <= |s|
    ensures r == s[LeadingSpaces(s)..LeadingSpaces(s) + |r|]
    ensures forall i :: 0 <= i < LeadingSpaces(s) ==> IsSpace(s[i])
    ensures forall i :: LeadingSpaces(s) + |r| <= i < |s| ==> IsSpace(s[i])
    ensures r != [] ==> !IsSpace(r[0]) && !IsSpace(r[|r| - 1])
  {
    RStrip(LStrip(s))
  }

  lemma StripEmptyIffBlank(s: string)
    ensures Strip(s) == [] <==> forall i :: 0 <= i < |s| ==> IsSpace(s[i])
  {
    if Strip(s) != [] {
      var k := LeadingSpaces(s);
      assert s[k] == Strip(s)[0];
    }
  }

  /** A character that `s` lacks is also absent from `s.strip()`. */
  lemma StripKeepsAbsent(s: string, c: char)
    requires c !in s
    ensures c !in Strip(s)
  {
    var r := Strip(s);
    forall i | 0 <= i < |r| ensures r[i] != c {
      assert r[i] == s[LeadingSpaces(s) + i];
    }
  }

  predicate IsAsciiUpper(c: char) { 'A' <= c <= 'Z' }
  predicate IsAsciiLower(c: char) { 'a' <= c <= 'z' }
  predicate IsAsciiLetter(c: char) { IsAsciiUpper(c) || IsAsciiLower(c) }

  function LowerChar(c: char): char {
    if IsAsciiUpper(c) then (c as int + 32) as char else c
  }

  function UpperChar(c: char): char {
    if IsAsciiLower(c) then (c as int - 32) as char else c
  }

  /** `s.lower()` on ASCII letters. */
  function Lower(s: string): (r: string)
    ensures |r| == |s|
    ensures forall i :: 0 <= i < |s| ==>
      !IsAsciiUpper(r[i])
      && (IsAsciiUpper(s[i]) ==> r[i] as int == s[i] as int + 32)
      && (!IsAsciiUpper(s[i]) ==> r[i] == s[i])
  {
    seq(|s|, i requires 0 <= i < |s| => LowerChar(s[i]))
  }

  /** `s.title()`: CPython walks the string keeping whether the previous
      character was cased; a character after a cased one is lower-cased,
      any other is title-cased. */
  function TitleCase(s: string): string {
    TitleFrom(s, false)
  }

  function TitleFrom(s: string, previousCased: bool): (r: string)
    ensures |r| == |s|
    decreases |s|
  {
    if s == [] then []
    else
      var c := if previousCased then LowerChar(s[0]) else UpperChar(s[0]);
      [c] + TitleFrom(s[1..], IsAsciiLetter(s[0]))
  }

  lemma {:induction false} TitleFromAt(s: string, previousCased: bool, i: nat)
    requires i < |s|
    ensures TitleFrom(s, previousCased)[i] ==
      if (if i == 0 then previousCased else IsAsciiLetter(s[i - 1]))
      then LowerChar(s[i]) else UpperChar(s[i])
  {
    if i > 0 {
      TitleFromAt(s[1..], IsAsciiLetter(s[0]), i - 1);
    }
  }

  /** Each character of `s.title()` is the upper-case form of the input
      character when it starts a word (first character, or after a
      character that is not a letter) and its lower-case form otherwise. */
  lemma TitleCaseAt(s: string, i: nat)
    requires i < |s|
    ensures |TitleCase(s)| == |s|
    ensures TitleCase(s)[i] ==
      if i > 0 && IsAsciiLetter(s[i - 1]) then LowerChar(s[i]) else UpperChar(s[i])
  {
    TitleFromAt(s, false, i);
  }

  /** `s.replace(a, b)` for one-character `a` and `b`. */
  function ReplaceChar(s: string, a: char, b: char): (r: string)
    ensures |r| == |s|
    ensures forall i :: 0 <= i < |s| ==> r[i] == if s[i] == a then b else s[i]
    decreases |s|
  {
    if s == [] then [] else [if s[0] == a then b else s[0]] + ReplaceChar(s[1..], a, b)
  }

  /** `s.rfind(c)` */
  function LastIndexOf(s: string, c: char): (r: Option<nat>)
    ensures r.Some? ==> r.value < |s| && s[r.value] == c
    ensures r.Some? ==> forall k :: r.value < k < |s| ==> s[k] != c
    ensures r.None? ==> forall k :: 0 <= k < |s| ==> s[k] != c
    decreases |s|
  {
    if s == [] then None
    else if s[|s| - 1] == c then Some(|s| - 1)
    else LastIndexOf(s[..|s| - 1], c)
  }

  /** `sep.join(parts)` */
  function Join(sep: string, parts: seq<string>): string
    decreases |parts|
  {
    if parts == [] then []
    else if |parts| == 1 then parts[0]
    else parts[0] + sep + Join(sep, parts[1..])
  }

  /** `t` occurs in `s` starting at index `k`. */
  predicate OccursAt(s: string, t: string, k: int) {
    0 <= k && k + |t| <= |s| && s[k..k + |t|] == t
  }

  /** `t in s` */
  predicate Contains(s: string, t: string) {
    exists k :: 0 <= k <= |s| && OccursAt(s, t, k)
  }

  /** `s.find(t, from)`: the leftmost occurrence of `t` at or after `from`. */
  function IndexOf(s: string, t: string, from: nat): (r: Option<nat>)
    ensures r.Some? ==> from <= r.value && OccursAt(s, t, r.value)
    ensures r.Some? ==> forall k :: from <= k < r.value ==> !OccursAt(s, t, k)
    ensures r.None? ==> forall k :: from <= k ==> !OccursAt(s, t, k)
    decreases |s| - from
  {
    if from + |t| > |s| then None
    else if s[from..from + |t|] == t then Some(from)
    else IndexOf(s, t, from + 1)
  }

  /** The leftmost occurrence from the start is the one `IndexOf` finds. */
  lemma {:induction false} IndexOfLeftmost(s: string, t: string, i: nat)
    requires OccursAt(s, t, i)
    requires forall k :: 0 <= k < i ==> !OccursAt(s, t, k)
    ensures IndexOf(s, t, 0) == Some(i)
  {
    IndexOfFrom(s, t, 0, i);
  }

  lemma {:induction false} IndexOfFrom(s: string, t: string, from: nat, i: nat)
    requires from <= i && OccursAt(s, t, i)
    requires forall k :: from <= k < i ==> !OccursAt(s, t, k)
    ensures IndexOf(s, t, from) == Some(i)
    decreases i - from
  {
    if from < i {
      assert !OccursAt(s, t, from);
      IndexOfFrom(s, t, from + 1, i);
    }
  }

  /** Cutting `s` at the leftmost occurrence of `sep` and putting `sep`
      back: that occurrence is still the leftmost. */
  lemma CutIsLeftmost(s: string, sep: string, i: nat)
    requires IndexOf(s, sep, 0) == Some(i)
    ensures IndexOf(s[..i] + sep, sep, 0) == Some(i)
  {
    var t := s[..i] + sep;
    assert t[i..i + |sep|] == sep;
    forall k | 0 <= k < i ensures !OccursAt(t, sep, k) {
      if OccursAt(t, sep, k) {
        assert t[k..k + |sep|] == s[k..k + |sep|] by {
          forall m | k <= m < k + |sep| ensures t[m] == s[m] {
            if m >= i {
              assert t[m] == sep[m - i] == s[m];
            }
          }
        }
        assert OccursAt(s, sep, k);
      }
    }
    IndexOfLeftmost(t, sep, i);
  }

  /** The pieces of `s.split(sep)`: the text before the leftmost `sep`,
      then the pieces of the rest. */
  lemma SplitStep(s: string, sep: string, i: nat, rest: seq<string>)
    requires |sep| > 0 && IndexOf(s, sep, 0) == Some(i)
    requires |rest| >= 1 && Join(sep, rest) == s[i + |sep|..]
    requires forall j :: 0 <= j < |rest| ==> !Contains(rest[j], sep)
    requires forall j :: 0 <= j < |rest| - 1 ==> IndexOf(rest[j] + sep, sep, 0) == Some(|rest[j]|)
    ensures var r := [s[..i]] + rest;
      Join(sep, r) == s
      && (forall j :: 0 <= j < |r| ==> !Contains(r[j], sep))
      && forall j :: 0 <= j < |r| - 1 ==> IndexOf(r[j] + sep, sep, 0) == Some(|r[j]|)
  {
    var head := s[..i];
    var r := [head] + rest;
    CutIsLeftmost(s, sep, i);
    assert !Contains(head, sep) by {
      forall k | OccursAt(head, sep, k) ensures false {
        assert s[k..k + |sep|] == head[k..k + |sep|];
        assert OccursAt(s, sep, k);
      }
    }
    assert s == head + sep + s[i + |sep|..] by {
      assert s[i..i + |sep|] == sep;
    }
    assert r[1..] == rest;
    forall j | 0 <= j < |r| ensures !Contains(r[j], sep) {
      if j > 0 { assert r[j] == rest[j - 1]; }
    }
    forall j | 0 <= j < |r| - 1 ensures IndexOf(r[j] + sep, sep, 0) == Some(|r[j]|) {
      if j > 0 { assert r[j] == rest[j - 1]; }
    }
  }

  /** `s.split(sep)`: cut at the leftmost occurrence of `sep`, then at the
      leftmost occurrence in the rest, and so on. Joining the pieces with
      `sep` gives back `s`, and no piece contains `sep`. Python rejects an
      empty separator. */
  function Split(s: string, sep: string): (r: seq<string>)
    requires |sep| > 0
    ensures |r| >= 1
    ensures Join(sep, r) == s
    ensures forall i :: 0 <= i < |r| ==> !Contains(r[i], sep)
    ensures forall i :: 0 <= i < |r| - 1 ==> IndexOf(r[i] + sep, sep, 0) == Some(|r[i]|)
    decreases |s|
  {
    match IndexOf(s, sep, 0)
    case None => [s]
    case Some(i) =>
      var rest := Split(s[i + |sep|..], sep);
      SplitStep(s, sep, i, rest);
      [s[..i]] + rest
  }

  /** Whatever `find` finds occurs in the text. */
  lemma FoundIsContained(s: string, t: string)
    ensures IndexOf(s, t, 0).Some? ==> Contains(s, t)
  {
    if IndexOf(s, t, 0).Some? {
      assert OccursAt(s, t, IndexOf(s, t, 0).value);
    }
  }

  /** An occurrence that is leftmost in a prefix and lies inside it is
      leftmost in the whole text. */
  lemma PrefixIndexOf(p: string, q: string, t: string, i: nat)
    requires IndexOf(p, t, 0) == Some(i)
    ensures IndexOf(p + q, t, 0) == Some(i)
  {
    var s := p + q;
    assert s[i..i + |t|] == p[i..i + |t|];
    forall k | 0 <= k < i ensures !OccursAt(s, t, k) {
      assert !OccursAt(p, t, k);
      assert s[k..k + |t|] == p[k..k + |t|];
    }
    IndexOfLeftmost(s, t, i);
  }

  /** The pieces after the first keep the properties of a split. */
  lemma TailPieces(sep: string, r: seq<string>)
    requires |r| >= 1
    requires forall i :: 0 <= i < |r| ==> !Contains(r[i], sep)
    requires forall i :: 0 <= i < |r| - 1 ==> IndexOf(r[i] + sep, sep, 0) == Some(|r[i]|)
    ensures forall i :: 0 <= i < |r| - 1 ==> !Contains(r[1..][i], sep)
    ensures forall i :: 0 <= i < |r| - 2 ==> IndexOf(r[1..][i] + sep, sep, 0) == Some(|r[1..][i]|)
  {
    forall i | 0 <= i < |r| - 1 ensures !Contains(r[1..][i], sep) {
      assert r[1..][i] == r[i + 1];
    }
    forall i | 0 <= i < |r| - 2 ensures IndexOf(r[1..][i] + sep, sep, 0) == Some(|r[1..][i]|) {
      assert r[1..][i] == r[i + 1];
    }
  }

  /** The contract of `Split` determines its result: any pieces that join
      back to the text, contain no separator, and end each at the leftmost
      occurrence of the separator are the pieces `Split` gives. */
  lemma {:induction false} SplitUnique(s: string, sep: string, r: seq<string>)
    requires |sep| > 0 && |r| >= 1 && Join(sep, r) == s
    requires forall i :: 0 <= i < |r| ==> !Contains(r[i], sep)
    requires forall i :: 0 <= i < |r| - 1 ==> IndexOf(r[i] + sep, sep, 0) == Some(|r[i]|)
    ensures r == Split(s, sep)
    decreases |r|
  {
    if |r| == 1 {
      assert s == r[0];
      FoundIsContained(s, sep);
    } else {
      var rest := r[1..];
      var t := Join(sep, rest);
      assert s == (r[0] + sep) + t;
      PrefixIndexOf(r[0] + sep, t, sep, |r[0]|);
      assert s[..|r[0]|] == r[0] && s[|r[0]| + |sep|..] == t;
      TailPieces(sep, r);
      SplitUnique(t, sep, rest);
      assert Split(s, sep) == [r[0]] + Split(t, sep);
      assert r == [r[0]] + rest;
    }
  }

  /** Python's `a <= b` on strings: lexicographic order of code points, a
      proper prefix coming first. */
  predicate LexLe(a: string, b: string)
    decreases |a|
  {
    a == [] || (b != [] && (a[0] < b[0] || (a[0] == b[0] && LexLe(a[1..], b[1..]))))
  }

  /** Python's `a < b` on strings. */
  predicate LexLt(a: string, b: string) {
    LexLe(a, b) && a != b
  }

  lemma {:induction false} LexLeTotal(a: string, b: string)
    ensures LexLe(a, b) || LexLe(b, a)
    decreases |a|
  {
    if a != [] && b != [] && a[0] == b[0] {
      LexLeTotal(a[1..], b[1..]);
    }
  }

  lemma {:induction false} LexLeTransitive(a: string, b: string, c: string)
    requires LexLe(a, b) && LexLe(b, c)
    ensures LexLe(a, c)
    decreases |a|
  {
    if a != [] && b != [] && c != [] && a[0] == b[0] == c[0] {
      LexLeTransitive(a[1..], b[1..], c[1..]);
    }
  }

  lemma {:induction false} LexLeAntisymmetric(a: string, b: string)
    requires LexLe(a, b) && LexLe(b, a)
    ensures a == b
    decreases |a|
  {
    if a != [] && b != [] {
      LexLeAntisymmetric(a[1..], b[1..]);
      assert a == [a[0]] + a[1..] && b == [b[0]] + b[1..];
    }
  }

  lemma {:induction false} LexLeReflexive(a: string)
    ensures LexLe(a, a)
    decreases |a|
  {
    if a != [] {
      LexLeReflexive(a[1..]);
    }
  }
}
