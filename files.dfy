/** File names and the generated-file tree the three generators write into
    (the virtual tree that `mkdocs_gen_files.open(path, "w")` writes to). */
module Files {
  import opened Wrappers
  import opened Text

  /** `PurePath(name).stem`: the name without its last suffix; a leading dot
      or a trailing dot does not start a suffix. */
  function Stem(name: string): (r: string)
    ensures |r| <= |name| && r == name[..|r|]
    ensures r != name <==> exists i :: 0 < i < |name| - 1 && name[i] == '.' && LastDot(name, i)
    ensures r != name ==> name[|r|] == '.' && LastDot(name, |r|)
  {
    match LastIndexOf(name, '.')
    case Some(i) => if 0 < i < |name| - 1 then name[..i] else name
    case None => name
  }

  /** No `.` follows index `i` of `name`. */
  predicate LastDot(name: string, i: nat) {
    forall k :: i < k < |name| ==> name[k] != '.'
  }

  /** `name` matches the glob pattern `*` followed by `suffix`. */
  predicate MatchesGlob(name: string, suffix: string) {
    |suffix| <= |name| && name[|name| - |suffix|..] == suffix
  }

  /** A file `base + suffix` whose suffix is a dot and a dot-free extension
      has stem `base`, provided `base` is not empty. */
  lemma StemOfSuffixed(base: string, suffix: string)
    requires |base| > 0 && |suffix| >= 2 && suffix[0] == '.'
    requires forall k :: 1 <= k < |suffix| ==> suffix[k] != '.'
    ensures MatchesGlob(base + suffix, suffix)
    ensures Stem(base + suffix) == base
  {
    var name := base + suffix;
    assert name[|base|] == '.';
    forall k | |base| < k < |name| ensures name[k] != '.' {
      assert name[k] == suffix[k - |base|];
    }
    assert LastIndexOf(name, '.') == Some(|base|);
    assert name[..|base|] == base;
    assert name[|name| - |suffix|..] == suffix;
  }

  /** The text of a generated file: its lines joined by newlines, with a
      final newline. */
  function FileText(lines: seq<string>): string {
    Join("\n", lines) + "\n"
  }

  lemma {:induction false} JoinSnoc(sep: string, parts: seq<string>, last: string)
    requires parts != []
    ensures Join(sep, parts + [last]) == Join(sep, parts) + sep + last
    decreases |parts|
  {
    if |parts| == 1 {
      assert parts + [last] == [parts[0], last];
    } else {
      assert (parts + [last])[1..] == parts[1..] + [last];
      JoinSnoc(sep, parts[1..], last);
    }
  }

  /** Splitting a join on a one-character separator that no part contains
      gives back the parts. */
  lemma {:induction false} SplitJoin(parts: seq<string>, c: char)
    requires parts != []
    requires forall i :: 0 <= i < |parts| ==> c !in parts[i]
    ensures Split(Join([c], parts), [c]) == parts
    decreases |parts|
  {
    var s := Join([c], parts);
    var p := parts[0];
    if |parts| > 1 {
      var rest := Join([c], parts[1..]);
      assert s == p + [c] + rest;
      assert OccursAt(s, [c], |p|) by {
        assert s[|p|..|p| + 1] == [c];
      }
      assert IndexOf(s, [c], 0) == Some(|p|);
      assert s[|p| + 1..] == rest;
      SplitJoin(parts[1..], c);
      assert Split(s, [c]) == [p] + parts[1..];
      assert parts == [p] + parts[1..];
    }
  }

  /** A generated file read back line by line gives the lines that were
      written, then the empty text after the final newline. */
  lemma FileTextLines(lines: seq<string>)
    requires lines != []
    requires forall i :: 0 <= i < |lines| ==> '\n' !in lines[i]
    ensures Split(FileText(lines), "\n") == lines + [""]
  {
    JoinSnoc("\n", lines, "");
    assert FileText(lines) == Join("\n", lines + [""]);
    SplitJoin(lines + [""], '\n');
  }

  /** The tree after writing `(path, text)` pairs in order, each write
      replacing the whole file. */
  function WriteAll(tree: map<string, string>, writes: seq<(string, string)>): map<string, string>
    decreases |writes|
  {
    if writes == [] then tree
    else
      var w := writes[|writes| - 1];
      WriteAll(tree, writes[..|writes| - 1])[w.0 := w.1]
  }

  /** What a sequence of writes leaves in a tree that was empty. */
  function Written(writes: seq<(string, string)>): map<string, string> {
    WriteAll(map[], writes)
  }

  /** Every write overwrites: the tree afterwards is the tree before,
      overridden at each written path by the last text written there. */
  lemma {:induction false} WriteAllOverrides(tree: map<string, string>, writes: seq<(string, string)>)
    ensures WriteAll(tree, writes) == tree + Written(writes)
    decreases |writes|
  {
    if writes != [] {
      var w := writes[|writes| - 1];
      var init := writes[..|writes| - 1];
      WriteAllOverrides(tree, init);
      WriteAllOverrides(map[], init);
      assert (tree + Written(init))[w.0 := w.1] == tree + Written(init)[w.0 := w.1];
    }
  }

  /** Rerunning the same writes on their own result changes nothing. */
  lemma WriteAllIdempotent(tree: map<string, string>, writes: seq<(string, string)>)
    ensures WriteAll(WriteAll(tree, writes), writes) == WriteAll(tree, writes)
  {
    WriteAllOverrides(tree, writes);
    WriteAllOverrides(WriteAll(tree, writes), writes);
    assert tree + Written(writes) + Written(writes) == tree + Written(writes);
  }

  /** The paths of a tree built from nothing are exactly the written paths. */
  lemma {:induction false} WrittenPaths(writes: seq<(string, string)>, p: string)
    ensures p in Written(writes) <==> exists i :: 0 <= i < |writes| && writes[i].0 == p
    decreases |writes|
  {
    if writes != [] {
      var init := writes[..|writes| - 1];
      WrittenPaths(init, p);
      if p in Written(init) {
        var i :| 0 <= i < |init| && init[i].0 == p;
        assert writes[i] == init[i];
      }
      if exists i :: 0 <= i < |writes| && writes[i].0 == p {
        var i :| 0 <= i < |writes| && writes[i].0 == p;
        if i < |init| {
          assert init[i] == writes[i];
        }
      }
    }
  }

  /** A path holds the text of the last write to it. */
  lemma {:induction false} WrittenLast(writes: seq<(string, string)>, i: nat)
    requires i < |writes|
    requires forall j :: i < j < |writes| ==> writes[j].0 != writes[i].0
    ensures writes[i].0 in Written(writes) && Written(writes)[writes[i].0] == writes[i].1
    decreases |writes|
  {
    if i < |writes| - 1 {
      var init := writes[..|writes| - 1];
      assert init[i] == writes[i];
      forall j | i < j < |init| ensures init[j].0 != init[i].0 {
        assert init[j] == writes[j];
      }
      WrittenLast(init, i);
    }
  }

  lemma DisjointOverrides(tree: map<string, string>, a: map<string, string>, b: map<string, string>)
    requires forall p :: p in a ==> p !in b
    ensures tree + a + b == tree + b + a
  {
  }

  lemma WrittenDisjoint(a: seq<(string, string)>, b: seq<(string, string)>)
    requires forall i, j :: 0 <= i < |a| && 0 <= j < |b| ==> a[i].0 != b[j].0
    ensures forall p :: p in Written(a) ==> p !in Written(b)
  {
    forall p | p in Written(a) ensures p !in Written(b) {
      WrittenPaths(a, p);
      WrittenPaths(b, p);
    }
  }

  /** Writes to paths the other list never touches can run in either order. */
  lemma WritesCommute(tree: map<string, string>, a: seq<(string, string)>, b: seq<(string, string)>)
    requires forall i, j :: 0 <= i < |a| && 0 <= j < |b| ==> a[i].0 != b[j].0
    ensures WriteAll(WriteAll(tree, a), b) == WriteAll(WriteAll(tree, b), a)
  {
    WriteAllOverrides(tree, a);
    WriteAllOverrides(tree, b);
    WriteAllOverrides(WriteAll(tree, a), b);
    WriteAllOverrides(WriteAll(tree, b), a);
    WrittenDisjoint(a, b);
    DisjointOverrides(tree, Written(a), Written(b));
  }

  /** The generated-file tree. Each `open(path, "w")` followed by `write`
      replaces the file at `path` with the new text. */
  class OutputTree {
    var files: map<string, string>

    constructor ()
      ensures files == map[]
    {
      files := map[];
    }

    method Write(path: string, text: string)
      modifies this
      ensures files == old(files)[path := text]
    {
      files := files[path := text];
    }
  }
}
