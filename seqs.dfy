/** Keeping the elements of a list that satisfy a test, in order: the
    `if` inside the generators' `for` loops, and the glob's pattern test. */
module Seqs {
  function Filter<T>(s: seq<T>, p: T -> bool): seq<T>
    decreases |s|
  {
    if s == [] then []
    else
      var last := s[|s| - 1];
      Filter(s[..|s| - 1], p) + (if p(last) then [last] else [])
  }

  /** One more element is kept exactly when it passes the test. */
  lemma FilterStep<T>(s: seq<T>, i: nat, p: T -> bool)
    requires i < |s|
    ensures Filter(s[..i + 1], p) == Filter(s[..i], p) + (if p(s[i]) then [s[i]] else [])
  {
    assert s[..i + 1][..i] == s[..i];
  }

  lemma {:induction false} FilterAppend<T>(a: seq<T>, b: seq<T>, p: T -> bool)
    ensures Filter(a + b, p) == Filter(a, p) + Filter(b, p)
    decreases |b|
  {
    if b != [] {
      var init, last := b[..|b| - 1], b[|b| - 1];
      var extra := if p(last) then [last] else [];
      assert (a + b)[..|a + b| - 1] == a + init;
      assert (a + b)[|a + b| - 1] == last;
      FilterAppend(a, init, p);
      assert Filter(a + b, p) == Filter(a + init, p) + extra;
      assert Filter(b, p) == Filter(init, p) + extra;
      assert Filter(a, p) + Filter(init, p) + extra == Filter(a, p) + (Filter(init, p) + extra);
    } else {
      assert a + b == a;
    }
  }

  /** The kept elements are exactly the elements that pass the test. */
  lemma {:induction false} FilterMembers<T>(s: seq<T>, p: T -> bool, x: T)
    ensures x in Filter(s, p) <==> x in s && p(x)
    decreases |s|
  {
    if s != [] {
      var init := s[..|s| - 1];
      FilterMembers(init, p, x);
      assert s == init + [s[|s| - 1]];
    }
  }

  /** Keeping the elements that pass a test preserves their multiplicity. */
  lemma {:induction false} FilterMultiset<T>(s: seq<T>, p: T -> bool, x: T)
    ensures multiset(Filter(s, p))[x] == if p(x) then multiset(s)[x] else 0
    decreases |s|
  {
    if s != [] {
      var init := s[..|s| - 1];
      FilterMultiset(init, p, x);
      assert s == init + [s[|s| - 1]];
    }
  }

  // ---- subsequences: what is left after deleting some elements ----

  /** `a` is `b` with some elements deleted, the rest kept in order. */
  predicate IsSubseq<T(==)>(a: seq<T>, b: seq<T>)
    decreases |b|
  {
    a == [] || (b != [] && ((a[0] == b[0] && IsSubseq(a[1..], b[1..])) || IsSubseq(a, b[1..])))
  }

  lemma {:induction false} SubseqRefl<T>(a: seq<T>)
    ensures IsSubseq(a, a)
    decreases |a|
  {
    if a != [] {
      SubseqRefl(a[1..]);
    }
  }

  /** Elements put in front of the longer sequence can be deleted. */
  lemma {:induction false} SubseqUnderPrefix<T>(a: seq<T>, pre: seq<T>, b: seq<T>)
    requires IsSubseq(a, b)
    ensures IsSubseq(a, pre + b)
    decreases |pre|
  {
    if pre == [] {
      assert pre + b == b;
    } else {
      assert (pre + b)[1..] == pre[1..] + b;
      SubseqUnderPrefix(a, pre[1..], b);
    }
  }

  /** Deleting from two parts separately deletes from their concatenation. */
  lemma {:induction false} SubseqAppend<T>(a1: seq<T>, b1: seq<T>, a2: seq<T>, b2: seq<T>)
    requires IsSubseq(a1, b1) && IsSubseq(a2, b2)
    ensures IsSubseq(a1 + a2, b1 + b2)
    decreases |b1|
  {
    if a1 == [] {
      assert a1 + a2 == a2;
      SubseqUnderPrefix(a2, b1, b2);
    } else {
      assert (b1 + b2)[1..] == b1[1..] + b2;
      if a1[0] == b1[0] && IsSubseq(a1[1..], b1[1..]) {
        SubseqAppend(a1[1..], b1[1..], a2, b2);
        assert (a1 + a2)[1..] == a1[1..] + a2;
      } else {
        SubseqAppend(a1, b1[1..], a2, b2);
      }
    }
  }

  lemma {:induction false} SubseqTransitive<T>(a: seq<T>, b: seq<T>, c: seq<T>)
    requires IsSubseq(a, b) && IsSubseq(b, c)
    ensures IsSubseq(a, c)
    decreases |c|
  {
    if a != [] {
      if b[0] == c[0] && IsSubseq(b[1..], c[1..]) {
        if a[0] == b[0] && IsSubseq(a[1..], b[1..]) {
          SubseqTransitive(a[1..], b[1..], c[1..]);
        } else {
          SubseqTransitive(a, b[1..], c[1..]);
        }
      } else {
        SubseqTransitive(a, b, c[1..]);
      }
    }
  }

  /** A slice is a subsequence of the whole. */
  lemma SubseqSlice<T>(s: seq<T>, i: nat, j: nat)
    requires i <= j <= |s|
    ensures IsSubseq(s[i..j], s)
  {
    var mid, rest := s[i..j], s[j..];
    SubseqRefl(mid);
    SubseqAppend(mid, mid, [], rest);
    assert mid + [] == mid && mid + rest == s[i..];
    SubseqUnderPrefix(mid, s[..i], s[i..]);
    assert s[..i] + s[i..] == s;
  }
}
