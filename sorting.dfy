/** Python's `list.sort(key=...)` and `sorted(...)` on string keys: a stable
    sort. It is specified by three facts (sorted by key, a permutation of the
    input, and for every key the elements with that key keep their order),
    and the last lemma shows those facts describe exactly one arrangement. */
module Sorting {
  import opened Text
  import opened Seqs

  /** Keys ascend (ties allowed). */
  ghost predicate SortedBy<T>(s: seq<T>, key: T -> string) {
    forall i, j :: 0 <= i < j < |s| ==> LexLe(key(s[i]), key(s[j]))
  }

  /** The subsequence of `s` whose key is `k`, in the order of `s`. */
  function WithKey<T>(s: seq<T>, key: T -> string, k: string): seq<T>
    decreases |s|
  {
    if s == [] then []
    else (if key(s[0]) == k then [s[0]] else []) + WithKey(s[1..], key, k)
  }

  lemma WithKeyCons<T>(x: T, s: seq<T>, key: T -> string, k: string)
    ensures WithKey([x] + s, key, k) == (if key(x) == k then [x] else []) + WithKey(s, key, k)
  {
    assert ([x] + s)[0] == x && ([x] + s)[1..] == s;
  }

  /** `WithKey(s, key, k)` holds exactly the elements of `s` whose key is `k`. */
  lemma {:induction false} WithKeyMembers<T>(s: seq<T>, key: T -> string, k: string, x: T)
    ensures x in WithKey(s, key, k) <==> x in s && key(x) == k
    decreases |s|
  {
    if s != [] {
      WithKeyMembers(s[1..], key, k, x);
      assert s == [s[0]] + s[1..];
    }
  }

  /** Insert `x` in front of the first element whose key is not below its own. */
  function Insert<T(==)>(x: T, s: seq<T>, key: T -> string): (r: seq<T>)
    ensures multiset(r) == multiset(s) + multiset{x}
    decreases |s|
  {
    if s == [] then [x]
    else if LexLe(key(x), key(s[0])) then [x] + s
    else
      assert s == [s[0]] + s[1..];
      [s[0]] + Insert(x, s[1..], key)
  }

  lemma {:induction false} InsertSorted<T>(x: T, s: seq<T>, key: T -> string)
    requires SortedBy(s, key)
    ensures SortedBy(Insert(x, s, key), key)
    decreases |s|
  {
    if s == [] {
    } else if LexLe(key(x), key(s[0])) {
      forall j | 0 <= j < |s| ensures LexLe(key(x), key(s[j])) {
        if j > 0 {
          LexLeTransitive(key(x), key(s[0]), key(s[j]));
        }
      }
      ConsSorted(x, s, key);
    } else {
      SortedTail(s, key);
      InsertSorted(x, s[1..], key);
      LexLeTotal(key(x), key(s[0]));
      InsertAbove(x, s, key);
      ConsSorted(s[0], Insert(x, s[1..], key), key);
    }
  }

  /** Everything inserted behind the first element has a key not below it. */
  lemma InsertAbove<T>(x: T, s: seq<T>, key: T -> string)
    requires SortedBy(s, key) && s != [] && LexLe(key(s[0]), key(x))
    ensures forall j :: 0 <= j < |Insert(x, s[1..], key)| ==>
      LexLe(key(s[0]), key(Insert(x, s[1..], key)[j]))
  {
    var tail := Insert(x, s[1..], key);
    forall j | 0 <= j < |tail| ensures LexLe(key(s[0]), key(tail[j])) {
      assert tail[j] in multiset(tail);
      if tail[j] != x {
        assert tail[j] in s[1..];
        FirstKeyLeast(s, key, tail[j]);
      }
    }
  }

  /** An element whose key is not above any key of a sorted list can go in
      front of it. */
  lemma ConsSorted<T>(y: T, t: seq<T>, key: T -> string)
    requires SortedBy(t, key)
    requires forall j :: 0 <= j < |t| ==> LexLe(key(y), key(t[j]))
    ensures SortedBy([y] + t, key)
  {
    var r := [y] + t;
    forall a, b | 0 <= a < b < |r| ensures LexLe(key(r[a]), key(r[b])) {
      assert r[b] == t[b - 1];
      if a > 0 {
        assert r[a] == t[a - 1];
      }
    }
  }

  lemma {:induction false} InsertStable<T>(x: T, s: seq<T>, key: T -> string, k: string)
    ensures WithKey(Insert(x, s, key), key, k) == WithKey([x] + s, key, k)
    decreases |s|
  {
    if s != [] && !LexLe(key(x), key(s[0])) {
      var y, rest := s[0], s[1..];
      var tail := Insert(x, rest, key);
      assert Insert(x, s, key) == [y] + tail;
      assert s == [y] + rest;
      InsertStable(x, rest, key, k);
      LexLeReflexive(key(x));
      var cx := if key(x) == k then [x] else [];
      var cy := if key(y) == k then [y] else [];
      var w := WithKey(rest, key, k);
      WithKeyCons(y, tail, key, k);
      WithKeyCons(x, rest, key, k);
      WithKeyCons(x, s, key, k);
      WithKeyCons(y, rest, key, k);
      SwapFronts(cx, cy, w);
    }
  }

  /** Two fronts of which at most one is non-empty commute. */
  lemma SwapFronts<T>(cx: seq<T>, cy: seq<T>, w: seq<T>)
    requires cx == [] || cy == []
    ensures cy + (cx + w) == cx + (cy + w)
  {
  }

  /** `sorted(s, key=key)`: stable insertion sort. */
  function SortBy<T(==)>(s: seq<T>, key: T -> string): (r: seq<T>)
    ensures multiset(r) == multiset(s)
    ensures |r| == |s|
    decreases |s|
  {
    if s == [] then []
    else
      var rest := SortBy(s[1..], key);
      assert s == [s[0]] + s[1..];
      assert |multiset(rest)| == |rest|;
      var r := Insert(s[0], rest, key);
      assert |multiset(r)| == |r|;
      r
  }

  /** The result of `sorted` is ordered by key. */
  lemma {:induction false} SortBySorted<T>(s: seq<T>, key: T -> string)
    ensures SortedBy(SortBy(s, key), key)
    decreases |s|
  {
    if s != [] {
      SortBySorted(s[1..], key);
      InsertSorted(s[0], SortBy(s[1..], key), key);
    }
  }

  /** `sorted` is stable: for every key, the elements with that key come out
      in the order they went in. */
  lemma {:induction false} SortByStable<T>(s: seq<T>, key: T -> string, k: string)
    ensures WithKey(SortBy(s, key), key, k) == WithKey(s, key, k)
    decreases |s|
  {
    if s != [] {
      SortByStable(s[1..], key, k);
      InsertStable(s[0], SortBy(s[1..], key), key, k);
      WithKeyCons(s[0], SortBy(s[1..], key), key, k);
      WithKeyCons(s[0], s[1..], key, k);
      assert s == [s[0]] + s[1..];
    }
  }

  /** A stable sort has only one possible result: any arrangement that is
      sorted by key and keeps, for every key, the elements with that key in
      the input's order, is `SortBy`'s. */
  lemma {:induction false} StableSortUnique<T>(s: seq<T>, t: seq<T>, key: T -> string)
    requires SortedBy(t, key)
    requires forall k :: WithKey(t, key, k) == WithKey(s, key, k)
    ensures t == SortBy(s, key)
  {
    SortBySorted(s, key);
    forall k ensures WithKey(t, key, k) == WithKey(SortBy(s, key), key, k) {
      SortByStable(s, key, k);
    }
    SortedSameKeysEqual(t, SortBy(s, key), key);
  }

  lemma SortedTail<T>(t: seq<T>, key: T -> string)
    requires SortedBy(t, key) && t != []
    ensures SortedBy(t[1..], key)
  {
    forall a, b | 0 <= a < b < |t| - 1 ensures LexLe(key(t[1..][a]), key(t[1..][b])) {
      assert t[1..][a] == t[a + 1] && t[1..][b] == t[b + 1];
    }
  }

  /** In a sorted sequence no key is below the first one. */
  lemma FirstKeyLeast<T>(t: seq<T>, key: T -> string, x: T)
    requires SortedBy(t, key) && x in t
    ensures LexLe(key(t[0]), key(x))
  {
    var i :| 0 <= i < |t| && t[i] == x;
    if i == 0 {
      LexLeReflexive(key(x));
    }
  }

  lemma ConsCancel<T>(x: T, a: seq<T>, b: seq<T>, key: T -> string, k: string)
    requires WithKey([x] + a, key, k) == WithKey([x] + b, key, k)
    ensures WithKey(a, key, k) == WithKey(b, key, k)
  {
    WithKeyCons(x, a, key, k);
    WithKeyCons(x, b, key, k);
    var c := if key(x) == k then [x] else [];
    var wa, wb := WithKey(a, key, k), WithKey(b, key, k);
    assert c + wa == c + wb;
    assert wa == (c + wa)[|c|..] && wb == (c + wb)[|c|..];
  }

  lemma SameFirstSameTail<T>(t: seq<T>, u: seq<T>, key: T -> string, k: string)
    requires t != [] && u != [] && t[0] == u[0]
    requires WithKey(t, key, k) == WithKey(u, key, k)
    ensures WithKey(t[1..], key, k) == WithKey(u[1..], key, k)
  {
    assert t == [t[0]] + t[1..] && u == [t[0]] + u[1..];
    ConsCancel(t[0], t[1..], u[1..], key, k);
  }

  lemma SameFirst<T>(t: seq<T>, u: seq<T>, key: T -> string)
    requires SortedBy(t, key) && SortedBy(u, key) && t != [] && u != []
    requires WithKey(t, key, key(t[0])) == WithKey(u, key, key(t[0]))
    requires WithKey(t, key, key(u[0])) == WithKey(u, key, key(u[0]))
    ensures t[0] == u[0]
  {
    var kt, ku := key(t[0]), key(u[0]);
    WithKeyMembers(t, key, kt, t[0]);
    WithKeyMembers(u, key, kt, t[0]);
    FirstKeyLeast(u, key, t[0]);
    WithKeyMembers(u, key, ku, u[0]);
    WithKeyMembers(t, key, ku, u[0]);
    FirstKeyLeast(t, key, u[0]);
    LexLeAntisymmetric(kt, ku);
    assert t == [t[0]] + t[1..] && u == [u[0]] + u[1..];
    WithKeyCons(t[0], t[1..], key, kt);
    WithKeyCons(u[0], u[1..], key, kt);
    assert WithKey(t, key, kt)[0] == t[0];
    assert WithKey(u, key, kt)[0] == u[0];
  }

  lemma {:induction false} SortedSameKeysEqual<T>(t: seq<T>, u: seq<T>, key: T -> string)
    requires SortedBy(t, key) && SortedBy(u, key)
    requires forall k :: WithKey(t, key, k) == WithKey(u, key, k)
    ensures t == u
    decreases |t| + |u|
  {
    if t == [] && u == [] {
    } else if t == [] {
      WithKeyMembers(u, key, key(u[0]), u[0]);
      assert false;
    } else if u == [] {
      WithKeyMembers(t, key, key(t[0]), t[0]);
      assert false;
    } else {
      SameFirst(t, u, key);
      forall k ensures WithKey(t[1..], key, k) == WithKey(u[1..], key, k) {
        SameFirstSameTail(t, u, key, k);
      }
      SortedTail(t, key);
      SortedTail(u, key);
      SortedSameKeysEqual(t[1..], u[1..], key);
      assert t == [t[0]] + t[1..] && u == [u[0]] + u[1..];
    }
  }

  /** Keeping some elements of a sorted list leaves it sorted. */
  lemma {:induction false} FilterSorted<T>(s: seq<T>, key: T -> string, p: T -> bool)
    requires SortedBy(s, key)
    ensures SortedBy(Filter(s, p), key)
    decreases |s|
  {
    if s != [] {
      var init, last := s[..|s| - 1], s[|s| - 1];
      assert SortedBy(init, key) by {
        forall i, j | 0 <= i < j < |init| ensures LexLe(key(init[i]), key(init[j])) {
          assert init[i] == s[i] && init[j] == s[j];
        }
      }
      FilterSorted(init, key, p);
      var r := Filter(init, p);
      forall i | 0 <= i < |r| ensures LexLe(key(r[i]), key(last)) {
        FilterMembers(init, p, r[i]);
        var k :| 0 <= k < |init| && init[k] == r[i];
        assert s[k] == r[i];
      }
      var t := r + (if p(last) then [last] else []);
      forall i, j | 0 <= i < j < |t| ensures LexLe(key(t[i]), key(t[j])) {
        if j < |r| {
          assert t[i] == r[i] && t[j] == r[j];
        } else {
          assert t[i] == r[i];
        }
      }
    }
  }
}
