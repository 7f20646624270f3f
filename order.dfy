/**
 Orders and sorts: Python's ordering of `str` values, `sorted(...)` under a
 strict order, and the stable `list.sort(key=lambda x: x[1])` on
 (word, score) pairs.

 Python sorts with Timsort; both sorts here insert each element after every
 element it does not precede. A stable sort has exactly one possible result,
 so the choice of algorithm is not observable.
 */
module Order {
  import opened Seqs

  /** Python's `a < b` on `str`: code point by code point, a proper prefix first. */
  predicate StrLess(a: string, b: string)
  {
    if b == [] then false
    else if a == [] then true
    else if a[0] != b[0] then a[0] < b[0]
    else StrLess(a[1..], b[1..])
  }

  lemma {:induction false} StrLessIrreflexive(a: string)
    ensures !StrLess(a, a)
  {
    if a != [] {
      StrLessIrreflexive(a[1..]);
    }
  }

  lemma {:induction false} StrLessTransitive(a: string, b: string, c: string)
    requires StrLess(a, b) && StrLess(b, c)
    ensures StrLess(a, c)
  {
    if a != [] && a[0] == b[0] && b[0] == c[0] {
      StrLessTransitive(a[1..], b[1..], c[1..]);
    }
  }

  lemma StrLessAsymmetric(a: string, b: string)
    requires StrLess(a, b)
    ensures !StrLess(b, a)
  {
    if StrLess(b, a) {
      StrLessTransitive(a, b, a);
      StrLessIrreflexive(a);
    }
  }

  lemma {:induction false} StrLessTotal(a: string, b: string)
    ensures a == b || StrLess(a, b) || StrLess(b, a)
  {
    if a != [] && b != [] && a[0] == b[0] {
      StrLessTotal(a[1..], b[1..]);
      assert a == [a[0]] + a[1..] && b == [b[0]] + b[1..];
    }
  }

  /** `less` is irreflexive and transitive. */
  ghost predicate StrictOrder<T(!new)>(less: (T, T) -> bool)
  {
    && (forall a :: !less(a, a))
    && (forall a, b, c :: less(a, b) && less(b, c) ==> less(a, c))
  }

  /** No element is placed after one that precedes it. */
  ghost predicate Ordered<T>(s: seq<T>, less: (T, T) -> bool)
  {
    forall i, j :: 0 <= i < j < |s| ==> !less(s[j], s[i])
  }

  /** `sorted(s)` under a strict order `less`. */
  method SortBy<T(!new)>(s: seq<T>, less: (T, T) -> bool) returns (r: seq<T>)
    requires StrictOrder(less)
    ensures Ordered(r, less)
    ensures multiset(r) == multiset(s)
  {
    r := [];
    for n := 0 to |s|
      invariant Ordered(r, less)
      invariant multiset(r) == multiset(s[..n])
    {
      assert s[..n + 1] == s[..n] + [s[n]];
      r := InsertBy(r, s[n], less);
    }
    assert s[..|s|] == s;
  }

  /** One step of `SortBy`: `x` goes after every element it does not precede. */
  method InsertBy<T(!new)>(r: seq<T>, x: T, less: (T, T) -> bool) returns (t: seq<T>)
    requires StrictOrder(less)
    requires Ordered(r, less)
    ensures Ordered(t, less)
    ensures multiset(t) == multiset(r) + multiset{x}
  {
    var p := 0;
    while p < |r| && !less(x, r[p])
      invariant 0 <= p <= |r|
      invariant forall i :: 0 <= i < p ==> !less(x, r[i])
    {
      p := p + 1;
    }
    InsertOrdered(r, p, x, less);
    assert r == r[..p] + r[p..];
    t := r[..p] + [x] + r[p..];
  }

  /** Putting `x` after the elements it does not precede and before one it does keeps the order. */
  lemma InsertOrdered<T(!new)>(r: seq<T>, p: nat, x: T, less: (T, T) -> bool)
    requires StrictOrder(less)
    requires Ordered(r, less) && p <= |r|
    requires forall i :: 0 <= i < p ==> !less(x, r[i])
    requires p < |r| ==> less(x, r[p])
    ensures Ordered(r[..p] + [x] + r[p..], less)
  {
    var t := r[..p] + [x] + r[p..];
    assert forall i :: 0 <= i < |t| ==> t[i] == (if i < p then r[i] else if i == p then x else r[i - 1]);
    forall i, j | 0 <= i < j < |t| ensures !less(t[j], t[i]) {
      if i == p && p + 1 < j {
        assert !less(r[j - 1], r[p]);
      }
    }
  }

  /** `StrLess` is a strict order on strings. */
  lemma StrLessIsStrictOrder()
    ensures StrictOrder(StrLess)
  {
    forall a ensures !StrLess(a, a) {
      StrLessIrreflexive(a);
    }
    forall a, b, c | StrLess(a, b) && StrLess(b, c) ensures StrLess(a, c) {
      StrLessTransitive(a, b, c);
    }
  }

  /** Ascending with no element twice, as `sorted` leaves distinct strings. */
  ghost predicate StrictlySorted(s: seq<string>)
  {
    forall i, j :: 0 <= i < j < |s| ==> StrLess(s[i], s[j])
  }

  /** Distinct strings in `StrLess` order are strictly ascending. */
  lemma OrderedDistinctStrict(s: seq<string>)
    requires Ordered(s, StrLess) && Distinct(s)
    ensures StrictlySorted(s)
  {
    forall i, j | 0 <= i < j < |s| ensures StrLess(s[i], s[j]) {
      StrLessTotal(s[i], s[j]);
    }
  }

  /** The first element of a strictly ascending sequence precedes every other one. */
  lemma StrictlySortedFirst(s: seq<string>, x: string)
    requires StrictlySorted(s) && s != [] && x in s
    ensures x == s[0] || StrLess(s[0], x)
  {
  }

  /** A strictly ascending sequence is determined by its elements. */
  lemma {:induction false} StrictlySortedUnique(a: seq<string>, b: seq<string>)
    requires StrictlySorted(a) && StrictlySorted(b)
    requires forall x :: x in a <==> x in b
    ensures a == b
  {
    SameMembersEmpty(a, b);
    if a != [] {
      StrictlySortedSameFirst(a, b);
      forall x ensures x in a[1..] <==> x in b[1..] {
        StrictlySortedTail(a, x);
        StrictlySortedTail(b, x);
      }
      StrictlySortedUnique(a[1..], b[1..]);
      assert a == [a[0]] + a[1..] && b == [b[0]] + b[1..];
    }
  }

  /** Sequences with the same elements are empty together. */
  lemma SameMembersEmpty(a: seq<string>, b: seq<string>)
    requires forall x :: x in a <==> x in b
    ensures a == [] <==> b == []
  {
    if a != [] {
      assert a[0] in b;
    }
    if b != [] {
      assert b[0] in a;
    }
  }

  /** Two strictly ascending sequences with the same elements start with the same one. */
  lemma StrictlySortedSameFirst(a: seq<string>, b: seq<string>)
    requires StrictlySorted(a) && StrictlySorted(b) && a != [] && b != []
    requires forall x :: x in a <==> x in b
    ensures a[0] == b[0]
  {
    StrictlySortedFirst(a, b[0]);
    StrictlySortedFirst(b, a[0]);
    if a[0] != b[0] {
      StrLessAsymmetric(a[0], b[0]);
    }
  }

  /** Dropping the first element of a strictly ascending sequence drops exactly that element. */
  lemma StrictlySortedTail(s: seq<string>, x: string)
    requires StrictlySorted(s) && s != []
    ensures x in s[1..] <==> x in s && x != s[0]
  {
    StrLessIrreflexive(s[0]);
    assert s == [s[0]] + s[1..];
    assert forall i :: 0 <= i < |s| - 1 ==> s[1..][i] == s[i + 1] && StrLess(s[0], s[i + 1]);
  }

  // ---------------------------------------------------------------------------
  // Stable sort of (word, score) pairs by score

  type Entry = (string, real)

  ghost predicate SortedByScore(s: seq<Entry>)
  {
    forall i, j :: 0 <= i < j < |s| ==> s[i].1 <= s[j].1
  }

  /** The entries of `s` whose score is `v`, in their order in `s`. */
  function WithScore(s: seq<Entry>, v: real): seq<Entry>
  {
    if s == [] then []
    else WithScore(s[..|s| - 1], v) + (if s[|s| - 1].1 == v then [s[|s| - 1]] else [])
  }

  lemma {:induction false} WithScoreAppend(a: seq<Entry>, b: seq<Entry>, v: real)
    ensures WithScore(a + b, v) == WithScore(a, v) + WithScore(b, v)
  {
    if b == [] {
      assert a + b == a;
    } else {
      var p, y := b[..|b| - 1], b[|b| - 1];
      assert b == p + [y];
      assert a + b == (a + p) + [y];
      assert (a + b)[..|a + b| - 1] == a + p;
      WithScoreAppend(a, p, v);
    }
  }

  /** `WithScore` keeps exactly the entries whose score is `v`. */
  lemma {:induction false} WithScoreMembers(s: seq<Entry>, v: real)
    ensures forall e :: e in WithScore(s, v) <==> e in s && e.1 == v
  {
    if s != [] {
      var p, y := s[..|s| - 1], s[|s| - 1];
      assert s == p + [y];
      WithScoreMembers(p, v);
    }
  }

  /** A bucket is no longer than the sequence, and as long only when it is the whole sequence. */
  lemma {:induction false} WithScoreLength(s: seq<Entry>, v: real)
    ensures |WithScore(s, v)| <= |s|
    ensures |WithScore(s, v)| == |s| ==> WithScore(s, v) == s
  {
    if s != [] {
      var p, y := s[..|s| - 1], s[|s| - 1];
      assert s == p + [y];
      WithScoreLength(p, v);
    }
  }

  /** A sequence whose entries all score `v` is its own `v`-bucket. */
  lemma {:induction false} WithScoreAll(s: seq<Entry>, v: real)
    requires forall e :: e in s ==> e.1 == v
    ensures WithScore(s, v) == s
  {
    if s != [] {
      var p, y := s[..|s| - 1], s[|s| - 1];
      assert s == p + [y];
      WithScoreAll(p, v);
    }
  }

  /**
   Inserting `x` after every entry that does not score more than it, and before
   the rest, adds `x` at the end of its own bucket and leaves the others alone.
   */
  lemma InsertKeepsBuckets(r: seq<Entry>, p: nat, x: Entry, v: real)
    requires SortedByScore(r) && p <= |r|
    requires p < |r| ==> x.1 < r[p].1
    ensures WithScore(r[..p] + [x] + r[p..], v) ==
            WithScore(r, v) + (if x.1 == v then [x] else [])
  {
    var a, b := r[..p], r[p..];
    assert r == a + b;
    WithScoreAppend(a, b, v);
    WithScoreAppend(a + [x], b, v);
    WithScoreSnoc(a, x, v);
    if x.1 == v {
      ScoresAfter(r, p, v);
    }
  }

  /** In a sorted sequence, nothing from a position scoring above `v` onwards scores `v`. */
  lemma ScoresAfter(r: seq<Entry>, p: nat, v: real)
    requires SortedByScore(r) && p <= |r|
    requires p < |r| ==> v < r[p].1
    ensures WithScore(r[p..], v) == []
  {
    forall k | 0 <= k < |r| - p ensures r[p..][k].1 != v {
      assert r[p].1 <= r[p + k].1;
    }
    WithScoreNone(r[p..], v);
  }

  lemma WithScoreSnoc(s: seq<Entry>, x: Entry, v: real)
    ensures WithScore(s + [x], v) == WithScore(s, v) + (if x.1 == v then [x] else [])
  {
    assert (s + [x])[..|s|] == s;
  }

  lemma {:induction false} WithScoreNone(s: seq<Entry>, v: real)
    requires forall k :: 0 <= k < |s| ==> s[k].1 != v
    ensures WithScore(s, v) == []
  {
    if s != [] {
      WithScoreNone(s[..|s| - 1], v);
    }
  }

  /** One step of the stable sort: `x` goes after every entry that does not score more. */
  method InsertByScore(r: seq<Entry>, x: Entry) returns (t: seq<Entry>)
    requires SortedByScore(r)
    ensures SortedByScore(t)
    ensures multiset(t) == multiset(r) + multiset{x}
    ensures forall v :: WithScore(t, v) == WithScore(r, v) + (if x.1 == v then [x] else [])
  {
    var p := 0;
    while p < |r| && r[p].1 <= x.1
      invariant 0 <= p <= |r|
      invariant forall i :: 0 <= i < p ==> r[i].1 <= x.1
    {
      p := p + 1;
    }
    assert r == r[..p] + r[p..];
    InsertSortedByScore(r, p, x);
    forall v ensures WithScore(r[..p] + [x] + r[p..], v) == WithScore(r, v) + (if x.1 == v then [x] else []) {
      InsertKeepsBuckets(r, p, x, v);
    }
    t := r[..p] + [x] + r[p..];
  }

  /** `x` placed after the entries scoring at most `x.1` and before the rest keeps the order. */
  lemma InsertSortedByScore(r: seq<Entry>, p: nat, x: Entry)
    requires SortedByScore(r) && p <= |r|
    requires forall i :: 0 <= i < p ==> r[i].1 <= x.1
    requires p < |r| ==> x.1 < r[p].1
    ensures SortedByScore(r[..p] + [x] + r[p..])
  {
    var t := r[..p] + [x] + r[p..];
    assert forall i :: 0 <= i < |t| ==> t[i] == if i < p then r[i] else if i == p then x else r[i - 1];
  }

  /** Python's stable `s.sort(key=lambda x: x[1])`. */
  method SortByScore(s: seq<Entry>) returns (r: seq<Entry>)
    ensures SortedByScore(r)
    ensures multiset(r) == multiset(s)
    ensures forall v :: WithScore(r, v) == WithScore(s, v)
  {
    r := [];
    for n := 0 to |s|
      invariant SortedByScore(r)
      invariant multiset(r) == multiset(s[..n])
      invariant forall v :: WithScore(r, v) == WithScore(s[..n], v)
    {
      assert s[..n + 1] == s[..n] + [s[n]];
      forall v ensures WithScore(s[..n + 1], v) == WithScore(s[..n], v) + (if s[n].1 == v then [s[n]] else []) {
        WithScoreSnoc(s[..n], s[n], v);
      }
      r := InsertByScore(r, s[n]);
    }
    assert s[..|s|] == s;
  }
}
