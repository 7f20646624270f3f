/**
 Sequence helpers shared by the frequency counter, the IDF calculator and the
 rankers: occurrence counts, first-occurrence de-duplication (what a Python
 dict's key order or a `if x not in lst: lst.append(x)` loop produces),
 filtering, and the flattening of a corpus into one word stream.
 */
module Seqs {

  /** No element occurs twice. */
  ghost predicate Distinct<T>(s: seq<T>)
  {
    forall i, j :: 0 <= i < j < |s| ==> s[i] != s[j]
  }

  /** Number of occurrences of `w` in `s` (Python's `s.count(w)`). */
  function Count(s: seq<string>, w: string): nat
  {
    multiset(s)[w]
  }

  /** The distinct elements of `s`, each at the position of its first occurrence. */
  function Dedup(s: seq<string>): seq<string>
  {
    if s == [] then []
    else if s[|s| - 1] in s[..|s| - 1] then Dedup(s[..|s| - 1])
    else Dedup(s[..|s| - 1]) + [s[|s| - 1]]
  }

  /** The elements of `s` that do not occur in `excluded`, in their order in `s`. */
  function Missing(s: seq<string>, excluded: seq<string>): seq<string>
  {
    if s == [] then []
    else if s[|s| - 1] in excluded then Missing(s[..|s| - 1], excluded)
    else Missing(s[..|s| - 1], excluded) + [s[|s| - 1]]
  }

  /** The words of all documents, document after document. */
  function Flatten(docs: seq<seq<string>>): seq<string>
  {
    if docs == [] then [] else Flatten(docs[..|docs| - 1]) + docs[|docs| - 1]
  }

  /** Number of documents that contain `w` at least once. */
  function DocCount(docs: seq<seq<string>>, w: string): nat
  {
    if docs == [] then 0
    else DocCount(docs[..|docs| - 1], w) + (if w in docs[|docs| - 1] then 1 else 0)
  }

  /** Index of the first occurrence of `w` in `s`. */
  function FirstIndex(s: seq<string>, w: string): (i: nat)
    requires w in s
    ensures i < |s| && s[i] == w && w !in s[..i]
  {
    if s[0] == w then 0 else 1 + FirstIndex(s[1..], w)
  }

  // ---------------------------------------------------------------------------
  // One-step unfoldings, used by the loops that walk a sequence left to right.

  lemma TakeAll<T>(s: seq<T>)
    ensures s[..|s|] == s
  {
  }

  lemma DedupSnoc(s: seq<string>, x: string)
    ensures Dedup(s + [x]) == if x in s then Dedup(s) else Dedup(s) + [x]
  {
    assert (s + [x])[..|s|] == s;
  }

  lemma MissingSnoc(s: seq<string>, excluded: seq<string>, x: string)
    ensures Missing(s + [x], excluded) ==
            if x in excluded then Missing(s, excluded) else Missing(s, excluded) + [x]
  {
    assert (s + [x])[..|s|] == s;
  }

  lemma FlattenSnoc(docs: seq<seq<string>>, d: seq<string>)
    ensures Flatten(docs + [d]) == Flatten(docs) + d
  {
    assert (docs + [d])[..|docs|] == docs;
  }

  lemma DocCountSnoc(docs: seq<seq<string>>, d: seq<string>, w: string)
    ensures DocCount(docs + [d], w) == DocCount(docs, w) + (if w in d then 1 else 0)
  {
    assert (docs + [d])[..|docs|] == docs;
  }

  // ---------------------------------------------------------------------------
  // Properties

  /** De-duplication keeps exactly the elements of the input. */
  lemma {:induction false} DedupMembers(s: seq<string>)
    ensures forall x :: x in Dedup(s) <==> x in s
  {
    if s != [] {
      var p, y := s[..|s| - 1], s[|s| - 1];
      assert s == p + [y];
      DedupMembers(p);
    }
  }

  /** De-duplication leaves no element twice. */
  lemma {:induction false} DedupDistinct(s: seq<string>)
    ensures Distinct(Dedup(s))
  {
    if s != [] {
      var p, y := s[..|s| - 1], s[|s| - 1];
      assert s == p + [y];
      DedupDistinct(p);
      DedupMembers(p);
    }
  }

  /** The elements of `Dedup(s)` appear in the order of their first occurrence in `s`. */
  lemma {:induction false} DedupFirstOccurrenceOrder(s: seq<string>)
    ensures forall x :: x in Dedup(s) ==> x in s
    ensures forall i, j :: 0 <= i < j < |Dedup(s)| ==>
              FirstIndex(s, Dedup(s)[i]) < FirstIndex(s, Dedup(s)[j])
  {
    DedupMembers(s);
    if s != [] {
      var p, y := s[..|s| - 1], s[|s| - 1];
      assert s == p + [y];
      DedupFirstOccurrenceOrder(p);
      DedupOrderSnoc(p, y);
    }
  }

  /** Appending one element keeps the first-occurrence order of `Dedup`. */
  lemma DedupOrderSnoc(p: seq<string>, y: string)
    requires forall x :: x in Dedup(p) ==> x in p
    requires forall i, j :: 0 <= i < j < |Dedup(p)| ==>
               FirstIndex(p, Dedup(p)[i]) < FirstIndex(p, Dedup(p)[j])
    ensures forall x :: x in Dedup(p + [y]) ==> x in p + [y]
    ensures forall i, j :: 0 <= i < j < |Dedup(p + [y])| ==>
              FirstIndex(p + [y], Dedup(p + [y])[i]) < FirstIndex(p + [y], Dedup(p + [y])[j])
  {
    DedupSnoc(p, y);
    FirstIndexKeep(p, y);
    if y !in p {
      DedupOrderFresh(p, y);
    }
  }

  /** The first occurrences in `p` do not move when an element is appended. */
  lemma FirstIndexKeep(p: seq<string>, y: string)
    ensures forall x :: x in p ==> FirstIndex(p + [y], x) == FirstIndex(p, x)
  {
    forall x | x in p ensures FirstIndex(p + [y], x) == FirstIndex(p, x) {
      FirstIndexPrefix(p, [y], x);
    }
  }

  /** A new element goes to the end of `Dedup`, after every earlier first occurrence. */
  lemma DedupOrderFresh(p: seq<string>, y: string)
    requires y !in p
    requires forall x :: x in Dedup(p) ==> x in p
    requires forall i, j :: 0 <= i < j < |Dedup(p)| ==>
               FirstIndex(p, Dedup(p)[i]) < FirstIndex(p, Dedup(p)[j])
    ensures forall i, j :: 0 <= i < j < |Dedup(p) + [y]| ==>
              FirstIndex(p + [y], (Dedup(p) + [y])[i]) < FirstIndex(p + [y], (Dedup(p) + [y])[j])
  {
    var s, d := p + [y], Dedup(p);
    FirstIndexKeep(p, y);
    assert FirstIndex(s, y) == |p| by {
      assert s[|p|] == y && s[..|p|] == p;
      FirstIndexUnique(s, y, |p|);
    }
    forall i, j | 0 <= i < j < |d + [y]|
      ensures FirstIndex(s, (d + [y])[i]) < FirstIndex(s, (d + [y])[j])
    {
      assert (d + [y])[i] == d[i] && d[i] in p;
      if j < |d| {
        assert (d + [y])[j] == d[j];
      }
    }
  }

  lemma FirstIndexUnique(s: seq<string>, w: string, k: nat)
    requires k < |s| && s[k] == w && w !in s[..k]
    ensures FirstIndex(s, w) == k
  {
    var i := FirstIndex(s, w);
    assert forall j :: 0 <= j < k ==> s[..k][j] == s[j];
    assert forall j :: 0 <= j < i ==> s[..i][j] == s[j];
  }

  lemma FirstIndexPrefix(p: seq<string>, q: seq<string>, w: string)
    requires w in p
    ensures FirstIndex(p + q, w) == FirstIndex(p, w)
  {
    var k := FirstIndex(p, w);
    assert (p + q)[..k] == p[..k];
    FirstIndexUnique(p + q, w, k);
  }

  /** An element of a sequence without duplicates occurs exactly once. */
  lemma {:induction false} DistinctCountsAtMostOne<T>(s: seq<T>, x: T)
    requires Distinct(s)
    ensures multiset(s)[x] <= 1
    ensures x in s ==> multiset(s)[x] == 1
  {
    if s != [] {
      var p, y := s[..|s| - 1], s[|s| - 1];
      assert s == p + [y];
      DistinctCountsAtMostOne(p, x);
      assert forall i :: 0 <= i < |p| ==> p[i] == s[i] && s[i] != y;
    }
  }

  /** Having every element at most once in the multiset is having no duplicates. */
  lemma SingleCountsDistinct<T>(s: seq<T>)
    requires forall x :: multiset(s)[x] <= 1
    ensures Distinct(s)
  {
    forall i, j | 0 <= i < j < |s| ensures s[i] != s[j] {
      assert s == s[..i] + [s[i]] + s[i + 1..j] + [s[j]] + s[j + 1..];
      assert multiset(s)[s[i]] >= 1 + (if s[i] == s[j] then 1 else 0);
    }
  }

  /** A permutation of a sequence without duplicates has no duplicates. */
  lemma DistinctPermutation<T>(s: seq<T>, r: seq<T>)
    requires Distinct(s) && multiset(r) == multiset(s)
    ensures Distinct(r)
  {
    forall x ensures multiset(r)[x] <= 1 {
      DistinctCountsAtMostOne(s, x);
    }
    SingleCountsDistinct(r);
  }

  /** `Missing` of two sequences one after the other. */
  lemma {:induction false} MissingAppend(a: seq<string>, b: seq<string>, excluded: seq<string>)
    ensures Missing(a + b, excluded) == Missing(a, excluded) + Missing(b, excluded)
  {
    if b == [] {
      assert a + b == a;
    } else {
      var p, y := b[..|b| - 1], b[|b| - 1];
      assert b == p + [y];
      assert a + b == (a + p) + [y];
      MissingAppend(a, p, excluded);
      MissingSnoc(a + p, excluded, y);
      MissingSnoc(p, excluded, y);
    }
  }

  /** With nothing excluded, `Missing` keeps everything. */
  lemma {:induction false} MissingNone(s: seq<string>)
    ensures Missing(s, []) == s
  {
    if s != [] {
      assert s == s[..|s| - 1] + [s[|s| - 1]];
      MissingNone(s[..|s| - 1]);
    }
  }

  /** `Missing` keeps the elements of `s` outside `excluded`, without duplicates. */
  lemma {:induction false} MissingMembers(s: seq<string>, excluded: seq<string>)
    requires Distinct(s)
    ensures forall x :: x in Missing(s, excluded) <==> x in s && x !in excluded
    ensures Distinct(Missing(s, excluded))
  {
    if s != [] {
      var p, y := s[..|s| - 1], s[|s| - 1];
      assert s == p + [y];
      MissingMembers(p, excluded);
      assert forall i :: 0 <= i < |p| ==> p[i] == s[i] && s[i] != y;
    }
  }

  /** A word occurs in the flattened corpus exactly when some document holds it. */
  lemma {:induction false} FlattenMembers(docs: seq<seq<string>>, w: string)
    ensures w in Flatten(docs) <==> exists i :: 0 <= i < |docs| && w in docs[i]
  {
    if docs != [] {
      var p, d := docs[..|docs| - 1], docs[|docs| - 1];
      assert docs == p + [d];
      FlattenMembers(p, w);
      if w in Flatten(docs) && w !in d {
        var i :| 0 <= i < |p| && w in p[i];
        assert docs[i] == p[i];
      }
    }
  }

  /** A word of the corpus is held by between 1 and all of the documents. */
  lemma {:induction false} DocCountBounds(docs: seq<seq<string>>, w: string)
    ensures DocCount(docs, w) <= |docs|
    ensures DocCount(docs, w) >= 1 <==> w in Flatten(docs)
  {
    if docs != [] {
      var p, d := docs[..|docs| - 1], docs[|docs| - 1];
      assert docs == p + [d];
      DocCountBounds(p, w);
      FlattenSnoc(p, d);
    }
  }

  /** A word that every document holds is counted for every document. */
  lemma {:induction false} DocCountAll(docs: seq<seq<string>>, w: string)
    requires forall d :: d in docs ==> w in d
    ensures DocCount(docs, w) == |docs|
  {
    if docs != [] {
      var p, d := docs[..|docs| - 1], docs[|docs| - 1];
      assert docs == p + [d];
      assert forall e :: e in p ==> e in docs;
      DocCountAll(p, w);
    }
  }

  /** Two duplicate-free sequences with no common element concatenate without duplicates. */
  lemma DistinctConcat<T>(a: seq<T>, b: seq<T>)
    requires Distinct(a) && Distinct(b)
    requires forall x :: x in b ==> x !in a
    ensures Distinct(a + b)
  {
    forall i, j | 0 <= i < j < |a + b| ensures (a + b)[i] != (a + b)[j] {
      if j >= |a| && i < |a| {
        assert (a + b)[j] == b[j - |a|] && b[j - |a|] in b;
      }
    }
  }

  /** In a sequence without duplicates, no element occurs before its own position. */
  lemma DistinctPrefix<T>(s: seq<T>, j: nat)
    requires Distinct(s) && j < |s|
    ensures s[j] !in s[..j]
  {
    assert forall i :: 0 <= i < j ==> s[..j][i] == s[i];
  }

  /** A prefix of a sequence without duplicates has none. */
  lemma DistinctTake<T>(s: seq<T>, j: nat)
    requires Distinct(s) && j <= |s|
    ensures Distinct(s[..j])
  {
    assert forall i :: 0 <= i < j ==> s[..j][i] == s[i];
  }

  /** Taking one element out of a sequence without duplicates leaves the others, without duplicates. */
  lemma DistinctRemove<T>(s: seq<T>, i: nat)
    requires Distinct(s) && i < |s|
    ensures Distinct(s[..i] + s[i + 1..])
    ensures forall x :: x in s[..i] + s[i + 1..] <==> x in s && x != s[i]
  {
    var q := s[..i] + s[i + 1..];
    assert forall a :: 0 <= a < |q| ==> q[a] == (if a < i then s[a] else s[a + 1]);
    assert s == s[..i] + [s[i]] + s[i + 1..];
  }
}
