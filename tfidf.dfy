/**
 Term frequency, inverse document frequency and their product:
 `get_tf`, `get_idf` and `get_tfidf` (document_distance.py lines 146-226),
 on word lists that have already been read and split.

 `math.log10` is a parameter `log10`: the model says where it is applied and
 to what ratio, not how it is computed.
 */
module TfIdf {
  import opened Seqs
  import opened PyDict
  import opened Order
  import opened Frequencies

  // ---------------------------------------------------------------------------
  // TF

  /** A count divided by the number of words, Python's true division. */
  function Ratio(count: int, total: int): real
    requires total != 0
  {
    count as real / total as real
  }

  /** TF(w): the occurrences of `w` over the number of words. */
  ghost function TfMap(ws: seq<string>): map<string, real>
  {
    map w | w in ws :: Ratio(Count(ws, w), |ws|)
  }

  /**
   `get_tf` after the file is read: count the words, then divide each count by
   `len(word_list)`. An empty list gives `{}`; the division is never reached.
   */
  method GetTf(ws: seq<string>) returns (tf: Dict<real>)
    ensures tf.Valid()
    ensures tf.keys == Dedup(ws)
    ensures tf.vals == TfMap(ws)
    ensures ws == [] ==> tf.keys == [] && tf.vals == map[]
  {
    var freq := GetFrequencies(ws);
    tf := DivideCounts(freq, |ws|);
    assert forall k :: k in tf.vals <==> k in ws;
  }

  /** The loop of `get_tf`: each count divided by the number of words, keys in the same order. */
  method DivideCounts(freq: Dict<int>, n: int) returns (r: Dict<real>)
    requires freq.Valid()
    requires freq.keys != [] ==> n != 0
    ensures r.Valid()
    ensures r.keys == freq.keys
    ensures forall k :: k in r.vals <==> k in freq.vals
    ensures forall k :: k in r.vals ==> r.vals[k] == Ratio(freq.vals[k], n)
  {
    var keys: seq<string> := [];
    var vals: map<string, real> := map[];
    for i := 0 to |freq.keys|
      invariant keys == freq.keys[..i]
      invariant forall k :: k in vals <==> k in keys
      invariant forall k :: k in vals ==> k in freq.vals && vals[k] == Ratio(freq.vals[k], n)
    {
      var word := freq.keys[i];
      vals := vals[word := Ratio(freq.vals[word], n)];
      keys := keys + [word];
      assert keys == freq.keys[..i + 1];
    }
    assert keys == freq.keys;
    r := Dict(keys, vals);
  }

  /** Every TF lies in (0, 1]. */
  lemma TfBounds(ws: seq<string>, w: string)
    requires w in ws
    ensures 0.0 < TfMap(ws)[w] <= 1.0
  {
    CountBounds(ws, w);
  }

  /** A word occurs at least once if at all, and at most once per position. */
  lemma {:induction false} CountBounds(ws: seq<string>, w: string)
    ensures Count(ws, w) <= |ws|
    ensures w in ws ==> Count(ws, w) >= 1
  {
    if ws != [] {
      var p, y := ws[..|ws| - 1], ws[|ws| - 1];
      assert ws == p + [y];
      CountBounds(p, w);
    }
  }

  /** The TFs of a non-empty word list sum to 1. */
  lemma TfSumsToOne(ws: seq<string>)
    requires ws != []
    ensures SumOverReal(Dedup(ws), TfMap(ws)) == 1.0
  {
    var counts := map w | w in ws :: Count(ws, w) as int;
    CountsSumToLength(ws, counts);
    TfScaledCounts(ws, counts);
    SumOverScaled(Dedup(ws), counts, TfMap(ws), |ws|);
    SelfRatio(|ws|);
  }

  /** Each TF is the word's count scaled by the length of the list. */
  lemma TfScaledCounts(ws: seq<string>, counts: map<string, int>)
    requires forall k :: k in ws ==> k in counts && counts[k] == Count(ws, k)
    ensures forall k :: k in Dedup(ws) ==> k in TfMap(ws) && TfMap(ws)[k] == Get(counts, k) as real / |ws| as real
  {
    DedupMembers(ws);
  }

  // ---------------------------------------------------------------------------
  // IDF

  /**
   The first loop of `get_idf` on the word lists: `big_list`, every word of
   every document once, in order of first occurrence.
   */
  method UniqueWords(docs: seq<seq<string>>) returns (big: seq<string>)
    ensures big == Dedup(Flatten(docs))
  {
    big := [];
    for i := 0 to |docs|
      invariant big == Dedup(Flatten(docs[..i]))
    {
      var doc := docs[i];
      assert Flatten(docs[..i]) + doc[..0] == Flatten(docs[..i]);
      for j := 0 to |doc|
        invariant big == Dedup(Flatten(docs[..i]) + doc[..j])
      {
        assert Flatten(docs[..i]) + doc[..j + 1] == (Flatten(docs[..i]) + doc[..j]) + [doc[j]];
        DedupSnoc(Flatten(docs[..i]) + doc[..j], doc[j]);
        if doc[j] !in big {
          DedupMembers(Flatten(docs[..i]) + doc[..j]);
          big := big + [doc[j]];
        } else {
          DedupMembers(Flatten(docs[..i]) + doc[..j]);
        }
      }
      assert docs[..i + 1] == docs[..i] + [doc];
      assert doc[..|doc|] == doc;
      FlattenSnoc(docs[..i], doc);
    }
    TakeAll(docs);
  }

  /** The inner loop of `get_idf`: `word_counter`, the number of documents holding `w`. */
  method DocumentCount(docs: seq<seq<string>>, w: string) returns (counter: nat)
    ensures counter == DocCount(docs, w)
  {
    counter := 0;
    for i := 0 to |docs|
      invariant counter == DocCount(docs[..i], w)
    {
      assert docs[..i + 1] == docs[..i] + [docs[i]];
      DocCountSnoc(docs[..i], docs[i], w);
      if w in docs[i] {
        counter := counter + 1;
      }
    }
    TakeAll(docs);
  }

  /** IDF(w): `log10` of the number of documents over the number holding `w`. */
  ghost function IdfMap(docs: seq<seq<string>>, log10: real -> real): map<string, real>
  {
    map w | w in Flatten(docs) ::
      DocCountBounds(docs, w);
      log10(|docs| as real / DocCount(docs, w) as real)
  }

  /** `get_idf` after the files are read: one IDF per word of the corpus. No documents give `{}`. */
  method GetIdf(docs: seq<seq<string>>, log10: real -> real) returns (idf: Dict<real>)
    ensures idf.Valid()
    ensures idf.keys == Dedup(Flatten(docs))
    ensures idf.vals == IdfMap(docs, log10)
    ensures docs == [] ==> idf.keys == [] && idf.vals == map[]
  {
    var big := UniqueWords(docs);
    DedupMembers(Flatten(docs));
    DedupDistinct(Flatten(docs));
    var keys: seq<string> := [];
    var vals: map<string, real> := map[];
    for i := 0 to |big|
      invariant keys == big[..i]
      invariant forall k :: k in vals <==> k in keys
      invariant forall k :: k in vals ==> k in IdfMap(docs, log10) && vals[k] == IdfMap(docs, log10)[k]
    {
      var word := big[i];
      var counter := DocumentCount(docs, word);
      DocCountBounds(docs, word);
      vals := vals[word := log10(|docs| as real / counter as real)];
      keys := keys + [word];
      assert keys == big[..i + 1];
    }
    assert keys == big;
    idf := Dict(keys, vals);
  }

  /** A word held by every document has IDF `log10(1)`, which is 0 for the real `log10`. */
  lemma IdfEveryDocument(docs: seq<seq<string>>, log10: real -> real, w: string)
    requires docs != []
    requires forall d :: d in docs ==> w in d
    ensures w in IdfMap(docs, log10)
    ensures IdfMap(docs, log10)[w] == log10(1.0)
    ensures log10(1.0) == 0.0 ==> IdfMap(docs, log10)[w] == 0.0
  {
    DocCountAll(docs, w);
    assert w in docs[0];
    FlattenMembers(docs, w);
    SelfRatio(|docs|);
  }

  // ---------------------------------------------------------------------------
  // TF-IDF

  /** `m[k]`, or 0.0 for a key `m` lacks (never the case where it is used). */
  function Lookup(m: map<string, real>, k: string): real
  {
    if k in m then m[k] else 0.0
  }

  /** TF-IDF(i) = TF(i) * IDF(i) */
  function TfIdfScore(tfValue: real, idfValue: real): real
  {
    tfValue * idfValue
  }

  /** The (word, TF * IDF) pairs for the words `ks`, in order. */
  function Entries(ks: seq<string>, tf: map<string, real>, idf: map<string, real>): seq<Entry>
  {
    if ks == [] then []
    else
      var k := ks[|ks| - 1];
      Entries(ks[..|ks| - 1], tf, idf) + [(k, TfIdfScore(Lookup(tf, k), Lookup(idf, k)))]
  }

  lemma EntriesTake(ks: seq<string>, tf: map<string, real>, idf: map<string, real>, i: nat)
    requires i < |ks|
    ensures Entries(ks[..i + 1], tf, idf) == Entries(ks[..i], tf, idf) + [(ks[i], TfIdfScore(Lookup(tf, ks[i]), Lookup(idf, ks[i])))]
  {
    assert ks[..i + 1][..i] == ks[..i];
  }

  /** There is one entry per word, holding that word. */
  lemma {:induction false} EntriesWords(ks: seq<string>, tf: map<string, real>, idf: map<string, real>)
    ensures |Entries(ks, tf, idf)| == |ks|
    ensures forall i :: 0 <= i < |ks| ==> Entries(ks, tf, idf)[i].0 == ks[i]
  {
    if ks != [] {
      var p := ks[..|ks| - 1];
      EntriesWords(p, tf, idf);
      assert forall i :: 0 <= i < |p| ==> p[i] == ks[i];
    }
  }

  /** Words without duplicates give entries without duplicates. */
  lemma EntriesDistinct(ks: seq<string>, tf: map<string, real>, idf: map<string, real>)
    requires Distinct(ks)
    ensures Distinct(Entries(ks, tf, idf))
  {
    EntriesWords(ks, tf, idf);
  }

  /** When the words before `ks[i]` all occur in `excluded` and `ks[i]` does not, it is the first missing word. */
  lemma FirstMissing(ks: seq<string>, i: nat, excluded: seq<string>)
    requires i < |ks|
    requires Missing(ks[..i], excluded) == [] && ks[i] !in excluded
    ensures Missing(ks, excluded) != [] && Missing(ks, excluded)[0] == ks[i]
  {
    assert ks == ks[..i + 1] + ks[i + 1..];
    assert ks[..i + 1] == ks[..i] + [ks[i]];
    MissingSnoc(ks[..i], excluded, ks[i]);
    MissingAppend(ks[..i + 1], ks[i + 1..], excluded);
  }

  /**
   The loop of `get_tfidf`: one (word, TF * IDF) pair per key of `tf_dict`, in
   its order; `idf_dict[word]` raises `KeyError` for the first word it lacks.
   */
  method TfidfList(tf: Dict<real>, idf: Dict<real>) returns (r: Result<seq<Entry>>)
    requires tf.Valid() && idf.Valid()
    ensures r.Failure? <==> Missing(tf.keys, idf.keys) != []
    ensures r.Failure? ==> r.error == KeyError(Missing(tf.keys, idf.keys)[0])
    ensures r.Success? ==> forall k :: k in tf.keys ==> k in idf.vals
    ensures r.Success? ==> r.value == Entries(tf.keys, tf.vals, idf.vals)
  {
    var list: seq<Entry> := [];
    for i := 0 to |tf.keys|
      invariant Missing(tf.keys[..i], idf.keys) == []
      invariant forall k :: k in tf.keys[..i] ==> k in idf.vals
      invariant list == Entries(tf.keys[..i], tf.vals, idf.vals)
    {
      var word := tf.keys[i];
      if word !in idf.vals {
        FirstMissing(tf.keys, i, idf.keys);
        return Failure(KeyError(word));
      }
      assert tf.keys[..i + 1] == tf.keys[..i] + [word];
      MissingSnoc(tf.keys[..i], idf.keys, word);
      EntriesTake(tf.keys, tf.vals, idf.vals, i);
      assert Lookup(tf.vals, word) == tf.vals[word] && Lookup(idf.vals, word) == idf.vals[word];
      list := list + [(word, TfIdfScore(tf.vals[word], idf.vals[word]))];
    }
    TakeAll(tf.keys);
    r := Success(list);
  }

  /**
   `get_tfidf` after the files are read. Line 223, `tfidf_list.sort`, names the
   method without calling it, so the only sort is the stable one by score:
   words with equal scores stay in their order in the target text.
   */
  method GetTfidf(target: seq<string>, docs: seq<seq<string>>, log10: real -> real)
    returns (r: Result<seq<Entry>>)
    ensures r.Failure? <==> Missing(Dedup(target), Flatten(docs)) != []
    ensures r.Failure? ==> r.error == KeyError(Missing(Dedup(target), Flatten(docs))[0])
    ensures r.Success? ==> forall k :: k in target ==> k in IdfMap(docs, log10)
    ensures r.Success? ==> SortedByScore(r.value)
    ensures r.Success? ==>
              multiset(r.value) == multiset(Entries(Dedup(target), TfMap(target), IdfMap(docs, log10)))
    ensures r.Success? ==> forall v ::
              WithScore(r.value, v) == WithScore(Entries(Dedup(target), TfMap(target), IdfMap(docs, log10)), v)
  {
    var tf := GetTf(target);
    var idf := GetIdf(docs, log10);
    MissingSameMembers(tf.keys, idf.keys, Flatten(docs));
    DedupMembers(target);
    var list := TfidfList(tf, idf);
    if list.Failure? {
      return list;
    }
    var sorted := SortByScore(list.value);
    r := Success(sorted);
  }

  /** Which words count as missing depends only on the members of the excluded sequence. */
  lemma {:induction false} MissingSameMembers(s: seq<string>, e1: seq<string>, e2: seq<string>)
    requires forall x :: x in e1 <==> x in e2
    ensures Missing(s, e1) == Missing(s, e2)
  {
    if s != [] {
      MissingSameMembers(s[..|s| - 1], e1, e2);
    }
  }

  /** `get_tfidf` raises exactly when some word of the target occurs in no document. */
  lemma TfidfFailsIff(target: seq<string>, docs: seq<seq<string>>)
    ensures Missing(Dedup(target), Flatten(docs)) != [] <==>
            exists w :: w in target && w !in Flatten(docs)
  {
    DedupMembers(target);
    DedupDistinct(target);
    MissingMembers(Dedup(target), Flatten(docs));
    if Missing(Dedup(target), Flatten(docs)) != [] {
      assert Missing(Dedup(target), Flatten(docs))[0] in Missing(Dedup(target), Flatten(docs));
    }
  }

  /** A stable sort by score of entries that all score `v` changes nothing. */
  lemma SameScoreKeepsOrder(r: seq<Entry>, e: seq<Entry>, v: real)
    requires forall i :: 0 <= i < |e| ==> e[i].1 == v
    requires multiset(r) == multiset(e)
    requires WithScore(r, v) == WithScore(e, v)
    ensures r == e
  {
    WithScoreAll(e, v);
    assert |r| == |multiset(r)| == |e|;
    WithScoreLength(r, v);
  }

  /** The score of both words in the tie example: TF 1/2 times IDF `log10(1/1)`. */
  function TieScore(log10: real -> real): real
  {
    0.5 * log10(1.0)
  }

  /**
   The entry list `get_tfidf` builds for the target `x y` against the one
   document `x y`: both words score `0.5 * log10(1)`, `x` first.
   */
  lemma TiePairEntries(x: string, y: string, log10: real -> real)
    requires x != y
    ensures Missing(Dedup([x, y]), Flatten([[x, y]])) == []
    ensures Entries(Dedup([x, y]), TfMap([x, y]), IdfMap([[x, y]], log10))
            == [(x, TieScore(log10)), (y, TieScore(log10))]
  {
    var t := [x, y];
    var tf, idf := TfMap(t), IdfMap([t], log10);
    TiePairLists(x, y);
    TiePairTf(x, y);
    TiePairIdf(x, y, log10);
    EntriesPair(x, y, tf, idf);
    assert TfIdfScore(Lookup(tf, x), Lookup(idf, x)) == TieScore(log10);
    assert TfIdfScore(Lookup(tf, y), Lookup(idf, y)) == TieScore(log10);
  }

  /** The entries of two words, in order. */
  lemma EntriesPair(x: string, y: string, tf: map<string, real>, idf: map<string, real>)
    ensures Entries([x, y], tf, idf) ==
            [(x, TfIdfScore(Lookup(tf, x), Lookup(idf, x))), (y, TfIdfScore(Lookup(tf, y), Lookup(idf, y)))]
  {
    var t := [x, y];
    assert t[..0] == [] && t[..1] == [x] && t[..2] == t;
    EntriesTake(t, tf, idf, 0);
    EntriesTake(t, tf, idf, 1);
  }

  /** The two-word target has no duplicates, and the one document holds both words. */
  lemma TiePairLists(x: string, y: string)
    requires x != y
    ensures Dedup([x, y]) == [x, y]
    ensures Flatten([[x, y]]) == [x, y]
    ensures Missing([x, y], [x, y]) == []
  {
    var t := [x, y];
    var docs: seq<seq<string>> := [t];
    assert t[..1] == [x] && [x][..0] == [] && docs[..0] == [];
    assert Dedup([x]) == [x];
    assert Missing([x], t) == [];
  }

  /** In the two-word target each word has TF 1/2. */
  lemma TiePairTf(x: string, y: string)
    requires x != y
    ensures Lookup(TfMap([x, y]), x) == 0.5 && Lookup(TfMap([x, y]), y) == 0.5
  {
    var t := [x, y];
    assert multiset(t) == multiset{x, y};
    assert Count(t, x) == 1 && Count(t, y) == 1;
  }

  /** In the one-document corpus each of its words has IDF `log10(1/1)`. */
  lemma TiePairIdf(x: string, y: string, log10: real -> real)
    requires x != y
    ensures Lookup(IdfMap([[x, y]], log10), x) == log10(1.0)
    ensures Lookup(IdfMap([[x, y]], log10), y) == log10(1.0)
  {
    var docs: seq<seq<string>> := [[x, y]];
    assert docs[..0] == [];
    assert DocCount(docs, x) == 1 && DocCount(docs, y) == 1;
    TiePairLists(x, y);
  }

  /**
   The target `x y` against the one document `x y`, with `y` before `x` in
   word order: both words score `0.5 * log10(1)`, and `x` stays ahead of `y`.
   */
  method TieOrderCounterexample(x: string, y: string, log10: real -> real) returns (r: Result<seq<Entry>>)
    requires StrLess(y, x)
    ensures r == Success([(x, TieScore(log10)), (y, TieScore(log10))])
    ensures !ScoreThenWord(r.value[0], r.value[1])
  {
    StrLessIrreflexive(x);
    StrLessAsymmetric(y, x);
    var target := [x, y];
    var docs: seq<seq<string>> := [target];
    var e := [(x, TieScore(log10)), (y, TieScore(log10))];
    TiePairEntries(x, y, log10);
    r := GetTfidf(target, docs, log10);
    assert r.Success?;
    assert multiset(r.value) == multiset(e);
    assert WithScore(r.value, TieScore(log10)) == WithScore(e, TieScore(log10));
    SameScoreKeepsOrder(r.value, e, TieScore(log10));
  }

  // ---------------------------------------------------------------------------
  // The evidently intended order: by score, ties by word

  /** Ordering by score, then by word: what sorting by word and then stably by score gives. */
  predicate ScoreThenWord(a: Entry, b: Entry)
  {
    a.1 < b.1 || (a.1 == b.1 && StrLess(a.0, b.0))
  }

  lemma ScoreThenWordIsStrictOrder()
    ensures StrictOrder(ScoreThenWord)
  {
    StrLessIsStrictOrder();
  }

  /**
   `get_tfidf` with line 223 calling `tfidf_list.sort()` as its comment intends:
   the list ends up ordered by score, and words with equal scores alphabetically.
   */
  method GetTfidfIntended(target: seq<string>, docs: seq<seq<string>>, log10: real -> real)
    returns (r: Result<seq<Entry>>)
    ensures r.Failure? <==> Missing(Dedup(target), Flatten(docs)) != []
    ensures r.Failure? ==> r.error == KeyError(Missing(Dedup(target), Flatten(docs))[0])
    ensures r.Success? ==> forall k :: k in target ==> k in IdfMap(docs, log10)
    ensures r.Success? ==>
              multiset(r.value) == multiset(Entries(Dedup(target), TfMap(target), IdfMap(docs, log10)))
    ensures r.Success? ==> forall i, j :: 0 <= i < j < |r.value| ==> ScoreThenWord(r.value[i], r.value[j])
  {
    var tf := GetTf(target);
    var idf := GetIdf(docs, log10);
    MissingSameMembers(tf.keys, idf.keys, Flatten(docs));
    DedupMembers(target);
    var list := TfidfList(tf, idf);
    if list.Failure? {
      return list;
    }
    DedupDistinct(target);
    EntriesDistinct(tf.keys, tf.vals, idf.vals);
    ScoreThenWordIsStrictOrder();
    var sorted := SortBy(list.value, ScoreThenWord);
    DistinctPermutation(list.value, sorted);
    forall i, j | 0 <= i < j < |sorted| ensures ScoreThenWord(sorted[i], sorted[j]) {
      StrLessTotal(sorted[i].0, sorted[j].0);
    }
    r := Success(sorted);
  }
}
