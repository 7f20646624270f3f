/**
 The frequency counter: `combine`, `get_frequencies` and
 `get_letter_frequencies` (document_distance.py lines 26-91).

 Each builds a fresh dictionary in a loop; Dafny's datatype values are
 immutable, so the inputs are untouched by construction.
 */
module Frequencies {
  import opened Seqs
  import opened PyDict

  /** Key order of `combine(d1, d2)`: the keys of `d1`, then the new keys of `d2`. */
  function CombinedKeys(d1: Dict<int>, d2: Dict<int>): seq<string>
  {
    d1.keys + Missing(d2.keys, d1.keys)
  }

  /** The counts of `combine(d1, d2)`: every key of either, with `d1.get(k, 0) + d2.get(k, 0)`. */
  function Combined(d1: Dict<int>, d2: Dict<int>): map<string, int>
  {
    map k | k in d1.vals.Keys + d2.vals.Keys :: Get(d1.vals, k) + Get(d2.vals, k)
  }

  /**
   `combine(dict1, dict2)`: copy `dict1`, then add in each count of `dict2`.
   The result is a fresh value; the inputs are immutable.
   */
  method Combine(d1: Dict<int>, d2: Dict<int>) returns (r: Dict<int>)
    requires d1.Valid() && d2.Valid()
    ensures r.keys == CombinedKeys(d1, d2)
    ensures r.vals == Combined(d1, d2)
  {
    var copy := Copy(d1);
    var keys, vals := copy.keys, copy.vals;
    for j := 0 to |d2.keys|
      invariant keys == d1.keys + Missing(d2.keys[..j], d1.keys)
      invariant vals == AddedIn(d1.vals, d2.keys[..j], d2.vals)
    {
      var k := d2.keys[j];
      AddedInSnoc(d1.vals, d2.keys, d2.vals, j);
      AddedInFresh(d1.vals, d2.keys, d2.vals, j);
      assert d2.keys[..j + 1] == d2.keys[..j] + [k];
      MissingSnoc(d2.keys[..j], d1.keys, k);
      if k in vals {
        vals := vals[k := vals[k] + d2.vals[k]];
      } else {
        vals := vals[k := d2.vals[k]];
        keys := keys + [k];
      }
    }
    TakeAll(d2.keys);
    AddedInCombined(d1, d2);
    r := Dict(keys, vals);
  }

  /** The first loop of `combine`, `dict[i] = dict1[i]` for each key of `dict1`: it builds a copy. */
  method Copy(d1: Dict<int>) returns (r: Dict<int>)
    requires d1.Valid()
    ensures r == d1
  {
    var keys: seq<string> := [];
    var vals: map<string, int> := map[];
    for i := 0 to |d1.keys|
      invariant keys == d1.keys[..i]
      invariant forall k :: k in vals <==> k in keys
      invariant forall k :: k in vals ==> vals[k] == d1.vals[k]
    {
      var k := d1.keys[i];
      vals := vals[k := d1.vals[k]];
      keys := keys + [k];
      assert keys == d1.keys[..i + 1];
    }
    assert keys == d1.keys;
    assert vals == d1.vals;
    r := Dict(keys, vals);
  }

  /** The counts the second loop of `combine` holds once it has added in the keys `ks` of `m2`. */
  ghost function AddedIn(base: map<string, int>, ks: seq<string>, m2: map<string, int>): map<string, int>
    requires forall k :: k in ks ==> k in m2
  {
    if ks == [] then base
    else
      var acc, k := AddedIn(base, ks[..|ks| - 1], m2), ks[|ks| - 1];
      acc[k := Get(acc, k) + m2[k]]
  }

  /** One step of adding in counts: the next key's count is added to what is there (0 if nothing). */
  lemma AddedInSnoc(base: map<string, int>, ks: seq<string>, m2: map<string, int>, j: nat)
    requires forall k :: k in ks ==> k in m2
    requires j < |ks|
    ensures var acc := AddedIn(base, ks[..j], m2);
      AddedIn(base, ks[..j + 1], m2) == acc[ks[j] := Get(acc, ks[j]) + m2[ks[j]]]
  {
    assert ks[..j + 1][..j] == ks[..j];
  }

  /** Before its own turn, a key of a duplicate-free `ks` is present only if `base` has it. */
  lemma AddedInFresh(base: map<string, int>, ks: seq<string>, m2: map<string, int>, j: nat)
    requires forall k :: k in ks ==> k in m2
    requires Distinct(ks) && j < |ks|
    ensures ks[j] in AddedIn(base, ks[..j], m2) <==> ks[j] in base
  {
    DistinctPrefix(ks, j);
    DistinctTake(ks, j);
    AddedInCounts(base, ks[..j], m2);
  }

  /** After adding in the keys `ks`, each count is the base count plus, for keys of `ks`, the added one. */
  lemma {:induction false} AddedInCounts(base: map<string, int>, ks: seq<string>, m2: map<string, int>)
    requires forall k :: k in ks ==> k in m2
    requires Distinct(ks)
    ensures forall k :: k in AddedIn(base, ks, m2) <==> k in base || k in ks
    ensures forall k :: k in AddedIn(base, ks, m2) ==>
              AddedIn(base, ks, m2)[k] == Get(base, k) + (if k in ks then m2[k] else 0)
  {
    if ks != [] {
      var p, y := ks[..|ks| - 1], ks[|ks| - 1];
      assert ks == p + [y];
      DistinctPrefix(ks, |ks| - 1);
      AddedInCounts(base, p, m2);
    }
  }

  /** Adding all of `dict2`'s counts in to `dict1`'s gives the key-wise sums. */
  lemma AddedInCombined(d1: Dict<int>, d2: Dict<int>)
    requires d1.Valid() && d2.Valid()
    ensures AddedIn(d1.vals, d2.keys, d2.vals) == Combined(d1, d2)
  {
    AddedInCounts(d1.vals, d2.keys, d2.vals);
  }

  /** The combined keys hold each key of either dictionary once. */
  lemma CombinedKeysMembers(d1: Dict<int>, d2: Dict<int>)
    requires d1.Valid() && d2.Valid()
    ensures Distinct(CombinedKeys(d1, d2))
    ensures forall k :: k in CombinedKeys(d1, d2) <==> k in d1.vals || k in d2.vals
  {
    MissingMembers(d2.keys, d1.keys);
    DistinctConcat(d1.keys, Missing(d2.keys, d1.keys));
  }

  /** `combine` builds a well-formed dictionary. */
  lemma CombinedValid(d1: Dict<int>, d2: Dict<int>)
    requires d1.Valid() && d2.Valid()
    ensures Dict(CombinedKeys(d1, d2), Combined(d1, d2)).Valid()
  {
    CombinedKeysMembers(d1, d2);
  }

  /** The counts `combine` builds sum to the sum of both totals. */
  lemma CombinedSum(d1: Dict<int>, d2: Dict<int>)
    requires d1.Valid() && d2.Valid()
    ensures Total(Dict(CombinedKeys(d1, d2), Combined(d1, d2))) == Total(d1) + Total(d2)
  {
    CombinedTotal(d1, d2, Combined(d1, d2));
  }

  /** Counts that are key-wise sums of two dicts' counts sum to the sum of both totals. */
  lemma CombinedTotal(d1: Dict<int>, d2: Dict<int>, m: map<string, int>)
    requires d1.Valid() && d2.Valid()
    requires forall k :: k in CombinedKeys(d1, d2) ==> Get(m, k) == Get(d1.vals, k) + Get(d2.vals, k)
    ensures SumOver(CombinedKeys(d1, d2), m) == Total(d1) + Total(d2)
  {
    var extra := Missing(d2.keys, d1.keys);
    var ks := CombinedKeys(d1, d2);
    MissingMembers(d2.keys, d1.keys);
    DistinctConcat(d1.keys, extra);
    SumOverPointwise(ks, m, d1.vals, d2.vals);
    SumOverAppend(d1.keys, extra, d1.vals);
    SumOverOutside(extra, d1.vals);
    SumOverSameKeys(ks, d2.keys, d2.vals);
  }

  /**
   `combine` is symmetric: swapping the arguments gives the same counts for the
   same keys; only the iteration order of the keys differs.
   */
  lemma CombinedSymmetric(d1: Dict<int>, d2: Dict<int>)
    requires d1.Valid() && d2.Valid()
    ensures Combined(d1, d2) == Combined(d2, d1)
    ensures forall k :: k in CombinedKeys(d1, d2) <==> k in CombinedKeys(d2, d1)
  {
    CombinedKeysMembers(d1, d2);
    CombinedKeysMembers(d2, d1);
  }

  /** `get_frequencies(word_list)`: count each word, keys in first-occurrence order. */
  method GetFrequencies(ws: seq<string>) returns (d: Dict<int>)
    ensures d.Valid()
    ensures d.keys == Dedup(ws)
    ensures forall k :: k in d.vals <==> k in ws
    ensures forall k :: k in d.vals ==> d.vals[k] == Count(ws, k) && d.vals[k] >= 1
    ensures Total(d) == |ws|
  {
    var keys: seq<string> := [];
    var vals: map<string, int> := map[];
    for i := 0 to |ws|
      invariant keys == Dedup(ws[..i])
      invariant forall k :: k in vals <==> k in ws[..i]
      invariant forall k :: k in vals ==> vals[k] == Count(ws[..i], k)
    {
      var w := ws[i];
      assert ws[..i + 1] == ws[..i] + [w];
      DedupSnoc(ws[..i], w);
      if w in vals {
        vals := vals[w := vals[w] + 1];
      } else {
        vals := vals[w := 1];
        keys := keys + [w];
      }
    }
    assert ws[..|ws|] == ws;
    DedupMembers(ws);
    DedupDistinct(ws);
    d := Dict(keys, vals);
    CountsSumToLength(ws, vals);
  }

  /** Counting every distinct word of a list accounts for each of its positions once. */
  lemma {:induction false} CountsSumToLength(ws: seq<string>, m: map<string, int>)
    requires forall k :: k in ws ==> k in m && m[k] == Count(ws, k)
    ensures SumOver(Dedup(ws), m) == |ws|
  {
    if ws != [] {
      var p, x := ws[..|ws| - 1], ws[|ws| - 1];
      assert ws == p + [x];
      var m' := m[x := m[x] - 1];
      var one := map[x := 1];
      CountsSumToLength(p, m');
      DedupSnoc(p, x);
      DedupMembers(p);
      DedupDistinct(p);
      SumOverPointwise(Dedup(p), m, m', one);
      if x in p {
        SumOverSameKeys(Dedup(p), [x], one);
        assert SumOver([x], one) == SumOver([], one) + 1 by {
          assert [x][..0] == [];
        }
      } else {
        SumOverOutside(Dedup(p), one);
        SumOverSnoc(Dedup(p), x, m);
      }
    }
  }

  /** `list(word)`: the characters of `word`, each as a one-character string. */
  function Chars(word: string): (cs: seq<string>)
    ensures |cs| == |word|
  {
    seq(|word|, i requires 0 <= i < |word| => [word[i]])
  }

  /** The characters of a word, counted as strings, are the word's letter counts. */
  lemma {:induction false} CharsCount(word: string)
    ensures forall k :: k in Chars(word) <==> |k| == 1 && k[0] in word
    ensures forall c :: Count(Chars(word), [c]) == multiset(word)[c]
  {
    if word != [] {
      var p, y := word[..|word| - 1], word[|word| - 1];
      assert word == p + [y];
      assert Chars(word) == Chars(p) + [[y]];
      CharsCount(p);
      forall k | |k| == 1 && k[0] in word ensures k in Chars(word) {
        var i :| 0 <= i < |word| && word[i] == k[0];
        assert k == [k[0]];
        assert Chars(word)[i] == k;
      }
    }
  }

  /** `get_letter_frequencies(word)`: `get_frequencies(list(word))`. */
  method GetLetterFrequencies(word: string) returns (d: Dict<int>)
    ensures d.Valid()
    ensures d.keys == Dedup(Chars(word))
    ensures forall k :: k in d.vals <==> |k| == 1 && k[0] in word
    ensures forall c :: [c] in d.vals ==> d.vals[[c]] == multiset(word)[c]
    ensures Total(d) == |word|
  {
    CharsCount(word);
    d := GetFrequencies(Chars(word));
  }
}
