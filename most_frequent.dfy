/**
 `get_most_frequent_words` (document_distance.py lines 123-141): every word
 whose combined count is the largest, in ascending order.
 */
module MostFrequent {
  import opened Seqs
  import opened PyDict
  import opened Order
  import opened Frequencies

  /** `w` has the largest combined count of the two dictionaries. */
  ghost predicate IsMostFrequent(d1: Dict<int>, d2: Dict<int>, w: string)
  {
    var c := Combined(d1, d2);
    w in c && forall k :: k in c ==> c[k] <= c[w]
  }

  /** Python's `max(d.values())`, which raises `ValueError` on an empty dictionary. */
  method MaxValue(d: Dict<int>) returns (r: Result<int>)
    requires d.Valid()
    ensures r.Failure? <==> d.keys == []
    ensures r.Failure? ==> r.error == ValueError
    ensures r.Success? ==> r.value in d.vals.Values
    ensures r.Success? ==> forall k :: k in d.vals ==> d.vals[k] <= r.value
  {
    if |d.keys| == 0 {
      return Failure(ValueError);
    }
    var m := d.vals[d.keys[0]];
    for i := 1 to |d.keys|
      invariant m in d.vals.Values
      invariant forall j :: 0 <= j < i ==> d.vals[d.keys[j]] <= m
    {
      if d.vals[d.keys[i]] > m {
        m := d.vals[d.keys[i]];
      }
    }
    assert forall k :: k in d.vals ==> exists j :: 0 <= j < |d.keys| && d.keys[j] == k;
    r := Success(m);
  }

  /** The keys of `ks` whose count in `m` is `v`, in their order in `ks`. */
  function KeysWith(ks: seq<string>, m: map<string, int>, v: int): seq<string>
  {
    if ks == [] then []
    else KeysWith(ks[..|ks| - 1], m, v) + (if Get(m, ks[|ks| - 1]) == v then [ks[|ks| - 1]] else [])
  }

  lemma KeysWithTake(ks: seq<string>, m: map<string, int>, v: int, i: nat)
    requires i < |ks|
    ensures KeysWith(ks[..i + 1], m, v) == KeysWith(ks[..i], m, v) + (if Get(m, ks[i]) == v then [ks[i]] else [])
  {
    assert ks[..i + 1][..i] == ks[..i];
  }

  /** `KeysWith` keeps exactly the keys with count `v`, each once. */
  lemma {:induction false} KeysWithMembers(ks: seq<string>, m: map<string, int>, v: int)
    requires Distinct(ks)
    ensures forall w :: w in KeysWith(ks, m, v) <==> w in ks && Get(m, w) == v
    ensures Distinct(KeysWith(ks, m, v))
  {
    if ks != [] {
      var p, y := ks[..|ks| - 1], ks[|ks| - 1];
      assert ks == p + [y];
      DistinctTake(ks, |ks| - 1);
      DistinctPrefix(ks, |ks| - 1);
      KeysWithMembers(p, m, v);
      if Get(m, y) == v {
        DistinctConcat(KeysWith(p, m, v), [y]);
      }
    }
  }

  /** With the maximum count `mx`, the most frequent words are those counted `mx` times. */
  lemma MostFrequentAtMax(d1: Dict<int>, d2: Dict<int>, mx: int)
    requires mx in Combined(d1, d2).Values
    requires forall k :: k in Combined(d1, d2) ==> Combined(d1, d2)[k] <= mx
    ensures forall w :: IsMostFrequent(d1, d2, w) <==> w in Combined(d1, d2) && Combined(d1, d2)[w] == mx
  {
    var c := Combined(d1, d2);
    var k0 :| k0 in c && c[k0] == mx;
    forall w | IsMostFrequent(d1, d2, w) ensures c[w] == mx {
      assert c[k0] <= c[w];
    }
  }

  /** The combined dictionary is empty exactly when both inputs are. */
  lemma CombinedEmpty(d1: Dict<int>, d2: Dict<int>)
    requires d1.Valid() && d2.Valid()
    ensures CombinedKeys(d1, d2) == [] <==> d1.keys == [] && d2.keys == []
  {
    CombinedKeysMembers(d1, d2);
    if d2.keys != [] {
      assert d2.keys[0] in CombinedKeys(d1, d2);
    }
    if d1.keys == [] {
      assert Missing(d2.keys, d1.keys) == d2.keys by {
        MissingNone(d2.keys);
      }
    }
  }

  /**
   `get_most_frequent_words(dict1, dict2)`: the words whose combined count equals
   `max` of the combined counts, sorted. Two empty dictionaries make `max` raise.
   */
  method GetMostFrequentWords(d1: Dict<int>, d2: Dict<int>) returns (r: Result<seq<string>>)
    requires d1.Valid() && d2.Valid()
    ensures r.Failure? <==> d1.keys == [] && d2.keys == []
    ensures r.Failure? ==> r.error == ValueError
    ensures r.Success? ==> StrictlySorted(r.value)
    ensures r.Success? ==> forall w :: w in r.value <==> IsMostFrequent(d1, d2, w)
  {
    var combined := Combine(d1, d2);
    CombinedValid(d1, d2);
    CombinedEmpty(d1, d2);
    var maxFreq := MaxValue(combined);
    if maxFreq.Failure? {
      return Failure(maxFreq.error);
    }
    var mx := maxFreq.value;
    var most: seq<string> := [];
    for i := 0 to |combined.keys|
      invariant most == KeysWith(combined.keys[..i], combined.vals, mx)
    {
      KeysWithTake(combined.keys, combined.vals, mx, i);
      if combined.vals[combined.keys[i]] == mx {
        most := most + [combined.keys[i]];
      }
    }
    TakeAll(combined.keys);
    KeysWithMembers(combined.keys, combined.vals, mx);
    MostFrequentAtMax(d1, d2, mx);
    StrLessIsStrictOrder();
    var sorted := SortBy(most, StrLess);
    DistinctPermutation(most, sorted);
    OrderedDistinctStrict(sorted);
    assert forall w :: w in sorted <==> w in most by {
      assert forall w :: w in sorted <==> w in multiset(sorted);
    }
    r := Success(sorted);
  }

  /**
   The example of `{"hello": 5, "world": 1}` and `{"hello": 1, "world": 5}`:
   both words have combined count 6, so both are returned, in order.
   */
  method HelloWorldExample() returns (r: Result<seq<string>>)
    ensures r == Success(["hello", "world"])
  {
    var d1 := Dict(["hello", "world"], map["hello" := 5, "world" := 1]);
    var d2 := Dict(["hello", "world"], map["hello" := 1, "world" := 5]);
    assert d1.Valid() && d2.Valid();
    r := GetMostFrequentWords(d1, d2);
    assert Combined(d1, d2) == map["hello" := 6, "world" := 6];
    assert StrLess("hello", "world");
    StrictlySortedUnique(r.value, ["hello", "world"]);
  }
}
