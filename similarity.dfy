/**
 The similarity score of two frequency dictionaries, `calculate_similarity_score`
 (document_distance.py lines 94-120): one minus the sum of the per-key
 differences of the loop's three branches (the L1 distance between the two
 count vectors when the counts are non-negative) divided by their total mass.

 The final `round(..., 2)` is not modelled: the score is the exact real
 `1 - DIFF / ALL`, and the two integer accumulators are returned with it.
 */
module Similarity {
  import opened Seqs
  import opened PyDict
  import opened Frequencies

  function Abs(x: int): int
  {
    if x < 0 then -x else x
  }

  /** What one key adds to `DIFF`: the three branches of the loop body. */
  function KeyDiff(d1: Dict<int>, d2: Dict<int>, key: string): int
  {
    if key in d1.vals && key in d2.vals then Abs(d1.vals[key] - d2.vals[key])
    else if key !in d2.vals then Get(d1.vals, key)
    else d2.vals[key]
  }

  /** `KeyDiff` for every key of either dictionary. */
  function DiffMap(d1: Dict<int>, d2: Dict<int>): map<string, int>
  {
    map k | k in d1.vals.Keys + d2.vals.Keys :: KeyDiff(d1, d2, k)
  }

  /** The per-key differences summed over the keys `ks`, in order. */
  function DiffSum(d1: Dict<int>, d2: Dict<int>, ks: seq<string>): int
  {
    if ks == [] then 0 else DiffSum(d1, d2, ks[..|ks| - 1]) + KeyDiff(d1, d2, ks[|ks| - 1])
  }

  /** The final `DIFF`: the per-key differences summed over the combined keys. */
  function Distance(d1: Dict<int>, d2: Dict<int>): int
  {
    DiffSum(d1, d2, CombinedKeys(d1, d2))
  }

  /** `1 - DIFF / ALL` with Python's true division, which raises on a zero divisor. */
  function OneMinusRatio(diff: int, all: int): (r: Result<real>)
    ensures r.Failure? <==> all == 0
    ensures r.Failure? ==> r.error == ZeroDivisionError
  {
    if all == 0 then Failure(ZeroDivisionError)
    else Success(1.0 - diff as real / all as real)
  }

  /** The value `calculate_similarity_score` returns, before rounding. */
  function Score(d1: Dict<int>, d2: Dict<int>): Result<real>
  {
    OneMinusRatio(Distance(d1, d2), Total(d1) + Total(d2))
  }

  /** Every count is at least zero, as in any dictionary `get_frequencies` builds. */
  ghost predicate NonNegative(d: Dict<int>)
  {
    forall k :: k in d.vals ==> d.vals[k] >= 0
  }

  /** Every count is at least one, as `get_frequencies` guarantees. */
  ghost predicate Positive(d: Dict<int>)
  {
    forall k :: k in d.vals ==> d.vals[k] >= 1
  }

  /**
   `calculate_similarity_score(dict1, dict2)`: combine the two dictionaries, sum
   the combined counts into `ALL` and the per-key differences into `DIFF`.
   */
  method CalculateSimilarityScore(d1: Dict<int>, d2: Dict<int>) returns (diff: int, all: int, score: Result<real>)
    requires d1.Valid() && d2.Valid()
    ensures all == Total(d1) + Total(d2)
    ensures diff == Distance(d1, d2)
    ensures score == Score(d1, d2)
  {
    var combined := Combine(d1, d2);
    CombinedKeysMembers(d1, d2);
    diff, all := SumDifferences(d1, d2, combined);
    CombinedSum(d1, d2);
    assert diff == Distance(d1, d2) && all == Total(d1) + Total(d2);
    score := OneMinusRatio(diff, all);
  }

  /**
   The loop of `calculate_similarity_score` over the keys of the combined
   dictionary: `ALL` adds up its counts, `DIFF` the per-key differences.
   */
  method SumDifferences(d1: Dict<int>, d2: Dict<int>, combined: Dict<int>) returns (diff: int, all: int)
    requires forall k :: k in combined.keys ==> k in combined.vals && (k in d1.vals || k in d2.vals)
    ensures all == SumOver(combined.keys, combined.vals)
    ensures diff == DiffSum(d1, d2, combined.keys)
  {
    diff, all := 0, 0;
    for i := 0 to |combined.keys|
      invariant all == SumOver(combined.keys[..i], combined.vals)
      invariant diff == DiffSum(d1, d2, combined.keys[..i])
    {
      var key := combined.keys[i];
      SumOverTake(combined.keys, i, combined.vals);
      DiffSumTake(d1, d2, combined.keys, i);
      all := all + combined.vals[key];
      if key in d1.vals && key in d2.vals {
        diff := diff + Abs(d1.vals[key] - d2.vals[key]);
      } else if key !in d2.vals {
        diff := diff + d1.vals[key];
      } else {
        diff := diff + d2.vals[key];
      }
    }
    TakeAll(combined.keys);
  }

  lemma DiffSumTake(d1: Dict<int>, d2: Dict<int>, ks: seq<string>, i: nat)
    requires i < |ks|
    ensures DiffSum(d1, d2, ks[..i + 1]) == DiffSum(d1, d2, ks[..i]) + KeyDiff(d1, d2, ks[i])
  {
    assert ks[..i + 1][..i] == ks[..i];
  }

  /** `DiffSum` is the sum of `DiffMap` over keys of either dictionary. */
  lemma {:induction false} DiffSumOver(d1: Dict<int>, d2: Dict<int>, ks: seq<string>)
    requires forall k :: k in ks ==> k in d1.vals || k in d2.vals
    ensures DiffSum(d1, d2, ks) == SumOver(ks, DiffMap(d1, d2))
  {
    if ks != [] {
      assert ks == ks[..|ks| - 1] + [ks[|ks| - 1]];
      DiffSumOver(d1, d2, ks[..|ks| - 1]);
    }
  }

  /** `DIFF` as a sum over the combined dictionary's keys of a map. */
  lemma DistanceOver(d1: Dict<int>, d2: Dict<int>)
    requires d1.Valid() && d2.Valid()
    ensures Distance(d1, d2) == SumOver(CombinedKeys(d1, d2), DiffMap(d1, d2))
  {
    CombinedKeysMembers(d1, d2);
    DiffSumOver(d1, d2, CombinedKeys(d1, d2));
  }

  // ---------------------------------------------------------------------------
  // Properties of the score

  /** The per-key L1 difference `|dict1.get(k, 0) - dict2.get(k, 0)|` for every key of either dictionary. */
  function L1Map(d1: Dict<int>, d2: Dict<int>): map<string, int>
  {
    map k | k in d1.vals.Keys + d2.vals.Keys :: Abs(Get(d1.vals, k) - Get(d2.vals, k))
  }

  /**
   For non-negative counts, the three branches of the loop add up to the L1
   distance between the two count vectors (a key missing from one dictionary
   counting as zero there).
   */
  lemma DistanceIsL1(d1: Dict<int>, d2: Dict<int>)
    requires d1.Valid() && d2.Valid()
    requires NonNegative(d1) && NonNegative(d2)
    ensures Distance(d1, d2) == SumOver(CombinedKeys(d1, d2), L1Map(d1, d2))
  {
    DistanceOver(d1, d2);
    assert DiffMap(d1, d2) == L1Map(d1, d2);
  }

  /** `DIFF` does not depend on the order of the arguments. */
  lemma DistanceSymmetric(d1: Dict<int>, d2: Dict<int>)
    requires d1.Valid() && d2.Valid()
    ensures Distance(d1, d2) == Distance(d2, d1)
  {
    DistanceOver(d1, d2);
    DistanceOver(d2, d1);
    CombinedKeysMembers(d1, d2);
    CombinedKeysMembers(d2, d1);
    DiffMapSymmetric(d1, d2);
    SumOverSameKeys(CombinedKeys(d1, d2), CombinedKeys(d2, d1), DiffMap(d1, d2));
  }

  lemma DiffMapSymmetric(d1: Dict<int>, d2: Dict<int>)
    ensures DiffMap(d1, d2) == DiffMap(d2, d1)
  {
  }

  /** The score does not depend on the order of the arguments. */
  lemma ScoreSymmetric(d1: Dict<int>, d2: Dict<int>)
    requires d1.Valid() && d2.Valid()
    ensures Score(d1, d2) == Score(d2, d1)
  {
    DistanceSymmetric(d1, d2);
  }

  /** For non-negative counts, `0 <= DIFF <= ALL`. */
  lemma DistanceBounds(d1: Dict<int>, d2: Dict<int>)
    requires d1.Valid() && d2.Valid()
    requires NonNegative(d1) && NonNegative(d2)
    ensures 0 <= Distance(d1, d2) <= Total(d1) + Total(d2)
  {
    var ks := CombinedKeys(d1, d2);
    var sum := Combined(d1, d2);
    DistanceOver(d1, d2);
    CombinedKeysMembers(d1, d2);
    CombinedTotal(d1, d2, sum);
    SumOverMonotone(ks, DiffMap(d1, d2), sum);
    SumOverMonotone(ks, map[], DiffMap(d1, d2));
    SumOverZero(ks, map[]);
  }

  /** For non-negative counts that are not all zero, the score lies between 0 and 1. */
  lemma ScoreBounds(d1: Dict<int>, d2: Dict<int>)
    requires d1.Valid() && d2.Valid()
    requires NonNegative(d1) && NonNegative(d2)
    requires Total(d1) + Total(d2) != 0
    ensures Score(d1, d2).Success?
    ensures 0.0 <= Score(d1, d2).value <= 1.0
  {
    DistanceBounds(d1, d2);
    FractionBounds(Distance(d1, d2), Total(d1) + Total(d2));
  }

  /** A dictionary compared with itself has `DIFF == 0`. */
  lemma DistanceSelf(d: Dict<int>)
    requires d.Valid()
    ensures Distance(d, d) == 0
  {
    DistanceOver(d, d);
    SumOverZero(CombinedKeys(d, d), DiffMap(d, d));
  }

  /** A dictionary with a non-zero total compared with itself scores 1.0. */
  lemma ScoreSelf(d: Dict<int>)
    requires d.Valid() && Total(d) != 0
    ensures Score(d, d) == Success(1.0)
  {
    DistanceSelf(d);
  }

  /** Dictionaries with no key in common have `DIFF == ALL`. */
  lemma DistanceDisjoint(d1: Dict<int>, d2: Dict<int>)
    requires d1.Valid() && d2.Valid()
    requires forall k :: k in d1.vals ==> k !in d2.vals
    ensures Distance(d1, d2) == Total(d1) + Total(d2)
  {
    var ks := CombinedKeys(d1, d2);
    var sum := Combined(d1, d2);
    DistanceOver(d1, d2);
    CombinedKeysMembers(d1, d2);
    CombinedTotal(d1, d2, sum);
    SumOverPointwise(ks, DiffMap(d1, d2), sum, map[]);
    SumOverZero(ks, map[]);
  }

  /** Non-empty dictionaries with no key in common score 0.0. */
  lemma ScoreDisjoint(d1: Dict<int>, d2: Dict<int>)
    requires d1.Valid() && d2.Valid()
    requires forall k :: k in d1.vals ==> k !in d2.vals
    requires Total(d1) + Total(d2) != 0
    ensures Score(d1, d2) == Success(0.0)
  {
    DistanceDisjoint(d1, d2);
    SelfRatio(Total(d1) + Total(d2));
  }

  /** With counts of at least one, the total is at least the number of keys. */
  lemma {:induction false} TotalPositive(d: Dict<int>)
    requires d.Valid() && Positive(d)
    ensures Total(d) >= |d.keys|
  {
    SumOverMonotone(d.keys, map k | k in d.vals :: 1, d.vals);
    SumOverOnes(d.keys, map k | k in d.vals :: 1);
  }

  lemma {:induction false} SumOverOnes(ks: seq<string>, m: map<string, int>)
    requires forall k :: k in ks ==> Get(m, k) == 1
    ensures SumOver(ks, m) == |ks|
  {
    if ks != [] {
      assert ks == ks[..|ks| - 1] + [ks[|ks| - 1]];
      SumOverOnes(ks[..|ks| - 1], m);
    }
  }

  /** Two empty frequency dictionaries make `DIFF / ALL` divide by zero; any other pair does not. */
  lemma ScoreFailsOnlyWhenEmpty(d1: Dict<int>, d2: Dict<int>)
    requires d1.Valid() && d2.Valid() && Positive(d1) && Positive(d2)
    ensures Score(d1, d2).Failure? <==> d1.keys == [] && d2.keys == []
  {
    TotalPositive(d1);
    TotalPositive(d2);
  }
}
