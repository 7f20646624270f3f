/**
 Python dictionaries as the model sees them, the Python errors the core can
 raise, and sums over a dictionary's values.

 A dict is its key sequence in insertion order (what `for k in d` visits)
 together with the key-to-value mapping.
 */
module PyDict {
  import opened Seqs

  /** The exceptions the modelled functions raise. */
  datatype PyError =
    | ZeroDivisionError  // `x / 0`
    | ValueError         // `max()` of an empty sequence
    | KeyError(key: string)

  datatype Result<T> = Success(value: T) | Failure(error: PyError)

  datatype Dict<V> = Dict(keys: seq<string>, vals: map<string, V>)
  {
    /** Keys are unique and are exactly the keys of the mapping. */
    ghost predicate Valid()
    {
      Distinct(keys) && forall k :: k in vals <==> k in keys
    }
  }

  /** Python's `m.get(k, 0)`. */
  function Get(m: map<string, int>, k: string): int
  {
    if k in m then m[k] else 0
  }

  /** The sum of `m.get(k, 0)` over the keys `ks`, in order. */
  function SumOver(ks: seq<string>, m: map<string, int>): int
  {
    if ks == [] then 0 else SumOver(ks[..|ks| - 1], m) + Get(m, ks[|ks| - 1])
  }

  /** `sum(d.values())` */
  function Total(d: Dict<int>): int
  {
    SumOver(d.keys, d.vals)
  }

  /** The sum of `m[k]` over the keys `ks` (0.0 for keys `m` lacks). */
  function SumOverReal(ks: seq<string>, m: map<string, real>): real
  {
    if ks == [] then 0.0
    else SumOverReal(ks[..|ks| - 1], m) + (if ks[|ks| - 1] in m then m[ks[|ks| - 1]] else 0.0)
  }

  lemma SumOverSnoc(ks: seq<string>, k: string, m: map<string, int>)
    ensures SumOver(ks + [k], m) == SumOver(ks, m) + Get(m, k)
  {
    assert (ks + [k])[..|ks|] == ks;
  }

  /** Extending a prefix of the keys by one more key adds that key's value. */
  lemma SumOverTake(ks: seq<string>, i: nat, m: map<string, int>)
    requires i < |ks|
    ensures SumOver(ks[..i + 1], m) == SumOver(ks[..i], m) + Get(m, ks[i])
  {
    assert ks[..i + 1][..i] == ks[..i];
  }

  /** Summing over two key sequences one after the other. */
  lemma {:induction false} SumOverAppend(a: seq<string>, b: seq<string>, m: map<string, int>)
    ensures SumOver(a + b, m) == SumOver(a, m) + SumOver(b, m)
  {
    if b != [] {
      var p, y := b[..|b| - 1], b[|b| - 1];
      assert b == p + [y];
      assert a + b == (a + p) + [y];
      SumOverAppend(a, p, m);
      SumOverSnoc(a + p, y, m);
    } else {
      assert a + b == a;
    }
  }

  /** Taking one key out of the sequence takes its value out of the sum. */
  lemma {:induction false} SumOverRemove(s: seq<string>, i: nat, m: map<string, int>)
    requires i < |s|
    ensures SumOver(s, m) == SumOver(s[..i] + s[i + 1..], m) + Get(m, s[i])
  {
    var p, y := s[..|s| - 1], s[|s| - 1];
    assert s == p + [y];
    if i == |s| - 1 {
      assert s[..i] + s[i + 1..] == p;
    } else {
      SumOverRemove(p, i, m);
      assert s[..i] + s[i + 1..] == (p[..i] + p[i + 1..]) + [y];
      SumOverSnoc(p[..i] + p[i + 1..], y, m);
    }
  }

  /**
   The sum over a key sequence without duplicates depends only on which keys of
   `m` it holds, not on their order: iteration order never changes a total.
   */
  lemma {:induction false} SumOverSameKeys(ks1: seq<string>, ks2: seq<string>, m: map<string, int>)
    requires Distinct(ks1) && Distinct(ks2)
    requires forall k :: k in m ==> (k in ks1 <==> k in ks2)
    ensures SumOver(ks1, m) == SumOver(ks2, m)
    decreases |ks1| + |ks2|
  {
    if ks1 == [] {
      SumOverOutside(ks2, m);
    } else {
      var p, x := ks1[..|ks1| - 1], ks1[|ks1| - 1];
      assert ks1 == p + [x];
      assert forall i :: 0 <= i < |p| ==> p[i] == ks1[i] && ks1[i] != x;
      if x !in m {
        SumOverSameKeys(p, ks2, m);
      } else {
        var i :| 0 <= i < |ks2| && ks2[i] == x;
        var q := ks2[..i] + ks2[i + 1..];
        SumOverRemove(ks2, i, m);
        DistinctRemove(ks2, i);
        assert forall k :: k in m ==> (k in p <==> k in q);
        SumOverSameKeys(p, q, m);
      }
    }
  }

  /** Keys the mapping lacks add nothing. */
  lemma {:induction false} SumOverOutside(ks: seq<string>, m: map<string, int>)
    requires forall k :: k in ks ==> k !in m
    ensures SumOver(ks, m) == 0
  {
    if ks != [] {
      assert ks == ks[..|ks| - 1] + [ks[|ks| - 1]];
      SumOverOutside(ks[..|ks| - 1], m);
    }
  }

  /** A mapping that is the key-wise sum of two others sums to the sum of their sums. */
  lemma {:induction false} SumOverPointwise(ks: seq<string>, m: map<string, int>,
                                            m1: map<string, int>, m2: map<string, int>)
    requires forall k :: k in ks ==> Get(m, k) == Get(m1, k) + Get(m2, k)
    ensures SumOver(ks, m) == SumOver(ks, m1) + SumOver(ks, m2)
  {
    if ks != [] {
      assert ks == ks[..|ks| - 1] + [ks[|ks| - 1]];
      SumOverPointwise(ks[..|ks| - 1], m, m1, m2);
    }
  }

  /** Sums are monotone in the values summed. */
  lemma {:induction false} SumOverMonotone(ks: seq<string>, m1: map<string, int>, m2: map<string, int>)
    requires forall k :: k in ks ==> Get(m1, k) <= Get(m2, k)
    ensures SumOver(ks, m1) <= SumOver(ks, m2)
  {
    if ks != [] {
      assert ks == ks[..|ks| - 1] + [ks[|ks| - 1]];
      SumOverMonotone(ks[..|ks| - 1], m1, m2);
    }
  }

  /** A sum of values that are all zero is zero. */
  lemma {:induction false} SumOverZero(ks: seq<string>, m: map<string, int>)
    requires forall k :: k in ks ==> Get(m, k) == 0
    ensures SumOver(ks, m) == 0
  {
    if ks != [] {
      assert ks == ks[..|ks| - 1] + [ks[|ks| - 1]];
      SumOverZero(ks[..|ks| - 1], m);
    }
  }

  /** Dividing every value by `n` divides the sum by `n`. */
  lemma {:induction false} SumOverScaled(ks: seq<string>, m: map<string, int>,
                                         mr: map<string, real>, n: nat)
    requires n > 0
    requires forall k :: k in ks ==> k in mr && mr[k] == Get(m, k) as real / n as real
    ensures SumOverReal(ks, mr) == SumOver(ks, m) as real / n as real
  {
    if ks != [] {
      var p, y := ks[..|ks| - 1], ks[|ks| - 1];
      assert ks == p + [y];
      SumOverScaled(p, m, mr, n);
      DivideSum(SumOver(p, m) as real, Get(m, y) as real, n as real);
    }
  }

  lemma SelfRatio(n: int)
    requires n != 0
    ensures n as real / n as real == 1.0
  {
  }

  /** A part of a positive whole, as a fraction, lies between 0 and 1. */
  lemma FractionBounds(part: int, whole: int)
    requires 0 <= part <= whole && whole > 0
    ensures 0.0 <= part as real / whole as real <= 1.0
  {
    var q := part as real / whole as real;
    assert q * whole as real == part as real;
  }

  lemma DivideSum(a: real, b: real, n: real)
    requires n != 0.0
    ensures a / n + b / n == (a + b) / n
  {
  }
}
