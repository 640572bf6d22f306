/**
 * The random helpers every game uses to lay out its board (`RandomUtility` and the
 * `Shuffle` extension). A shuffle promises only a reordering of its input, so it is
 * modelled as an arbitrary permutation: nothing the model proves depends on which one.
 * The integer helpers take 32-bit arguments and compute the array length in 32-bit
 * arithmetic, which is written out here.
 */
module RandomUtility {
  import opened Wrappers
  import opened Seqs

  const Int32Min: int := -0x8000_0000
  const Int32Max: int := 0x7FFF_FFFF

  predicate IsInt32(x: int) { Int32Min <= x <= Int32Max }

  /** Two's-complement 32-bit wrap-around of an integer. */
  function Wrap32(x: int): (r: int)
    ensures IsInt32(r)
    ensures IsInt32(x) ==> r == x
    ensures (r - x) % 0x1_0000_0000 == 0
  {
    (x - Int32Min) % 0x1_0000_0000 + Int32Min
  }

  /** `Shuffle`: the same elements in an order the model does not fix. */
  method Shuffle<T(==)>(s: seq<T>) returns (r: seq<T>)
    ensures multiset(r) == multiset(s)
    ensures |r| == |s|
  {
    r :| multiset(r) == multiset(s);
    assert |r| == |multiset(r)| == |multiset(s)| == |s|;
  }

  /** The number of `true` entries of a boolean sequence is its multiplicity in the multiset. */
  lemma {:induction false} CountTrueIsMultiplicity(s: seq<bool>)
    ensures Count(s, IsTrue) == multiset(s)[true]
  {
    if s != [] {
      assert s == s[..|s| - 1] + [s[|s| - 1]];
      CountTrueIsMultiplicity(s[..|s| - 1]);
    }
  }

  /**
   * `GetRandomBoolArray(arrayCount, trueCount)`: `arrayCount` booleans of which exactly
   * `trueCount` are true (none when `trueCount` is negative), in random positions.
   * A negative length or more trues than slots makes the source throw.
   */
  method GetRandomBoolArray(arrayCount: int, trueCount: int) returns (r: seq<bool>)
    requires 0 <= arrayCount && trueCount <= arrayCount
    ensures |r| == arrayCount
    ensures Count(r, IsTrue) == if trueCount < 0 then 0 else trueCount
  {
    var a := new bool[arrayCount](_ => false);
    var i := 0;
    while i < trueCount
      invariant 0 <= i <= if trueCount < 0 then 0 else trueCount
      invariant forall j :: 0 <= j < i ==> a[j]
      invariant forall j :: i <= j < a.Length ==> !a[j]
    {
      a[i] := true;
      i := i + 1;
    }
    CountTruePrefix(a[..], i);
    r := Shuffle(a[..]);
    ShuffleKeepsTrues(a[..], r);
  }

  /** A reordering keeps the number of `true` entries. */
  lemma ShuffleKeepsTrues(s: seq<bool>, r: seq<bool>)
    requires multiset(r) == multiset(s)
    ensures Count(r, IsTrue) == Count(s, IsTrue)
  {
    CountTrueIsMultiplicity(r);
    CountTrueIsMultiplicity(s);
  }

  /** A sequence that is true exactly on its first `t` entries counts `t` trues. */
  lemma {:induction false} CountTruePrefix(s: seq<bool>, t: nat)
    requires t <= |s|
    requires forall j :: 0 <= j < |s| ==> s[j] == (j < t)
    ensures Count(s, IsTrue) == t
  {
    if s != [] {
      var n := |s| - 1;
      CountTruePrefix(s[..n], if t == |s| then n else t);
    }
  }

  /** The integers `min, min + 1, …, max` in increasing order (empty when `min > max`). */
  function Range(min: int, max: int): (r: seq<int>)
    ensures |r| == if min <= max then max - min + 1 else 0
    ensures forall x :: x in r <==> min <= x <= max
  {
    if min > max then []
    else
      var r := seq(max - min + 1, i => min + i);
      assert forall x :: x in r <==> min <= x <= max by {
        forall x | min <= x <= max
          ensures x in r
        {
          assert r[x - min] == x;
        }
      }
      r
  }

  /**
   * `GetRandomIntArrayWithoutDuplication(min, max)`: every integer of `[min, max]` once,
   * in random order; `null` when `min > max`, and also when the 32-bit count
   * `max - min + 1` wraps to a non-positive value.
   */
  method GetRandomIntArrayWithoutDuplication(min: int, max: int) returns (r: Option<seq<int>>)
    requires IsInt32(min) && IsInt32(max)
    ensures r.None? <==> min > max || max - min + 1 > Int32Max
    ensures r.Some? ==> multiset(r.value) == multiset(Range(min, max))
  {
    if min > max {
      return None;
    }
    var numbers := Wrap32(max - min + 1);
    if numbers <= 0 {
      return None;
    }
    var a := new int[numbers];
    for i := 0 to a.Length
      invariant forall j :: 0 <= j < i ==> a[j] == min + j
    {
      a[i] := min + i;
    }
    assert a[..] == Range(min, max);
    var shuffled := Shuffle(a[..]);
    r := Some(shuffled);
  }

  /** LINQ `Take(length)`: the first `length` elements, all of them when there are fewer. */
  function Take<T>(s: seq<T>, length: int): (r: seq<T>)
    ensures |r| == if length < 0 then 0 else if length < |s| then length else |s|
    ensures r <= s
  {
    if length < 0 then [] else if length < |s| then s[..length] else s
  }

  /**
   * `GetRandomIntArrayWithoutDuplication(min, max, length)`: the first `length` of a random
   * permutation of `[min, max]`, so pairwise distinct numbers of that range; `null` exactly
   * when the two-argument version returns `null`.
   */
  method GetRandomIntArrayWithoutDuplicationOfLength(min: int, max: int, length: int)
    returns (r: Option<seq<int>>)
    requires IsInt32(min) && IsInt32(max)
    ensures r.None? <==> min > max || max - min + 1 > Int32Max
    ensures r.Some? ==> multiset(r.value) <= multiset(Range(min, max))
    ensures r.Some? ==> |r.value| == if length < 0 then 0 else if length < max - min + 1 then length else max - min + 1
  {
    var all := GetRandomIntArrayWithoutDuplication(min, max);
    if all == None {
      return None;
    }
    var s := all.value;
    assert |s| == |multiset(s)| == |multiset(Range(min, max))| == max - min + 1;
    var t := Take(s, length);
    assert s == t + s[|t|..];
    assert multiset(s) == multiset(t) + multiset(s[|t|..]);
    r := Some(t);
  }

  /** Every element of a sub-multiset of `Range(min, max)` lies in `[min, max]` and occurs once. */
  lemma SubRangeDistinct(s: seq<int>, min: int, max: int)
    requires multiset(s) <= multiset(Range(min, max))
    ensures forall x <- s :: min <= x <= max
    ensures forall i, j :: 0 <= i < j < |s| ==> s[i] != s[j]
  {
    forall x | x in s
      ensures min <= x <= max
    {
      assert x in multiset(s);
    }
    forall i, j | 0 <= i < j < |s|
      ensures s[i] != s[j]
    {
      if s[i] == s[j] {
        RangeMultiplicity(min, max, s[i]);
        TwoOccurrences(s, i, j);
        assert false;
      }
    }
  }

  /** Each number occurs at most once in `Range(min, max)`. */
  lemma {:induction false} RangeMultiplicity(min: int, max: int, x: int)
    ensures multiset(Range(min, max))[x] <= 1
    decreases max - min
  {
    if min <= max {
      assert Range(min, max) == [min] + Range(min + 1, max);
      RangeMultiplicity(min + 1, max, x);
      if x == min {
        assert x !in Range(min + 1, max);
      }
    }
  }

  lemma TwoOccurrences<T>(s: seq<T>, i: nat, j: nat)
    requires i < j < |s| && s[i] == s[j]
    ensures multiset(s)[s[i]] >= 2
  {
    assert s == s[..i] + [s[i]] + s[i + 1..j] + [s[j]] + s[j + 1..];
  }
}
