/** The absent-or-present value every `null`-returning lookup of the games is modelled with. */
module Wrappers {

  datatype Option<+T> = None | Some(value: T)
}

/**
 * Counting and filtering over sequences: the LINQ `Count(predicate)` and
 * `Where(predicate)` calls the games make over their cell arrays.
 * Both recurse on the last element, so that a loop that walks an array from
 * the front extends them one element at a time.
 */
module Seqs {

  /** Number of elements of `s` that satisfy `f`. */
  function Count<T>(s: seq<T>, f: T -> bool): (n: nat)
    ensures n <= |s|
  {
    if s == [] then 0 else Count(s[..|s| - 1], f) + (if f(s[|s| - 1]) then 1 else 0)
  }

  /** The elements of `s` that satisfy `f`, in their original order. */
  function Filter<T>(s: seq<T>, f: T -> bool): (r: seq<T>)
    ensures |r| <= |s|
    ensures forall x <- r :: x in s && f(x)
  {
    if s == [] then [] else Filter(s[..|s| - 1], f) + (if f(s[|s| - 1]) then [s[|s| - 1]] else [])
  }

  lemma {:induction false} FilterLength<T>(s: seq<T>, f: T -> bool)
    ensures |Filter(s, f)| == Count(s, f)
  {
    if s != [] {
      FilterLength(s[..|s| - 1], f);
    }
  }

  /** Every element of `s` that satisfies `f` is kept by `Filter`. */
  lemma {:induction false} FilterKeeps<T>(s: seq<T>, f: T -> bool, x: T)
    requires x in s && f(x)
    ensures x in Filter(s, f)
  {
    if x != s[|s| - 1] {
      assert x in s[..|s| - 1];
      FilterKeeps(s[..|s| - 1], f, x);
    }
  }

  /** Two predicates that agree on every element of `s` select the same elements. */
  lemma {:induction false} FilterCongruent<T>(s: seq<T>, f: T -> bool, g: T -> bool)
    requires forall x <- s :: f(x) == g(x)
    ensures Filter(s, f) == Filter(s, g)
  {
    if s != [] {
      FilterCongruent(s[..|s| - 1], f, g);
    }
  }

  lemma {:induction false} CountAppend<T>(a: seq<T>, b: seq<T>, f: T -> bool)
    ensures Count(a + b, f) == Count(a, f) + Count(b, f)
  {
    if b != [] {
      assert (a + b)[..|a + b| - 1] == a + b[..|b| - 1];
      CountAppend(a, b[..|b| - 1], f);
    } else {
      assert a + b == a;
    }
  }

  /** The elements satisfying `f` and those satisfying its negation partition `s`. */
  lemma {:induction false} CountComplement<T>(s: seq<T>, f: T -> bool, g: T -> bool)
    requires forall x <- s :: g(x) == !f(x)
    ensures Count(s, f) + Count(s, g) == |s|
  {
    if s != [] {
      CountComplement(s[..|s| - 1], f, g);
    }
  }

  /** Two predicates that agree on every element of `s` count the same. */
  lemma {:induction false} CountCongruent<T>(s: seq<T>, f: T -> bool, g: T -> bool)
    requires forall x <- s :: f(x) == g(x)
    ensures Count(s, f) == Count(s, g)
  {
    if s != [] {
      CountCongruent(s[..|s| - 1], f, g);
    }
  }

  /** Two sequences whose elements agree position-wise on `f` count the same. */
  lemma {:induction false} CountPointwise<T>(s: seq<T>, t: seq<T>, f: T -> bool)
    requires |s| == |t|
    requires forall i :: 0 <= i < |s| ==> f(s[i]) == f(t[i])
    ensures Count(s, f) == Count(t, f)
  {
    if s != [] {
      CountPointwise(s[..|s| - 1], t[..|t| - 1], f);
    }
  }

  /** Changing one element changes the count by at most the change of that element. */
  lemma {:induction false} CountUpdate<T>(s: seq<T>, i: nat, v: T, f: T -> bool)
    requires i < |s|
    ensures Count(s[i := v], f) + (if f(s[i]) then 1 else 0) == Count(s, f) + (if f(v) then 1 else 0)
  {
    assert s == s[..i] + [s[i]] + s[i + 1..];
    assert s[i := v] == s[..i] + [v] + s[i + 1..];
    CountAppend(s[..i] + [s[i]], s[i + 1..], f);
    CountAppend(s[..i] + [v], s[i + 1..], f);
    CountAppend(s[..i], [s[i]], f);
    CountAppend(s[..i], [v], f);
    assert [s[i]][..0] == [];
    assert [v][..0] == [];
  }

  /** Something is counted exactly when some element satisfies the predicate. */
  lemma {:induction false} CountPositive<T>(s: seq<T>, f: T -> bool)
    ensures Count(s, f) > 0 <==> exists i :: 0 <= i < |s| && f(s[i])
  {
    if s != [] {
      var n := |s| - 1;
      CountPositive(s[..n], f);
      if exists i :: 0 <= i < n && f(s[..n][i]) {
        var i :| 0 <= i < n && f(s[..n][i]);
        assert f(s[i]);
      }
      if exists i :: 0 <= i < |s| && f(s[i]) {
        var i :| 0 <= i < |s| && f(s[i]);
        if i < n {
          assert f(s[..n][i]);
        }
      }
    }
  }

  function IsTrue(b: bool): bool { b }

  /** `values` with `mark` applied at the positions where `mask` is true. */
  function MarkWhere<T>(values: seq<T>, mask: seq<bool>, mark: T -> T): (r: seq<T>)
    requires |mask| == |values|
    ensures |r| == |values|
    ensures forall k :: 0 <= k < |values| ==> r[k] == if mask[k] then mark(values[k]) else values[k]
  {
    seq(|values|, k requires 0 <= k < |values| => if mask[k] then mark(values[k]) else values[k])
  }

  /**
   * Marking a sequence none of whose elements satisfies `f`, with a mark that always
   * makes `f` hold, leaves exactly as many elements satisfying `f` as the mask has trues.
   */
  lemma {:induction false} MarkWhereCount<T>(values: seq<T>, mask: seq<bool>, mark: T -> T, f: T -> bool)
    requires |mask| == |values|
    requires forall x <- values :: !f(x)
    requires forall x <- values :: f(mark(x))
    ensures Count(MarkWhere(values, mask, mark), f) == Count(mask, IsTrue)
  {
    if values != [] {
      var n := |values| - 1;
      assert MarkWhere(values, mask, mark)[..n] == MarkWhere(values[..n], mask[..n], mark);
      MarkWhereCount(values[..n], mask[..n], mark, f);
    }
  }

  /** When every element satisfying `f` in `s` also satisfies it in `t`, `t` counts at least as many. */
  lemma {:induction false} CountMonotone<T>(s: seq<T>, t: seq<T>, f: T -> bool)
    requires |s| == |t|
    requires forall i :: 0 <= i < |s| ==> f(s[i]) ==> f(t[i])
    ensures Count(s, f) <= Count(t, f)
  {
    if s != [] {
      CountMonotone(s[..|s| - 1], t[..|t| - 1], f);
    }
  }
}
