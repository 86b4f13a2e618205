/** Sequence helpers shared by the card and snake models: Ruby's `nil`-or-value
    results, Array difference (`a - b`), `delete`, and the prefix slice `a[0..n-1]`. */
module Seqs {

  /** A value or Ruby's `nil`. */
  datatype Option<T> = None | Some(value: T)

  /** No element occurs twice. */
  predicate Distinct<T(==)>(s: seq<T>)
  {
    forall i, j :: 0 <= i < j < |s| ==> s[i] != s[j]
  }

  /** Ruby's `s - t`: the elements of `s` that do not occur in `t`, in their
      order in `s`; every occurrence of such an element is removed. */
  function Minus<T(==,!new)>(s: seq<T>, t: seq<T>): (r: seq<T>)
    ensures forall x :: x in r <==> x in s && x !in t
    ensures |r| <= |s|
  {
    if s == [] then []
    else (if s[0] in t then [] else [s[0]]) + Minus(s[1..], t)
  }

  /** `s - t` keeps every copy of each element it keeps: an element of `t`
      occurs no more, any other as often as in `s`. */
  lemma {:induction false} MinusCounts<T(!new)>(s: seq<T>, t: seq<T>, x: T)
    ensures multiset(Minus(s, t))[x] == if x in t then 0 else multiset(s)[x]
  {
    if s != [] {
      MinusCounts(s[1..], t, x);
      assert s == [s[0]] + s[1..];
    }
  }

  /** Ruby's `s[0..n-1]` for a positive `n`: the first `n` elements, or all of
      them when `s` is shorter. */
  function Take<T>(s: seq<T>, n: nat): (r: seq<T>)
    ensures |r| == if n <= |s| then n else |s|
    ensures r == s[..|r|]
  {
    if n <= |s| then s[..n] else s
  }

  lemma {:induction false} MinusAppend<T(!new)>(a: seq<T>, b: seq<T>, t: seq<T>)
    ensures Minus(a + b, t) == Minus(a, t) + Minus(b, t)
  {
    if a == [] {
      assert a + b == b;
    } else {
      assert (a + b)[0] == a[0];
      assert (a + b)[1..] == a[1..] + b;
      MinusAppend(a[1..], b, t);
    }
  }

  /** Nothing of `s` is in `t`, so nothing is removed. */
  lemma {:induction false} MinusDisjoint<T(!new)>(s: seq<T>, t: seq<T>)
    requires forall x :: x in s ==> x !in t
    ensures Minus(s, t) == s
  {
    if s != [] {
      assert s[0] in s;
      forall x | x in s[1..] ensures x !in t { assert x in s; }
      MinusDisjoint(s[1..], t);
    }
  }

  /** Everything of `s` is in `t`, so everything is removed. */
  lemma {:induction false} MinusCovered<T(!new)>(s: seq<T>, t: seq<T>)
    requires forall x :: x in s ==> x in t
    ensures Minus(s, t) == []
  {
    if s != [] {
      assert s[0] in s;
      forall x | x in s[1..] ensures x in t { assert x in s; }
      MinusCovered(s[1..], t);
    }
  }

  /** In a sequence without repetitions, removing a prefix's elements leaves
      exactly the rest of the sequence, in order. */
  lemma MinusPrefix<T(!new)>(s: seq<T>, k: nat)
    requires Distinct(s) && k <= |s|
    ensures Minus(s, s[..k]) == s[k..]
  {
    assert s == s[..k] + s[k..];
    MinusAppend(s[..k], s[k..], s[..k]);
    MinusCovered(s[..k], s[..k]);
    forall x | x in s[k..] ensures x !in s[..k] {
      var j :| 0 <= j < |s[k..]| && s[k..][j] == x;
      assert s[k + j] == x;
    }
    MinusDisjoint(s[k..], s[..k]);
  }

  /** Deleting one element that occurs once removes exactly that occurrence. */
  lemma DeleteOnce<T(!new)>(s: seq<T>, x: T)
    requires Distinct(s) && x in s
    ensures |Minus(s, [x])| == |s| - 1
    ensures multiset(Minus(s, [x])) == multiset(s) - multiset{x}
  {
    var r := Minus(s, [x]);
    DistinctCounts(s);
    forall y ensures multiset(r)[y] == (multiset(s) - multiset{x})[y] {
      MinusCounts(s, [x], y);
    }
    assert multiset(r) == multiset(s) - multiset{x};
    assert multiset(s) == multiset(r) + multiset{x};
  }

  /** A slice of a sequence without repetitions has none either. */
  lemma DistinctSub<T>(s: seq<T>, i: nat, j: nat)
    requires Distinct(s) && i <= j <= |s|
    ensures Distinct(s[i..j])
  {
    forall a, b | 0 <= a < b < |s[i..j]| ensures s[i..j][a] != s[i..j][b] {
      assert s[i..j][a] == s[i + a] && s[i..j][b] == s[i + b];
    }
  }

  /** No repetitions means every element occurs at most once. */
  lemma {:induction false} DistinctCounts<T(!new)>(s: seq<T>)
    ensures Distinct(s) <==> forall x :: multiset(s)[x] <= 1
  {
    if s != [] {
      var t := s[1..];
      DistinctCounts(t);
      assert s == [s[0]] + t;
      assert multiset(s) == multiset{s[0]} + multiset(t);
      if Distinct(s) {
        DistinctSub(s, 1, |s|);
        assert s[0] !in t;
      } else {
        var i, j :| 0 <= i < j < |s| && s[i] == s[j];
        if i == 0 {
          assert s[j] in t;
          assert multiset(s)[s[0]] >= 2;
        } else {
          assert t[i - 1] == t[j - 1];
          assert !Distinct(t);
        }
      }
      if forall x :: multiset(s)[x] <= 1 {
        assert multiset(t)[s[0]] == 0;
        assert forall x :: multiset(t)[x] <= multiset(s)[x];
        assert Distinct(t);
        forall i, j | 0 <= i < j < |s| ensures s[i] != s[j] {
          if i == 0 {
            assert s[j] == t[j - 1] && s[j] in multiset(t);
          } else {
            assert t[i - 1] == s[i] && t[j - 1] == s[j];
          }
        }
      }
    }
  }

  /** Rearranging keeps a sequence free of repetitions. */
  lemma DistinctPermutation<T(!new)>(a: seq<T>, b: seq<T>)
    requires multiset(a) == multiset(b) && Distinct(a)
    ensures Distinct(b)
  {
    DistinctCounts(a);
    DistinctCounts(b);
  }
}
