/**
 Sequence helpers shared by the pipeline stages: occurrence counts, filters,
 first-seen deduplication (the order in which a JavaScript `Set` or a plain
 object remembers its entries), sums and a stable sort by an integer key
 (the behaviour `Array.prototype.sort` has been required to have since
 ECMAScript 2019).
 */
module Seqs {

  /** No element occurs twice. */
  predicate NoDup<T(==,!new)>(s: seq<T>)
  {
    forall i, j :: 0 <= i < j < |s| ==> s[i] != s[j]
  }

  /** Number of occurrences of `x` in `s`. */
  function Occ<T(==,!new)>(s: seq<T>, x: T): (n: nat)
    ensures n <= |s|
    ensures n > 0 <==> x in s
  {
    if s == [] then 0 else (if s[0] == x then 1 else 0) + Occ(s[1..], x)
  }

  lemma {:induction false} OccConcat<T(!new)>(a: seq<T>, b: seq<T>, x: T)
    ensures Occ(a + b, x) == Occ(a, x) + Occ(b, x)
  {
    if a != [] {
      assert (a + b)[0] == a[0];
      assert (a + b)[1..] == a[1..] + b;
      OccConcat(a[1..], b, x);
    } else {
      assert a + b == b;
    }
  }

  lemma ConcatAssoc<T>(a: seq<T>, b: seq<T>, c: seq<T>)
    ensures (a + b) + c == a + (b + c)
  {
  }

  /** The elements of `s` that satisfy `p`, in their original order. */
  function Filter<T(!new)>(s: seq<T>, p: T -> bool): (r: seq<T>)
    ensures |r| <= |s|
    ensures forall x :: x in r <==> x in s && p(x)
  {
    if s == [] then []
    else (if p(s[0]) then [s[0]] else []) + Filter(s[1..], p)
  }

  lemma {:induction false} FilterConcat<T(!new)>(a: seq<T>, b: seq<T>, p: T -> bool)
    ensures Filter(a + b, p) == Filter(a, p) + Filter(b, p)
  {
    if a != [] {
      assert (a + b)[0] == a[0];
      assert (a + b)[1..] == a[1..] + b;
      FilterConcat(a[1..], b, p);
    } else {
      assert a + b == b;
    }
  }

  /** Filtering keeps every occurrence of an element that passes and none of one that does not. */
  lemma {:induction false} FilterOcc<T(!new)>(s: seq<T>, p: T -> bool, x: T)
    ensures Occ(Filter(s, p), x) == if p(x) then Occ(s, x) else 0
  {
    if s != [] {
      FilterOcc(s[1..], p, x);
      OccConcat(if p(s[0]) then [s[0]] else [], Filter(s[1..], p), x);
      assert Occ([s[0]], x) == if s[0] == x then 1 else 0 by {
        assert [s[0]][1..] == [];
      }
    }
  }

  lemma {:induction false} FilterAll<T(!new)>(s: seq<T>, p: T -> bool)
    requires forall x :: x in s ==> p(x)
    ensures Filter(s, p) == s
  {
    if s != [] {
      FilterAll(s[1..], p);
    }
  }

  lemma {:induction false} FilterNone<T(!new)>(s: seq<T>, p: T -> bool)
    requires forall x :: x in s ==> !p(x)
    ensures Filter(s, p) == []
  {
    if s != [] {
      FilterNone(s[1..], p);
    }
  }

  lemma {:induction false} FilterNoDup<T(!new)>(s: seq<T>, p: T -> bool)
    requires NoDup(s)
    ensures NoDup(Filter(s, p))
  {
    if s != [] {
      assert NoDup(s[1..]) by {
        forall i, j | 0 <= i < j < |s[1..]| ensures s[1..][i] != s[1..][j] {
          assert s[1..][i] == s[i + 1] && s[1..][j] == s[j + 1];
        }
      }
      FilterNoDup(s[1..], p);
      assert s[0] !in s[1..];
      NoDupConcat(if p(s[0]) then [s[0]] else [], Filter(s[1..], p));
    }
  }

  /** Dropping the last element of a duplicate-free sequence leaves one without that element. */
  lemma NoDupLast<T(!new)>(s: seq<T>)
    requires NoDup(s) && s != []
    ensures NoDup(s[..|s| - 1]) && s[|s| - 1] !in s[..|s| - 1]
  {
    var p := s[..|s| - 1];
    forall i | 0 <= i < |p| ensures p[i] != s[|s| - 1] {
      assert p[i] == s[i];
    }
  }

  /** Two duplicate-free sequences with no common element concatenate to one. */
  lemma NoDupConcat<T(!new)>(a: seq<T>, b: seq<T>)
    requires NoDup(a) && NoDup(b) && forall x :: x in a ==> x !in b
    ensures NoDup(a + b)
  {
    forall i, j | 0 <= i < j < |a + b| ensures (a + b)[i] != (a + b)[j] {
      if j < |a| {
        assert (a + b)[i] == a[i] && (a + b)[j] == a[j];
      } else if i >= |a| {
        assert (a + b)[i] == b[i - |a|] && (a + b)[j] == b[j - |a|];
      } else {
        assert (a + b)[i] == a[i] && (a + b)[j] == b[j - |a|];
        assert a[i] in a;
      }
    }
  }

  /** `a` is `b` with some elements removed and the rest kept in order. */
  predicate IsSubsequence<T(==,!new)>(a: seq<T>, b: seq<T>)
    decreases |b|
  {
    if a == [] then true
    else if b == [] then false
    else (a[0] == b[0] && IsSubsequence(a[1..], b[1..])) || IsSubsequence(a, b[1..])
  }

  lemma {:induction false} SubsequenceOfFilter<T(!new)>(s: seq<T>, p: T -> bool)
    ensures IsSubsequence(Filter(s, p), s)
  {
    if s != [] {
      SubsequenceOfFilter(s[1..], p);
      if p(s[0]) {
        assert Filter(s, p) == [s[0]] + Filter(s[1..], p);
        assert (Filter(s, p))[1..] == Filter(s[1..], p);
      } else {
        assert Filter(s, p) == Filter(s[1..], p);
      }
    }
  }

  /** The distinct elements of `s`, each where it first occurs. */
  function Distinct<T(==,!new)>(s: seq<T>): (r: seq<T>)
    ensures NoDup(r)
    ensures forall x :: x in r <==> x in s
    ensures |r| <= |s|
  {
    if s == [] then []
    else
      var p := Distinct(s[..|s| - 1]);
      assert forall x :: x in s <==> x in s[..|s| - 1] || x == s[|s| - 1];
      if s[|s| - 1] in p then p else p + [s[|s| - 1]]
  }

  /** The position of the first occurrence of `x` in `s`. */
  function FirstIndex<T(==,!new)>(s: seq<T>, x: T): (i: nat)
    requires x in s
    ensures i < |s| && s[i] == x && x !in s[..i]
  {
    if x in s[..|s| - 1] then FirstIndex(s[..|s| - 1], x)
    else |s| - 1
  }

  lemma FirstIndexPrefix<T(!new)>(s: seq<T>, n: nat, x: T)
    requires n <= |s| && x in s[..n]
    ensures FirstIndex(s[..n], x) == FirstIndex(s, x)
  {
    var i := FirstIndex(s[..n], x);
    assert s[..n][..i] == s[..i];
  }

  /** Deduplication keeps first-seen order. */
  lemma {:induction false} DistinctFirstSeen<T(!new)>(s: seq<T>)
    ensures forall i, j :: 0 <= i < j < |Distinct(s)| ==>
              FirstIndex(s, Distinct(s)[i]) < FirstIndex(s, Distinct(s)[j])
  {
    if s != [] {
      var t := s[..|s| - 1];
      var p := Distinct(t);
      DistinctFirstSeen(t);
      forall x | x in p ensures FirstIndex(s, x) == FirstIndex(t, x) {
        FirstIndexPrefix(s, |s| - 1, x);
      }
    }
  }

  /** `f` summed over `s`. */
  function SumBy<T(!new)>(s: seq<T>, f: T -> int): int
  {
    if s == [] then 0 else f(s[0]) + SumBy(s[1..], f)
  }

  lemma {:induction false} SumByConcat<T(!new)>(a: seq<T>, b: seq<T>, f: T -> int)
    ensures SumBy(a + b, f) == SumBy(a, f) + SumBy(b, f)
  {
    if a != [] {
      assert (a + b)[0] == a[0];
      assert (a + b)[1..] == a[1..] + b;
      SumByConcat(a[1..], b, f);
    } else {
      assert a + b == b;
    }
  }

  lemma {:induction false} SumByFilterSplit<T(!new)>(s: seq<T>, p: T -> bool, q: T -> bool, f: T -> int)
    requires forall x :: q(x) == !p(x)
    ensures SumBy(Filter(s, p), f) + SumBy(Filter(s, q), f) == SumBy(s, f)
  {
    if s != [] {
      SumByFilterSplit(s[1..], p, q, f);
      SumByConcat(if p(s[0]) then [s[0]] else [], Filter(s[1..], p), f);
      SumByConcat(if q(s[0]) then [s[0]] else [], Filter(s[1..], q), f);
    }
  }

  /** In a sequence without duplicates each element occurs once. */
  lemma {:induction false} OccNoDup<T(!new)>(us: seq<T>, x: T)
    requires NoDup(us) && x in us
    ensures Occ(us, x) == 1
  {
    if us[0] == x {
      assert x !in us[1..];
    } else {
      assert NoDup(us[1..]) by {
        forall i, j | 0 <= i < j < |us[1..]| ensures us[1..][i] != us[1..][j] {
          assert us[1..][i] == us[i + 1] && us[1..][j] == us[j + 1];
        }
      }
      OccNoDup(us[1..], x);
    }
  }

  /** The occurrences in `xs` of each element of `us`, added up. */
  function SumOccs<T(==,!new)>(us: seq<T>, xs: seq<T>): nat
  {
    if us == [] then 0 else SumOccs(us[..|us| - 1], xs) + Occ(xs, us[|us| - 1])
  }

  lemma {:induction false} SumOccsSnoc<T(!new)>(us: seq<T>, xs: seq<T>, x: T)
    ensures SumOccs(us, xs + [x]) == SumOccs(us, xs) + Occ(us, x)
  {
    if us != [] {
      var p := us[..|us| - 1];
      SumOccsSnoc(p, xs, x);
      OccConcat(xs, [x], us[|us| - 1]);
      assert us == p + [us[|us| - 1]];
      OccConcat(p, [us[|us| - 1]], x);
    }
  }

  /** Counting every element of `xs` once under its own entry of a duplicate-free `us` counts all of `xs`. */
  lemma {:induction false} SumOccsAll<T(!new)>(us: seq<T>, xs: seq<T>)
    requires NoDup(us) && forall x :: x in xs ==> x in us
    ensures SumOccs(us, xs) == |xs|
  {
    if xs == [] {
      SumOccsNone(us, xs);
    } else {
      var p := xs[..|xs| - 1];
      var x := xs[|xs| - 1];
      assert xs == p + [x];
      SumOccsAll(us, p);
      SumOccsSnoc(us, p, x);
      OccNoDup(us, x);
    }
  }

  lemma {:induction false} SumOccsNone<T(!new)>(us: seq<T>, xs: seq<T>)
    requires xs == []
    ensures SumOccs(us, xs) == 0
  {
    if us != [] {
      SumOccsNone(us[..|us| - 1], xs);
    }
  }

  /** `key` does not decrease along `s`. */
  predicate SortedBy<T(!new)>(s: seq<T>, key: T -> int)
  {
    forall i, j :: 0 <= i < j < |s| ==> key(s[i]) <= key(s[j])
  }

  /**
   In a sorted run of elements satisfying `p` followed by elements that do
   not, an element satisfying `p` is preceded only by elements of the run
   with a key no larger.
   */
  lemma SortedRunOrder<T(!new)>(a: seq<T>, b: seq<T>, p: T -> bool, key: T -> int, i: nat, j: nat)
    requires SortedBy(a, key)
    requires forall x :: x in a ==> p(x)
    requires forall x :: x in b ==> !p(x)
    requires i < j < |a + b| && p((a + b)[j])
    ensures j < |a| && (a + b)[i] == a[i] && (a + b)[j] == a[j]
    ensures p((a + b)[i]) && key((a + b)[i]) <= key((a + b)[j])
  {
    assert a[i] in a;
  }

  /** `x` placed in front of the first element whose key is not smaller. */
  function InsertBy<T(==,!new)>(x: T, s: seq<T>, key: T -> int): (r: seq<T>)
    ensures multiset(r) == multiset(s) + multiset{x}
    ensures |r| == |s| + 1
  {
    if s == [] || key(x) <= key(s[0]) then [x] + s
    else
      assert s == [s[0]] + s[1..];
      [s[0]] + InsertBy(x, s[1..], key)
  }

  lemma {:induction false} InsertBySorted<T(!new)>(x: T, s: seq<T>, key: T -> int)
    requires SortedBy(s, key)
    ensures SortedBy(InsertBy(x, s, key), key)
  {
    if s != [] && key(x) > key(s[0]) {
      var t := InsertBy(x, s[1..], key);
      InsertBySorted(x, s[1..], key);
      forall y | y in t ensures key(s[0]) <= key(y) {
        assert y in multiset(t);
        assert y in multiset(s[1..]) || y == x;
      }
      assert InsertBy(x, s, key) == [s[0]] + t;
    }
  }

  /** Stable sort of `s` by `key` (insertion sort). */
  function SortBy<T(==,!new)>(s: seq<T>, key: T -> int): (r: seq<T>)
    ensures SortedBy(r, key)
    ensures multiset(r) == multiset(s)
    ensures |r| == |s|
  {
    if s == [] then []
    else
      assert s == [s[0]] + s[1..];
      InsertBySorted(s[0], SortBy(s[1..], key), key);
      InsertBy(s[0], SortBy(s[1..], key), key)
  }

  /** The elements of `s` whose key is `k`, in order. */
  function WithKey<T(!new)>(s: seq<T>, key: T -> int, k: int): (r: seq<T>)
    ensures |r| <= |s|
  {
    if s == [] then []
    else (if key(s[0]) == k then [s[0]] else []) + WithKey(s[1..], key, k)
  }

  /** Inserting `x` puts it after every element of a smaller key, so it joins the elements of its key first. */
  lemma {:induction false} WithKeyInsertBy<T(!new)>(x: T, s: seq<T>, key: T -> int, k: int)
    ensures WithKey(InsertBy(x, s, key), key, k) ==
            (if key(x) == k then [x] else []) + WithKey(s, key, k)
  {
    if s == [] || key(x) <= key(s[0]) {
      assert ([x] + s)[1..] == s;
    } else {
      WithKeyInsertBy(x, s[1..], key, k);
      var t := InsertBy(x, s[1..], key);
      assert InsertBy(x, s, key) == [s[0]] + t;
      assert ([s[0]] + t)[0] == s[0] && ([s[0]] + t)[1..] == t;
      var first: seq<T> := if key(s[0]) == k then [s[0]] else [];
      var mine: seq<T> := if key(x) == k then [x] else [];
      var rest := WithKey(s[1..], key, k);
      assert WithKey([s[0]] + t, key, k) == first + (mine + rest);
      if key(s[0]) == k {
        assert mine == [];
      } else {
        assert first == [];
      }
      ConcatAssoc(first, mine, rest);
    }
  }

  /** The sort is stable: elements with equal keys keep their relative order. */
  lemma {:induction false} SortByStable<T(!new)>(s: seq<T>, key: T -> int, k: int)
    ensures WithKey(SortBy(s, key), key, k) == WithKey(s, key, k)
  {
    if s != [] {
      SortByStable(s[1..], key, k);
      WithKeyInsertBy(s[0], SortBy(s[1..], key), key, k);
    }
  }

  lemma {:induction false} SumByInsertBy<T(!new)>(x: T, s: seq<T>, key: T -> int, f: T -> int)
    ensures SumBy(InsertBy(x, s, key), f) == f(x) + SumBy(s, f)
  {
    if s != [] && key(x) > key(s[0]) {
      SumByInsertBy(x, s[1..], key, f);
      assert ([s[0]] + InsertBy(x, s[1..], key))[1..] == InsertBy(x, s[1..], key);
    } else {
      assert ([x] + s)[1..] == s;
    }
  }

  lemma {:induction false} SumBySortBy<T(!new)>(s: seq<T>, key: T -> int, f: T -> int)
    ensures SumBy(SortBy(s, key), f) == SumBy(s, f)
  {
    if s != [] {
      SumBySortBy(s[1..], key, f);
      SumByInsertBy(s[0], SortBy(s[1..], key), key, f);
    }
  }

  /** Sorting does not change which elements are present. */
  lemma SortByMembers<T(!new)>(s: seq<T>, key: T -> int)
    ensures forall x :: x in SortBy(s, key) <==> x in s
  {
    var r := SortBy(s, key);
    forall x ensures x in r <==> x in s {
      assert x in r <==> x in multiset(r);
      assert x in s <==> x in multiset(s);
    }
  }

  /** `s.map(f)`. */
  function MapSeq<A, B>(s: seq<A>, f: A -> B): (r: seq<B>)
    ensures |r| == |s|
  {
    if s == [] then [] else MapSeq(s[..|s| - 1], f) + [f(s[|s| - 1])]
  }

  lemma {:induction false} MapSeqAt<A, B>(s: seq<A>, f: A -> B)
    ensures forall i :: 0 <= i < |s| ==> MapSeq(s, f)[i] == f(s[i])
  {
    if s != [] {
      MapSeqAt(s[..|s| - 1], f);
    }
  }

  lemma MapSeqSnoc<A, B>(s: seq<A>, x: A, f: A -> B)
    ensures MapSeq(s + [x], f) == MapSeq(s, f) + [f(x)]
  {
    assert (s + [x])[..|s|] == s;
  }

  lemma {:induction false} MapSeqConcat<A, B>(a: seq<A>, b: seq<A>, f: A -> B)
    ensures MapSeq(a + b, f) == MapSeq(a, f) + MapSeq(b, f)
  {
    if b != [] {
      var c := b[..|b| - 1];
      var x := b[|b| - 1];
      assert a + b == (a + c) + [x];
      MapSeqSnoc(a + c, x, f);
      MapSeqConcat(a, c, f);
      ConcatAssoc(MapSeq(a, f), MapSeq(c, f), [f(x)]);
    } else {
      assert a + b == a;
    }
  }

  /** Where an element of a sequence ends up after the sort. */
  lemma SortByIndexOf<T(!new)>(s: seq<T>, key: T -> int, k: nat) returns (i: nat)
    requires k < |s|
    ensures i < |SortBy(s, key)| && SortBy(s, key)[i] == s[k]
  {
    SortByMembers(s, key);
    assert s[k] in s;
    i :| 0 <= i < |SortBy(s, key)| && SortBy(s, key)[i] == s[k];
  }

  /** A permutation of a sequence without duplicates has none either. */
  lemma NoDupPermutation<T(!new)>(a: seq<T>, b: seq<T>)
    requires multiset(a) == multiset(b) && NoDup(a)
    ensures NoDup(b)
  {
    forall i, j | 0 <= i < j < |b| ensures b[i] != b[j] {
      var x := b[i];
      NoDupCount(a, x);
      assert b == b[..i] + [x] + b[i + 1..j] + [b[j]] + b[j + 1..];
    }
  }

  lemma {:induction false} NoDupCount<T(!new)>(a: seq<T>, x: T)
    requires NoDup(a)
    ensures multiset(a)[x] <= 1
  {
    if a != [] {
      assert a == [a[0]] + a[1..];
      assert NoDup(a[1..]) by {
        forall i, j | 0 <= i < j < |a[1..]| ensures a[1..][i] != a[1..][j] {
          assert a[1..][i] == a[i + 1] && a[1..][j] == a[j + 1];
        }
      }
      NoDupCount(a[1..], x);
      if a[0] == x {
        assert x !in a[1..];
        assert multiset(a[1..])[x] == 0;
      }
    }
  }
}
