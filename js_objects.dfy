/**
 Plain JavaScript objects used as dictionaries: every key is a string, a key
 is created by the first assignment to it and keeps its place afterwards,
 and `Object.keys` lists the keys that are array indices first, in ascending
 numeric order, then all other keys in creation order (OrdinaryOwnPropertyKeys,
 section 10.1.11.1 of ECMA-262). Counting folds over such objects are here too.
 */
module JsObjects {
  import opened Seqs
  import opened JsText
  import opened JsNumbers

  /** The largest array index, 2^32 - 2. */
  const MaxArrayIndex: nat := 4294967294

  /** A canonical decimal numeral whose value is an array index. */
  predicate IsArrayIndex(k: string)
  {
    |k| >= 1 && AllDigits(k) && (k[0] != '0' || |k| == 1) && DigitsValue(k) <= MaxArrayIndex
  }

  predicate IsNamedKey(k: string)
  {
    !IsArrayIndex(k)
  }

  /** The numeric value by which array-index keys are ordered. */
  function IndexValue(k: string): int
  {
    if AllDigits(k) then DigitsValue(k) else 0
  }

  /** The order in which `Object.keys` reports the keys created in the order `created`. */
  function OwnKeys(created: seq<string>): (r: seq<string>)
    ensures forall k :: k in r <==> k in created
  {
    var ix := Filter(created, IsArrayIndex);
    var named := Filter(created, IsNamedKey);
    SortByMembers(ix, IndexValue);
    SortBy(ix, IndexValue) + named
  }

  /** Listing the keys neither loses nor repeats one. */
  lemma OwnKeysNoDup(created: seq<string>)
    requires NoDup(created)
    ensures NoDup(OwnKeys(created))
  {
    var ix := Filter(created, IsArrayIndex);
    var named := Filter(created, IsNamedKey);
    FilterNoDup(created, IsArrayIndex);
    FilterNoDup(created, IsNamedKey);
    NoDupPermutation(ix, SortBy(ix, IndexValue));
    SortByMembers(ix, IndexValue);
    NoDupConcat(SortBy(ix, IndexValue), named);
  }

  /** Array-index keys come first, in strictly ascending numeric order. */
  lemma OwnKeysOrder(created: seq<string>, i: nat, j: nat)
    requires NoDup(created)
    requires i < j < |OwnKeys(created)| && IsArrayIndex(OwnKeys(created)[j])
    ensures IsArrayIndex(OwnKeys(created)[i])
    ensures IndexValue(OwnKeys(created)[i]) < IndexValue(OwnKeys(created)[j])
  {
    var ix := Filter(created, IsArrayIndex);
    var sorted := SortBy(ix, IndexValue);
    FilterNoDup(created, IsArrayIndex);
    NoDupPermutation(ix, sorted);
    SortByMembers(ix, IndexValue);
    SortedRunOrder(sorted, Filter(created, IsNamedKey), IsArrayIndex, IndexValue, i, j);
    assert sorted[i] != sorted[j];
    IndexValueInjective(sorted[i], sorted[j]);
  }

  /** The other keys keep their creation order. */
  lemma OwnKeysNamedOrder(created: seq<string>)
    ensures Filter(OwnKeys(created), IsNamedKey) == Filter(created, IsNamedKey)
  {
    var ix := Filter(created, IsArrayIndex);
    var named := Filter(created, IsNamedKey);
    SortByMembers(ix, IndexValue);
    FilterConcat(SortBy(ix, IndexValue), named, IsNamedKey);
    FilterNone(SortBy(ix, IndexValue), IsNamedKey);
    FilterAll(named, IsNamedKey);
  }

  lemma IndexValueInjective(a: string, b: string)
    requires IsArrayIndex(a) && IsArrayIndex(b)
    ensures IndexValue(a) == IndexValue(b) ==> a == b
  {
    NatToStringOfDigitsValue(a);
    NatToStringOfDigitsValue(b);
  }

  /** The key an integer becomes: `String(n)` is an array index exactly when 0 <= n <= 2^32 - 2. */
  lemma IntKeyClass(n: int)
    ensures IsArrayIndex(IntToString(n)) <==> 0 <= n <= MaxArrayIndex
    ensures 0 <= n ==> IndexValue(IntToString(n)) == n
  {
    if n >= 0 {
      DigitsValueOfNatToString(n);
    } else {
      assert IntToString(n)[0] == '-';
    }
  }

  /**
   A plain object used as a dictionary: the keys in the order they were
   created, and the current value of each.
   */
  datatype Dict<V> = Dict(created: seq<string>, entries: map<string, V>)
  {
    /** Each key is created once and every created key holds a value. */
    ghost predicate Valid()
    {
      NoDup(created) && forall k :: k in created <==> k in entries
    }

    /** `Object.keys(d)`. */
    function Keys(): seq<string>
    {
      OwnKeys(created)
    }

    /** `d[k]`, with `absent` standing for `undefined`. */
    function Get(k: string, absent: V): V
    {
      if k in entries then entries[k] else absent
    }

    /** `d[k] = v`: a new key goes after the existing ones, an existing key keeps its place. */
    function Put(k: string, v: V): (r: Dict<V>)
      ensures Valid() ==> r.Valid()
      ensures r.Get(k, v) == v
    {
      if k in entries then Dict(created, entries[k := v])
      else Dict(created + [k], entries[k := v])
    }
  }

  /** Storing a key's current value, or `absent` when it has none, changes nothing else. */
  lemma PutGet<V>(d: Dict<V>, k: string, absent: V)
    ensures d.Put(k, d.Get(k, absent)) == if k in d.entries then d else d.Put(k, absent)
  {
    if k in d.entries {
      assert d.entries[k := d.entries[k]] == d.entries;
    }
  }

  /** `if (!d[k]) d[k] = v` stores the value `k` already has, or `v`. */
  lemma EnsuredKey<V>(d: Dict<V>, e: Dict<V>, k: string, v: V)
    requires e == if k !in d.entries then d.Put(k, v) else d
    ensures e == d.Put(k, d.Get(k, v))
  {
    PutGet(d, k, v);
  }

  /** A second assignment to a key overrides the first and leaves the key where the first put it. */
  lemma PutPut<V>(d: Dict<V>, k: string, a: V, b: V)
    ensures d.Put(k, a).Put(k, b) == d.Put(k, b)
  {
    assert d.entries[k := a][k := b] == d.entries[k := b];
  }

  /** `{}`. */
  function Empty<V>(): (d: Dict<V>)
    ensures d.Valid()
  {
    Dict([], map[])
  }

  /**
   One count added under `k`: `if (!d[k]) d[k] = 0; d[k]++` and
   `if (!d[k]) d[k] = 1; else d[k]++` both leave `d[k]` one larger, a
   missing key counting as 0.
   */
  function Increment(d: Dict<int>, k: string): Dict<int>
  {
    d.Put(k, d.Get(k, 0) + 1)
  }

  /** `d[k] = 1` where `d[k]` is undefined counts `k` once. */
  lemma IncrementAbsent(d: Dict<int>, k: string)
    requires d.Get(k, 0) == 0
    ensures Increment(d, k) == d.Put(k, 1)
  {
  }

  lemma IncrementFacts(d: Dict<int>, k: string)
    requires d.Valid()
    ensures Increment(d, k).Valid()
    ensures Increment(d, k).created == if k in d.created then d.created else d.created + [k]
    ensures forall j :: j in Increment(d, k).entries <==> j in d.entries || j == k
    ensures forall j :: Increment(d, k).Get(j, 0) == d.Get(j, 0) + (if j == k then 1 else 0)
  {
  }

  /** `if (!d[k]) d[k] = 0; d[k]++` is one increment. */
  lemma ResetThenIncrement(d: Dict<int>, k: string)
    ensures var e := if d.Get(k, 0) == 0 then d.Put(k, 0) else d;
            e.Put(k, e.Get(k, 0) + 1) == Increment(d, k)
  {
  }

  /** The object after counting every key of `ks` in turn, starting from `{}`. */
  function Tally(ks: seq<string>): Dict<int>
  {
    if ks == [] then Empty() else Increment(Tally(ks[..|ks| - 1]), ks[|ks| - 1])
  }

  /** Counting creates one key per distinct value, in first-seen order. */
  lemma {:induction false} TallyShape(ks: seq<string>)
    ensures Tally(ks).Valid()
    ensures Tally(ks).created == Distinct(ks)
  {
    if ks != [] {
      var p := ks[..|ks| - 1];
      TallyShape(p);
      IncrementFacts(Tally(p), ks[|ks| - 1]);
    }
  }

  /** Each key holds its number of occurrences, a value never counted holding none. */
  lemma {:induction false} TallyCounts(ks: seq<string>)
    ensures forall k :: Tally(ks).Get(k, 0) == Occ(ks, k)
  {
    if ks != [] {
      var p := ks[..|ks| - 1];
      var x := ks[|ks| - 1];
      TallyCounts(p);
      assert ks == p + [x];
      forall k ensures Tally(ks).Get(k, 0) == Occ(ks, k) {
        OccConcat(p, [x], k);
      }
    }
  }

  /** Counting creates one key per distinct value, in first-seen order, holding its number of occurrences. */
  lemma TallyFacts(ks: seq<string>)
    ensures Tally(ks).Valid()
    ensures Tally(ks).created == Distinct(ks)
    ensures forall k :: k in Tally(ks).entries <==> k in ks
    ensures forall k :: Tally(ks).Get(k, 0) == Occ(ks, k)
  {
    TallyShape(ks);
    TallyCounts(ks);
  }

  /** The values that `ps` pairs with `a`, in order. */
  function SecondsOf(ps: seq<(string, string)>, a: string): (r: seq<string>)
    ensures |r| <= |ps|
  {
    if ps == [] then []
    else
      var p := SecondsOf(ps[..|ps| - 1], a);
      var last := ps[|ps| - 1];
      if last.0 == a then p + [last.1] else p
  }

  function Firsts(ps: seq<(string, string)>): (r: seq<string>)
    ensures |r| == |ps|
    ensures forall i :: 0 <= i < |ps| ==> r[i] == ps[i].0
  {
    if ps == [] then [] else Firsts(ps[..|ps| - 1]) + [ps[|ps| - 1].0]
  }

  lemma {:induction false} SecondsOfAbsent(ps: seq<(string, string)>, a: string)
    requires a !in Firsts(ps)
    ensures SecondsOf(ps, a) == []
  {
    if ps != [] {
      assert Firsts(ps[..|ps| - 1]) == Firsts(ps)[..|ps| - 1];
      SecondsOfAbsent(ps[..|ps| - 1], a);
    }
  }

  /** `b` is paired with `a` in `SecondsOf(ps, a)` as often as the pair `(a, b)` occurs in `ps`. */
  lemma {:induction false} OccSecondsOf(ps: seq<(string, string)>, a: string, b: string)
    ensures Occ(SecondsOf(ps, a), b) == Occ(ps, (a, b))
  {
    if ps != [] {
      var p := ps[..|ps| - 1];
      var x := ps[|ps| - 1];
      OccSecondsOf(p, a, b);
      assert ps == p + [x];
      OccConcat(p, [x], (a, b));
      if x.0 == a {
        OccConcat(SecondsOf(p, a), [x.1], b);
      }
    }
  }

  /** `a` is paired with as many values as it occurs first in a pair. */
  lemma {:induction false} SecondsOfLength(ps: seq<(string, string)>, a: string)
    ensures |SecondsOf(ps, a)| == Occ(Firsts(ps), a)
  {
    if ps != [] {
      var p := ps[..|ps| - 1];
      SecondsOfLength(p, a);
      assert Firsts(ps) == Firsts(p) + [ps[|ps| - 1].0];
      OccConcat(Firsts(p), [ps[|ps| - 1].0], a);
    }
  }

  /** `m[a]` created as `{}` when missing, then `m[a][b]` counted. */
  function IncrementPair(m: Dict<Dict<int>>, a: string, b: string): Dict<Dict<int>>
  {
    m.Put(a, Increment(m.Get(a, Empty()), b))
  }

  /** The nested object after counting every pair of `ps` in turn, starting from `{}`. */
  function TallyPairs(ps: seq<(string, string)>): Dict<Dict<int>>
  {
    if ps == [] then Empty() else
      var last := ps[|ps| - 1];
      IncrementPair(TallyPairs(ps[..|ps| - 1]), last.0, last.1)
  }

  /** The outer keys are the distinct first components; under each sits the count of its second components. */
  lemma {:induction false} TallyPairsFacts(ps: seq<(string, string)>)
    ensures TallyPairs(ps).Valid()
    ensures TallyPairs(ps).created == Distinct(Firsts(ps))
    ensures forall a :: TallyPairs(ps).Get(a, Empty()) == Tally(SecondsOf(ps, a))
  {
    if ps != [] {
      var p := ps[..|ps| - 1];
      var last := ps[|ps| - 1];
      TallyPairsFacts(p);
      assert Firsts(ps)[..|ps| - 1] == Firsts(p);
      forall a ensures TallyPairs(ps).Get(a, Empty()) == Tally(SecondsOf(ps, a)) {
        if a == last.0 {
          var s := SecondsOf(ps, a);
          assert s[..|s| - 1] == SecondsOf(p, a);
        }
      }
    }
  }
}
