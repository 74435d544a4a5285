// Stable sorting by a key, as the standard library's sort does it
module Sorting {
  function Insert<T>(x: T, s: seq<T>, key: T -> int): seq<T> {
    if s == [] || key(x) <= key(s[0]) then [x] + s else [s[0]] + Insert(x, s[1..], key)
  }

  function StableSort<T>(s: seq<T>, key: T -> int): seq<T> {
    if s == [] then [] else Insert(s[0], StableSort(s[1..], key), key)
  }

  function Keyed<T>(s: seq<T>, key: T -> int, k: int): seq<T> {
    if s == [] then [] else (if key(s[0]) == k then [s[0]] else []) + Keyed(s[1..], key, k)
  }

  ghost predicate Ascending<T>(s: seq<T>, key: T -> int) {
    forall i, j :: 0 <= i < j < |s| ==> key(s[i]) <= key(s[j])
  }

  lemma {:induction false} InsertAdds<T>(x: T, s: seq<T>, key: T -> int)
    ensures multiset(Insert(x, s, key)) == multiset{x} + multiset(s)
  {
    if s != [] && key(x) > key(s[0]) {
      InsertAdds(x, s[1..], key);
      assert s == [s[0]] + s[1..];
    }
  }

  lemma {:induction false} InsertSorts<T>(x: T, s: seq<T>, key: T -> int)
    requires Ascending(s, key)
    ensures Ascending(Insert(x, s, key), key)
  {
    if s != [] && key(x) > key(s[0]) {
      InsertSorts(x, s[1..], key);
      var rest := Insert(x, s[1..], key);
      InsertAdds(x, s[1..], key);
      forall i | 0 <= i < |rest| ensures key(s[0]) <= key(rest[i]) {
        assert rest[i] in multiset(rest);
      }
    }
  }

  lemma {:induction false} InsertStable<T>(x: T, s: seq<T>, key: T -> int, k: int)
    ensures Keyed(Insert(x, s, key), key, k) == Keyed([x] + s, key, k)
  {
    assert ([x] + s)[1..] == s;
    if s != [] && key(x) > key(s[0]) {
      InsertStable(x, s[1..], key, k);
      assert ([x] + s[1..])[1..] == s[1..];
      assert ([s[0]] + Insert(x, s[1..], key))[1..] == Insert(x, s[1..], key);
    }
  }

  // The result is in order, holds the same elements, and elements of equal key keep their order.
  lemma {:induction false} SortIsStable<T>(s: seq<T>, key: T -> int)
    ensures Ascending(StableSort(s, key), key) && multiset(StableSort(s, key)) == multiset(s)
    ensures forall k :: Keyed(StableSort(s, key), key, k) == Keyed(s, key, k)
  {
    if s != [] {
      var rest := StableSort(s[1..], key);
      SortIsStable(s[1..], key);
      InsertSorts(s[0], rest, key);
      InsertAdds(s[0], rest, key);
      assert s == [s[0]] + s[1..];
      forall k ensures Keyed(StableSort(s, key), key, k) == Keyed(s, key, k) {
        InsertStable(s[0], rest, key, k);
        assert ([s[0]] + rest)[1..] == rest;
      }
    }
  }

  ghost predicate Distinct<T>(s: seq<T>, key: T -> int) {
    forall i, j :: 0 <= i < j < |s| ==> key(s[i]) != key(s[j])
  }

  ghost predicate StrictlyAscending<T>(s: seq<T>, key: T -> int) {
    forall i, j :: 0 <= i < j < |s| ==> key(s[i]) < key(s[j])
  }

  // Distinct, said one element at a time

  predicate Fresh<T>(k: int, s: seq<T>, key: T -> int) {
    s == [] || (key(s[0]) != k && Fresh(k, s[1..], key))
  }

  predicate EachFresh<T>(s: seq<T>, key: T -> int) {
    s == [] || (Fresh(key(s[0]), s[1..], key) && EachFresh(s[1..], key))
  }

  lemma {:induction false} FreshMeans<T>(k: int, s: seq<T>, key: T -> int)
    ensures Fresh(k, s, key) <==> forall i :: 0 <= i < |s| ==> key(s[i]) != k
  {
    if s != [] {
      FreshMeans(k, s[1..], key);
      assert forall i :: 0 < i < |s| ==> s[i] == s[1..][i - 1];
    }
  }

  lemma {:induction false} EachFreshIsDistinct<T>(s: seq<T>, key: T -> int)
    ensures EachFresh(s, key) <==> Distinct(s, key)
  {
    if s != [] {
      EachFreshIsDistinct(s[1..], key);
      FreshMeans(key(s[0]), s[1..], key);
      assert forall i :: 0 < i < |s| ==> s[i] == s[1..][i - 1];
    }
  }

  lemma {:induction false} FreshInsert<T>(k: int, x: T, s: seq<T>, key: T -> int)
    ensures Fresh(k, Insert(x, s, key), key) <==> key(x) != k && Fresh(k, s, key)
  {
    assert ([x] + s)[1..] == s;
    if s != [] && key(x) > key(s[0]) {
      FreshInsert(k, x, s[1..], key);
      assert ([s[0]] + Insert(x, s[1..], key))[1..] == Insert(x, s[1..], key);
    }
  }

  lemma {:induction false} EachFreshInsert<T>(x: T, s: seq<T>, key: T -> int)
    ensures EachFresh(Insert(x, s, key), key) <==> Fresh(key(x), s, key) && EachFresh(s, key)
  {
    assert ([x] + s)[1..] == s;
    if s != [] && key(x) > key(s[0]) {
      EachFreshInsert(x, s[1..], key);
      FreshInsert(key(s[0]), x, s[1..], key);
      assert ([s[0]] + Insert(x, s[1..], key))[1..] == Insert(x, s[1..], key);
    }
  }

  lemma {:induction false} FreshSort<T>(k: int, s: seq<T>, key: T -> int)
    ensures Fresh(k, StableSort(s, key), key) <==> Fresh(k, s, key)
  {
    if s != [] {
      FreshSort(k, s[1..], key);
      FreshInsert(k, s[0], StableSort(s[1..], key), key);
    }
  }

  lemma {:induction false} EachFreshSort<T>(s: seq<T>, key: T -> int)
    ensures EachFresh(StableSort(s, key), key) <==> EachFresh(s, key)
  {
    if s != [] {
      EachFreshSort(s[1..], key);
      EachFreshInsert(s[0], StableSort(s[1..], key), key);
      FreshSort(key(s[0]), s[1..], key);
    }
  }

  // Sorting neither makes nor hides a repeated key.
  lemma SortKeepsDistinct<T>(s: seq<T>, key: T -> int)
    ensures Distinct(StableSort(s, key), key) <==> Distinct(s, key)
  {
    EachFreshSort(s, key);
    EachFreshIsDistinct(s, key);
    EachFreshIsDistinct(StableSort(s, key), key);
  }

  // Distinct keys come out strictly in order.
  lemma DistinctSortsStrictly<T>(s: seq<T>, key: T -> int)
    requires Distinct(s, key)
    ensures StrictlyAscending(StableSort(s, key), key)
  {
    SortIsStable(s, key);
    SortKeepsDistinct(s, key);
  }

  // Runs of equal neighbours cut down to one
  function Dedup<T(==)>(s: seq<T>): seq<T> {
    if |s| < 2 then s else if s[0] == s[1] then Dedup(s[1..]) else [s[0]] + Dedup(s[1..])
  }

  // Elements of one key are one element.
  ghost predicate Tells<T>(s: seq<T>, key: T -> int) {
    forall i, j :: 0 <= i < j < |s| && key(s[i]) == key(s[j]) ==> s[i] == s[j]
  }

  lemma {:induction false} DedupKeeps<T(!new)>(s: seq<T>)
    ensures s != [] ==> Dedup(s) != [] && Dedup(s)[0] == s[0]
    ensures forall x :: x in Dedup(s) <==> x in s
  {
    if |s| >= 2 {
      DedupKeeps(s[1..]);
      assert s == [s[0]] + s[1..];
    }
  }

  lemma {:induction false} DedupAscends<T(!new)>(s: seq<T>, key: T -> int)
    requires Ascending(s, key) && Tells(s, key)
    ensures StrictlyAscending(Dedup(s), key)
  {
    if |s| >= 2 {
      var tail := s[1..];
      DedupAscends(tail, key);
      DedupKeeps(tail);
      var rest := Dedup(tail);
      if s[0] != s[1] {
        assert rest[0] == s[1] && key(s[0]) < key(s[1]);
        forall i | 0 <= i < |rest| ensures key(s[0]) < key(rest[i]) {
          assert i > 0 ==> key(rest[0]) < key(rest[i]);
        }
      }
    }
  }

  // Sorted, and each element once
  function SortedOnce<T(==)>(s: seq<T>, key: T -> int): seq<T> {
    Dedup(StableSort(s, key))
  }

  lemma SortedOnceFacts<T(!new)>(s: seq<T>, key: T -> int)
    requires forall x, y :: key(x) == key(y) ==> x == y
    ensures StrictlyAscending(SortedOnce(s, key), key)
    ensures forall x :: x in SortedOnce(s, key) <==> x in s
  {
    var sorted := StableSort(s, key);
    SortIsStable(s, key);
    DedupAscends(sorted, key);
    DedupKeeps(sorted);
    forall x ensures x in sorted <==> x in s {
      assert x in sorted <==> x in multiset(sorted);
      assert x in s <==> x in multiset(s);
    }
  }

  function Total<T>(s: seq<T>, weight: T -> int): int {
    if s == [] then 0 else weight(s[0]) + Total(s[1..], weight)
  }

  lemma {:induction false} InsertTotal<T>(x: T, s: seq<T>, key: T -> int, weight: T -> int)
    ensures Total(Insert(x, s, key), weight) == weight(x) + Total(s, weight)
  {
    if s != [] && key(x) > key(s[0]) {
      InsertTotal(x, s[1..], key, weight);
    } else {
      assert ([x] + s)[1..] == s;
    }
  }

  lemma {:induction false} SortTotal<T>(s: seq<T>, key: T -> int, weight: T -> int)
    ensures Total(StableSort(s, key), weight) == Total(s, weight)
  {
    if s != [] {
      SortTotal(s[1..], key, weight);
      InsertTotal(s[0], StableSort(s[1..], key), key, weight);
    }
  }

  lemma {:induction false} TotalConcat<T>(a: seq<T>, b: seq<T>, weight: T -> int)
    ensures Total(a + b, weight) == Total(a, weight) + Total(b, weight)
  {
    if a == [] {
      assert a + b == b;
    } else {
      assert (a + b)[1..] == a[1..] + b;
      TotalConcat(a[1..], b, weight);
    }
  }

  lemma {:induction false} TotalUpdate<T>(s: seq<T>, at: nat, x: T, weight: T -> int)
    requires at < |s|
    ensures Total(s[at := x], weight) == Total(s, weight) - weight(s[at]) + weight(x)
  {
    if at > 0 {
      TotalUpdate(s[1..], at - 1, x, weight);
      assert s[at := x][1..] == s[1..][at - 1 := x];
    } else {
      assert s[at := x][1..] == s[1..];
    }
  }

  lemma TotalOfOne<T>(x: T, weight: T -> int)
    ensures Total([x], weight) == weight(x)
  {
    assert Total([x][1..], weight) == 0;
  }

  lemma {:induction false} TotalOfLike<T>(s: seq<T>, weight: T -> int, each: int)
    requires forall i :: 0 <= i < |s| ==> weight(s[i]) == each
    ensures Total(s, weight) == each * |s|
  {
    if s != [] {
      TotalOfLike(s[1..], weight, each);
      assert each * |s| == each + each * |s[1..]|;
    }
  }

  lemma {:induction false} TotalAtLeast<T>(s: seq<T>, at: nat, weight: T -> int)
    requires at < |s| && forall i :: 0 <= i < |s| ==> weight(s[i]) >= 0
    ensures 0 <= weight(s[at]) <= Total(s, weight)
  {
    if at > 0 {
      TotalAtLeast(s[1..], at - 1, weight);
    } else if |s| > 1 {
      TotalAtLeast(s[1..], 0, weight);
    }
  }
}
