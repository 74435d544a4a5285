// Host keys: the table and the index the build writes, the lookup, and the choice of host key for a request.
module HostKeys {
  import opened Bits
  import opened Prelude
  import opened Entropy
  import KeyBlocks
  import Sorting

  datatype Product = Product(
    activationId: Guid, isHostKey: bool, application: Option<Guid>, countedIds: seq<Guid>,
    keyBlocks: seq<KeyBlocks.KeyBlock>)

  // One row of the index: a counted ID and the positions of the host keys that count it
  datatype CountedId = CountedId(guid: Guid, csvlks: seq<nat>)

  datatype Tables = Tables(hostKeys: seq<Product>, countedIds: seq<CountedId>)

  const MAX_HOST_KEYS: nat := 0x1_0000

  function ActivationId(product: Product): int { product.activationId }

  function HostKeysOf(products: seq<Product>): seq<Product> {
    if products == [] then []
    else
      var last := products[|products| - 1];
      HostKeysOf(products[..|products| - 1]) + if last.isHostKey then [last] else []
  }

  // ---- the index as a scan would have it

  // The positions of the host keys that count an ID
  function Scan(hostKeys: seq<Product>, guid: Guid): (at: seq<nat>)
    ensures forall i :: i in at ==> i < |hostKeys|
  {
    if hostKeys == [] then []
    else
      var n := |hostKeys| - 1;
      Scan(hostKeys[..n], guid) + if guid in hostKeys[n].countedIds then [n] else []
  }

  ghost predicate Ascending(s: seq<nat>) {
    forall i, j :: 0 <= i < j < |s| ==> s[i] < s[j]
  }

  lemma {:induction false} ScanFacts(hostKeys: seq<Product>, guid: Guid)
    ensures Ascending(Scan(hostKeys, guid))
    ensures forall i: nat :: i in Scan(hostKeys, guid) <==> i < |hostKeys| && guid in hostKeys[i].countedIds
  {
    if hostKeys != [] {
      var before := hostKeys[..|hostKeys| - 1];
      ScanFacts(before, guid);
      var found := Scan(before, guid);
      forall k | 0 <= k < |found| ensures found[k] < |before| {
        assert found[k] in found;
      }
      forall i: nat | i < |before| ensures i in Scan(hostKeys, guid) <==> guid in hostKeys[i].countedIds {
        assert before[i] == hostKeys[i];
      }
    }
  }

  lemma AscendingFront(s: seq<nat>)
    requires Ascending(s) && s != []
    ensures Ascending(s[..|s| - 1])
    ensures forall i: nat :: i in s[..|s| - 1] <==> i in s && i != s[|s| - 1]
    ensures forall i: nat :: i in s ==> i <= s[|s| - 1]
  {
    var front, last := s[..|s| - 1], s[|s| - 1];
    assert s == front + [last];
    assert forall k :: 0 <= k < |front| ==> front[k] < last;
  }

  lemma First(s: seq<nat>) returns (i: nat)
    requires s != []
    ensures i in s
  {
    i := s[0];
  }

  // Two ascending sequences of the same elements are one.
  lemma {:induction false} AscendingUnique(a: seq<nat>, b: seq<nat>)
    requires Ascending(a) && Ascending(b) && forall i: nat :: i in a <==> i in b
    ensures a == b
  {
    hide Ascending;
    if a == [] {
      if b != [] {
        var _ := First(b);
      }
    } else {
      assert a[|a| - 1] in b;
      AscendingFront(a);
      AscendingFront(b);
      assert b[|b| - 1] in a;
      var frontA, frontB := a[..|a| - 1], b[..|b| - 1];
      assert a[|a| - 1] == b[|b| - 1];
      forall i: nat ensures i in frontA <==> i in frontB {
        assert i in frontA <==> i in a && i != a[|a| - 1];
      }
      AscendingUnique(frontA, frontB);
      assert a == a[..|a| - 1] + [a[|a| - 1]] && b == b[..|b| - 1] + [b[|b| - 1]];
    }
  }

  // ---- the ordered map from counted IDs to positions

  ghost predicate KeysSorted(table: seq<CountedId>) {
    forall i, j :: 0 <= i < j < |table| ==> table[i].guid < table[j].guid
  }

  ghost predicate Listed(table: seq<CountedId>, guid: Guid, i: nat) {
    exists e :: 0 <= e < |table| && table[e].guid == guid && i in table[e].csvlks
  }

  // Where a counted ID is, or where it would go
  function Place(table: seq<CountedId>, guid: Guid): (at: nat)
    ensures at <= |table| && (at < |table| ==> table[at].guid >= guid)
    ensures forall i :: 0 <= i < at ==> table[i].guid < guid
  {
    if table == [] || table[0].guid >= guid then 0 else 1 + Place(table[1..], guid)
  }

  // A position pushed on the row of a counted ID, which is made if there is none
  function Pushed(table: seq<CountedId>, guid: Guid, i: nat): seq<CountedId> {
    var at := Place(table, guid);
    if at < |table| && table[at].guid == guid then table[at := CountedId(guid, table[at].csvlks + [i])]
    else table[..at] + [CountedId(guid, [i])] + table[at..]
  }

  lemma PushedSorted(table: seq<CountedId>, guid: Guid, i: nat)
    requires KeysSorted(table)
    ensures KeysSorted(Pushed(table, guid, i))
  {}

  // Where a row of the table is after the push, and what it holds
  lemma RowAfter(table: seq<CountedId>, guid: Guid, i: nat, e: nat)
    requires e < |table|
    ensures var at, after := Place(table, guid), Pushed(table, guid, i);
      var f := if e < at || |after| == |table| then e else e + 1;
      f < |after| && after[f].guid == table[e].guid
      && after[f].csvlks == table[e].csvlks + if f == at then [i] else []
  {
    hide Place;
    var at, after := Place(table, guid), Pushed(table, guid, i);
    assert table[e].csvlks + [] == table[e].csvlks;
    if at < |table| && table[at].guid == guid {
      assert after == table[at := CountedId(guid, table[at].csvlks + [i])];
    } else {
      Inserted(table, at, CountedId(guid, [i]), e);
    }
  }

  lemma Inserted(table: seq<CountedId>, at: nat, row: CountedId, e: nat)
    requires at <= |table| && e < |table|
    ensures (table[..at] + [row] + table[at..])[if e < at then e else e + 1] == table[e]
  {}

  lemma ListedStays(table: seq<CountedId>, guid: Guid, i: nat, g: Guid, k: nat)
    requires Listed(table, g, k)
    ensures Listed(Pushed(table, guid, i), g, k)
  {
    hide Place, Pushed;
    var e :| 0 <= e < |table| && table[e].guid == g && k in table[e].csvlks;
    RowAfter(table, guid, i, e);
  }

  lemma ListedWas(table: seq<CountedId>, guid: Guid, i: nat, g: Guid, k: nat)
    requires Listed(Pushed(table, guid, i), g, k) && !(g == guid && k == i)
    ensures Listed(table, g, k)
  {
    hide Place;
    var at, after := Place(table, guid), Pushed(table, guid, i);
    var f :| 0 <= f < |after| && after[f].guid == g && k in after[f].csvlks;
    assert after[at].guid == guid && (|after| > |table| ==> after[at].csvlks == [i]);
    assert f != at || |after| == |table|;
    var e := if f < at || |after| == |table| then f else f - 1;
    RowAfter(table, guid, i, e);
    assert k in table[e].csvlks;
  }

  lemma PushedLists(table: seq<CountedId>, guid: Guid, i: nat, g: Guid, k: nat)
    ensures Listed(Pushed(table, guid, i), g, k) <==> Listed(table, g, k) || (g == guid && k == i)
  {
    var at, after := Place(table, guid), Pushed(table, guid, i);
    assert i in after[at].csvlks && after[at].guid == guid;
    if Listed(table, g, k) {
      ListedStays(table, guid, i, g, k);
    } else if Listed(after, g, k) && !(g == guid && k == i) {
      ListedWas(table, guid, i, g, k);
    }
  }

  function Itself(i: nat): int { i }

  function Tidied(row: CountedId): CountedId {
    row.(csvlks := Sorting.SortedOnce(row.csvlks, Itself))
  }

  lemma TidiedFacts(row: CountedId)
    ensures Ascending(Tidied(row).csvlks)
    ensures forall i: nat :: i in Tidied(row).csvlks <==> i in row.csvlks
  {
    Sorting.SortedOnceFacts(row.csvlks, Itself);
    var tidied := Tidied(row).csvlks;
    forall i, j | 0 <= i < j < |tidied| ensures tidied[i] < tidied[j] {
      assert Itself(tidied[i]) < Itself(tidied[j]);
    }
  }

  // ---- the build

  // What the rows pushed so far hold: every ID of the first `done` host keys, and the first `part` of the next
  ghost predicate Counted(hostKeys: seq<Product>, done: nat, part: nat, guid: Guid, i: nat) {
    || (i < done && i < |hostKeys| && guid in hostKeys[i].countedIds)
    || (i == done && done < |hostKeys| && part <= |hostKeys[done].countedIds|
        && guid in hostKeys[done].countedIds[..part])
  }

  ghost predicate Indexes(table: seq<CountedId>, hostKeys: seq<Product>, done: nat, part: nat) {
    KeysSorted(table) && forall guid: Guid, i: nat :: Listed(table, guid, i) <==> Counted(hostKeys, done, part, guid, i)
  }

  lemma PushKeepsIndex(table: seq<CountedId>, hostKeys: seq<Product>, done: nat, part: nat)
    requires Indexes(table, hostKeys, done, part) && done < |hostKeys| && part < |hostKeys[done].countedIds|
    ensures Indexes(Pushed(table, hostKeys[done].countedIds[part], done), hostKeys, done, part + 1)
  {
    hide Listed, Pushed, KeysSorted;
    var ids := hostKeys[done].countedIds;
    PushedSorted(table, ids[part], done);
    assert ids[..part + 1] == ids[..part] + [ids[part]];
    forall guid: Guid, i: nat
      ensures Listed(Pushed(table, ids[part], done), guid, i) <==> Counted(hostKeys, done, part + 1, guid, i)
    {
      PushedLists(table, ids[part], done, guid, i);
    }
  }

  lemma NextKey(table: seq<CountedId>, hostKeys: seq<Product>, done: nat)
    requires done < |hostKeys| && Indexes(table, hostKeys, done, |hostKeys[done].countedIds|)
    ensures Indexes(table, hostKeys, done + 1, 0)
  {
    hide Listed, KeysSorted;
    var ids := hostKeys[done].countedIds;
    assert ids[..|ids|] == ids;
    forall guid: Guid, i: nat
      ensures Counted(hostKeys, done, |ids|, guid, i) <==> Counted(hostKeys, done + 1, 0, guid, i)
    {}
  }

  ghost predicate Distinct(products: seq<Product>) {
    forall i, j :: 0 <= i < j < |products| ==> products[i].activationId != products[j].activationId
  }

  lemma {:induction false} HostKeysWithin(products: seq<Product>, n: nat)
    requires n <= |products|
    ensures HostKeysOf(products[..n]) <= HostKeysOf(products)
    decreases |products|
  {
    if n < |products| {
      HostKeysWithin(products[..|products| - 1], n);
      assert products[..|products| - 1][..n] == products[..n];
    } else {
      assert products[..n] == products;
    }
  }

  // The host keys met before product `n`, and whether it is the next
  lemma HostKeysNext(products: seq<Product>, n: nat)
    requires n < |products|
    ensures var before, upTo, all := HostKeysOf(products[..n]), HostKeysOf(products[..n + 1]), HostKeysOf(products);
      upTo == before + (if products[n].isHostKey then [products[n]] else [])
      && upTo <= all && (products[n].isHostKey ==> |before| < |all| && all[|before|] == products[n])
  {
    assert products[..n + 1][..n] == products[..n];
    HostKeysWithin(products, n + 1);
  }

  lemma {:induction false} HostKeysFrom(products: seq<Product>, k: nat) returns (n: nat)
    requires k < |HostKeysOf(products)|
    ensures n < |products| && products[n] == HostKeysOf(products)[k] && products[n].isHostKey
    ensures |HostKeysOf(products[..n])| == k
  {
    var before := products[..|products| - 1];
    if k < |HostKeysOf(before)| {
      n := HostKeysFrom(before, k);
      assert before[..n] == products[..n];
    } else {
      n := |products| - 1;
    }
  }

  lemma HostKeysDistinct(products: seq<Product>)
    requires Distinct(products)
    ensures Distinct(HostKeysOf(products))
  {
    hide HostKeysOf;
    var keys := HostKeysOf(products);
    forall i, j | 0 <= i < j < |keys| ensures keys[i].activationId != keys[j].activationId {
      var m := HostKeysFrom(products, i);
      var n := HostKeysFrom(products, j);
      assert m != n;
    }
  }

  // The position each host key is written at
  ghost predicate Positions(index: map<Guid, nat>, hostKeys: seq<Product>, upTo: nat)
    requires upTo <= |hostKeys|
  {
    (forall i :: 0 <= i < upTo ==> hostKeys[i].activationId in index && index[hostKeys[i].activationId] == i)
    && forall id :: id in index ==> index[id] < upTo && hostKeys[index[id]].activationId == id
  }

  method PositionsOf(hostKeys: seq<Product>) returns (index: map<Guid, nat>)
    requires Distinct(hostKeys)
    ensures Positions(index, hostKeys, |hostKeys|)
  {
    index := map[];
    for i := 0 to |hostKeys|
      invariant Positions(index, hostKeys, i)
    {
      index := index[hostKeys[i].activationId := i];
    }
  }

  // A product is in the index of positions just when it is a host key, and at its own place.
  lemma PositionOfProduct(index: map<Guid, nat>, products: seq<Product>, n: nat)
    requires Distinct(products) && n < |products| && Positions(index, HostKeysOf(products), |HostKeysOf(products)|)
    ensures products[n].activationId in index <==> products[n].isHostKey
    ensures products[n].isHostKey ==> index[products[n].activationId] == |HostKeysOf(products[..n])|
  {
    HostKeysNext(products, n);
    if products[n].activationId in index {
      var m := HostKeysFrom(products, index[products[n].activationId]);
      assert m == n;
    }
  }

  method CountedIdsOf(products: seq<Product>) returns (table: seq<CountedId>)
    requires Distinct(products)
    ensures IsIndex(table, HostKeysOf(products))
  {
    hide Indexes, Positions, Distinct, IsIndex, Pushed;
    var hostKeys := Filtered(products);
    HostKeysDistinct(products);
    var index := PositionsOf(hostKeys);
    table := [];
    EmptyIndex(hostKeys);
    for n := 0 to |products|
      invariant Indexes(table, hostKeys, |HostKeysOf(products[..n])|, 0)
    {
      PositionOfProduct(index, products, n);
      HostKeysNext(products, n);
      if products[n].activationId in index {
        table := PushProduct(table, hostKeys, index[products[n].activationId]);
      }
    }
    assert products[..|products|] == products;
    table := TidyAll(table, hostKeys);
  }

  lemma EmptyIndex(hostKeys: seq<Product>)
    ensures Indexes([], hostKeys, 0, 0)
  {}

  method PushProduct(before: seq<CountedId>, hostKeys: seq<Product>, at: nat) returns (table: seq<CountedId>)
    requires at < |hostKeys| && Indexes(before, hostKeys, at, 0)
    ensures Indexes(table, hostKeys, at + 1, 0)
  {
    hide Indexes, Pushed;
    table := before;
    var ids := hostKeys[at].countedIds;
    for m := 0 to |ids|
      invariant Indexes(table, hostKeys, at, m)
    {
      PushKeepsIndex(table, hostKeys, at, m);
      table := Pushed(table, ids[m], at);
    }
    NextKey(table, hostKeys, at);
  }

  method TidyAll(raw: seq<CountedId>, ghost hostKeys: seq<Product>) returns (table: seq<CountedId>)
    requires Indexes(raw, hostKeys, |hostKeys|, 0)
    ensures IsIndex(table, hostKeys)
  {
    hide Indexes, IsIndex, Tidied;
    table := raw;
    for e := 0 to |raw|
      invariant |table| == |raw|
      invariant forall i :: 0 <= i < e ==> table[i] == Tidied(raw[i])
      invariant forall i :: e <= i < |raw| ==> table[i] == raw[i]
    {
      table := table[e := Tidied(table[e])];
    }
    TidiedIsIndex(raw, table, hostKeys);
  }

  method Filtered(products: seq<Product>) returns (hostKeys: seq<Product>)
    ensures hostKeys == HostKeysOf(products)
  {
    hostKeys := [];
    for n := 0 to |products|
      invariant hostKeys == HostKeysOf(products[..n])
    {
      assert products[..n + 1][..n] == products[..n];
      if products[n].isHostKey {
        hostKeys := hostKeys + [products[n]];
      }
    }
    assert products[..|products|] == products;
  }

  // The index as it is to be: rows in order of counted ID, each holding just what a scan finds, and a row for
  // every ID a host key counts.
  ghost predicate IsIndex(table: seq<CountedId>, hostKeys: seq<Product>) {
    && KeysSorted(table)
    && (forall e :: 0 <= e < |table| ==> table[e].csvlks == Scan(hostKeys, table[e].guid))
    && (forall guid: Guid :: Scan(hostKeys, guid) != [] ==> HasRow(table, guid))
  }

  ghost predicate HasRow(table: seq<CountedId>, guid: Guid) {
    exists e :: 0 <= e < |table| && table[e].guid == guid
  }

  lemma RowIsScan(table: seq<CountedId>, hostKeys: seq<Product>, e: nat)
    requires Indexes(table, hostKeys, |hostKeys|, 0) && e < |table|
    ensures Tidied(table[e]).csvlks == Scan(hostKeys, table[e].guid)
  {
    var row := table[e];
    TidiedFacts(row);
    ScanFacts(hostKeys, row.guid);
    forall i: nat ensures i in row.csvlks <==> i in Scan(hostKeys, row.guid) {
      assert Listed(table, row.guid, i) <==> Counted(hostKeys, |hostKeys|, 0, row.guid, i);
    }
    AscendingUnique(Tidied(row).csvlks, Scan(hostKeys, row.guid));
  }

  lemma TidiedIsIndex(raw: seq<CountedId>, table: seq<CountedId>, hostKeys: seq<Product>)
    requires Indexes(raw, hostKeys, |hostKeys|, 0)
    requires |table| == |raw| && forall i :: 0 <= i < |raw| ==> table[i] == Tidied(raw[i])
    ensures IsIndex(table, hostKeys)
  {
    forall e | 0 <= e < |table| ensures table[e].csvlks == Scan(hostKeys, table[e].guid) {
      RowIsScan(raw, hostKeys, e);
    }
    forall guid: Guid | Scan(hostKeys, guid) != [] ensures HasRow(table, guid) {
      ScanFacts(hostKeys, guid);
      var i := Scan(hostKeys, guid)[0];
      assert i in Scan(hostKeys, guid);
      assert Listed(raw, guid, i) <==> Counted(hostKeys, |hostKeys|, 0, guid, i);
      var e :| 0 <= e < |raw| && raw[e].guid == guid && i in raw[e].csvlks;
      assert table[e].guid == guid;
    }
  }

  // ---- the tables the build writes, or nothing when one of its assertions fails

  method AllDistinct(products: seq<Product>) returns (distinct: bool)
    ensures distinct <==> Distinct(products)
  {
    var seen: set<Guid> := {};
    for n := 0 to |products|
      invariant forall i :: 0 <= i < n ==> products[i].activationId in seen
      invariant forall id :: id in seen ==> exists i :: 0 <= i < n && products[i].activationId == id
      invariant Distinct(products[..n])
    {
      var id := products[n].activationId;
      if id in seen {
        return false;
      }
      seen := seen + {id};
    }
    assert products[..|products|] == products;
    distinct := true;
  }

  // A product as it is read: its key blocks in order, each once
  function Read(row: Product): Product {
    row.(keyBlocks := Sorting.SortedOnce(row.keyBlocks, KeyBlocks.Ordinal))
  }

  function ReadAll(rows: seq<Product>): seq<Product> {
    seq(|rows|, i requires 0 <= i < |rows| => Read(rows[i]))
  }

  // The host keys as they are to be written
  function HostKeysRead(rows: seq<Product>): seq<Product> {
    HostKeysOf(Sorting.StableSort(ReadAll(rows), ActivationId))
  }

  ghost predicate Drawable(hostKey: Product) {
    hostKey.keyBlocks != [] && KeyBlocks.Disjoint(hostKey.keyBlocks)
  }

  // What the build insists on
  ghost predicate Buildable(rows: seq<Product>) {
    && (forall i :: 0 <= i < |rows| ==> KeyBlocks.Forward(rows[i].keyBlocks))
    && Distinct(rows)
    && 0 < |HostKeysRead(rows)| <= MAX_HOST_KEYS
    && (forall k :: 0 <= k < |HostKeysRead(rows)| ==> Drawable(HostKeysRead(rows)[k]))
  }

  method ReadProducts(rows: seq<Product>) returns (products: Option<seq<Product>>)
    ensures products.Some? <==> forall i :: 0 <= i < |rows| ==> KeyBlocks.Forward(rows[i].keyBlocks)
    ensures products.Some? ==> products.value == ReadAll(rows)
  {
    hide KeyBlocks.Forward;
    var read: seq<Product> := [];
    for n := 0 to |rows|
      invariant read == ReadAll(rows)[..n]
      invariant forall i :: 0 <= i < n ==> KeyBlocks.Forward(rows[i].keyBlocks)
    {
      var blocks := KeyBlocks.ReadKeyBlocks(rows[n].keyBlocks);
      if blocks.None? {
        return None;
      }
      read := read + [rows[n].(keyBlocks := blocks.value)];
    }
    products := Some(read);
  }

  method AllDrawable(hostKeys: seq<Product>) returns (drawable: bool)
    requires forall k :: 0 <= k < |hostKeys| ==> IsRead(hostKeys[k])
    ensures drawable <==> forall k :: 0 <= k < |hostKeys| ==> Drawable(hostKeys[k])
  {
    hide KeyBlocks.Sorted, KeyBlocks.Forward, KeyBlocks.Disjoint;
    for n := 0 to |hostKeys|
      invariant forall k :: 0 <= k < n ==> Drawable(hostKeys[k])
    {
      if hostKeys[n].keyBlocks == [] {
        return false;
      }
      assert IsRead(hostKeys[n]);
      var overlap := KeyBlocks.BlocksOverlap(hostKeys[n].keyBlocks);
      if overlap.Some? {
        return false;
      }
    }
    drawable := true;
  }

  ghost predicate IsRead(product: Product) {
    KeyBlocks.Sorted(product.keyBlocks) && KeyBlocks.Forward(product.keyBlocks)
  }

  lemma HostKeyIsRead(rows: seq<Product>, k: nat)
    requires forall i :: 0 <= i < |rows| ==> KeyBlocks.Forward(rows[i].keyBlocks)
    requires k < |HostKeysRead(rows)|
    ensures IsRead(HostKeysRead(rows)[k])
  {
    hide KeyBlocks.Sorted, KeyBlocks.Forward, HostKeysOf;
    var products := Sorting.StableSort(ReadAll(rows), ActivationId);
    var n := HostKeysFrom(products, k);
    Sorting.SortIsStable(ReadAll(rows), ActivationId);
    assert products[n] in multiset(products);
    assert products[n] in ReadAll(rows);
    var i :| 0 <= i < |rows| && ReadAll(rows)[i] == products[n];
    KeyBlocks.SortedOnceIsSorted(rows[i].keyBlocks);
  }

  // The host keys written are those of the rows, with their key blocks in order, by ascending activation ID.
  lemma HostKeysInOrder(rows: seq<Product>)
    requires Distinct(rows)
    ensures var keys := HostKeysRead(rows);
      && (forall j, k :: 0 <= j < k < |keys| ==> keys[j].activationId < keys[k].activationId)
      && (forall k :: 0 <= k < |keys| ==> keys[k].isHostKey && keys[k] in ReadAll(rows))
      && (forall i :: 0 <= i < |rows| && rows[i].isHostKey ==> ReadAll(rows)[i] in keys)
  {
    hide Sorting.StableSort, HostKeysOf;
    var products, keys := Sorting.StableSort(ReadAll(rows), ActivationId), HostKeysRead(rows);
    ReadingKeepsDistinct(rows);
    DistinctIds(ReadAll(rows));
    Sorting.SortIsStable(ReadAll(rows), ActivationId);
    Sorting.DistinctSortsStrictly(ReadAll(rows), ActivationId);
    forall k | 0 <= k < |keys| ensures keys[k].isHostKey && keys[k] in ReadAll(rows) {
      var n := HostKeysFrom(products, k);
      assert products[n] in multiset(products);
    }
    forall j, k | 0 <= j < k < |keys| ensures keys[j].activationId < keys[k].activationId {
      var m := HostKeysFrom(products, j);
      var n := HostKeysFrom(products, k);
      PrefixOfHostKeys(products, n, m);
      assert ActivationId(products[m]) < ActivationId(products[n]);
    }
    forall i | 0 <= i < |rows| && rows[i].isHostKey ensures ReadAll(rows)[i] in keys {
      assert ReadAll(rows)[i] in multiset(products);
      var n :| 0 <= n < |products| && products[n] == ReadAll(rows)[i];
      HostKeysNext(products, n);
    }
  }

  // The shorter of two prefixes has no more host keys.
  lemma PrefixOfHostKeys(products: seq<Product>, n: nat, m: nat)
    requires m < |products| && n < |products|
    ensures n <= m ==> |HostKeysOf(products[..n])| <= |HostKeysOf(products[..m])|
  {
    if n <= m {
      HostKeysWithin(products[..m], n);
      assert products[..m][..n] == products[..n];
    }
  }

  method Build(rows: seq<Product>) returns (tables: Option<Tables>)
    ensures tables.Some? <==> Buildable(rows)
    ensures tables.Some? ==> tables.value.hostKeys == HostKeysRead(rows) && 0 < |tables.value.hostKeys| <= 65_536
    ensures tables.Some? ==> IsIndex(tables.value.countedIds, HostKeysRead(rows))
  {
    hide HostKeysOf, IsIndex, Distinct, Drawable, IsRead, ReadAll, KeyBlocks.Forward;
    var read := ReadProducts(rows);
    if read.None? {
      return None;
    }
    var products := Sorting.StableSort(read.value, ActivationId);
    ReadingKeepsDistinct(rows);
    SortingKeepsDistinct(read.value);
    var distinct := AllDistinct(products);
    if !distinct {
      return None;
    }
    var hostKeys := Filtered(products);
    if hostKeys == [] || |hostKeys| > MAX_HOST_KEYS {
      return None;
    }
    forall k | 0 <= k < |hostKeys| ensures IsRead(hostKeys[k]) {
      HostKeyIsRead(rows, k);
    }
    var drawable := AllDrawable(hostKeys);
    if !drawable {
      return None;
    }
    var table := CountedIdsOf(products);
    tables := Some(Tables(hostKeys, table));
  }

  // So every host key the build writes has its key IDs drawn uniformly from the union of its blocks, as long as they
  // number at most 2^32 - 1.
  lemma BuiltKeysDrawUniformly(rows: seq<Product>, k: nat, keyId: nat)
    requires Buildable(rows) && k < |HostKeysRead(rows)|
    ensures var blocks := HostKeysRead(rows)[k].keyBlocks;
      KeyBlocks.Forward(blocks) && KeyBlocks.DrawBound(blocks) > 0
    ensures var blocks := HostKeysRead(rows)[k].keyBlocks;
      KeyBlocks.Size(blocks) <= U32_MAX ==>
        BitLength(KeyBlocks.Size(blocks) - 1) <= 32
        && |set w: nat | w < WORDS && KeyBlocks.Gives(blocks, w, keyId)|
          == if KeyBlocks.InUnion(blocks, keyId) then Pow2(32 - BitLength(KeyBlocks.Size(blocks) - 1)) else 0
  {
    hide HostKeysOf, Pow2, BitLength, KeyBlocks.Gives;
    HostKeyIsRead(rows, k);
    var blocks := HostKeysRead(rows)[k].keyBlocks;
    assert Drawable(HostKeysRead(rows)[k]);
    KeyBlocks.EveryKeyIdIsDrawn(blocks);
    if KeyBlocks.Size(blocks) <= U32_MAX {
      KeyBlocks.KeyDrawIsUniform(blocks, keyId);
    }
  }

  lemma ReadingKeepsDistinct(rows: seq<Product>)
    ensures Distinct(ReadAll(rows)) <==> Distinct(rows)
  {
    var read := ReadAll(rows);
    assert forall i :: 0 <= i < |rows| ==> read[i].activationId == rows[i].activationId;
  }

  lemma SortingKeepsDistinct(rows: seq<Product>)
    ensures Distinct(rows) <==> Distinct(Sorting.StableSort(rows, ActivationId))
  {
    var products := Sorting.StableSort(rows, ActivationId);
    DistinctIds(rows);
    DistinctIds(products);
    Sorting.SortKeepsDistinct(rows, ActivationId);
  }

  lemma DistinctIds(products: seq<Product>)
    ensures Distinct(products) <==> Sorting.Distinct(products, ActivationId)
  {}

  // ---- the lookup

  method CsvlksCounting(table: seq<CountedId>, guid: Guid, ghost hostKeys: seq<Product>) returns (found: seq<nat>)
    requires IsIndex(table, hostKeys)
    ensures found == Scan(hostKeys, guid)
  {
    var low, high := 0, |table|;
    while low < high
      invariant low <= high <= |table|
      invariant forall i :: 0 <= i < low ==> table[i].guid < guid
      invariant forall i :: high <= i < |table| ==> guid < table[i].guid
    {
      var middle := (low + high) / 2;
      if table[middle].guid < guid {
        low := middle + 1;
      } else if guid < table[middle].guid {
        high := middle;
      } else {
        return table[middle].csvlks;
      }
    }
    found := [];
  }

  // ---- the choice

  datatype Selection = Resolved(index: nat) | Fallback(index: nat)

  // Counts fewer products, or as many and comes first
  predicate MoreSpecific(hostKeys: seq<Product>, a: nat, b: nat)
    requires a < |hostKeys| && b < |hostKeys|
  {
    var m, n := |hostKeys[a].countedIds|, |hostKeys[b].countedIds|;
    m < n || (m == n && a < b)
  }

  // Counts more products, or as many and comes first
  predicate MoreGeneral(hostKeys: seq<Product>, a: nat, b: nat)
    requires a < |hostKeys| && b < |hostKeys|
  {
    var m, n := |hostKeys[a].countedIds|, |hostKeys[b].countedIds|;
    m > n || (m == n && a < b)
  }

  ghost predicate Leads(hostKeys: seq<Product>, candidates: seq<nat>, best: nat) {
    && best in candidates
    && forall k :: 0 <= k < |candidates| ==>
         && candidates[k] < |hostKeys|
         && (candidates[k] == best || (best < |hostKeys| && MoreSpecific(hostKeys, best, candidates[k])))
  }

  lemma LeadsOn(hostKeys: seq<Product>, candidates: seq<nat>, best: nat, next: nat)
    requires Leads(hostKeys, candidates, best) && next < |hostKeys|
    ensures best < |hostKeys|
    ensures Leads(hostKeys, candidates + [next], if MoreSpecific(hostKeys, next, best) then next else best)
  {}

  method MostSpecific(hostKeys: seq<Product>, candidates: seq<nat>) returns (best: Option<nat>)
    requires forall k :: 0 <= k < |candidates| ==> candidates[k] < |hostKeys|
    ensures best.None? <==> candidates == []
    ensures best.Some? ==> Leads(hostKeys, candidates, best.value)
  {
    best := None;
    for n := 0 to |candidates|
      invariant best.None? <==> n == 0
      invariant best.Some? ==> Leads(hostKeys, candidates[..n], best.value)
    {
      var next := candidates[n];
      assert candidates[..n + 1] == candidates[..n] + [next];
      if best.None? {
        best := Some(next);
      } else {
        LeadsOn(hostKeys, candidates[..n], best.value, next);
        if MoreSpecific(hostKeys, next, best.value) {
          best := Some(next);
        }
      }
    }
    assert candidates[..|candidates|] == candidates;
  }

  predicate Serves(hostKeys: seq<Product>, i: nat, application: Guid)
    requires i < |hostKeys|
  {
    hostKeys[i].application == Some(application)
  }

  method MostGeneral(hostKeys: seq<Product>, application: Guid) returns (best: nat)
    requires hostKeys != []
    ensures best < |hostKeys| && IsFallback(hostKeys, application, best)
  {
    var found: Option<nat> := None;
    for n := 0 to |hostKeys|
      invariant found.None? ==> forall i :: 0 <= i < n ==> !Serves(hostKeys, i, application)
      invariant found.Some? ==> found.value < n && Serves(hostKeys, found.value, application)
      invariant found.Some? ==>
        forall i :: 0 <= i < n && i != found.value && Serves(hostKeys, i, application) ==>
          MoreGeneral(hostKeys, found.value, i)
    {
      if Serves(hostKeys, n, application) && (found.None? || MoreGeneral(hostKeys, n, found.value)) {
        found := Some(n);
      }
    }
    best := if found.Some? then found.value else 0;
  }

  // What the choice is to be, with no mention of the index
  ghost predicate IsSelection(hostKeys: seq<Product>, application: Guid, counted: Guid, selection: Selection) {
    && selection.index < |hostKeys|
    && (selection.Resolved? <==> exists i :: 0 <= i < |hostKeys| && counted in hostKeys[i].countedIds)
    && (selection.Resolved? ==> counted in hostKeys[selection.index].countedIds)
    && (selection.Resolved? ==> forall i :: 0 <= i < |hostKeys| && counted in hostKeys[i].countedIds ==>
          i == selection.index || MoreSpecific(hostKeys, selection.index, i))
    && (selection.Fallback? ==> IsFallback(hostKeys, application, selection.index))
  }

  ghost predicate IsFallback(hostKeys: seq<Product>, application: Guid, best: nat)
    requires best < |hostKeys|
  {
    && ((forall i :: 0 <= i < |hostKeys| ==> !Serves(hostKeys, i, application)) ==> best == 0)
    && (forall i :: 0 <= i < |hostKeys| && Serves(hostKeys, i, application) ==>
          Serves(hostKeys, best, application) && (i == best || MoreGeneral(hostKeys, best, i)))
  }

  // The same in numbers: of the host keys that count the ID the one that counts fewest, or else of those of the
  // application the one that counts most, and in either case the first of them; the first of all if there is none.
  lemma SelectionInNumbers(hostKeys: seq<Product>, application: Guid, counted: Guid, selection: Selection)
    requires IsSelection(hostKeys, application, counted, selection)
    ensures var k := selection.index;
      var size := (i: nat) requires i < |hostKeys| => |hostKeys[i].countedIds|;
      k < |hostKeys| && match selection
      case Resolved(_) =>
        counted in hostKeys[k].countedIds
        && (forall i :: 0 <= i < |hostKeys| && counted in hostKeys[i].countedIds ==>
              size(k) < size(i) || (size(k) == size(i) && k <= i))
      case Fallback(_) =>
        (forall i :: 0 <= i < |hostKeys| ==> counted !in hostKeys[i].countedIds)
        && (forall i :: 0 <= i < |hostKeys| && hostKeys[i].application == Some(application) ==>
              hostKeys[k].application == Some(application)
              && (size(k) > size(i) || (size(k) == size(i) && k <= i)))
        && (hostKeys[k].application == Some(application) || k == 0)
  {
    assert forall i :: 0 <= i < |hostKeys| ==>
      (hostKeys[i].application == Some(application) <==> Serves(hostKeys, i, application));
  }

  method Select(tables: Tables, application: Guid, counted: Guid) returns (selection: Selection)
    requires tables.hostKeys != [] && IsIndex(tables.countedIds, tables.hostKeys)
    ensures IsSelection(tables.hostKeys, application, counted, selection)
  {
    var candidates := CsvlksCounting(tables.countedIds, counted, tables.hostKeys);
    ScanFacts(tables.hostKeys, counted);
    forall k | 0 <= k < |candidates| ensures candidates[k] < |tables.hostKeys| {
      assert candidates[k] in candidates;
    }
    var resolved := MostSpecific(tables.hostKeys, candidates);
    if resolved.Some? {
      return Resolved(resolved.value);
    }
    var index := MostGeneral(tables.hostKeys, application);
    selection := Fallback(index);
  }

  // With what the host drew for each of its keys, in the order of the table
  method SelectIdentity<T>(tables: Tables, groups: seq<T>, application: Guid, counted: Guid)
    returns (selection: Selection, identity: T)
    requires tables.hostKeys != [] && IsIndex(tables.countedIds, tables.hostKeys) && |groups| == |tables.hostKeys|
    ensures IsSelection(tables.hostKeys, application, counted, selection) && identity == groups[selection.index]
  {
    selection := Select(tables, application, counted);
    identity := groups[selection.index];
  }

  // There is one such choice.
  lemma SelectionUnique(hostKeys: seq<Product>, application: Guid, counted: Guid, a: Selection, b: Selection)
    requires IsSelection(hostKeys, application, counted, a) && IsSelection(hostKeys, application, counted, b)
    ensures a == b
  {
    if a.Fallback? {
      assert Serves(hostKeys, a.index, application) <==> Serves(hostKeys, b.index, application);
    }
  }
}
