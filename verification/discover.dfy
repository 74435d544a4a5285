// Ordering of SRV records by priority and weight, as RFC 2782 has a client try them.
module Discover {
  import opened Bits
  import opened Entropy
  import Search
  import Sorting

  type U16 = n: nat | n < 0x1_0000

  datatype Candidate = Candidate(priority: U16, weight: U16, port: U16, target: string)

  function Priority(candidate: Candidate): int { candidate.priority }

  function Sum(group: seq<Candidate>): nat {
    if group == [] then 0 else Sum(group[..|group| - 1]) + group[|group| - 1].weight
  }

  function SaturatingAdd(a: U32, b: U32): U32 {
    if a + b > U32_MAX then U32_MAX else a + b
  }

  // The total the code computes: a sum of u32s, which wraps
  function Total(group: seq<Candidate>): U32 {
    Sum(group) % 0x1_0000_0000
  }

  // The exclusive bound handed to the draw
  function Bound(group: seq<Candidate>): U32 {
    SaturatingAdd(Total(group), 1)
  }

  // The first record at or after `from` whose running sum reaches the target, and the last record when none does
  function ChosenFrom(group: seq<Candidate>, target: U32, from: nat, running: U32): (at: nat)
    requires group != [] && from <= |group|
    ensures at < |group|
    decreases |group| - from
  {
    if from == |group| then |group| - 1
    else
      var sum := SaturatingAdd(running, group[from].weight);
      if sum >= target then from else ChosenFrom(group, target, from + 1, sum)
  }

  function Chosen(group: seq<Candidate>, target: U32): (at: nat)
    requires group != []
    ensures at < |group|
  {
    ChosenFrom(group, target, 0, 0)
  }

  function Without(group: seq<Candidate>, at: nat): (rest: seq<Candidate>)
    requires at < |group|
    ensures |rest| == |group| - 1
  {
    group[..at] + group[at + 1..]
  }

  // One group emptied, a draw for each record
  function Drained(group: seq<Candidate>, draws: seq<U32>): (ordered: seq<Candidate>)
    requires |draws| >= |group|
    ensures |ordered| == |group|
    decreases |group|
  {
    if group == [] then []
    else
      var at := Chosen(group, draws[0]);
      [group[at]] + Drained(Without(group, at), draws[1..])
  }

  // How many leading records share the first one's priority
  function Boundary(rest: seq<Candidate>): (n: nat)
    requires rest != []
    ensures 1 <= n <= |rest|
    ensures forall i :: 0 <= i < n ==> rest[i].priority == rest[0].priority
    ensures n < |rest| ==> rest[n].priority != rest[0].priority
  {
    if |rest| == 1 || rest[1].priority != rest[0].priority then 1
    else
      var n := Boundary(rest[1..]);
      assert forall i :: 0 < i <= n ==> rest[i] == rest[1..][i - 1];
      n + 1
  }

  // Group after group
  function OrderedBy(rest: seq<Candidate>, draws: seq<U32>): (ordered: seq<Candidate>)
    requires |draws| >= |rest|
    ensures |ordered| == |rest|
    decreases |rest|
  {
    if rest == [] then []
    else
      var n := Boundary(rest);
      Drained(rest[..n], draws[..n]) + OrderedBy(rest[n..], draws[n..])
  }

  // ---- the loops

  method Choose(group: seq<Candidate>, target: U32) returns (chosen: nat)
    requires group != []
    ensures chosen == Chosen(group, target)
  {
    var running: U32 := 0;
    chosen := |group| - 1;
    for index := 0 to |group|
      invariant chosen == |group| - 1
      invariant ChosenFrom(group, target, index, running) == Chosen(group, target)
    {
      running := SaturatingAdd(running, group[index].weight);
      if running >= target {
        chosen := index;
        return;
      }
    }
  }

  method Drain(candidates: seq<Candidate>, draws: seq<U32>) returns (ordered: seq<Candidate>)
    requires |draws| >= |candidates|
    ensures ordered == Drained(candidates, draws)
  {
    hide Chosen;
    var group, drawn := candidates, 0;
    ordered := [];
    while group != []
      invariant drawn + |group| == |candidates|
      invariant ordered + Drained(group, draws[drawn..]) == Drained(candidates, draws)
      decreases |group|
    {
      assert draws[drawn..][0] == draws[drawn] && draws[drawn..][1..] == draws[drawn + 1..];
      var at := Choose(group, draws[drawn]);
      ordered, group, drawn := ordered + [group[at]], Without(group, at), drawn + 1;
    }
  }

  // `draws` is what the caller's draw returns, in turn; nothing is asked of the values.
  method Order(candidates: seq<Candidate>, draws: seq<U32>) returns (ordered: seq<Candidate>)
    requires |draws| >= |candidates|
    ensures |ordered| == |candidates| && ordered == OrderedBy(SortedByPriority(candidates), draws)
  {
    hide SortedByPriority, Drained, OrderedBy, Boundary;
    var rest := SortedByPriority(candidates);
    var drawn := 0;
    ordered := [];
    while rest != []
      invariant drawn + |rest| <= |draws|
      invariant ordered + OrderedBy(rest, draws[drawn..]) == OrderedBy(SortedByPriority(candidates), draws)
      decreases |rest|
    {
      var boundary := Boundary(rest);
      var left := draws[drawn..];
      GroupStep(rest, left, ordered);
      var drained := Drain(rest[..boundary], left[..boundary]);
      DrawsLeft(draws, drawn, boundary);
      ordered, rest, drawn := ordered + drained, rest[boundary..], drawn + boundary;
    }
    NoneLeft(draws[drawn..]);
  }

  lemma GroupStep(rest: seq<Candidate>, draws: seq<U32>, done: seq<Candidate>)
    requires rest != [] && |draws| >= |rest|
    ensures var n := Boundary(rest);
      done + OrderedBy(rest, draws) == (done + Drained(rest[..n], draws[..n])) + OrderedBy(rest[n..], draws[n..])
  {
    hide Drained, Boundary;
  }

  lemma DrawsLeft(draws: seq<U32>, drawn: nat, n: nat)
    requires drawn + n <= |draws|
    ensures draws[drawn..][n..] == draws[drawn + n..]
  {}

  lemma NoneLeft(draws: seq<U32>)
    ensures OrderedBy([], draws) == []
  {}

  function SortedByPriority(candidates: seq<Candidate>): (sorted: seq<Candidate>)
    ensures |sorted| == |candidates|
  {
    SortKeepsLength(candidates);
    Sorting.StableSort(candidates, Priority)
  }

  lemma SortKeepsLength(candidates: seq<Candidate>)
    ensures |Sorting.StableSort(candidates, Priority)| == |candidates|
  {
    Sorting.SortIsStable(candidates, Priority);
    assert |multiset(candidates)| == |candidates|;
    var sorted := Sorting.StableSort(candidates, Priority);
    assert |multiset(sorted)| == |sorted|;
  }

  // ---- a permutation, in order of priority

  lemma WithoutRemoves(group: seq<Candidate>, at: nat)
    requires at < |group|
    ensures multiset(group) == multiset{group[at]} + multiset(Without(group, at))
  {
    assert group == group[..at] + ([group[at]] + group[at + 1..]);
  }

  lemma {:induction false} DrainedIsPermutation(group: seq<Candidate>, draws: seq<U32>)
    requires |draws| >= |group|
    ensures multiset(Drained(group, draws)) == multiset(group)
  {
    if group != [] {
      var at := Chosen(group, draws[0]);
      WithoutRemoves(group, at);
      DrainedIsPermutation(Without(group, at), draws[1..]);
    }
  }

  lemma SplitElements(s: seq<Candidate>, n: nat)
    requires n <= |s|
    ensures multiset(s) == multiset(s[..n]) + multiset(s[n..])
  {
    assert s == s[..n] + s[n..];
  }

  lemma {:induction false} OrderedByIsPermutation(rest: seq<Candidate>, draws: seq<U32>)
    requires |draws| >= |rest|
    ensures multiset(OrderedBy(rest, draws)) == multiset(rest)
  {
    hide Drained, Boundary;
    if rest != [] {
      var n := Boundary(rest);
      DrainedIsPermutation(rest[..n], draws[..n]);
      OrderedByIsPermutation(rest[n..], draws[n..]);
      SplitElements(rest, n);
    }
  }

  lemma PermutationKeeps(before: seq<Candidate>, after: seq<Candidate>, least: int, most: int)
    requires multiset(before) == multiset(after)
    requires forall i :: 0 <= i < |before| ==> least <= before[i].priority <= most
    ensures forall i :: 0 <= i < |after| ==> least <= after[i].priority <= most
  {
    forall i | 0 <= i < |after| ensures least <= after[i].priority <= most {
      assert after[i] in multiset(before);
    }
  }

  lemma AscendingJoin(first: seq<Candidate>, later: seq<Candidate>, priority: int)
    requires forall i :: 0 <= i < |first| ==> first[i].priority == priority
    requires Sorting.Ascending(later, Priority) && forall i :: 0 <= i < |later| ==> later[i].priority >= priority
    ensures Sorting.Ascending(first + later, Priority)
  {}

  lemma TailAscends(rest: seq<Candidate>, n: nat)
    requires Sorting.Ascending(rest, Priority) && n <= |rest| && rest != []
    ensures Sorting.Ascending(rest[n..], Priority)
    ensures forall i :: 0 <= i < |rest[n..]| ==> rest[0].priority <= rest[n..][i].priority
  {
    forall i | 0 < i < |rest| ensures rest[0].priority <= rest[i].priority {
      assert Priority(rest[0]) <= Priority(rest[i]);
    }
  }

  lemma NoneOrdered(draws: seq<U32>)
    ensures Sorting.Ascending(OrderedBy([], draws), Priority)
  {}

  lemma {:induction false} OrderedByKeepsPriority(rest: seq<Candidate>, draws: seq<U32>)
    requires |draws| >= |rest| && Sorting.Ascending(rest, Priority)
    ensures Sorting.Ascending(OrderedBy(rest, draws), Priority)
  {
    hide Drained, Boundary, Sorting.Ascending;
    if rest == [] {
      NoneOrdered(draws);
    } else {
      var n, priority := Boundary(rest), rest[0].priority;
      var tail := rest[n..];
      TailAscends(rest, n);
      OrderedByKeepsPriority(tail, draws[n..]);
      DrainedIsPermutation(rest[..n], draws[..n]);
      PermutationKeeps(rest[..n], Drained(rest[..n], draws[..n]), priority, priority);
      OrderedByIsPermutation(tail, draws[n..]);
      PermutationKeeps(tail, OrderedBy(tail, draws[n..]), priority, 0x1_0000);
      AscendingJoin(Drained(rest[..n], draws[..n]), OrderedBy(tail, draws[n..]), priority);
    }
  }

  // Whatever is drawn, every record is tried once, and none before one of lower priority number.
  lemma OrderIsPermutation(candidates: seq<Candidate>, draws: seq<U32>)
    requires |draws| >= |candidates|
    ensures var ordered := OrderedBy(SortedByPriority(candidates), draws);
      multiset(ordered) == multiset(candidates)
      && forall i, j :: 0 <= i < j < |ordered| ==> ordered[i].priority <= ordered[j].priority
  {
    Sorting.SortIsStable(candidates, Priority);
    OrderedByIsPermutation(SortedByPriority(candidates), draws);
    OrderedByKeepsPriority(SortedByPriority(candidates), draws);
    var ordered := OrderedBy(SortedByPriority(candidates), draws);
    forall i, j | 0 <= i < j < |ordered| ensures ordered[i].priority <= ordered[j].priority {
      assert Priority(ordered[i]) <= Priority(ordered[j]);
    }
  }

  // Records of one priority, before others of another, are emptied by the draws they are asked for, and the others by
  // those that follow.
  lemma GroupsInTurn(group: seq<Candidate>, others: seq<Candidate>, draws: seq<U32>)
    requires group != [] && |draws| >= |group| + |others|
    requires forall i :: 0 <= i < |group| ==> group[i].priority == group[0].priority
    requires others != [] ==> others[0].priority != group[0].priority
    ensures OrderedBy(group + others, draws)
         == Drained(group, draws[..|group|]) + OrderedBy(others, draws[|group|..])
  {
    hide Drained, Boundary;
    var rest := group + others;
    var n := Boundary(rest);
    assert forall i :: 0 <= i < |group| ==> rest[i] == group[i];
    assert others != [] ==> rest[|group|] == others[0];
    assert rest[..n] == group && rest[n..] == others;
  }

  // ---- the selection measure

  lemma {:induction false} SumGrows(group: seq<Candidate>, i: nat, j: nat)
    requires i <= j <= |group|
    ensures Sum(group[..i]) <= Sum(group[..j])
    decreases j - i
  {
    if i < j {
      SumGrows(group, i, j - 1);
      assert group[..j][..j - 1] == group[..j - 1];
    }
  }

  lemma SumTo(group: seq<Candidate>, i: nat)
    requires i < |group|
    ensures Sum(group[..i + 1]) == Sum(group[..i]) + group[i].weight
  {
    assert group[..i + 1][..i] == group[..i];
  }

  lemma {:induction false} ChosenFromReaches(group: seq<Candidate>, target: U32, from: nat)
    requires group != [] && from < |group| && (from > 0 ==> Sum(group[..from]) < target)
    requires Sum(group[..from]) <= U32_MAX
    ensures var at := ChosenFrom(group, target, from, Sum(group[..from]));
      (target <= Sum(group[..at + 1]) || at == |group| - 1) && (at > 0 ==> Sum(group[..at]) < target)
    decreases |group| - from
  {
    hide Sum;
    SumTo(group, from);
    if Sum(group[..from + 1]) < target && from < |group| - 1 {
      ChosenFromReaches(group, target, from + 1);
    }
  }

  // A record is taken just when the draw lands in the stretch of the running sum that its weight spans. The first
  // record's stretch takes in zero as well, and the last one's whatever lies beyond; saturation makes no difference.
  lemma ChosenIsStretch(group: seq<Candidate>, target: U32, i: nat)
    requires group != [] && i < |group|
    ensures Chosen(group, target) == i <==>
      (target <= Sum(group[..i + 1]) || i == |group| - 1) && (i > 0 ==> Sum(group[..i]) < target)
  {
    hide Sum, Chosen;
    assert group[..0] == [];
    NothingSums();
    ChosenStarts(group, target);
    ChosenFromReaches(group, target, 0);
    var at := Chosen(group, target);
    if at < i {
      SumGrows(group, at + 1, i);
    } else if i < at {
      SumGrows(group, i + 1, at);
    }
  }

  lemma ChosenStarts(group: seq<Candidate>, target: U32)
    requires group != []
    ensures Chosen(group, target) == ChosenFrom(group, target, 0, 0)
  {}

  ghost function Interval(low: nat, high: nat): (s: set<nat>)
    requires low <= high
    ensures |s| == high - low && forall t: nat :: t in s <==> low <= t < high
  {
    if low == high then {} else Interval(low, high - 1) + {high - 1}
  }

  // The draws in 0..=total that take a record
  ghost function Takes(group: seq<Candidate>, i: nat): set<nat>
    requires group != [] && Sum(group) <= U32_MAX
  {
    set t: nat | t <= Sum(group) && Chosen(group, t) == i
  }

  lemma NothingSums()
    ensures Sum([]) == 0
  {}

  // Of the total + 1 draws the first record is taken by weight + 1 and any other by its weight.
  lemma SelectionMeasure(group: seq<Candidate>, i: nat)
    requires group != [] && Sum(group) <= U32_MAX && i < |group|
    ensures |Takes(group, i)| == group[i].weight + if i == 0 then 1 else 0
  {
    hide Chosen, Sum;
    NothingSums();
    SumTo(group, i);
    SumGrows(group, i + 1, |group|);
    assert group[..|group|] == group && group[..0] == [];
    var low := if i == 0 then 0 else Sum(group[..i]) + 1;
    var high := Sum(group[..i + 1]) + 1;
    forall t: nat ensures t in Takes(group, i) <==> t in Interval(low, high) {
      if t <= Sum(group) {
        ChosenIsStretch(group, t, i);
      }
    }
    assert Takes(group, i) == Interval(low, high);
  }

  // The order goes by the draws, whatever they are: the record in whose stretch of the running sum the first one lands
  // comes first, the last record taking all beyond, and the others follow by the other draws.
  lemma DrainedTakes(group: seq<Candidate>, draws: seq<U32>, i: nat)
    requires |draws| >= |group| && i < |group|
    requires (i == 0 || Sum(group[..i]) < draws[0]) && (draws[0] <= Sum(group[..i + 1]) || i == |group| - 1)
    ensures Drained(group, draws) == [group[i]] + Drained(group[..i] + group[i + 1..], draws[1..])
  {
    hide Chosen, Sum;
    ChosenIsStretch(group, draws[0], i);
  }

  // ---- the measure of a whole order

  ghost predicate Distinct(group: seq<Candidate>) {
    forall i, j :: 0 <= i < j < |group| ==> group[i] != group[j]
  }

  function Index(group: seq<Candidate>, candidate: Candidate): (at: nat)
    ensures at <= |group| && (at < |group| ==> group[at] == candidate)
    ensures at == |group| ==> candidate !in group
  {
    Search.FirstWith(group, (c: Candidate) => c, candidate)
  }

  ghost function Prefixed(first: set<nat>, rest: set<seq<nat>>): set<seq<nat>> {
    set t, d | t in first && d in rest :: [t] + d
  }

  // The draws that put a group in an order: for each record in turn those that take it from the records left
  ghost function DrawsFor(group: seq<Candidate>, order: seq<Candidate>): set<seq<nat>>
    requires Sum(group) <= U32_MAX
    decreases |group|
  {
    if group == [] then (if order == [] then {[]} else {})
    else if order == [] || Index(group, order[0]) == |group| then {}
    else
      var i := Index(group, order[0]);
      SumWithout(group, i);
      Prefixed(Takes(group, i), DrawsFor(Without(group, i), order[1..]))
  }

  // Of the total and one draws for each record left, its weight of them, and one more for the first
  ghost function Chances(group: seq<Candidate>, order: seq<Candidate>): nat
    decreases |group|
  {
    if group == [] || order == [] || Index(group, order[0]) == |group| then (if group == order then 1 else 0)
    else
      var i := Index(group, order[0]);
      (group[i].weight + if i == 0 then 1 else 0) * Chances(Without(group, i), order[1..])
  }

  lemma InPrefixed(first: set<nat>, rest: set<seq<nat>>)
    ensures forall d :: d in Prefixed(first, rest) <==> d != [] && d[0] in first && d[1..] in rest
  {
    forall d: seq<nat> | d != [] && d[0] in first && d[1..] in rest ensures d in Prefixed(first, rest) {
      assert d == [d[0]] + d[1..];
    }
    forall d | d in Prefixed(first, rest) ensures d != [] && d[0] in first && d[1..] in rest {
      var t, e :| t in first && e in rest && d == [t] + e;
      assert d[1..] == e;
    }
  }

  lemma {:induction false} PrefixedCount(first: set<nat>, rest: set<seq<nat>>)
    ensures |Prefixed(first, rest)| == |first| * |rest|
    decreases first
  {
    hide Prefixed;
    InPrefixed(first, rest);
    if t :| t in first {
      var others := first - {t};
      PrefixedCount(others, rest);
      OnePrefixCount(t, rest);
      InPrefixed(others, rest);
      InPrefixed({t}, rest);
      assert Prefixed(first, rest) == Prefixed(others, rest) + Prefixed({t}, rest);
      assert Prefixed(others, rest) * Prefixed({t}, rest) == {};
      TimesNext(|others|, |rest|);
    } else {
      assert Prefixed(first, rest) == {};
    }
  }

  lemma {:induction false} OnePrefixCount(t: nat, rest: set<seq<nat>>)
    ensures |Prefixed({t}, rest)| == |rest|
    decreases rest
  {
    hide Prefixed;
    InPrefixed({t}, rest);
    if d :| d in rest {
      var others := rest - {d};
      OnePrefixCount(t, others);
      InPrefixed({t}, others);
      assert ([t] + d)[1..] == d;
      forall e: seq<nat> | e != [] && e[0] == t && e[1..] == d ensures e == [t] + d {}
      assert Prefixed({t}, rest) == Prefixed({t}, others) + {[t] + d};
    } else {
      assert Prefixed({t}, rest) == {};
    }
  }

  // How many draws give each order of a group is the product of the chances.
  lemma {:induction false} OrderMeasure(group: seq<Candidate>, order: seq<Candidate>)
    requires Sum(group) <= U32_MAX
    ensures |DrawsFor(group, order)| == Chances(group, order)
    decreases |group|
  {
    hide Takes, Prefixed, Index;
    if group != [] && order != [] && Index(group, order[0]) < |group| {
      var i := Index(group, order[0]);
      SumWithout(group, i);
      OrderMeasure(Without(group, i), order[1..]);
      SelectionMeasure(group, i);
      PrefixedCount(Takes(group, i), DrawsFor(Without(group, i), order[1..]));
    }
  }

  // The draw is asked for 0..=total exactly while the total plus one is a u32.
  lemma BoundIsExact(group: seq<Candidate>)
    ensures Bound(group) == Sum(group) + 1 <==> Sum(group) < U32_MAX
    ensures var wrapped := Sum(group) % 0x1_0000_0000;
      Bound(group) == if wrapped == 0xFFFF_FFFF then wrapped else wrapped + 1
  {}

  // A record can be taken next if and only if it has weight or is the first of those left.
  lemma ReachableIff(group: seq<Candidate>, i: nat)
    requires group != [] && Sum(group) <= U32_MAX && i < |group|
    ensures (exists t: U32 :: t <= Sum(group) && Chosen(group, t) == i) <==> group[i].weight > 0 || i == 0
  {
    SelectionMeasure(group, i);
    if t: U32 :| t <= Sum(group) && Chosen(group, t) == i {
      assert t in Takes(group, i);
    } else {
      assert Takes(group, i) == {};
    }
  }

  // RFC 2782 wants a record of weight zero to keep a small chance of being chosen, wherever it stands. Here it has
  // none: of two records the second, of weight zero, is taken by no draw in range.
  lemma ZeroWeightUnreachable(heavy: Candidate, zero: Candidate, t: U32)
    requires heavy.weight == 1 && zero.weight == 0 && t <= 1
    ensures Sum([heavy, zero]) == 1 && Chosen([heavy, zero], t) == 0
  {
    assert [heavy, zero][..1] == [heavy] && [heavy][..0] == [];
    assert Sum([heavy]) == 1;
  }

  // ---- what that means for a whole group

  // Every draw is within the bound it was asked for.
  ghost predicate InBounds(group: seq<Candidate>, draws: seq<U32>)
    requires |draws| >= |group|
    decreases |group|
  {
    group == [] || (draws[0] < Bound(group) && InBounds(Without(group, Chosen(group, draws[0])), draws[1..]))
  }

  lemma {:induction false} SumConcat(a: seq<Candidate>, b: seq<Candidate>)
    ensures Sum(a + b) == Sum(a) + Sum(b)
  {
    if b == [] {
      assert a + b == a;
    } else {
      assert (a + b)[..|a + b| - 1] == a + b[..|b| - 1];
      SumConcat(a, b[..|b| - 1]);
    }
  }

  lemma SumWithout(group: seq<Candidate>, at: nat)
    requires at < |group|
    ensures Sum(Without(group, at)) == Sum(group) - group[at].weight
  {
    assert group == group[..at + 1] + group[at + 1..];
    SumConcat(group[..at + 1], group[at + 1..]);
    SumConcat(group[..at], group[at + 1..]);
    SumTo(group, at);
  }

  ghost predicate AreWords(draws: seq<nat>) {
    forall k :: 0 <= k < |draws| ==> draws[k] <= U32_MAX
  }

  lemma WithoutKeepsDistinct(group: seq<Candidate>, at: nat)
    requires Distinct(group) && at < |group|
    ensures Distinct(Without(group, at)) && group[at] !in Without(group, at) && Index(group, group[at]) == at
  {}

  // The draws counted are those that are in bounds and give the order.
  lemma {:induction false} DrawsForMeans(group: seq<Candidate>, order: seq<Candidate>, draws: seq<nat>)
    requires Sum(group) < U32_MAX && Distinct(group)
    ensures draws in DrawsFor(group, order) <==>
      |draws| == |group| && AreWords(draws) && InBounds(group, draws) && Drained(group, draws) == order
    decreases |group|
  {
    hide Sum, Chosen, Prefixed, Distinct, Without, Index;
    if group == [] {
    } else if draws != [] && draws[0] <= Sum(group) {
      var i := Chosen(group, draws[0]);
      WithoutKeepsDistinct(group, i);
      SumWithout(group, i);
      DrawsStep(group, order, draws);
      assert AreWords(draws) <==> AreWords(draws[1..]);
      if order != [] {
        DrawsForMeans(Without(group, i), order[1..], draws[1..]);
      }
    } else {
      DrawsStart(group, order, draws);
    }
  }

  lemma DrawsStart(group: seq<Candidate>, order: seq<Candidate>, draws: seq<nat>)
    requires Sum(group) <= U32_MAX && group != []
    ensures draws in DrawsFor(group, order) ==> draws != [] && draws[0] <= Sum(group)
  {
    hide Sum, Chosen, DrawsFor, Index;
    if order != [] && order[0] in group {
      DrawsForFirst(group, order);
      var i := Index(group, order[0]);
      InPrefixed(Takes(group, i), DrawsFor(Without(group, i), order[1..]));
    } else {
      NoDrawsFor(group, order);
    }
  }

  lemma DrawsStep(group: seq<Candidate>, order: seq<Candidate>, draws: seq<nat>)
    requires Sum(group) <= U32_MAX && group != [] && draws != [] && draws[0] <= Sum(group) && Distinct(group)
    ensures var i := Chosen(group, draws[0]);
      Sum(Without(group, i)) <= U32_MAX
      && (draws in DrawsFor(group, order) <==>
        order != [] && order[0] == group[i] && draws[1..] in DrawsFor(Without(group, i), order[1..]))
  {
    hide Sum, Chosen, Without, DrawsFor;
    var i := Chosen(group, draws[0]);
    SumWithout(group, i);
    WithoutKeepsDistinct(group, i);
    if order != [] && order[0] in group {
      var j := Index(group, order[0]);
      SumWithout(group, j);
      InPrefixed(Takes(group, j), DrawsFor(Without(group, j), order[1..]));
      DrawsForFirst(group, order);
      WithoutKeepsDistinct(group, j);
    } else {
      NoDrawsFor(group, order);
    }
  }

  lemma DrawsForFirst(group: seq<Candidate>, order: seq<Candidate>)
    requires Sum(group) <= U32_MAX && group != [] && order != [] && order[0] in group
    ensures var i := Index(group, order[0]);
      i < |group| && Sum(Without(group, i)) <= U32_MAX
      && DrawsFor(group, order) == Prefixed(Takes(group, i), DrawsFor(Without(group, i), order[1..]))
  {
    SumWithout(group, Index(group, order[0]));
  }

  lemma NoDrawsFor(group: seq<Candidate>, order: seq<Candidate>)
    requires Sum(group) <= U32_MAX && group != [] && (order == [] || order[0] !in group)
    ensures DrawsFor(group, order) == {}
  {}

  lemma ZeroChosenFirstOnly(front: seq<Candidate>, zero: Candidate, back: seq<Candidate>, t: U32)
    requires zero.weight == 0 && Sum(front + [zero] + back) <= U32_MAX && t <= Sum(front + [zero] + back)
    ensures Chosen(front + [zero] + back, t) == |front| ==> front == []
  {
    var group := front + [zero] + back;
    assert group[..|front|] == front && group[|front|] == zero;
    SumTo(group, |front|);
    ChosenIsStretch(group, t, |front|);
  }

  // Where taking the record at `i` leaves the record between `front` and `back`
  lemma SplitWithout(front: seq<Candidate>, zero: Candidate, back: seq<Candidate>, i: nat)
    requires i < |front + [zero] + back| && i != |front|
    ensures i < |front| ==> Without(front + [zero] + back, i) == Without(front, i) + [zero] + back
    ensures i > |front| ==> Without(front + [zero] + back, i) == front + [zero] + Without(back, i - |front| - 1)
  {}

  // A record of weight zero overtakes nothing: whatever is drawn in bounds, all that arrived before it at its
  // priority is tried before it.
  lemma {:induction false} ZeroNeverOvertakes(
    front: seq<Candidate>, zero: Candidate, back: seq<Candidate>, draws: seq<U32>)
    returns (at: nat)
    requires zero.weight == 0 && Sum(front + [zero] + back) <= U32_MAX
    requires |draws| >= |front + [zero] + back| && InBounds(front + [zero] + back, draws)
    ensures var ordered := Drained(front + [zero] + back, draws);
      at < |ordered| && ordered[at] == zero && multiset(front) <= multiset(ordered[..at])
    decreases |front| + |back|
  {
    hide Chosen, ChosenFrom, Sum, Without;
    var group := front + [zero] + back;
    var i := Chosen(group, draws[0]);
    SumWithout(group, i);
    ZeroChosenFirstOnly(front, zero, back, draws[0]);
    if i == |front| {
      at := 0;
    } else {
      SplitWithout(front, zero, back, i);
      var later := Drained(Without(group, i), draws[1..]);
      var p: nat;
      if i < |front| {
        p := ZeroNeverOvertakes(Without(front, i), zero, back, draws[1..]);
        WithoutRemoves(front, i);
      } else {
        p := ZeroNeverOvertakes(front, zero, Without(back, i - |front| - 1), draws[1..]);
      }
      at := p + 1;
      assert ([group[i]] + later)[..at] == [group[i]] + later[..p];
    }
  }
}
