// The views over the event log: the fleet, one row per machine and SKU, and the distinct machines.
module Fleet {
  import opened Prelude
  import opened Events
  import Sorting
  import Search

  datatype Pair = Pair(machine: Guid, sku: Guid)

  datatype ClientView = ClientView(
    machine: Guid, sku: Guid, application: Guid, counted: Guid, workstationName: string, peer: Option<Peer>,
    firstSeen: Instant, lastSeen: Instant, lastSequence: nat, requests: nat, activations: nat, activatedLast: bool)
  {
    function Key(): Pair { Pair(machine, sku) }
  }

  function KeyOf(event: Event): Pair {
    Pair(event.value.details.machine, event.value.details.sku)
  }

  function One(activated: bool): nat { if activated then 1 else 0 }

  // ---- as the code builds it

  function Opened(event: Event): ClientView {
    var d := event.value.details;
    ClientView(d.machine, d.sku, d.application, d.counted, d.workstationName, d.peer,
               event.at, event.at, event.value.sequence, 1, One(d.IsActivation()), d.IsActivation())
  }

  function Updated(row: ClientView, event: Event): ClientView {
    var d := event.value.details;
    row.(requests := Capped(row.requests + 1),
         activations := if d.IsActivation() then Capped(row.activations + 1) else row.activations,
         lastSeen := event.at, lastSequence := event.value.sequence, workstationName := d.workstationName,
         application := d.application, counted := d.counted, peer := d.peer, activatedLast := d.IsActivation())
  }

  function RowPosition(rows: seq<ClientView>, key: Pair): (at: nat)
    ensures at <= |rows| && (at < |rows| ==> rows[at].Key() == key)
    ensures forall i :: 0 <= i < at ==> rows[i].Key() != key
  {
    Search.FirstWith(rows, (row: ClientView) => row.Key(), key)
  }

  function Absorbed(rows: seq<ClientView>, event: Event): seq<ClientView> {
    var at := RowPosition(rows, KeyOf(event));
    if at < |rows| then rows[at := Updated(rows[at], event)] else rows + [Opened(event)]
  }

  function Grouped(events: seq<Event>): seq<ClientView> {
    if events == [] then [] else Absorbed(Grouped(events[..|events| - 1]), events[|events| - 1])
  }

  function Recency(row: ClientView): int { 0 - row.lastSequence }

  // Every row, the most recently seen first
  function Rows(events: seq<Event>): seq<ClientView> {
    Sorting.StableSort(Grouped(events), Recency)
  }

  function Cut<T>(s: seq<T>, limit: nat): seq<T> {
    if |s| <= limit then s else s[..limit]
  }

  // ---- the same, as a query

  // The events of one machine and SKU, in order
  function Group(events: seq<Event>, key: Pair): seq<Event> {
    if events == [] then []
    else
      var e := events[|events| - 1];
      Group(events[..|events| - 1], key) + if KeyOf(e) == key then [e] else []
  }

  function Activated(events: seq<Event>): nat {
    if events == [] then 0
    else Activated(events[..|events| - 1]) + One(events[|events| - 1].value.details.IsActivation())
  }

  function RowOf(key: Pair, group: seq<Event>): ClientView
    requires group != []
  {
    var newest := group[|group| - 1];
    var d := newest.value.details;
    ClientView(key.machine, key.sku, d.application, d.counted, d.workstationName, d.peer,
               group[0].at, newest.at, newest.value.sequence, Capped(|group|), Capped(Activated(group)),
               d.IsActivation())
  }

  // One row for each key that has events, and in it what its events say
  ghost predicate IsGroupBy(rows: seq<ClientView>, events: seq<Event>) {
    && (forall i, j :: 0 <= i < j < |rows| ==> rows[i].Key() != rows[j].Key())
    && (forall i :: 0 <= i < |rows| ==> Group(events, rows[i].Key()) != [])
    && (forall i :: 0 <= i < |rows| ==> rows[i] == RowOf(rows[i].Key(), Group(events, rows[i].Key())))
    && (forall i :: 0 <= i < |events| ==> HasRow(rows, KeyOf(events[i])))
  }

  ghost predicate HasRow(rows: seq<ClientView>, key: Pair) {
    exists i :: 0 <= i < |rows| && rows[i].Key() == key
  }

  ghost predicate SequencesRise(events: seq<Event>) {
    forall i, j :: 0 <= i < j < |events| ==> events[i].value.sequence < events[j].value.sequence
  }

  // ---- why they agree

  lemma GroupGrows(group: seq<Event>, event: Event)
    requires group != []
    ensures RowOf(KeyOf(event), group + [event]) == Updated(RowOf(KeyOf(event), group), event)
  {
    assert (group + [event])[..|group|] == group;
  }

  lemma GroupStarts(event: Event)
    ensures RowOf(KeyOf(event), [event]) == Opened(event)
  {
    assert [event][..0] == [];
    assert Activated([]) == 0;
  }

  lemma GroupExtends(events: seq<Event>, event: Event, key: Pair)
    ensures Group(events + [event], key) == Group(events, key) + if KeyOf(event) == key then [event] else []
  {
    assert (events + [event])[..|events|] == events;
  }

  // One more event keeps the row at its own place right, and every other row.
  lemma AbsorbedRow(rows: seq<ClientView>, events: seq<Event>, event: Event, i: nat)
    requires IsGroupBy(rows, events) && i < |Absorbed(rows, event)|
    ensures var row, all := Absorbed(rows, event)[i], events + [event];
      Group(all, row.Key()) != [] && row == RowOf(row.Key(), Group(all, row.Key()))
  {
    hide RowOf, Updated, Activated, Opened, Group;
    var key := KeyOf(event);
    var at := RowPosition(rows, key);
    var row := Absorbed(rows, event)[i];
    if i != at {
      GroupExtends(events, event, rows[i].Key());
      assert rows[i].Key() != key;
      assert Group(events + [event], row.Key()) == Group(events, row.Key());
    } else {
      GroupExtends(events, event, key);
      if at < |rows| {
        UpdatedKey(rows[at], event);
        GroupGrows(Group(events, key), event);
      } else {
        OpenedKey(event);
        NoRowNoGroup(rows, events, key);
        GroupStarts(event);
        assert Group(events + [event], key) == [event];
      }
    }
  }

  lemma AbsorbedIsGroupBy(rows: seq<ClientView>, events: seq<Event>, event: Event)
    requires IsGroupBy(rows, events)
    ensures IsGroupBy(Absorbed(rows, event), events + [event])
  {
    hide RowOf, Updated, Opened, Group;
    var all, after := events + [event], Absorbed(rows, event);
    var at := RowPosition(rows, KeyOf(event));
    if at < |rows| {
      UpdatedKey(rows[at], event);
    } else {
      OpenedKey(event);
    }
    assert after[at].Key() == KeyOf(event);
    forall i | 0 <= i < |after|
      ensures Group(all, after[i].Key()) != [] && after[i] == RowOf(after[i].Key(), Group(all, after[i].Key()))
    {
      AbsorbedRow(rows, events, event, i);
    }
    forall i | 0 <= i < |all| ensures HasRow(after, KeyOf(all[i])) {
      if i < |events| {
        assert all[i] == events[i];
        var r :| 0 <= r < |rows| && rows[r].Key() == KeyOf(events[i]);
        assert after[r].Key() == rows[r].Key();
      }
    }
  }

  lemma UpdatedKey(row: ClientView, event: Event)
    ensures Updated(row, event).Key() == row.Key()
  {}

  lemma OpenedKey(event: Event)
    ensures Opened(event).Key() == KeyOf(event)
  {}

  lemma {:induction false} NoRowNoGroup(rows: seq<ClientView>, events: seq<Event>, key: Pair)
    requires forall i :: 0 <= i < |events| ==> HasRow(rows, KeyOf(events[i]))
    requires forall i :: 0 <= i < |rows| ==> rows[i].Key() != key
    ensures Group(events, key) == []
  {
    if events != [] {
      NoRowNoGroup(rows, events[..|events| - 1], key);
      assert HasRow(rows, KeyOf(events[|events| - 1]));
    }
  }

  lemma {:induction false} GroupedIsGroupBy(events: seq<Event>)
    ensures IsGroupBy(Grouped(events), events)
  {
    hide Absorbed, IsGroupBy;
    if events != [] {
      var before, event := events[..|events| - 1], events[|events| - 1];
      GroupedIsGroupBy(before);
      AbsorbedIsGroupBy(Grouped(before), before, event);
      assert before + [event] == events;
    } else {
      NothingGrouped();
    }
  }

  lemma NothingGrouped()
    ensures IsGroupBy([], [])
  {}

  // Where a group's first and last events are in the log
  lemma {:induction false} EndsOfGroup(events: seq<Event>, key: Pair) returns (first: nat, last: nat)
    requires Group(events, key) != []
    ensures first <= last < |events| && KeyOf(events[first]) == KeyOf(events[last]) == key
    ensures events[first] == Group(events, key)[0] && events[last] == Group(events, key)[|Group(events, key)| - 1]
    ensures forall i :: 0 <= i < |events| && KeyOf(events[i]) == key ==> first <= i <= last
  {
    hide KeyOf;
    var before, e := events[..|events| - 1], events[|events| - 1];
    last := |events| - 1;
    if Group(before, key) != [] {
      first, last := EndsOfGroup(before, key);
      if KeyOf(e) == key {
        last := |events| - 1;
      }
    } else {
      first := |events| - 1;
      NoGroupNoEvent(before, key);
    }
  }

  lemma {:induction false} NoGroupNoEvent(events: seq<Event>, key: Pair)
    requires Group(events, key) == []
    ensures forall i :: 0 <= i < |events| ==> KeyOf(events[i]) != key
  {
    if events != [] {
      NoGroupNoEvent(events[..|events| - 1], key);
    }
  }

  // Where the events of a kind are
  ghost function Places(events: seq<Event>, kind: Event -> bool): set<nat> {
    set i: nat | i < |events| && kind(events[i])
  }

  lemma PlacesExtend(events: seq<Event>, kind: Event -> bool)
    requires events != []
    ensures var n, before := |events| - 1, events[..|events| - 1];
      |Places(events, kind)| == |Places(before, kind)| + if kind(events[n]) then 1 else 0
  {
    var n, before := |events| - 1, events[..|events| - 1];
    forall i: nat | i < n ensures i in Places(events, kind) <==> i in Places(before, kind) {
      assert before[i] == events[i];
    }
    assert Places(events, kind) == Places(before, kind) + if kind(events[n]) then {n} else {};
  }

  lemma ActivatedExtends(group: seq<Event>, event: Event)
    ensures Activated(group + [event]) == Activated(group) + One(event.value.details.IsActivation())
  {
    assert (group + [event])[..|group|] == group;
  }

  lemma {:induction false} GroupCounts(events: seq<Event>, key: Pair, member: Event -> bool, active: Event -> bool)
    requires forall e :: member(e) <==> KeyOf(e) == key
    requires forall e :: active(e) <==> KeyOf(e) == key && e.value.details.IsActivation()
    ensures |Group(events, key)| == |Places(events, member)|
    ensures Activated(Group(events, key)) == |Places(events, active)|
  {
    hide KeyOf, Activated, Places;
    if events == [] {
      NothingCounted(member);
      NothingCounted(active);
    } else {
      var before, e := events[..|events| - 1], events[|events| - 1];
      GroupCounts(before, key, member, active);
      PlacesExtend(events, member);
      PlacesExtend(events, active);
      ActivatedExtends(Group(before, key), e);
      assert Group(before, key) + [] == Group(before, key);
    }
  }

  lemma NothingCounted(kind: Event -> bool)
    ensures Activated([]) == 0 && Places([], kind) == {}
  {}

  lemma RecencyDistinct(rows: seq<ClientView>, events: seq<Event>)
    requires IsGroupBy(rows, events) && SequencesRise(events)
    ensures Sorting.Distinct(rows, Recency)
  {
    forall i, j | 0 <= i < j < |rows| ensures Recency(rows[i]) != Recency(rows[j]) {
      var _, a := EndsOfGroup(events, rows[i].Key());
      var _, b := EndsOfGroup(events, rows[j].Key());
      assert a != b;
    }
  }

  lemma PermutedIn(rows: seq<ClientView>, permuted: seq<ClientView>, i: nat)
    requires multiset(rows) == multiset(permuted) && i < |rows|
    ensures rows[i] in permuted
  {
    assert rows[i] in multiset(permuted);
  }

  lemma PermutedHasRow(rows: seq<ClientView>, permuted: seq<ClientView>, key: Pair)
    requires multiset(rows) == multiset(permuted) && HasRow(rows, key)
    ensures HasRow(permuted, key)
  {
    var r :| 0 <= r < |rows| && rows[r].Key() == key;
    PermutedIn(rows, permuted, r);
    var s :| 0 <= s < |permuted| && permuted[s] == rows[r];
    assert permuted[s].Key() == key;
  }

  lemma SortedIsGroupBy(rows: seq<ClientView>, events: seq<Event>)
    requires IsGroupBy(rows, events) && SequencesRise(events)
    ensures IsGroupBy(Sorting.StableSort(rows, Recency), events)
  {
    hide RowOf, Group, HasRow;
    var sorted := Sorting.StableSort(rows, Recency);
    RecencyDistinct(rows, events);
    Sorting.SortIsStable(rows, Recency);
    Sorting.DistinctSortsStrictly(rows, Recency);
    forall i | 0 <= i < |sorted| ensures sorted[i] in rows {
      PermutedIn(sorted, rows, i);
    }
    forall i, j | 0 <= i < j < |sorted| ensures sorted[i].Key() != sorted[j].Key() {
      assert Recency(sorted[i]) < Recency(sorted[j]);
    }
    forall i | 0 <= i < |events| ensures HasRow(sorted, KeyOf(events[i])) {
      PermutedHasRow(rows, sorted, KeyOf(events[i]));
    }
  }

  function RequestsOf(row: ClientView): int { row.requests }

  function ActivationsOf(row: ClientView): int { row.activations }

  lemma {:induction false} GroupedTotals(events: seq<Event>)
    requires |events| <= U64_MAX
    ensures Sorting.Total(Grouped(events), RequestsOf) == |events|
    ensures Sorting.Total(Grouped(events), ActivationsOf) == Activated(events)
  {
    if events != [] {
      var before, event := events[..|events| - 1], events[|events| - 1];
      GroupedTotals(before);
      GroupedIsGroupBy(before);
      AbsorbedTotals(Grouped(before), before, event);
    }
  }

  lemma {:induction false} GroupShorter(events: seq<Event>, key: Pair)
    ensures |Group(events, key)| <= |events|
  {
    if events != [] {
      GroupShorter(events[..|events| - 1], key);
    }
  }

  lemma {:induction false} ActivatedWithin(events: seq<Event>)
    ensures Activated(events) <= |events|
  {
    if events != [] {
      ActivatedWithin(events[..|events| - 1]);
    }
  }

  lemma AbsorbedTotals(rows: seq<ClientView>, events: seq<Event>, event: Event)
    requires IsGroupBy(rows, events) && |events| < U64_MAX
    ensures Sorting.Total(Absorbed(rows, event), RequestsOf) == Sorting.Total(rows, RequestsOf) + 1
    ensures Sorting.Total(Absorbed(rows, event), ActivationsOf)
         == Sorting.Total(rows, ActivationsOf) + One(event.value.details.IsActivation())
  {
    hide Group, Activated, Sorting.Total;
    var at := RowPosition(rows, KeyOf(event));
    if at < |rows| {
      GroupShorter(events, KeyOf(event));
      ActivatedWithin(Group(events, KeyOf(event)));
      Sorting.TotalUpdate(rows, at, Updated(rows[at], event), RequestsOf);
      Sorting.TotalUpdate(rows, at, Updated(rows[at], event), ActivationsOf);
    } else {
      Sorting.TotalConcat(rows, [Opened(event)], RequestsOf);
      Sorting.TotalConcat(rows, [Opened(event)], ActivationsOf);
      Sorting.TotalOfOne(Opened(event), RequestsOf);
      Sorting.TotalOfOne(Opened(event), ActivationsOf);
    }
  }

  // The fleet view is the group-by of the log: a row for each machine and SKU and no other, most recent first,
  // whose counts add up to the log's.
  lemma FleetIsGroupBy(events: seq<Event>)
    requires SequencesRise(events) && |events| <= U64_MAX
    ensures IsGroupBy(Rows(events), events)
    ensures forall i, j :: 0 <= i < j < |Rows(events)| ==> Rows(events)[i].lastSequence > Rows(events)[j].lastSequence
    ensures Sorting.Total(Rows(events), RequestsOf) == |events|
    ensures Sorting.Total(Rows(events), ActivationsOf) == Activated(events)
  {
    GroupedIsGroupBy(events);
    SortedIsGroupBy(Grouped(events), events);
    RecencyDistinct(Grouped(events), events);
    Sorting.DistinctSortsStrictly(Grouped(events), Recency);
    GroupedTotals(events);
    Sorting.SortTotal(Grouped(events), Recency, RequestsOf);
    Sorting.SortTotal(Grouped(events), Recency, ActivationsOf);
    forall i, j | 0 <= i < j < |Rows(events)| ensures Rows(events)[i].lastSequence > Rows(events)[j].lastSequence {
      assert Recency(Rows(events)[i]) < Recency(Rows(events)[j]);
    }
  }

  // What a row says, in terms of the events: its fields come from the first and the last of its machine and SKU,
  lemma RowSays(events: seq<Event>, k: nat) returns (first: nat, last: nat)
    requires SequencesRise(events) && |events| <= U64_MAX && k < |Rows(events)|
    ensures var row := Rows(events)[k];
      && first <= last < |events|
      && (forall i :: 0 <= i < first || last < i < |events| ==>
            events[i].value.details.machine != row.machine || events[i].value.details.sku != row.sku)
      && events[first].value.details.machine == events[last].value.details.machine == row.machine
      && events[first].value.details.sku == events[last].value.details.sku == row.sku
      && row.firstSeen == events[first].at && row.lastSeen == events[last].at
      && row.lastSequence == events[last].value.sequence
      && row.application == events[last].value.details.application
      && row.counted == events[last].value.details.counted
      && row.workstationName == events[last].value.details.workstationName
      && row.peer == events[last].value.details.peer
      && row.activatedLast == events[last].value.details.outcome.Activated?
  {
    hide Group, Rows, Activated;
    FleetIsGroupBy(events);
    first, last := EndsOfGroup(events, Rows(events)[k].Key());
  }

  // and its counts are how many there are.
  lemma RowCounts(events: seq<Event>, k: nat)
    requires SequencesRise(events) && |events| <= U64_MAX && k < |Rows(events)|
    ensures var row := Rows(events)[k];
      && row.requests == |set i: nat | i < |events| && events[i].value.details.machine == row.machine
            && events[i].value.details.sku == row.sku|
      && row.activations == |set i: nat | i < |events| && events[i].value.details.machine == row.machine
            && events[i].value.details.sku == row.sku && events[i].value.details.outcome.Activated?|
  {
    hide Group, Rows, Activated, Places, HasRow;
    FleetIsGroupBy(events);
    var row := Rows(events)[k];
    var member := (e: Event) => e.value.details.machine == row.machine && e.value.details.sku == row.sku;
    var active := (e: Event) => member(e) && e.value.details.outcome.Activated?;
    GroupShorter(events, row.Key());
    ActivatedWithin(Group(events, row.Key()));
    GroupCounts(events, row.Key(), member, active);
    PlacesAre(events, member);
    PlacesAre(events, active);
    assert (set i: nat | i < |events| && member(events[i])) == set i: nat | i < |events|
      && events[i].value.details.machine == row.machine && events[i].value.details.sku == row.sku;
    assert (set i: nat | i < |events| && active(events[i])) == set i: nat | i < |events|
      && events[i].value.details.machine == row.machine && events[i].value.details.sku == row.sku
      && events[i].value.details.outcome.Activated?;
  }

  lemma PlacesAre(events: seq<Event>, kind: Event -> bool)
    ensures Places(events, kind) == set i: nat | i < |events| && kind(events[i])
  {}

  // So it is of whatever a run leaves in the log.
  lemma FleetOfRun(capacity: nat, retention: nat, ops: seq<Operation>)
    requires ClockForward(ops) && |History(ops)| <= U64_MAX
    ensures var events := Run(NewLog(capacity, retention), ops).events;
      IsGroupBy(Rows(events), events)
      && (forall i, j :: 0 <= i < j < |Rows(events)| ==> Rows(events)[i].lastSequence > Rows(events)[j].lastSequence)
      && Sorting.Total(Rows(events), RequestsOf) == |events|
      && Sorting.Total(Rows(events), ActivationsOf) == Activated(events)
  {
    SequencesConsecutive(capacity, retention, ops);
    Counted(capacity, retention, ops);
    FleetIsGroupBy(Run(NewLog(capacity, retention), ops).events);
  }

  // ---- distinct machines

  predicate ActivatedFor(event: Event, application: Guid) {
    event.value.details.application == application && event.value.details.IsActivation()
  }

  function MachineOf(event: Event): Guid { event.value.details.machine }

  // The machines with an activated event for the application
  ghost function Machines(events: seq<Event>, application: Guid): set<Guid> {
    set i | 0 <= i < |events| && ActivatedFor(events[i], application) :: MachineOf(events[i])
  }

  ghost function Elements<T>(s: seq<T>): set<T> {
    set x | x in s
  }

  lemma {:induction false} DistinctCount<T>(s: seq<T>)
    requires forall i, j :: 0 <= i < j < |s| ==> s[i] != s[j]
    ensures |Elements(s)| == |s|
  {
    if s != [] {
      var last := s[|s| - 1];
      DistinctCount(s[..|s| - 1]);
      assert Elements(s) == Elements(s[..|s| - 1]) + {last};
    }
  }
}
