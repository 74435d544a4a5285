// The event log as the host holds it, and the views it computes in a loop.
module EventStore {
  import opened Prelude
  import opened Window
  import opened Events
  import opened Fleet
  import Gate
  import Sorting

  // The event of a request, field by field
  ghost predicate IsEventOf(
    event: Event, request: Gate.Request, peer: Option<Peer>, now: Instant, outcome: Outcome,
    observations: Gate.Observations)
  {
    var d := event.value.details;
    && event.at == now && d.peer == peer && d.outcome == outcome
    && d.version == request.version && d.application == request.application && d.counted == request.counted
    && d.sku == request.sku && d.machine == request.clientMachineId && d.licenseStatus == request.licenseStatus
    && d.clientKind == request.clientKind && d.workstationName == request.workstationName
    && d.clockSkew == observations.clockSkew && d.knownProduct == observations.knownProduct
  }

  class EventLog {
    var events: seq<Event>
    var nextSequence: nat
    var byCapacity: nat
    var byRetention: nat
    const capacity: nat
    const retention: nat

    function State(): Log
      reads this
    {
      Log(events, capacity, retention, nextSequence, byCapacity, byRetention)
    }

    constructor (capacity: nat, retention: nat)
      ensures State() == NewLog(capacity, retention)
    {
      this.events := [];
      this.capacity := if capacity < 1 then 1 else capacity;
      this.retention := retention;
      this.nextSequence := 0;
      this.byCapacity := 0;
      this.byRetention := 0;
    }

    method Expire(now: Instant) returns (removed: nat)
      modifies this
      ensures State() == Expired(old(State()), now)
      ensures |events| <= |old(events)| && removed == Capped(|old(events)| - |events|)
      ensures events == old(events)[|old(events)| - |events|..]
      ensures byRetention == Capped(old(byRetention) + removed) && byCapacity == old(byCapacity)
      ensures forall i :: 0 <= i < |old(events)| - |events| ==> old(events)[i].at + retention <= now || retention == 0
      ensures events != [] ==> now < events[0].at + retention && retention > 0
    {
      ExpiryIsExpired(events, now, retention);
      ghost var all := events;
      removed := 0;
      ExpireShrinks(events, now, retention);
      while events != [] && !Live(events[0], now, retention)
        invariant |events| <= |all| && ExpireFront(events, now, retention) == ExpireFront(all, now, retention)
        invariant removed == Capped(|all| - |events|)
        invariant nextSequence == old(nextSequence) && byCapacity == old(byCapacity) && byRetention == old(byRetention)
        decreases |events|
      {
        events := events[1..];
        removed := Capped(removed + 1);
      }
      byRetention := Capped(byRetention + removed);
    }

    method Record(
      request: Gate.Request, peer: Option<Peer>, now: Instant, outcome: Outcome, observations: Gate.Observations)
      returns (sequence: nat)
      modifies this
      ensures State() == Recorded(old(State()), DetailsOf(request, peer, outcome, observations), now)
      ensures sequence == old(nextSequence)
      ensures events != [] && IsEventOf(events[|events| - 1], request, peer, now, outcome, observations)
      ensures events[|events| - 1].value.sequence == sequence
    {
      var _ := Expire(now);
      sequence := nextSequence;
      nextSequence := Capped(nextSequence + 1);
      if |events| >= capacity {
        if events != [] {
          events := events[1..];
        }
        byCapacity := Capped(byCapacity + 1);
      }
      events := events + [Stamped(Entry(sequence, DetailsOf(request, peer, outcome, observations)), now)];
    }

    // A granted request; what the log keeps of the grant is the host key chosen and the counts.
    method RecordGrant(
      request: Gate.Request, peer: Option<Peer>, now: Instant, grant: Gate.Decision, observations: Gate.Observations)
      returns (sequence: nat)
      requires grant.Grant?
      modifies this
      ensures var outcome := Activated(grant.selection, grant.counts);
        State() == Recorded(old(State()), DetailsOf(request, peer, outcome, observations), now)
        && events != [] && IsEventOf(events[|events| - 1], request, peer, now, outcome, observations)
      ensures sequence == old(nextSequence)
    {
      sequence := Record(request, peer, now, Activated(grant.selection, grant.counts), observations);
    }

    method Clients(limit: nat) returns (rows: seq<ClientView>)
      ensures |rows| == (if limit < |Rows(events)| then limit else |Rows(events)|) && rows == Rows(events)[..|rows|]
    {
      rows := [];
      for i := 0 to |events|
        invariant rows == Grouped(events[..i])
      {
        var event := events[i];
        assert events[..i + 1][..i] == events[..i];
        var at := RowPosition(rows, KeyOf(event));
        if at < |rows| {
          var d, row := event.value.details, rows[at];
          row := row.(requests := Capped(row.requests + 1));
          if d.IsActivation() {
            row := row.(activations := Capped(row.activations + 1));
          }
          row := row.(lastSeen := event.at, lastSequence := event.value.sequence, workstationName := d.workstationName);
          row := row.(application := d.application, counted := d.counted, peer := d.peer);
          row := row.(activatedLast := d.IsActivation());
          rows := rows[at := row];
        } else {
          rows := rows + [Opened(event)];
        }
      }
      assert events[..|events|] == events;
      rows := Cut(Sorting.StableSort(rows, Recency), limit);
    }

    method DistinctMachines(application: Guid) returns (count: nat)
      ensures count == |Machines(events, application)|
      ensures Machines(events, application) == set i | 0 <= i < |events| && events[i].value.details.outcome.Activated?
        && events[i].value.details.application == application :: events[i].value.details.machine
    {
      var seen: seq<Guid> := [];
      for i := 0 to |events|
        invariant forall a, b :: 0 <= a < b < |seen| ==> seen[a] != seen[b]
        invariant Elements(seen) == Machines(events[..i], application)
      {
        var event := events[i];
        MachinesExtend(events, i, application);
        if ActivatedFor(event, application) {
          if MachineOf(event) !in seen {
            seen := seen + [MachineOf(event)];
          }
        }
      }
      DistinctCount(seen);
      assert events[..|events|] == events;
      count := |seen|;
    }
  }

  lemma MachinesExtend(events: seq<Event>, n: nat, application: Guid)
    requires n < |events|
    ensures Machines(events[..n + 1], application)
         == Machines(events[..n], application)
            + if ActivatedFor(events[n], application) then {MachineOf(events[n])} else {}
  {
    var longer, shorter := events[..n + 1], events[..n];
    forall m | m in Machines(longer, application)
      ensures m in Machines(shorter, application) || (ActivatedFor(events[n], application) && m == MachineOf(events[n]))
    {
      var i :| 0 <= i < |longer| && ActivatedFor(longer[i], application) && MachineOf(longer[i]) == m;
      assert i < n ==> shorter[i] == longer[i];
    }
    forall m | m in Machines(shorter, application) ensures m in Machines(longer, application) {
      var i :| 0 <= i < |shorter| && ActivatedFor(shorter[i], application) && MachineOf(shorter[i]) == m;
      assert shorter[i] == longer[i];
    }
    assert ActivatedFor(longer[n], application) ==> MachineOf(longer[n]) in Machines(longer, application);
  }
}
