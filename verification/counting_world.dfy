// All applications' caches: the table of them, whole runs of it, and the objects that hold it.
module CountingWorld {
  import opened Prelude
  import opened Window
  import opened Counting
  import Search

  // One application's entries, oldest first
  datatype Slot = Slot(application: Guid, entries: seq<Cached>)

  type World = seq<Slot>

  function SlotOf(w: World, application: Guid): (at: nat)
    ensures at <= |w|
    ensures at < |w| ==> w[at].application == application
    ensures forall i :: 0 <= i < at ==> w[i].application != application
  {
    Search.FirstWith(w, (slot: Slot) => slot.application, application)
  }

  // The newest sighting, or now when there is none
  function Freshness(slot: Slot, now: Instant): Instant {
    if slot.entries == [] then now else slot.entries[|slot.entries| - 1].at
  }

  // The first of the slots whose newest entry is oldest
  function Stalest(w: World, now: Instant): (at: nat)
    requires w != []
    ensures at < |w|
    ensures forall i :: 0 <= i < |w| ==> Freshness(w[at], now) <= Freshness(w[i], now)
    ensures forall i :: 0 <= i < at ==> Freshness(w[at], now) < Freshness(w[i], now)
  {
    Search.FirstLeast(w, (slot: Slot) => Freshness(slot, now))
  }

  // The slot a request is counted in
  function Place(w: World, application: Guid, now: Instant): (at: nat)
    ensures at <= |w|
    ensures at == |w| ==> |w| < MAX_APPLICATIONS
  {
    var at := SlotOf(w, application);
    if at < |w| || |w| < MAX_APPLICATIONS then at else Stalest(w, now)
  }

  // The world once a slot is there for the application
  function Placed(w: World, application: Guid, now: Instant): (w': World)
    ensures Place(w, application, now) < |w'| && w'[Place(w, application, now)].application == application
  {
    var at := Place(w, application, now);
    if at == |w| then w + [Slot(application, [])]
    else if w[at].application == application then w
    else w[at := Slot(application, [])]
  }

  function AfterSighting(w: World, application: Guid, cmid: Guid, now: Instant): World {
    var at, w' := Place(w, application, now), Placed(w, application, now);
    w'[at := Slot(application, Observed(w'[at].entries, cmid, now))]
  }

  function ClampDemand(demand: nat): nat {
    if demand < 1 then 1 else if demand > MAX_TRACKED_REQUIRED_CLIENTS then MAX_TRACKED_REQUIRED_CLIENTS else demand
  }

  function Reported(cached: nat, demand: nat): nat {
    var saturation := ClampDemand(demand) * 2;
    var world := if cached < saturation then cached else saturation;
    if demand > MAX_TRACKED_REQUIRED_CLIENTS then world else if world < demand then demand else world
  }

  function View(w: World, application: Guid, cmid: Guid, demand: nat, now: Instant): CountView {
    var entries := Placed(w, application, now)[Place(w, application, now)].entries;
    var left := ExpireFront(entries, now, CMID_EXPIRY);
    var cached := |RecordEntries(left, cmid, now)|;
    ExpireShrinks(entries, now, CMID_EXPIRY);
    CountView(Reported(cached, demand), cached, RecordOutcome(left, cmid), |entries| - |left|,
              demand > MAX_TRACKED_REQUIRED_CLIENTS)
  }

  // What the application's slot holds when a sighting comes
  function Was(w: World, application: Guid): seq<Cached> {
    var at := SlotOf(w, application);
    if at < |w| then w[at].entries else []
  }

  // What a reply says of the cache: how many entries were thirty days old or older, whether the machine was among the
  // others, how many there are now, and the count held between bounds of the demand.
  lemma ViewAccounts(w: World, application: Guid, cmid: Guid, demand: nat, now: Instant)
    ensures var was, view := Was(w, application), View(w, application, cmid, demand, now);
      && view.expired <= |was|
      && (forall i :: 0 <= i < view.expired ==> was[i].at + 30 * 24 * 3600 * 1_000_000_000 <= now)
      && (view.expired < |was| ==> now < was[view.expired].at + 30 * 24 * 3600 * 1_000_000_000)
      && (view.outcome == Renewed <==> exists i :: view.expired <= i < |was| && was[i].value == cmid)
      && (view.outcome == InsertedWithEviction ==> |was| - view.expired >= 200)
      && (view.outcome == Inserted ==> |was| - view.expired < 200)
      && view.cached == |was| - view.expired + (if view.outcome == Inserted then 1 else 0)
      && view.cached == |AfterSighting(w, application, cmid, now)[Place(w, application, now)].entries|
      && (view.anomalousDemand <==> demand > 100)
    ensures var view := View(w, application, cmid, demand, now);
      var most := if demand == 0 then 2 else if demand > 100 then 200 else 2 * demand;
      var held := if view.cached > most then most else view.cached;
      view.reported == if demand <= 100 && held < demand then demand else held
  {
    hide Placed, Place, ExpireFront, RecordEntries, RecordOutcome, Reported, Observed;
    var was := Was(w, application);
    var left := ExpireFront(was, now, CMID_EXPIRY);
    WasPlaced(w, application, now);
    SightingAccounts(was, cmid, now);
    ReportedIs(|RecordEntries(left, cmid, now)|, demand);
    ObservedIs(was, cmid, now);
  }

  lemma ObservedIs(entries: seq<Cached>, cmid: Guid, now: Instant)
    ensures Observed(entries, cmid, now) == RecordEntries(ExpireFront(entries, now, CMID_EXPIRY), cmid, now)
  {}

  lemma ReportedIs(cached: nat, demand: nat)
    ensures var most := if demand == 0 then 2 else if demand > 100 then 200 else 2 * demand;
      var held := if cached > most then most else cached;
      Reported(cached, demand) == if demand <= 100 && held < demand then demand else held
  {}

  lemma SightingAccounts(was: seq<Cached>, cmid: Guid, now: Instant)
    ensures var left := ExpireFront(was, now, CMID_EXPIRY);
      var (expired, outcome) := (|was| - |left|, RecordOutcome(left, cmid));
      && 0 <= expired
      && (forall i :: 0 <= i < expired ==> was[i].at + 30 * 24 * 3600 * 1_000_000_000 <= now)
      && (expired < |was| ==> now < was[expired].at + 30 * 24 * 3600 * 1_000_000_000)
      && (outcome == Renewed <==> exists i :: expired <= i < |was| && was[i].value == cmid)
      && (outcome == InsertedWithEviction ==> |left| >= 200) && (outcome == Inserted ==> |left| < 200)
      && |RecordEntries(left, cmid, now)| == |left| + (if outcome == Inserted then 1 else 0)
  {
    hide ExpireFront;
    ExpiryIsExpired(was, now, CMID_EXPIRY);
    var left := ExpireFront(was, now, CMID_EXPIRY);
    assert forall i :: 0 <= i < |left| ==> left[i] == was[|was| - |left| + i];
    var at := PositionOf(left, cmid);
    if at < |left| {
      assert was[|was| - |left| + at].value == cmid;
    }
  }

  lemma WasPlaced(w: World, application: Guid, now: Instant)
    ensures Placed(w, application, now)[Place(w, application, now)].entries == Was(w, application)
  {}

  // What a client is told depends on the cache size and its own demand only, and stays in bounds.
  lemma ReportedBounds(cached: nat, demand: nat)
    requires 1 <= cached <= MAX_CACHED_PER_APPLICATION
    ensures 1 <= Reported(cached, demand) <= MAX_CACHED_PER_APPLICATION
    ensures demand <= MAX_TRACKED_REQUIRED_CLIENTS ==>
      var most := 2 * (if demand == 0 then 1 else demand);
      demand <= Reported(cached, demand) <= most && (demand <= cached <= most ==> Reported(cached, demand) == cached)
      && (cached < demand ==> Reported(cached, demand) == demand)
      && (cached > most ==> Reported(cached, demand) == most)
    ensures demand > MAX_TRACKED_REQUIRED_CLIENTS ==> Reported(cached, demand) == cached
  {}

  // ---- whole runs

  datatype Sighting = Sighting(application: Guid, cmid: Guid, now: Instant)

  ghost predicate ClockForward(trace: seq<Sighting>) {
    forall i, j :: 0 <= i < j < |trace| ==> trace[i].now <= trace[j].now
  }

  ghost function Run(trace: seq<Sighting>): World {
    if trace == [] then []
    else
      var e := trace[|trace| - 1];
      AfterSighting(Run(trace[..|trace| - 1]), e.application, e.cmid, e.now)
  }

  // An application's sightings since its slot was last created
  ghost function History(trace: seq<Sighting>, application: Guid): seq<Cached> {
    if trace == [] then []
    else
      var before, e := trace[..|trace| - 1], trace[|trace| - 1];
      var w := Run(before);
      if e.application == application then
        (if SlotOf(w, application) < |w| then History(before, application) else []) + [Stamped(e.cmid, e.now)]
      else if SlotOf(Run(trace), application) < |Run(trace)| then History(before, application)
      else []
  }

  ghost predicate Tracks(trace: seq<Sighting>, slot: Slot) {
    var h := History(trace, slot.application);
    h != [] && InTimeOrder(h) && trace != [] && h[|h| - 1].at <= trace[|trace| - 1].now
    && slot.entries == Expected(h, h[|h| - 1].at)
  }

  ghost predicate DistinctSlots(w: World) {
    forall i, j :: 0 <= i < j < |w| ==> w[i].application != w[j].application
  }

  lemma SlotFound(w: World, i: nat)
    requires DistinctSlots(w) && i < |w|
    ensures SlotOf(w, w[i].application) == i
  {}

  lemma ObserveKeepsSlots(w: World, application: Guid, cmid: Guid, now: Instant)
    requires DistinctSlots(w) && |w| <= MAX_APPLICATIONS
    ensures var w', at := AfterSighting(w, application, cmid, now), Place(w, application, now);
      DistinctSlots(w') && |w'| <= MAX_APPLICATIONS && at < |w'| && w'[at].application == application
      && forall i :: 0 <= i < |w'| && i != at ==> i < |w| && w'[i] == w[i]
  {}

  // A sighting goes to its application's slot, or to a new one while there are fewer than eight, or in place of the
  // first of those last used longest ago.
  lemma PlaceIsStalest(w: World, application: Guid, now: Instant)
    ensures var at := Place(w, application, now);
      var newest := (slot: Slot) => if slot.entries == [] then now else slot.entries[|slot.entries| - 1].at;
      && (application in SlotApplications(w) ==> at < |w| && w[at].application == application)
      && (application !in SlotApplications(w) && |w| < 8 ==> at == |w|)
      && (application !in SlotApplications(w) && |w| >= 8 ==>
            (at < |w| && (forall i :: 0 <= i < |w| ==> newest(w[at]) <= newest(w[i]))
             && (forall i :: 0 <= i < at ==> newest(w[at]) < newest(w[i]))))
  {
    InSlots(w, application);
  }

  lemma StepElsewhere(trace: seq<Sighting>, i: nat)
    requires trace != [] && ClockForward(trace)
    requires var w, w' := Run(trace[..|trace| - 1]), Run(trace);
      DistinctSlots(w') && i < |w'| && i < |w| && w'[i] == w[i] && w[i].application != trace[|trace| - 1].application
      && Tracks(trace[..|trace| - 1], w[i])
    ensures Tracks(trace, Run(trace)[i])
  {
    hide Run, Expected, AfterSighting;
    SlotFound(Run(trace), i);
    var before := trace[..|trace| - 1];
    assert before[|before| - 1] == trace[|trace| - 2];
  }

  // In every run, each slot holds what its history says.
  lemma {:induction false} WorldIsHistory(trace: seq<Sighting>)
    requires ClockForward(trace)
    ensures DistinctSlots(Run(trace)) && |Run(trace)| <= MAX_APPLICATIONS
    ensures forall i :: 0 <= i < |Run(trace)| ==> Tracks(trace, Run(trace)[i])
  {
    hide AfterSighting, Tracks, DistinctSlots, Place;
    if trace == [] {
      EmptyRun();
    } else {
      var before, e := trace[..|trace| - 1], trace[|trace| - 1];
      WorldIsHistory(before);
      ObserveKeepsSlots(Run(before), e.application, e.cmid, e.now);
      StepHere(trace);
      forall i | 0 <= i < |Run(trace)| ensures Tracks(trace, Run(trace)[i]) {
        if i != Place(Run(before), e.application, e.now) {
          OtherApplication(Run(trace), i, Place(Run(before), e.application, e.now));
          StepElsewhere(trace, i);
        }
      }
    }
  }

  lemma EmptyRun()
    ensures DistinctSlots(Run([]))
  {}

  lemma OtherApplication(w: World, i: nat, j: nat)
    requires DistinctSlots(w) && i < |w| && j < |w| && i != j
    ensures w[i].application != w[j].application
  {}

  lemma AppendInOrder(h: seq<Cached>, c: Cached)
    requires InTimeOrder(h) && (h != [] ==> h[|h| - 1].at <= c.at)
    ensures InTimeOrder(h + [c])
  {}

  // A sighting in a slot that tracked a history, or in a new one, leaves a slot that tracks the longer history.
  lemma SightingTracked(h: seq<Cached>, before: Instant, c: Cached)
    requires InTimeOrder(h) && if h == [] then before == 0 else before == h[|h| - 1].at <= c.at
    ensures InTimeOrder(h + [c])
    ensures Observed(Expected(h, before), c.value, c.at) == Expected(h + [c], (h + [c])[|h + [c]| - 1].at)
  {
    hide Observed, Expected;
    AppendInOrder(h, c);
    ObservedIsExpected(h, before, c);
  }

  lemma NothingExpected()
    ensures Expected([], 0) == []
  {}

  // What a sighting makes of its own slot, and of the history it tracks
  lemma SlotHere(w: World, e: Sighting)
    ensures var at, w' := Place(w, e.application, e.now), AfterSighting(w, e.application, e.cmid, e.now);
      at < |w'| && w'[at].application == e.application
      && (SlotOf(w, e.application) < |w| ==> at == SlotOf(w, e.application))
      && (SlotOf(w, e.application) < |w| ==> w'[at].entries == Observed(w[at].entries, e.cmid, e.now))
      && (SlotOf(w, e.application) == |w| ==> w'[at].entries == Observed([], e.cmid, e.now))
  {
    hide Observed, Stalest;
  }

  lemma HistoryHere(trace: seq<Sighting>)
    requires trace != []
    ensures var before, e := trace[..|trace| - 1], trace[|trace| - 1];
      var kept := if SlotOf(Run(before), e.application) < |Run(before)| then History(before, e.application) else [];
      History(trace, e.application) == kept + [Stamped(e.cmid, e.now)]
  {
    hide Run, SlotOf;
  }

  lemma StepHere(trace: seq<Sighting>)
    requires ClockForward(trace) && trace != []
    requires var w := Run(trace[..|trace| - 1]);
      DistinctSlots(w) && forall i :: 0 <= i < |w| ==> Tracks(trace[..|trace| - 1], w[i])
    ensures var e := trace[|trace| - 1];
      var at := Place(Run(trace[..|trace| - 1]), e.application, e.now);
      at < |Run(trace)| && Tracks(trace, Run(trace)[at])
  {
    hide Observed, Expected, AfterSighting, Place, SlotOf, History, InTimeOrder;
    var before, e := trace[..|trace| - 1], trace[|trace| - 1];
    var w, c := Run(before), Stamped(e.cmid, e.now);
    SlotHere(w, e);
    HistoryHere(trace);
    var at := SlotOf(w, e.application);
    if at < |w| {
      var h := History(before, e.application);
      assert Tracks(before, w[at]);
      assert before[|before| - 1] == trace[|trace| - 2];
      SightingTracked(h, h[|h| - 1].at, c);
    } else {
      assert [] + [c] == [c];
      NothingInOrder();
      SightingTracked([], 0, c);
      NothingExpected();
    }
  }

  lemma NothingInOrder()
    ensures InTimeOrder<Guid>([])
  {}

  // ---- runs that touch no more applications than there are slots

  ghost function Applications(trace: seq<Sighting>): set<Guid> {
    set e | e in trace :: e.application
  }

  ghost function SightingsOf(trace: seq<Sighting>, application: Guid): seq<Cached> {
    if trace == [] then []
    else
      var e := trace[|trace| - 1];
      SightingsOf(trace[..|trace| - 1], application)
      + if e.application == application then [Stamped(e.cmid, e.now)] else []
  }

  ghost function SlotApplications(w: World): set<Guid> {
    set slot | slot in w :: slot.application
  }

  lemma {:induction false} SlotCount(w: World)
    requires DistinctSlots(w)
    ensures |SlotApplications(w)| == |w|
  {
    if w != [] {
      var front, last := w[..|w| - 1], w[|w| - 1];
      SlotCount(front);
      assert w == front + [last];
      assert SlotApplications(w) == SlotApplications(front) + {last.application};
      assert last.application !in SlotApplications(front);
    }
  }

  lemma LastApplication(trace: seq<Sighting>)
    requires trace != []
    ensures Applications(trace) == Applications(trace[..|trace| - 1]) + {trace[|trace| - 1].application}
    ensures |Applications(trace[..|trace| - 1])| <= |Applications(trace)|
  {
    var before, e := trace[..|trace| - 1], trace[|trace| - 1];
    assert trace == before + [e];
    Smaller(Applications(before), Applications(trace));
  }

  lemma Smaller(a: set<Guid>, b: set<Guid>)
    requires a <= b
    ensures |a| <= |b|
  {
    assert b == a + (b - a);
  }

  lemma NoDisplacement(w: World, application: Guid, cmid: Guid, now: Instant)
    requires DistinctSlots(w) && |w| <= MAX_APPLICATIONS && |SlotApplications(w) + {application}| <= MAX_APPLICATIONS
    ensures SlotApplications(AfterSighting(w, application, cmid, now)) == SlotApplications(w) + {application}
  {
    hide Observed, Stalest;
    SlotCount(w);
    var at := SlotOf(w, application);
    var w' := AfterSighting(w, application, cmid, now);
    if at < |w| {
      assert w[at] in w;
      assert SlotApplications(w) + {application} == SlotApplications(w);
    }
    assert Place(w, application, now) == at;
    forall a | a in SlotApplications(w') ensures a in SlotApplications(w) + {application} {
      var i :| 0 <= i < |w'| && w'[i].application == a;
      assert i != at ==> w'[i] == w[i] && w[i] in w;
    }
    forall a | a in SlotApplications(w) + {application} ensures a in SlotApplications(w') {
      assert w'[at] in w' && w'[at].application == application;
      if a != application {
        var i :| 0 <= i < |w| && w[i].application == a;
        assert w'[i] == w[i] && w'[i] in w';
      }
    }
  }

  lemma InSlots(w: World, application: Guid)
    ensures SlotOf(w, application) < |w| <==> application in SlotApplications(w)
  {
    var at := SlotOf(w, application);
    if at < |w| {
      assert w[at] in w;
    }
  }

  lemma {:induction false} FewApplications(trace: seq<Sighting>, application: Guid)
    requires ClockForward(trace) && |Applications(trace)| <= MAX_APPLICATIONS
    ensures SlotApplications(Run(trace)) == Applications(trace)
    ensures History(trace, application) == SightingsOf(trace, application)
  {
    hide AfterSighting, Tracks;
    if trace != [] {
      var before, e := trace[..|trace| - 1], trace[|trace| - 1];
      LastApplication(trace);
      FewApplications(before, application);
      WorldIsHistory(before);
      NoDisplacement(Run(before), e.application, e.cmid, e.now);
      InSlots(Run(before), application);
      InSlots(Run(trace), application);
      if application !in Applications(before) {
        NoSightings(before, application);
      }
    }
  }

  lemma {:induction false} NoSightings(trace: seq<Sighting>, application: Guid)
    requires application !in Applications(trace)
    ensures SightingsOf(trace, application) == []
  {
    if trace != [] {
      LastApplication(trace);
      NoSightings(trace[..|trace| - 1], application);
    }
  }

  // With no more applications than slots, a slot is a function of that application's sightings alone.
  lemma CacheIsFunctionOfSightings(trace: seq<Sighting>, application: Guid)
    requires ClockForward(trace) && |Applications(trace)| <= MAX_APPLICATIONS && application in Applications(trace)
    ensures var h, at := SightingsOf(trace, application), SlotOf(Run(trace), application);
      h != [] && at < |Run(trace)| && Run(trace)[at].entries == Expected(h, h[|h| - 1].at)
  {
    FewApplications(trace, application);
    WorldIsHistory(trace);
    InSlots(Run(trace), application);
    assert Tracks(trace, Run(trace)[SlotOf(Run(trace), application)]);
  }

  // So a machine is counted for an application just when its last sighting there is less than thirty days older than
  // the newest one, and one of the newest 200 such.
  lemma CountedExactly(trace: seq<Sighting>, application: Guid, c: Cached)
    requires ClockForward(trace) && |Applications(trace)| <= 8 && application in Applications(trace)
    ensures var h, at := SightingsOf(trace, application), SlotOf(Run(trace), application);
      h != [] && at < |Run(trace)| && (c in Run(trace)[at].entries <==>
        exists i :: 0 <= i < |h| && h[i] == c && StillHere(h, h[|h| - 1].at, i) && HereFrom(h, h[|h| - 1].at, i) <= 200)
  {
    hide StillHere, HereFrom, Run, SightingsOf, Expected;
    CacheIsFunctionOfSightings(trace, application);
    var h := SightingsOf(trace, application);
    ExpectedMeans(h, h[|h| - 1].at, c);
  }

  lemma StalestOne(slot: Slot, now: Instant)
    ensures Stalest([slot], now) == 0
  {}

  lemma StalestNext(w: World, i: nat, now: Instant)
    requires 0 < i < |w|
    ensures var best := Stalest(w[..i], now);
      Stalest(w[..i + 1], now) == if Freshness(w[i], now) < Freshness(w[best], now) then i else best
  {
    assert w[..i + 1][..i] == w[..i];
  }

  // ---- the mutable cache

  class Bucket {
    var application: Guid
    var entries: seq<Cached>

    constructor (application: Guid)
      ensures this.application == application && entries == []
    {
      this.application := application;
      entries := [];
    }

    method Expire(now: Instant) returns (removed: nat)
      modifies this`entries
      ensures entries == ExpireFront(old(entries), now, CMID_EXPIRY)
      ensures removed <= |old(entries)| && entries == old(entries)[removed..]
      ensures forall i :: 0 <= i < removed ==> old(entries)[i].at + 30 * 24 * 3600 * 1_000_000_000 <= now
      ensures entries != [] ==> now < entries[0].at + 30 * 24 * 3600 * 1_000_000_000
    {
      ExpiryIsExpired(entries, now, CMID_EXPIRY);
      removed := 0;
      while |entries| > 0 && !Live(entries[0], now, CMID_EXPIRY)
        invariant ExpireFront(entries, now, CMID_EXPIRY) == ExpireFront(old(entries), now, CMID_EXPIRY)
        invariant removed + |entries| == |old(entries)|
        decreases |entries|
      {
        entries := entries[1..];
        removed := removed + 1;
      }
    }

    method Record(cmid: Guid, now: Instant) returns (outcome: CountOutcome)
      modifies this`entries
      ensures entries == RecordEntries(old(entries), cmid, now)
      ensures outcome == RecordOutcome(old(entries), cmid)
    {
      var position := PositionOf(entries, cmid);
      if position < |entries| {
        entries := entries[..position] + entries[position + 1..];
        entries := entries + [Stamped(cmid, now)];
        return Renewed;
      }
      var evicted := |entries| >= MAX_CACHED_PER_APPLICATION;
      if evicted {
        entries := entries[1..];
      }
      entries := entries + [Stamped(cmid, now)];
      outcome := if evicted then InsertedWithEviction else Inserted;
    }
  }

  class ClientCounts {
    var buckets: seq<Bucket>

    ghost predicate Valid()
      reads this
    {
      forall i, j :: 0 <= i < j < |buckets| ==> buckets[i] != buckets[j]
    }

    ghost function World(): (w: World)
      reads this, buckets
      ensures |w| == |buckets|
      ensures forall i :: 0 <= i < |w| ==> w[i] == Slot(buckets[i].application, buckets[i].entries)
    {
      seq(|buckets|, i requires 0 <= i < |buckets| reads this, buckets =>
            Slot(buckets[i].application, buckets[i].entries))
    }

    constructor ()
      ensures Valid() && World() == []
    {
      buckets := [];
    }

    method BucketFor(application: Guid, now: Instant) returns (index: nat)
      requires Valid()
      modifies this, buckets
      ensures Valid() && forall b :: b in buckets ==> b in old(buckets) || fresh(b)
      ensures World() == Placed(old(World()), application, now)
      ensures index == Place(old(World()), application, now) < |buckets|
    {
      hide SlotOf, Stalest;
      index := SlotPosition(application);
      if index == |buckets| {
        if |buckets| < MAX_APPLICATIONS {
          AddBucket(application);
        } else {
          index := StalestPosition(now);
          Displace(index, application);
        }
      }
    }

    method AddBucket(application: Guid)
      requires Valid()
      modifies this
      ensures Valid() && forall b :: b in buckets ==> b in old(buckets) || fresh(b)
      ensures World() == old(World()) + [Slot(application, [])]
    {
      var bucket := new Bucket(application);
      buckets := buckets + [bucket];
    }

    method Displace(index: nat, application: Guid)
      requires Valid() && index < |buckets|
      modifies buckets
      ensures Valid() && buckets == old(buckets)
      ensures World() == old(World())[index := Slot(application, [])]
    {
      buckets[index].application := application;
      buckets[index].entries := [];
    }

    method SlotPosition(application: Guid) returns (at: nat)
      ensures at == SlotOf(World(), application)
    {
      at := 0;
      assert World()[0..] == World();
      while at < |buckets| && buckets[at].application != application
        invariant at <= |buckets|
        invariant SlotOf(World(), application) == at + SlotOf(World()[at..], application)
      {
        assert World()[at..][1..] == World()[at + 1..];
        at := at + 1;
      }
    }

    method StalestPosition(now: Instant) returns (at: nat)
      requires |buckets| > 0
      ensures at == Stalest(World(), now)
    {
      hide Stalest;
      at := 0;
      ghost var w := World();
      var best := Newest(buckets[0], now);
      assert w[..1] == [w[0]];
      StalestOne(w[0], now);
      for i := 1 to |buckets|
        invariant at < i && at == Stalest(w[..i], now) && best == Freshness(w[at], now)
      {
        StalestNext(w, i, now);
        var newest := Newest(buckets[i], now);
        if newest < best {
          at, best := i, newest;
        }
      }
      assert w[..|buckets|] == w;
    }

    static function Newest(bucket: Bucket, now: Instant): Instant
      reads bucket
    {
      if bucket.entries == [] then now else bucket.entries[|bucket.entries| - 1].at
    }

    // One machine into one bucket
    method Count(index: nat, cmid: Guid, now: Instant) returns (expired: nat, outcome: CountOutcome, cached: nat)
      requires Valid() && index < |buckets|
      modifies buckets[index]
      ensures Valid() && buckets == old(buckets)
      ensures var was := old(World())[index];
        var left := ExpireFront(was.entries, now, CMID_EXPIRY);
        World() == old(World())[index := Slot(was.application, RecordEntries(left, cmid, now))]
        && expired == |was.entries| - |left| && outcome == RecordOutcome(left, cmid)
        && cached == |RecordEntries(left, cmid, now)|
    {
      hide RecordEntries, ExpireFront, RecordOutcome;
      var bucket := buckets[index];
      expired := bucket.Expire(now);
      outcome := bucket.Record(cmid, now);
      cached := |bucket.entries|;
    }

    method Observe(application: Guid, cmid: Guid, required: nat, now: Instant) returns (view: CountView)
      requires Valid()
      modifies this, buckets
      ensures Valid() && forall b :: b in buckets ==> b in old(buckets) || fresh(b)
      ensures World() == AfterSighting(old(World()), application, cmid, now)
      ensures view == View(old(World()), application, cmid, required, now)
    {
      hide RecordEntries, ExpireFront, RecordOutcome, Stalest, SlotOf, Place, Placed;
      var index := BucketFor(application, now);
      assert buckets[index] in buckets;
      var expired, outcome, cached := Count(index, cmid, now);
      var anomalousDemand := required > MAX_TRACKED_REQUIRED_CLIENTS;
      var tracked := ClampDemand(required);
      var saturation := tracked * 2;
      var world := if cached < saturation then cached else saturation;
      var reported := if anomalousDemand then world else if world < required then required else world;
      view := CountView(reported, cached, outcome, expired, anomalousDemand);
    }
  }
}
