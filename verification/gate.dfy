// The gates a request passes before it is counted, and what of it reaches the shared counts.
module Gate {
  import opened Prelude
  import opened Counting
  import opened CountingWorld
  import CivilDate
  import HostKeys

  // The build's choices
  datatype Build = Build(refuseNonVolume: bool, refusePreview: bool, refuseClockSkew: bool)

  // Microsoft's tolerance: four hours, in nanoseconds
  const CLOCK_SKEW_TOLERANCE: nat := 4 * 3600 * 1_000_000_000

  datatype KeyKind = KmsClient | KmsHost | MultipleActivation | Retail | OriginalEquipment | Evaluation | Other {
    predicate IsVolume() {
      this in {KmsClient, KmsHost, MultipleActivation}
    }
  }

  datatype Product = Product(kind: KeyKind, preview: bool, application: Option<Guid>) {
    // Its application is not known, or is the one claimed.
    predicate Suits(claimed: Guid) { application.None? || application.value == claimed }
  }

  // What one host key presents itself as
  datatype Identity = Identity(epid: string, hardwareId: nat, keyId: nat, activated: CivilDate.Date)

  // What the database says, and what the host answers an application and a counted ID as
  datatype Database = Database(
    products: map<Guid, Product>, knownCountedIds: set<Guid>, select: (Guid, Guid) -> (HostKeys.Selection, Identity))

  // Minutes before a client that failed tries again, and before one that succeeded renews
  datatype Intervals = Intervals(activation: nat, renewal: nat)

  const DEFAULT_INTERVALS: Intervals := Intervals(120, 10_080)

  datatype Request = Request(
    version: nat, counted: Guid, application: Guid, clientMachineId: Guid, clientTime: nat,
    requiredClients: nat, workstationName: string, sku: Guid, licenseStatus: nat, graceMinutes: nat, clientKind: nat)

  datatype Refusal = NonVolumeProduct(kind: KeyKind) | PreviewProduct | ApplicationMismatch | ClockSkew(skew: nat)

  datatype Decision =
    | Grant(identity: Identity, selection: HostKeys.Selection, counts: CountView, intervals: Intervals)
    | Refuse(reason: Refusal)

  datatype Observations = Observations(knownProduct: bool, clockSkew: Option<nat>, clockSkewed: bool)

  // FILETIME ticks are 100 ns
  function Skew(request: Request, hostTime: Option<nat>): Option<nat> {
    match hostTime
    case None => None
    case Some(host) =>
      Some((if host < request.clientTime then request.clientTime - host else host - request.clientTime) * 100)
  }

  // How far two clocks are apart, in ticks
  function Apart(a: nat, b: nat): nat { if a < b then b - a else a - b }

  function IsSkewed(skew: Option<nat>): bool {
    skew.Some? && skew.value > CLOCK_SKEW_TOLERANCE
  }

  // Why a request is refused, if it is: the first gate that closes
  function Verdict(build: Build, db: Database, request: Request, hostTime: Option<nat>): Option<Refusal> {
    var skew := Skew(request, hostTime);
    var product := if request.counted in db.products then Some(db.products[request.counted]) else None;
    if build.refuseNonVolume && product.Some? && !product.value.kind.IsVolume() then
      Some(NonVolumeProduct(product.value.kind))
    else if build.refusePreview && product.Some? && product.value.preview then Some(PreviewProduct)
    else if product.Some? && !product.value.Suits(request.application) then Some(ApplicationMismatch)
    else if build.refuseClockSkew && IsSkewed(skew) then Some(ClockSkew(skew.value))
    else None
  }

  // The grant a request gets in a world
  function Granting(db: Database, w: World, request: Request, now: Instant): Decision {
    var (selection, identity) := db.select(request.application, request.counted);
    Grant(identity, selection,
          View(w, request.application, request.clientMachineId, request.requiredClients, now), DEFAULT_INTERVALS)
  }

  method Evaluate(
    build: Build, db: Database, request: Request, counts: ClientCounts, now: Instant, hostTime: Option<nat>)
    returns (decision: Decision, observations: Observations)
    requires counts.Valid()
    modifies counts, counts.buckets
    ensures counts.Valid()
    ensures observations.clockSkew.Some? <==> hostTime.Some?
    ensures hostTime.Some? ==> observations.clockSkew == Some(100 * Apart(request.clientTime, hostTime.value))
    ensures observations.clockSkewed <==>
      hostTime.Some? && Apart(request.clientTime, hostTime.value) > 4 * 3600 * 10_000_000
    ensures observations.knownProduct <==> request.counted in db.products || request.counted in db.knownCountedIds
    ensures match Verdict(build, db, request, hostTime)
      case Some(reason) => decision == Refuse(reason) && counts.World() == old(counts.World())
      case None =>
        decision == Granting(db, old(counts.World()), request, now)
        && counts.World() == AfterSighting(old(counts.World()), request.application, request.clientMachineId, now)
    ensures decision.Grant? ==>
      db.select(request.application, request.counted) == (decision.selection, decision.identity)
      && decision.intervals.activation == 120 && decision.intervals.renewal == 10_080
    // What each reason stands for
    ensures var entry := if request.counted in db.products then Some(db.products[request.counted]) else None;
      var volume := entry.None? || entry.value.kind in {KmsClient, KmsHost, MultipleActivation};
      var released := entry.None? || !entry.value.preview;
      var suits := entry.None? || entry.value.application in {None, Some(request.application)};
      var (first, second) := (build.refuseNonVolume && !volume, build.refusePreview && !released);
      var last := build.refuseClockSkew && observations.clockSkewed;
      && (decision.Grant? <==> !first && !second && suits && !last)
      && (first ==> decision == Refuse(NonVolumeProduct(entry.value.kind)))
      && (!first && second ==> decision == Refuse(PreviewProduct))
      && (!first && !second && !suits ==> decision == Refuse(ApplicationMismatch))
      && (!first && !second && suits && last ==> decision == Refuse(ClockSkew(observations.clockSkew.value)))
  {
    hide AfterSighting, View;
    var clockSkew := Skew(request, hostTime);
    var clockSkewed := IsSkewed(clockSkew);
    var known := request.counted in db.products || request.counted in db.knownCountedIds;
    observations := Observations(known, clockSkew, clockSkewed);
    if request.counted in db.products {
      var entry := db.products[request.counted];
      if build.refuseNonVolume && !entry.kind.IsVolume() {
        decision := Refuse(NonVolumeProduct(entry.kind));
        return;
      }
      if build.refusePreview && entry.preview {
        decision := Refuse(PreviewProduct);
        return;
      }
      if entry.application.Some? && entry.application.value != request.application {
        decision := Refuse(ApplicationMismatch);
        return;
      }
    }
    if build.refuseClockSkew && clockSkewed {
      decision := Refuse(ClockSkew(clockSkew.value));
      return;
    }
    var (selection, identity) := db.select(request.application, request.counted);
    var view := counts.Observe(request.application, request.clientMachineId, request.requiredClients, now);
    decision := Grant(identity, selection, view, DEFAULT_INTERVALS);
  }

  // ---- two runs

  datatype Arrival = Arrival(request: Request, now: Instant, hostTime: Option<nat>)

  function WorldAfter(build: Build, db: Database, w: World, a: Arrival): World {
    if Verdict(build, db, a.request, a.hostTime).Some? then w
    else AfterSighting(w, a.request.application, a.request.clientMachineId, a.now)
  }

  function WorldOf(build: Build, db: Database, arrivals: seq<Arrival>): World {
    if arrivals == [] then []
    else WorldAfter(build, db, WorldOf(build, db, arrivals[..|arrivals| - 1]), arrivals[|arrivals| - 1])
  }

  function DecisionOf(build: Build, db: Database, arrivals: seq<Arrival>): Decision
    requires arrivals != []
  {
    var a := arrivals[|arrivals| - 1];
    match Verdict(build, db, a.request, a.hostTime)
    case Some(reason) => Refuse(reason)
    case None => Granting(db, WorldOf(build, db, arrivals[..|arrivals| - 1]), a.request, a.now)
  }

  // Alike but for what the client declares about itself
  predicate Alike(a: Arrival, b: Arrival) {
    && a.now == b.now && a.hostTime == b.hostTime
    && a.request.counted == b.request.counted && a.request.application == b.request.application
    && a.request.clientMachineId == b.request.clientMachineId && a.request.clientTime == b.request.clientTime
  }

  // The same in all but the count reported and the flag that marks an unusual demand
  predicate SameButForDemand(a: Decision, b: Decision) {
    match (a, b)
    case (Refuse(x), Refuse(y)) => x == y
    case (Grant(i, s, v, m), Grant(j, t, u, n)) =>
      i == j && s == t && m == n && v.cached == u.cached && v.outcome == u.outcome && v.expired == u.expired
    case _ => false
  }

  lemma SameVerdict(build: Build, db: Database, a: Arrival, b: Arrival)
    requires Alike(a, b)
    ensures Verdict(build, db, a.request, a.hostTime) == Verdict(build, db, b.request, b.hostTime)
  {}

  lemma ViewsDifferInCount(w: World, a: Arrival, b: Arrival)
    requires Alike(a, b)
    ensures var v := View(w, a.request.application, a.request.clientMachineId, a.request.requiredClients, a.now);
      var u := View(w, b.request.application, b.request.clientMachineId, b.request.requiredClients, b.now);
      v.cached == u.cached && v.outcome == u.outcome && v.expired == u.expired
  {}

  // What a client declares about itself never reaches the shared counts, and of a decision only the count reported and
  // the flag for an unusual demand, in its own reply.
  lemma {:induction false} DemandNeverReachesTheWorld(build: Build, db: Database, a: seq<Arrival>, b: seq<Arrival>)
    requires |a| == |b| && forall i :: 0 <= i < |a| ==> Alike(a[i], b[i])
    ensures WorldOf(build, db, a) == WorldOf(build, db, b)
    ensures a != [] ==> SameButForDemand(DecisionOf(build, db, a), DecisionOf(build, db, b))
  {
    hide AfterSighting, View;
    if a != [] {
      var x, y := a[|a| - 1], b[|b| - 1];
      DemandNeverReachesTheWorld(build, db, a[..|a| - 1], b[..|b| - 1]);
      assert Alike(x, y);
      SameVerdict(build, db, x, y);
      ViewsDifferInCount(WorldOf(build, db, a[..|a| - 1]), x, y);
    }
  }

  // ---- the gate's runs are runs of sightings

  // The sightings of the requests that were granted
  function Granted(build: Build, db: Database, arrivals: seq<Arrival>): seq<Sighting> {
    if arrivals == [] then []
    else
      var a := arrivals[|arrivals| - 1];
      Granted(build, db, arrivals[..|arrivals| - 1])
      + if Verdict(build, db, a.request, a.hostTime).Some? then []
        else [Sighting(a.request.application, a.request.clientMachineId, a.now)]
  }

  lemma RunExtends(trace: seq<Sighting>, e: Sighting)
    ensures Run(trace + [e]) == AfterSighting(Run(trace), e.application, e.cmid, e.now)
  {
    assert (trace + [e])[..|trace|] == trace;
  }

  lemma {:induction false} WorldIsRunOfGranted(build: Build, db: Database, arrivals: seq<Arrival>)
    ensures WorldOf(build, db, arrivals) == Run(Granted(build, db, arrivals))
  {
    hide Run, Verdict, AfterSighting;
    if arrivals == [] {
      NothingGranted();
    } else {
      var before, a := arrivals[..|arrivals| - 1], arrivals[|arrivals| - 1];
      WorldIsRunOfGranted(build, db, before);
      if Verdict(build, db, a.request, a.hostTime).Some? {
        assert Granted(build, db, before) + [] == Granted(build, db, before);
      } else {
        var sighting := Sighting(a.request.application, a.request.clientMachineId, a.now);
        RunExtends(Granted(build, db, before), sighting);
      }
    }
  }

  lemma NothingGranted()
    ensures Run([]) == []
  {}

  ghost predicate InOrder(arrivals: seq<Arrival>) {
    forall i, j :: 0 <= i < j < |arrivals| ==> arrivals[i].now <= arrivals[j].now
  }

  lemma {:induction false} GrantedInOrder(build: Build, db: Database, arrivals: seq<Arrival>)
    requires InOrder(arrivals)
    ensures ClockForward(Granted(build, db, arrivals))
    ensures var granted := Granted(build, db, arrivals);
      forall i :: 0 <= i < |granted| ==> arrivals != [] && granted[i].now <= arrivals[|arrivals| - 1].now
  {
    hide Verdict;
    if arrivals != [] {
      var before := arrivals[..|arrivals| - 1];
      GrantedInOrder(build, db, before);
      if before != [] {
        assert before[|before| - 1] == arrivals[|arrivals| - 2];
      }
    }
  }

  // After any run of requests each slot holds what the granted sightings of its application say, and the refused
  // requests have left no mark.
  lemma GatedWorldIsHistory(build: Build, db: Database, arrivals: seq<Arrival>)
    requires InOrder(arrivals)
    ensures var w, granted := WorldOf(build, db, arrivals), Granted(build, db, arrivals);
      && w == Run(granted) && DistinctSlots(w) && |w| <= MAX_APPLICATIONS
      && (forall i :: 0 <= i < |w| ==> Tracks(granted, w[i]))
  {
    hide Run, Tracks, DistinctSlots, WorldOf, Granted;
    WorldIsRunOfGranted(build, db, arrivals);
    GrantedInOrder(build, db, arrivals);
    WorldIsHistory(Granted(build, db, arrivals));
  }

  ghost predicate Bounded(w: World) {
    forall i :: 0 <= i < |w| ==> |w[i].entries| <= MAX_CACHED_PER_APPLICATION
  }

  lemma PlacedIsBounded(w: World, application: Guid, now: Instant)
    requires Bounded(w)
    ensures Bounded(Placed(w, application, now))
  {}

  lemma SightingKeepsBounded(w: World, application: Guid, cmid: Guid, now: Instant)
    requires Bounded(w)
    ensures Bounded(AfterSighting(w, application, cmid, now))
  {
    hide Placed, Place, Observed;
    PlacedIsBounded(w, application, now);
    OutcomeAccounts(Placed(w, application, now)[Place(w, application, now)].entries, cmid, now);
  }

  // In every run no slot is over its bound, so every reply is in bounds.
  lemma {:induction false} WorldBounded(build: Build, db: Database, arrivals: seq<Arrival>)
    ensures Bounded(WorldOf(build, db, arrivals))
  {
    hide Bounded, AfterSighting, Verdict;
    if arrivals != [] {
      var before, a := arrivals[..|arrivals| - 1], arrivals[|arrivals| - 1];
      WorldBounded(build, db, before);
      SightingKeepsBounded(WorldOf(build, db, before), a.request.application, a.request.clientMachineId, a.now);
    } else {
      NothingBounded();
    }
  }

  lemma NothingBounded()
    ensures Bounded([])
  {}

  lemma RepliesInBounds(build: Build, db: Database, arrivals: seq<Arrival>)
    requires arrivals != [] && DecisionOf(build, db, arrivals).Grant?
    ensures var n, counts := arrivals[|arrivals| - 1].request.requiredClients, DecisionOf(build, db, arrivals).counts;
      counts.reported == Reported(counts.cached, n) && 1 <= counts.reported <= MAX_CACHED_PER_APPLICATION
      && (n <= MAX_TRACKED_REQUIRED_CLIENTS ==> n <= counts.reported <= 2 * (if n == 0 then 1 else n))
      && (n > MAX_TRACKED_REQUIRED_CLIENTS ==> counts.reported == counts.cached)
      && (counts.anomalousDemand <==> n > MAX_TRACKED_REQUIRED_CLIENTS)
  {
    var before, a := arrivals[..|arrivals| - 1], arrivals[|arrivals| - 1];
    WorldBounded(build, db, before);
    var w := WorldOf(build, db, before);
    var placed := Placed(w, a.request.application, a.now);
    var at := Place(w, a.request.application, a.now);
    PlacedIsBounded(w, a.request.application, a.now);
    OutcomeAccounts(placed[at].entries, a.request.clientMachineId, a.now);
    ReportedBounds(DecisionOf(build, db, arrivals).counts.cached, a.request.requiredClients);
  }
}
