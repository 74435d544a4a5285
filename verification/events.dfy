// The event log as a value: recording, expiry, and what a run of them leaves.
module Events {
  import opened Prelude
  import opened Window
  import opened Counting
  import Access
  import Gate
  import HostKeys

  datatype Peer = Peer(address: Access.IpAddr, port: nat)

  datatype Outcome = Activated(selection: HostKeys.Selection, counts: CountView) | Refused(reason: Gate.Refusal)

  // What a request was and what became of it
  datatype Details = Details(
    peer: Option<Peer>, version: nat, application: Guid, counted: Guid, sku: Guid, machine: Guid, licenseStatus: nat,
    clientKind: nat, workstationName: string, clockSkew: Option<nat>, knownProduct: bool, outcome: Outcome)
  {
    predicate IsActivation() { outcome.Activated? }
  }

  function DetailsOf(
    request: Gate.Request, peer: Option<Peer>, outcome: Outcome, observations: Gate.Observations): Details
  {
    Details(
      peer, request.version, request.application, request.counted, request.sku, request.clientMachineId,
      request.licenseStatus, request.clientKind, request.workstationName, observations.clockSkew,
      observations.knownProduct, outcome)
  }

  datatype Entry = Entry(sequence: nat, details: Details)

  type Event = Stamped<Entry>

  datatype Log = Log(
    events: seq<Event>, capacity: nat, retention: nat, nextSequence: nat, byCapacity: nat, byRetention: nat)

  function NewLog(capacity: nat, retention: nat): Log {
    Log([], if capacity < 1 then 1 else capacity, retention, 0, 0, 0)
  }

  function Expired(log: Log, now: Instant): Log {
    ExpireShrinks(log.events, now, log.retention);
    var kept := ExpireFront(log.events, now, log.retention);
    log.(events := kept, byRetention := Capped(log.byRetention + |log.events| - |kept|))
  }

  function Appended(log: Log, details: Details, now: Instant): Log {
    var full := |log.events| >= log.capacity;
    var kept := if full && log.events != [] then log.events[1..] else log.events;
    log.(events := kept + [Stamped(Entry(log.nextSequence, details), now)],
         byCapacity := if full then Capped(log.byCapacity + 1) else log.byCapacity,
         nextSequence := Capped(log.nextSequence + 1))
  }

  function Recorded(log: Log, details: Details, now: Instant): Log {
    Appended(Expired(log, now), details, now)
  }

  // ---- runs

  datatype Operation = Record(details: Details, now: Instant) | Expire(now: Instant)

  function Run(log: Log, ops: seq<Operation>): Log {
    if ops == [] then log
    else
      var before, op := Run(log, ops[..|ops| - 1]), ops[|ops| - 1];
      match op
      case Record(details, now) => Recorded(before, details, now)
      case Expire(now) => Expired(before, now)
  }

  // The event an operation records after so many others
  function NewEvent(recorded: nat, op: Operation): Event
    requires op.Record?
  {
    Stamped(Entry(Capped(recorded), op.details), op.now)
  }

  // Every event ever recorded
  function History(ops: seq<Operation>): seq<Event> {
    if ops == [] then []
    else
      var before, op := History(ops[..|ops| - 1]), ops[|ops| - 1];
      if op.Record? then before + [NewEvent(|before|, op)] else before
  }

  // What retention leaves of the history after a run: the live events, and the one just recorded in any case
  function Retained(ops: seq<Operation>, retention: nat): seq<Event> {
    if ops == [] then []
    else
      var before, op := History(ops[..|ops| - 1]), ops[|ops| - 1];
      var live := LiveOf(before, op.now, retention);
      if op.Record? then live + [NewEvent(|before|, op)] else live
  }

  ghost predicate ClockForward(ops: seq<Operation>) {
    forall i, j :: 0 <= i < j < |ops| ==> ops[i].now <= ops[j].now
  }

  lemma {:induction false} HistoryInOrder(ops: seq<Operation>)
    requires ClockForward(ops)
    ensures InTimeOrder(History(ops))
    ensures forall i :: 0 <= i < |History(ops)| ==> ops != [] && History(ops)[i].at <= ops[|ops| - 1].now
    ensures forall i :: 0 <= i < |History(ops)| ==> History(ops)[i].value.sequence == Capped(i)
  {
    if ops != [] {
      HistoryInOrder(ops[..|ops| - 1]);
    }
  }

  // Retained at an earlier time and then at a later one is retained at the later one.
  lemma RetainedLater(ops: seq<Operation>, now: Instant, retention: nat)
    requires ClockForward(ops) && (ops != [] ==> ops[|ops| - 1].now <= now)
    ensures LiveOf(Retained(ops, retention), now, retention) == LiveOf(History(ops), now, retention)
  {
    if ops != [] {
      var before, op := History(ops[..|ops| - 1]), ops[|ops| - 1];
      LongerLives(before, op.now, now, retention);
      if op.Record? {
        LiveOfConcat(LiveOf(before, op.now, retention), [NewEvent(|before|, op)], now, retention);
        LiveOfConcat(before, [NewEvent(|before|, op)], now, retention);
      }
    }
  }

  ghost predicate SuffixOf<T>(part: seq<T>, whole: seq<T>) {
    |part| <= |whole| && part == whole[|whole| - |part|..]
  }

  lemma SuffixGrows<T>(part: seq<T>, whole: seq<T>, e: T)
    requires SuffixOf(part, whole)
    ensures SuffixOf(part + [e], whole + [e])
  {}

  lemma SuffixOfSuffix<T>(a: seq<T>, b: seq<T>, c: seq<T>)
    requires SuffixOf(a, b) && SuffixOf(b, c)
    ensures SuffixOf(a, c)
  {}

  lemma SuffixInOrder(part: seq<Event>, whole: seq<Event>)
    requires SuffixOf(part, whole) && InTimeOrder(whole)
    ensures InTimeOrder(part)
  {}

  lemma RetainedIsSuffix(ops: seq<Operation>, retention: nat)
    requires ClockForward(ops)
    ensures SuffixOf(Retained(ops, retention), History(ops)) && InTimeOrder(Retained(ops, retention))
  {
    hide LiveOf, SuffixOf, ExpireFront;
    HistoryInOrder(ops);
    if ops == [] {
      EmptySuffix<Event>([]);
    } else {
      var before, op := History(ops[..|ops| - 1]), ops[|ops| - 1];
      HistoryInOrder(ops[..|ops| - 1]);
      LiveIsSuffix(before, op.now, retention);
      if op.Record? {
        SuffixGrows(LiveOf(before, op.now, retention), before, NewEvent(|before|, op));
      }
    }
    SuffixInOrder(Retained(ops, retention), History(ops));
  }

  lemma EmptySuffix<T>(whole: seq<T>)
    ensures SuffixOf([], whole)
  {}

  lemma LiveIsSuffix(s: seq<Event>, now: Instant, retention: nat)
    requires InTimeOrder(s)
    ensures SuffixOf(LiveOf(s, now, retention), s)
  {
    ExpiryKeepsLive(s, now, retention);
  }

  lemma LastShorter<T>(s: seq<T>, e: T, n: nat)
    requires n > 0
    ensures Last(s + [e], n) == (if |Last(s, n)| >= n then Last(s, n)[1..] else Last(s, n)) + [e]
  {}

  lemma {:induction false} Counted(capacity: nat, retention: nat, ops: seq<Operation>)
    ensures var log := Run(NewLog(capacity, retention), ops);
      log.capacity == NewLog(capacity, retention).capacity && log.retention == retention
      && log.nextSequence == Capped(|History(ops)|)
  {
    hide LiveOf, ExpireFront;
    if ops != [] {
      Counted(capacity, retention, ops[..|ops| - 1]);
    }
  }

  // One operation on a log that holds the last retained events
  lemma StepKeepsLast(log: Log, retained: seq<Event>, before: seq<Event>, op: Operation)
    requires InTimeOrder(retained) && log.events == Last(retained, log.capacity) && log.capacity > 0
    requires LiveOf(retained, op.now, log.retention) == LiveOf(before, op.now, log.retention)
    requires log.nextSequence == Capped(|before|)
    ensures Expired(log, op.now).events == Last(LiveOf(before, op.now, log.retention), log.capacity)
    ensures op.Record? ==>
      (Recorded(log, op.details, op.now).events
        == Last(LiveOf(before, op.now, log.retention) + [NewEvent(|before|, op)], log.capacity))
  {
    hide LiveOf, ExpireFront, InTimeOrder, Last;
    LastKeepsOrder(retained, log.capacity);
    ExpiryKeepsLive(log.events, op.now, log.retention);
    LiveOfLast(retained, log.capacity, op.now, log.retention);
    if op.Record? {
      LastShorter(LiveOf(before, op.now, log.retention), NewEvent(|before|, op), log.capacity);
    }
  }

  // In every run the log is the last `capacity` of the retained events, so a suffix of the history.
  lemma {:induction false} LogIsSuffix(capacity: nat, retention: nat, ops: seq<Operation>)
    requires ClockForward(ops)
    ensures var log := Run(NewLog(capacity, retention), ops);
      log.events == Last(Retained(ops, retention), log.capacity) && SuffixOf(log.events, History(ops))
  {
    hide LiveOf, ExpireFront, InTimeOrder, Last, SuffixOf, Expired, Recorded;
    Counted(capacity, retention, ops);
    RetainedIsSuffix(ops, retention);
    var log' := Run(NewLog(capacity, retention), ops);
    if ops == [] {
      LastOfNone<Event>(log'.capacity);
    } else {
      var before, op := ops[..|ops| - 1], ops[|ops| - 1];
      LogIsSuffix(capacity, retention, before);
      Counted(capacity, retention, before);
      RetainedIsSuffix(before, retention);
      RetainedLater(before, op.now, retention);
      StepKeepsLast(Run(NewLog(capacity, retention), before), Retained(before, retention), History(before), op);
    }
    LastIsSuffix(Retained(ops, retention), log'.capacity);
    SuffixOfSuffix(log'.events, Retained(ops, retention), History(ops));
  }

  // An event of the history is in the log just when it is one of the last `capacity` and younger than the retention at
  // the last operation, or is the one just recorded.
  lemma LogHolds(capacity: nat, retention: nat, ops: seq<Operation>, i: nat)
    requires ClockForward(ops) && i < |History(ops)|
    ensures var history, log := History(ops), Run(NewLog(capacity, retention), ops).events;
      var op := ops[|ops| - 1];
      && |log| <= |history| && log == history[|history| - |log|..]
      && (i >= |history| - |log| <==>
        |history| - i <= (if capacity == 0 then 1 else capacity)
        && ((op.now < history[i].at + retention && retention > 0) || (op.Record? && i == |history| - 1)))
  {
    hide Run, LiveOf;
    LogIsSuffix(capacity, retention, ops);
    Counted(capacity, retention, ops);
    var before, op := History(ops[..|ops| - 1]), ops[|ops| - 1];
    HistoryInOrder(ops[..|ops| - 1]);
    LiveIsYoung(before, op.now, retention);
  }

  lemma LastOfNone<T>(n: nat)
    ensures Last<T>([], n) == []
  {}

  lemma LastIsSuffix<T>(s: seq<T>, n: nat)
    ensures SuffixOf(Last(s, n), s)
  {}

  // Sequence numbers run on without a gap to the last one given out, and the newest event is always there.
  lemma SequencesConsecutive(capacity: nat, retention: nat, ops: seq<Operation>)
    requires ClockForward(ops) && |History(ops)| <= U64_MAX
    ensures var log := Run(NewLog(capacity, retention), ops);
      |log.events| <= log.nextSequence && |log.events| <= log.capacity
      && (forall i :: 0 <= i < |log.events| ==> log.events[i].value.sequence == log.nextSequence - |log.events| + i)
    ensures ops != [] && ops[|ops| - 1].Record? ==>
      var log := Run(NewLog(capacity, retention), ops);
      log.events != [] && log.events[|log.events| - 1] == History(ops)[|History(ops)| - 1]
  {
    hide Run, Retained;
    LogIsSuffix(capacity, retention, ops);
    Counted(capacity, retention, ops);
    HistoryInOrder(ops);
    if ops != [] && ops[|ops| - 1].Record? {
      RetainedNewest(ops, retention);
    }
  }

  lemma RetainedNewest(ops: seq<Operation>, retention: nat)
    requires ops != [] && ops[|ops| - 1].Record?
    ensures Retained(ops, retention) != []
  {}

  // Every event recorded is held, or was dropped for room, or was dropped for age.
  lemma {:induction false} EventsAccounted(capacity: nat, retention: nat, ops: seq<Operation>)
    requires |History(ops)| <= U64_MAX
    ensures var log := Run(NewLog(capacity, retention), ops);
      log.capacity > 0 && log.nextSequence == |History(ops)| == |log.events| + log.byCapacity + log.byRetention
  {
    hide LiveOf, ExpireFront;
    if ops != [] {
      EventsAccounted(capacity, retention, ops[..|ops| - 1]);
      var log := Run(NewLog(capacity, retention), ops[..|ops| - 1]);
      ExpireShrinks(log.events, ops[|ops| - 1].now, log.retention);
    }
  }
}
