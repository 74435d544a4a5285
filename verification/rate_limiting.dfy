// Token buckets per source and application, over whole runs.
module RateLimiting {
  import opened Bits
  import opened Prelude
  import opened Entropy
  import opened Access
  import Search

  const MAX_TRACKED_SOURCES: nat := 4096
  const SECOND: nat := 1_000_000_000

  datatype Admission = Allowed(remaining: nat) | Limited(retryAfter: nat)

  datatype Key = Key(address: IpAddr, application: Guid)

  datatype Bucket = Bucket(key: Key, tokens: U32, lastRefill: Instant, lastSeen: Instant)

  datatype Limits = Limits(burst: U32, refillPerSecond: U32)

  function AsU32(x: nat): U32 { if x > U32_MAX then U32_MAX else x }

  function MinOf(a: U32, b: U32): U32 { if a < b then a else b }

  // What the time since the last refill has earned
  function Earned(limits: Limits, bucket: Bucket, now: Instant): nat {
    Capped(SinceSaturating(now, bucket.lastRefill) / SECOND * limits.refillPerSecond)
  }

  function Refilled(limits: Limits, bucket: Bucket, now: Instant): Bucket {
    var earned := Earned(limits, bucket, now);
    var refilled := if earned > 0 then
      bucket.(tokens := MinOf(AsU32(Capped(bucket.tokens + earned)), limits.burst), lastRefill := now) else bucket;
    refilled.(lastSeen := now)
  }

  function Spent(bucket: Bucket): Bucket {
    if bucket.tokens == 0 then bucket else bucket.(tokens := bucket.tokens - 1)
  }

  function RetryAfter(limits: Limits): nat {
    var perSecond := if limits.refillPerSecond < 1 then 1 else limits.refillPerSecond;
    var seconds := 1 / perSecond;
    (if seconds < 1 then 1 else seconds) * SECOND
  }

  function Reply(limits: Limits, bucket: Bucket): Admission {
    if bucket.tokens == 0 then Limited(RetryAfter(limits)) else Allowed(bucket.tokens - 1)
  }

  // None of the saturations shows: a refill adds the rate for each whole second since the last one, up to the burst,
  // and counts as one only if it adds something.
  lemma RefillIsExact(limits: Limits, bucket: Bucket, now: Instant)
    requires bucket.tokens <= limits.burst
    ensures var seconds := if now < bucket.lastRefill then 0 else (now - bucket.lastRefill) / 1_000_000_000;
      var earned := seconds * limits.refillPerSecond;
      Refilled(limits, bucket, now) == Bucket(
        bucket.key, if bucket.tokens + earned < limits.burst then bucket.tokens + earned else limits.burst,
        if earned == 0 then bucket.lastRefill else now, now)
  {}

  // ---- one bucket over its life

  // The bucket a request finds: a full one for the first request
  function Found(limits: Limits, key: Key, times: seq<Instant>): Bucket
    requires times != []
    decreases |times|, 0
  {
    var now := times[|times| - 1];
    if |times| == 1 then Bucket(key, limits.burst, now, now) else LifeOf(limits, key, times[..|times| - 1])
  }

  // The bucket after requests at these times, from its creation at the first of them
  function LifeOf(limits: Limits, key: Key, times: seq<Instant>): Bucket
    requires times != []
    decreases |times|, 1
  {
    Spent(Refilled(limits, Found(limits, key, times), times[|times| - 1]))
  }

  predicate Admits(limits: Limits, bucket: Bucket, now: Instant) {
    Refilled(limits, bucket, now).tokens > 0
  }

  // How many of the requests from index `from` on were admitted
  function Admitted(limits: Limits, key: Key, times: seq<Instant>, from: nat): nat {
    if |times| <= from then 0
    else
      Admitted(limits, key, times[..|times| - 1], from)
      + if Admits(limits, Found(limits, key, times), times[|times| - 1]) then 1 else 0
  }

  ghost predicate ClockForward(times: seq<Instant>) {
    forall i, j :: 0 <= i < j < |times| ==> times[i] <= times[j]
  }

  // Most a stretch of time can earn
  function Income(limits: Limits, from: Instant, to: Instant): nat {
    SinceSaturating(to, from) / SECOND * limits.refillPerSecond
  }

  lemma IncomeAdds(limits: Limits, a: Instant, b: Instant, c: Instant)
    requires a <= b <= c
    ensures Income(limits, a, b) + Income(limits, b, c) <= Income(limits, a, c)
  {
    var x, y, z := (b - a) / SECOND, (c - b) / SECOND, (c - a) / SECOND;
    MulOrder(x + y, z, limits.refillPerSecond);
    assert (x + y) * limits.refillPerSecond == x * limits.refillPerSecond + y * limits.refillPerSecond;
  }

  // One request: what it takes comes out of the bucket or out of the income since the last refill.
  lemma RequestStep(limits: Limits, b: Bucket, now: Instant)
    requires b.lastRefill <= now && b.tokens <= limits.burst
    ensures var after := Spent(Refilled(limits, b, now));
      var taken := if Admits(limits, b, now) then 1 else 0;
      after.tokens <= limits.burst && after.key == b.key && after.lastSeen == now
      && ((after.lastRefill == now && after.tokens + taken <= limits.burst
           && after.tokens + taken <= b.tokens + Income(limits, b.lastRefill, now))
          || (after.lastRefill == b.lastRefill && after.tokens + taken == b.tokens
              && Income(limits, b.lastRefill, now) == 0))
  {}

  // Admissions since the bucket was made never exceed the burst and the income since then.
  lemma {:induction false} TokensConserved(limits: Limits, key: Key, times: seq<Instant>)
    requires times != [] && ClockForward(times)
    ensures var b := LifeOf(limits, key, times);
      times[0] <= b.lastRefill <= times[|times| - 1] && b.tokens <= limits.burst
      && Admitted(limits, key, times, 0) + b.tokens <= limits.burst + Income(limits, times[0], b.lastRefill)
  {
    hide Refilled, Income, Spent;
    var now := times[|times| - 1];
    var b := Found(limits, key, times);
    if |times| > 1 {
      TokensConserved(limits, key, times[..|times| - 1]);
      assert times[|times| - 2] <= now;
    } else {
      assert Admitted(limits, key, times[..0], 0) == 0;
      NoIncome(limits, now);
    }
    RequestStep(limits, b, now);
    IncomeAdds(limits, times[0], b.lastRefill, now);
  }

  lemma NoIncome(limits: Limits, now: Instant)
    ensures Income(limits, now, now) == 0
  {}

  lemma IncomeGrows(limits: Limits, a: Instant, b: Instant, c: Instant)
    requires a <= b <= c
    ensures Income(limits, a, b) <= Income(limits, a, c)
  {
    IncomeAdds(limits, a, b, c);
  }

  lemma AdmissionsBounded(limits: Limits, key: Key, times: seq<Instant>)
    requires times != [] && ClockForward(times)
    ensures Admitted(limits, key, times, 0)
         <= limits.burst + (times[|times| - 1] - times[0]) / SECOND * limits.refillPerSecond
  {
    TokensConserved(limits, key, times);
    IncomeGrows(limits, times[0], LifeOf(limits, key, times).lastRefill, times[|times| - 1]);
  }

  // The other way round: while no more requests have come than the burst, all of them were admitted.
  lemma {:induction false} BurstHonoured(limits: Limits, key: Key, times: seq<Instant>)
    requires times != [] && ClockForward(times) && |times| <= limits.burst
    ensures Admitted(limits, key, times, 0) == |times| && LifeOf(limits, key, times).tokens >= limits.burst - |times|
  {
    hide Refilled, Spent;
    var now := times[|times| - 1];
    if |times| > 1 {
      BurstHonoured(limits, key, times[..|times| - 1]);
      TokensConserved(limits, key, times[..|times| - 1]);
    } else {
      assert Admitted(limits, key, times[..0], 0) == 0;
    }
    RefillOnlyAdds(limits, Found(limits, key, times), now);
  }

  lemma RefillOnlyAdds(limits: Limits, b: Bucket, now: Instant)
    requires b.tokens <= limits.burst
    ensures Refilled(limits, b, now).tokens >= b.tokens
    ensures Spent(b).tokens >= b.tokens - 1
    ensures Spent(Refilled(limits, b, now)).tokens >= b.tokens - 1
  {}

  // ---- any window of time

  lemma LateIncome(limits: Limits, refill: Instant, start: Instant, now: Instant)
    requires refill <= start <= now && Income(limits, refill, start) == 0
    ensures Income(limits, refill, now) <= Income(limits, start, now) + limits.refillPerSecond
  {
    if limits.refillPerSecond > 0 {
      var x, y := (now - refill) / SECOND, (now - start) / SECOND;
      NoWholeSecond((start - refill) / SECOND, limits.refillPerSecond);
      assert x <= y + 1;
      MulOrder(x, y + 1, limits.refillPerSecond);
      assert (y + 1) * limits.refillPerSecond == y * limits.refillPerSecond + limits.refillPerSecond;
    }
  }

  lemma NoWholeSecond(x: nat, rate: nat)
    requires rate > 0 && x * rate == 0
    ensures x == 0
  {
    if x > 0 {
      MulOrder(1, x, rate);
    }
  }

  // From the request at index `from` on
  lemma {:induction false} WindowConserved(limits: Limits, key: Key, times: seq<Instant>, from: nat)
    requires from < |times| && ClockForward(times)
    ensures var b, start := LifeOf(limits, key, times), times[from];
      b.lastRefill <= times[|times| - 1] && b.tokens <= limits.burst
      && (if b.lastRefill < start then
            Income(limits, b.lastRefill, start) == 0 && Admitted(limits, key, times, from) + b.tokens <= limits.burst
          else
            Admitted(limits, key, times, from) + b.tokens
            <= limits.burst + Income(limits, start, b.lastRefill) + limits.refillPerSecond)
  {
    hide Refilled, Income, Spent;
    var now, start := times[|times| - 1], times[from];
    var b := Found(limits, key, times);
    TokensConserved(limits, key, times);
    NoIncome(limits, now);
    if |times| > 1 {
      TokensConserved(limits, key, times[..|times| - 1]);
      assert times[|times| - 2] <= now;
    }
    RequestStep(limits, b, now);
    if from == |times| - 1 {
      assert Admitted(limits, key, times[..|times| - 1], from) == 0;
    } else {
      WindowConserved(limits, key, times[..|times| - 1], from);
      if b.lastRefill < start {
        LateIncome(limits, b.lastRefill, start, now);
      } else {
        IncomeAdds(limits, start, b.lastRefill, now);
      }
    }
  }

  lemma WindowWithinIncome(limits: Limits, key: Key, times: seq<Instant>, from: nat)
    requires from < |times| && ClockForward(times)
    ensures Admitted(limits, key, times, from)
         <= limits.burst + Income(limits, times[from], times[|times| - 1]) + limits.refillPerSecond
  {
    hide Income, LifeOf, Admitted;
    var b, start, now := LifeOf(limits, key, times), times[from], times[|times| - 1];
    WindowConserved(limits, key, times, from);
    assert start <= now;
    if b.lastRefill >= start {
      IncomeGrows(limits, start, b.lastRefill, now);
    }
  }

  // Admissions in any stretch of requests: the burst, and the rate for each whole second and one more.
  lemma WindowBounded(limits: Limits, key: Key, times: seq<Instant>, from: nat)
    requires from < |times| && ClockForward(times)
    ensures Admitted(limits, key, times, from)
         <= limits.burst + ((times[|times| - 1] - times[from]) / SECOND + 1) * limits.refillPerSecond
  {
    hide LifeOf, Admitted;
    WindowWithinIncome(limits, key, times, from);
    TimesNext((times[|times| - 1] - times[from]) / SECOND, limits.refillPerSecond);
  }

  // ---- the promise of a retry time

  // A second is always named; waiting it out helps exactly when the limits let anything in at all.
  lemma RetryKept(limits: Limits, bucket: Bucket, now: Instant, later: Instant)
    requires bucket.lastRefill <= now && bucket.tokens <= limits.burst
    requires Reply(limits, Refilled(limits, bucket, now)) == Limited(RetryAfter(limits))
    requires later >= now + RetryAfter(limits)
    ensures RetryAfter(limits) == SECOND
    ensures Admits(limits, Spent(Refilled(limits, bucket, now)), later)
      <==> limits.burst >= 1 && limits.refillPerSecond >= 1
  {
    var waiting := Spent(Refilled(limits, bucket, now));
    var seconds := (later - waiting.lastRefill) / SECOND;
    assert seconds >= 1;
    MulOrder(1, seconds, limits.refillPerSecond);
    if limits.refillPerSecond == 0 {
      assert Earned(limits, waiting, later) == 0;
    }
  }

  // ---- the table

  function PositionOf(table: seq<Bucket>, key: Key): (at: nat)
    ensures at <= |table|
    ensures at < |table| ==> table[at].key == key
    ensures forall i :: 0 <= i < at ==> table[i].key != key
  {
    Search.FirstWith(table, (bucket: Bucket) => bucket.key, key)
  }

  // The first of the least recently seen
  function Stalest(table: seq<Bucket>): (at: nat)
    requires table != []
    ensures at < |table|
    ensures forall i :: 0 <= i < |table| ==> table[at].lastSeen <= table[i].lastSeen
    ensures forall i :: 0 <= i < at ==> table[at].lastSeen < table[i].lastSeen
  {
    Search.FirstLeast(table, (bucket: Bucket) => bucket.lastSeen)
  }

  function Place(table: seq<Bucket>, key: Key): (at: nat)
    ensures at <= |table|
    ensures at == |table| ==> |table| < MAX_TRACKED_SOURCES
  {
    var at := PositionOf(table, key);
    if at < |table| || |table| < MAX_TRACKED_SOURCES then at else Stalest(table)
  }

  function FoundAt(limits: Limits, table: seq<Bucket>, key: Key, now: Instant): (b: Bucket)
    ensures b.key == key
  {
    var at := Place(table, key);
    if at < |table| && table[at].key == key then table[at] else Bucket(key, limits.burst, now, now)
  }

  function Put(table: seq<Bucket>, at: nat, bucket: Bucket): seq<Bucket>
    requires at <= |table|
  {
    if at == |table| then table + [bucket] else table[at := bucket]
  }

  function AfterRequest(limits: Limits, table: seq<Bucket>, key: Key, now: Instant): seq<Bucket> {
    Put(table, Place(table, key), Spent(Refilled(limits, FoundAt(limits, table, key, now), now)))
  }

  ghost predicate DistinctKeys(table: seq<Bucket>) {
    forall i, j :: 0 <= i < j < |table| ==> table[i].key != table[j].key
  }

  lemma RequestKeepsTable(limits: Limits, table: seq<Bucket>, key: Key, now: Instant)
    requires DistinctKeys(table) && |table| <= MAX_TRACKED_SOURCES
    ensures var table', at := AfterRequest(limits, table, key, now), Place(table, key);
      DistinctKeys(table') && |table'| <= MAX_TRACKED_SOURCES && at < |table'| && table'[at].key == key
      && (forall i :: 0 <= i < |table'| && i != at ==> i < |table| && table'[i] == table[i])
      && (forall i :: 0 <= i < |table| && i != at ==> i < |table'| && table'[i] == table[i])
      && (at < |table| && table[at].key != key ==>
            (|table| == 4096 && (forall i :: 0 <= i < |table| ==> table[i].key != key)
             && (forall i :: 0 <= i < |table| ==> table[at].lastSeen <= table[i].lastSeen)
             && (forall i :: 0 <= i < at ==> table[at].lastSeen < table[i].lastSeen)))
  {}

  // ---- whole runs

  datatype Request = Request(address: IpAddr, application: Guid, now: Instant) {
    // The address is made canonical before anything is looked up.
    function SourceKey(): Key { Key(Canonical(address), application) }
  }

  ghost function Run(limits: Limits, trace: seq<Request>): seq<Bucket> {
    if trace == [] then []
    else
      var e := trace[|trace| - 1];
      AfterRequest(limits, Run(limits, trace[..|trace| - 1]), e.SourceKey(), e.now)
  }

  // When a key was asked for since its bucket was last made
  ghost function Times(limits: Limits, trace: seq<Request>, key: Key): seq<Instant> {
    if trace == [] then []
    else
      var before, e := trace[..|trace| - 1], trace[|trace| - 1];
      var table := Run(limits, before);
      if e.SourceKey() == key then
        (if PositionOf(table, key) < |table| then Times(limits, before, key) else []) + [e.now]
      else if PositionOf(Run(limits, trace), key) < |Run(limits, trace)| then Times(limits, before, key)
      else []
  }

  ghost predicate InOrder(trace: seq<Request>) {
    forall i, j :: 0 <= i < j < |trace| ==> trace[i].now <= trace[j].now
  }

  ghost predicate Tracks(limits: Limits, trace: seq<Request>, bucket: Bucket) {
    var times := Times(limits, trace, bucket.key);
    times != [] && ClockForward(times) && trace != [] && times[|times| - 1] <= trace[|trace| - 1].now
    && bucket == LifeOf(limits, bucket.key, times)
  }

  lemma KeyFound(table: seq<Bucket>, i: nat)
    requires DistinctKeys(table) && i < |table|
    ensures PositionOf(table, table[i].key) == i
  {}

  lemma StepElsewhere(limits: Limits, trace: seq<Request>, i: nat)
    requires trace != [] && InOrder(trace)
    requires var table, table' := Run(limits, trace[..|trace| - 1]), Run(limits, trace);
      DistinctKeys(table') && i < |table'| && i < |table| && table'[i] == table[i]
      && table[i].key != trace[|trace| - 1].SourceKey()
      && Tracks(limits, trace[..|trace| - 1], table[i])
    ensures Tracks(limits, trace, Run(limits, trace)[i])
  {
    hide Run, LifeOf, AfterRequest;
    KeyFound(Run(limits, trace), i);
    var before := trace[..|trace| - 1];
    assert before[|before| - 1] == trace[|trace| - 2];
  }

  lemma KeyKept(limits: Limits, bucket: Bucket, now: Instant)
    ensures Spent(Refilled(limits, bucket, now)).key == bucket.key
  {}

  lemma LifeGrows(limits: Limits, key: Key, times: seq<Instant>, now: Instant)
    ensures var found := if times == [] then Bucket(key, limits.burst, now, now) else LifeOf(limits, key, times);
      LifeOf(limits, key, times + [now]) == Spent(Refilled(limits, found, now))
  {
    assert (times + [now])[..|times + [now]| - 1] == times;
  }

  lemma ClockExtends(times: seq<Instant>, now: Instant)
    requires ClockForward(times) && (times != [] ==> times[|times| - 1] <= now)
    ensures ClockForward(times + [now])
  {}

  lemma StepHere(limits: Limits, trace: seq<Request>)
    requires trace != [] && InOrder(trace)
    requires var table := Run(limits, trace[..|trace| - 1]);
      DistinctKeys(table) && forall i :: 0 <= i < |table| ==> Tracks(limits, trace[..|trace| - 1], table[i])
    ensures var at := Place(Run(limits, trace[..|trace| - 1]), trace[|trace| - 1].SourceKey());
      at < |Run(limits, trace)| && Tracks(limits, trace, Run(limits, trace)[at])
  {
    hide Refilled, Spent, LifeOf, ClockForward, DistinctKeys, InOrder;
    var before, e := trace[..|trace| - 1], trace[|trace| - 1];
    var key, table := e.SourceKey(), Run(limits, before);
    var at := PositionOf(table, key);
    var earlier := if at < |table| then Times(limits, before, key) else [];
    KeyKept(limits, FoundAt(limits, table, key, e.now), e.now);
    if at < |table| {
      assert Tracks(limits, before, table[at]);
      LastInOrder(trace);
    } else {
      NoTimes();
    }
    ClockExtends(earlier, e.now);
    LifeGrows(limits, key, earlier, e.now);
    assert Times(limits, trace, key) == earlier + [e.now];
  }

  lemma NoTimes()
    ensures ClockForward([])
  {}

  lemma LastInOrder(trace: seq<Request>)
    requires InOrder(trace) && |trace| > 1
    ensures trace[..|trace| - 1][|trace| - 2].now <= trace[|trace| - 1].now
  {}

  lemma OtherKey(table: seq<Bucket>, i: nat, j: nat)
    requires DistinctKeys(table) && i < |table| && j < |table| && i != j
    ensures table[i].key != table[j].key
  {}

  // In every run each bucket has lived exactly the requests for its key since it was made.
  lemma {:induction false} TableIsHistory(limits: Limits, trace: seq<Request>)
    requires InOrder(trace)
    ensures DistinctKeys(Run(limits, trace)) && |Run(limits, trace)| <= MAX_TRACKED_SOURCES
    ensures forall i :: 0 <= i < |Run(limits, trace)| ==> Tracks(limits, trace, Run(limits, trace)[i])
  {
    hide AfterRequest, Tracks, DistinctKeys, Place;
    if trace == [] {
      NoBuckets(limits);
    } else {
      var before, e := trace[..|trace| - 1], trace[|trace| - 1];
      TableIsHistory(limits, before);
      RequestKeepsTable(limits, Run(limits, before), e.SourceKey(), e.now);
      StepHere(limits, trace);
      forall i | 0 <= i < |Run(limits, trace)| ensures Tracks(limits, trace, Run(limits, trace)[i]) {
        if i != Place(Run(limits, before), e.SourceKey()) {
          OtherKey(Run(limits, trace), i, Place(Run(limits, before), e.SourceKey()));
          StepElsewhere(limits, trace, i);
        }
      }
    }
  }

  lemma NoBuckets(limits: Limits)
    ensures DistinctKeys(Run(limits, []))
  {}

  function ReplyTo(limits: Limits, table: seq<Bucket>, request: Request): Admission {
    Reply(limits, Refilled(limits, FoundAt(limits, table, request.SourceKey(), request.now), request.now))
  }

  // Whether each of the requests that Times lists was let in
  ghost function Answers(limits: Limits, trace: seq<Request>, key: Key): seq<bool> {
    if trace == [] then []
    else
      var before, e := trace[..|trace| - 1], trace[|trace| - 1];
      var table := Run(limits, before);
      if e.SourceKey() == key then
        (if PositionOf(table, key) < |table| then Answers(limits, before, key) else [])
        + [ReplyTo(limits, table, e).Allowed?]
      else if PositionOf(Run(limits, trace), key) < |Run(limits, trace)| then Answers(limits, before, key)
      else []
  }

  function AllowedFrom(answers: seq<bool>, from: nat): nat {
    if |answers| <= from then 0
    else AllowedFrom(answers[..|answers| - 1], from) + if answers[|answers| - 1] then 1 else 0
  }

  // The bucket a run's next request finds is the one its key's earlier requests left.
  lemma FoundIsReplayed(limits: Limits, before: seq<Request>, key: Key, now: Instant)
    requires InOrder(before)
    ensures var table := Run(limits, before);
      var earlier := if PositionOf(table, key) < |table| then Times(limits, before, key) else [];
      FoundAt(limits, table, key, now) == Found(limits, key, earlier + [now])
  {
    hide LifeOf, Run, Times;
    var table := Run(limits, before);
    TableIsHistory(limits, before);
    var at := PositionOf(table, key);
    if at < |table| {
      assert Tracks(limits, before, table[at]);
      var times := Times(limits, before, key);
      assert (times + [now])[..|times + [now]| - 1] == times;
    } else {
      FoundInTable(limits, table, key, now);
    }
  }

  lemma OneMoreAnswer(
      limits: Limits, key: Key, times: seq<Instant>, answers: seq<bool>, now: Instant, allowed: bool, from: nat)
    requires |answers| == |times| && AllowedFrom(answers, from) == Admitted(limits, key, times, from)
    requires allowed <==> Admits(limits, Found(limits, key, times + [now]), now)
    ensures AllowedFrom(answers + [allowed], from) == Admitted(limits, key, times + [now], from)
  {
    hide Admits, Found;
    assert (answers + [allowed])[..|answers|] == answers && (times + [now])[..|times|] == times;
  }

  // The requests a run let in are those its buckets' replay admits.
  lemma {:induction false} AnswersAreAdmissions(limits: Limits, trace: seq<Request>, key: Key, from: nat)
    requires InOrder(trace)
    ensures |Answers(limits, trace, key)| == |Times(limits, trace, key)|
    ensures AllowedFrom(Answers(limits, trace, key), from) == Admitted(limits, key, Times(limits, trace, key), from)
  {
    hide Run, Refilled, Found, FoundAt, LifeOf, Place, PositionOf;
    if trace != [] {
      var before, e := trace[..|trace| - 1], trace[|trace| - 1];
      AnswersAreAdmissions(limits, before, key, from);
      if e.SourceKey() == key {
        FoundIsReplayed(limits, before, key, e.now);
        var kept := PositionOf(Run(limits, before), key) < |Run(limits, before)|;
        var times := if kept then Times(limits, before, key) else [];
        var answers := if kept then Answers(limits, before, key) else [];
        OneMoreAnswer(limits, key, times, answers, e.now, ReplyTo(limits, Run(limits, before), e).Allowed?, from);
      }
    }
  }

  // The two bounds, on the requests a run let in for a key that is in the table
  lemma RunBounded(limits: Limits, trace: seq<Request>, key: Key, from: nat)
    requires InOrder(trace) && PositionOf(Run(limits, trace), key) < |Run(limits, trace)|
    requires from < |Times(limits, trace, key)|
    ensures var times, answers := Times(limits, trace, key), Answers(limits, trace, key);
      var now := times[|times| - 1];
      && |answers| == |times|
      && AllowedFrom(answers, 0) <= limits.burst + (now - times[0]) / SECOND * limits.refillPerSecond
      && AllowedFrom(answers, from) <= limits.burst + ((now - times[from]) / SECOND + 1) * limits.refillPerSecond
  {
    hide AfterRequest, Admitted, LifeOf, Run, AllowedFrom, Times, Answers;
    TableIsHistory(limits, trace);
    var table := Run(limits, trace);
    assert Tracks(limits, trace, table[PositionOf(table, key)]);
    var times := Times(limits, trace, key);
    assert ClockForward(times);
    AdmissionsBounded(limits, key, times);
    WindowBounded(limits, key, times, from);
    AnswersAreAdmissions(limits, trace, key, 0);
    AnswersAreAdmissions(limits, trace, key, from);
  }

  // Requests for other keys leave a bucket alone or take its place.
  lemma {:induction false} OthersLeaveBucket(limits: Limits, trace: seq<Request>, others: seq<Request>, key: Key)
    requires InOrder(trace + others)
    requires forall i :: 0 <= i < |others| ==> others[i].SourceKey() != key
    ensures var before, after := Run(limits, trace), Run(limits, trace + others);
      var at := PositionOf(after, key);
      at < |after| ==> PositionOf(before, key) < |before| && after[at] == before[PositionOf(before, key)]
  {
    hide AfterRequest, LifeOf;
    if others == [] {
      assert trace + others == trace;
    } else {
      var front, e := others[..|others| - 1], others[|others| - 1];
      assert (trace + others)[..|trace + others| - 1] == trace + front;
      assert InOrder(trace + front);
      OthersLeaveBucket(limits, trace, front, key);
      TableIsHistory(limits, trace + front);
      var table, after := Run(limits, trace + front), Run(limits, trace + others);
      RequestKeepsTable(limits, table, e.SourceKey(), e.now);
      var at := PositionOf(after, key);
      if at < |after| {
        assert at != Place(table, e.SourceKey());
        assert after[at] == table[at];
        KeyFound(table, at);
      }
    }
  }

  // ---- what a refused source can count on

  // The source's bucket is empty, and was refilled no later than some time; or it has none.
  ghost predicate Waiting(limits: Limits, table: seq<Bucket>, key: Key, since: Instant) {
    var at := PositionOf(table, key);
    at < |table| ==> table[at].tokens == 0 && (limits.burst >= 1 ==> table[at].lastRefill <= since)
  }

  // A refusal leaves a bucket that was empty as it was, and the time it was refilled.
  lemma RefusalChangesNothing(limits: Limits, bucket: Bucket, now: Instant)
    requires bucket.tokens == 0 && Reply(limits, Refilled(limits, bucket, now)).Limited?
    ensures var after := Spent(Refilled(limits, bucket, now));
      after.tokens == 0 && (limits.burst >= 1 ==> after.lastRefill == bucket.lastRefill)
  {}

  lemma RequestKeepsWaiting(limits: Limits, table: seq<Bucket>, e: Request, key: Key, since: Instant)
    requires DistinctKeys(table) && |table| <= MAX_TRACKED_SOURCES && Waiting(limits, table, key, since)
    requires e.SourceKey() == key ==> ReplyTo(limits, table, e).Limited?
    ensures Waiting(limits, AfterRequest(limits, table, e.SourceKey(), e.now), key, since)
  {
    hide Refilled, Spent, DistinctKeys, Place;
    var after, place := AfterRequest(limits, table, e.SourceKey(), e.now), Place(table, e.SourceKey());
    RequestKeepsTable(limits, table, e.SourceKey(), e.now);
    var found := FoundAt(limits, table, e.SourceKey(), e.now);
    if e.SourceKey() == key {
      KeyFound(after, place);
      FoundInTable(limits, table, key, e.now);
      if PositionOf(table, key) < |table| {
        RefusalChangesNothing(limits, found, e.now);
      } else {
        FreshBucket(limits, key, e.now);
        RefusalChangesNothing(limits, found, e.now);
      }
    } else {
      var at := PositionOf(after, key);
      if at < |after| {
        assert at != place;
        KeyFound(table, at);
      }
    }
  }

  lemma FoundInTable(limits: Limits, table: seq<Bucket>, key: Key, now: Instant)
    ensures var at := PositionOf(table, key);
      FoundAt(limits, table, key, now) == if at < |table| then table[at] else Bucket(key, limits.burst, now, now)
  {}

  // No request of the key in `later` was let in, as the run that starts with `trace` answers them.
  ghost predicate NoneAdmitted(limits: Limits, trace: seq<Request>, later: seq<Request>, key: Key) {
    forall i :: 0 <= i < |later| && later[i].SourceKey() == key ==>
      ReplyTo(limits, Run(limits, trace + later[..i]), later[i]).Limited?
  }

  lemma FrontNotAdmitted(limits: Limits, trace: seq<Request>, later: seq<Request>, key: Key)
    requires later != [] && NoneAdmitted(limits, trace, later, key)
    ensures NoneAdmitted(limits, trace, later[..|later| - 1], key)
    ensures var front, e := later[..|later| - 1], later[|later| - 1];
      e.SourceKey() == key ==> ReplyTo(limits, Run(limits, trace + front), e).Limited?
  {
    hide ReplyTo, Run;
    var front := later[..|later| - 1];
    forall i | 0 <= i < |front| && front[i].SourceKey() == key
      ensures ReplyTo(limits, Run(limits, trace + front[..i]), front[i]).Limited?
    {
      assert front[..i] == later[..i] && front[i] == later[i];
    }
  }

  lemma {:induction false} WaitingKept(
    limits: Limits, trace: seq<Request>, later: seq<Request>, key: Key, since: Instant)
    requires InOrder(trace + later) && NoneAdmitted(limits, trace, later, key)
    requires Waiting(limits, Run(limits, trace), key, since)
    ensures Waiting(limits, Run(limits, trace + later), key, since)
  {
    hide Waiting, AfterRequest, ReplyTo, DistinctKeys, Tracks, NoneAdmitted, InOrder;
    if later == [] {
      assert trace + later == trace;
    } else {
      var front, e := later[..|later| - 1], later[|later| - 1];
      assert trace + later == (trace + front) + [e];
      assert (trace + later)[..|trace + later| - 1] == trace + front;
      PrefixInOrder(trace + front, e);
      FrontNotAdmitted(limits, trace, later, key);
      WaitingKept(limits, trace, front, key, since);
      TableIsHistory(limits, trace + front);
      RequestKeepsWaiting(limits, Run(limits, trace + front), e, key, since);
    }
  }

  lemma RefusedWaits(limits: Limits, trace: seq<Request>, refused: Request)
    requires InOrder(trace + [refused]) && ReplyTo(limits, Run(limits, trace), refused).Limited?
    ensures Waiting(limits, Run(limits, trace + [refused]), refused.SourceKey(), refused.now)
  {
    hide Refilled, FoundAt, Run;
    RefusedBucket(limits, trace, refused);
    RefillNotLater(limits, FoundAt(limits, Run(limits, trace), refused.SourceKey(), refused.now), refused.now);
  }

  lemma RefillNotLater(limits: Limits, bucket: Bucket, now: Instant)
    requires bucket.lastRefill <= now
    ensures Refilled(limits, bucket, now).lastRefill <= now
  {}

  // The time named waited out, the answer depends on the limits, and on whether the bucket was displaced.
  lemma WaitedOut(limits: Limits, table: seq<Bucket>, again: Request, since: Instant)
    requires Waiting(limits, table, again.SourceKey(), since) && again.now >= since + RetryAfter(limits)
    ensures var displaced := PositionOf(table, again.SourceKey()) == |table|;
      ReplyTo(limits, table, again).Allowed? <==> limits.burst >= 1 && (limits.refillPerSecond >= 1 || displaced)
  {
    hide Refilled, RetryAfter;
    var key := again.SourceKey();
    var at := PositionOf(table, key);
    FoundInTable(limits, table, key, again.now);
    if at < |table| {
      EmptyRefills(limits, table[at], again.now);
      RetryIsASecond(limits);
    } else {
      FreshBucket(limits, key, again.now);
    }
  }

  lemma RetryIsASecond(limits: Limits)
    ensures RetryAfter(limits) == SECOND
  {}

  lemma EmptyRefills(limits: Limits, bucket: Bucket, now: Instant)
    requires bucket.tokens == 0
    ensures limits.burst == 0 || limits.refillPerSecond == 0 ==> Refilled(limits, bucket, now).tokens == 0
    ensures limits.burst >= 1 && limits.refillPerSecond >= 1 && now >= bucket.lastRefill + SECOND ==>
      Refilled(limits, bucket, now).tokens > 0
  {
    var seconds := SinceSaturating(now, bucket.lastRefill) / SECOND;
    if limits.refillPerSecond == 0 {
      assert Earned(limits, bucket, now) == 0;
    } else if seconds >= 1 {
      MulOrder(1, seconds, limits.refillPerSecond);
    }
  }

  // Once refused, a source that waits the time it was told is let in, whatever others did meanwhile and however
  // often it was itself refused: that is so for limits that let anything in, and for no others unless the bucket
  // was displaced.
  lemma RetryHonoured(limits: Limits, trace: seq<Request>, between: seq<Request>, refused: Request, again: Request)
    requires InOrder(trace + [refused] + between)
    requires refused.SourceKey() == again.SourceKey()
    requires ReplyTo(limits, Run(limits, trace), refused).Limited?
    requires NoneAdmitted(limits, trace + [refused], between, again.SourceKey())
    requires again.now >= refused.now + RetryAfter(limits)
    ensures var table := Run(limits, trace + [refused] + between);
      var displaced := PositionOf(table, again.SourceKey()) == |table|;
      ReplyTo(limits, table, again).Allowed? <==> limits.burst >= 1 && (limits.refillPerSecond >= 1 || displaced)
  {
    hide Waiting, Run, ReplyTo, NoneAdmitted, RetryAfter;
    var upTo := trace + [refused];
    assert InOrder(upTo) by {
      FrontInOrder(upTo, between);
    }
    RefusedWaits(limits, trace, refused);
    WaitingKept(limits, upTo, between, again.SourceKey(), refused.now);
    WaitedOut(limits, Run(limits, upTo + between), again, refused.now);
  }

  lemma FrontInOrder(front: seq<Request>, back: seq<Request>)
    requires InOrder(front + back)
    ensures InOrder(front)
  {
    forall i, j | 0 <= i < j < |front| ensures front[i].now <= front[j].now {
      assert (front + back)[i] == front[i] && (front + back)[j] == front[j];
    }
  }

  lemma FreshBucket(limits: Limits, key: Key, now: Instant)
    ensures Refilled(limits, Bucket(key, limits.burst, now, now), now).tokens == limits.burst
  {}

  lemma PrefixInOrder(trace: seq<Request>, last: Request)
    requires InOrder(trace + [last])
    ensures InOrder(trace) && (trace != [] ==> trace[|trace| - 1].now <= last.now)
  {
    forall i, j | 0 <= i < j < |trace| ensures trace[i].now <= trace[j].now {
      assert (trace + [last])[i] == trace[i] && (trace + [last])[j] == trace[j];
    }
    if trace != [] {
      assert (trace + [last])[|trace| - 1].now <= (trace + [last])[|trace|].now;
    }
  }

  // The bucket a request finds after a run was refilled no later, and holds no more than the burst.
  lemma FoundWithinBurst(limits: Limits, trace: seq<Request>, key: Key, now: Instant)
    requires InOrder(trace) && (trace != [] ==> trace[|trace| - 1].now <= now)
    ensures var found := FoundAt(limits, Run(limits, trace), key, now);
      found.lastRefill <= now && found.tokens <= limits.burst
  {
    hide LifeOf, Run, Times;
    var table := Run(limits, trace);
    TableIsHistory(limits, trace);
    if PositionOf(table, key) < |table| {
      assert Tracks(limits, trace, table[PositionOf(table, key)]);
      TokensConserved(limits, key, Times(limits, trace, key));
    }
  }

  lemma RefusedBucket(limits: Limits, trace: seq<Request>, refused: Request)
    requires InOrder(trace + [refused])
    ensures var found := FoundAt(limits, Run(limits, trace), refused.SourceKey(), refused.now);
      var table := Run(limits, trace + [refused]);
      var at := PositionOf(table, refused.SourceKey());
      found.lastRefill <= refused.now && found.tokens <= limits.burst
      && at < |table| && table[at] == Spent(Refilled(limits, found, refused.now))
  {
    hide Refilled, Spent, Tracks, FoundAt, Place;
    var key, table := refused.SourceKey(), Run(limits, trace);
    PrefixInOrder(trace, refused);
    FoundWithinBurst(limits, trace, key, refused.now);
    assert (trace + [refused])[..|trace|] == trace;
    TableIsHistory(limits, trace);
    TableIsHistory(limits, trace + [refused]);
    RequestKeepsTable(limits, table, key, refused.now);
    KeyFound(Run(limits, trace + [refused]), Place(table, key));
  }

  // ---- what idle seconds earn

  function RequestsFor(trace: seq<Request>, key: Key): nat {
    if trace == [] then 0
    else RequestsFor(trace[..|trace| - 1], key) + if trace[|trace| - 1].SourceKey() == key then 1 else 0
  }

  // After so many of its requests the source's bucket still holds what is left of an amount; before the first of them
  // it was refilled no later than some time. Or it has none.
  ghost predicate Stocked(limits: Limits, table: seq<Bucket>, key: Key, since: Instant, amount: nat, taken: nat) {
    var at := PositionOf(table, key);
    at < |table| ==>
      table[at].tokens <= limits.burst
      && ((taken == 0 && table[at].lastRefill <= since) || table[at].tokens + taken >= amount)
  }

  lemma EarnedInSeconds(limits: Limits, bucket: Bucket, now: Instant, since: Instant, seconds: nat)
    requires bucket.tokens <= limits.burst && bucket.lastRefill <= since && now >= since + seconds * SECOND
    ensures Refilled(limits, bucket, now).tokens
      >= if seconds * limits.refillPerSecond < limits.burst then seconds * limits.refillPerSecond else limits.burst
  {
    hide Refilled;
    RefillIsExact(limits, bucket, now);
    var whole := (now - bucket.lastRefill) / SECOND;
    WholeSeconds(now - bucket.lastRefill, seconds);
    MulOrder(seconds, whole, limits.refillPerSecond);
  }

  lemma WholeSeconds(time: nat, seconds: nat)
    requires time >= seconds * SECOND
    ensures time / SECOND >= seconds
  {}

  // One more request of the source finds a token; one of another source takes none.
  lemma RequestKeepsStock(limits: Limits, table: seq<Bucket>, e: Request, key: Key, since: Instant, seconds: nat,
                          amount: nat, taken: nat)
    requires DistinctKeys(table) && |table| <= MAX_TRACKED_SOURCES && Stocked(limits, table, key, since, amount, taken)
    requires amount <= limits.burst && amount <= seconds * limits.refillPerSecond
    requires e.SourceKey() == key ==> taken < amount && e.now >= since + seconds * SECOND
    ensures e.SourceKey() == key ==> ReplyTo(limits, table, e).Allowed?
    ensures Stocked(limits, AfterRequest(limits, table, e.SourceKey(), e.now), key, since, amount,
                    taken + if e.SourceKey() == key then 1 else 0)
  {
    hide Refilled, DistinctKeys, Place;
    var after, place := AfterRequest(limits, table, e.SourceKey(), e.now), Place(table, e.SourceKey());
    RequestKeepsTable(limits, table, e.SourceKey(), e.now);
    var found := FoundAt(limits, table, e.SourceKey(), e.now);
    if e.SourceKey() == key {
      KeyFound(after, place);
      FoundInTable(limits, table, key, e.now);
      if PositionOf(table, key) < |table| {
        RefillOnlyAdds(limits, found, e.now);
        if found.lastRefill <= since {
          EarnedInSeconds(limits, found, e.now, since, seconds);
        }
        RefillIsExact(limits, found, e.now);
      } else {
        FreshBucket(limits, key, e.now);
      }
    } else {
      var at := PositionOf(after, key);
      if at < |after| {
        assert at != place;
        KeyFound(table, at);
      }
    }
  }

  // Every request of the key in `later` is let in, as the run that starts with `trace` answers them.
  ghost predicate AllAdmitted(limits: Limits, trace: seq<Request>, later: seq<Request>, key: Key) {
    forall i :: 0 <= i < |later| && later[i].SourceKey() == key ==>
      ReplyTo(limits, Run(limits, trace + later[..i]), later[i]).Allowed?
  }

  lemma OneMoreAdmitted(limits: Limits, trace: seq<Request>, front: seq<Request>, e: Request, key: Key)
    requires AllAdmitted(limits, trace, front, key)
    requires e.SourceKey() == key ==> ReplyTo(limits, Run(limits, trace + front), e).Allowed?
    ensures AllAdmitted(limits, trace, front + [e], key)
  {
    hide ReplyTo, Run;
    var later := front + [e];
    forall i | 0 <= i < |later| && later[i].SourceKey() == key
      ensures ReplyTo(limits, Run(limits, trace + later[..i]), later[i]).Allowed?
    {
      assert later[..i] == front[..i] && (i < |front| ==> later[i] == front[i]);
      assert front[..|front|] == front;
    }
  }

  lemma NoneToAdmit(limits: Limits, trace: seq<Request>, key: Key)
    ensures AllAdmitted(limits, trace, [], key) && RequestsFor([], key) == 0
  {}

  lemma OneMoreRequest(front: seq<Request>, e: Request, key: Key)
    ensures RequestsFor(front + [e], key) == RequestsFor(front, key) + if e.SourceKey() == key then 1 else 0
  {
    assert (front + [e])[..|front|] == front;
  }

  lemma {:induction false} StockKept(
    limits: Limits, trace: seq<Request>, later: seq<Request>, key: Key, since: Instant, seconds: nat, amount: nat)
    requires InOrder(trace + later) && Stocked(limits, Run(limits, trace), key, since, amount, 0)
    requires amount <= limits.burst && amount <= seconds * limits.refillPerSecond
    requires RequestsFor(later, key) <= amount
    requires forall i :: 0 <= i < |later| && later[i].SourceKey() == key ==> later[i].now >= since + seconds * SECOND
    ensures Stocked(limits, Run(limits, trace + later), key, since, amount, RequestsFor(later, key))
    ensures AllAdmitted(limits, trace, later, key)
  {
    hide Stocked, AfterRequest, ReplyTo, DistinctKeys, Tracks, InOrder, AllAdmitted, RequestsFor, Run;
    if later == [] {
      assert trace + later == trace;
      NoneToAdmit(limits, trace, key);
    } else {
      var front, e := later[..|later| - 1], later[|later| - 1];
      assert later == front + [e] && trace + later == (trace + front) + [e];
      PrefixInOrder(trace + front, e);
      OneMoreRequest(front, e, key);
      StockKept(limits, trace, front, key, since, seconds, amount);
      TableIsHistory(limits, trace + front);
      RequestKeepsStock(limits, Run(limits, trace + front), e, key, since, seconds, amount, RequestsFor(front, key));
      OneMoreAdmitted(limits, trace, front, e, key);
      RunExtends(limits, trace + front, e);
    }
  }

  lemma RunExtends(limits: Limits, trace: seq<Request>, e: Request)
    ensures Run(limits, trace + [e]) == AfterRequest(limits, Run(limits, trace), e.SourceKey(), e.now)
  {
    assert (trace + [e])[..|trace|] == trace;
  }

  // The rate from below: after so many whole seconds without a refill, the next requests of a source are all let in, as
  // many as the burst and the rate for those seconds allow, whatever others do between them.
  lemma IdleSecondsEarn(
    limits: Limits, trace: seq<Request>, later: seq<Request>, key: Key, since: Instant, seconds: nat)
    requires InOrder(trace + later)
    requires var table := Run(limits, trace);
      PositionOf(table, key) < |table| ==> table[PositionOf(table, key)].lastRefill <= since
    requires forall i :: 0 <= i < |later| && later[i].SourceKey() == key ==>
      later[i].now >= since + seconds * 1_000_000_000
    requires RequestsFor(later, key) <= limits.burst && RequestsFor(later, key) <= seconds * limits.refillPerSecond
    ensures AllAdmitted(limits, trace, later, key)
  {
    hide Run, AllAdmitted;
    FrontInOrder(trace, later);
    WithinBurst(limits, trace, key);
    StockKept(limits, trace, later, key, since, seconds, RequestsFor(later, key));
  }

  lemma WithinBurst(limits: Limits, trace: seq<Request>, key: Key)
    requires InOrder(trace)
    ensures var table := Run(limits, trace);
      PositionOf(table, key) < |table| ==> table[PositionOf(table, key)].tokens <= limits.burst
  {
    hide Run;
    var table := Run(limits, trace);
    var now := if trace == [] then 0 else trace[|trace| - 1].now;
    FoundWithinBurst(limits, trace, key, now);
    FoundInTable(limits, table, key, now);
  }

  // A request in plain numbers: a bucket, full if it is new, is topped up for the whole seconds gone by and gives a
  // token.
  lemma RequestInNumbers(limits: Limits, table: seq<Bucket>, key: Key, now: Instant)
    ensures var at, place, after := PositionOf(table, key), Place(table, key), AfterRequest(limits, table, key, now);
      var was := if at < |table| then table[at] else Bucket(key, limits.burst, now, now);
      var seconds := if now < was.lastRefill then 0 else (now - was.lastRefill) / 1_000_000_000;
      var earned := seconds * limits.refillPerSecond;
      var tokens := if was.tokens + earned < limits.burst then was.tokens + earned else limits.burst;
      was.tokens <= limits.burst ==>
        place < |after|
        && after[place] == Bucket(key, if tokens == 0 then 0 else tokens - 1,
                                  if earned == 0 then was.lastRefill else now, now)
        && Reply(limits, Refilled(limits, FoundAt(limits, table, key, now), now))
          == if tokens == 0 then Limited(1_000_000_000) else Allowed(tokens - 1)
  {
    hide Refilled, Place, FoundAt;
    FoundInTable(limits, table, key, now);
    var found := FoundAt(limits, table, key, now);
    if found.tokens <= limits.burst {
      RefillIsExact(limits, found, now);
    }
    RetryIsASecond(limits);
  }

  // ---- the mutable table

  class RateLimiter {
    var buckets: seq<Bucket>
    const limits: Limits

    constructor (burst: U32, refillPerSecond: U32)
      ensures buckets == [] && limits == Limits(burst, refillPerSecond)
    {
      buckets := [];
      limits := Limits(burst, refillPerSecond);
    }

    method Admit(address: IpAddr, application: Guid, now: Instant) returns (admission: Admission)
      modifies this
      ensures var key := Key(Canonical(address), application);
        buckets == AfterRequest(limits, old(buckets), key, now)
        && admission == Reply(limits, Refilled(limits, FoundAt(limits, old(buckets), key, now), now))
      ensures var key := Key(Canonical(address), application);
        var at, place := PositionOf(old(buckets), key), Place(old(buckets), key);
        var was := if at < |old(buckets)| then old(buckets)[at] else Bucket(key, limits.burst, now, now);
        var seconds := if now < was.lastRefill then 0 else (now - was.lastRefill) / 1_000_000_000;
        var earned := seconds * limits.refillPerSecond;
        var tokens := if was.tokens + earned < limits.burst then was.tokens + earned else limits.burst;
        was.tokens <= limits.burst ==>
          place < |buckets|
          && buckets[place] == Bucket(key, if tokens == 0 then 0 else tokens - 1,
                                      if earned == 0 then was.lastRefill else now, now)
          && admission == if tokens == 0 then Limited(1_000_000_000) else Allowed(tokens - 1)
    {
      RequestInNumbers(limits, buckets, Key(Canonical(address), application), now);
      var key := Key(Canonical(address), application);
      var index := BucketFor(key, now);
      var bucket := buckets[index];
      var earned := Capped(SinceSaturating(now, bucket.lastRefill) / SECOND * limits.refillPerSecond);
      if earned > 0 {
        bucket := bucket.(tokens := MinOf(AsU32(Capped(bucket.tokens + earned)), limits.burst), lastRefill := now);
      }
      bucket := bucket.(lastSeen := now);
      if bucket.tokens == 0 {
        admission := Limited(RetryAfter(limits));
      } else {
        bucket := bucket.(tokens := bucket.tokens - 1);
        admission := Allowed(bucket.tokens);
      }
      buckets := buckets[index := bucket];
    }

    method BucketFor(key: Key, now: Instant) returns (index: nat)
      modifies this
      ensures index == Place(old(buckets), key) < |buckets|
      ensures buckets == Put(old(buckets), index, FoundAt(limits, old(buckets), key, now))
    {
      index := PositionOf(buckets, key);
      if index < |buckets| {
        return;
      }
      var full := Bucket(key, limits.burst, now, now);
      if |buckets| < MAX_TRACKED_SOURCES {
        buckets := buckets + [full];
        return;
      }
      index := Stalest(buckets);
      buckets := buckets[index := full];
    }
  }
}
