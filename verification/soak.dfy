// The soak run: workers that share a counter of requests left, the plans, and the report.
module Soak {
  import opened Prelude
  import Sorting

  datatype Exchange = Exchange(count: nat, epid: string)

  // What the workers share. Each is behind an atomic or a lock of its own.
  datatype Shared = Shared(
    remaining: nat, plans: seq<Guid>, completed: nat, failed: nat, firstFailure: Option<string>, highestCount: nat,
    epids: set<string>)
  {
    function Completed(count: nat): Shared {
      this.(completed := Capped(completed + 1), highestCount := if count > highestCount then count else highestCount)
    }

    function Failed(error: string): Shared {
      this.(failed := Capped(failed + 1), firstFailure := if firstFailure.None? then Some(error) else firstFailure)
    }
  }

  // Where a worker is in its loop, and whether it holds a session
  datatype Phase = Ready | Claimed | Holding(plan: Guid) | Opened(plan: Guid) | Reporting(epid: string) | Finished

  datatype Worker = Worker(phase: Phase, session: bool)

  datatype State = State(shared: Shared, workers: seq<Worker>)

  // One worker's next action; what the network does is part of the step.
  datatype Step =
    | Claim(w: nat)
    | Leave(w: nat)
    | Take(w: nat)
    | TakeNothing(w: nat)
    | Connect(w: nat, refused: Option<string>)
    | Activate(w: nat, outcome: Result<Exchange, string>)
    | MissSession(w: nat)
    | RecordEpid(w: nat)

  datatype Plan = Plan(requests: nat, concurrency: nat, reconnect: bool, plans: seq<Guid>)

  // The plans are drawn up front, one for each request.
  ghost predicate Drawn(plan: Plan) {
    |plan.plans| == plan.requests <= U64_MAX
  }

  function Start(plan: Plan): State {
    var size := if plan.concurrency > 1 then plan.concurrency else 1;
    State(Shared(plan.requests, plan.plans, 0, 0, None, 0, {}), seq(size, _ => Worker(Ready, false)))
  }

  // Whether a worker that comes to its session finds one
  predicate KeepsSession(reconnect: bool, worker: Worker) { worker.session && !reconnect }

  predicate Enabled(reconnect: bool, s: State, step: Step) {
    step.w < |s.workers| &&
    var worker := s.workers[step.w];
    match step
    case Claim(_) => worker.phase.Ready? && s.shared.remaining > 0
    case Leave(_) => worker.phase.Ready? && s.shared.remaining == 0
    case Take(_) => worker.phase.Claimed? && s.shared.plans != []
    case TakeNothing(_) => worker.phase.Claimed? && s.shared.plans == []
    case Connect(_, refused) => worker.phase.Holding? && (KeepsSession(reconnect, worker) ==> refused.None?)
    case Activate(_, _) => worker.phase.Opened? && worker.session
    case MissSession(_) => worker.phase.Opened? && !worker.session
    case RecordEpid(_) => worker.phase.Reporting?
  }

  function SharedAfter(reconnect: bool, s: State, step: Step): Shared
    requires Enabled(reconnect, s, step)
  {
    var shared := s.shared;
    match step
    case Claim(_) => shared.(remaining := shared.remaining - 1)
    case Leave(_) => shared
    case Take(_) => shared.(plans := shared.plans[1..])
    case TakeNothing(_) => shared
    case Connect(_, refused) => if refused.Some? then shared.Failed(refused.value) else shared
    case Activate(_, outcome) =>
      if outcome.Ok? then shared.Completed(outcome.value.count) else shared.Failed(outcome.error)
    case MissSession(_) => shared
    case RecordEpid(w) => shared.(epids := shared.epids + {s.workers[w].phase.epid})
  }

  function WorkerAfter(reconnect: bool, s: State, step: Step): Worker
    requires Enabled(reconnect, s, step)
  {
    var worker := s.workers[step.w];
    match step
    case Claim(_) => worker.(phase := Claimed)
    case Leave(_) => worker.(phase := Finished)
    case Take(_) => worker.(phase := Holding(s.shared.plans[0]))
    case TakeNothing(_) => worker.(phase := Finished)
    case Connect(_, refused) => if refused.Some? then Worker(Ready, false) else Worker(Opened(worker.phase.plan), true)
    case Activate(_, outcome) =>
      if outcome.Ok? then worker.(phase := Reporting(outcome.value.epid)) else Worker(Ready, false)
    case MissSession(_) => worker.(phase := Ready)
    case RecordEpid(_) => worker.(phase := Ready)
  }

  function After(reconnect: bool, s: State, step: Step): State
    requires Enabled(reconnect, s, step)
  {
    State(SharedAfter(reconnect, s, step), s.workers[step.w := WorkerAfter(reconnect, s, step)])
  }

  // ---- runs

  // A trace is a run when each step is enabled where it is taken.
  ghost predicate IsRun(plan: Plan, trace: seq<Step>)
    decreases |trace|, 0
  {
    trace == [] ||
    var before, step := trace[..|trace| - 1], trace[|trace| - 1];
    IsRun(plan, before) && Enabled(plan.reconnect, Reached(plan, before), step)
  }

  ghost function Reached(plan: Plan, trace: seq<Step>): State
    requires IsRun(plan, trace)
    decreases |trace|, 1
  {
    if trace == [] then Start(plan) else After(plan.reconnect, Reached(plan, trace[..|trace| - 1]), trace[|trace| - 1])
  }

  // What happened in a trace, from its steps alone

  function NewSuccess(step: Step): seq<Exchange> {
    if step.Activate? && step.outcome.Ok? then [step.outcome.value] else []
  }

  function NewFailure(step: Step): seq<string> {
    if step.Activate? && step.outcome.Err? then [step.outcome.error]
    else if step.Connect? && step.refused.Some? then [step.refused.value]
    else []
  }

  function Successes(trace: seq<Step>): seq<Exchange> {
    if trace == [] then [] else Successes(trace[..|trace| - 1]) + NewSuccess(trace[|trace| - 1])
  }

  function Failures(trace: seq<Step>): seq<string> {
    if trace == [] then [] else Failures(trace[..|trace| - 1]) + NewFailure(trace[|trace| - 1])
  }

  ghost function Taken(plan: Plan, trace: seq<Step>): seq<Guid>
    requires IsRun(plan, trace)
  {
    if trace == [] then []
    else
      var before, step := trace[..|trace| - 1], trace[|trace| - 1];
      Taken(plan, before) + if step.Take? then [Reached(plan, before).shared.plans[0]] else []
  }

  function Highest(successes: seq<Exchange>): nat {
    if successes == [] then 0
    else
      var count, before := successes[|successes| - 1].count, Highest(successes[..|successes| - 1]);
      if count > before then count else before
  }

  lemma {:induction false} HighestIsMaximum(successes: seq<Exchange>) returns (at: nat)
    ensures forall i :: 0 <= i < |successes| ==> successes[i].count <= Highest(successes)
    ensures if successes == [] then Highest(successes) == 0
            else at < |successes| && successes[at].count == Highest(successes)
  {
    at := 0;
    if successes != [] {
      at := HighestIsMaximum(successes[..|successes| - 1]);
      if at >= |successes| - 1 || successes[|successes| - 1].count > successes[at].count {
        at := |successes| - 1;
      }
    }
  }

  ghost function EPids(successes: seq<Exchange>): set<string> {
    set i | 0 <= i < |successes| :: successes[i].epid
  }

  // ---- the balance every interleaving keeps

  function HoldsClaim(worker: Worker): int { if worker.phase.Claimed? then 1 else 0 }

  function InFlight(worker: Worker): int {
    if worker.phase.Claimed? || worker.phase.Holding? || worker.phase.Opened? then 1 else 0
  }

  ghost predicate Unreported(workers: seq<Worker>, epid: string) {
    exists w :: 0 <= w < |workers| && workers[w].phase == Reporting(epid)
  }

  // Plans left cover the requests left and the claims not yet honoured; every request is left, in flight, or counted.
  ghost predicate Balanced(requests: nat, s: State) {
    && |s.shared.plans| == s.shared.remaining + Sorting.Total(s.workers, HoldsClaim)
    && requests == s.shared.remaining + Sorting.Total(s.workers, InFlight) + s.shared.completed + s.shared.failed
    && (forall w :: 0 <= w < |s.workers| && s.workers[w].phase.Opened? ==> s.workers[w].session)
  }

  ghost predicate EPidsKept(s: State, seen: set<string>) {
    forall epid :: epid in seen <==> epid in s.shared.epids || Unreported(s.workers, epid)
  }

  lemma TotalsNonNegative(workers: seq<Worker>)
    ensures Sorting.Total(workers, HoldsClaim) >= 0 && Sorting.Total(workers, InFlight) >= 0
  {
    if workers != [] {
      Sorting.TotalAtLeast(workers, 0, HoldsClaim);
      Sorting.TotalAtLeast(workers, 0, InFlight);
    }
  }

  // The two branches that would lose a request are never enabled.
  lemma NothingLost(requests: nat, reconnect: bool, s: State, step: Step)
    requires Balanced(requests, s) && Enabled(reconnect, s, step)
    ensures !step.TakeNothing? && !step.MissSession?
  {
    if step.TakeNothing? {
      Sorting.TotalAtLeast(s.workers, step.w, HoldsClaim);
    }
  }

  lemma StepKeepsBalance(requests: nat, reconnect: bool, s: State, step: Step)
    requires requests <= U64_MAX && Balanced(requests, s) && Enabled(reconnect, s, step)
    ensures Balanced(requests, After(reconnect, s, step))
  {
    hide Sorting.Total;
    NothingLost(requests, reconnect, s, step);
    TotalsNonNegative(After(reconnect, s, step).workers);
    Sorting.TotalUpdate(s.workers, step.w, WorkerAfter(reconnect, s, step), HoldsClaim);
    Sorting.TotalUpdate(s.workers, step.w, WorkerAfter(reconnect, s, step), InFlight);
  }

  lemma StartIsBalanced(plan: Plan)
    requires Drawn(plan)
    ensures Balanced(plan.requests, Start(plan))
  {
    Sorting.TotalOfLike(Start(plan).workers, HoldsClaim, 0);
    Sorting.TotalOfLike(Start(plan).workers, InFlight, 0);
  }

  lemma {:induction false} RunIsBalanced(plan: Plan, trace: seq<Step>)
    requires Drawn(plan) && IsRun(plan, trace)
    ensures Balanced(plan.requests, Reached(plan, trace))
  {
    if trace == [] {
      StartIsBalanced(plan);
    } else {
      var before := trace[..|trace| - 1];
      RunIsBalanced(plan, before);
      StepKeepsBalance(plan.requests, plan.reconnect, Reached(plan, before), trace[|trace| - 1]);
    }
  }

  // ---- what the report says of the run

  lemma {:induction false} PlansTakenInOrder(plan: Plan, trace: seq<Step>)
    requires IsRun(plan, trace)
    ensures Taken(plan, trace) + Reached(plan, trace).shared.plans == plan.plans
  {
    if trace != [] {
      PlansTakenInOrder(plan, trace[..|trace| - 1]);
    }
  }

  // The report says what the successes and failures were.
  ghost predicate Reports(shared: Shared, successes: seq<Exchange>, failures: seq<string>) {
    && shared.completed == |successes| && shared.failed == |failures|
    && shared.highestCount == Highest(successes)
    && shared.firstFailure == if failures == [] then None else Some(failures[0])
  }

  lemma HighestExtends(successes: seq<Exchange>, next: Exchange)
    ensures Highest(successes + [next]) == if next.count > Highest(successes) then next.count else Highest(successes)
  {
    assert (successes + [next])[..|successes|] == successes;
  }

  lemma StepReports(reconnect: bool, s: State, step: Step, successes: seq<Exchange>, failures: seq<string>)
    requires Enabled(reconnect, s, step) && Reports(s.shared, successes, failures)
    requires |successes| < U64_MAX && |failures| < U64_MAX
    ensures Reports(SharedAfter(reconnect, s, step), successes + NewSuccess(step), failures + NewFailure(step))
  {
    hide Highest;
    if step.Activate? && step.outcome.Ok? {
      HighestExtends(successes, step.outcome.value);
    } else {
      assert successes + [] == successes;
    }
  }

  lemma StepChangesNothing(reconnect: bool, s: State, step: Step)
    requires Enabled(reconnect, s, step) && !step.Activate? && !step.Connect?
    ensures var shared := SharedAfter(reconnect, s, step);
      && shared.completed == s.shared.completed && shared.failed == s.shared.failed
      && shared.highestCount == s.shared.highestCount && shared.firstFailure == s.shared.firstFailure
    ensures NewSuccess(step) == [] && NewFailure(step) == []
  {}

  lemma {:induction false} ReportFollows(plan: Plan, trace: seq<Step>)
    requires Drawn(plan) && IsRun(plan, trace)
    ensures Reports(Reached(plan, trace).shared, Successes(trace), Failures(trace))
  {
    hide Sorting.Total, Balanced, Enabled, SharedAfter, WorkerAfter, Highest, NewSuccess, NewFailure;
    if trace != [] {
      var before, step := trace[..|trace| - 1], trace[|trace| - 1];
      ReportFollows(plan, before);
      NoneSaturates(plan, trace);
      if step.Activate? || step.Connect? {
        StepReports(plan.reconnect, Reached(plan, before), step, Successes(before), Failures(before));
      } else {
        StepChangesNothing(plan.reconnect, Reached(plan, before), step);
        assert Successes(before) + [] == Successes(before) && Failures(before) + [] == Failures(before);
      }
    } else {
      NothingReported(plan);
    }
  }

  lemma NothingReported(plan: Plan)
    ensures Reports(Start(plan).shared, [], [])
  {}

  // No counter is at the point where it would saturate when a step is to add to it.
  lemma NoneSaturates(plan: Plan, trace: seq<Step>)
    requires Drawn(plan) && IsRun(plan, trace) && trace != []
    ensures var before, step := Reached(plan, trace[..|trace| - 1]).shared, trace[|trace| - 1];
      step.Activate? || step.Connect? ==> before.completed < U64_MAX && before.failed < U64_MAX
  {
    var before, step := trace[..|trace| - 1], trace[|trace| - 1];
    RunIsBalanced(plan, before);
    if step.Activate? || step.Connect? {
      Sorting.TotalAtLeast(Reached(plan, before).workers, step.w, InFlight);
    }
  }

  lemma StepKeepsEPids(reconnect: bool, s: State, step: Step, seen: set<string>)
    requires EPidsKept(s, seen) && Enabled(reconnect, s, step)
    ensures var now := if step.Activate? && step.outcome.Ok? then seen + {step.outcome.value.epid} else seen;
      EPidsKept(After(reconnect, s, step), now)
  {
    var after := After(reconnect, s, step);
    forall w | 0 <= w < |after.workers| && w != step.w ensures after.workers[w] == s.workers[w] {}
    forall epid | Unreported(after.workers, epid)
      ensures Unreported(s.workers, epid) || after.workers[step.w].phase == Reporting(epid)
    {
      if Unreported(after.workers, epid) {
        var w :| 0 <= w < |after.workers| && after.workers[w].phase == Reporting(epid);
        assert w != step.w ==> s.workers[w].phase == Reporting(epid);
      }
    }
    forall epid | Unreported(s.workers, epid)
      ensures Unreported(after.workers, epid) || (step.RecordEpid? && epid in after.shared.epids)
    {
      var w :| 0 <= w < |s.workers| && s.workers[w].phase == Reporting(epid);
      assert w != step.w ==> after.workers[w].phase == Reporting(epid);
    }
    if step.Activate? && step.outcome.Ok? {
      assert after.workers[step.w].phase == Reporting(step.outcome.value.epid);
    }
  }

  lemma {:induction false} EPidsFollow(plan: Plan, trace: seq<Step>)
    requires IsRun(plan, trace)
    ensures EPidsKept(Reached(plan, trace), EPids(Successes(trace)))
  {
    hide EPidsKept, Enabled, After;
    if trace == [] {
      NoneSeen(plan);
    } else {
      var before, step := trace[..|trace| - 1], trace[|trace| - 1];
      EPidsFollow(plan, before);
      StepKeepsEPids(plan.reconnect, Reached(plan, before), step, EPids(Successes(before)));
      if step.Activate? && step.outcome.Ok? {
        EPidsExtend(Successes(before), step.outcome.value);
      } else {
        assert Successes(trace) == Successes(before);
      }
    }
  }

  lemma NoneSeen(plan: Plan)
    ensures EPidsKept(Start(plan), EPids([]))
  {}

  lemma EPidsExtend(successes: seq<Exchange>, next: Exchange)
    ensures EPids(successes + [next]) == EPids(successes) + {next.epid}
  {
    var all := successes + [next];
    forall e | e in EPids(successes) ensures e in EPids(all) {
      var i :| 0 <= i < |successes| && successes[i].epid == e;
      assert all[i].epid == e;
    }
    assert all[|successes|] == next && forall i :: 0 <= i < |successes| ==> all[i] == successes[i];
  }

  // ---- every interleaving ends, and ends right

  function Rank(worker: Worker): int {
    match worker.phase
    case Finished => 0
    case Ready => 1
    case Reporting(_) => 2
    case Opened(_) => 3
    case Holding(_) => 4
    case Claimed => 5
  }

  function Measure(s: State): int {
    5 * s.shared.remaining + Sorting.Total(s.workers, Rank)
  }

  lemma StepShortens(reconnect: bool, s: State, step: Step)
    requires Enabled(reconnect, s, step)
    ensures Measure(After(reconnect, s, step)) < Measure(s)
  {
    hide Sorting.Total;
    Sorting.TotalUpdate(s.workers, step.w, WorkerAfter(reconnect, s, step), Rank);
  }

  lemma {:induction false} RunShortens(plan: Plan, trace: seq<Step>)
    requires IsRun(plan, trace)
    ensures |trace| + Measure(Reached(plan, trace)) <= Measure(Start(plan))
  {
    hide Enabled, After, Measure;
    if trace != [] {
      var before := trace[..|trace| - 1];
      RunShortens(plan, before);
      StepShortens(plan.reconnect, Reached(plan, before), trace[|trace| - 1]);
    }
  }

  // No run is longer than five steps for each request and one for each worker.
  lemma EveryRunEnds(plan: Plan, trace: seq<Step>)
    requires IsRun(plan, trace)
    ensures |trace| <= 5 * plan.requests + if plan.concurrency < 1 then 1 else plan.concurrency
  {
    RunShortens(plan, trace);
    Sorting.TotalOfLike(Start(plan).workers, Rank, 1);
    var workers := Reached(plan, trace).workers;
    if workers != [] {
      Sorting.TotalAtLeast(workers, 0, Rank);
    }
  }

  // Whether the last thing a worker tried of the network went well
  function WentWell(trace: seq<Step>, w: nat): bool {
    if trace == [] then false
    else
      var step := trace[|trace| - 1];
      if step.Connect? && step.w == w then step.refused.None?
      else if step.Activate? && step.w == w then step.outcome.Ok?
      else WentWell(trace[..|trace| - 1], w)
  }

  lemma {:induction false} SessionIsWentWell(plan: Plan, trace: seq<Step>, w: nat)
    requires IsRun(plan, trace) && w < |Reached(plan, trace).workers|
    ensures Reached(plan, trace).workers[w].session == WentWell(trace, w)
  {
    if trace != [] {
      var before := trace[..|trace| - 1];
      SessionIsWentWell(plan, before, w);
    }
  }

  // A worker about to connect can be refused just when it connects afresh: always when told to reconnect, and otherwise
  // unless its last exchange or connection went well.
  lemma RefusalPossible(plan: Plan, trace: seq<Step>, w: nat, error: string)
    requires IsRun(plan, trace) && w < |Reached(plan, trace).workers| && Reached(plan, trace).workers[w].phase.Holding?
    ensures Enabled(plan.reconnect, Reached(plan, trace), Connect(w, Some(error)))
      <==> plan.reconnect || !WentWell(trace, w)
  {
    SessionIsWentWell(plan, trace, w);
  }

  ghost predicate AllFinished(s: State) {
    forall w :: 0 <= w < |s.workers| ==> s.workers[w].phase.Finished?
  }

  // Until all have finished, some worker can move.
  lemma NoDeadlock(reconnect: bool, s: State)
    ensures AllFinished(s) || exists step :: Enabled(reconnect, s, step)
  {
    if !AllFinished(s) {
      var w :| 0 <= w < |s.workers| && !s.workers[w].phase.Finished?;
      var worker := s.workers[w];
      var step :=
        if worker.phase.Ready? then if s.shared.remaining > 0 then Claim(w) else Leave(w)
        else if worker.phase.Claimed? then if s.shared.plans != [] then Take(w) else TakeNothing(w)
        else if worker.phase.Holding? then Connect(w, None)
        else if worker.phase.Reporting? then RecordEpid(w)
        else if worker.session then Activate(w, Err(""))
        else MissSession(w);
      assert Enabled(reconnect, s, step);
    }
  }

  ghost predicate SomeFinished(s: State) {
    exists w :: 0 <= w < |s.workers| && s.workers[w].phase.Finished?
  }

  lemma {:induction false} FinishedMeansNoneLeft(plan: Plan, trace: seq<Step>)
    requires Drawn(plan) && IsRun(plan, trace)
    ensures SomeFinished(Reached(plan, trace)) ==> Reached(plan, trace).shared.remaining == 0
  {
    if trace != [] {
      var before, step := trace[..|trace| - 1], trace[|trace| - 1];
      FinishedMeansNoneLeft(plan, before);
      RunIsBalanced(plan, before);
      var s := Reached(plan, before);
      NothingLost(plan.requests, plan.reconnect, s, step);
      var after := After(plan.reconnect, s, step);
      if SomeFinished(after) && !step.Leave? {
        var w :| 0 <= w < |after.workers| && after.workers[w].phase.Finished?;
        assert s.workers[w].phase.Finished?;
      }
    }
  }

  // When all workers have finished, whatever the interleaving: each planned request was taken once and in order,
  // each is counted once, and the report is that of the exchanges made.
  lemma RunAccounts(plan: Plan, trace: seq<Step>)
    requires Drawn(plan) && IsRun(plan, trace) && AllFinished(Reached(plan, trace))
    ensures var shared := Reached(plan, trace).shared;
      && Taken(plan, trace) == plan.plans
      && shared.completed + shared.failed == plan.requests
      && shared.completed == |Successes(trace)| && shared.failed == |Failures(trace)|
      && shared.highestCount == Highest(Successes(trace))
      && shared.firstFailure == (if Failures(trace) == [] then None else Some(Failures(trace)[0]))
      && shared.epids == EPids(Successes(trace))
  {
    hide Enabled, After;
    var s := Reached(plan, trace);
    RunIsBalanced(plan, trace);
    ReportFollows(plan, trace);
    EPidsFollow(plan, trace);
    PlansTakenInOrder(plan, trace);
    WorkersKept(plan, trace);
    Sorting.TotalOfLike(s.workers, HoldsClaim, 0);
    Sorting.TotalOfLike(s.workers, InFlight, 0);
    assert s.workers[0].phase.Finished?;
    FinishedMeansNoneLeft(plan, trace);
    assert s.shared.epids == EPids(Successes(trace));
  }

  lemma {:induction false} WorkersKept(plan: Plan, trace: seq<Step>)
    requires IsRun(plan, trace)
    ensures |Reached(plan, trace).workers| == |Start(plan).workers| >= 1
  {
    if trace != [] {
      WorkersKept(plan, trace[..|trace| - 1]);
    }
  }

  // ---- the shared cells themselves; each method is one atomic update, or one section under a lock

  class Cells {
    var remaining: nat
    var plans: seq<Guid>
    var completed: nat
    var failed: nat
    var firstFailure: Option<string>
    var highestCount: nat
    var epids: set<string>

    function View(): Shared
      reads this
    {
      Shared(remaining, plans, completed, failed, firstFailure, highestCount, epids)
    }

    constructor (plan: Plan)
      ensures View() == Start(plan).shared
    {
      remaining, plans := plan.requests, plan.plans;
      completed, failed, firstFailure, highestCount, epids := 0, 0, None, 0, {};
    }

    method Claim() returns (claimed: bool)
      modifies this
      ensures claimed == (old(remaining) > 0)
      ensures View() == if claimed then old(View()).(remaining := old(remaining) - 1) else old(View())
    {
      claimed := remaining > 0;
      if claimed {
        remaining := remaining - 1;
      }
    }

    method NextPlan() returns (plan: Option<Guid>)
      modifies this
      ensures old(plans) == [] ==> plan == None && View() == old(View())
      ensures old(plans) != [] ==> plan == Some(old(plans)[0]) && View() == old(View()).(plans := old(plans)[1..])
    {
      if plans == [] {
        return None;
      }
      plan := Some(plans[0]);
      plans := plans[1..];
    }

    method RecordSuccess(exchange: Exchange)
      modifies this
      ensures View() == old(View()).Completed(exchange.count)
    {
      completed := Capped(completed + 1);
      if exchange.count > highestCount {
        highestCount := exchange.count;
      }
    }

    method RecordEpid(epid: string)
      modifies this
      ensures View() == old(View()).(epids := old(epids) + {epid})
    {
      epids := epids + {epid};
    }

    method RecordFailure(error: string)
      modifies this
      ensures View() == old(View()).Failed(error)
    {
      failed := Capped(failed + 1);
      if firstFailure.None? {
        firstFailure := Some(error);
      }
    }
  }

  // ---- a run on the cells

  datatype Report = Report(
    completed: nat, failed: nat, firstFailure: Option<string>, highestCount: nat, distinctEpids: nat)

  class Runner {
    const reconnect: bool
    const cells: Cells
    var workers: seq<Worker>

    function Now(): State
      reads this, cells
    {
      State(cells.View(), workers)
    }

    constructor (plan: Plan)
      ensures Now() == Start(plan) && reconnect == plan.reconnect && fresh(cells)
    {
      reconnect := plan.reconnect;
      cells := new Cells(plan);
      workers := Start(plan).workers;
    }

    // One worker's next action, on the cells it shares
    method Perform(step: Step)
      requires Enabled(reconnect, Now(), step)
      modifies this, cells
      ensures Now() == After(reconnect, old(Now()), step)
    {
      var worker := workers[step.w];
      match step {
        case Claim(_) =>
          var _ := cells.Claim();
          worker := worker.(phase := Claimed);
        case Leave(_) =>
          worker := worker.(phase := Finished);
        case Take(_) =>
          var plan := cells.NextPlan();
          worker := worker.(phase := Holding(plan.value));
        case TakeNothing(_) =>
          worker := worker.(phase := Finished);
        case Connect(_, refused) =>
          if refused.Some? {
            cells.RecordFailure(refused.value);
            worker := Worker(Ready, false);
          } else {
            worker := Worker(Opened(worker.phase.plan), true);
          }
        case Activate(_, outcome) =>
          if outcome.Ok? {
            cells.RecordSuccess(outcome.value);
            worker := worker.(phase := Reporting(outcome.value.epid));
          } else {
            cells.RecordFailure(outcome.error);
            worker := Worker(Ready, false);
          }
        case MissSession(_) =>
          worker := worker.(phase := Ready);
        case RecordEpid(_) =>
          cells.RecordEpid(worker.phase.epid);
          worker := worker.(phase := Ready);
      }
      workers := workers[step.w := worker];
    }
  }

  lemma {:induction false} PrefixIsRun(plan: Plan, trace: seq<Step>, n: nat)
    requires IsRun(plan, trace) && n <= |trace|
    ensures IsRun(plan, trace[..n])
    ensures n < |trace| ==> Enabled(plan.reconnect, Reached(plan, trace[..n]), trace[n])
    decreases |trace|
  {
    hide Enabled;
    if n < |trace| {
      PrefixIsRun(plan, trace[..|trace| - 1], n);
      assert trace[..|trace| - 1][..n] == trace[..n];
    } else {
      assert trace[..n] == trace;
    }
  }

  // A whole run in one of its interleavings, to the end. The report is that of the exchanges made.
  method Run(plan: Plan, trace: seq<Step>) returns (report: Report)
    requires Drawn(plan) && IsRun(plan, trace) && AllFinished(Reached(plan, trace))
    ensures report.completed + report.failed == plan.requests
    ensures report.completed == |Successes(trace)| && report.failed == |Failures(trace)|
    ensures report.highestCount == Highest(Successes(trace))
    ensures report.firstFailure == if Failures(trace) == [] then None else Some(Failures(trace)[0])
    ensures report.distinctEpids == |EPids(Successes(trace))|
  {
    hide Enabled, After, IsRun, Start;
    var runner := new Runner(plan);
    EmptyIsRun(plan);
    assert trace[..0] == [];
    for i := 0 to |trace|
      invariant IsRun(plan, trace[..i]) && runner.Now() == Reached(plan, trace[..i])
      invariant runner.reconnect == plan.reconnect && fresh(runner) && fresh(runner.cells)
    {
      PrefixIsRun(plan, trace, i);
      PrefixIsRun(plan, trace, i + 1);
      assert trace[..i + 1][..i] == trace[..i];
      runner.Perform(trace[i]);
    }
    assert trace[..|trace|] == trace;
    RunAccounts(plan, trace);
    var cells := runner.cells;
    report := Report(cells.completed, cells.failed, cells.firstFailure, cells.highestCount, |cells.epids|);
  }

  lemma EmptyIsRun(plan: Plan)
    ensures IsRun(plan, []) && Reached(plan, []) == Start(plan)
  {}
}
