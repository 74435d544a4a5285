// Charging a host towards its activation threshold, one fresh machine at a time.
module Charging {
  import opened Prelude
  import opened Entropy

  const STALL_ROUNDS: nat := 3

  datatype Charged = Reached(count: U32, requests: U32) | Saturated(count: U32, threshold: U32)

  // What the host answers to each request in turn: a count, or why the exchange failed
  type Replies = seq<Result<U32, string>>

  // The highest count of the first `n` replies
  function Best(replies: Replies, n: nat): U32
    requires n <= |replies|
  {
    if n == 0 then 0
    else
      var before := Best(replies, n - 1);
      if replies[n - 1].Ok? && replies[n - 1].value > before then replies[n - 1].value else before
  }

  ghost predicate Rises(replies: Replies, i: nat)
    requires i < |replies|
  {
    replies[i].Ok? && replies[i].value > Best(replies, i)
  }

  // How many of the replies up to `n` came since the count last rose
  function Stalled(replies: Replies, n: nat): nat
    requires n <= |replies|
  {
    if n == 0 || (replies[n - 1].Ok? && replies[n - 1].value > Best(replies, n - 1)) then 0
    else 1 + Stalled(replies, n - 1)
  }

  ghost predicate Met(replies: Replies, threshold: U32, i: nat)
    requires i < |replies|
  {
    replies[i].Ok? && replies[i].value >= threshold
  }

  // Charging ends with reply `i`: it failed, it reached the threshold, or it was the third in a row that did not rise.
  ghost predicate Ends(replies: Replies, threshold: U32, i: nat)
    requires i < |replies|
  {
    replies[i].Err? || Met(replies, threshold, i)
    || (i >= 2 && !Rises(replies, i) && !Rises(replies, i - 1) && !Rises(replies, i - 2))
  }

  // What reply `i` ends it with
  function Verdict(replies: Replies, threshold: U32, i: U32): Result<Charged, string>
    requires i < |replies| && i < U32_MAX
  {
    if replies[i].Err? then Err(replies[i].error)
    else if replies[i].value >= threshold then Ok(Reached(replies[i].value, i + 1))
    else Ok(Saturated(Best(replies, i + 1), threshold))
  }

  // The first of `limit` replies that ends it, or the limit
  ghost function FirstEnd(replies: Replies, threshold: U32, limit: nat): (at: nat)
    requires limit <= |replies|
    ensures at <= limit && (at < limit ==> Ends(replies, threshold, at))
    ensures forall i :: 0 <= i < at ==> !Ends(replies, threshold, i)
  {
    if limit == 0 then 0
    else
      var at := FirstEnd(replies, threshold, limit - 1);
      if at < limit - 1 || Ends(replies, threshold, limit - 1) then at else limit
  }

  // What a charging run answers
  ghost function Outcome(replies: Replies, limit: U32, threshold: U32): Result<Charged, string>
    requires |replies| >= limit
  {
    var at := FirstEnd(replies, threshold, limit);
    if at < limit then Verdict(replies, threshold, at) else Ok(Saturated(Best(replies, limit), threshold))
  }

  lemma {:induction false} BestIsMaximum(replies: Replies, n: nat)
    requires n <= |replies| && forall i :: 0 <= i < n ==> replies[i].Ok?
    ensures forall i :: 0 <= i < n ==> replies[i].value <= Best(replies, n)
    ensures Best(replies, n) == 0 || exists i :: 0 <= i < n && replies[i].value == Best(replies, n)
  {
    if n > 0 {
      BestIsMaximum(replies, n - 1);
    }
  }

  // The first `n` replies are counts below the threshold.
  ghost predicate Below(replies: Replies, threshold: U32, n: nat)
    requires n <= |replies|
  {
    forall i :: 0 <= i < n ==> replies[i].Ok? && replies[i].value < threshold
  }

  // The reply after the first `n` is no more than some count before it.
  ghost predicate NotAbove(replies: Replies, n: nat) {
    n < |replies| && replies[n].Ok?
    && (replies[n].value == 0 || exists i :: 0 <= i < n && replies[i].Ok? && replies[n].value <= replies[i].value)
  }

  // The last three of the first `n` replies did not rise.
  ghost predicate Stalls(replies: Replies, n: nat) {
    n >= 3 && NotAbove(replies, n - 1) && NotAbove(replies, n - 2) && NotAbove(replies, n - 3)
  }

  // Each answer in terms of the replies: the first failure, or the first count that reaches the threshold and how many
  // requests it took, or the highest of all counts below it, at the limit or after the first three that did not rise.
  lemma OutcomeMeans(replies: Replies, limit: U32, threshold: U32) returns (n: nat)
    requires |replies| >= limit
    ensures n <= limit && Below(replies, threshold, n)
    ensures match Outcome(replies, limit, threshold)
      case Err(error) => n < limit && replies[n] == Err(error)
      case Ok(Reached(count, requests)) =>
        n < limit && replies[n] == Ok(count) && count >= threshold && requests == n + 1
      case Ok(Saturated(count, t)) =>
        && t == threshold && (forall i :: 0 <= i < n ==> replies[i].value <= count)
        && (count == 0 || exists i :: 0 <= i < n && replies[i].value == count)
        && (n == limit || Stalls(replies, n))
    ensures forall m :: 0 <= m < n ==> !Stalls(replies, m)
    ensures !(Outcome(replies, limit, threshold).Ok? && Outcome(replies, limit, threshold).value.Saturated?) ==>
      !Stalls(replies, n)
  {
    var at := FirstEnd(replies, threshold, limit);
    n := at;
    assert Below(replies, threshold, n) by {
      forall i | 0 <= i < n ensures replies[i].Ok? && replies[i].value < threshold {
        assert !Ends(replies, threshold, i);
      }
    }
    if at < limit && replies[at].Ok? && replies[at].value < threshold {
      n := at + 1;
      NotRising(replies, at);
      NotRising(replies, at - 1);
      NotRising(replies, at - 2);
    }
    BestIsMaximum(replies, n);
    forall m | 0 <= m <= n && (m < n || n == at) ensures !Stalls(replies, m) {
      if m >= 3 {
        assert !Ends(replies, threshold, m - 1);
        Rising(replies, m - 1);
        Rising(replies, m - 2);
        Rising(replies, m - 3);
      }
    }
  }

  lemma Rising(replies: Replies, n: nat)
    requires n < |replies| && forall i :: 0 <= i <= n ==> replies[i].Ok?
    ensures Rises(replies, n) ==> !NotAbove(replies, n)
  {
    BestIsMaximum(replies, n);
  }

  lemma NotRising(replies: Replies, n: nat)
    requires n < |replies| && !Rises(replies, n) && forall i :: 0 <= i <= n ==> replies[i].Ok?
    ensures NotAbove(replies, n)
  {
    BestIsMaximum(replies, n);
  }

  method Run(replies: Replies, limit: U32, threshold: U32) returns (r: Result<Charged, string>)
    requires |replies| >= limit
    ensures r == Outcome(replies, limit, threshold)
  {
    var best: U32, stalled := 0, 0;
    for i := 0 to limit
      invariant best == Best(replies, i) && stalled == Stalled(replies, i) < STALL_ROUNDS
      invariant FirstEnd(replies, threshold, limit) >= i
    {
      StalledIsRun(replies, i + 1);
      if replies[i].Err? {
        assert Ends(replies, threshold, i);
        return Err(replies[i].error);
      }
      var count := replies[i].value;
      if count >= threshold {
        assert Ends(replies, threshold, i);
        return Ok(Reached(count, i + 1));
      }
      if count > best {
        best, stalled := count, 0;
      } else {
        stalled := stalled + 1;
        if stalled >= STALL_ROUNDS {
          assert Ends(replies, threshold, i);
          return Ok(Saturated(best, threshold));
        }
      }
    }
    r := Ok(Saturated(best, threshold));
  }

  lemma StalledIsRun(replies: Replies, n: nat)
    requires n <= |replies|
    ensures Stalled(replies, n) >= STALL_ROUNDS <==>
      (n >= 3 && !Rises(replies, n - 1) && !Rises(replies, n - 2) && !Rises(replies, n - 3))
  {
    if n >= 1 && !Rises(replies, n - 1) {
      assert Stalled(replies, n) == 1 + Stalled(replies, n - 1);
      if n >= 2 && !Rises(replies, n - 2) {
        assert Stalled(replies, n - 1) == 1 + Stalled(replies, n - 2);
      }
    }
  }

  // Below the threshold the count can rise only so often, so charging ends within three requests for each
  // client the threshold asks for, whatever the limit and whatever the host answers.
  lemma EndsWithin(replies: Replies, threshold: U32)
    requires |replies| >= 3 * threshold && threshold > 0
    ensures exists i :: 0 <= i < 3 * threshold && Ends(replies, threshold, i)
  {
    if forall i :: 0 <= i < 3 * threshold ==> !Ends(replies, threshold, i) {
      RoundsPerRise(replies, threshold, 3 * threshold);
    }
  }

  lemma {:induction false} RoundsPerRise(replies: Replies, threshold: U32, n: nat)
    requires n <= |replies| && threshold > 0 && forall i :: 0 <= i < n ==> !Ends(replies, threshold, i)
    ensures Best(replies, n) < threshold && Stalled(replies, n) < STALL_ROUNDS
    ensures n <= 3 * Best(replies, n) + Stalled(replies, n)
  {
    if n > 0 {
      RoundsPerRise(replies, threshold, n - 1);
      StalledIsRun(replies, n);
      assert !Ends(replies, threshold, n - 1);
    }
  }
}
