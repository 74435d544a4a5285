// Sequences of stamped values, oldest first, from which the front expires.
module Window {
  import opened Prelude

  datatype Stamped<+T> = Stamped(value: T, at: Instant)

  predicate Live<T>(entry: Stamped<T>, now: Instant, lifetime: nat) {
    SinceSaturating(now, entry.at) < lifetime
  }

  // What is left when the front is popped up to the first live entry
  function ExpireFront<T>(entries: seq<Stamped<T>>, now: Instant, lifetime: nat): seq<Stamped<T>> {
    if entries == [] || Live(entries[0], now, lifetime) then entries else ExpireFront(entries[1..], now, lifetime)
  }

  function IfLive<T>(entry: Stamped<T>, now: Instant, lifetime: nat): seq<Stamped<T>> {
    if Live(entry, now, lifetime) then [entry] else []
  }

  function LiveOf<T>(s: seq<Stamped<T>>, now: Instant, lifetime: nat): seq<Stamped<T>> {
    if s == [] then [] else IfLive(s[0], now, lifetime) + LiveOf(s[1..], now, lifetime)
  }

  function Last<T>(s: seq<T>, n: nat): seq<T> {
    if |s| <= n then s else s[|s| - n..]
  }

  ghost predicate InTimeOrder<T>(s: seq<Stamped<T>>) {
    forall i, j :: 0 <= i < j < |s| ==> s[i].at <= s[j].at
  }

  // On entries in time order, expiry keeps exactly the live ones.
  lemma {:induction false} ExpiryKeepsLive<T>(s: seq<Stamped<T>>, now: Instant, lifetime: nat)
    requires InTimeOrder(s)
    ensures ExpireFront(s, now, lifetime) == LiveOf(s, now, lifetime)
    ensures |LiveOf(s, now, lifetime)| <= |s| && LiveOf(s, now, lifetime) == s[|s| - |LiveOf(s, now, lifetime)|..]
  {
    if s != [] {
      ExpiryKeepsLive(s[1..], now, lifetime);
      if Live(s[0], now, lifetime) {
        AllLive(s, now, lifetime);
      }
    }
  }

  lemma {:induction false} AllLive<T>(s: seq<Stamped<T>>, now: Instant, lifetime: nat)
    requires forall i :: 0 <= i < |s| ==> Live(s[i], now, lifetime)
    ensures LiveOf(s, now, lifetime) == s
  {
    if s != [] {
      AllLive(s[1..], now, lifetime);
    }
  }

  lemma Associates<T>(a: seq<Stamped<T>>, b: seq<Stamped<T>>, c: seq<Stamped<T>>)
    ensures (a + b) + c == a + (b + c)
  {}

  lemma {:induction false} LiveOfConcat<T>(a: seq<Stamped<T>>, b: seq<Stamped<T>>, now: Instant, lifetime: nat)
    ensures LiveOf(a + b, now, lifetime) == LiveOf(a, now, lifetime) + LiveOf(b, now, lifetime)
  {
    if a == [] {
      assert a + b == b;
    } else {
      LiveOfConcat(a[1..], b, now, lifetime);
      assert (a + b)[1..] == a[1..] + b;
      Associates(IfLive(a[0], now, lifetime), LiveOf(a[1..], now, lifetime), LiveOf(b, now, lifetime));
    }
  }

  lemma {:induction false} LongerLives<T>(s: seq<Stamped<T>>, before: Instant, now: Instant, lifetime: nat)
    requires before <= now
    ensures LiveOf(LiveOf(s, before, lifetime), now, lifetime) == LiveOf(s, now, lifetime)
  {
    if s != [] {
      LongerLives(s[1..], before, now, lifetime);
      LiveOfConcat(IfLive(s[0], before, lifetime), LiveOf(s[1..], before, lifetime), now, lifetime);
    }
  }

  lemma LastKeepsOrder<T>(s: seq<Stamped<T>>, n: nat)
    requires InTimeOrder(s)
    ensures InTimeOrder(Last(s, n))
  {}

  // Expiring a suffix leaves a suffix of what expiring the whole leaves.
  lemma LiveOfLast<T>(s: seq<Stamped<T>>, n: nat, now: Instant, lifetime: nat)
    requires InTimeOrder(s)
    ensures LiveOf(Last(s, n), now, lifetime) == Last(LiveOf(s, now, lifetime), n)
  {
    hide LiveOf, ExpireFront;
    var tail := Last(s, n);
    ExpiryKeepsLive(s, now, lifetime);
    ExpiryKeepsLive(tail, now, lifetime);
    var front := s[..|s| - |tail|];
    assert s == front + tail;
    LiveOfConcat(front, tail, now, lifetime);
    if |LiveOf(tail, now, lifetime)| < |tail| {
      NoneLive(front, tail, now, lifetime);
    }
  }

  lemma {:induction false} NoneLive<T>(front: seq<Stamped<T>>, tail: seq<Stamped<T>>, now: Instant, lifetime: nat)
    requires InTimeOrder(front + tail) && |LiveOf(tail, now, lifetime)| < |tail|
    ensures LiveOf(front, now, lifetime) == []
  {
    if front != [] {
      assert (front + tail)[1..] == front[1..] + tail;
      NoneLive(front[1..], tail, now, lifetime);
      if Live(front[0], now, lifetime) {
        forall i | 0 <= i < |tail| ensures Live(tail[i], now, lifetime) {
          assert (front + tail)[0] == front[0] && (front + tail)[|front| + i] == tail[i];
        }
        AllLive(tail, now, lifetime);
      }
    }
  }

  // What expiry takes from the front is as old as the lifetime or older, and the first entry left, if any, is younger.
  ghost predicate IsExpired<T>(before: seq<Stamped<T>>, after: seq<Stamped<T>>, now: Instant, lifetime: nat) {
    && |after| <= |before| && after == before[|before| - |after|..]
    && (forall i :: 0 <= i < |before| - |after| ==> before[i].at + lifetime <= now || lifetime == 0)
    && (after != [] ==> now < after[0].at + lifetime && lifetime > 0)
  }

  lemma {:induction false} ExpiryIsExpired<T>(entries: seq<Stamped<T>>, now: Instant, lifetime: nat)
    ensures IsExpired(entries, ExpireFront(entries, now, lifetime), now, lifetime)
  {
    if entries != [] && !Live(entries[0], now, lifetime) {
      ExpiryIsExpired(entries[1..], now, lifetime);
    }
  }

  // Of entries in time order, the live ones are those from some place on: all before it are too old, none after it is.
  lemma LiveIsYoung<T>(s: seq<Stamped<T>>, now: Instant, lifetime: nat)
    requires InTimeOrder(s)
    ensures var live := LiveOf(s, now, lifetime);
      |live| <= |s| && live == s[|s| - |live|..]
      && forall i :: 0 <= i < |s| ==> (i >= |s| - |live| <==> now < s[i].at + lifetime && lifetime > 0)
  {
    hide LiveOf, ExpireFront;
    ExpiryKeepsLive(s, now, lifetime);
    ExpiryIsExpired(s, now, lifetime);
  }

  lemma {:induction false} ExpireShrinks<T>(entries: seq<Stamped<T>>, now: Instant, lifetime: nat)
    ensures |ExpireFront(entries, now, lifetime)| <= |entries|
  {
    if entries != [] && !Live(entries[0], now, lifetime) {
      ExpireShrinks(entries[1..], now, lifetime);
    }
  }

  lemma JustSeen<T>(e: Stamped<T>, lifetime: nat)
    requires lifetime > 0
    ensures LiveOf([e], e.at, lifetime) == [e]
  {}
}
