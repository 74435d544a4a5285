// One application's client machines: the expiring, bounded cache, and what it should hold by the history.
module Counting {
  import opened Prelude
  import opened Window
  import Search

  const CMID_EXPIRY: nat := 43_200 * 60 * 1_000_000_000
  const MAX_TRACKED_REQUIRED_CLIENTS: nat := 100
  const MAX_CACHED_PER_APPLICATION: nat := 200
  const MAX_APPLICATIONS: nat := 8

  // A client machine ID and when it was last seen
  type Cached = Stamped<Guid>

  datatype CountOutcome = Inserted | Renewed | InsertedWithEviction

  datatype CountView = CountView(reported: nat, cached: nat, outcome: CountOutcome, expired: nat, anomalousDemand: bool)

  // ---- one application's entries, oldest first

  // The first place of a machine, or the length
  function PositionOf(entries: seq<Cached>, cmid: Guid): (at: nat)
    ensures at <= |entries|
    ensures at < |entries| ==> entries[at].value == cmid
    ensures forall i :: 0 <= i < at ==> entries[i].value != cmid
  {
    Search.FirstWith(entries, (entry: Cached) => entry.value, cmid)
  }

  function RecordEntries(entries: seq<Cached>, cmid: Guid, now: Instant): seq<Cached> {
    var at := PositionOf(entries, cmid);
    if at < |entries| then entries[..at] + entries[at + 1..] + [Stamped(cmid, now)]
    else if |entries| >= MAX_CACHED_PER_APPLICATION then entries[1..] + [Stamped(cmid, now)]
    else entries + [Stamped(cmid, now)]
  }

  function RecordOutcome(entries: seq<Cached>, cmid: Guid): CountOutcome {
    if PositionOf(entries, cmid) < |entries| then Renewed
    else if |entries| >= MAX_CACHED_PER_APPLICATION then InsertedWithEviction
    else Inserted
  }

  function Observed(entries: seq<Cached>, cmid: Guid, now: Instant): seq<Cached> {
    RecordEntries(ExpireFront(entries, now, CMID_EXPIRY), cmid, now)
  }

  // ---- the same, from the history of sightings

  ghost predicate Sees(history: seq<Cached>, cmid: Guid) {
    exists i :: 0 <= i < |history| && history[i].value == cmid
  }

  // Each machine's last sighting, in order
  ghost function Latest(history: seq<Cached>): seq<Cached> {
    if history == [] then []
    else if Sees(history[1..], history[0].value) then Latest(history[1..])
    else [history[0]] + Latest(history[1..])
  }

  function IfOther(entry: Cached, cmid: Guid): seq<Cached> {
    if entry.value == cmid then [] else [entry]
  }

  function Without(s: seq<Cached>, cmid: Guid): seq<Cached> {
    if s == [] then [] else IfOther(s[0], cmid) + Without(s[1..], cmid)
  }

  // The machines still live, by last sighting, the newest 200 of them
  ghost function Expected(history: seq<Cached>, now: Instant): seq<Cached> {
    Last(LiveOf(Latest(history), now, CMID_EXPIRY), MAX_CACHED_PER_APPLICATION)
  }

  ghost predicate Distinct(s: seq<Cached>) {
    forall i, j :: 0 <= i < j < |s| ==> s[i].value != s[j].value
  }

  lemma {:induction false} LatestExtends(h: seq<Cached>, e: Cached)
    ensures Latest(h + [e]) == Without(Latest(h), e.value) + [e]
  {
    if h == [] {
      assert h + [e] == [e];
      assert !Sees([], e.value);
      assert [e][1..] == [];
    } else {
      LatestExtends(h[1..], e);
      assert (h + [e])[1..] == h[1..] + [e];
      SeesExtends(h[1..], e, h[0].value);
      if !Sees(h[1..], h[0].value) {
        assert ([h[0]] + Latest(h[1..]))[1..] == Latest(h[1..]);
      }
    }
  }

  lemma SeesExtends(h: seq<Cached>, e: Cached, cmid: Guid)
    ensures Sees(h + [e], cmid) <==> Sees(h, cmid) || e.value == cmid
  {
    if Sees(h, cmid) {
      var i :| 0 <= i < |h| && h[i].value == cmid;
      assert (h + [e])[i].value == cmid;
    }
    if e.value == cmid {
      assert (h + [e])[|h|].value == cmid;
    }
    if Sees(h + [e], cmid) {
      var i :| 0 <= i < |h + [e]| && (h + [e])[i].value == cmid;
      assert i < |h| ==> h[i].value == cmid;
    }
  }

  lemma {:induction false} LatestWithin(h: seq<Cached>)
    ensures forall i :: 0 <= i < |Latest(h)| ==> Latest(h)[i] in h
  {
    if h != [] {
      LatestWithin(h[1..]);
    }
  }

  lemma {:induction false} LatestInOrder(h: seq<Cached>)
    requires InTimeOrder(h)
    ensures InTimeOrder(Latest(h))
  {
    if h != [] {
      var tail := h[1..];
      LatestInOrder(tail);
      LatestWithin(tail);
      var rest := Latest(tail);
      forall i | 0 <= i < |rest| ensures h[0].at <= rest[i].at {
        var k :| 0 <= k < |tail| && tail[k] == rest[i];
        assert tail[k] == h[k + 1];
      }
    }
  }

  lemma {:induction false} LatestDistinct(h: seq<Cached>)
    ensures Distinct(Latest(h))
  {
    if h != [] {
      var tail := h[1..];
      LatestDistinct(tail);
      LatestWithin(tail);
      var rest := Latest(tail);
      forall i | 0 <= i < |rest| ensures Sees(tail, rest[i].value) {
        var k :| 0 <= k < |tail| && tail[k] == rest[i];
      }
    }
  }

  // ---- filters and suffixes

  lemma {:induction false} WithoutConcat(a: seq<Cached>, b: seq<Cached>, cmid: Guid)
    ensures Without(a + b, cmid) == Without(a, cmid) + Without(b, cmid)
  {
    if a == [] {
      assert a + b == b;
    } else {
      WithoutConcat(a[1..], b, cmid);
      assert (a + b)[1..] == a[1..] + b;
      Associates(IfOther(a[0], cmid), Without(a[1..], cmid), Without(b, cmid));
    }
  }

  lemma {:induction false} WithoutLive(s: seq<Cached>, cmid: Guid, now: Instant)
    ensures LiveOf(Without(s, cmid), now, CMID_EXPIRY) == Without(LiveOf(s, now, CMID_EXPIRY), cmid)
  {
    if s != [] {
      WithoutLive(s[1..], cmid, now);
      LiveOfConcat(IfOther(s[0], cmid), Without(s[1..], cmid), now, CMID_EXPIRY);
      WithoutConcat(IfLive(s[0], now, CMID_EXPIRY), LiveOf(s[1..], now, CMID_EXPIRY), cmid);
    }
  }

  lemma {:induction false} WithoutAbsent(s: seq<Cached>, cmid: Guid)
    requires !Sees(s, cmid)
    ensures Without(s, cmid) == s
  {
    if s != [] {
      assert s[0].value != cmid;
      forall i | 0 <= i < |s[1..]| ensures s[1..][i].value != cmid {
        assert s[1..][i] == s[i + 1];
      }
      WithoutAbsent(s[1..], cmid);
    }
  }

  lemma DistinctParts(s: seq<Cached>, at: nat)
    requires Distinct(s) && at < |s|
    ensures !Sees(s[..at], s[at].value) && !Sees(s[at + 1..], s[at].value)
  {
    var back := s[at + 1..];
    forall i | 0 <= i < |back| ensures back[i].value != s[at].value {
      assert back[i] == s[at + 1 + i];
    }
  }

  lemma SplitAt(s: seq<Cached>, at: nat)
    requires at < |s|
    ensures s == s[..at] + ([s[at]] + s[at + 1..])
  {}

  lemma WithoutPresent(s: seq<Cached>, at: nat)
    requires Distinct(s) && at < |s|
    ensures Without(s, s[at].value) == s[..at] + s[at + 1..]
  {
    hide Without, Sees, Distinct;
    var cmid := s[at].value;
    var front, back := s[..at], s[at + 1..];
    DistinctParts(s, at);
    SplitAt(s, at);
    WithoutConcat(front, [s[at]] + back, cmid);
    WithoutConcat([s[at]], back, cmid);
    WithoutAbsent(front, cmid);
    WithoutAbsent(back, cmid);
    WithoutOne(s[at]);
    assert [] + back == back;
  }

  lemma WithoutOne(entry: Cached)
    ensures Without([entry], entry.value) == []
  {}

  lemma NotSeen(s: seq<Cached>, cmid: Guid)
    requires forall i :: 0 <= i < |s| ==> s[i].value != cmid
    ensures !Sees(s, cmid)
  {}

  lemma LiveKeepsOrder(s: seq<Cached>, now: Instant)
    requires InTimeOrder(s) && Distinct(s)
    ensures InTimeOrder(LiveOf(s, now, CMID_EXPIRY)) && Distinct(LiveOf(s, now, CMID_EXPIRY))
  {
    ExpiryKeepsLive(s, now, CMID_EXPIRY);
  }

  lemma OnlyPlace(front: seq<Cached>, e: seq<Cached>, at: nat)
    requires Distinct(front + e) && at < |e|
    ensures !Sees(front, e[at].value) && Distinct(e)
  {
    forall i | 0 <= i < |front| ensures front[i].value != e[at].value {
      assert (front + e)[i] == front[i] && (front + e)[|front| + at] == e[at];
    }
    forall i, j | 0 <= i < j < |e| ensures e[i].value != e[j].value {
      assert (front + e)[|front| + i] == e[i] && (front + e)[|front| + j] == e[j];
    }
  }

  // A machine among the newest entries e is taken out of its place and put last.
  lemma RecordKnown(front: seq<Cached>, e: seq<Cached>, at: nat, now: Instant)
    requires Distinct(front + e) && at < |e| <= MAX_CACHED_PER_APPLICATION
    requires |e| < MAX_CACHED_PER_APPLICATION ==> front == []
    ensures var c := Stamped(e[at].value, now);
      Last(Without(front + e, c.value) + [c], MAX_CACHED_PER_APPLICATION) == e[..at] + e[at + 1..] + [c]
  {
    hide Without, Sees, Distinct, Last;
    var cmid := e[at].value;
    OnlyPlace(front, e, at);
    WithoutConcat(front, e, cmid);
    WithoutPresent(e, at);
    WithoutAbsent(front, cmid);
    LastOfJoin(front, e[..at] + e[at + 1..], Stamped(cmid, now));
  }

  // Another machine comes last, and the oldest of a full cache goes.
  lemma RecordNew(front: seq<Cached>, e: seq<Cached>, c: Cached)
    requires |e| <= MAX_CACHED_PER_APPLICATION && !Sees(e, c.value)
    requires |e| < MAX_CACHED_PER_APPLICATION ==> front == []
    ensures Last(Without(front + e, c.value) + [c], MAX_CACHED_PER_APPLICATION)
         == (if |e| < MAX_CACHED_PER_APPLICATION then e else e[1..]) + [c]
  {
    hide Without, Sees, Last;
    WithoutConcat(front, e, c.value);
    WithoutAbsent(e, c.value);
    WithoutShrinks(front, c.value);
    LastOfJoin(Without(front, c.value), e, c);
  }

  // Recording on the newest entries of b is the newest entries of recording on b.
  lemma RecordOnLast(b: seq<Cached>, cmid: Guid, now: Instant)
    requires Distinct(b)
    ensures RecordEntries(Last(b, MAX_CACHED_PER_APPLICATION), cmid, now)
         == Last(Without(b, cmid) + [Stamped(cmid, now)], MAX_CACHED_PER_APPLICATION)
  {
    hide Without, Sees, Distinct;
    var e := Last(b, MAX_CACHED_PER_APPLICATION);
    var front := b[..|b| - |e|];
    assert b == front + e;
    var at := PositionOf(e, cmid);
    if at < |e| {
      RecordKnown(front, e, at, now);
    } else {
      NotSeen(e, cmid);
      RecordNew(front, e, Stamped(cmid, now));
    }
  }

  lemma {:induction false} WithoutShrinks(s: seq<Cached>, cmid: Guid)
    ensures |Without(s, cmid)| <= |s|
  {
    if s != [] {
      WithoutShrinks(s[1..], cmid);
    }
  }

  lemma LastOfJoin(front: seq<Cached>, back: seq<Cached>, entry: Cached)
    requires |back| <= MAX_CACHED_PER_APPLICATION && (|back| < MAX_CACHED_PER_APPLICATION - 1 ==> front == [])
    ensures Last(front + back + [entry], MAX_CACHED_PER_APPLICATION)
         == (if |back| < MAX_CACHED_PER_APPLICATION then back else back[1..]) + [entry]
  {}

  // The heart of the matter: one more sighting, as the cache handles it and as the history has it.
  lemma ObservedIsExpected(h: seq<Cached>, before: Instant, e: Cached)
    requires InTimeOrder(h + [e]) && before <= e.at
    ensures Observed(Expected(h, before), e.value, e.at) == Expected(h + [e], e.at)
  {
    hide LiveOf, Latest, Last, Without, ExpireFront, RecordEntries;
    var now := e.at;
    assert InTimeOrder(h) by {
      forall i, j | 0 <= i < j < |h| ensures h[i].at <= h[j].at {
        assert h[i] == (h + [e])[i] && h[j] == (h + [e])[j];
      }
    }
    LatestInOrder(h);
    LatestDistinct(h);
    var l := Latest(h);
    LiveKeepsOrder(l, before);
    LiveKeepsOrder(l, now);
    LiveOfLast(LiveOf(l, before, CMID_EXPIRY), MAX_CACHED_PER_APPLICATION, now, CMID_EXPIRY);
    LongerLives(l, before, now, CMID_EXPIRY);
    LastKeepsOrder(LiveOf(l, before, CMID_EXPIRY), MAX_CACHED_PER_APPLICATION);
    ExpiryKeepsLive(Last(LiveOf(l, before, CMID_EXPIRY), MAX_CACHED_PER_APPLICATION), now, CMID_EXPIRY);
    RecordOnLast(LiveOf(l, now, CMID_EXPIRY), e.value, now);
    LatestExtends(h, e);
    LiveOfConcat(Without(l, e.value), [e], now, CMID_EXPIRY);
    WithoutLive(l, e.value, now);
    JustSeen(e, CMID_EXPIRY);
  }

  // ---- the same, one sighting at a time

  // A machine's last sighting, less than thirty days old
  ghost predicate StillHere(h: seq<Cached>, now: Instant, i: nat)
    requires i < |h|
  {
    now < h[i].at + 30 * 24 * 3600 * 1_000_000_000 && forall j :: i < j < |h| ==> h[j].value != h[i].value
  }

  // How many sightings from a place on are such
  ghost function HereFrom(h: seq<Cached>, now: Instant, from: nat): nat
    requires from <= |h|
    decreases |h| - from
  {
    if from == |h| then 0 else (if StillHere(h, now, from) then 1 else 0) + HereFrom(h, now, from + 1)
  }

  ghost function LiveFrom(h: seq<Cached>, now: Instant, from: nat): seq<Cached>
    requires from <= |h|
  {
    LiveOf(Latest(h[from..]), now, CMID_EXPIRY)
  }

  lemma LiveFromStep(h: seq<Cached>, now: Instant, from: nat)
    requires from < |h|
    ensures LiveFrom(h, now, from) == (if StillHere(h, now, from) then [h[from]] else []) + LiveFrom(h, now, from + 1)
  {
    var tail := h[from..];
    assert tail[1..] == h[from + 1..];
    if Sees(tail[1..], tail[0].value) {
      var k :| 0 <= k < |tail[1..]| && tail[1..][k].value == tail[0].value;
      assert h[from + 1 + k].value == h[from].value;
    } else {
      forall j | from < j < |h| ensures h[j].value != h[from].value {
        assert tail[1..][j - from - 1] == h[j];
      }
      assert ([h[from]] + Latest(tail[1..]))[1..] == Latest(tail[1..]);
    }
  }

  // The live machine at place p is that of some such sighting
  ghost predicate Stands(h: seq<Cached>, now: Instant, from: nat, p: nat)
    requires from <= |h|
  {
    exists i :: from <= i < |h| && StillHere(h, now, i) && HereFrom(h, now, from) - HereFrom(h, now, i) == p
  }

  // Where the live machine of a sighting stands, and that nothing else is there
  lemma {:induction false} LivePlaces(h: seq<Cached>, now: Instant, from: nat)
    requires from <= |h|
    ensures |LiveFrom(h, now, from)| == HereFrom(h, now, from)
    ensures forall i :: from <= i < |h| && StillHere(h, now, i) ==>
      1 <= HereFrom(h, now, i) <= HereFrom(h, now, from)
      && LiveFrom(h, now, from)[HereFrom(h, now, from) - HereFrom(h, now, i)] == h[i]
    ensures forall p :: 0 <= p < HereFrom(h, now, from) ==> Stands(h, now, from, p)
    decreases |h| - from
  {
    hide LiveFrom, StillHere;
    if from == |h| {
      NoneFrom(h, now);
    } else {
      LivePlaces(h, now, from + 1);
      LiveFromStep(h, now, from);
      var shift := HereFrom(h, now, from) - HereFrom(h, now, from + 1);
      forall p | 0 <= p < HereFrom(h, now, from) ensures Stands(h, now, from, p) {
        if p < shift {
          assert StillHere(h, now, from);
        } else {
          assert Stands(h, now, from + 1, p - shift);
        }
      }
    }
  }

  lemma NoneFrom(h: seq<Cached>, now: Instant)
    ensures LiveFrom(h, now, |h|) == []
  {
    assert h[|h|..] == [];
  }

  // What is expected is each machine's last sighting, if less than thirty days old and one of the newest 200 such.
  lemma ExpectedMeans(h: seq<Cached>, now: Instant, c: Cached)
    ensures c in Expected(h, now) <==>
      exists i :: 0 <= i < |h| && h[i] == c && StillHere(h, now, i) && HereFrom(h, now, i) <= 200
  {
    hide LiveOf, Latest, StillHere, HereFrom;
    LivePlaces(h, now, 0);
    assert h[0..] == h;
    var live, kept := LiveFrom(h, now, 0), Expected(h, now);
    var all := HereFrom(h, now, 0);
    if i :| 0 <= i < |h| && h[i] == c && StillHere(h, now, i) && HereFrom(h, now, i) <= 200 {
      assert live[all - HereFrom(h, now, i)] == c;
      assert kept[|kept| - HereFrom(h, now, i)] == c;
    }
    if c in kept {
      var q :| 0 <= q < |kept| && kept[q] == c;
      var p := q + |live| - |kept|;
      assert live[p] == c;
      assert Stands(h, now, 0, p);
    }
  }

  // ---- what the counts say about the change of size

  lemma OutcomeAccounts(entries: seq<Cached>, cmid: Guid, now: Instant)
    requires |entries| <= MAX_CACHED_PER_APPLICATION
    ensures var left := ExpireFront(entries, now, CMID_EXPIRY);
      var after := Observed(entries, cmid, now);
      |left| <= |entries| && 1 <= |after| <= MAX_CACHED_PER_APPLICATION
      && |after| == |left| + (if RecordOutcome(left, cmid) == Inserted then 1 else 0)
      && (RecordOutcome(left, cmid) == Renewed <==> Sees(left, cmid))
      && (RecordOutcome(left, cmid) == InsertedWithEviction ==> |left| == MAX_CACHED_PER_APPLICATION)
  {
    ExpireShrinks(entries, now, CMID_EXPIRY);
    var left := ExpireFront(entries, now, CMID_EXPIRY);
    if Sees(left, cmid) {
      var i :| 0 <= i < |left| && left[i].value == cmid;
    }
  }
}
