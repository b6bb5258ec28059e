// Per-install proof that the client address can be trusted: a pair (publisher, operator) arms after
// enough verified hits and disarms when the real crawler falls silent while forged claims arrive.
//
// The store keeps hourly counts; the reference below keeps the time of every verified hit.
module Arming {
  import opened Wrappers
  import Identity

  const ARM_VERIFIED_MIN: nat := 20
  const ARM_WINDOW_MS := 14 * 86_400_000
  const DISARM_MIN_FORGED: nat := 3
  const DISARM_SILENCE_FACTOR := 3.0
  const DISARM_SILENCE_MIN_MS := 3 * 3_600_000
  const DISARM_SILENCE_MAX_MS := 72 * 3_600_000
  const HOUR_MS := 3_600_000
  const MAX_PAIRS: nat := 50_000

  // An hour of the store's counts, by its index since the epoch.
  datatype Slot = Slot(hour: int)

  datatype Pair = Pair(
    armed: bool, verified: map<Slot, nat>, lastVerifiedAt: Option<int>, forgedSinceVerified: nat,
    disarmedAt: Option<int>)

  const NEW_PAIR := Pair(false, map[], None, 0, None)

  datatype Event = Verified(at: int) | ForgedClaim(at: int)

  function Hour(t: int): int { t / HOUR_MS }

  // The first hour of the arming window that ends now.
  function Oldest(now: int): int { Hour(now - ARM_WINDOW_MS) }

  // ---------- hourly counts ----------

  ghost function Total(m: map<Slot, nat>): nat {
    if m == map[] then 0
    else
      var h :| h in m;
      m[h] + Total(m - {h})
  }

  function Prune(m: map<Slot, nat>, oldest: int): map<Slot, nat> {
    map h | h in m && h.hour >= oldest :: m[h]
  }

  function CountAt(m: map<Slot, nat>, h: Slot): nat { if h in m then m[h] else 0 }

  lemma {:induction false} TotalWithout(m: map<Slot, nat>, h: Slot)
    requires h in m
    ensures Total(m) == m[h] + Total(m - {h})
    decreases |m|
  {
    var k :| k in m && Total(m) == m[k] + Total(m - {k});
    if k != h {
      TotalWithout(m - {k}, h);
      assert m - {k} - {h} == m - {h} - {k};
      TotalWithout(m - {h}, k);
    }
  }

  lemma TotalBump(m: map<Slot, nat>, h: Slot)
    ensures Total(m[h := CountAt(m, h) + 1]) == Total(m) + 1
  {
    var bumped := m[h := CountAt(m, h) + 1];
    TotalWithout(bumped, h);
    if h in m {
      TotalWithout(m, h);
      assert bumped - {h} == m - {h};
    } else {
      assert bumped - {h} == m;
    }
  }

  // The source's loop over the hours: old ones are dropped while the rest is added up.
  method VerifiedIn(verified: map<Slot, nat>, now: int) returns (kept: map<Slot, nat>, n: nat)
    ensures kept == Prune(verified, Oldest(now)) && n == Total(kept)
  {
    kept, n := map[], 0;
    var left := verified.Keys;
    while left != {}
      invariant left <= verified.Keys
      invariant kept == map h | h in verified.Keys - left && h.hour >= Oldest(now) :: verified[h]
      invariant n == Total(kept)
      decreases |left|
    {
      var h :| h in left;
      left := left - {h};
      if h.hour >= Oldest(now) {
        ghost var before := kept;
        kept, n := kept[h := verified[h]], n + verified[h];
        TotalWithout(kept, h);
        assert kept - {h} == before;
      }
    }
  }

  function SilenceThresholdMs(verifiedInWindow: nat): real {
    var usualGap := ARM_WINDOW_MS as real / (if verifiedInWindow > 1 then verifiedInWindow as real else 1.0);
    var wait := DISARM_SILENCE_FACTOR * usualGap;
    var floor := if wait < DISARM_SILENCE_MIN_MS as real then DISARM_SILENCE_MIN_MS as real else wait;
    if floor > DISARM_SILENCE_MAX_MS as real then DISARM_SILENCE_MAX_MS as real else floor
  }

  lemma ThresholdIsClamped(verifiedInWindow: nat)
    ensures DISARM_SILENCE_MIN_MS as real <= SilenceThresholdMs(verifiedInWindow) <= DISARM_SILENCE_MAX_MS as real
  {
  }

  // ---------- one pair ----------

  ghost function Step(pair: Pair, e: Event): Pair {
    match e
    case Verified(now) =>
      var h := Slot(Hour(now));
      var counted := pair.verified[h := CountAt(pair.verified, h) + 1];
      var onTime := pair.lastVerifiedAt.None? || now >= pair.lastVerifiedAt.value;
      var last := if onTime then Some(now) else pair.lastVerifiedAt;
      var forged := if onTime then 0 else pair.forgedSinceVerified;
      if pair.armed then pair.(verified := counted, lastVerifiedAt := last, forgedSinceVerified := forged)
      else
        var kept := Prune(counted, Oldest(now));
        Pair(Total(kept) >= ARM_VERIFIED_MIN, kept, last, forged, pair.disarmedAt)
    case ForgedClaim(now) =>
      var forged := pair.forgedSinceVerified + 1;
      if !(pair.armed && pair.lastVerifiedAt.Some? && forged >= DISARM_MIN_FORGED) then
        pair.(forgedSinceVerified := forged)
      else
        var kept := Prune(pair.verified, Oldest(now));
        if (now - pair.lastVerifiedAt.value) as real >= SilenceThresholdMs(Total(kept)) then
          Pair(false, map[], None, 0, Some(now))
        else pair.(verified := kept, forgedSinceVerified := forged)
  }

  method StepInPlace(pair: Pair, e: Event) returns (next: Pair)
    ensures next == Step(pair, e)
  {
    next := pair;
    if e.Verified? {
      var h := Slot(Hour(e.at));
      next := next.(verified := next.verified[h := CountAt(next.verified, h) + 1]);
      if next.lastVerifiedAt.None? || e.at >= next.lastVerifiedAt.value {
        next := next.(lastVerifiedAt := Some(e.at), forgedSinceVerified := 0);
      }
      if !next.armed {
        var kept, n := VerifiedIn(next.verified, e.at);
        next := next.(verified := kept, armed := n >= ARM_VERIFIED_MIN);
      }
    } else {
      next := next.(forgedSinceVerified := next.forgedSinceVerified + 1);
      if next.armed && next.lastVerifiedAt.Some? && next.forgedSinceVerified >= DISARM_MIN_FORGED {
        var silence := e.at - next.lastVerifiedAt.value;
        var kept, n := VerifiedIn(next.verified, e.at);
        next := next.(verified := kept);
        if silence as real >= SilenceThresholdMs(n) {
          next := Pair(false, map[], None, 0, Some(e.at));
        }
      }
    }
  }

  // ---------- the reference that keeps every hit ----------

  // `log`: when each verified hit since the last disarm came.
  datatype Record = Record(armed: bool, log: seq<int>, forged: nat)

  const NEW_RECORD := Record(false, [], 0)

  function CountFrom(log: seq<int>, hour: int): nat {
    if log == [] then 0
    else CountFrom(log[..|log| - 1], hour) + if Hour(log[|log| - 1]) >= hour then 1 else 0
  }

  function RefStep(r: Record, e: Event): Record {
    match e
    case Verified(now) =>
      var log := r.log + [now];
      Record(r.armed || CountFrom(log, Oldest(now)) >= ARM_VERIFIED_MIN, log, 0)
    case ForgedClaim(now) =>
      if r.armed && r.log != [] && r.forged + 1 >= DISARM_MIN_FORGED
         && (now - r.log[|r.log| - 1]) as real >= SilenceThresholdMs(CountFrom(r.log, Oldest(now)))
      then NEW_RECORD
      else r.(forged := r.forged + 1)
  }

  // The hourly counts of a log, from one hour on.
  ghost function HourMap(log: seq<int>, from: int): map<Slot, nat> {
    if log == [] then map[]
    else
      var m := HourMap(log[..|log| - 1], from);
      var h := Slot(Hour(log[|log| - 1]));
      if h.hour >= from then m[h := CountAt(m, h) + 1] else m
  }

  lemma {:induction false} PruneHourMap(log: seq<int>, from: int, later: int)
    requires from <= later
    ensures Prune(HourMap(log, from), later) == HourMap(log, later)
  {
    if log != [] { PruneHourMap(log[..|log| - 1], from, later); }
  }

  lemma {:induction false} TotalHourMap(log: seq<int>, from: int)
    ensures Total(HourMap(log, from)) == CountFrom(log, from)
  {
    if log != [] {
      var front := log[..|log| - 1];
      TotalHourMap(front, from);
      TotalBump(HourMap(front, from), Slot(Hour(log[|log| - 1])));
    }
  }

  lemma HourMapAppend(log: seq<int>, t: int, from: int)
    requires Hour(t) >= from
    ensures HourMap(log + [t], from)
         == HourMap(log, from)[Slot(Hour(t)) := CountAt(HourMap(log, from), Slot(Hour(t))) + 1]
  {
    assert (log + [t])[..|log|] == log;
  }

  // The pair says what the record says; it has dropped only hours no later window reaches.
  ghost predicate Agrees(pair: Pair, r: Record, now: int) {
    && pair.armed == r.armed && pair.forgedSinceVerified == r.forged
    && pair.lastVerifiedAt == (if r.log == [] then None else Some(r.log[|r.log| - 1]))
    && (forall k :: 0 <= k < |r.log| ==> r.log[k] <= now)
    && exists from :: from <= Oldest(now) && pair.verified == HourMap(r.log, from)
  }

  lemma HoursMoveOn(a: int, b: int)
    requires a <= b
    ensures Hour(a) <= Hour(b) && Oldest(a) <= Oldest(b) <= Hour(b)
  {
  }

  lemma VerifiedAgrees(pair: Pair, r: Record, now: int, at: int)
    requires Agrees(pair, r, now) && now <= at
    ensures Agrees(Step(pair, Verified(at)), RefStep(r, Verified(at)), at)
  {
    var from :| from <= Oldest(now) && pair.verified == HourMap(r.log, from);
    HoursMoveOn(now, at);
    var log := r.log + [at];
    HourMapAppend(r.log, at, from);
    PruneHourMap(log, from, Oldest(at));
    TotalHourMap(log, Oldest(at));
    assert log[|log| - 1] == at;
  }

  lemma ForgedAgrees(pair: Pair, r: Record, now: int, at: int)
    requires Agrees(pair, r, now) && now <= at
    ensures Agrees(Step(pair, ForgedClaim(at)), RefStep(r, ForgedClaim(at)), at)
  {
    var from :| from <= Oldest(now) && pair.verified == HourMap(r.log, from);
    HoursMoveOn(now, at);
    PruneHourMap(r.log, from, Oldest(at));
    TotalHourMap(r.log, Oldest(at));
    assert HourMap([], Oldest(at)) == map[];
  }

  // ---------- runs of one pair ----------

  predicate InOrder(events: seq<Event>, from: int) {
    events == [] || (from <= events[0].at && InOrder(events[1..], events[0].at))
  }

  ghost function Run(pair: Pair, events: seq<Event>): Pair
    decreases |events|
  {
    if events == [] then pair else Run(Step(pair, events[0]), events[1..])
  }

  function RefRun(r: Record, events: seq<Event>): Record
    decreases |events|
  {
    if events == [] then r else RefRun(RefStep(r, events[0]), events[1..])
  }

  function EndOf(events: seq<Event>, now: int): int {
    if events == [] then now else EndOf(events[1..], events[0].at)
  }

  // Hourly counts with pruning decide every arm and disarm as the full log would.
  lemma {:induction false} RunAgrees(pair: Pair, r: Record, now: int, events: seq<Event>)
    requires Agrees(pair, r, now) && InOrder(events, now)
    ensures Agrees(Run(pair, events), RefRun(r, events), EndOf(events, now))
    decreases |events|
  {
    if events != [] {
      var e := events[0];
      match e {
        case Verified(at) => VerifiedAgrees(pair, r, now, at);
        case ForgedClaim(at) => ForgedAgrees(pair, r, now, at);
      }
      RunAgrees(Step(pair, e), RefStep(r, e), e.at, events[1..]);
    }
  }

  lemma HistoryDecides(now: int, events: seq<Event>)
    requires InOrder(events, now)
    ensures var pair, r := Run(NEW_PAIR, events), RefRun(NEW_RECORD, events);
      && pair.armed == r.armed && pair.forgedSinceVerified == r.forged
      && pair.lastVerifiedAt == if r.log == [] then None else Some(r.log[|r.log| - 1])
  {
    assert NEW_PAIR.verified == HourMap([], Oldest(now));
    RunAgrees(NEW_PAIR, NEW_RECORD, now, events);
  }

  // ---------- arming ----------

  // However its history ran, an unarmed pair is armed by an event exactly when that event is a verified
  // hit and, with it, the hits since the last disarm that fall in the window reach the minimum.
  lemma ArmsExactly(now: int, before: seq<Event>, e: Event)
    requires InOrder(before + [e], now) && !Run(NEW_PAIR, before).armed
    ensures Run(NEW_PAIR, before + [e]).armed
       <==> e.Verified? && CountFrom(RefRun(NEW_RECORD, before).log + [e.at], Oldest(e.at)) >= ARM_VERIFIED_MIN
  {
    hide CountFrom, Run;
    InOrderPrefix(before, [e], now);
    HistoryDecides(now, before);
    HistoryDecides(now, before + [e]);
    RefRunSplits(NEW_RECORD, before, [e]);
    OneMore(RefRun(NEW_RECORD, before), e);
  }

  lemma OneMore(r: Record, e: Event)
    ensures RefRun(r, [e]) == RefStep(r, e)
  {
    hide RefStep;
    assert [e][1..] == [];
  }

  lemma {:induction false} InOrderPrefix(a: seq<Event>, b: seq<Event>, from: int)
    requires InOrder(a + b, from)
    ensures InOrder(a, from)
  {
    if a != [] {
      assert (a + b)[1..] == a[1..] + b;
      InOrderPrefix(a[1..], b, a[0].at);
    }
  }

  function VerifiedCount(events: seq<Event>): nat {
    if events == [] then 0 else (if events[0].Verified? then 1 else 0) + VerifiedCount(events[1..])
  }

  lemma {:induction false} CountIsBounded(log: seq<int>, hour: int)
    ensures CountFrom(log, hour) <= |log|
  {
    if log != [] { CountIsBounded(log[..|log| - 1], hour); }
  }

  lemma {:induction false} ArmingTakesHits(r: Record, events: seq<Event>)
    requires !r.armed && RefRun(r, events).armed
    ensures |r.log| + VerifiedCount(events) >= ARM_VERIFIED_MIN
    decreases |events|
  {
    var next := RefStep(r, events[0]);
    if next.armed {
      CountIsBounded(next.log, Oldest(events[0].at));
    } else {
      ArmingTakesHits(next, events[1..]);
    }
  }

  // From any disarm, the pair's next arming needs the full minimum of new verified hits.
  lemma ReArmingTakesNewHits(now: int, before: seq<Event>, disarm: Event, events: seq<Event>)
    requires InOrder(before + [disarm] + events, now)
    requires Run(NEW_PAIR, before).armed && !Run(NEW_PAIR, before + [disarm]).armed
    requires Run(NEW_PAIR, before + [disarm] + events).armed
    ensures VerifiedCount(events) >= ARM_VERIFIED_MIN
  {
    hide Run;
    var until := before + [disarm];
    InOrderPrefix(until, events, now);
    InOrderPrefix(before, [disarm], now);
    HistoryDecides(now, before);
    HistoryDecides(now, until);
    HistoryDecides(now, until + events);
    RefRunSplits(NEW_RECORD, before, [disarm]);
    RefRunSplits(NEW_RECORD, until, events);
    OneMore(RefRun(NEW_RECORD, before), disarm);
    ArmingTakesHits(RefRun(NEW_RECORD, until), events);
  }

  // An install that sees only forged claims never arms.
  lemma ForgedAloneNeverArms(now: int, events: seq<Event>)
    requires InOrder(events, now) && VerifiedCount(events) < ARM_VERIFIED_MIN
    ensures !Run(NEW_PAIR, events).armed
  {
    HistoryDecides(now, events);
    if RefRun(NEW_RECORD, events).armed { ArmingTakesHits(NEW_RECORD, events); }
  }

  // ---------- disarming ----------

  // At every forged claim the latest verified hit is younger than the shortest silence that disarms; a hit
  // reported late moves nothing back.
  predicate CrawlerKeepsVerifying(last: int, events: seq<Event>)
    decreases |events|
  {
    events == [] ||
    match events[0]
    case Verified(at) => CrawlerKeepsVerifying(if at >= last then at else last, events[1..])
    case ForgedClaim(at) => at - last < DISARM_SILENCE_MIN_MS && CrawlerKeepsVerifying(last, events[1..])
  }

  lemma {:induction false} StaysArmed(pair: Pair, events: seq<Event>)
    requires pair.armed && pair.lastVerifiedAt.Some?
    requires CrawlerKeepsVerifying(pair.lastVerifiedAt.value, events)
    ensures Run(pair, events).armed
    decreases |events|
  {
    hide Prune, Total, SilenceThresholdMs;
    if events != [] {
      ThresholdIsClamped(Total(Prune(pair.verified, Oldest(events[0].at))));
      StaysArmed(Step(pair, events[0]), events[1..]);
    }
  }

  // However many forged claims arrive, and in whatever order events are reported, a pair whose crawler keeps
  // verifying stays armed.
  lemma ForgersCannotDisarm(before: seq<Event>, after: seq<Event>)
    requires var pair := Run(NEW_PAIR, before);
             pair.armed && (pair.lastVerifiedAt.Some? ==> CrawlerKeepsVerifying(pair.lastVerifiedAt.value, after))
    ensures Run(NEW_PAIR, before + after).armed
  {
    hide Run, CrawlerKeepsVerifying;
    RunSplits(NEW_PAIR, before, after);
    ArmedHasLast(NEW_PAIR, before);
    StaysArmed(Run(NEW_PAIR, before), after);
  }

  lemma {:induction false} RunSplits(pair: Pair, a: seq<Event>, b: seq<Event>)
    ensures Run(pair, a + b) == Run(Run(pair, a), b)
    decreases |a|
  {
    hide Step;
    if a == [] {
      assert a + b == b;
    } else {
      assert (a + b)[1..] == a[1..] + b;
      RunSplits(Step(pair, a[0]), a[1..], b);
    }
  }

  lemma {:induction false} ArmedHasLast(pair: Pair, events: seq<Event>)
    requires pair.armed ==> pair.lastVerifiedAt.Some?
    ensures Run(pair, events).armed ==> Run(pair, events).lastVerifiedAt.Some?
    decreases |events|
  {
    hide Prune, Total, SilenceThresholdMs;
    if events != [] { ArmedHasLast(Step(pair, events[0]), events[1..]); }
  }

  lemma {:induction false} RefRunSplits(r: Record, a: seq<Event>, b: seq<Event>)
    ensures RefRun(r, a + b) == RefRun(RefRun(r, a), b)
    decreases |a|
  {
    if a == [] {
      assert a + b == b;
    } else {
      assert (a + b)[1..] == a[1..] + b;
      RefRunSplits(RefStep(r, a[0]), a[1..], b);
    }
  }

  lemma {:induction false} ArmedHasLog(r: Record, events: seq<Event>)
    requires r.armed ==> r.log != []
    ensures RefRun(r, events).armed ==> RefRun(r, events).log != []
    decreases |events|
  {
    if events != [] { ArmedHasLog(RefStep(r, events[0]), events[1..]); }
  }

  // After a proxy change nothing verifies: the third forged claim at least three days after the last
  // verified hit leaves the pair disarmed, on the quietest site.
  lemma SilenceDisarms(now: int, before: seq<Event>, claims: seq<Event>, at: int)
    requires InOrder(before + claims + [ForgedClaim(at)], now)
    requires |claims| >= 2 && forall k :: 0 <= k < |claims| ==> claims[k].ForgedClaim?
    requires var last := Run(NEW_PAIR, before).lastVerifiedAt; last.Some? ==> at - last.value >= DISARM_SILENCE_MAX_MS
    ensures !Run(NEW_PAIR, before + claims + [ForgedClaim(at)]).armed
  {
    hide Run;
    var r, last := RefRun(NEW_RECORD, before), ForgedClaim(at);
    InOrderPrefix(before + claims, [last], now);
    InOrderPrefix(before, claims, now);
    HistoryDecides(now, before);
    HistoryDecides(now, before + claims + [last]);
    RefRunSplits(NEW_RECORD, before + claims, [last]);
    RefRunSplits(NEW_RECORD, before, claims);
    OneMore(RefRun(r, claims), last);
    ArmedHasLog(NEW_RECORD, before);
    SilenceDisarmsRecord(r, claims, at);
  }

  lemma ThresholdAtMost(n: nat, silence: int)
    ensures var m := (if n > 1 then n else 1) as real; var s := silence as real;
      SilenceThresholdMs(n) <= s
      <==> && DISARM_SILENCE_MIN_MS as real <= s
           && (DISARM_SILENCE_MAX_MS as real <= s || DISARM_SILENCE_FACTOR * ARM_WINDOW_MS as real <= s * m)
  {
    var m, s := (if n > 1 then n else 1) as real, silence as real;
    DividedAtMost(ARM_WINDOW_MS as real, m, DISARM_SILENCE_FACTOR, s);
  }

  lemma DividedAtMost(x: real, m: real, factor: real, s: real)
    requires m >= 1.0
    ensures factor * (x / m) <= s <==> factor * x <= s * m
  {
    var q := x / m;
    assert q * m == x;
    assert factor * x == (factor * q) * m;
    if factor * q <= s { assert (s - factor * q) * m >= 0.0; } else { assert (factor * q - s) * m > 0.0; }
  }

  // However its history ran, an armed pair is disarmed by an event exactly when that event is at least the
  // third forged claim since the last hit, and the silence since that hit is at least the shortest one and
  // either the longest or the factor times the usual gap between the hits of the window.
  lemma DisarmsExactly(now: int, before: seq<Event>, e: Event)
    requires InOrder(before + [e], now) && Run(NEW_PAIR, before).armed
    ensures var r := RefRun(NEW_RECORD, before);
      r.log != [] &&
      var silence, hits := e.at - r.log[|r.log| - 1], CountFrom(r.log, Oldest(e.at));
      !Run(NEW_PAIR, before + [e]).armed
      <==> && e.ForgedClaim? && r.forged + 1 >= DISARM_MIN_FORGED && silence >= DISARM_SILENCE_MIN_MS
           && (silence >= DISARM_SILENCE_MAX_MS
               || silence as real * (if hits > 1 then hits else 1) as real
                  >= DISARM_SILENCE_FACTOR * ARM_WINDOW_MS as real)
  {
    hide Run, CountFrom, SilenceThresholdMs;
    var r := RefRun(NEW_RECORD, before);
    InOrderPrefix(before, [e], now);
    HistoryDecides(now, before);
    HistoryDecides(now, before + [e]);
    RefRunSplits(NEW_RECORD, before, [e]);
    OneMore(r, e);
    ArmedHasLog(NEW_RECORD, before);
    ThresholdAtMost(CountFrom(r.log, Oldest(e.at)), e.at - r.log[|r.log| - 1]);
  }

  lemma SilenceDisarmsRecord(r: Record, claims: seq<Event>, at: int)
    requires r.armed ==> r.log != []
    requires |claims| >= 2 && forall k :: 0 <= k < |claims| ==> claims[k].ForgedClaim?
    requires r.log == [] || at - r.log[|r.log| - 1] >= DISARM_SILENCE_MAX_MS
    ensures !RefStep(RefRun(r, claims), ForgedClaim(at)).armed
  {
    if r.armed {
      ForgedAdds(r, claims);
      ThresholdIsClamped(CountFrom(r.log, Oldest(at)));
    } else {
      ForgedNeverArm(r, claims);
    }
  }

  lemma {:induction false} ForgedAdds(r: Record, claims: seq<Event>)
    requires forall k :: 0 <= k < |claims| ==> claims[k].ForgedClaim?
    ensures var end := RefRun(r, claims);
            !end.armed || (end.log == r.log && end.forged == r.forged + |claims|)
    decreases |claims|
  {
    if claims != [] {
      var next := RefStep(r, claims[0]);
      if next.armed || !r.armed { ForgedAdds(next, claims[1..]); } else { ForgedNeverArm(next, claims[1..]); }
    }
  }

  lemma {:induction false} ForgedNeverArm(r: Record, claims: seq<Event>)
    requires !r.armed && forall k :: 0 <= k < |claims| ==> claims[k].ForgedClaim?
    ensures !RefRun(r, claims).armed
    decreases |claims|
  {
    if claims != [] { ForgedNeverArm(RefStep(r, claims[0]), claims[1..]); }
  }

  // ---------- the store ----------

  datatype Key = Key(publisherId: string, operatorId: string)

  // The Map of pairs, the least recently seen first.
  datatype Entry = Entry(key: Key, pair: Pair)

  function Find(entries: seq<Entry>, key: Key): Option<Pair> {
    if entries == [] then None
    else if entries[0].key == key then Some(entries[0].pair)
    else Find(entries[1..], key)
  }

  function Lookup(entries: seq<Entry>, key: Key): Pair {
    var found := Find(entries, key);
    if found.Some? then found.value else NEW_PAIR
  }

  function Without(entries: seq<Entry>, key: Key): seq<Entry> {
    if entries == [] then []
    else if entries[0].key == key then entries[1..]
    else [entries[0]] + Without(entries[1..], key)
  }

  predicate Full(entries: seq<Entry>, key: Key) { Find(entries, key).None? && |entries| >= MAX_PAIRS }

  // A known pair is taken out to be put back last; a new one may cost the least recently seen its place.
  function MakeRoom(entries: seq<Entry>, key: Key): seq<Entry> {
    if Find(entries, key).Some? then Without(entries, key)
    else if Full(entries, key) && entries != [] then entries[1..]
    else entries
  }

  ghost function Count(entries: seq<Entry>, key: Key, e: Event): seq<Entry> {
    MakeRoom(entries, key) + [Entry(key, Step(Lookup(entries, key), e))]
  }

  // What a claim means for its operator's pair; the other checks say nothing.
  function EventOf(c: Identity.Claim, now: int): Option<Event> {
    match c.check
    case IpVerified => Some(Verified(now))
    case Forged => Some(ForgedClaim(now))
    case _ => None
  }

  ghost function CountClaim(entries: seq<Entry>, publisherId: string, c: Identity.Claim, now: int): seq<Entry> {
    var e := EventOf(c, now);
    if e.None? then entries else Count(entries, Key(publisherId, c.operatorId), e.value)
  }

  // Claims one by one; only an operator's first claim of a request is looked at.
  ghost function RecordClaims(entries: seq<Entry>, publisherId: string, claims: seq<Identity.Claim>, now: int,
                              seen: set<string>): seq<Entry>
    decreases |claims|
  {
    if claims == [] then entries
    else
      var c := claims[0];
      if c.operatorId in seen then RecordClaims(entries, publisherId, claims[1..], now, seen)
      else RecordClaims(CountClaim(entries, publisherId, c, now), publisherId, claims[1..], now, seen + {c.operatorId})
  }

  class MemoryArmingStore {
    var pairs: seq<Entry>

    constructor ()
      ensures pairs == []
    {
      pairs := [];
    }

    method IsArmed(publisherId: string, operatorId: string) returns (armed: bool)
      ensures armed == Lookup(pairs, Key(publisherId, operatorId)).armed
    {
      var found := Find(pairs, Key(publisherId, operatorId));
      return found.Some? && found.value.armed;
    }

    method RecordResult(publisherId: string, result: Identity.IdentityResult, now: int)
      modifies this
      ensures pairs == RecordClaims(old(pairs), publisherId, result.claims, now, {})
    {
      hide Step, Find, Without;
      var seen: set<string> := {};
      var i := 0;
      while i < |result.claims|
        invariant 0 <= i <= |result.claims|
        invariant RecordClaims(pairs, publisherId, result.claims[i..], now, seen)
               == RecordClaims(old(pairs), publisherId, result.claims, now, {})
      {
        var c := result.claims[i];
        assert result.claims[i..][0] == c && result.claims[i..][1..] == result.claims[i + 1..];
        i := i + 1;
        if c.operatorId !in seen {
          seen := seen + {c.operatorId};
          var e := EventOf(c, now);
          if e.Some? { RecordEvent(Key(publisherId, c.operatorId), e.value); }
        }
      }
    }

    method RecordEvent(key: Key, e: Event)
      modifies this
      ensures pairs == Count(old(pairs), key, e)
    {
      var found := Find(pairs, key);
      var pair := NEW_PAIR;
      if found.Some? {
        pair := found.value;
        pairs := Without(pairs, key);
      } else if |pairs| >= MAX_PAIRS && pairs != [] {
        pairs := pairs[1..];
      }
      pair := StepInPlace(pair, e);
      pairs := pairs + [Entry(key, pair)];
    }
  }

  // ---------- runs of the store ----------

  predicate DistinctKeys(entries: seq<Entry>) {
    forall i, j :: 0 <= i < j < |entries| ==> entries[i].key != entries[j].key
  }

  lemma {:induction false} WithoutIs(entries: seq<Entry>, key: Key, k: Key)
    requires DistinctKeys(entries)
    ensures Find(Without(entries, key), k) == if k == key then None else Find(entries, k)
    ensures DistinctKeys(Without(entries, key))
    ensures |Without(entries, key)| == |entries| - if Find(entries, key).Some? then 1 else 0
    ensures forall e :: e in Without(entries, key) ==> e in entries
  {
    if entries != [] {
      WithoutIs(entries[1..], key, k);
      if entries[0].key == key {
        NotFound(entries[1..], key);
      } else {
        var rest := Without(entries[1..], key);
        assert ([entries[0]] + rest)[1..] == rest;
        forall j | 0 <= j < |rest| ensures rest[j].key != entries[0].key {
          assert rest[j] in rest;
          var i :| 0 <= i < |entries[1..]| && entries[1..][i] == rest[j];
        }
      }
    }
  }

  lemma {:induction false} NotFound(entries: seq<Entry>, key: Key)
    ensures Find(entries, key).None? <==> forall k :: 0 <= k < |entries| ==> entries[k].key != key
  {
    if entries != [] {
      NotFound(entries[1..], key);
      assert forall k :: 1 <= k < |entries| ==> entries[k] == entries[1..][k - 1];
      assert forall k :: 0 <= k < |entries[1..]| ==> entries[1..][k] == entries[k + 1];
    }
  }

  lemma {:induction false} FindLast(entries: seq<Entry>, e: Entry, k: Key)
    ensures Find(entries + [e], k)
         == if Find(entries, k).Some? then Find(entries, k) else if e.key == k then Some(e.pair) else None
  {
    if entries == [] {
      assert (entries + [e])[1..] == [];
    } else {
      FindLast(entries[1..], e, k);
      assert (entries + [e])[1..] == entries[1..] + [e];
    }
  }

  // Counting an event gives its pair one step and leaves every other pair that is still held alone.
  lemma CountIs(entries: seq<Entry>, key: Key, e: Event, k: Key)
    requires Sound(entries)
    ensures Sound(Count(entries, key, e))
    ensures var after := Find(Count(entries, key, e), k);
      if k == key then after == Some(Step(Lookup(entries, key), e)) else after.Some? ==> after == Find(entries, k)
  {
    hide Step, Find, Without;
    var room := MakeRoom(entries, key);
    var last := Entry(key, Step(Lookup(entries, key), e));
    WithoutIs(entries, key, k);
    WithoutIs(entries, key, key);
    NotFound(entries, key);
    NotFound(room, key);
    FindLast(room, last, k);
    if entries != [] { FindHead(entries, k); }
  }

  lemma FindHead(entries: seq<Entry>, k: Key)
    requires entries != [] && DistinctKeys(entries)
    ensures Find(entries[1..], k) == if entries[0].key == k then None else Find(entries, k)
  {
    NotFound(entries[1..], k);
  }

  predicate Sound(entries: seq<Entry>) { DistinctKeys(entries) && |entries| <= MAX_PAIRS }

  // One event counted for one pair, and a run of them.
  datatype Seen = Seen(key: Key, event: Event)

  ghost function CountAll(entries: seq<Entry>, seen: seq<Seen>): seq<Entry> {
    if seen == [] then entries
    else
      var n := |seen| - 1;
      Count(CountAll(entries, seen[..n]), seen[n].key, seen[n].event)
  }

  lemma {:induction false} CountAllAppend(entries: seq<Entry>, a: seq<Seen>, b: seq<Seen>)
    ensures CountAll(entries, a + b) == CountAll(CountAll(entries, a), b)
    decreases |b|
  {
    hide Count;
    if b == [] {
      assert a + b == a;
    } else {
      var n := |b| - 1;
      assert (a + b)[..|a| + n] == a + b[..n];
      CountAllAppend(entries, a, b[..n]);
    }
  }

  // What a request's claims count: an operator's first claim, if it says something.
  function SeenClaims(publisherId: string, claims: seq<Identity.Claim>, now: int, done: set<string>): seq<Seen>
    decreases |claims|
  {
    if claims == [] then []
    else
      var c := claims[0];
      if c.operatorId in done then SeenClaims(publisherId, claims[1..], now, done)
      else
        var rest := SeenClaims(publisherId, claims[1..], now, done + {c.operatorId});
        var e := EventOf(c, now);
        if e.None? then rest else [Seen(Key(publisherId, c.operatorId), e.value)] + rest
  }

  lemma {:induction false} RecordCounts(entries: seq<Entry>, publisherId: string, claims: seq<Identity.Claim>, now: int,
                                        done: set<string>)
    ensures RecordClaims(entries, publisherId, claims, now, done)
         == CountAll(entries, SeenClaims(publisherId, claims, now, done))
    decreases |claims|
  {
    hide Count;
    if claims != [] {
      var c := claims[0];
      if c.operatorId in done {
        RecordCounts(entries, publisherId, claims[1..], now, done);
      } else {
        var next := CountClaim(entries, publisherId, c, now);
        RecordCounts(next, publisherId, claims[1..], now, done + {c.operatorId});
        if EventOf(c, now).Some? {
          var first := Seen(Key(publisherId, c.operatorId), EventOf(c, now).value);
          assert [first][..0] == [];
          CountAllAppend(entries, [first], SeenClaims(publisherId, claims[1..], now, done + {c.operatorId}));
        }
      }
    }
  }

  datatype Hit = Hit(publisherId: string, claims: seq<Identity.Claim>, at: int)

  ghost function RunStore(hits: seq<Hit>): seq<Entry> {
    if hits == [] then []
    else
      var h := hits[|hits| - 1];
      RecordClaims(RunStore(hits[..|hits| - 1]), h.publisherId, h.claims, h.at, {})
  }

  function SeenIn(hits: seq<Hit>): seq<Seen> {
    if hits == [] then []
    else
      var h := hits[|hits| - 1];
      SeenIn(hits[..|hits| - 1]) + SeenClaims(h.publisherId, h.claims, h.at, {})
  }

  lemma {:induction false} RunCounts(hits: seq<Hit>)
    ensures RunStore(hits) == CountAll([], SeenIn(hits))
  {
    if hits != [] {
      hide CountAll;
      var before, h := hits[..|hits| - 1], hits[|hits| - 1];
      RunCounts(before);
      RecordCounts(RunStore(before), h.publisherId, h.claims, h.at, {});
      CountAllAppend([], SeenIn(before), SeenClaims(h.publisherId, h.claims, h.at, {}));
    } else {
      assert SeenIn(hits) == [];
    }
  }

  // ---------- what is evicted ----------

  function Drop(keys: seq<Key>, key: Key): seq<Key> {
    if keys == [] then []
    else if keys[0] == key then keys[1..]
    else [keys[0]] + Drop(keys[1..], key)
  }

  // Every key seen, the least recently seen first.
  function Recency(seen: seq<Seen>): seq<Key> {
    if seen == [] then []
    else
      var n := |seen| - 1;
      Drop(Recency(seen[..n]), seen[n].key) + [seen[n].key]
  }

  function Newest(keys: seq<Key>): seq<Key> {
    if |keys| <= MAX_PAIRS then keys else keys[|keys| - MAX_PAIRS..]
  }

  function Keys(entries: seq<Entry>): seq<Key> { seq(|entries|, k requires 0 <= k < |entries| => entries[k].key) }

  predicate Distinct(keys: seq<Key>) { forall i, j :: 0 <= i < j < |keys| ==> keys[i] != keys[j] }

  lemma {:induction false} DropIs(keys: seq<Key>, key: Key)
    ensures key !in keys ==> Drop(keys, key) == keys
    ensures key in keys ==> |Drop(keys, key)| == |keys| - 1
    ensures Distinct(keys) ==> Distinct(Drop(keys, key)) && key !in Drop(keys, key)
    ensures forall k :: k in Drop(keys, key) ==> k in keys
  {
    if keys != [] {
      DropIs(keys[1..], key);
      var rest := Drop(keys[1..], key);
      assert keys == [keys[0]] + keys[1..];
      if Distinct(keys) && keys[0] != key {
        assert keys[0] !in keys[1..];
        assert keys[0] !in rest;
      }
    }
  }

  lemma {:induction false} DropInEnd(front: seq<Key>, end: seq<Key>, key: Key)
    requires key !in front
    ensures Drop(front + end, key) == front + Drop(end, key)
  {
    if front == [] {
      assert front + end == end;
    } else {
      assert (front + end)[1..] == front[1..] + end;
      DropInEnd(front[1..], end, key);
    }
  }

  lemma {:induction false} DropInFront(front: seq<Key>, end: seq<Key>, key: Key)
    requires key !in end
    ensures Drop(front + end, key) == Drop(front, key) + end
  {
    if front == [] {
      assert front + end == end;
      DropIs(end, key);
    } else {
      assert (front + end)[1..] == front[1..] + end;
      if front[0] != key { DropInFront(front[1..], end, key); }
    }
  }

  lemma {:induction false} KeysWithout(entries: seq<Entry>, key: Key)
    ensures Keys(Without(entries, key)) == Drop(Keys(entries), key)
    ensures Find(entries, key).Some? <==> key in Keys(entries)
  {
    if entries != [] {
      KeysWithout(entries[1..], key);
      assert Keys(entries)[1..] == Keys(entries[1..]);
      assert Keys(entries) == [entries[0].key] + Keys(entries[1..]);
      if entries[0].key != key { assert Without(entries, key) == [entries[0]] + Without(entries[1..], key); }
    }
  }

  lemma NewestIs(front: seq<Key>, end: seq<Key>)
    requires |end| == MAX_PAIRS || (front == [] && |end| <= MAX_PAIRS)
    ensures Newest(front + end) == end
  {
    assert (front + end)[|front|..] == end;
  }

  // Putting a key last keeps the newest keys the newest.
  lemma NewestStep(keys: seq<Key>, key: Key)
    requires Distinct(keys)
    ensures var held := Newest(keys);
      Newest(Drop(keys, key) + [key])
        == (if key in held then Drop(held, key) else if |held| < MAX_PAIRS then held else held[1..]) + [key]
  {
    var held := Newest(keys);
    var front := keys[..|keys| - |held|];
    assert keys == front + held;
    HeldOrNot(front, held, key);
  }

  lemma HeldOrNot(front: seq<Key>, held: seq<Key>, key: Key)
    requires Distinct(front + held) && (|held| == MAX_PAIRS || (front == [] && |held| <= MAX_PAIRS))
    ensures Newest(Drop(front + held, key) + [key])
         == (if key in held then Drop(held, key) else if |held| < MAX_PAIRS then held else held[1..]) + [key]
  {
    hide Drop, Newest;
    if key in held {
      FrontIsFree(front, held, key);
      DropInEnd(front, held, key);
      hide Distinct;
      DropIs(held, key);
      assert (front + Drop(held, key)) + [key] == front + (Drop(held, key) + [key]);
      NewestIs(front, Drop(held, key) + [key]);
    } else {
      hide Distinct;
      DropInFront(front, held, key);
      DropIs(front, key);
      var rest := Drop(front, key);
      if |held| < MAX_PAIRS {
        assert (rest + held) + [key] == [] + (held + [key]);
        NewestIs([], held + [key]);
      } else {
        assert (rest + held) + [key] == (rest + [held[0]]) + (held[1..] + [key]);
        NewestIs(rest + [held[0]], held[1..] + [key]);
      }
    }
  }

  lemma FrontIsFree(front: seq<Key>, held: seq<Key>, key: Key)
    requires Distinct(front + held) && key in held
    ensures key !in front
  {
    var both := front + held;
    var j :| 0 <= j < |held| && held[j] == key;
    assert both[|front| + j] == key;
    assert forall i :: 0 <= i < |front| ==> both[i] == front[i];
  }

  lemma KeysCount(entries: seq<Entry>, key: Key, e: Event)
    requires |entries| <= MAX_PAIRS
    ensures var keys := Keys(entries);
      Keys(Count(entries, key, e))
        == (if key in keys then Drop(keys, key) else if |keys| < MAX_PAIRS then keys else keys[1..]) + [key]
  {
    hide Drop, Step, Find, Without;
    KeysWithout(entries, key);
    var room := MakeRoom(entries, key);
    assert Keys(room + [Entry(key, Step(Lookup(entries, key), e))]) == Keys(room) + [key];
    if entries != [] { assert Keys(entries[1..]) == Keys(entries)[1..]; }
  }

  lemma AlsoDistinct(keys: seq<Key>, key: Key)
    requires Distinct(keys)
    ensures Distinct(Drop(keys, key) + [key])
  {
    hide Drop;
    DropIs(keys, key);
  }

  // The store holds exactly the pairs most recently seen, up to its limit.
  lemma {:induction false} HoldsTheNewest(seen: seq<Seen>)
    ensures Sound(CountAll([], seen)) && Distinct(Recency(seen))
    ensures Keys(CountAll([], seen)) == Newest(Recency(seen))
  {
    if seen != [] {
      hide Drop, Newest, Count, Distinct, DistinctKeys, Keys;
      var n := |seen| - 1;
      var before, key := CountAll([], seen[..n]), seen[n].key;
      HoldsTheNewest(seen[..n]);
      CountIs(before, key, seen[n].event, key);
      KeysCount(before, key, seen[n].event);
      NewestStep(Recency(seen[..n]), key);
      AlsoDistinct(Recency(seen[..n]), key);
    }
  }

  // ---------- what a pair remembers ----------

  // The events of a pair since it last was taken in.
  function Since(seen: seq<Seen>, key: Key): seq<Event> {
    if seen == [] then []
    else
      var n := |seen| - 1;
      if seen[n].key == key then Since(seen[..n], key) + [seen[n].event]
      else if key in Newest(Recency(seen)) then Since(seen[..n], key)
      else []
  }

  lemma RunSnoc(p: Pair, events: seq<Event>, e: Event)
    ensures Run(p, events + [e]) == Step(Run(p, events), e)
  {
    hide Step;
    RunSplits(p, events, [e]);
    assert [e][1..] == [];
  }

  lemma {:induction false} PairIsItsEvents(seen: seq<Seen>, key: Key)
    ensures var found := Find(CountAll([], seen), key);
      && (found.Some? <==> key in Newest(Recency(seen)))
      && (found.None? <==> Since(seen, key) == [])
      && (found.Some? ==> found.value == Run(NEW_PAIR, Since(seen, key)))
  {
    if seen == [] {
    } else {
      hide Recency, Newest, Step, Find, Run, Count;
      var n := |seen| - 1;
      PairIsItsEvents(seen[..n], key);
      HoldsTheNewest(seen[..n]);
      HoldsTheNewest(seen);
      KeysWithout(CountAll([], seen), key);
      CountIs(CountAll([], seen[..n]), seen[n].key, seen[n].event, key);
      RunSnoc(NEW_PAIR, Since(seen[..n], key), seen[n].event);
      NothingRun();
    }
  }

  lemma NothingRun()
    ensures Run(NEW_PAIR, []) == NEW_PAIR
  {
  }

  predicate HitsInOrder(hits: seq<Hit>, from: int) {
    && (forall i :: 0 <= i < |hits| ==> from <= hits[i].at)
    && (forall i, j :: 0 <= i < j < |hits| ==> hits[i].at <= hits[j].at)
  }

  predicate Ascending(events: seq<Event>, from: int) {
    && (forall i :: 0 <= i < |events| ==> from <= events[i].at)
    && (forall i, j :: 0 <= i < j < |events| ==> events[i].at <= events[j].at)
  }

  lemma {:induction false} AscendingInOrder(events: seq<Event>, from: int)
    requires Ascending(events, from)
    ensures InOrder(events, from)
  {
    if events != [] { AscendingInOrder(events[1..], events[0].at); }
  }

  lemma {:induction false} SeenAt(publisherId: string, claims: seq<Identity.Claim>, now: int, done: set<string>)
    ensures forall x :: x in SeenClaims(publisherId, claims, now, done) ==> x.event.at == now
    decreases |claims|
  {
    if claims != [] {
      var c := claims[0];
      SeenAt(publisherId, claims[1..], now, if c.operatorId in done then done else done + {c.operatorId});
    }
  }

  predicate SeenAscending(seen: seq<Seen>, from: int) {
    && (forall i :: 0 <= i < |seen| ==> from <= seen[i].event.at)
    && (forall i, j :: 0 <= i < j < |seen| ==> seen[i].event.at <= seen[j].event.at)
  }

  lemma SeenJoin(a: seq<Seen>, b: seq<Seen>, from: int, last: int, now: int)
    requires SeenAscending(a, from) && from <= now && last <= now
    requires (forall x :: x in a ==> x.event.at <= last) && (forall x :: x in b ==> x.event.at == now)
    ensures SeenAscending(a + b, from) && forall x :: x in a + b ==> x.event.at <= now
  {
    var both := a + b;
    forall k | 0 <= k < |both| ensures from <= both[k].event.at <= now && (k >= |a| ==> both[k].event.at == now) {
      assert k < |a| ==> both[k] == a[k] && a[k] in a;
      assert k >= |a| ==> both[k] == b[k - |a|] && b[k - |a|] in b;
    }
  }

  lemma {:induction false} SeenInOrder(hits: seq<Hit>, from: int)
    requires HitsInOrder(hits, from)
    ensures SeenAscending(SeenIn(hits), from)
    ensures hits != [] ==> forall x :: x in SeenIn(hits) ==> x.event.at <= hits[|hits| - 1].at
  {
    if hits != [] {
      hide SeenAscending;
      var before, h := hits[..|hits| - 1], hits[|hits| - 1];
      SeenInOrder(before, from);
      SeenAt(h.publisherId, h.claims, h.at, {});
      var last := if before == [] then from else before[|before| - 1].at;
      SeenJoin(SeenIn(before), SeenClaims(h.publisherId, h.claims, h.at, {}), from, last, h.at);
    } else {
      assert SeenIn(hits) == [];
    }
  }

  lemma {:induction false} SinceAscending(seen: seq<Seen>, key: Key, from: int)
    requires SeenAscending(seen, from)
    ensures Ascending(Since(seen, key), from)
    ensures seen != [] ==>
      forall k :: 0 <= k < |Since(seen, key)| ==> Since(seen, key)[k].at <= seen[|seen| - 1].event.at
  {
    hide Recency, Newest;
    if seen != [] { SinceAscending(seen[..|seen| - 1], key, from); }
  }

  // In every run, evictions included, a pair is armed exactly as the full list of its hits since it last
  // was taken in says; and it is held exactly while it is among the pairs most recently seen.
  lemma StoreFollowsHistory(hits: seq<Hit>, key: Key, from: int)
    requires HitsInOrder(hits, from)
    ensures Sound(RunStore(hits))
    ensures Find(RunStore(hits), key).Some? <==> key in Newest(Recency(SeenIn(hits)))
    ensures Lookup(RunStore(hits), key).armed <==> RefRun(NEW_RECORD, Since(SeenIn(hits), key)).armed
  {
    hide Find, Recency, Newest, RunStore, CountAll, Run, RefRun, Since;
    var seen := SeenIn(hits);
    RunCounts(hits);
    HoldsTheNewest(seen);
    PairIsItsEvents(seen, key);
    NothingRun();
    SeenInOrder(hits, from);
    SinceAscending(seen, key, from);
    AscendingInOrder(Since(seen, key), from);
    HistoryDecides(from, Since(seen, key));
  }

  // ---------- a store with room ----------

  // An operator's first claim decides what the request is to its pair.
  function FirstEvent(claims: seq<Identity.Claim>, operatorId: string, now: int): Option<Event> {
    if claims == [] then None
    else if claims[0].operatorId == operatorId then EventOf(claims[0], now)
    else FirstEvent(claims[1..], operatorId, now)
  }

  function HitEvents(h: Hit, key: Key): seq<Event> {
    var e := if h.publisherId != key.publisherId then None else FirstEvent(h.claims, key.operatorId, h.at);
    if e.Some? then [e.value] else []
  }

  // The part of a run one pair sees.
  function EventsFor(hits: seq<Hit>, key: Key): seq<Event> {
    if hits == [] then []
    else EventsFor(hits[..|hits| - 1], key) + HitEvents(hits[|hits| - 1], key)
  }

  function Picked(seen: seq<Seen>, key: Key): seq<Event> {
    if seen == [] then []
    else
      var n := |seen| - 1;
      Picked(seen[..n], key) + if seen[n].key == key then [seen[n].event] else []
  }

  lemma {:induction false} PickedAppend(a: seq<Seen>, b: seq<Seen>, key: Key)
    ensures Picked(a + b, key) == Picked(a, key) + Picked(b, key)
    decreases |b|
  {
    if b == [] {
      assert a + b == a;
    } else {
      var n := |b| - 1;
      assert (a + b)[..|a| + n] == a + b[..n];
      PickedAppend(a, b[..n], key);
    }
  }

  lemma {:induction false} PickedClaims(publisherId: string, claims: seq<Identity.Claim>, now: int, done: set<string>,
                                        key: Key)
    ensures var e := FirstEvent(claims, key.operatorId, now);
      Picked(SeenClaims(publisherId, claims, now, done), key)
        == if publisherId == key.publisherId && key.operatorId !in done && e.Some? then [e.value] else []
    decreases |claims|
  {
    if claims != [] {
      hide Picked;
      var c := claims[0];
      if c.operatorId in done {
        PickedClaims(publisherId, claims[1..], now, done, key);
      } else {
        PickedClaims(publisherId, claims[1..], now, done + {c.operatorId}, key);
        if EventOf(c, now).Some? {
          var first := Seen(Key(publisherId, c.operatorId), EventOf(c, now).value);
          PickedAppend([first], SeenClaims(publisherId, claims[1..], now, done + {c.operatorId}), key);
          PickedOne(first, key);
        }
      }
    } else {
      assert SeenClaims(publisherId, claims, now, done) == [];
    }
  }

  lemma PickedOne(x: Seen, key: Key)
    ensures Picked([x], key) == if x.key == key then [x.event] else []
  {
    assert [x][..0] == [];
  }

  lemma {:induction false} PickedIsEvents(hits: seq<Hit>, key: Key)
    ensures Picked(SeenIn(hits), key) == EventsFor(hits, key)
  {
    if hits != [] {
      hide Picked;
      var before, h := hits[..|hits| - 1], hits[|hits| - 1];
      PickedIsEvents(before, key);
      PickedAppend(SeenIn(before), SeenClaims(h.publisherId, h.claims, h.at, {}), key);
      PickedClaims(h.publisherId, h.claims, h.at, {}, key);
    } else {
      assert SeenIn(hits) == [];
    }
  }

  lemma RecencyGrows(seen: seq<Seen>)
    requires seen != []
    ensures |Recency(seen[..|seen| - 1])| <= |Recency(seen)|
    ensures forall k :: k in Recency(seen[..|seen| - 1]) ==> k in Recency(seen)
  {
    hide Drop;
    var n := |seen| - 1;
    DropIs(Recency(seen[..n]), seen[n].key);
    DropKeeps(Recency(seen[..n]), seen[n].key);
  }

  lemma {:induction false} DropKeeps(keys: seq<Key>, key: Key)
    ensures forall k :: k in keys && k != key ==> k in Drop(keys, key)
  {
    if keys != [] {
      DropKeeps(keys[1..], key);
      assert keys == [keys[0]] + keys[1..];
    }
  }

  lemma {:induction false} SinceIsPicked(seen: seq<Seen>, key: Key)
    requires |Recency(seen)| <= MAX_PAIRS
    ensures Since(seen, key) == Picked(seen, key)
  {
    if seen != [] {
      hide Recency;
      RecencyGrows(seen);
      SinceIsPicked(seen[..|seen| - 1], key);
      PairIsItsEvents(seen[..|seen| - 1], key);
    }
  }

  // While no more pairs than the limit have ever been seen, nothing is forgotten: a pair is armed exactly
  // as its own full history says, whatever other pairs the run touches.
  lemma NothingIsForgotten(hits: seq<Hit>, key: Key, from: int)
    requires HitsInOrder(hits, from) && |Recency(SeenIn(hits))| <= MAX_PAIRS
    ensures Lookup(RunStore(hits), key).armed <==> RefRun(NEW_RECORD, EventsFor(hits, key)).armed
  {
    hide Find, Recency, Newest, RunStore, Run, RefRun, Since;
    StoreFollowsHistory(hits, key, from);
    SinceIsPicked(SeenIn(hits), key);
    PickedIsEvents(hits, key);
  }
}
