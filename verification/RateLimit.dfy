/**
 The per-user request quota: fixed UTC minute and day windows advanced in place, and what they
 guarantee for every sequence of clock readings, including readings that go backwards.
 */
module RateLimit {
  import opened Common
  import Text

  /** Nanoseconds from the zero instant, which lies on a UTC day boundary. */
  type Time = int
  const ZERO_TIME: Time := 0
  const MINUTE := 60_000_000_000
  const DAY := 86_400_000_000_000

  datatype Limits = Limits(perMinute: nat, perDay: nat)
  datatype Error = ContextDone | UidRequired | UnsupportedSchema | NegativeCounter | InvalidWindow | Exceeded
  datatype Counter = Counter(minuteStart: Time, minuteCount: int, dayStart: Time, dayCount: int, schema: int)

  const EMPTY := Counter(ZERO_TIME, 0, ZERO_TIME, 0, 0)

  function MinuteOf(t: Time): Time { t - t % MINUTE }
  function DayOf(t: Time): Time { t - t % DAY }

  /** The counter after an accepted call, or the reason of the refusal. */
  function Advance(s: Counter, now: Time, limits: Limits): Result<Counter, Error> {
    var minute, day := MinuteOf(now), DayOf(now);
    if s.schema != 0 && s.schema != 1 then Err(UnsupportedSchema)
    else if s.minuteCount < 0 || s.dayCount < 0 then Err(NegativeCounter)
    else if s.schema == 1 && (s.minuteStart == ZERO_TIME || s.dayStart == ZERO_TIME
                              || s.minuteStart > minute || s.dayStart > day) then Err(InvalidWindow)
    else
      var minuteCount := if s.minuteStart == minute then s.minuteCount else 0;
      var dayCount := if s.dayStart == day then s.dayCount else 0;
      if minuteCount >= limits.perMinute || dayCount >= limits.perDay then Err(Exceeded)
      else Ok(Counter(minute, minuteCount + 1, day, dayCount + 1, 1))
  }

  class CounterState {
    var minuteStart: Time
    var minuteCount: int
    var dayStart: Time
    var dayCount: int
    var schema: int

    ghost function Abs(): Counter
      reads this
    {
      Counter(minuteStart, minuteCount, dayStart, dayCount, schema)
    }

    constructor (c: Counter)
      ensures Abs() == c
    {
      minuteStart, minuteCount, dayStart, dayCount, schema :=
        c.minuteStart, c.minuteCount, c.dayStart, c.dayCount, c.schema;
    }

    /** Rolls the windows forward in place before it counts the call. */
    method AdvanceInPlace(now: Time, limits: Limits) returns (error: Option<Error>)
      modifies this
      ensures error.None? <==> Advance(old(Abs()), now, limits).Ok?
      ensures error.None? ==> Advance(old(Abs()), now, limits) == Ok(Abs())
      ensures error.Some? ==> Advance(old(Abs()), now, limits) == Err(error.value)
    {
      var minute, day := MinuteOf(now), DayOf(now);
      if schema != 0 && schema != 1 {
        return Some(UnsupportedSchema);
      }
      if minuteCount < 0 || dayCount < 0 {
        return Some(NegativeCounter);
      }
      if schema == 1 && (minuteStart == ZERO_TIME || dayStart == ZERO_TIME
                         || minuteStart > minute || dayStart > day) {
        return Some(InvalidWindow);
      }
      if minuteStart != minute {
        minuteStart := minute;
        minuteCount := 0;
      }
      if dayStart != day {
        dayStart := day;
        dayCount := 0;
      }
      schema := 1;
      if minuteCount >= limits.perMinute || dayCount >= limits.perDay {
        return Some(Exceeded);
      }
      minuteCount := minuteCount + 1;
      dayCount := dayCount + 1;
      error := None;
    }
  }

  // ---------------------------------------------------------------- the limiter

  type Counters = map<string, Counter>

  function Lookup(counters: Counters, uid: string): Counter {
    if uid in counters then counters[uid] else EMPTY
  }

  /** A refused call leaves no trace. */
  function Consumed(counters: Counters, uid: string, now: Time, limits: Limits): Counters {
    match Advance(Lookup(counters, uid), now, limits)
    case Ok(c) => counters[uid := c]
    case Err(_) => counters
  }

  class MemoryLimiter {
    const limits: Limits
    var counters: Counters

    constructor (limits: Limits)
      ensures this.limits == limits && counters == map[]
    {
      this.limits := limits;
      counters := map[];
    }

    method Consume(contextDone: bool, uid: string, now: Time) returns (error: Option<Error>)
      modifies this
      ensures contextDone || Text.Blank(uid) ==>
        error == Some(if contextDone then ContextDone else UidRequired) && counters == old(counters)
      ensures !contextDone && !Text.Blank(uid) ==>
        && counters == Consumed(old(counters), uid, now, limits)
        && (error.None? <==> Advance(Lookup(old(counters), uid), now, limits).Ok?)
        && (error.Some? ==> Advance(Lookup(old(counters), uid), now, limits) == Err(error.value))
    {
      if contextDone {
        return Some(ContextDone);
      }
      if Text.Blank(uid) {
        return Some(UidRequired);
      }
      var state := new CounterState(Lookup(counters, uid));
      error := state.AdvanceInPlace(now, limits);
      if error.None? {
        counters := counters[uid := Counter(state.minuteStart, state.minuteCount, state.dayStart, state.dayCount,
          state.schema)];
      }
    }
  }

  // ---------------------------------------------------------------- one user's history

  /** The counter and the accepted instants after a user's calls, from the empty counter. */
  ghost function After(calls: seq<Time>, limits: Limits): (Counter, seq<Time>)
    decreases |calls|
  {
    if calls == [] then (EMPTY, [])
    else
      var n := |calls| - 1;
      var (c, accepted) := After(calls[..n], limits);
      match Advance(c, calls[n], limits)
      case Ok(c') => (c', accepted + [calls[n]])
      case Err(_) => (c, accepted)
  }

  ghost function Accepted(calls: seq<Time>, limits: Limits): seq<Time> {
    After(calls, limits).1
  }

  /** How many instants fall into the window `w` of the calendar `of`. */
  ghost function CountIn(ts: seq<Time>, of: Time -> Time, w: Time): nat {
    if ts == [] then 0
    else CountIn(ts[..|ts| - 1], of, w) + if of(ts[|ts| - 1]) == w then 1 else 0
  }

  ghost predicate NotAfter(ts: seq<Time>, of: Time -> Time, w: Time) {
    forall i :: 0 <= i < |ts| ==> of(ts[i]) <= w
  }

  lemma {:induction false} NothingLater(ts: seq<Time>, of: Time -> Time, start: Time, w: Time)
    requires NotAfter(ts, of, start) && start < w
    ensures CountIn(ts, of, w) == 0
    decreases |ts|
  {
    if ts != [] { NothingLater(ts[..|ts| - 1], of, start, w); }
  }

  lemma CountSnoc(ts: seq<Time>, t: Time, of: Time -> Time, w: Time)
    ensures CountIn(ts + [t], of, w) == CountIn(ts, of, w) + if of(t) == w then 1 else 0
  {
    assert (ts + [t])[..|ts|] == ts;
  }

  ghost predicate WithinLimit(ts: seq<Time>, of: Time -> Time, limit: nat) {
    forall w :: CountIn(ts, of, w) <= limit
  }

  /** One of the two windows: it is the latest one used, and it counts its accepted calls. */
  ghost predicate Tracks(start: Time, count: int, ts: seq<Time>, of: Time -> Time, limit: nat) {
    NotAfter(ts, of, start) && count == CountIn(ts, of, start) && WithinLimit(ts, of, limit)
  }

  /** Counting one more call in a window that has not gone back keeps it tracked. */
  lemma Tracked(start: Time, count: int, ts: seq<Time>, of: Time -> Time, limit: nat, t: Time)
    requires Tracks(start, count, ts, of, limit) && start <= of(t)
    requires (if start == of(t) then count else 0) < limit
    ensures CountIn(ts, of, of(t)) == if start == of(t) then count else 0
    ensures Tracks(of(t), (if start == of(t) then count else 0) + 1, ts + [t], of, limit)
  {
    if start < of(t) { NothingLater(ts, of, start, of(t)); }
    forall w ensures CountIn(ts + [t], of, w) <= limit { CountSnoc(ts, t, of, w); }
    CountSnoc(ts, t, of, of(t));
  }

  lemma ColdTracked(of: Time -> Time, limit: nat, t: Time)
    requires 0 < limit
    ensures Tracks(of(t), 1, [t], of, limit)
  {
    forall w ensures CountIn([t], of, w) <= limit { assert [t] == [] + [t]; CountSnoc([], t, of, w); }
    assert [t] == [] + [t];
    CountSnoc([], t, of, of(t));
  }

  ghost predicate HistoryInv(c: Counter, accepted: seq<Time>, limits: Limits) {
    if accepted == [] then c == EMPTY
    else
      && c.schema == 1
      && Tracks(c.minuteStart, c.minuteCount, accepted, MinuteOf, limits.perMinute)
      && Tracks(c.dayStart, c.dayCount, accepted, DayOf, limits.perDay)
  }

  lemma AdvanceKeepsHistory(c: Counter, accepted: seq<Time>, now: Time, limits: Limits)
    requires HistoryInv(c, accepted, limits) && Advance(c, now, limits).Ok?
    ensures HistoryInv(Advance(c, now, limits).value, accepted + [now], limits)
  {
    hide MinuteOf;
    hide DayOf;
    hide Tracks;
    if accepted == [] {
      assert accepted + [now] == [now];
      ColdTracked(MinuteOf, limits.perMinute, now);
      ColdTracked(DayOf, limits.perDay, now);
    } else {
      Tracked(c.minuteStart, c.minuteCount, accepted, MinuteOf, limits.perMinute, now);
      Tracked(c.dayStart, c.dayCount, accepted, DayOf, limits.perDay, now);
    }
  }

  lemma {:induction false} HistoryHolds(calls: seq<Time>, limits: Limits)
    ensures HistoryInv(After(calls, limits).0, After(calls, limits).1, limits)
    decreases |calls|
  {
    if calls != [] {
      var n := |calls| - 1;
      HistoryHolds(calls[..n], limits);
      var (c, accepted) := After(calls[..n], limits);
      hide HistoryInv;
      if Advance(c, calls[n], limits).Ok? {
        AdvanceKeepsHistory(c, accepted, calls[n], limits);
      }
    }
  }

  // ---------------------------------------------------------------- theorems

  /** No UTC minute or day ever holds more accepted calls than its limit, whatever the clock did. */
  lemma {:induction false} WindowBounds(calls: seq<Time>, limits: Limits)
    ensures WithinLimit(Accepted(calls, limits), MinuteOf, limits.perMinute)
    ensures WithinLimit(Accepted(calls, limits), DayOf, limits.perDay)
  {
    HistoryHolds(calls, limits);
  }

  ghost function CountBetween(ts: seq<Time>, from: Time, to: Time): nat {
    if ts == [] then 0
    else CountBetween(ts[..|ts| - 1], from, to) + if from <= ts[|ts| - 1] < to then 1 else 0
  }

  /** An interval no longer than a window touches at most two of its windows. */
  ghost predicate Covers(of: Time -> Time, from: Time, to: Time, w: Time, w': Time) {
    w != w' && forall t :: from <= t < to ==> of(t) == w || of(t) == w'
  }

  lemma {:induction false} TwoWindows(ts: seq<Time>, of: Time -> Time, from: Time, to: Time, w: Time, w': Time)
    requires Covers(of, from, to, w, w')
    ensures CountBetween(ts, from, to) <= CountIn(ts, of, w) + CountIn(ts, of, w')
    decreases |ts|
  {
    if ts != [] { TwoWindows(ts[..|ts| - 1], of, from, to, w, w'); }
  }

  lemma MinutesCover(t: Time, from: Time)
    requires from <= t < from + MINUTE
    ensures MinuteOf(t) == MinuteOf(from) || MinuteOf(t) == MinuteOf(from) + MINUTE
  {
  }

  lemma DaysCover(t: Time, from: Time)
    requires from <= t < from + DAY
    ensures DayOf(t) == DayOf(from) || DayOf(t) == DayOf(from) + DAY
  {
  }

  /** Any sliding 60 seconds, or 24 hours, holds at most twice the limit. */
  lemma {:induction false} SlidingBounds(calls: seq<Time>, limits: Limits, from: Time)
    ensures CountBetween(Accepted(calls, limits), from, from + MINUTE) <= 2 * limits.perMinute
    ensures CountBetween(Accepted(calls, limits), from, from + DAY) <= 2 * limits.perDay
  {
    var ts := Accepted(calls, limits);
    WindowBounds(calls, limits);
    assert Covers(MinuteOf, from, from + MINUTE, MinuteOf(from), MinuteOf(from) + MINUTE) by {
      forall t | from <= t < from + MINUTE
        ensures MinuteOf(t) == MinuteOf(from) || MinuteOf(t) == MinuteOf(from) + MINUTE { MinutesCover(t, from); }
    }
    assert Covers(DayOf, from, from + DAY, DayOf(from), DayOf(from) + DAY) by {
      forall t | from <= t < from + DAY
        ensures DayOf(t) == DayOf(from) || DayOf(t) == DayOf(from) + DAY { DaysCover(t, from); }
    }
    hide MinuteOf;
    hide DayOf;
    TwoWindows(ts, MinuteOf, from, from + MINUTE, MinuteOf(from), MinuteOf(from) + MINUTE);
    TwoWindows(ts, DayOf, from, from + DAY, DayOf(from), DayOf(from) + DAY);
  }

  /** One of the two windows lies before that of the last accepted call. */
  ghost predicate Regressed(accepted: seq<Time>, now: Time) {
    accepted != [] &&
    var last := accepted[|accepted| - 1];
    MinuteOf(now) < MinuteOf(last) || DayOf(now) < DayOf(last)
  }

  /** One of the two windows holds all the calls it may. */
  ghost predicate Full(accepted: seq<Time>, now: Time, limits: Limits) {
    || CountIn(accepted, MinuteOf, MinuteOf(now)) >= limits.perMinute
    || CountIn(accepted, DayOf, DayOf(now)) >= limits.perDay
  }

  /** The last accepted call left a window that starts at the zero instant, which validation takes for damage. */
  ghost predicate Stuck(accepted: seq<Time>) {
    accepted != [] &&
    var last := accepted[|accepted| - 1];
    MinuteOf(last) == ZERO_TIME || DayOf(last) == ZERO_TIME
  }

  lemma {:induction false} StoredWindowIsLast(calls: seq<Time>, limits: Limits)
    ensures var (c, accepted) := After(calls, limits);
      accepted != [] ==>
        c.minuteStart == MinuteOf(accepted[|accepted| - 1]) && c.dayStart == DayOf(accepted[|accepted| - 1])
    decreases |calls|
  {
    if calls != [] {
      StoredWindowIsLast(calls[..|calls| - 1], limits);
    }
  }

  /**
   A call is accepted exactly when the counter is not stuck at the zero instant, the call's windows
   have not gone back, and neither of them is full.
   */
  lemma {:induction false} AcceptedIff(calls: seq<Time>, limits: Limits, now: Time)
    ensures var accepted := Accepted(calls, limits);
      Advance(After(calls, limits).0, now, limits).Ok?
      <==> && !Stuck(accepted) && !Regressed(accepted, now)
           && CountIn(accepted, MinuteOf, MinuteOf(now)) < limits.perMinute
           && CountIn(accepted, DayOf, DayOf(now)) < limits.perDay
  {
    HistoryHolds(calls, limits);
    StoredWindowIsLast(calls, limits);
    var (c, accepted) := After(calls, limits);
    hide MinuteOf;
    hide DayOf;
    hide After;
    if accepted != [] && !Stuck(accepted) && !Regressed(accepted, now) {
      if c.minuteStart < MinuteOf(now) { NothingLater(accepted, MinuteOf, c.minuteStart, MinuteOf(now)); }
      if c.dayStart < DayOf(now) { NothingLater(accepted, DayOf, c.dayStart, DayOf(now)); }
    }
  }

  /** Why a call is refused: for its windows' sake, or because one of them is full; there is no other reason. */
  lemma {:induction false} RefusedBecause(calls: seq<Time>, limits: Limits, now: Time)
    ensures var accepted := Accepted(calls, limits);
      var verdict := Advance(After(calls, limits).0, now, limits);
      && (verdict == Err(InvalidWindow) <==> Stuck(accepted) || Regressed(accepted, now))
      && (verdict == Err(Exceeded) <==> !Stuck(accepted) && !Regressed(accepted, now) && Full(accepted, now, limits))
      && (verdict.Ok? || verdict == Err(InvalidWindow) || verdict == Err(Exceeded))
  {
    HistoryHolds(calls, limits);
    StoredWindowIsLast(calls, limits);
    AcceptedIff(calls, limits, now);
    hide MinuteOf;
    hide DayOf;
    hide After;
  }

  /** Once stuck, a counter refuses every later call, at any clock reading. */
  lemma {:induction false} StuckForever(calls: seq<Time>, more: seq<Time>, limits: Limits)
    requires Stuck(Accepted(calls, limits))
    ensures Accepted(calls + more, limits) == Accepted(calls, limits)
    decreases |more|
  {
    if more == [] {
      assert calls + more == calls;
    } else {
      var n := |more| - 1;
      StuckForever(calls, more[..n], limits);
      AcceptedIff(calls + more[..n], limits, more[n]);
      assert (calls + more)[..|calls + more| - 1] == calls + more[..n];
      hide Advance;
    }
  }

  /** It happens: one call in the first minute of the calendar is accepted, and none after it. */
  lemma ZeroInstantSticks(limits: Limits, more: seq<Time>)
    requires limits.perMinute > 0 && limits.perDay > 0
    ensures Accepted([ZERO_TIME] + more, limits) == [ZERO_TIME]
  {
    assert [ZERO_TIME][..0] == [] && After([], limits) == (EMPTY, []);
    assert Advance(EMPTY, ZERO_TIME, limits).Ok?;
    assert After([ZERO_TIME], limits).1 == [] + [ZERO_TIME];
    StuckForever([ZERO_TIME], more, limits);
  }

  // ---------------------------------------------------------------- users do not interfere

  datatype Call = Call(uid: string, now: Time)

  ghost function ConsumeAll(calls: seq<Call>, limits: Limits): Counters
    decreases |calls|
  {
    if calls == [] then map[]
    else
      var n := |calls| - 1;
      Consumed(ConsumeAll(calls[..n], limits), calls[n].uid, calls[n].now, limits)
  }

  ghost function TimesOf(calls: seq<Call>, uid: string): seq<Time>
    decreases |calls|
  {
    if calls == [] then []
    else
      var n := |calls| - 1;
      if calls[n].uid == uid then TimesOf(calls[..n], uid) + [calls[n].now] else TimesOf(calls[..n], uid)
  }

  ghost function Next(c: Counter, now: Time, limits: Limits): Counter {
    match Advance(c, now, limits) case Ok(c') => c' case Err(_) => c
  }

  lemma AfterOneMore(times: seq<Time>, now: Time, limits: Limits)
    ensures After(times + [now], limits).0 == Next(After(times, limits).0, now, limits)
  {
    hide Advance;
    assert (times + [now])[..|times|] == times;
  }

  lemma ConsumedAt(counters: Counters, call: Call, limits: Limits, uid: string)
    ensures Lookup(Consumed(counters, call.uid, call.now, limits), uid)
         == if call.uid == uid then Next(Lookup(counters, uid), call.now, limits) else Lookup(counters, uid)
  {
    hide Advance;
  }

  /** Each user's counter is what that user's own calls alone would have produced. */
  lemma {:induction false} UsersAreIndependent(calls: seq<Call>, limits: Limits, uid: string)
    ensures Lookup(ConsumeAll(calls, limits), uid) == After(TimesOf(calls, uid), limits).0
    decreases |calls|
  {
    if calls != [] {
      hide After;
      hide Consumed;
      hide Next;
      hide Lookup;
      var n := |calls| - 1;
      UsersAreIndependent(calls[..n], limits, uid);
      ConsumedAt(ConsumeAll(calls[..n], limits), calls[n], limits, uid);
      if calls[n].uid == uid {
        AfterOneMore(TimesOf(calls[..n], uid), calls[n].now, limits);
      }
    }
  }
}
