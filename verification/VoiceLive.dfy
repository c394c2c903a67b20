/**
 The live connection handler: it holds a lease of fixed duration, starts one pipeline, and decides at
 shutdown when the lease may be released.
 */
module VoiceLive {
  import opened Common
  import opened Lease
  import Text

  /** Seven minutes: the connection time-out and one more. */
  const LEASE_TTL := 420_000_000_000

  datatype Pipeline = NotStarted | Running | Ended

  /** One connection that was granted a lease; `finished` once its handler has returned. */
  datatype Connection = Connection(uid: string, openedAt: Time, expiresAt: Time, pipeline: Pipeline, finished: bool)

  /** Connections are told apart by their random holder tokens. */
  datatype Server = Server(leases: Leases, connections: map<string, Connection>)

  const NO_CONNECTIONS := Server(map[], map[])

  /**
   `Finish` is the deferred shutdown of a handler: it waits for a started pipeline until it ends or
   the join times out.  A pipeline left behind may end at any later moment.
   */
  datatype Action =
    | Connect(uid: string, now: Time, holder: string)
    | Start(holder: string)
    | EndPipeline(holder: string)
    | Finish(holder: string, timedOut: bool, releaseTimedOut: bool)

  /** A connection as its acquire leaves it. */
  function Opened(uid: string, now: Time): Connection {
    Connection(uid, now, now + LEASE_TTL, NotStarted, false)
  }

  predicate CanFinish(s: Server, holder: string, timedOut: bool) {
    && holder in s.connections && !s.connections[holder].finished
    && (s.connections[holder].pipeline.Running? ==> timedOut)
  }

  /** What the lease manager sees of an action. */
  function Emitted(s: Server, a: Action): Event {
    match a
    case Connect(uid, now, holder) =>
      if Text.Blank(uid) || holder in s.connections then Idle else Acquire(uid, now, LEASE_TTL, holder)
    case Finish(holder, timedOut, releaseTimedOut) =>
      if CanFinish(s, holder, timedOut) && !releaseTimedOut && (s.connections[holder].pipeline.NotStarted? || !timedOut)
      then Release(s.connections[holder].uid, holder) else Idle
    case _ => Idle
  }

  function Reconnected(s: Server, a: Action): map<string, Connection> {
    match a
    case Connect(uid, now, holder) =>
      if Granted(s.leases, Emitted(s, a))
      then s.connections[holder := Opened(uid, now)] else s.connections
    case Start(holder) =>
      if holder in s.connections && !s.connections[holder].finished && s.connections[holder].pipeline.NotStarted?
      then s.connections[holder := s.connections[holder].(pipeline := Running)] else s.connections
    case EndPipeline(holder) =>
      if holder in s.connections && s.connections[holder].pipeline.Running?
      then s.connections[holder := s.connections[holder].(pipeline := Ended)] else s.connections
    case Finish(holder, timedOut, _) =>
      if CanFinish(s, holder, timedOut)
      then s.connections[holder := s.connections[holder].(finished := true)] else s.connections
  }

  function Serve(s: Server, a: Action): Server {
    Server(Step(s.leases, Emitted(s, a)), Reconnected(s, a))
  }

  class VoiceLiveServer {
    const manager: MemoryVoiceLiveLeaseManager
    var connections: map<string, Connection>

    ghost function Abs(): Server
      reads this, manager
    {
      Server(manager.leases, connections)
    }

    constructor ()
      ensures Abs() == NO_CONNECTIONS && fresh(manager)
    {
      manager := new MemoryVoiceLiveLeaseManager();
      connections := map[];
    }

    method Open(contextDone: bool, uid: string, now: Time, holder: string) returns (ok: bool)
      requires holder !in connections
      modifies this, manager
      ensures Abs() == if contextDone then old(Abs()) else Serve(old(Abs()), Connect(uid, now, holder))
      ensures ok == (holder in connections)
    {
      var lease := manager.Acquire(contextDone, uid, now, LEASE_TTL, holder);
      if lease.Err? {
        return false;
      }
      connections := connections[holder := Opened(uid, now)];
      ok := true;
    }

    method StartPipeline(holder: string)
      requires holder in connections && !connections[holder].finished && connections[holder].pipeline.NotStarted?
      modifies this
      ensures Abs() == Serve(old(Abs()), Start(holder))
    {
      connections := connections[holder := connections[holder].(pipeline := Running)];
    }

    method PipelineEnds(holder: string)
      requires holder in connections && connections[holder].pipeline.Running?
      modifies this
      ensures Abs() == Serve(old(Abs()), EndPipeline(holder))
    {
      connections := connections[holder := connections[holder].(pipeline := Ended)];
    }

    /** Waiting for a running pipeline can only end by the time-out. */
    method FinishConnection(holder: string, timedOut: bool, releaseTimedOut: bool)
      requires CanFinish(Abs(), holder, timedOut)
      modifies this, manager
      ensures Abs() == Serve(old(Abs()), Finish(holder, timedOut, releaseTimedOut))
    {
      var c := connections[holder];
      connections := connections[holder := c.(finished := true)];
      manager.FinishVoiceLive(c.uid, holder, !c.pipeline.NotStarted?, !timedOut, releaseTimedOut);
    }
  }

  ghost function ServerAt(actions: seq<Action>, k: nat): Server
    requires k <= |actions|
  {
    if k == 0 then NO_CONNECTIONS else Serve(ServerAt(actions, k - 1), actions[k - 1])
  }

  /** The lease events of a run of the server. */
  ghost function Trace(actions: seq<Action>): (events: seq<Event>)
    ensures |events| == |actions|
  {
    seq(|actions|, k requires 0 <= k < |actions| => Emitted(ServerAt(actions, k), actions[k]))
  }

  lemma TraceAt(actions: seq<Action>, k: nat)
    requires k < |actions|
    ensures Trace(actions)[k] == Emitted(ServerAt(actions, k), actions[k])
  {
    hide ServerAt;
    hide Emitted;
  }

  lemma {:induction false} TraceLeases(actions: seq<Action>, k: nat)
    requires k <= |actions|
    ensures At(Trace(actions), k) == ServerAt(actions, k).leases
    decreases k
  {
    hide Trace;
    hide Step;
    hide Emitted;
    hide Reconnected;
    if k > 0 {
      TraceLeases(actions, k - 1);
      TraceAt(actions, k - 1);
    }
  }

  /** A returned handler whose pipeline is not running; it stays that way. */
  ghost predicate Retired(s: Server, holder: string) {
    holder in s.connections && s.connections[holder].finished && !s.connections[holder].pipeline.Running?
  }

  lemma {:induction false} RetiredForever(actions: seq<Action>, k: nat, l: nat, holder: string)
    requires k <= l <= |actions| && Retired(ServerAt(actions, k), holder)
    ensures Retired(ServerAt(actions, l), holder)
    decreases l
  {
    if k < l {
      RetiredForever(actions, k, l - 1, holder);
      hide Step;
    }
  }

  /** A lease is never released while its pipeline runs, and no pipeline runs under it afterwards. */
  lemma {:induction false} ReleaseEndsThePipeline(actions: seq<Action>, k: nat, l: nat, uid: string, holder: string)
    requires k < l <= |actions| && Trace(actions)[k] == Release(uid, holder)
    ensures holder in ServerAt(actions, k).connections && !ServerAt(actions, k).connections[holder].pipeline.Running?
    ensures Retired(ServerAt(actions, l), holder)
  {
    hide Trace;
    TraceAt(actions, k);
    ReleaseRetires(ServerAt(actions, k), actions[k], uid, holder);
    hide Serve;
    hide Emitted;
    hide Retired;
    RetiredForever(actions, k + 1, l, holder);
  }

  lemma ReleaseRetires(s: Server, a: Action, uid: string, holder: string)
    requires Emitted(s, a) == Release(uid, holder)
    ensures holder in s.connections && !s.connections[holder].pipeline.Running? && Retired(Serve(s, a), holder)
  {
    hide Step;
  }

  /** An action makes a connection only by a granted acquire, and never changes its lease terms. */
  lemma Introduced(s: Server, a: Action, holder: string)
    requires holder in Reconnected(s, a)
    ensures var c := Reconnected(s, a)[holder];
      if holder in s.connections then
        var d := s.connections[holder];
        c.uid == d.uid && c.openedAt == d.openedAt && c.expiresAt == d.expiresAt
      else
        var e := Emitted(s, a);
        && Granted(s.leases, e) && e.uid == c.uid && e.holder == holder
        && c.openedAt == e.now && c.expiresAt == LeaseOf(e).expiresAt
  {
    hide Judge;
  }

  /** Every connection goes back to the one grant that made it. */
  lemma {:induction false} ConnectionWasGranted(actions: seq<Action>, k: nat, holder: string) returns (g: nat)
    requires k <= |actions| && holder in ServerAt(actions, k).connections
    ensures var c := ServerAt(actions, k).connections[holder];
      && g < k && GrantAt(Trace(actions), g, c.uid) && Trace(actions)[g].holder == holder
      && c.openedAt == Trace(actions)[g].now && c.expiresAt == LeaseOf(Trace(actions)[g]).expiresAt
    decreases k
  {
    hide Trace;
    TraceLeases(actions, k - 1);
    TraceAt(actions, k - 1);
    Introduced(ServerAt(actions, k - 1), actions[k - 1], holder);
    hide Step;
    hide Granted;
    hide Emitted;
    hide Reconnected;
    hide At;
    hide LeaseOf;
    if holder in ServerAt(actions, k - 1).connections {
      g := ConnectionWasGranted(actions, k - 1, holder);
    } else {
      g := k - 1;
    }
  }

  /** Every lease of the server runs for the same time. */
  lemma TraceDuration(actions: seq<Action>, k: nat)
    requires k < |actions| && Trace(actions)[k].Acquire?
    ensures Trace(actions)[k].ttl == LEASE_TTL
  {
    hide Trace;
    hide ServerAt;
    TraceAt(actions, k);
  }

  /** At `k` the pipelines of two connections run together; the lease of `older` was granted first. */
  ghost predicate Overlap(
    actions: seq<Action>, k: nat, uid: string, older: string, newer: string, g: nat, l: nat)
  {
    && g < l < k <= |actions|
    && GrantAt(Trace(actions), g, uid) && Trace(actions)[g].holder == older
    && GrantAt(Trace(actions), l, uid) && Trace(actions)[l].holder == newer
    && RunsAt(actions, k, older) && RunsAt(actions, k, newer)
  }

  ghost predicate RunsAt(actions: seq<Action>, k: nat, holder: string)
    requires k <= |actions|
  {
    var connections := ServerAt(actions, k).connections;
    holder in connections && connections[holder].pipeline.Running?
  }

  /** Any two running pipelines of one user are such a pair, one way round. */
  lemma {:induction false} OverlapHasOrder(actions: seq<Action>, k: nat, uid: string, a: string, b: string)
    returns (older: string, newer: string, g: nat, l: nat)
    requires k <= |actions| && a != b && RunsAt(actions, k, a) && RunsAt(actions, k, b)
    requires ServerAt(actions, k).connections[a].uid == uid == ServerAt(actions, k).connections[b].uid
    ensures {older, newer} == {a, b} && Overlap(actions, k, uid, older, newer, g, l)
  {
    hide Trace;
    var i := ConnectionWasGranted(actions, k, a);
    var j := ConnectionWasGranted(actions, k, b);
    hide ServerAt;
    hide GrantAt;
    if i < j {
      older, newer, g, l := a, b, i, j;
    } else {
      older, newer, g, l := b, a, j, i;
    }
  }

  /** Exactly when a connection is made. */
  lemma ConnectIff(s: Server, uid: string, now: Time, holder: string)
    requires holder !in s.connections
    ensures var t := Serve(s, Connect(uid, now, holder));
      && (holder in t.connections
          <==> !Text.Blank(uid) && (uid in s.leases ==>
                 s.leases[uid].expiresAt != ZERO_TIME && s.leases[uid].expiresAt <= now))
      && (holder in t.connections ==>
            && t.connections[holder] == Connection(uid, now, now + LEASE_TTL, NotStarted, false)
            && t.leases == s.leases[uid := LeaseState(holder, now + LEASE_TTL, SCHEMA)])
      && (holder !in t.connections ==> t == s)
  {
  }

  /** Exactly when a handler that returns gives its lease back: unless it leaves a pipeline or a call behind. */
  lemma FinishFreesTheSlot(s: Server, holder: string, timedOut: bool, releaseTimedOut: bool)
    requires CanFinish(s, holder, timedOut)
    ensures var c, t := s.connections[holder], Serve(s, Finish(holder, timedOut, releaseTimedOut));
      && t.connections == s.connections[holder := c.(finished := true)]
      && (c.uid in s.leases && s.leases[c.uid].holder == holder ==>
            if releaseTimedOut || (!c.pipeline.NotStarted? && timedOut) then t.leases == s.leases
            else t.leases == s.leases - {c.uid})
      && (c.uid in s.leases ==> s.leases[c.uid].holder == holder || t.leases == s.leases)
  {
  }

  // ---------------------------------------------------------------- overlapping pipelines

  /** Between two readings there is one at which a lease of the first has run out, and the second lies before that. */
  ghost predicate Lapse(ts: seq<Time>, i: nat, m: nat, j: nat) {
    i < m < j < |ts| && ts[i] + LEASE_TTL != ZERO_TIME && ts[j] < ts[i] + LEASE_TTL <= ts[m]
  }

  /** No reading goes back behind an expiry that an earlier one has already seen. */
  ghost predicate LapseFree(ts: seq<Time>) {
    forall i, m, j :: !Lapse(ts, i, m, j)
  }

  lemma SupersededIsLapse(events: seq<Event>, g: nat, m: nat, l: nat, uid: string)
    requires LapseFree(Readings(events, uid)) && g < m < l < |events|
    requires events[g].Acquire? && events[g].uid == uid && events[g].ttl == LEASE_TTL
    requires events[l].Acquire? && events[l].uid == uid && SupersededBy(events, g, m, uid)
    ensures LeaseOf(events[g]).expiresAt <= events[l].now
  {
    ReadingAt(events, g, uid);
    ReadingAt(events, m, uid);
    ReadingAt(events, l, uid);
    RanksGrow(events, g, m, uid);
    RanksGrow(events, m, l, uid);
    assert !Lapse(Readings(events, uid), Rank(events, g, uid), Rank(events, m, uid), Rank(events, l, uid));
  }

  /**
   In every run of the server whose readings do not lapse, two pipelines of one user run at the same
   time only if the older had outlived its lease when the newer got its own: early disconnects,
   time-outs and lost releases included.
   */
  lemma {:induction false} OverlapNeedsExpiry(
    actions: seq<Action>, k: nat, uid: string, older: string, newer: string, g: nat, l: nat)
    requires LapseFree(Readings(Trace(actions), uid)) && Overlap(actions, k, uid, older, newer, g, l)
    ensures LeaseOf(Trace(actions)[g]).expiresAt <= Trace(actions)[l].now
  {
    hide Trace;
    hide LapseFree;
    hide At;
    hide ServerAt;
    var events := Trace(actions);
    LeasePersists(events, g, l, uid);
    TraceDuration(actions, g);
    if ReleasedBetween(events, g, l, uid, older) {
      var r :| g < r < l && events[r] == Release(uid, older);
      ReleaseEndsThePipeline(actions, r, k, uid, older);
    } else if m :| g < m < l && SupersededBy(events, g, m, uid) {
      SupersededIsLapse(events, g, m, l, uid);
    }
  }

  /** A clock that never goes back does not lapse. */
  lemma SteadyClock(ts: seq<Time>)
    requires NeverBack(ts)
    ensures LapseFree(ts)
  {
  }

  /** Nor do readings 100, 200, 120 seconds: nothing expires between them. */
  lemma ShortStepBack()
    ensures LapseFree([100_000_000_000, 200_000_000_000, 120_000_000_000])
    ensures !PeakFree([100_000_000_000, 200_000_000_000, 120_000_000_000])
  {
    assert Peak([100_000_000_000, 200_000_000_000, 120_000_000_000], 0, 1, 2);
  }

  // ---------------------------------------------------------------- a lapse makes pipelines overlap

  ghost predicate OverlapsAreExpired(actions: seq<Action>, uid: string) {
    forall k: nat, older: string, newer: string, g: nat, l: nat :: Overlap(actions, k, uid, older, newer, g, l) ==>
      LeaseOf(Trace(actions)[g]).expiresAt <= Trace(actions)[l].now
  }

  ghost function ServerEnd(actions: seq<Action>): Server {
    ServerAt(actions, |actions|)
  }

  lemma {:induction false} ServerPrefix(a: seq<Action>, b: seq<Action>, k: nat)
    requires a <= b && k <= |a|
    ensures ServerAt(a, k) == ServerAt(b, k)
    decreases k
  {
    hide Serve;
    if k > 0 { ServerPrefix(a, b, k - 1); }
  }

  lemma OneMoreAction(actions: seq<Action>, a: Action)
    ensures ServerEnd(actions + [a]) == Serve(ServerEnd(actions), a)
    ensures Trace(actions + [a]) == Trace(actions) + [Emitted(ServerEnd(actions), a)]
  {
    hide Serve;
    hide Emitted;
    ServerPrefix(actions, actions + [a], |actions|);
    forall k | 0 <= k <= |actions|
      ensures Trace(actions + [a])[k] == (Trace(actions) + [Emitted(ServerEnd(actions), a)])[k]
    {
      TraceAt(actions + [a], k);
      ServerPrefix(actions, actions + [a], k);
      if k < |actions| { TraceAt(actions, k); }
    }
    hide Trace;
  }

  /** Every connection leaves at once, except those of the readings `i` and `j`, which stay. */
  function Closing(i: nat, j: nat, k: nat): Action {
    if k == i || k == j then EndPipeline(Holder(k)) else Finish(Holder(k), false, false)
  }

  function Rounds(uid: string, ts: seq<Time>, i: nat, j: nat, k: nat): (actions: seq<Action>)
    requires k <= |ts|
    ensures |actions| == k + k
  {
    if k == 0 then []
    else Rounds(uid, ts, i, j, k - 1) + [Connect(uid, ts[k - 1], Holder(k - 1))] + [Closing(i, j, k - 1)]
  }

  function LapseRun(uid: string, ts: seq<Time>, i: nat, j: nat): seq<Action> {
    Rounds(uid, ts, i, j, |ts|) + [Start(Holder(i))] + [Start(Holder(j))]
  }

  /** Who is connected before round `k`: all idle, the two that stay among them, and nobody from later rounds. */
  ghost predicate Connected(s: Server, uid: string, ts: seq<Time>, i: nat, j: nat, k: nat)
    requires i < j < |ts|
  {
    && (forall n: nat :: n >= k ==> Holder(n) !in s.connections)
    && (forall h :: h in s.connections ==> s.connections[h].pipeline.NotStarted?)
    && (i < k ==> Holder(i) in s.connections && s.connections[Holder(i)] == Opened(uid, ts[i]))
    && (j < k ==> Holder(j) in s.connections && s.connections[Holder(j)] == Opened(uid, ts[j]))
  }

  function StayingLease(ts: seq<Time>, i: nat): LeaseState
    requires i < |ts|
  {
    LeaseState(Holder(i), ts[i] + LEASE_TTL, SCHEMA)
  }

  /** The lease map before round `k`: empty, but for the first staying lease until it has lapsed. */
  ghost predicate Leased(s: Server, uid: string, ts: seq<Time>, i: nat, m: nat, j: nat, k: nat)
    requires i < m < j < |ts|
  {
    if i < k <= m then s.leases == map[] || s.leases == map[uid := StayingLease(ts, i)]
    else k <= j ==> s.leases == map[]
  }

  lemma HoldersDiffer(k: nat, l: nat)
    ensures Holder(k) == Holder(l) <==> k == l
  {
    assert |Holder(k)| == k && |Holder(l)| == l;
  }

  /** A new connection emits an acquire; on an empty lease map it is granted. */
  lemma NewConnection(s: Server, uid: string, now: Time, holder: string)
    requires !Text.Blank(uid) && holder !in s.connections
    ensures var x := Connect(uid, now, holder);
      && Emitted(s, x) == Acquire(uid, now, LEASE_TTL, holder)
      && (s.leases == map[] ==>
            Serve(s, x) == Server(map[uid := LeaseState(holder, now + LEASE_TTL, SCHEMA)],
                                  s.connections[holder := Opened(uid, now)]))
  {
  }

  /** A connection that leaves at once without a pipeline gives its own lease back and nothing else. */
  lemma LeavingRound(s: Server, uid: string, now: Time, holder: string)
    requires !Text.Blank(uid) && holder !in s.connections
    ensures var t := Serve(Serve(s, Connect(uid, now, holder)), Finish(holder, false, false));
      && (s.leases == map[] ==> t.leases == map[])
      && (t.connections == s.connections
          || t.connections == s.connections[holder := Opened(uid, now).(finished := true)])
  {
    NewConnection(s, uid, now, holder);
  }

  /** It takes over a lease that has lapsed, and is refused before. */
  lemma LapsedRound(s: Server, uid: string, now: Time, holder: string, held: LeaseState)
    requires !Text.Blank(uid) && holder !in s.connections
    requires s.leases == map[uid := held] && held.expiresAt != ZERO_TIME
    ensures var t := Serve(Serve(s, Connect(uid, now, holder)), Finish(holder, false, false));
      if held.expiresAt <= now then t.leases == map[] else t.leases == s.leases
  {
    NewConnection(s, uid, now, holder);
    var x := Connect(uid, now, holder);
    if held.expiresAt <= now {
      assert Serve(s, x).leases == map[uid := LeaseState(holder, now + LEASE_TTL, SCHEMA)];
    }
  }

  /** Ending a pipeline that never started changes nothing. */
  lemma StayingRound(s: Server, uid: string, now: Time, holder: string)
    requires !Text.Blank(uid) && holder !in s.connections && s.leases == map[]
    ensures Serve(Serve(s, Connect(uid, now, holder)), EndPipeline(holder))
         == Server(map[uid := LeaseState(holder, now + LEASE_TTL, SCHEMA)], s.connections[holder := Opened(uid, now)])
  {
    NewConnection(s, uid, now, holder);
  }

  function AfterRound(s: Server, uid: string, ts: seq<Time>, i: nat, j: nat, k: nat): Server
    requires k < |ts|
  {
    Serve(Serve(s, Connect(uid, ts[k], Holder(k))), Closing(i, j, k))
  }

  lemma ConnectedRound(s: Server, uid: string, ts: seq<Time>, i: nat, m: nat, j: nat, k: nat)
    requires i < m < j < |ts| && k < |ts| && !Text.Blank(uid)
    requires Connected(s, uid, ts, i, j, k) && Leased(s, uid, ts, i, m, j, k)
    ensures Connected(AfterRound(s, uid, ts, i, j, k), uid, ts, i, j, k + 1)
  {
    HoldersDiffer(i, k);
    HoldersDiffer(j, k);
    if k == i || k == j {
      StayingRound(s, uid, ts[k], Holder(k));
    } else {
      LeavingRound(s, uid, ts[k], Holder(k));
    }
    var t := AfterRound(s, uid, ts, i, j, k);
    hide Serve;
    forall n: nat | n >= k + 1 ensures Holder(n) !in t.connections { HoldersDiffer(n, k); }
    hide Holder;
  }

  lemma LeasedRound(s: Server, uid: string, ts: seq<Time>, i: nat, m: nat, j: nat, k: nat)
    requires Lapse(ts, i, m, j) && k < |ts| && !Text.Blank(uid)
    requires Connected(s, uid, ts, i, j, k) && Leased(s, uid, ts, i, m, j, k)
    ensures Leased(AfterRound(s, uid, ts, i, j, k), uid, ts, i, m, j, k + 1)
  {
    if k == i {
      StayingRound(s, uid, ts[k], Holder(k));
    } else if k < j {
      LeavingRound(s, uid, ts[k], Holder(k));
      if s.leases != map[] { LapsedRound(s, uid, ts[k], Holder(k), StayingLease(ts, i)); }
    }
    hide Serve;
    hide Holder;
  }

  /** Before round `k`, and what the lease manager has seen by then. */
  lemma {:induction false} RoundsReach(uid: string, ts: seq<Time>, i: nat, m: nat, j: nat, k: nat)
    requires Lapse(ts, i, m, j) && k <= |ts| && !Text.Blank(uid)
    ensures var actions := Rounds(uid, ts, i, j, k);
      && Connected(ServerEnd(actions), uid, ts, i, j, k) && Leased(ServerEnd(actions), uid, ts, i, m, j, k)
      && Readings(Trace(actions), uid) == ts[..k]
    decreases k
  {
    hide *;
    LapseIndexes(ts, i, m, j);
    if k == 0 {
      NothingYet(uid, ts, i, m, j);
    } else {
      RoundsReach(uid, ts, i, m, j, k - 1);
      NextRound(uid, ts, i, m, j, k - 1);
    }
  }

  lemma LapseIndexes(ts: seq<Time>, i: nat, m: nat, j: nat)
    requires Lapse(ts, i, m, j)
    ensures i < m < j < |ts|
  {
  }

  lemma NothingYet(uid: string, ts: seq<Time>, i: nat, m: nat, j: nat)
    requires Lapse(ts, i, m, j)
    ensures var actions := Rounds(uid, ts, i, j, 0);
      && Connected(ServerEnd(actions), uid, ts, i, j, 0) && Leased(ServerEnd(actions), uid, ts, i, m, j, 0)
      && Readings(Trace(actions), uid) == ts[..0]
  {
    assert Trace([]) == [];
  }

  lemma NextRound(uid: string, ts: seq<Time>, i: nat, m: nat, j: nat, k: nat)
    requires Lapse(ts, i, m, j) && k < |ts| && !Text.Blank(uid)
    requires var actions := Rounds(uid, ts, i, j, k);
      && Connected(ServerEnd(actions), uid, ts, i, j, k) && Leased(ServerEnd(actions), uid, ts, i, m, j, k)
      && Readings(Trace(actions), uid) == ts[..k]
    ensures var actions := Rounds(uid, ts, i, j, k + 1);
      && Connected(ServerEnd(actions), uid, ts, i, j, k + 1) && Leased(ServerEnd(actions), uid, ts, i, m, j, k + 1)
      && Readings(Trace(actions), uid) == ts[..k + 1]
  {
    hide *;
    LapseIndexes(ts, i, m, j);
    var actions, x, y := Rounds(uid, ts, i, j, k), Connect(uid, ts[k], Holder(k)), Closing(i, j, k);
    var s := ServerEnd(actions);
    RoundsNext(uid, ts, i, j, k);
    HolderIsNew(s, uid, ts, i, j, k);
    NewConnection(s, uid, ts[k], Holder(k));
    ClosingEmits(Serve(s, x), i, j, k);
    OneMoreAction(actions, x);
    OneMoreAction(actions + [x], y);
    ConnectedRound(s, uid, ts, i, m, j, k);
    LeasedRound(s, uid, ts, i, m, j, k);
    AfterRoundIs(s, uid, ts, i, j, k);
    OneMoreReading(Trace(actions), Emitted(s, x), uid);
    OneMoreReading(Trace(actions + [x]), Emitted(Serve(s, x), y), uid);
    assert ts[..k + 1] == ts[..k] + [ts[k]];
  }

  lemma RoundsNext(uid: string, ts: seq<Time>, i: nat, j: nat, k: nat)
    requires k < |ts|
    ensures Rounds(uid, ts, i, j, k + 1)
         == Rounds(uid, ts, i, j, k) + [Connect(uid, ts[k], Holder(k))] + [Closing(i, j, k)]
  {
  }

  lemma AfterRoundIs(s: Server, uid: string, ts: seq<Time>, i: nat, j: nat, k: nat)
    requires k < |ts|
    ensures AfterRound(s, uid, ts, i, j, k) == Serve(Serve(s, Connect(uid, ts[k], Holder(k))), Closing(i, j, k))
  {
  }

  lemma HolderIsNew(s: Server, uid: string, ts: seq<Time>, i: nat, j: nat, k: nat)
    requires i < j < |ts| && Connected(s, uid, ts, i, j, k)
    ensures Holder(k) !in s.connections
  {
    hide Holder;
  }

  lemma ClosingEmits(s: Server, i: nat, j: nat, k: nat)
    ensures !Emitted(s, Closing(i, j, k)).Acquire?
  {
  }

  lemma OneMoreReading(events: seq<Event>, e: Event, uid: string)
    ensures Readings(events + [e], uid)
         == Readings(events, uid) + if e.Acquire? && e.uid == uid then [e.now] else []
  {
    assert (events + [e])[..|events|] == events;
  }

  /** The staying connections were granted theirs. */
  lemma StayingGrant(uid: string, ts: seq<Time>, i: nat, m: nat, j: nat, k: nat)
    requires Lapse(ts, i, m, j) && !Text.Blank(uid) && (k == i || k == j)
    ensures var events := Trace(LapseRun(uid, ts, i, j));
      && GrantAt(events, k + k, uid) && events[k + k] == Acquire(uid, ts[k], LEASE_TTL, Holder(k))
  {
    hide *;
    LapseIndexes(ts, i, m, j);
    var actions, run, x := Rounds(uid, ts, i, j, k), LapseRun(uid, ts, i, j), Connect(uid, ts[k], Holder(k));
    RoundsReach(uid, ts, i, m, j, k);
    EmptyAtStaying(ServerEnd(actions), uid, ts, i, m, j, k);
    RoundIsPart(uid, ts, i, j, k);
    HolderIsNew(ServerEnd(actions), uid, ts, i, j, k);
    NewConnection(ServerEnd(actions), uid, ts[k], Holder(k));
    ServerEndIs(actions);
    ServerPrefix(actions, run, k + k);
    TraceLeases(run, k + k);
    TraceAt(run, k + k);
    GrantedOnEmpty(Trace(run), k + k, uid, ts[k], Holder(k));
  }

  lemma EmptyAtStaying(s: Server, uid: string, ts: seq<Time>, i: nat, m: nat, j: nat, k: nat)
    requires i < m < j < |ts| && (k == i || k == j) && Leased(s, uid, ts, i, m, j, k)
    ensures s.leases == map[]
  {
  }

  lemma ServerEndIs(actions: seq<Action>)
    ensures ServerEnd(actions) == ServerAt(actions, |actions|)
  {
  }

  lemma GrantedOnEmpty(events: seq<Event>, n: nat, uid: string, now: Time, holder: string)
    requires n < |events| && At(events, n) == map[] && events[n] == Acquire(uid, now, LEASE_TTL, holder)
    ensures GrantAt(events, n, uid)
  {
    hide At;
  }

  /** The run passes through the first rounds, and then the next connection comes. */
  lemma {:induction false} RoundIsPart(uid: string, ts: seq<Time>, i: nat, j: nat, k: nat)
    requires k < |ts|
    ensures var run := LapseRun(uid, ts, i, j);
      Rounds(uid, ts, i, j, k) <= run && k + k < |run| && run[k + k] == Connect(uid, ts[k], Holder(k))
  {
    RoundsGrow(uid, ts, i, j, k + 1, |ts|);
    assert Rounds(uid, ts, i, j, k + 1) <= LapseRun(uid, ts, i, j);
    assert Rounds(uid, ts, i, j, k + 1)[k + k] == Connect(uid, ts[k], Holder(k));
  }

  lemma {:induction false} RoundsGrow(uid: string, ts: seq<Time>, i: nat, j: nat, k: nat, l: nat)
    requires k <= l <= |ts|
    ensures Rounds(uid, ts, i, j, k) <= Rounds(uid, ts, i, j, l)
    decreases l
  {
    if k < l { RoundsGrow(uid, ts, i, j, k, l - 1); }
  }

  /** At the end both start their pipelines. */
  lemma BothRun(uid: string, ts: seq<Time>, i: nat, m: nat, j: nat)
    requires Lapse(ts, i, m, j) && !Text.Blank(uid)
    ensures var run := LapseRun(uid, ts, i, j);
      && RunsAt(run, |run|, Holder(i)) && RunsAt(run, |run|, Holder(j)) && |run| == |ts| + |ts| + 2
      && Readings(Trace(run), uid) == ts
  {
    hide *;
    LapseIndexes(ts, i, m, j);
    var actions, a, b := Rounds(uid, ts, i, j, |ts|), Start(Holder(i)), Start(Holder(j));
    var s := ServerEnd(actions);
    RoundsReach(uid, ts, i, m, j, |ts|);
    StayingIdle(s, uid, ts, i, j);
    HoldersDiffer(i, j);
    StartRuns(s, Holder(i));
    StartRuns(Serve(s, a), Holder(j));
    LapseRunIs(uid, ts, i, j);
    OneMoreAction(actions, a);
    OneMoreAction(actions + [a], b);
    OneMoreReading(Trace(actions), Emitted(s, a), uid);
    OneMoreReading(Trace(actions + [a]), Emitted(Serve(s, a), b), uid);
    assert ts[..|ts|] == ts;
    BothAtEnd(LapseRun(uid, ts, i, j), Holder(i), Holder(j));
  }

  lemma StayingIdle(s: Server, uid: string, ts: seq<Time>, i: nat, j: nat)
    requires i < j < |ts| && Connected(s, uid, ts, i, j, |ts|)
    ensures forall h :: h == Holder(i) || h == Holder(j) ==>
      h in s.connections && !s.connections[h].finished && s.connections[h].pipeline.NotStarted?
  {
    hide Holder;
  }

  lemma LapseRunIs(uid: string, ts: seq<Time>, i: nat, j: nat)
    ensures LapseRun(uid, ts, i, j) == Rounds(uid, ts, i, j, |ts|) + [Start(Holder(i))] + [Start(Holder(j))]
    ensures |LapseRun(uid, ts, i, j)| == |ts| + |ts| + 2
  {
  }

  lemma BothAtEnd(run: seq<Action>, a: string, b: string)
    requires var connections := ServerEnd(run).connections;
      && a in connections && connections[a].pipeline.Running?
      && b in connections && connections[b].pipeline.Running?
    ensures RunsAt(run, |run|, a) && RunsAt(run, |run|, b)
  {
    hide ServerAt;
  }

  lemma StartRuns(s: Server, holder: string)
    ensures !Emitted(s, Start(holder)).Acquire?
    ensures holder in s.connections && !s.connections[holder].finished && s.connections[holder].pipeline.NotStarted? ==>
      Serve(s, Start(holder)).connections == s.connections[holder := s.connections[holder].(pipeline := Running)]
  {
    hide Step;
  }

  lemma LapseOverlaps(uid: string, ts: seq<Time>, i: nat, m: nat, j: nat)
    requires Lapse(ts, i, m, j) && !Text.Blank(uid)
    ensures var run := LapseRun(uid, ts, i, j);
      Readings(Trace(run), uid) == ts && !OverlapsAreExpired(run, uid)
  {
    hide *;
    LapseIndexes(ts, i, m, j);
    var run := LapseRun(uid, ts, i, j);
    BothRun(uid, ts, i, m, j);
    StayingGrant(uid, ts, i, m, j, i);
    StayingGrant(uid, ts, i, m, j, j);
    LapseDates(ts, i, m, j);
    TooEarly(run, |run|, uid, Holder(i), Holder(j), i + i, j + j);
  }

  lemma LapseDates(ts: seq<Time>, i: nat, m: nat, j: nat)
    requires Lapse(ts, i, m, j)
    ensures ts[j] < ts[i] + LEASE_TTL
  {
  }

  lemma TooEarly(actions: seq<Action>, k: nat, uid: string, older: string, newer: string, g: nat, l: nat)
    requires g < l < k <= |actions| && RunsAt(actions, k, older) && RunsAt(actions, k, newer)
    requires GrantAt(Trace(actions), g, uid) && Trace(actions)[g].holder == older
    requires GrantAt(Trace(actions), l, uid) && Trace(actions)[l].holder == newer
    requires Trace(actions)[g].ttl == LEASE_TTL && Trace(actions)[l].now < Trace(actions)[g].now + LEASE_TTL
    ensures !OverlapsAreExpired(actions, uid)
  {
    hide Trace;
    hide RunsAt;
    hide At;
    assert Overlap(actions, k, uid, older, newer, g, l);
  }

  /**
   The exact condition on the clock of the server: with its fixed lease duration, every run with these
   readings has only overlaps past the older lease if and only if the readings do not lapse.
   */
  lemma {:induction false} OverlapIff(ts: seq<Time>, uid: string)
    requires !Text.Blank(uid)
    ensures (forall actions: seq<Action> :: Readings(Trace(actions), uid) == ts ==> OverlapsAreExpired(actions, uid))
       <==> LapseFree(ts)
  {
    hide Trace;
    if LapseFree(ts) {
      forall actions: seq<Action> | Readings(Trace(actions), uid) == ts ensures OverlapsAreExpired(actions, uid) {
        forall k: nat, older: string, newer: string, g: nat, l: nat | Overlap(actions, k, uid, older, newer, g, l)
          ensures LeaseOf(Trace(actions)[g]).expiresAt <= Trace(actions)[l].now
        {
          OverlapNeedsExpiry(actions, k, uid, older, newer, g, l);
        }
      }
    } else {
      var i, m, j :| Lapse(ts, i, m, j);
      LapseOverlaps(uid, ts, i, m, j);
    }
  }
}
