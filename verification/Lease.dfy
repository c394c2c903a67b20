/**
 Leases that serialize live voice connections per user: the in-memory manager, and mutual exclusion
 over every run of acquires and releases with the exact condition on the clock.
 */
module Lease {
  import opened Common
  import Text

  /** Nanoseconds; the zero instant is the one `IsZero` recognizes. */
  type Time = int
  const ZERO_TIME: Time := 0
  const SCHEMA := 1

  datatype LeaseState = LeaseState(holder: string, expiresAt: Time, schema: int)
  datatype Error = ContextDone | UidRequired | TtlNotPositive | InvalidExpiry | Corrupt | Held

  type Leases = map<string, LeaseState>

  predicate IsHexDigit(c: char) {
    '0' <= c <= '9' || 'a' <= c <= 'f' || 'A' <= c <= 'F'
  }

  predicate ValidState(s: LeaseState) {
    && s.schema == SCHEMA && |s.holder| == 64 && (forall c :: c in s.holder ==> IsHexDigit(c))
    && s.expiresAt != ZERO_TIME
  }

  function Expired(expiresAt: Time, now: Time): Result<bool, Error> {
    if expiresAt == ZERO_TIME then Err(InvalidExpiry) else Ok(expiresAt <= now)
  }

  /** Whether an acquire on the document `uid` is granted, and if not, why. */
  function Judge(leases: Leases, uid: string, now: Time, ttl: int): Result<bool, Error> {
    if ttl <= 0 then Err(TtlNotPositive)
    else if uid !in leases then Ok(true)
    else
      match Expired(leases[uid].expiresAt, now)
      case Err(e) => Err(e)
      case Ok(true) => Ok(true)
      case Ok(false) => if ValidState(leases[uid]) then Err(Held) else Err(Corrupt)
  }

  // ---------------------------------------------------------------- stored documents

  /** A field of a stored document: absent, of another type, or a value. */
  datatype Field<+T> = Missing | WrongType | Present(value: T)
  datatype Document = Document(holder: Field<string>, expiresAt: Field<Time>, schema: Field<int>)

  /** Whether a stored document may be replaced; expiry is looked at before anything else. */
  function ValidateForAcquire(d: Document, now: Time): Result<bool, Error> {
    if !d.expiresAt.Present? then Err(InvalidExpiry)
    else
      match Expired(d.expiresAt.value, now)
      case Err(e) => Err(e)
      case Ok(true) => Ok(true)
      case Ok(false) =>
        if d.holder.Present? && d.schema.Present?
          && ValidState(LeaseState(d.holder.value, d.expiresAt.value, d.schema.value))
        then Err(Held) else Err(Corrupt)
  }

  /** On complete documents the transactional store decides exactly as the in-memory one. */
  lemma StoresAgree(s: LeaseState, leases: Leases, uid: string, now: Time, ttl: int)
    requires uid in leases && leases[uid] == s && ttl > 0
    ensures ValidateForAcquire(Document(Present(s.holder), Present(s.expiresAt), Present(s.schema)), now)
      == Judge(leases, uid, now, ttl)
  {
  }

  datatype Event =
    | Acquire(uid: string, now: Time, ttl: int, holder: string)
    | Release(uid: string, holder: string)
    | Idle

  predicate Granted(leases: Leases, e: Event) {
    e.Acquire? && Judge(leases, e.uid, e.now, e.ttl).Ok?
  }

  function LeaseOf(e: Event): LeaseState
    requires e.Acquire?
  {
    LeaseState(e.holder, e.now + e.ttl, SCHEMA)
  }

  function Step(leases: Leases, e: Event): Leases {
    match e
    case Acquire(uid, _, _, _) => if Granted(leases, e) then leases[uid := LeaseOf(e)] else leases
    case Release(uid, holder) =>
      if uid in leases && leases[uid].holder == holder then leases - {uid} else leases
    case Idle => leases
  }

  // ---------------------------------------------------------------- the manager

  class MemoryVoiceLiveLeaseManager {
    var leases: Leases

    constructor ()
      ensures leases == map[]
    {
      leases := map[];
    }

    /** `holder` is the fresh random token; the hash that names the document is injective. */
    method Acquire(contextDone: bool, uid: string, now: Time, ttl: int, holder: string)
      returns (r: Result<string, Error>)
      modifies this
      ensures contextDone || Text.Blank(uid) ==>
        r == Err(if contextDone then ContextDone else UidRequired) && leases == old(leases)
      ensures !contextDone && !Text.Blank(uid) ==>
        var e := Event.Acquire(uid, now, ttl, holder);
        && leases == Step(old(leases), e)
        && (r.Ok? <==> Granted(old(leases), e)) && (r.Ok? ==> r.value == holder)
        && (r.Err? ==> Judge(old(leases), uid, now, ttl) == Err(r.error))
    {
      if contextDone {
        return Err(ContextDone);
      }
      if Text.Blank(uid) {
        return Err(UidRequired);
      }
      if ttl <= 0 {
        return Err(TtlNotPositive);
      }
      var requested := LeaseState(holder, now + ttl, SCHEMA);
      if uid in leases {
        var persisted := leases[uid];
        var expired := Expired(persisted.expiresAt, now);
        if expired.Err? {
          return Err(expired.error);
        }
        if expired.value {
          leases := leases[uid := requested];
          return Ok(holder);
        }
        if !ValidState(persisted) {
          return Err(Corrupt);
        }
        return Err(Held);
      }
      leases := leases[uid := requested];
      r := Ok(holder);
    }

    method ReleaseLease(contextDone: bool, uid: string, holder: string) returns (ok: bool)
      modifies this
      ensures ok == !contextDone
      ensures leases == if contextDone then old(leases) else Step(old(leases), Release(uid, holder))
    {
      if contextDone {
        return false;
      }
      if uid in leases && leases[uid].holder == holder {
        leases := leases - {uid};
      }
      ok := true;
    }

    /** Connection shutdown: a pipeline that was not joined in time keeps its lease until the TTL. */
    method FinishVoiceLive(uid: string, holder: string, pipelineStarted: bool, joined: bool, releaseTimedOut: bool)
      modifies this
      ensures leases == if (pipelineStarted && !joined) || releaseTimedOut then old(leases)
        else Step(old(leases), Release(uid, holder))
    {
      if pipelineStarted && !joined {
        return;
      }
      var _ := ReleaseLease(releaseTimedOut, uid, holder);
    }
  }

  // ---------------------------------------------------------------- whole runs

  /** The lease map before event `k` of a run that starts empty. */
  ghost function At(events: seq<Event>, k: nat): Leases
    requires k <= |events|
  {
    if k == 0 then map[] else Step(At(events, k - 1), events[k - 1])
  }

  ghost predicate GrantAt(events: seq<Event>, k: nat, uid: string) {
    k < |events| && Granted(At(events, k), events[k]) && events[k].uid == uid
  }

  ghost predicate ReleasedBetween(events: seq<Event>, i: nat, j: nat, uid: string, holder: string)
    requires j <= |events|
  {
    exists k :: i < k < j && events[k] == Release(uid, holder)
  }

  /** A later acquire found the lease expired; an expiry at the zero instant is never found so. */
  ghost predicate SupersededBy(events: seq<Event>, i: nat, m: nat, uid: string)
    requires i < |events| && events[i].Acquire?
  {
    var expiry := LeaseOf(events[i]).expiresAt;
    m < |events| && events[m].Acquire? && events[m].uid == uid && expiry != ZERO_TIME && expiry <= events[m].now
  }

  /** A granted lease stays in the map until it is released or a later acquire finds it expired. */
  lemma {:induction false} LeasePersists(events: seq<Event>, i: nat, k: nat, uid: string)
    requires GrantAt(events, i, uid) && i < k <= |events|
    ensures ReleasedBetween(events, i, k, uid, events[i].holder)
      || (uid in At(events, k) && At(events, k)[uid] == LeaseOf(events[i]))
      || exists m :: i < m < k && SupersededBy(events, i, m, uid)
    decreases k
  {
    if k > i + 1 {
      LeasePersists(events, i, k - 1, uid);
      var before, e := At(events, k - 1), events[k - 1];
      if ReleasedBetween(events, i, k - 1, uid, events[i].holder) {
      } else if uid in before && before[uid] == LeaseOf(events[i]) {
        if e.Acquire? && e.uid == uid && Granted(before, e) {
          assert SupersededBy(events, i, k - 1, uid);
        }
      } else {
        var m :| i < m < k - 1 && SupersededBy(events, i, m, uid);
      }
    }
  }

  // ---------------------------------------------------------------- clock readings

  /** The clock readings of one user's acquires, in order. */
  ghost function Readings(events: seq<Event>, uid: string): seq<Time> {
    if events == [] then []
    else
      var n := |events| - 1;
      Readings(events[..n], uid) + if events[n].Acquire? && events[n].uid == uid then [events[n].now] else []
  }

  /** How many readings precede event `k`. */
  ghost function Rank(events: seq<Event>, k: nat, uid: string): nat
    requires k <= |events|
  {
    |Readings(events[..k], uid)|
  }

  lemma {:induction false} ReadingAt(events: seq<Event>, k: nat, uid: string)
    requires k < |events| && events[k].Acquire? && events[k].uid == uid
    ensures Rank(events, k, uid) < |Readings(events, uid)|
    ensures Readings(events, uid)[Rank(events, k, uid)] == events[k].now
    decreases |events|
  {
    var n := |events| - 1;
    if k < n {
      ReadingAt(events[..n], k, uid);
      assert events[..n][..k] == events[..k];
    }
  }

  lemma RanksGrow(events: seq<Event>, k: nat, l: nat, uid: string)
    requires k < l <= |events| && events[k].Acquire? && events[k].uid == uid
    ensures Rank(events, k, uid) < Rank(events, l, uid)
  {
    ReadingAt(events[..l], k, uid);
    assert events[..l][..k] == events[..k];
  }

  /** `p` leaves room for a lease granted at `x` to expire at or before `p`, at a usable instant. */
  predicate Above(p: Time, x: Time) {
    x < p && (p == ZERO_TIME ==> x < p - 1)
  }

  /** A reading above both an earlier and a later one. */
  ghost predicate Peak(ts: seq<Time>, i: nat, m: nat, j: nat) {
    i < m < j < |ts| && Above(ts[m], ts[i]) && Above(ts[m], ts[j])
  }

  ghost predicate PeakFree(ts: seq<Time>) {
    forall i, m, j :: !Peak(ts, i, m, j)
  }

  /** Of any two leases granted to the user, the earlier was released or had expired at the later grant. */
  ghost predicate Exclusive(events: seq<Event>, uid: string) {
    forall i: nat, j: nat :: i < j && GrantAt(events, i, uid) && GrantAt(events, j, uid) ==>
      ReleasedBetween(events, i, j, uid, events[i].holder) || LeaseOf(events[i]).expiresAt <= events[j].now
  }

  /** Mutual exclusion: it holds in every run whose readings rise to no peak. */
  lemma {:induction false} Exclusion(events: seq<Event>, i: nat, j: nat, uid: string)
    requires PeakFree(Readings(events, uid)) && i < j && GrantAt(events, i, uid) && GrantAt(events, j, uid)
    ensures ReleasedBetween(events, i, j, uid, events[i].holder) || LeaseOf(events[i]).expiresAt <= events[j].now
  {
    LeasePersists(events, i, j, uid);
    if m :| i < m < j && SupersededBy(events, i, m, uid) {
      ReadingAt(events, i, uid);
      ReadingAt(events, m, uid);
      ReadingAt(events, j, uid);
      RanksGrow(events, i, m, uid);
      RanksGrow(events, m, j, uid);
      assert !Peak(Readings(events, uid), Rank(events, i, uid), Rank(events, m, uid), Rank(events, j, uid));
    }
  }

  // ---------------------------------------------------------------- a peak breaks exclusion

  /**
   Holders of different lengths never coincide.  A random token always has 64 hexadecimal digits; no
   grant or release looks at that, so any distinct strings stand for distinct tokens here.
   */
  function Holder(k: nat): string {
    seq(k, _ => 'h')
  }

  /** The latest usable expiry that the peak reading finds expired. */
  function PeakExpiry(p: Time): Time {
    if p == ZERO_TIME then p - 1 else p
  }

  /** Acquires at the given readings; only the three around the peak ask for a positive duration. */
  function AcquireOf(uid: string, ts: seq<Time>, i: nat, m: nat, j: nat, k: nat): Event
    requires i < |ts| && m < |ts| && k < |ts|
  {
    Acquire(uid, ts[k], if k == i then PeakExpiry(ts[m]) - ts[i] else if k == m || k == j then 1 else 0, Holder(k))
  }

  /** Right after the peak its lease is released. */
  function PeakEvent(uid: string, ts: seq<Time>, i: nat, m: nat, j: nat, k: nat): Event
    requires i < m < |ts| && k <= |ts|
  {
    if k == m + 1 then Release(uid, Holder(m)) else AcquireOf(uid, ts, i, m, j, if k <= m then k else k - 1)
  }

  function PeakRun(uid: string, ts: seq<Time>, i: nat, m: nat, j: nat): (run: seq<Event>)
    requires i < m < |ts|
    ensures |run| == |ts| + 1
  {
    seq(|ts| + 1, k requires 0 <= k <= |ts| => PeakEvent(uid, ts, i, m, j, k))
  }

  lemma {:induction false} PeakRunReadings(uid: string, ts: seq<Time>, i: nat, m: nat, j: nat, k: nat)
    requires i < m < |ts| && k <= |ts| + 1
    ensures Readings(PeakRun(uid, ts, i, m, j)[..k], uid) == ts[..if k <= m + 1 then k else k - 1]
    decreases k
  {
    if k > 0 {
      PeakRunReadings(uid, ts, i, m, j, k - 1);
      var run := PeakRun(uid, ts, i, m, j);
      assert run[..k][..k - 1] == run[..k - 1];
    }
  }

  /** The lease map before event `k` of the peak run, up to the grant that breaks exclusion. */
  function PeakLeases(uid: string, ts: seq<Time>, i: nat, m: nat, j: nat, k: nat): Leases
    requires i < m < |ts|
  {
    if i < k <= m then map[uid := LeaseOf(AcquireOf(uid, ts, i, m, j, i))]
    else if k == m + 1 then map[uid := LeaseOf(AcquireOf(uid, ts, i, m, j, m))]
    else map[]
  }

  lemma {:induction false} PeakRunLeases(uid: string, ts: seq<Time>, i: nat, m: nat, j: nat, k: nat)
    requires Peak(ts, i, m, j) && k <= j + 1
    ensures At(PeakRun(uid, ts, i, m, j), k) == PeakLeases(uid, ts, i, m, j, k)
    decreases k
  {
    if k > 0 {
      PeakRunLeases(uid, ts, i, m, j, k - 1);
    }
  }

  lemma PeakRunFresh(uid: string, ts: seq<Time>, i: nat, m: nat, j: nat)
    requires i < m < |ts|
    ensures FreshHolders(PeakRun(uid, ts, i, m, j))
  {
    assert forall k: nat :: |Holder(k)| == k;
  }

  lemma PeakBreaksExclusion(uid: string, ts: seq<Time>, i: nat, m: nat, j: nat) returns (run: seq<Event>)
    requires Peak(ts, i, m, j)
    ensures Readings(run, uid) == ts && FreshHolders(run) && !Exclusive(run, uid)
  {
    run := PeakRun(uid, ts, i, m, j);
    PeakRunReadings(uid, ts, i, m, j, |ts| + 1);
    assert run[..|ts| + 1] == run && ts[..|ts|] == ts;
    PeakRunFresh(uid, ts, i, m, j);
    PeakRunGrants(uid, ts, i, m, j);
    hide PeakRun;
    hide GrantAt;
    hide ReleasedBetween;
  }

  lemma PeakRunGrants(uid: string, ts: seq<Time>, i: nat, m: nat, j: nat)
    requires Peak(ts, i, m, j)
    ensures var run := PeakRun(uid, ts, i, m, j);
      && GrantAt(run, i, uid) && GrantAt(run, j + 1, uid)
      && run[i].holder == Holder(i) && run[j + 1].holder == Holder(j)
      && !ReleasedBetween(run, i, j + 1, uid, run[i].holder)
      && LeaseOf(run[i]).expiresAt > run[j + 1].now
  {
    PeakRunLeases(uid, ts, i, m, j, i);
    PeakRunLeases(uid, ts, i, m, j, j + 1);
    assert |Holder(i)| != |Holder(m)|;
    hide At;
  }

  /**
   The exact condition on the clock.  Every run with these readings is exclusive if and only if no
   reading lies above both an earlier and a later one; a peak breaks even runs with fresh holders.
   */
  lemma {:induction false} ExclusionIff(ts: seq<Time>, uid: string)
    ensures (forall events: seq<Event> :: Readings(events, uid) == ts ==> Exclusive(events, uid)) <==> PeakFree(ts)
    ensures (forall events: seq<Event> ::
               Readings(events, uid) == ts && FreshHolders(events) ==> Exclusive(events, uid))
       <==> PeakFree(ts)
  {
    if PeakFree(ts) {
      forall events: seq<Event> | Readings(events, uid) == ts ensures Exclusive(events, uid) {
        forall i: nat, j: nat | i < j && GrantAt(events, i, uid) && GrantAt(events, j, uid)
          ensures ReleasedBetween(events, i, j, uid, events[i].holder) || LeaseOf(events[i]).expiresAt <= events[j].now
        {
          Exclusion(events, i, j, uid);
        }
      }
    } else {
      var i, m, j :| Peak(ts, i, m, j);
      var run := PeakBreaksExclusion(uid, ts, i, m, j);
    }
  }

  ghost predicate NeverBack(ts: seq<Time>) {
    forall i, j :: 0 <= i < j < |ts| ==> ts[i] <= ts[j]
  }

  /** A clock that never goes back is one instance. */
  lemma MonotoneClockIsExclusive(events: seq<Event>, uid: string)
    requires NeverBack(Readings(events, uid))
    ensures Exclusive(events, uid)
  {
    ExclusionIff(Readings(events, uid), uid);
  }

  /** Readings 100, 200, 120 are one counterexample. */
  lemma ExclusionNeedsTheClock(uid: string)
    ensures exists events: seq<Event> ::
      Readings(events, uid) == [100, 200, 120] && FreshHolders(events) && !Exclusive(events, uid)
  {
    var ts := [100, 200, 120];
    assert Peak(ts, 0, 1, 2);
    ExclusionIff(ts, uid);
  }

  /** The entry of a user, when there is one, is the lease of the most recent grant. */
  lemma {:induction false} EntryIsLatestGrant(events: seq<Event>, k: nat, uid: string) returns (j: nat)
    requires k <= |events| && uid in At(events, k)
    ensures j < k && GrantAt(events, j, uid) && At(events, k)[uid] == LeaseOf(events[j])
    ensures forall m :: j < m < k ==> !GrantAt(events, m, uid)
    decreases k
  {
    if GrantAt(events, k - 1, uid) {
      j := k - 1;
    } else {
      j := EntryIsLatestGrant(events, k - 1, uid);
    }
  }

  /** The grant at `g` is the user's latest, and has not been released. */
  ghost predicate Standing(events: seq<Event>, k: nat, uid: string, g: nat)
    requires k <= |events|
  {
    && g < k && GrantAt(events, g, uid) && (forall m :: g < m < k ==> !GrantAt(events, m, uid))
    && !ReleasedBetween(events, g, k, uid, events[g].holder)
  }

  /** The map holds for a user exactly the latest grant that has not been released. */
  lemma {:induction false} EntryIff(events: seq<Event>, k: nat, uid: string)
    requires k <= |events|
    ensures uid in At(events, k) <==> exists g: nat :: Standing(events, k, uid, g)
    ensures forall g: nat :: Standing(events, k, uid, g) ==> At(events, k)[uid] == LeaseOf(events[g])
    decreases k
  {
    if k > 0 {
      EntryIff(events, k - 1, uid);
      if GrantAt(events, k - 1, uid) {
        assert Standing(events, k, uid, k - 1);
        assert forall g: nat :: Standing(events, k, uid, g) ==> g == k - 1;
      } else {
        forall g: nat ensures Standing(events, k, uid, g)
          <==> Standing(events, k - 1, uid, g) && events[k - 1] != Release(uid, events[g].holder)
        {
          StandsOn(events, k, uid, g);
        }
        hide Standing;
        hide GrantAt;
        EntryStep(events, k, uid);
      }
    }
  }

  lemma StandsOn(events: seq<Event>, k: nat, uid: string, g: nat)
    requires 0 < k <= |events| && !GrantAt(events, k - 1, uid)
    ensures Standing(events, k, uid, g)
       <==> Standing(events, k - 1, uid, g) && events[k - 1] != Release(uid, events[g].holder)
  {
    hide At;
    hide Granted;
  }

  lemma EntryStep(events: seq<Event>, k: nat, uid: string)
    requires 0 < k <= |events| && !GrantAt(events, k - 1, uid)
    ensures var before, after := At(events, k - 1), At(events, k);
      && (uid in after ==> uid in before && after[uid] == before[uid])
      && (uid in before ==> (uid in after <==> events[k - 1] != Release(uid, before[uid].holder)))
  {
  }

  /** The holders are tokens as they are drawn: 64 hexadecimal digits. */
  ghost predicate DrawnHolders(events: seq<Event>) {
    forall i :: 0 <= i < |events| && events[i].Acquire? ==>
      |events[i].holder| == 64 && forall c :: c in events[i].holder ==> IsHexDigit(c)
  }

  /**
   The answer to an acquire after any run: granted with nothing standing or the standing lease expired,
   held while it has not, and an invalid expiry exactly when it falls on the zero instant.  The corrupt
   case never comes up.
   */
  lemma {:induction false} AcquireVerdict(events: seq<Event>, k: nat, uid: string, now: Time, ttl: int)
    requires k <= |events| && DrawnHolders(events)
    ensures var verdict := Judge(At(events, k), uid, now, ttl);
      && (ttl <= 0 ==> verdict == Err(TtlNotPositive))
      && (ttl > 0 && (forall g: nat :: !Standing(events, k, uid, g)) ==> verdict == Ok(true))
      && forall g: nat :: ttl > 0 && Standing(events, k, uid, g) ==>
           var expiry := events[g].now + events[g].ttl;
           verdict == if expiry == ZERO_TIME then Err(InvalidExpiry) else if expiry <= now then Ok(true) else Err(Held)
  {
    EntryIff(events, k, uid);
    hide At;
    forall g: nat | Standing(events, k, uid, g)
      ensures events[g].Acquire? && At(events, k)[uid] == LeaseOf(events[g])
    {
    }
    hide Standing;
  }

  ghost predicate FreshHolders(events: seq<Event>) {
    forall i, j :: 0 <= i < j < |events| && events[i].Acquire? && events[j].Acquire? ==>
      events[i].holder != events[j].holder
  }

  /** Releasing an earlier lease never removes one granted later. */
  lemma {:induction false} ReleaseSparesLater(events: seq<Event>, i: nat, j: nat, k: nat, uid: string)
    requires FreshHolders(events) && i < j < k < |events|
    requires GrantAt(events, i, uid) && GrantAt(events, j, uid)
    requires events[k] == Release(uid, events[i].holder)
    ensures At(events, k + 1) == At(events, k)
  {
    if uid in At(events, k) {
      var latest := EntryIsLatestGrant(events, k, uid);
      assert latest >= j;
    }
  }
}
