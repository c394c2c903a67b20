/**
 The guest trial ledger: a compare-and-set state machine over content-free records, with an
 expensive verifier that runs between the read and the commit.
 */
module GuestTrial {
  import opened Common
  import opened Sequences
  import Text

  /** Microseconds; the zero instant is the one `IsZero` recognizes. */
  type Time = int
  const ZERO_TIME: Time := 0
  const TTL := 900_000_000
  const QUESTION_ID := "rest_activity_v1"

  datatype Status = Pending | Stopped | AnswerFirst | Unverified | UnknownStatus
  datatype Event = Help | Stop | CompleteVerified | CompleteUnverified | UnknownEvent
  datatype Error = Invalid | Conflict | Expired | NotFound | Capacity | ContextDone | VerifierFailed

  datatype Record = Record(
    version: int, question: string, generation: int, assisted: bool, status: Status,
    createdAt: Time, expiresAt: Time)

  function One(b: bool): int { if b then 1 else 0 }

  predicate ValidRecord(r: Record) {
    && r.version == 1 && r.question == QUESTION_ID && 1 <= r.generation <= 4
    && r.createdAt != ZERO_TIME && r.expiresAt - r.createdAt == TTL
    && !r.status.UnknownStatus?
    && r.generation == 1 + One(r.assisted) + One(!r.status.Pending?)
  }

  /** A trial as it starts. */
  function Started(t: Time): Record {
    Record(1, QUESTION_ID, 1, false, Pending, t, t + TTL)
  }

  function Current(r: Record, now: Time): Result<Record, Error> {
    if !ValidRecord(r) || now == ZERO_TIME || now < r.createdAt then Err(Invalid)
    else if now >= r.expiresAt then Err(Expired)
    else Ok(r)
  }

  function Checked(r: Record): Result<Record, Error> {
    if ValidRecord(r) then Ok(r) else Err(Invalid)
  }

  function Transition(r: Record, generation: int, event: Event, now: Time): Result<Record, Error> {
    match Current(r, now)
    case Err(e) => Err(e)
    case Ok(_) =>
      if generation != r.generation || !r.status.Pending? then Err(Conflict)
      else
        match event
        case Help => if r.assisted then Err(Conflict) else Checked(r.(assisted := true, generation := r.generation + 1))
        case Stop => Checked(r.(status := Stopped, generation := r.generation + 1))
        case CompleteVerified => Checked(r.(status := AnswerFirst, generation := r.generation + 1))
        case CompleteUnverified => Checked(r.(status := Unverified, generation := r.generation + 1))
        case UnknownEvent => Err(Invalid)
  }

  /** The closing validation can never fail, and this is exactly when a transition succeeds. */
  lemma TransitionSucceedsIff(r: Record, generation: int, event: Event, now: Time)
    ensures Transition(r, generation, event, now).Ok?
       <==> && ValidRecord(r) && now != ZERO_TIME && r.createdAt <= now < r.expiresAt
            && generation == r.generation && r.status.Pending?
            && !event.UnknownEvent? && (event.Help? ==> !r.assisted)
  {
  }

  /** A later state of the same trial: the deadline never slides and assistance is never taken back. */
  ghost predicate Evolves(r: Record, s: Record) {
    && s.version == r.version && s.question == r.question
    && s.createdAt == r.createdAt && s.expiresAt == r.expiresAt
    && (r.assisted ==> s.assisted) && (!r.status.Pending? ==> s == r)
    && r.generation <= s.generation && (r.generation == s.generation ==> s == r)
  }

  lemma TransitionEvolves(r: Record, generation: int, event: Event, now: Time)
    requires Transition(r, generation, event, now).Ok?
    ensures var s := Transition(r, generation, event, now).value;
      Evolves(r, s) && ValidRecord(s) && s.generation == r.generation + 1
  {
  }

  // ---------------------------------------------------------------- the store

  type Records = map<string, Record>

  predicate ValidKey(key: string) {
    |key| == 64 && forall i :: 0 <= i < |key| ==> '0' <= key[i] <= '9' || 'a' <= key[i] <= 'f'
  }

  function Swept(records: Records, now: Time): Records {
    map k | k in records && records[k].expiresAt > now :: records[k]
  }

  function Created(records: Records, capacity: nat, key: string, r: Record): Result<Records, Error> {
    if !ValidKey(key) || !ValidRecord(r) || r.generation != 1 || r.assisted || !r.status.Pending? then Err(Invalid)
    else if key in records then Err(Conflict)
    else
      var swept := Swept(records, r.createdAt);
      if |swept| >= capacity then Err(Capacity) else Ok(swept[key := r])
  }

  function Applied(records: Records, key: string, generation: int, event: Event, now: Time): Result<Record, Error> {
    if !ValidKey(key) then Err(Invalid)
    else if key !in records then Err(NotFound)
    else Transition(records[key], generation, event, now)
  }

  /** Exactly when a trial is created, and what the store holds then. */
  lemma CreatedIff(records: Records, capacity: nat, key: string, r: Record)
    ensures Created(records, capacity, key, r).Ok?
       <==> && ValidKey(key) && r == Started(r.createdAt) && r.createdAt != ZERO_TIME && key !in records
            && |set k | k in records && records[k].expiresAt > r.createdAt| < capacity
    ensures Created(records, capacity, key, r).Ok? ==>
      var next := Created(records, capacity, key, r).value;
      && (forall k :: k in next <==> k == key || (k in records && records[k].expiresAt > r.createdAt))
      && (forall k :: k in next ==> next[k] == if k == key then r else records[k])
  {
    assert Swept(records, r.createdAt).Keys == set k | k in records && records[k].expiresAt > r.createdAt;
    var swept := Swept(records, r.createdAt);
    assert |swept| == |swept.Keys|;
    hide ValidKey;
  }

  /** What another caller may do to the store in one critical section; reads change nothing. */
  datatype Op =
    | Create(key: string, record: Record)
    | Apply(key: string, generation: int, event: Event, now: Time)

  /** A create sweeps before it looks at the capacity. */
  function Step(records: Records, capacity: nat, op: Op): Records {
    match op
    case Create(key, r) =>
      (match Created(records, capacity, key, r)
       case Ok(next) => next
       case Err(Capacity) => Swept(records, r.createdAt)
       case Err(_) => records)
    case Apply(key, generation, event, now) =>
      (match Applied(records, key, generation, event, now)
       case Ok(r) => records[key := r]
       case Err(_) => records)
  }

  /** A sweep leaves at most what was there, and less if it removes anything. */
  lemma SweptIsSmaller(records: Records, now: Time)
    ensures |Swept(records, now)| <= |records|
    ensures Swept(records, now) == records || |Swept(records, now)| < |records|
  {
    var swept := Swept(records, now);
    SubsetSize(swept.Keys, records.Keys);
    if swept.Keys != records.Keys {
      ProperSubsetSize(swept.Keys, records.Keys);
    } else {
      assert swept == records;
    }
  }

  /** A store never outgrows its capacity. */
  lemma StepKeepsCapacity(records: Records, capacity: nat, op: Op)
    requires |records| <= capacity
    ensures |Step(records, capacity, op)| <= capacity
  {
    if op.Create? { SweptIsSmaller(records, op.record.createdAt); }
  }

  lemma {:induction false} RunKeepsCapacity(records: Records, capacity: nat, ops: seq<Op>)
    requires |records| <= capacity
    ensures |Run(records, capacity, ops)| <= capacity
    decreases |ops|
  {
    if ops != [] {
      StepKeepsCapacity(records, capacity, ops[0]);
      hide Step;
      RunKeepsCapacity(Step(records, capacity, ops[0]), capacity, ops[1..]);
    }
  }

  /** Within its capacity, a create that still fails for lack of it has swept nothing. */
  lemma FailedCreateSweptNothing(records: Records, capacity: nat, key: string, r: Record)
    requires |records| <= capacity && Created(records, capacity, key, r).Err?
    ensures Step(records, capacity, Create(key, r)) == records
  {
    SweptIsSmaller(records, r.createdAt);
  }

  /** In every run of a new store, a create that fails leaves the store alone, although it sweeps first. */
  lemma {:induction false} FailedCreateLeavesStore(capacity: nat, ops: seq<Op>, key: string, r: Record)
    requires Created(Run(map[], capacity, ops), capacity, key, r).Err?
    ensures Step(Run(map[], capacity, ops), capacity, Create(key, r)) == Run(map[], capacity, ops)
  {
    hide *;
    RunKeepsCapacity(map[], capacity, ops);
    FailedCreateSweptNothing(Run(map[], capacity, ops), capacity, key, r);
  }

  function Run(records: Records, capacity: nat, ops: seq<Op>): Records
    decreases |ops|
  {
    if ops == [] then records else Run(Step(records, capacity, ops[0]), capacity, ops[1..])
  }

  class MemoryStore {
    const capacity: nat
    var records: Records

    ghost predicate Valid()
      reads this
    {
      |records| <= capacity
    }

    constructor (capacity: nat)
      ensures Valid() && this.capacity == capacity && records == map[]
    {
      this.capacity := capacity;
      records := map[];
    }

    method CreateRecord(contextDone: bool, key: string, r: Record) returns (error: Option<Error>)
      requires Valid()
      modifies this
      ensures Valid() && (error.Some? ==> records == old(records))
      ensures !contextDone ==> records == Step(old(records), capacity, Create(key, r))
      ensures !contextDone ==> (error.None? <==> Created(old(records), capacity, key, r).Ok?)
      ensures !contextDone && error.Some? ==> Created(old(records), capacity, key, r) == Err(error.value)
      ensures contextDone ==> error.Some?
    {
      if !ValidKey(key) || !ValidRecord(r) || r.generation != 1 || r.assisted || !r.status.Pending? {
        return Some(Invalid);
      }
      if contextDone {
        return Some(ContextDone);
      }
      if key in records {
        return Some(Conflict);
      }
      var todo := records.Keys;
      ghost var before := records;
      while todo != {}
        invariant todo <= before.Keys && records.Keys <= before.Keys
        invariant forall k :: k in records ==> records[k] == before[k]
        invariant forall k :: k in before && k in todo ==> k in records
        invariant forall k :: k in before && k !in todo ==> (k in records <==> before[k].expiresAt > r.createdAt)
      {
        var id :| id in todo;
        todo := todo - {id};
        if records[id].expiresAt <= r.createdAt {
          records := records - {id};
        }
      }
      assert records == Swept(before, r.createdAt);
      SweptIsSmaller(before, r.createdAt);
      if |records| >= capacity {
        return Some(Capacity);
      }
      records := records[key := r];
      error := None;
    }

    method ReadRecord(contextDone: bool, key: string, now: Time) returns (r: Result<Record, Error>)
      ensures r.Ok? ==> ValidKey(key) && key in records && Current(records[key], now) == r && !contextDone
      ensures !contextDone && ValidKey(key) && key in records ==> r == Current(records[key], now)
    {
      if !ValidKey(key) {
        return Err(Invalid);
      }
      if contextDone {
        return Err(ContextDone);
      }
      if key !in records {
        return Err(NotFound);
      }
      r := Current(records[key], now);
    }

    method ApplyEvent(contextDone: bool, key: string, generation: int, event: Event, now: Time)
      returns (r: Result<Record, Error>)
      requires Valid()
      modifies this
      ensures Valid()
      ensures !contextDone ==> records == Step(old(records), capacity, Apply(key, generation, event, now))
      ensures !contextDone ==> r == Applied(old(records), key, generation, event, now)
      ensures contextDone ==> r.Err? && records == old(records)
    {
      if !ValidKey(key) {
        return Err(Invalid);
      }
      if contextDone {
        return Err(ContextDone);
      }
      if key !in records {
        return Err(NotFound);
      }
      r := Transition(records[key], generation, event, now);
      if r.Ok? {
        records := records[key := r.value];
      }
    }

    /** The other callers' critical sections, one after the other. */
    method Interfere(ops: seq<Op>)
      requires Valid()
      modifies this
      ensures Valid() && records == Run(old(records), capacity, ops)
      decreases |ops|
    {
      if ops == [] {
        return;
      }
      match ops[0] {
        case Create(key, r) =>
          var _ := CreateRecord(false, key, r);
        case Apply(key, generation, event, now) =>
          var _ := ApplyEvent(false, key, generation, event, now);
      }
      Interfere(ops[1..]);
    }
  }

  // ---------------------------------------------------------------- whole runs

  ghost predicate Fresh(ops: seq<Op>, key: string) {
    forall i :: 0 <= i < |ops| && ops[i].Create? ==> ops[i].key != key
  }

  /** Every create is dated no later than `t`. */
  ghost predicate CreatesBy(ops: seq<Op>, t: Time) {
    forall i :: 0 <= i < |ops| && ops[i].Create? ==> ops[i].record.createdAt <= t
  }

  /**
   The key is not taken again after a sweep: no create dated past the record's deadline is followed
   by a create of the same key.  A create that runs into the live record does not matter.
   */
  ghost predicate NotReused(records: Records, ops: seq<Op>, key: string) {
    if key in records then
      forall i, j ::
        0 <= i < j < |ops| && ops[i].Create? && ops[i].record.createdAt >= records[key].expiresAt && ops[j].Create? ==>
        ops[j].key != key
    else Fresh(ops, key)
  }

  /** Fresh trial ids are one instance, and so is a run that is over before the deadline. */
  lemma NeverReused(records: Records, ops: seq<Op>, key: string, t: Time)
    ensures Fresh(ops, key) ==> NotReused(records, ops, key)
    ensures key in records && CreatesBy(ops, t) && t < records[key].expiresAt ==> NotReused(records, ops, key)
  {
  }

  ghost predicate Succeeds(records: Records, op: Op, key: string) {
    op.Apply? && op.key == key && Applied(records, key, op.generation, op.event, op.now).Ok?
  }

  /** How many events on `key` succeed in a run. */
  ghost function Successes(records: Records, capacity: nat, ops: seq<Op>, key: string): nat
    decreases |ops|
  {
    if ops == [] then 0
    else
      (if Succeeds(records, ops[0], key) then 1 else 0)
      + Successes(Step(records, capacity, ops[0]), capacity, ops[1..], key)
  }

  lemma StepAtKey(records: Records, capacity: nat, op: Op, key: string)
    requires op.Create? && op.key == key ==> key in records
    ensures key !in records ==> key !in Step(records, capacity, op) && !Succeeds(records, op, key)
    ensures key in records && key in Step(records, capacity, op) ==>
      var r, s := records[key], Step(records, capacity, op)[key];
      && Evolves(r, s) && s.generation == r.generation + if Succeeds(records, op, key) then 1 else 0
    ensures key in records && key !in Step(records, capacity, op) ==>
      op.Create? && op.record.createdAt >= records[key].expiresAt && !Succeeds(records, op, key)
  {
    if op.Apply? && op.key == key && key in records && Applied(records, key, op.generation, op.event, op.now).Ok? {
      TransitionEvolves(records[key], op.generation, op.event, op.now);
    }
  }

  /** After one step of a run that never reuses the key, the rest of the run does not either. */
  lemma NotReusedStep(records: Records, capacity: nat, ops: seq<Op>, key: string)
    requires ops != [] && NotReused(records, ops, key)
    ensures NotReused(Step(records, capacity, ops[0]), ops[1..], key)
    ensures ops[0].Create? && ops[0].key == key ==> key in records
  {
    assert forall j :: 0 <= j < |ops| - 1 ==> ops[1..][j] == ops[j + 1];
    assert key !in records && ops[0].Create? ==> ops[0].key != key;
    StepAtKey(records, capacity, ops[0], key);
    hide Step;
  }

  /** While its key is not reused a record only evolves, and its generation counts the successful events. */
  lemma {:induction false} GenerationCountsSuccesses(records: Records, capacity: nat, ops: seq<Op>, key: string)
    requires NotReused(records, ops, key)
    ensures key !in records ==> key !in Run(records, capacity, ops) && Successes(records, capacity, ops, key) == 0
    ensures key in records && key in Run(records, capacity, ops) ==>
      var r, s := records[key], Run(records, capacity, ops)[key];
      Evolves(r, s) && s.generation == r.generation + Successes(records, capacity, ops, key)
    decreases |ops|
  {
    if ops != [] {
      NotReusedStep(records, capacity, ops, key);
      StepAtKey(records, capacity, ops[0], key);
      hide Step;
      hide Applied;
      hide Succeeds;
      hide NotReused;
      GenerationCountsSuccesses(Step(records, capacity, ops[0]), capacity, ops[1..], key);
    }
  }

  /** The events on `key` that succeed in a run, in order. */
  ghost function Succeeded(records: Records, capacity: nat, ops: seq<Op>, key: string): seq<Event>
    decreases |ops|
  {
    if ops == [] then []
    else
      (if Succeeds(records, ops[0], key) then [ops[0].event] else [])
      + Succeeded(Step(records, capacity, ops[0]), capacity, ops[1..], key)
  }

  /** The event that ends a trial with this status. */
  function Ending(status: Status): seq<Event> {
    match status
    case Stopped => [Stop] case AnswerFirst => [CompleteVerified] case Unverified => [CompleteUnverified] case _ => []
  }

  /** What has happened between two states of one trial. */
  function Story(r: Record, s: Record): seq<Event> {
    (if s.assisted && !r.assisted then [Help] else []) + if r.status.Pending? then Ending(s.status) else []
  }

  lemma StoryStep(r: Record, m: Record, s: Record, generation: int, event: Event, now: Time)
    requires Transition(r, generation, event, now) == Ok(m) && Evolves(m, s)
    ensures Story(r, s) == [event] + Story(m, s)
  {
  }

  /** While its key is not reused, a record tells exactly which events have succeeded on it, and in which order. */
  lemma {:induction false} RecordTellsHistory(records: Records, capacity: nat, ops: seq<Op>, key: string)
    requires NotReused(records, ops, key) && key in records && key in Run(records, capacity, ops)
    requires ValidRecord(records[key])
    ensures Succeeded(records, capacity, ops, key) == Story(records[key], Run(records, capacity, ops)[key])
    decreases |ops|
  {
    if ops != [] {
      var next := Step(records, capacity, ops[0]);
      NotReusedStep(records, capacity, ops, key);
      StepAtKey(records, capacity, ops[0], key);
      GenerationCountsSuccesses(next, capacity, ops[1..], key);
      assert key in next;
      if Succeeds(records, ops[0], key) {
        AppliedThere(records, capacity, ops[0], key);
        StoryStep(records[key], next[key], Run(records, capacity, ops)[key], ops[0].generation, ops[0].event,
          ops[0].now);
      }
      hide Step;
      hide Applied;
      hide Succeeds;
      hide NotReused;
      hide Story;
      RecordTellsHistory(next, capacity, ops[1..], key);
    } else {
      NoStory(records[key]);
    }
  }

  lemma NoStory(r: Record)
    requires ValidRecord(r)
    ensures Story(r, r) == []
  {
  }

  lemma AppliedThere(records: Records, capacity: nat, op: Op, key: string)
    requires Succeeds(records, op, key)
    ensures var next := Step(records, capacity, op);
      && key in records && key in next && ValidRecord(next[key])
      && Transition(records[key], op.generation, op.event, op.now) == Ok(next[key])
  {
  }

  ghost function SuccessesAt(records: Records, capacity: nat, ops: seq<Op>, key: string, generation: int): nat
    decreases |ops|
  {
    if ops == [] then 0
    else (if Succeeds(records, ops[0], key) && ops[0].generation == generation then 1 else 0)
         + SuccessesAt(Step(records, capacity, ops[0]), capacity, ops[1..], key, generation)
  }

  lemma {:induction false} NoneAtPassedGeneration(
    records: Records, capacity: nat, ops: seq<Op>, key: string, generation: int)
    requires NotReused(records, ops, key) && (key in records ==> records[key].generation > generation)
    ensures SuccessesAt(records, capacity, ops, key, generation) == 0
    decreases |ops|
  {
    if ops != [] {
      NotReusedStep(records, capacity, ops, key);
      StepAtKey(records, capacity, ops[0], key);
      assert Succeeds(records, ops[0], key) ==> ops[0].generation == records[key].generation;
      hide Step;
      hide Succeeds;
      NoneAtPassedGeneration(Step(records, capacity, ops[0]), capacity, ops[1..], key, generation);
    }
  }

  /** Of all operations racing on one generation of a trial, at most one succeeds. */
  lemma {:induction false} AtMostOneWins(records: Records, capacity: nat, ops: seq<Op>, key: string, generation: int)
    requires NotReused(records, ops, key)
    ensures SuccessesAt(records, capacity, ops, key, generation) <= 1
    decreases |ops|
  {
    if ops != [] {
      NotReusedStep(records, capacity, ops, key);
      StepAtKey(records, capacity, ops[0], key);
      var next := Step(records, capacity, ops[0]);
      if Succeeds(records, ops[0], key) && ops[0].generation == generation {
        NoneAtPassedGeneration(next, capacity, ops[1..], key, generation);
      } else {
        AtMostOneWins(next, capacity, ops[1..], key, generation);
      }
    }
  }

  /** After a create dated past the deadline the key is never created again with that very deadline. */
  ghost predicate TwinFree(ops: seq<Op>, key: string, deadline: Time) {
    forall i, j ::
      0 <= i < j < |ops| && ops[i].Create? && ops[i].record.createdAt >= deadline && ops[j].Create? ==>
        ops[j].key == key && ValidRecord(ops[j].record) ==> ops[j].record.expiresAt != deadline
  }

  ghost predicate CreatesInOrder(ops: seq<Op>) {
    forall i, j :: 0 <= i < j < |ops| && ops[i].Create? && ops[j].Create? ==>
      ops[i].record.createdAt <= ops[j].record.createdAt
  }

  /** Keys that are not reused have no twin, and neither do creates dated in order. */
  lemma TwinFreeRuns(records: Records, ops: seq<Op>, key: string)
    requires key in records && (NotReused(records, ops, key) || CreatesInOrder(ops))
    ensures TwinFree(ops, key, records[key].expiresAt)
  {
  }

  ghost predicate OtherDeadlines(ops: seq<Op>, key: string, deadline: Time) {
    forall j :: 0 <= j < |ops| && ops[j].Create? && ops[j].key == key && ValidRecord(ops[j].record) ==>
      ops[j].record.expiresAt != deadline
  }

  lemma StepKeepsOtherDeadline(records: Records, capacity: nat, op: Op, key: string, deadline: Time)
    requires key in records ==> records[key].expiresAt != deadline
    requires op.Create? && op.key == key && ValidRecord(op.record) ==> op.record.expiresAt != deadline
    ensures key in Step(records, capacity, op) ==> Step(records, capacity, op)[key].expiresAt != deadline
  {
  }

  lemma {:induction false} RunKeepsOtherDeadline(
    records: Records, capacity: nat, ops: seq<Op>, key: string, deadline: Time)
    requires OtherDeadlines(ops, key, deadline) && (key in records ==> records[key].expiresAt != deadline)
    ensures key in Run(records, capacity, ops) ==> Run(records, capacity, ops)[key].expiresAt != deadline
    decreases |ops|
  {
    if ops != [] {
      StepKeepsOtherDeadline(records, capacity, ops[0], key, deadline);
      assert OtherDeadlines(ops[1..], key, deadline);
      hide Step;
      RunKeepsOtherDeadline(Step(records, capacity, ops[0]), capacity, ops[1..], key, deadline);
    }
  }

  /**
   Over any run a record has been counted up by its successful events, is gone, or has been
   succeeded by one with another deadline.
   */
  lemma {:induction false} CountedOrSucceeded(records: Records, capacity: nat, ops: seq<Op>, key: string)
    requires key in records && TwinFree(ops, key, records[key].expiresAt)
    ensures key in Run(records, capacity, ops) ==>
      var r, s := records[key], Run(records, capacity, ops)[key];
      s.expiresAt != r.expiresAt || s.generation == r.generation + Successes(records, capacity, ops, key)
    decreases |ops|
  {
    if ops != [] {
      var deadline, next := records[key].expiresAt, Step(records, capacity, ops[0]);
      StepAtKey(records, capacity, ops[0], key);
      assert forall j :: 0 <= j < |ops| - 1 ==> ops[1..][j] == ops[j + 1];
      hide Step;
      hide Succeeds;
      if key in next {
        CountedOrSucceeded(next, capacity, ops[1..], key);
      } else {
        RunKeepsOtherDeadline(next, capacity, ops[1..], key, deadline);
      }
    }
  }

  // ---------------------------------------------------------------- verification and commit

  datatype Verdict = VerdictAnswerFirst | VerdictUnverified | UnknownVerdict

  function EventOf(v: Verdict): Option<Event> {
    match v
    case VerdictAnswerFirst => Some(CompleteVerified)
    case VerdictUnverified => Some(CompleteUnverified)
    case UnknownVerdict => None
  }

  /** The record with a verdict committed onto it. */
  function Judged(r: Record, verdict: Verdict): Record {
    r.(status := if verdict.VerdictAnswerFirst? then AnswerFirst else Unverified, generation := r.generation + 1)
  }

  /** Whatever happened in between, a committed verdict changes only status and generation of what is stored then. */
  lemma CommitJudges(records: Records, key: string, generation: int, verdict: Verdict, commitAt: Time)
    requires EventOf(verdict).Some? && Applied(records, key, generation, EventOf(verdict).value, commitAt).Ok?
    ensures key in records && records[key].generation == generation && records[key].status.Pending?
    ensures records[key].createdAt <= commitAt < records[key].expiresAt
    ensures Applied(records, key, generation, EventOf(verdict).value, commitAt).value == Judged(records[key], verdict)
  {
  }

  /**
   A verdict commits only onto the very record that was verified, when its key is not reused: then
   nothing succeeded in between and the original deadline has not passed.
   */
  lemma {:induction false} CommitMeansUnchanged(
    records: Records, capacity: nat, ops: seq<Op>, key: string, generation: int, verdict: Verdict, commitAt: Time)
    requires NotReused(records, ops, key) && key in records && records[key].generation == generation
    requires EventOf(verdict).Some?
    requires Applied(Run(records, capacity, ops), key, generation, EventOf(verdict).value, commitAt).Ok?
    ensures var r := records[key];
      && Successes(records, capacity, ops, key) == 0 && Run(records, capacity, ops)[key] == r
      && r.createdAt <= commitAt < r.expiresAt
      && Applied(Run(records, capacity, ops), key, generation, EventOf(verdict).value, commitAt).value
         == Judged(r, verdict)
  {
    hide NotReused;
    GenerationCountsSuccesses(records, capacity, ops, key);
    CommitJudges(Run(records, capacity, ops), key, generation, verdict, commitAt);
  }

  /**
   The exact guard, reused keys included: as long as no create is dated after the commit, the
   verdict lands on the record that was verified if and only if that record's deadline has not passed.
   */
  lemma {:induction false} StaleVerdictIff(
    records: Records, capacity: nat, ops: seq<Op>, key: string, generation: int, verdict: Verdict, commitAt: Time)
    requires CreatesBy(ops, commitAt) && key in records && records[key].generation == generation
    requires EventOf(verdict).Some?
    requires Applied(Run(records, capacity, ops), key, generation, EventOf(verdict).value, commitAt).Ok?
    ensures Run(records, capacity, ops)[key] == records[key] <==> commitAt < records[key].expiresAt
  {
    CommitJudges(Run(records, capacity, ops), key, generation, verdict, commitAt);
    if commitAt < records[key].expiresAt {
      NeverReused(records, ops, key, commitAt);
      hide NotReused;
      CommitMeansUnchanged(records, capacity, ops, key, generation, verdict, commitAt);
    }
  }

  /** A valid key other than `key`. */
  function OtherKey(key: string): (other: string)
    ensures ValidKey(other) && other != key
  {
    var zeros, ones := seq(64, _ => '0'), seq(64, _ => '1');
    assert zeros[0] != ones[0];
    if key == zeros then ones else zeros
  }

  /** The first instant at or after `t` that a record may be dated. */
  function Usable(t: Time): Time {
    if t == ZERO_TIME then t + 1 else t
  }

  /** In a store with room for one record the sweeper itself has to expire first. */
  function TakeoverFrom(r: Record, capacity: nat): Time {
    if capacity == 1 then Usable(r.expiresAt) + TTL else r.expiresAt
  }

  /** Sweep the key, create it again at the commit time, and bring it to the read record's generation. */
  function Takeover(r: Record, key: string, capacity: nat, t: Time): seq<Op> {
    var sweeper := Started(if capacity == 1 then Usable(r.expiresAt) else t);
    [Create(OtherKey(key), sweeper), Create(key, Started(t))] + if r.assisted then [Apply(key, 1, Help, t)] else []
  }

  lemma RunConcat(records: Records, capacity: nat, a: seq<Op>, b: seq<Op>)
    ensures Run(records, capacity, a + b) == Run(Run(records, capacity, a), capacity, b)
    decreases |a|
  {
    if a == [] {
      assert a + b == b;
    } else {
      hide Step;
      assert (a + b)[1..] == a[1..] + b;
      RunConcat(Step(records, capacity, a[0]), capacity, a[1..], b);
    }
  }

  lemma RunOne(records: Records, capacity: nat, op: Op)
    ensures Run(records, capacity, [op]) == Step(records, capacity, op)
  {
    hide Step;
    assert [op][1..] == [];
  }

  /** The two creates: the sweeper goes in, and then the key. */
  lemma TakeoverCreates(r: Record, key: string, capacity: nat, t: Time)
    requires ValidRecord(r) && ValidKey(key) && capacity >= 1 && TakeoverFrom(r, capacity) <= t && t != ZERO_TIME
    ensures var records := Run(map[key := r], capacity, Takeover(r, key, capacity, t)[..2]);
      key in records && records[key] == Started(t)
  {
    var other := OtherKey(key);
    var sweeper := Started(if capacity == 1 then Usable(r.expiresAt) else t);
    var a, b := Create(other, sweeper), Create(key, Started(t));
    assert Swept(map[key := r], sweeper.createdAt) == map[];
    var first := Step(map[key := r], capacity, a);
    assert first == map[other := sweeper];
    assert Swept(first, t) == if capacity == 1 then map[] else first;
    assert Step(first, capacity, b) == Swept(first, t)[key := Started(t)];
    RunOne(map[key := r], capacity, a);
    RunOne(first, capacity, b);
    RunConcat(map[key := r], capacity, [a], [b]);
    assert Takeover(r, key, capacity, t)[..2] == [a] + [b];
  }

  lemma TakeoverRun(r: Record, key: string, capacity: nat, t: Time)
    requires ValidRecord(r) && r.status.Pending? && ValidKey(key)
    requires capacity >= 1 && TakeoverFrom(r, capacity) <= t && t != ZERO_TIME
    ensures var records := Run(map[key := r], capacity, Takeover(r, key, capacity, t));
      key in records && records[key] == Started(t).(assisted := r.assisted, generation := r.generation)
  {
    var ops := Takeover(r, key, capacity, t);
    TakeoverCreates(r, key, capacity, t);
    var second := Run(map[key := r], capacity, ops[..2]);
    assert ops == ops[..2] + ops[2..];
    RunConcat(map[key := r], capacity, ops[..2], ops[2..]);
    if r.assisted {
      assert ops[2..] == [Apply(key, 1, Help, t)];
      RunOne(second, capacity, Apply(key, 1, Help, t));
    } else {
      assert ops[2..] == [];
    }
  }

  /**
   What a store for one record can hold after the read: the record itself, or a later one; and the
   key again only behind a sweeper's whole lifetime.
   */
  ghost predicate Solo(records: Records, key: string, r: Record, n: nat) {
    exists k, x :: records == map[k := x] && x.expiresAt == x.createdAt + TTL && SoloRecord(k, x, key, r, n)
  }

  predicate LaterThan(x: Record, t: Time) { x.createdAt >= t }

  /** `n` counts the successful events so far, as long as the record is still there. */
  ghost predicate SoloRecord(k: string, x: Record, key: string, r: Record, n: nat) {
    || (k == key && Evolves(r, x) && x.generation == r.generation + n)
    || (LaterThan(x, Usable(r.expiresAt)) && (k == key ==> LaterThan(x, Usable(r.expiresAt) + TTL)))
  }

  lemma StepKeepsSolo(records: Records, op: Op, key: string, r: Record, n: nat)
    requires Solo(records, key, r, n)
    ensures Solo(Step(records, 1, op), key, r, n + if Succeeds(records, op, key) then 1 else 0)
  {
    var k, x :| records == map[k := x] && x.expiresAt == x.createdAt + TTL && SoloRecord(k, x, key, r, n);
    var n' := n + if Succeeds(records, op, key) then 1 else 0;
    match op
    case Create(l, s) =>
      assert Swept(records, s.createdAt) == if x.expiresAt > s.createdAt then records else map[];
      if Created(records, 1, l, s).Ok? {
        assert Step(records, 1, op) == map[l := s] && SoloRecord(l, s, key, r, n');
      }
    case Apply(l, generation, event, now) =>
      if Applied(records, l, generation, event, now).Ok? {
        TransitionEvolves(x, generation, event, now);
        var y := Applied(records, l, generation, event, now).value;
        assert Step(records, 1, op) == map[k := y] && SoloRecord(k, y, key, r, n');
      }
  }

  lemma {:induction false} RunKeepsSolo(records: Records, ops: seq<Op>, key: string, r: Record, n: nat)
    requires Solo(records, key, r, n)
    ensures Solo(Run(records, 1, ops), key, r, n + Successes(records, 1, ops, key))
    decreases |ops|
  {
    hide Step;
    hide Solo;
    hide Succeeds;
    if ops != [] {
      StepKeepsSolo(records, ops[0], key, r, n);
      RunKeepsSolo(Step(records, 1, ops[0]), ops[1..], key, r, n + if Succeeds(records, ops[0], key) then 1 else 0);
    }
  }

  /** From the read record on, what stands under the key is that record, counted up, or a much later one. */
  lemma SoloRun(r: Record, ops: seq<Op>, key: string)
    requires ValidRecord(r) && key in Run(map[key := r], 1, ops)
    ensures var x := Run(map[key := r], 1, ops)[key];
      SoloRecord(key, x, key, r, Successes(map[key := r], 1, ops, key)) && x.expiresAt == x.createdAt + TTL
  {
    assert SoloRecord(key, r, key, r, 0);
    assert map[key := r] == map[key := r] && r.expiresAt == r.createdAt + TTL;
    RunKeepsSolo(map[key := r], ops, key, r, 0);
    hide Run;
    hide Successes;
    var records, n := Run(map[key := r], 1, ops), Successes(map[key := r], 1, ops, key);
    var k, x :| records == map[k := x] && x.expiresAt == x.createdAt + TTL && SoloRecord(k, x, key, r, n);
    assert k == key && records[key] == x;
  }

  /** With room for one record only, nobody else can stand under the key before a sweeper has come and gone. */
  lemma SoloTakeoverWaits(r: Record, key: string, ops: seq<Op>, verdict: Verdict, commitAt: Time)
    requires ValidRecord(r) && EventOf(verdict).Some?
    requires Applied(Run(map[key := r], 1, ops), key, r.generation, EventOf(verdict).value, commitAt).Ok?
    requires Run(map[key := r], 1, ops)[key] != r
    ensures TakeoverFrom(r, 1) <= commitAt
  {
    CommitJudges(Run(map[key := r], 1, ops), key, r.generation, verdict, commitAt);
    SoloRun(r, ops, key);
    hide Run;
    hide Successes;
  }

  ghost predicate CreatesFrom(ops: seq<Op>, t: Time) {
    forall i :: 0 <= i < |ops| && ops[i].Create? ==> t <= ops[i].record.createdAt
  }

  /** Only a create that repeats the start of the trial can be a twin. */
  lemma TwinRepeatsTheStart(ops: seq<Op>, key: string, r: Record, t: Time)
    requires ValidRecord(r) && CreatesFrom(ops, t) && r.createdAt < t
    ensures TwinFree(ops, key, r.expiresAt)
  {
  }

  /** Stop, sweep, the key created again with the old dates, and help where it had been given. */
  function TwinRun(key: string, r: Record): seq<Op> {
    [Apply(key, r.generation, Stop, r.createdAt)]
    + ([Create(OtherKey(key), Started(Usable(r.expiresAt))), Create(key, Started(r.createdAt))]
       + if r.assisted then [Apply(key, 1, Help, r.createdAt)] else [])
  }

  lemma TwinRunResult(key: string, r: Record, capacity: nat)
    requires ValidKey(key) && ValidRecord(r) && r.status.Pending? && capacity >= 2
    ensures var records := Run(map[key := r], capacity, TwinRun(key, r));
      key in records && records[key] == r
    ensures Successes(map[key := r], capacity, TwinRun(key, r), key) > 0
    ensures CreatesFrom(TwinRun(key, r), r.createdAt)
  {
    var t, other, sweeper := r.createdAt, OtherKey(key), Started(Usable(r.expiresAt));
    var a, b, c := Apply(key, r.generation, Stop, t), Create(other, sweeper), Create(key, Started(t));
    var help := if r.assisted then [Apply(key, 1, Help, t)] else [];
    var s0, s1, s2 := map[key := r], map[key := AfterStop(r)], map[other := sweeper];
    assert TwinRun(key, r)[0] == a && TwinRun(key, r) == [a] + ([b, c] + help);
    TwinSteps(key, r, capacity);
    hide *;
    HelpAgain(s2[key := Started(t)], capacity, key, r);
    RunOne(s0, capacity, a);
    RunOne(s1, capacity, b);
    RunOne(s2, capacity, c);
    RunConcat(s1, capacity, [b], [c]);
    assert [b] + [c] == [b, c];
    RunConcat(s1, capacity, [b, c], help);
    RunConcat(s0, capacity, [a], [b, c] + help);
    FirstCounts(s0, capacity, TwinRun(key, r), key);
  }

  function AfterStop(r: Record): Record {
    r.(status := Stopped, generation := r.generation + 1)
  }

  /** The three steps of the twin: stopped, swept by another trial, and started again. */
  lemma TwinSteps(key: string, r: Record, capacity: nat)
    requires ValidKey(key) && ValidRecord(r) && r.status.Pending? && capacity >= 2
    ensures var sweeper := Started(Usable(r.expiresAt));
      var s1, s2 := map[key := AfterStop(r)], map[OtherKey(key) := sweeper];
      var a := Apply(key, r.generation, Stop, r.createdAt);
      && Step(map[key := r], capacity, a) == s1 && Succeeds(map[key := r], a, key)
      && Step(s1, capacity, Create(OtherKey(key), sweeper)) == s2
      && Step(s2, capacity, Create(key, Started(r.createdAt))) == s2[key := Started(r.createdAt)]
    ensures CreatesFrom(TwinRun(key, r), r.createdAt)
  {
    var sweeper := Started(Usable(r.expiresAt));
    var s1, s2 := map[key := AfterStop(r)], map[OtherKey(key) := sweeper];
    assert Swept(s1, sweeper.createdAt) == map[];
    assert Swept(s2, r.createdAt) == s2;
  }

  lemma FirstCounts(records: Records, capacity: nat, ops: seq<Op>, key: string)
    requires ops != [] && Succeeds(records, ops[0], key)
    ensures Successes(records, capacity, ops, key) > 0
  {
    hide Step;
    hide Succeeds;
  }

  lemma HelpAgain(records: Records, capacity: nat, key: string, r: Record)
    requires ValidKey(key) && ValidRecord(r) && r.status.Pending?
    requires key in records && records[key] == Started(r.createdAt)
    ensures var after := Run(records, capacity, if r.assisted then [Apply(key, 1, Help, r.createdAt)] else []);
      key in after && after[key] == r
  {
    if r.assisted { RunOne(records, capacity, Apply(key, 1, Help, r.createdAt)); }
  }

  /**
   Past that guard the danger is real.  Some run lets the verdict land on another record if and only
   if the commit comes at or after the read record's deadline; in a store for one record, a whole
   trial later.
   */
  lemma {:induction false} StaleVerdictPossibleIff(
    r: Record, key: string, capacity: nat, verdict: Verdict, commitAt: Time)
    requires ValidRecord(r) && r.status.Pending? && ValidKey(key) && capacity >= 1 && EventOf(verdict).Some?
    ensures (exists ops :: CreatesBy(ops, commitAt) && Misplaced(r, key, capacity, ops, verdict, commitAt))
       <==> TakeoverFrom(r, capacity) <= commitAt && commitAt != ZERO_TIME
  {
    hide *;
    if TakeoverFrom(r, capacity) <= commitAt && commitAt != ZERO_TIME {
      TakeoverMisplaces(r, key, capacity, verdict, commitAt);
    }
    forall ops | CreatesBy(ops, commitAt) && Misplaced(r, key, capacity, ops, verdict, commitAt)
      ensures TakeoverFrom(r, capacity) <= commitAt && commitAt != ZERO_TIME
    {
      MisplacedIsLate(r, key, capacity, ops, verdict, commitAt);
    }
  }

  lemma TakeoverMisplaces(r: Record, key: string, capacity: nat, verdict: Verdict, commitAt: Time)
    requires ValidRecord(r) && r.status.Pending? && ValidKey(key) && capacity >= 1 && EventOf(verdict).Some?
    requires TakeoverFrom(r, capacity) <= commitAt && commitAt != ZERO_TIME
    ensures var ops := Takeover(r, key, capacity, commitAt);
      CreatesBy(ops, commitAt) && Misplaced(r, key, capacity, ops, verdict, commitAt)
  {
    TakeoverRun(r, key, capacity, commitAt);
    hide Run;
  }

  lemma MisplacedIsLate(r: Record, key: string, capacity: nat, ops: seq<Op>, verdict: Verdict, commitAt: Time)
    requires ValidRecord(r) && capacity >= 1 && EventOf(verdict).Some?
    requires CreatesBy(ops, commitAt) && Misplaced(r, key, capacity, ops, verdict, commitAt)
    ensures TakeoverFrom(r, capacity) <= commitAt && commitAt != ZERO_TIME
  {
    hide Run;
    StaleVerdictIff(map[key := r], capacity, ops, key, r.generation, verdict, commitAt);
    if capacity == 1 { SoloTakeoverWaits(r, key, ops, verdict, commitAt); }
  }

  /** After `ops` the verdict on `r` is committed onto a record other than `r`. */
  ghost predicate Misplaced(r: Record, key: string, capacity: nat, ops: seq<Op>, verdict: Verdict, commitAt: Time)
    requires EventOf(verdict).Some?
  {
    && Applied(Run(map[key := r], capacity, ops), key, r.generation, EventOf(verdict).value, commitAt).Ok?
    && Run(map[key := r], capacity, ops)[key] != r
  }

  // ---------------------------------------------------------------- the service

  datatype Owner = Owner(uid: string, appId: string)

  datatype Snapshot = Snapshot(
    version: int, id: string, questionId: string, generation: int, assisted: bool, status: Status, expiresAt: Time)

  function SnapshotOf(id: string, r: Record): Snapshot {
    Snapshot(1, id, r.question, r.generation, r.assisted, r.status, r.expiresAt)
  }

  predicate ValidPart(v: string) {
    && v != "" && |v| <= 256 && !Text.IsSpace(v[0]) && !Text.IsSpace(v[|v| - 1])
    && forall i :: 0 <= i < |v| ==> v[i] != '\0'
  }

  predicate ValidOwner(o: Owner) { ValidPart(o.uid) && ValidPart(o.appId) }

  /** The authenticated message that names a trial's document, behind its fixed label. */
  function Message(o: Owner, id: string): string {
    o.uid + ['\0'] + o.appId + ['\0'] + id
  }

  lemma {:induction false} CutAtNul(a: string, x: string, b: string, y: string)
    requires '\0' !in a && '\0' !in b && a + ['\0'] + x == b + ['\0'] + y
    ensures a == b && x == y
  {
    var s := a + ['\0'] + x;
    assert s[|a|] == '\0' && s[|b|] == '\0';
    assert forall i :: 0 <= i < |a| ==> s[i] == a[i];
    assert forall i :: 0 <= i < |b| ==> s[i] == b[i];
    assert |a| == |b|;
    assert a == s[..|a|] == b && x == s[|a| + 1..] == y;
  }

  /** Different owners or ids never share a document: the message determines all three parts. */
  lemma DocumentsAreSeparate(o: Owner, id: string, o': Owner, id': string)
    requires ValidOwner(o) && ValidOwner(o')
    ensures Message(o, id) == Message(o', id') <==> o == o' && id == id'
  {
    if Message(o, id) == Message(o', id') {
      var x, y := o.appId + ['\0'] + id, o'.appId + ['\0'] + id';
      assert Message(o, id) == o.uid + ['\0'] + x && Message(o', id') == o'.uid + ['\0'] + y;
      CutAtNul(o.uid, x, o'.uid, y);
      CutAtNul(o.appId, id, o'.appId, id');
    }
  }

  /** A pending trial that can be read at `now`, at this generation. */
  predicate Readable(records: Records, key: string, generation: int, now: Time) {
    && ValidKey(key) && key in records && Current(records[key], now).Ok?
    && records[key].status.Pending? && records[key].generation == generation
  }

  class Service {
    const store: MemoryStore
    const hmac: string -> string

    constructor (store: MemoryStore, hmac: string -> string)
      ensures this.store == store && this.hmac == hmac
    {
      this.store := store;
      this.hmac := hmac;
    }

    function DocumentKey(o: Owner, id: string): Option<string> {
      if ValidOwner(o) && ValidKey(id) then Some(hmac(Message(o, id))) else None
    }

    /** A new trial under a random id; `now` is already cut to the microsecond. */
    method Begin(o: Owner, contextDone: bool, id: string, now: Time) returns (r: Result<Snapshot, Error>)
      requires store.Valid()
      modifies store
      ensures store.Valid() && (r.Err? ==> store.records == old(store.records))
      ensures DocumentKey(o, id).None? || contextDone ==> r.Err?
      ensures DocumentKey(o, id).Some? && !contextDone ==>
        var started := Started(now);
        var key := DocumentKey(o, id).value;
        match Created(old(store.records), store.capacity, key, started)
        case Ok(next) =>
          && r == Ok(SnapshotOf(id, started)) && store.records == next
          && key !in old(store.records) && next == Swept(old(store.records), now)[key := started]
        case Err(e) => r == Err(e)
    {
      if !ValidOwner(o) {
        return Err(Invalid);
      }
      if contextDone {
        return Err(ContextDone);
      }
      var key := DocumentKey(o, id);
      if key.None? {
        return Err(Invalid);
      }
      var record := Started(now);
      var error := store.CreateRecord(false, key.value, record);
      if error.Some? {
        return Err(error.value);
      }
      r := Ok(SnapshotOf(id, record));
    }

    /** Help and stop are the only actions a caller can name. */
    method Update(
      o: Owner, contextDone: bool, id: string, generation: int, action: string, now: Time)
      returns (r: Result<Snapshot, Error>)
      requires store.Valid()
      modifies store
      ensures store.Valid() && (r.Err? ==> store.records == old(store.records))
      ensures r.Ok? <==>
        && !contextDone && DocumentKey(o, id).Some? && (action == "help" || action == "stop") && 1 <= generation <= 2
        && var event := if action == "help" then Help else Stop;
        Applied(old(store.records), DocumentKey(o, id).value, generation, event, now).Ok?
      ensures r.Ok? ==>
        && DocumentKey(o, id).Some? && DocumentKey(o, id).value in old(store.records)
        && DocumentKey(o, id).value in store.records
        && (action == "help" || action == "stop")
        && var key := DocumentKey(o, id).value;
        var before, after := old(store.records)[key], store.records[key];
        && Evolves(before, after) && after.generation == generation + 1 && r == Ok(SnapshotOf(id, after))
        && (action == "help" ==> !before.assisted && after.assisted && after.status.Pending?)
        && (action == "stop" ==> after.status.Stopped? && after.assisted == before.assisted)
        && store.records == old(store.records)[key := after]
    {
      var key := DocumentKey(o, id);
      if key.None? || (action != "help" && action != "stop") || generation < 1 || generation > 2 {
        return Err(Invalid);
      }
      var event := if action == "help" then Help else Stop;
      ghost var before := store.records;
      var updated := store.ApplyEvent(contextDone, key.value, generation, event, now);
      if updated.Err? {
        return Err(updated.error);
      }
      TransitionEvolves(before[key.value], generation, event, now);
      r := Ok(SnapshotOf(id, updated.value));
    }

    /**
     Read, verify, compare and set.  `others` is what other callers do to the store while the
     verifier runs, `verdict` is what it returns, and `cancelled` says that the caller has given up
     in the meantime.
     */
    method Evaluate(o: Owner, id: string, generation: int, contextDone: bool, readAt: Time,
                    others: seq<Op>, verdict: Option<Verdict>, cancelled: bool, commitAt: Time)
      returns (r: Result<Snapshot, Error>)
      requires store.Valid()
      modifies store
      ensures store.Valid()
      ensures r.Ok? <==>
        && 1 <= generation <= 2 && !contextDone && !cancelled && DocumentKey(o, id).Some?
        && verdict.Some? && EventOf(verdict.value).Some?
        && var key := DocumentKey(o, id).value;
        && Readable(old(store.records), key, generation, readAt)
        && Applied(Run(old(store.records), store.capacity, others), key, generation,
                   EventOf(verdict.value).value, commitAt).Ok?
      ensures r.Ok? ==>
        && var key := DocumentKey(o, id).value;
        var read, after := old(store.records)[key], Run(old(store.records), store.capacity, others);
        && read.status.Pending? && read.generation == generation && key in after
        && store.records == after[key := Judged(after[key], verdict.value)]
        && r == Ok(SnapshotOf(id, Judged(after[key], verdict.value)))
        && (NotReused(old(store.records), others, key) ==>
              after[key] == read && commitAt < read.expiresAt
                && Successes(old(store.records), store.capacity, others, key) == 0)
        && (CreatesBy(others, commitAt) ==> (after[key] == read <==> commitAt < read.expiresAt))
      ensures r.Err? ==>
        store.records == old(store.records) || store.records == Run(old(store.records), store.capacity, others)
    {
      if generation < 1 || generation > 2 {
        return Err(Invalid);
      }
      if contextDone {
        return Err(ContextDone);
      }
      var key := DocumentKey(o, id);
      if key.None? {
        return Err(Invalid);
      }
      var read := store.ReadRecord(false, key.value, readAt);
      if read.Err? {
        return Err(read.error);
      }
      if !read.value.status.Pending? || read.value.generation != generation {
        return Err(Conflict);
      }
      ghost var before := store.records;
      hide Step;
      hide Applied;
      store.Interfere(others);
      if verdict.None? {
        return Err(VerifierFailed);
      }
      if cancelled {
        return Err(ContextDone);
      }
      var event := EventOf(verdict.value);
      if event.None? {
        return Err(Invalid);
      }
      ghost var after := store.records;
      var committed := store.ApplyEvent(false, key.value, generation, event.value, commitAt);
      AppliedStep(after, store.capacity, key.value, generation, event.value, commitAt);
      if committed.Err? {
        return Err(committed.error);
      }
      CommitJudges(after, key.value, generation, verdict.value, commitAt);
      if NotReused(before, others, key.value) {
        CommitMeansUnchanged(before, store.capacity, others, key.value, generation, verdict.value, commitAt);
      }
      if CreatesBy(others, commitAt) {
        StaleVerdictIff(before, store.capacity, others, key.value, generation, verdict.value, commitAt);
      }
      r := Ok(SnapshotOf(id, committed.value));
    }
  }

  lemma AppliedStep(records: Records, capacity: nat, key: string, generation: int, event: Event, now: Time)
    ensures var r := Applied(records, key, generation, event, now);
      Step(records, capacity, Apply(key, generation, event, now)) == if r.Ok? then records[key := r.value] else records
  {
  }
}
