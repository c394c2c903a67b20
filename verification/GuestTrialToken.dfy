/**
 The encrypted-token side of a guest trial.  Its small state machine has to stay in step with the
 ledger, and a token must stop working as soon as the ledger has moved on.

 Encryption and message authentication are ideal: a sealed token is its owner and contents, and
 the derived tags are functions of their inputs.
 */
module GuestTrialToken {
  import opened Common
  import L = GuestTrial

  datatype Binding = Binding(id: string, generation: int, appTag: string, expiresAt: int)

  datatype Trial = Trial(
    version: int, question: string, scope: string, assisted: bool, outcome: L.Status, binding: Option<Binding>)

  /** The keyed functions: owner tag, session id, question scope, and their shape checks. */
  datatype Keys = Keys(
    appTag: L.Owner -> string, session: (string, string) -> string, scope: string -> string,
    validTag: string -> bool, validSession: string -> bool)

  // ---------------------------------------------------------------- the trial machine

  predicate ValidBinding(b: Binding, assisted: bool, outcome: L.Status, keys: Keys) {
    && L.ValidKey(b.id) && b.generation == 1 + L.One(assisted) + L.One(!outcome.Pending?)
    && keys.validTag(b.appTag) && b.expiresAt > 0
  }

  predicate ValidTrial(t: Trial, keys: Keys) {
    && t.version == 1 && t.question == L.QUESTION_ID && keys.validTag(t.scope) && !t.outcome.UnknownStatus?
    && (t.binding.Some? ==> ValidBinding(t.binding.value, t.assisted, t.outcome, keys))
  }

  function Bumped(t: Trial): Trial {
    if t.binding.None? then t
    else t.(binding := Some(t.binding.value.(generation := t.binding.value.generation + 1)))
  }

  predicate Active(t: Trial, scope: string, keys: Keys) {
    ValidTrial(t, keys) && t.scope == scope && t.outcome.Pending?
  }

  function RequestHelp(t: Trial, scope: string, keys: Keys): Option<Trial> {
    if !Active(t, scope, keys) || t.assisted then None else Some(Bumped(t.(assisted := true)))
  }

  function StopTrial(t: Trial, scope: string, keys: Keys): Option<Trial> {
    if !Active(t, scope, keys) then None else Some(Bumped(t.(outcome := L.Stopped)))
  }

  datatype Proof = AnswerFirstProof | NoProof | UnknownProof

  /** `committedVoice` sums up the checks on the turn: a guest's final, committed, non-empty voice. */
  function CompleteTrial(
    t: Trial, scope: string, committedVoice: bool, frameTag: string, proof: Proof, keys: Keys): Option<Trial> {
    if !Active(t, scope, keys) || !committedVoice then None
    else
      match proof
      case AnswerFirstProof => if frameTag != t.scope then None else Some(Bumped(t.(outcome := L.AnswerFirst)))
      case NoProof => Some(Bumped(t.(outcome := L.Unverified)))
      case UnknownProof => None
  }

  /** The token-side operation for a ledger event, with a proof bound to the trial's own question. */
  function TokenStep(t: Trial, event: L.Event, keys: Keys): Option<Trial> {
    match event
    case Help => RequestHelp(t, t.scope, keys)
    case Stop => StopTrial(t, t.scope, keys)
    case CompleteVerified => CompleteTrial(t, t.scope, true, t.scope, AnswerFirstProof, keys)
    case CompleteUnverified => CompleteTrial(t, t.scope, true, t.scope, NoProof, keys)
    case UnknownEvent => None
  }

  /** The token's trial shows the ledger record's state. */
  ghost predicate InStep(t: Trial, r: L.Record, keys: Keys) {
    && ValidTrial(t, keys) && L.ValidRecord(r) && t.binding.Some?
    && t.assisted == r.assisted && t.outcome == r.status && t.binding.value.generation == r.generation
  }

  /** Before the deadline both machines accept the same events and move to matching states. */
  lemma StepSimulates(t: Trial, r: L.Record, event: L.Event, now: L.Time, keys: Keys)
    requires InStep(t, r, keys) && now != L.ZERO_TIME && r.createdAt <= now < r.expiresAt
    ensures TokenStep(t, event, keys).Some? <==> L.Transition(r, r.generation, event, now).Ok?
    ensures TokenStep(t, event, keys).Some? ==>
      InStep(TokenStep(t, event, keys).value, L.Transition(r, r.generation, event, now).value, keys)
  {
  }

  function TokenRun(t: Trial, events: seq<L.Event>, keys: Keys): Trial
    decreases |events|
  {
    if events == [] then t
    else
      match TokenStep(t, events[0], keys)
      case Some(u) => TokenRun(u, events[1..], keys)
      case None => TokenRun(t, events[1..], keys)
  }

  /** Each event is tried at the record's own generation; a refused event changes nothing. */
  function LedgerRun(r: L.Record, events: seq<L.Event>, times: seq<L.Time>): L.Record
    requires |events| == |times|
    decreases |events|
  {
    if events == [] then r
    else
      match L.Transition(r, r.generation, events[0], times[0])
      case Ok(s) => LedgerRun(s, events[1..], times[1..])
      case Err(_) => LedgerRun(r, events[1..], times[1..])
  }

  /** The two machines agree after any events, and on both sides the generation is determined. */
  lemma {:induction false} RunSimulates(t: Trial, r: L.Record, events: seq<L.Event>, times: seq<L.Time>, keys: Keys)
    requires InStep(t, r, keys) && |events| == |times|
    requires forall i :: 0 <= i < |times| ==> times[i] != L.ZERO_TIME && r.createdAt <= times[i] < r.expiresAt
    ensures var u, s := TokenRun(t, events, keys), LedgerRun(r, events, times);
      && InStep(u, s, keys)
      && u.binding.value.generation == s.generation == 1 + L.One(s.assisted) + L.One(!s.status.Pending?)
    decreases |events|
  {
    if events != [] {
      StepSimulates(t, r, events[0], times[0], keys);
      match L.Transition(r, r.generation, events[0], times[0])
      case Ok(s) =>
        L.TransitionEvolves(r, r.generation, events[0], times[0]);
        var u := TokenStep(t, events[0], keys).value;
        hide InStep;
        hide TokenStep;
        RunSimulates(u, s, events[1..], times[1..], keys);
      case Err(_) =>
        hide InStep;
        hide TokenStep;
        RunSimulates(t, r, events[1..], times[1..], keys);
    }
  }

  // ---------------------------------------------------------------- issuing and opening

  const TOKEN_SECONDS := 900
  const CLOCK_SKEW_SECONDS := 60

  datatype State = State(sessionId: string, trial: Option<Trial>)
  datatype Token = Token(uid: string, state: State, issuedAt: int)

  function Seconds(now: L.Time): int { now / 1_000_000 }

  function BindingFor(owner: L.Owner, s: L.Snapshot, now: L.Time, keys: Keys): Option<Binding> {
    if s.version != 1 || s.questionId != L.QUESTION_ID || !s.status.Pending? then None
    else if !(now < s.expiresAt <= now + L.TTL) then None
    else
      var b := Binding(s.id, s.generation, keys.appTag(owner), s.expiresAt);
      if ValidBinding(b, s.assisted, s.status, keys) then Some(b) else None
  }

  predicate ValidState(state: State, keys: Keys) {
    && keys.validSession(state.sessionId)
    && (state.trial.Some? ==> ValidTrial(state.trial.value, keys))
  }

  /** A fresh state for the question; nothing of an earlier conversation goes into it. */
  function Issue(owner: L.Owner, s: L.Snapshot, now: L.Time, keys: Keys): Option<Token> {
    match BindingFor(owner, s, now, keys)
    case None => None
    case Some(b) =>
      var sessionId := keys.session(b.appTag, b.id);
      var trial := Trial(1, L.QUESTION_ID, keys.scope(sessionId), s.assisted, L.Pending, Some(b));
      var state := State(sessionId, Some(trial));
      if L.ValidPart(owner.uid) && ValidState(state, keys) then Some(Token(owner.uid, state, Seconds(now))) else None
  }

  /** Authenticated decryption: bound to the user and to the token's own lifetime. */
  function Decrypt(uid: string, token: Token, now: L.Time, keys: Keys): Option<State> {
    if token.uid == uid && token.issuedAt <= Seconds(now) + CLOCK_SKEW_SECONDS
       && Seconds(now) < token.issuedAt + TOKEN_SECONDS && ValidState(token.state, keys)
    then Some(token.state) else None
  }

  function Open(owner: L.Owner, token: Token, s: L.Snapshot, now: L.Time, keys: Keys): Option<State> {
    match BindingFor(owner, s, now, keys)
    case None => None
    case Some(b) =>
      match Decrypt(owner.uid, token, now, keys)
      case None => None
      case Some(state) =>
        if state.trial.None? || state.trial.value.binding.None? then None
        else
          var trial, bound := state.trial.value, state.trial.value.binding.value;
          if && trial.outcome.Pending? && trial.assisted == s.assisted && bound.id == b.id
             && bound.generation == b.generation && bound.expiresAt == b.expiresAt && bound.appTag == b.appTag
             && trial.scope == keys.scope(state.sessionId)
          then Some(state) else None
  }

  /** Every token issued for one owner and trial carries the same session and question scope. */
  lemma ReissueKeepsTheQuestion(owner: L.Owner, s: L.Snapshot, s': L.Snapshot, now: L.Time, now': L.Time, keys: Keys)
    requires Issue(owner, s, now, keys).Some? && Issue(owner, s', now', keys).Some? && s.id == s'.id
    ensures var a, b := Issue(owner, s, now, keys).value.state, Issue(owner, s', now', keys).value.state;
      a.sessionId == b.sessionId && a.trial.value.scope == b.trial.value.scope
  {
  }

  /** Round trip: an issued token opens exactly for the same user on an unchanged, still open trial. */
  lemma OpensIff(owner: L.Owner, s: L.Snapshot, now: L.Time, owner': L.Owner, s': L.Snapshot, now': L.Time, keys: Keys)
    requires Issue(owner, s, now, keys).Some?
    ensures var token := Issue(owner, s, now, keys).value;
      Open(owner', token, s', now', keys).Some?
      <==> && BindingFor(owner', s', now', keys).Some? && Decrypt(owner'.uid, token, now', keys).Some?
           && s'.assisted == s.assisted && s'.id == s.id && s'.generation == s.generation
           && s'.expiresAt == s.expiresAt && keys.appTag(owner') == keys.appTag(owner)
  {
  }

  /** The snapshots a token can be made from, or opened against, at an instant. */
  predicate Issuable(owner: L.Owner, s: L.Snapshot, now: L.Time, keys: Keys) {
    && s.version == 1 && s.questionId == L.QUESTION_ID && s.status.Pending? && now < s.expiresAt <= now + L.TTL
    && s.generation == (if s.assisted then 2 else 1) && s.expiresAt > 0 && L.ValidKey(s.id)
    && keys.validTag(keys.appTag(owner))
  }

  /** Exactly when a token is issued. */
  lemma IssuedIff(owner: L.Owner, s: L.Snapshot, now: L.Time, keys: Keys)
    ensures var session := keys.session(keys.appTag(owner), s.id);
      Issue(owner, s, now, keys).Some?
      <==> && Issuable(owner, s, now, keys) && L.ValidPart(owner.uid)
           && keys.validSession(session) && keys.validTag(keys.scope(session))
  {
  }

  /**
   Exactly when an issued token opens, on trial, owner and clock alone: the same user with the same
   application tag, the same open trial state before its deadline, and a token no more than fifteen
   minutes old.
   */
  lemma OpensExactly(
    owner: L.Owner, s: L.Snapshot, now: L.Time, owner': L.Owner, s': L.Snapshot, now': L.Time, keys: Keys)
    requires Issue(owner, s, now, keys).Some?
    ensures Open(owner', Issue(owner, s, now, keys).value, s', now', keys).Some?
       <==> && s'.version == 1 && s'.questionId == L.QUESTION_ID && s'.status.Pending? && s'.id == s.id
            && s'.assisted == s.assisted && s'.generation == s.generation && s'.expiresAt == s.expiresAt
            && now' < s.expiresAt <= now' + L.TTL
            && owner'.uid == owner.uid && keys.appTag(owner') == keys.appTag(owner)
            && now / 1_000_000 - 60 <= now' / 1_000_000 < now / 1_000_000 + 900
  {
    OpensIff(owner, s, now, owner', s', now', keys);
    IssuedIff(owner, s, now, keys);
  }

  /** No token opens once the deadline of its trial has passed. */
  lemma ClosedAfterDeadline(
    owner: L.Owner, s: L.Snapshot, now: L.Time, owner': L.Owner, s': L.Snapshot, now': L.Time, keys: Keys)
    requires Issue(owner, s, now, keys).Some? && now' >= s.expiresAt
    ensures Open(owner', Issue(owner, s, now, keys).value, s', now', keys).None?
  {
    OpensExactly(owner, s, now, owner', s', now', keys);
    hide Open;
    hide Issue;
  }

  /** Exactly when a turn completes a trial, and how. */
  lemma CompletesIff(t: Trial, scope: string, committedVoice: bool, frameTag: string, proof: Proof, keys: Keys)
    ensures var r := CompleteTrial(t, scope, committedVoice, frameTag, proof, keys);
      && (r.Some? <==> && ValidTrial(t, keys) && t.scope == scope && t.outcome.Pending? && committedVoice
                       && !proof.UnknownProof? && (proof.AnswerFirstProof? ==> frameTag == t.scope))
      && (r.Some? ==> r.value.outcome == if proof.AnswerFirstProof? then L.AnswerFirst else L.Unverified)
  {
  }

  lemma OpenedIsIssued(owner: L.Owner, s: L.Snapshot, now: L.Time, now': L.Time, keys: Keys)
    requires Issue(owner, s, now, keys).Some? && now <= now' < s.expiresAt
      && Seconds(now') < Seconds(now) + TOKEN_SECONDS
    ensures Open(owner, Issue(owner, s, now, keys).value, s, now', keys) == Some(Issue(owner, s, now, keys).value.state)
  {
    OpensIff(owner, s, now, owner, s, now', keys);
  }

  // ---------------------------------------------------------------- staleness

  /**
   Once any event on a trial has succeeded in the store, a token issued before it never opens again:
   not after further operations of any callers, sweeps and creates included, at no clock reading, by
   nobody.
   */
  lemma {:induction false} SuccessfulEventRetiresTokens(
    owner: L.Owner, id: string, records: L.Records, capacity: nat, key: string, issuedAt: L.Time,
    ops: seq<L.Op>, opener: L.Owner, openedAt: L.Time, keys: Keys)
    requires key in records && Issue(owner, L.SnapshotOf(id, records[key]), issuedAt, keys).Some?
    requires L.NotReused(records, ops, key) || L.CreatesInOrder(ops) || L.TwinFree(ops, key, records[key].expiresAt)
    requires L.Successes(records, capacity, ops, key) > 0 && key in L.Run(records, capacity, ops)
    ensures var token := Issue(owner, L.SnapshotOf(id, records[key]), issuedAt, keys).value;
      Open(opener, token, L.SnapshotOf(id, L.Run(records, capacity, ops)[key]), openedAt, keys).None?
  {
    if !L.TwinFree(ops, key, records[key].expiresAt) { L.TwinFreeRuns(records, ops, key); }
    L.CountedOrSucceeded(records, capacity, ops, key);
    OpensIff(owner, L.SnapshotOf(id, records[key]), issuedAt, opener,
      L.SnapshotOf(id, L.Run(records, capacity, ops)[key]), openedAt, keys);
    hide Open;
    hide Issue;
    hide L.Run;
    hide L.Successes;
  }

  /** Some event succeeds, and afterwards the token opens for somebody at some time. */
  ghost predicate Reopens(
    token: Token, id: string, r: L.Record, capacity: nat, key: string, ops: seq<L.Op>, keys: Keys)
  {
    var records := L.Run(map[key := r], capacity, ops);
    && L.Successes(map[key := r], capacity, ops, key) > 0 && key in records
    && exists opener, at :: Open(opener, token, L.SnapshotOf(id, records[key]), at, keys).Some?
  }

  /**
   The exact condition: among runs whose creates are dated from `t` on, one lets a retired token open
   again if and only if the clock may go back to the start of the trial and the store has room for a
   second trial.
   */
  lemma {:induction false} RetiredReopensIff(
    owner: L.Owner, id: string, key: string, r: L.Record, capacity: nat, issuedAt: L.Time, t: L.Time, keys: Keys)
    requires L.ValidKey(key) && L.ValidRecord(r) && capacity >= 1
    requires Issue(owner, L.SnapshotOf(id, r), issuedAt, keys).Some?
    ensures var token := Issue(owner, L.SnapshotOf(id, r), issuedAt, keys).value;
      (exists ops :: L.CreatesFrom(ops, t) && Reopens(token, id, r, capacity, key, ops, keys))
      <==> t <= r.createdAt && capacity >= 2
  {
    var token := Issue(owner, L.SnapshotOf(id, r), issuedAt, keys).value;
    if t <= r.createdAt && capacity >= 2 {
      L.TwinRunResult(key, r, capacity);
      OpenedIsIssued(owner, L.SnapshotOf(id, r), issuedAt, issuedAt, keys);
      hide *;
      TwinReopens(owner, token, id, r, capacity, key, issuedAt, t, keys);
    } else {
      hide *;
      forall ops | L.CreatesFrom(ops, t) ensures !Reopens(token, id, r, capacity, key, ops, keys) {
        if capacity == 1 {
          NeverReopensAlone(owner, id, r, key, issuedAt, ops, keys);
        } else {
          NeverReopens(owner, id, r, capacity, key, issuedAt, ops, t, keys);
        }
      }
    }
  }

  /** In a store for one trial a retired token never opens again, whatever the clock does. */
  lemma NeverReopensAlone(
    owner: L.Owner, id: string, r: L.Record, key: string, issuedAt: L.Time, ops: seq<L.Op>, keys: Keys)
    requires L.ValidRecord(r) && Issue(owner, L.SnapshotOf(id, r), issuedAt, keys).Some?
    ensures !Reopens(Issue(owner, L.SnapshotOf(id, r), issuedAt, keys).value, id, r, 1, key, ops, keys)
  {
    var records, token := L.Run(map[key := r], 1, ops), Issue(owner, L.SnapshotOf(id, r), issuedAt, keys).value;
    hide L.Run;
    hide L.Successes;
    if L.Successes(map[key := r], 1, ops, key) > 0 && key in records {
      L.SoloRun(r, ops, key);
      assert records[key].generation != r.generation || records[key].expiresAt != r.expiresAt;
      hide Open;
      hide Issue;
      forall opener, at ensures Open(opener, token, L.SnapshotOf(id, records[key]), at, keys).None? {
        OpensIff(owner, L.SnapshotOf(id, r), issuedAt, opener, L.SnapshotOf(id, records[key]), at, keys);
      }
    }
  }

  lemma TwinReopens(
    owner: L.Owner, token: Token, id: string, r: L.Record, capacity: nat, key: string,
    at: L.Time, t: L.Time, keys: Keys)
    requires t <= r.createdAt && L.CreatesFrom(L.TwinRun(key, r), r.createdAt)
    requires L.Successes(map[key := r], capacity, L.TwinRun(key, r), key) > 0
    requires var records := L.Run(map[key := r], capacity, L.TwinRun(key, r)); key in records && records[key] == r
    requires Open(owner, token, L.SnapshotOf(id, r), at, keys).Some?
    ensures L.CreatesFrom(L.TwinRun(key, r), t) && Reopens(token, id, r, capacity, key, L.TwinRun(key, r), keys)
  {
    hide L.TwinRun;
    hide L.Run;
    hide L.Successes;
    hide Open;
  }

  lemma NeverReopens(
    owner: L.Owner, id: string, r: L.Record, capacity: nat, key: string, issuedAt: L.Time,
    ops: seq<L.Op>, t: L.Time, keys: Keys)
    requires L.ValidRecord(r) && L.CreatesFrom(ops, t) && r.createdAt < t
    requires Issue(owner, L.SnapshotOf(id, r), issuedAt, keys).Some?
    ensures !Reopens(Issue(owner, L.SnapshotOf(id, r), issuedAt, keys).value, id, r, capacity, key, ops, keys)
  {
    var records, token := L.Run(map[key := r], capacity, ops), Issue(owner, L.SnapshotOf(id, r), issuedAt, keys).value;
    L.TwinRepeatsTheStart(ops, key, r, t);
    hide L.TwinFree;
    hide L.Run;
    hide L.Successes;
    hide Open;
    hide Issue;
    if L.Successes(map[key := r], capacity, ops, key) > 0 && key in records {
      forall opener, at ensures Open(opener, token, L.SnapshotOf(id, records[key]), at, keys).None? {
        SuccessfulEventRetiresTokens(owner, id, map[key := r], capacity, key, issuedAt, ops, opener, at, keys);
      }
    }
  }
}
