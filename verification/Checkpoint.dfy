/**
 Checkpoint transitions of the conversation state: normalization of the state and its pending answer
 frame, sealing and opening, the native preparation hop, and the validation that decides whether a
 checkpoint may be published.

 Encryption and message authentication are ideal: `sealed` maps a token to the plaintext state inside
 it, and the checkpoint tag is a function of the values it authenticates.
 */
module Checkpoint {
  import opened Common
  import opened Sequences
  import opened Text
  import opened ThoughtNodes
  import A = AnswerContract

  const MAX_TURNS := 10_000
  const MAX_SUBJECT := 100
  const MAX_ATTEMPTS := 2

  datatype Phase = Unset | NoPhase | AwaitingAnswer | AwaitingRestatement | Expanding | Complete | Blocked
    | UnknownPhase
  datatype CoachAction = Elicit | Restate | Expand | Finish | Retry | LetGo | UnknownAction
  datatype Evidence = NoEvidence | ClauseLater | UnknownEvidence

  datatype Frame = Frame(
    active: bool, operator: A.Operator, subject: string, slots: seq<A.Slot>,
    expansion: Option<A.Operator>, phase: Phase, attempts: nat, assistantFollowUp: bool, expansionOptIn: bool,
    restatementTag: string, questionTag: string, questionContinuityTag: string, continuityTag: string,
    evidence: Evidence, nativeTag: string, progressValid: Option<bool>)

  /** The parts that stay abstract: shapes of tags and ids, fixed subjects, screening, session memory. */
  datatype Env = Env(
    validTag: string -> bool, validSession: string -> bool, validMemory: string -> bool, validDigest: string -> bool,
    subjectFor: A.Operator -> string, followUpSubject: string, sensitive: string -> bool,
    checkpointTag: (string, string, int, string) -> string)

  const EMPTY_FRAME := Frame(false, A.UnknownOperator, "", [], None, NoPhase, 0, false, false,
                             "", "", "", "", NoEvidence, "", None)

  function ExpansionOf(op: A.Operator): A.Operator {
    match op
    case Definition => A.Evidence case Quantity => A.Evidence case Comparison => A.Evidence case Evidence => A.Evidence
    case Procedure => A.State
    case _ => A.Cause
  }

  predicate Protected(f: Frame) {
    f.questionTag != "" || f.questionContinuityTag != "" || f.continuityTag != ""
  }

  // ---------------------------------------------------------------- normalization

  function WithUnit(f: Frame): Option<seq<A.Slot>> {
    if !f.operator.Quantity? || A.SlotUnit in f.slots then Some(f.slots)
    else if |f.slots| >= A.MAX_REQUIRED_SLOTS then None
    else Some(f.slots + [A.SlotUnit])
  }

  function Subject(f: Frame, env: Env): string {
    if Protected(f) then if f.assistantFollowUp then env.followUpSubject else env.subjectFor(f.operator)
    else if f.nativeTag != "" then env.subjectFor(A.Open)
    else Collapse(f.subject)
  }

  /** The defaults and derived fields, before any check. */
  function Defaulted(f: Frame, slots: seq<A.Slot>, env: Env): Frame {
    f.(phase := if f.phase.Unset? then AwaitingAnswer else f.phase,
       expansion := if f.expansion.None? then Some(ExpansionOf(f.operator)) else f.expansion,
       slots := slots, subject := Subject(f, env))
  }

  ghost predicate TagsValid(f: Frame, env: Env) {
    && (f.questionTag != "" ==> env.validTag(f.questionTag))
    && (f.questionContinuityTag != "" ==> env.validTag(f.questionContinuityTag))
    && (f.continuityTag != "" ==> env.validTag(f.continuityTag))
    && (f.nativeTag != "" ==> env.validTag(f.nativeTag))
  }

  /** A native scope is one open question and excludes every other tag. */
  ghost predicate NativeShape(f: Frame) {
    f.nativeTag != "" ==>
      && f.phase.AwaitingAnswer? && f.operator.Open? && f.expansion == Some(ExpansionOf(A.Open))
      && f.slots == [A.SlotPosition] && !f.assistantFollowUp && !f.expansionOptIn
      && f.restatementTag == "" && f.questionTag == "" && f.questionContinuityTag == "" && f.continuityTag == ""
  }

  ghost predicate FrameChecks(f: Frame, env: Env) {
    && !(f.progressValid == Some(false)) && !f.evidence.UnknownEvidence?
    && A.TargetSlot(f.operator).Some? && f.expansion.Some? && A.TargetSlot(f.expansion.value).Some?
    && (f.phase.AwaitingAnswer? || f.phase.AwaitingRestatement? || f.phase.Expanding?)
    && f.attempts <= MAX_ATTEMPTS
    && f.subject != "" && |f.subject| <= MAX_SUBJECT
    && (!Protected(f) ==> !env.sensitive(f.subject) && (f.assistantFollowUp ==> f.subject == env.followUpSubject))
    && (f.expansionOptIn ==> !f.assistantFollowUp && f.questionContinuityTag != "")
    && (f.questionTag != "" ==> f.questionContinuityTag != "" && !f.assistantFollowUp)
    && !(f.assistantFollowUp && f.phase.Expanding?)
    && NativeShape(f)
    && (f.restatementTag != "" ==> f.phase.AwaitingRestatement? && env.validTag(f.restatementTag))
    && (!f.evidence.NoEvidence? ==>
          f.phase.AwaitingRestatement? && f.questionTag != "" && f.questionContinuityTag != ""
          && f.continuityTag != "" && !f.assistantFollowUp && !f.expansionOptIn)
    && 0 < |f.slots| <= A.MAX_REQUIRED_SLOTS
    && TagsValid(f, env)
    && Distinct(f.slots) && A.TargetSlot(f.operator).value in f.slots
  }

  ghost function NormalizeFrame(f: Frame, env: Env): Option<Frame> {
    if !f.active then Some(EMPTY_FRAME)
    else
      match WithUnit(f)
      case None => None
      case Some(slots) =>
        var g := Defaulted(f, slots, env);
        if FrameChecks(g, env) then Some(g) else None
  }

  /** The duplicate scan over the required slots. */
  method CheckSlots(slots: seq<A.Slot>, target: A.Slot) returns (ok: bool)
    ensures ok <==> Distinct(slots) && target in slots
  {
    var seen: set<A.Slot> := {};
    var hasTarget := false;
    for i := 0 to |slots|
      invariant seen == set s | s in slots[..i]
      invariant Distinct(slots[..i]) && (hasTarget <==> target in slots[..i])
    {
      assert slots[..i + 1] == slots[..i] + [slots[i]];
      if slots[i] in seen {
        var j :| 0 <= j < i && slots[j] == slots[i];
        return false;
      }
      seen := seen + {slots[i]};
      if slots[i] == target {
        hasTarget := true;
      }
    }
    assert slots[..|slots|] == slots;
    ok := hasTarget;
  }

  /** Normalizing a normalized frame changes nothing. */
  lemma {:induction false} NormalizeFrameIdempotent(f: Frame, env: Env)
    requires NormalizeFrame(f, env).Some?
    ensures NormalizeFrame(NormalizeFrame(f, env).value, env) == NormalizeFrame(f, env)
  {
    if f.active {
      CollapseIdempotent(f.subject);
      hide Collapse;
      hide Distinct;
      hide TagsValid;
      var g := NormalizeFrame(f, env).value;
      assert WithUnit(g) == Some(g.slots);
      assert Defaulted(g, g.slots, env) == g;
    }
  }

  /** What every open scope has in common. */
  ghost predicate OpenScope(f: Frame, env: Env) {
    && (f.phase == AwaitingAnswer || f.phase == AwaitingRestatement || f.phase == Expanding)
    && f.operator != A.UnknownOperator && f.expansion.Some? && f.expansion.value != A.UnknownOperator
    && 1 <= |f.slots| <= 5 && Distinct(f.slots) && A.TargetSlot(f.operator).value in f.slots
    && (f.operator == A.Quantity ==> A.SlotUnit in f.slots)
    && f.attempts <= 2 && f.progressValid != Some(false) && 1 <= |f.subject| <= 100
    && (f.restatementTag != "" ==> f.phase == AwaitingRestatement && env.validTag(f.restatementTag))
    && !(f.assistantFollowUp && f.phase == Expanding)
  }

  /** A one-turn native scope: an open question about a position, and nothing else. */
  ghost predicate NativeScope(f: Frame, env: Env) {
    && f.nativeTag != "" && env.validTag(f.nativeTag)
    && f.phase == AwaitingAnswer && f.operator == A.Open && f.expansion == Some(A.Cause) && f.slots == [A.SlotPosition]
    && f.subject == env.subjectFor(A.Open) && f.evidence == NoEvidence && !f.assistantFollowUp && !f.expansionOptIn
    && f.questionTag == "" && f.questionContinuityTag == "" && f.continuityTag == "" && f.restatementTag == ""
    && !env.sensitive(f.subject)
  }

  /** A scope that is bound by tags and names its question by a fixed subject. */
  ghost predicate TaggedScope(f: Frame, env: Env) {
    && f.nativeTag == "" && Protected(f)
    && f.subject == (if f.assistantFollowUp then env.followUpSubject else env.subjectFor(f.operator))
    && (f.questionTag != "" ==> env.validTag(f.questionTag) && f.questionContinuityTag != "" && !f.assistantFollowUp)
    && (f.questionContinuityTag != "" ==> env.validTag(f.questionContinuityTag))
    && (f.continuityTag != "" ==> env.validTag(f.continuityTag))
    && (f.expansionOptIn ==> !f.assistantFollowUp && f.questionContinuityTag != "")
    && (f.evidence == NoEvidence
        || (f.evidence == ClauseLater && f.phase == AwaitingRestatement && f.questionTag != "" && f.continuityTag != ""
            && !f.expansionOptIn))
  }

  /** A scope without tags: its subject is its own, and must not be a sensitive one. */
  ghost predicate PlainScope(f: Frame, env: Env) {
    && f.nativeTag == "" && !Protected(f)
    && f.subject == Collapse(f.subject) && !env.sensitive(f.subject)
    && (f.assistantFollowUp ==> f.subject == env.followUpSubject)
    && !f.expansionOptIn && f.evidence == NoEvidence
  }

  /** Exactly the open frames that normalization leaves alone: there are three kinds of them. */
  lemma {:induction false} NormalFrameIff(f: Frame, env: Env)
    requires f.active
    ensures NormalizeFrame(f, env) == Some(f)
       <==> OpenScope(f, env) && (NativeScope(f, env) || TaggedScope(f, env) || PlainScope(f, env))
  {
    hide Collapse;
    hide Distinct;
    KnownTargets(f.operator);
    if f.expansion.Some? { KnownTargets(f.expansion.value); }
    FrameIsItself(f, env);
    hide NormalizeFrame;
    hide WithUnit;
    hide Defaulted;
    hide A.TargetSlot;
  }

  lemma KnownTargets(op: A.Operator)
    ensures A.TargetSlot(op).Some? <==> op != A.UnknownOperator
  {
  }

  lemma FrameIsItself(f: Frame, env: Env)
    requires f.active
    ensures NormalizeFrame(f, env) == Some(f)
       <==> && FrameChecks(f, env) && !f.phase.Unset? && f.expansion.Some? && f.subject == Subject(f, env)
            && (f.operator.Quantity? ==> A.SlotUnit in f.slots)
  {
    hide FrameChecks;
    hide Subject;
  }

  /**
   What normalization fills in: an unset phase awaits an answer, a missing expansion follows from the
   operator, a quantity gets its unit, and only a plain scope keeps a subject of its own.
   */
  lemma {:induction false} FilledIn(f: Frame, env: Env)
    requires f.active && NormalizeFrame(f, env).Some?
    ensures var g := NormalizeFrame(f, env).value;
      && NormalizeFrame(g, env) == Some(g)
      && g == f.(phase := g.phase, expansion := g.expansion, slots := g.slots, subject := g.subject)
      && g.phase == (if f.phase == Unset then AwaitingAnswer else f.phase)
      && (f.expansion.Some? ==> g.expansion == f.expansion)
      && (f.expansion == None ==> g.expansion == Some(
            if f.operator in {A.Definition, A.Quantity, A.Comparison, A.Evidence} then A.Evidence
            else if f.operator == A.Procedure then A.State else A.Cause))
      && (f.operator != A.Quantity || A.SlotUnit in f.slots ==> g.slots == f.slots)
      && (f.operator == A.Quantity && A.SlotUnit !in f.slots ==> g.slots == f.slots + [A.SlotUnit])
      && (!Protected(f) && f.nativeTag == "" ==> g.subject == Collapse(f.subject))
  {
    NormalizeFrameIdempotent(f, env);
    hide Collapse;
    hide FrameChecks;
  }

  // ---------------------------------------------------------------- the state

  const SCHEMA := 1
  const TOKEN_SECONDS := 900
  const CLOCK_SKEW_SECONDS := 60
  const ADAPTATION_SECONDS := 300
  const MAX_CONVERSATION := 320
  const MAX_DOCUMENT := 480
  const MAX_FADING := 2
  const ANSWERS_TO_FADE := 2
  const MAX_COOLDOWN := 3

  datatype Support = Support(fading: nat, verified: nat, cooldown: nat, companionOnly: bool)
  datatype Adaptation = Adaptation(digest: string, issuedAt: int, expiresAt: int, turn: int)
  datatype Act = Silent | Reflect | Clarify | Counterexample | Restructure | PaperCheck | UnknownAct
  datatype Intervention = Intervention(
    benefit: real, interruptionCost: real, urgency: real, confidence: real, score: real, act: Act)

  const NO_ADAPTATION := Adaptation("", 0, 0, 0)
  const NO_SUPPORT := Support(0, 0, 0, false)
  const NO_INTERVENTION := Intervention(0.0, 0.0, 0.0, 0.0, 0.0, Silent)

  /** The graph is its eight node lists. */
  datatype State = State(
    version: int, issuedAt: int, expiresAt: int, sessionId: string, turn: int,
    memoryGeneration: int, memory: Option<string>, checkpointTag: string, checkpointScope: string,
    graph: seq<seq<string>>, conversationSummary: string, documentSummary: string, pending: Frame,
    adaptation: Adaptation, support: Option<Support>, selfCorrectionGrace: bool, lastIntervention: Intervention)

  /** What a request without a token starts from. */
  const BLANK := State(0, 0, 0, "", 0, 0, None, "", "", [[], [], [], [], [], [], [], []], "", "", EMPTY_FRAME,
                       NO_ADAPTATION, None, false, NO_INTERVENTION)

  predicate ValidIntervention(i: Intervention) {
    && A.Unit(i.benefit) && A.Unit(i.interruptionCost) && A.Unit(i.urgency) && A.Unit(i.confidence)
    && !i.act.UnknownAct? && -1.0 <= i.score <= 2.0
  }

  function NormalizeSupport(s: Option<Support>): Option<Option<Support>> {
    match s
    case None => Some(None)
    case Some(p) =>
      if p.fading > MAX_FADING || p.verified >= ANSWERS_TO_FADE || p.cooldown > MAX_COOLDOWN then None
      else
        var q := if p.fading == MAX_FADING then p.(verified := 0) else p;
        Some(if q == NO_SUPPORT then None else Some(q))
  }

  predicate ValidAdaptation(a: Adaptation, turn: int, env: Env) {
    || a == NO_ADAPTATION
    || (env.validDigest(a.digest) && a.turn == turn && a.expiresAt - a.issuedAt == ADAPTATION_SECONDS)
  }

  function NormalizeGraph(g: seq<seq<string>>): seq<seq<string>> {
    seq(|g|, k requires 0 <= k < |g| => FirstOccurrences(g[k]))
  }

  /** Everything that is checked outside the pending frame and the support profile. */
  ghost predicate BodyChecks(s: State, env: Env) {
    && (s.sessionId != "" ==> env.validSession(s.sessionId))
    && (s.checkpointTag == "" <==> s.checkpointScope == "")
    && (s.checkpointTag != "" ==> env.validTag(s.checkpointTag) && env.validTag(s.checkpointScope))
    && (s.memory.None? <==> s.memoryGeneration == 0) && s.memoryGeneration >= 0
    && (s.memory.Some? ==> env.validMemory(s.memory.value))
    && (forall k :: 0 <= k < |s.graph| ==> NodesInLimits(s.graph[k]))
    && |Collapse(s.conversationSummary)| <= MAX_CONVERSATION && |Collapse(s.documentSummary)| <= MAX_DOCUMENT
    && ValidAdaptation(s.adaptation, s.turn, env) && ValidIntervention(s.lastIntervention)
  }

  /** The normalized form of a state that passes every check. */
  function Settled(s: State, pending: Frame, support: Option<Support>): State {
    s.(graph := NormalizeGraph(s.graph), conversationSummary := Collapse(s.conversationSummary),
       documentSummary := Collapse(s.documentSummary), pending := pending, support := support)
  }

  ghost function NormalizeState(s: State, env: Env): Option<State> {
    if !BodyChecks(s, env) || NormalizeFrame(s.pending, env).None? || NormalizeSupport(s.support).None? then None
    else
      var pending, support := NormalizeFrame(s.pending, env).value, NormalizeSupport(s.support).value;
      if support.Some? && support.value.companionOnly && pending.active then None
      else Some(Settled(s, pending, support))
  }

  /** A support profile as it is kept: within its steps, and none at all when there is nothing in it. */
  predicate KeptSupport(support: Option<Support>) {
    support.Some? ==>
      var p := support.value;
      && p.fading <= 2 && p.verified <= 1 && p.cooldown <= 3 && (p.fading == 2 ==> p.verified == 0)
      && (p.fading > 0 || p.verified > 0 || p.cooldown > 0 || p.companionOnly)
  }

  /** A node list as it is kept: every node collapsed, and once. */
  ghost predicate KeptNodes(nodes: seq<string>) {
    Distinct(nodes) && forall x :: x in nodes ==> Collapse(x) == x
  }

  /** Exactly the states that normalization leaves alone. */
  lemma {:induction false} NormalStateIff(s: State, env: Env)
    ensures NormalizeState(s, env) == Some(s)
       <==> && NormalizeFrame(s.pending, env) == Some(s.pending) && KeptSupport(s.support)
            && !(s.support.Some? && s.support.value.companionOnly && s.pending.active)
            && (s.sessionId != "" ==> env.validSession(s.sessionId))
            && (if s.checkpointTag == "" then s.checkpointScope == ""
                else env.validTag(s.checkpointTag) && s.checkpointScope != "" && env.validTag(s.checkpointScope))
            && (if s.memory.None? then s.memoryGeneration == 0
                else s.memoryGeneration > 0 && env.validMemory(s.memory.value))
            && (forall k :: 0 <= k < |s.graph| ==> NodesInLimits(s.graph[k]) && KeptNodes(s.graph[k]))
            && Collapse(s.conversationSummary) == s.conversationSummary && |s.conversationSummary| <= 320
            && Collapse(s.documentSummary) == s.documentSummary && |s.documentSummary| <= 480
            && (s.adaptation == NO_ADAPTATION
                || (env.validDigest(s.adaptation.digest) && s.adaptation.turn == s.turn
                    && s.adaptation.expiresAt == s.adaptation.issuedAt + 300))
            && ValidIntervention(s.lastIntervention)
  {
    SupportIsKept(s.support);
    GraphIsKept(s.graph);
    hide Collapse;
    hide NormalizeFrame;
    hide NormalizeSupport;
    hide NormalizeGraph;
    hide NodesInLimits;
    hide KeptNodes;
    hide KeptSupport;
    hide ValidIntervention;
  }

  lemma SupportIsKept(support: Option<Support>)
    ensures NormalizeSupport(support) == Some(support) <==> KeptSupport(support)
  {
  }

  lemma GraphIsKept(g: seq<seq<string>>)
    ensures NormalizeGraph(g) == g <==> forall k :: 0 <= k < |g| ==> KeptNodes(g[k])
  {
    hide Collapse;
    forall k | 0 <= k < |g| ensures FirstOccurrences(g[k]) == g[k] <==> KeptNodes(g[k]) {
      FirstAreDistinct(g[k]);
      if KeptNodes(g[k]) { FirstOfDistinct(g[k]); }
    }
    hide FirstOccurrences;
    hide KeptNodes;
    var n := NormalizeGraph(g);
    assert forall k :: 0 <= k < |g| ==> n[k] == FirstOccurrences(g[k]);
  }

  lemma SettledKeepsBody(s: State, pending: Frame, support: Option<Support>, env: Env)
    requires BodyChecks(s, env)
    ensures var t := Settled(s, pending, support);
      BodyChecks(t, env) && Settled(t, pending, support) == t
  {
    CollapseIdempotent(s.conversationSummary);
    CollapseIdempotent(s.documentSummary);
    forall k | 0 <= k < |s.graph|
      ensures NodesInLimits(FirstOccurrences(s.graph[k]))
      ensures FirstOccurrences(FirstOccurrences(s.graph[k])) == FirstOccurrences(s.graph[k])
    {
      NormalizedNodesStay(s.graph[k]);
    }
    hide Collapse;
    hide FirstOccurrences;
    hide NodesInLimits;
    var t := Settled(s, pending, support);
    assert NormalizeGraph(t.graph) == t.graph;
  }

  /** Normalizing a normalized state changes nothing. */
  lemma {:induction false} NormalizeStateIdempotent(s: State, env: Env)
    requires NormalizeState(s, env).Some?
    ensures NormalizeState(NormalizeState(s, env).value, env) == NormalizeState(s, env)
  {
    NormalizeFrameIdempotent(s.pending, env);
    SettledKeepsBody(s, NormalizeFrame(s.pending, env).value, NormalizeSupport(s.support).value, env);
    hide NormalizeFrame;
    hide BodyChecks;
    hide NormalizeGraph;
    hide Collapse;
  }

  // ---------------------------------------------------------------- sealing and opening

  /** The plaintext that sealing `s` at `now` puts into a token. */
  ghost function Sealing(s: State, now: int, newSession: string, env: Env): Option<State> {
    if !(1 <= s.turn <= MAX_TURNS) || NormalizeState(s, env).None? then None
    else
      var n := NormalizeState(s, env).value;
      Some(n.(sessionId := if n.sessionId == "" then newSession else n.sessionId,
              version := SCHEMA, issuedAt := now, expiresAt := now + TOKEN_SECONDS))
  }

  /** What a token holds, the clock aside. */
  ghost function Content(sealed: string -> Option<State>, token: string, env: Env): Option<State> {
    match sealed(token)
    case None => None
    case Some(s) =>
      if s.version != SCHEMA || s.expiresAt - s.issuedAt != TOKEN_SECONDS || !(1 <= s.turn <= MAX_TURNS) then None
      else NormalizeState(s, env)
  }

  ghost function Open(sealed: string -> Option<State>, token: string, now: int, env: Env): Option<State> {
    match Content(sealed, token, env)
    case None => None
    case Some(s) => if s.issuedAt > now + CLOCK_SKEW_SECONDS || now >= s.expiresAt then None else Some(s)
  }

  /** Every opened state is normalized, with a turn in range. */
  lemma {:induction false} ContentIsNormal(sealed: string -> Option<State>, token: string, env: Env)
    requires Content(sealed, token, env).Some?
    ensures var s := Content(sealed, token, env).value;
      1 <= s.turn <= MAX_TURNS && NormalizeState(s, env) == Some(s) && NormalizeFrame(s.pending, env) == Some(s.pending)
  {
    NormalizeStateIdempotent(sealed(token).value, env);
    NormalizeFrameIdempotent(sealed(token).value.pending, env);
    hide NormalizeFrame;
    hide BodyChecks;
    hide NormalizeGraph;
    hide Collapse;
  }

  /** Round trip: until it expires, and only then, a token opens as exactly what was sealed. */
  lemma {:induction false} SealedOpens(
    sealed: string -> Option<State>, token: string, s: State, at: int, newSession: string, now: int, env: Env)
    requires Sealing(s, at, newSession, env).Some? && sealed(token) == Sealing(s, at, newSession, env)
    requires env.validSession(newSession)
    ensures Open(sealed, token, now, env)
         == if at <= now + CLOCK_SKEW_SECONDS && now < at + TOKEN_SECONDS then sealed(token) else None
  {
    var n := NormalizeState(s, env).value;
    NormalizeStateIdempotent(s, env);
    StampedNormal(n, if n.sessionId == "" then newSession else n.sessionId, at, env);
    hide NormalizeState;
  }

  /** The stamp of a token is not part of what normalization looks at. */
  lemma StampedNormal(n: State, session: string, at: int, env: Env)
    requires NormalizeState(n, env) == Some(n) && (session == n.sessionId || env.validSession(session))
    ensures var s := n.(sessionId := session, version := SCHEMA, issuedAt := at, expiresAt := at + TOKEN_SECONDS);
      NormalizeState(s, env) == Some(s)
  {
    hide NormalizeFrame;
    hide NormalizeGraph;
    hide Collapse;
    hide NodesInLimits;
  }

  // ---------------------------------------------------------------- the preparation hop

  /** The state a request starts from: the caller's own, or a blank one. */
  ghost function Requested(sealed: string -> Option<State>, token: string, now: int, env: Env): Option<State> {
    if token == "" then Some(BLANK) else Open(sealed, token, now, env)
  }

  /** The state one content-free turn later, under the stamp of `prepared`. */
  function Expected(requested: State, requestToken: string, prepared: State): State {
    requested.(turn := requested.turn + 1,
      sessionId := if requestToken == "" then prepared.sessionId else requested.sessionId,
      version := prepared.version, issuedAt := prepared.issuedAt, expiresAt := prepared.expiresAt)
  }

  ghost function ValidatePrepared(
    sealed: string -> Option<State>, requestToken: string, preparedToken: string, now: int, env: Env): Option<State>
  {
    if preparedToken == "" || Open(sealed, preparedToken, now, env).None?
      || Requested(sealed, requestToken, now, env).None? then None
    else
      var prepared, requested := Open(sealed, preparedToken, now, env).value,
        Requested(sealed, requestToken, now, env).value;
      if requestToken != "" && requested.pending.active then
        if preparedToken != requestToken then None else Some(prepared)
      else if requested.turn >= MAX_TURNS || prepared.turn != requested.turn + 1 then None
      else if requestToken != "" && prepared.sessionId != requested.sessionId then None
      else if NormalizeState(Expected(requested, requestToken, prepared), env) != Some(prepared) then None
      else Some(prepared)
  }

  /** What preparation seals when no answer scope is active: the same state, one turn later. */
  function Advanced(requested: State, newSession: string): State {
    requested.(turn := requested.turn + 1,
      sessionId := if requested.sessionId == "" then newSession else requested.sessionId)
  }

  /**
   Round trip: whatever preparation hands out, the validator accepts until it expires, and it is the
   state used.  (Sealing never leaves a session id empty, so a token always carries one.)
   */
  lemma {:induction false} PreparedIsAccepted(
    sealed: string -> Option<State>, requestToken: string, preparedToken: string, newSession: string,
    at: int, now: int, env: Env)
    requires preparedToken != "" && Requested(sealed, requestToken, now, env).Some?
    requires env.validSession(newSession) && newSession != ""
    requires var requested := Requested(sealed, requestToken, now, env).value;
      && (requestToken != "" ==> requested.sessionId != "")
      && if requested.pending.active then preparedToken == requestToken
         else
           && requested.turn < MAX_TURNS && at <= now + CLOCK_SKEW_SECONDS && now < at + TOKEN_SECONDS
           && Sealing(Advanced(requested, newSession), at, newSession, env).Some?
           && sealed(preparedToken) == Sealing(Advanced(requested, newSession), at, newSession, env)
    ensures ValidatePrepared(sealed, requestToken, preparedToken, now, env) == Open(sealed, preparedToken, now, env)
    ensures Open(sealed, preparedToken, now, env).Some?
  {
    var requested := Requested(sealed, requestToken, now, env).value;
    if !requested.pending.active {
      var advanced := Advanced(requested, newSession);
      SealedOpens(sealed, preparedToken, advanced, at, newSession, now, env);
      var prepared := sealed(preparedToken).value;
      NormalizedFields(advanced, env);
      Restamped(advanced, Expected(requested, requestToken, prepared), env);
      hide NormalizeState;
    }
  }

  lemma NormalizedFields(s: State, env: Env)
    requires NormalizeState(s, env).Some?
    ensures var n := NormalizeState(s, env).value;
      n.sessionId == s.sessionId && n.turn == s.turn
  {
    hide NormalizeFrame;
    hide NormalizeGraph;
    hide Collapse;
  }

  /** Two states that differ in their stamp only are normalized alike. */
  lemma Restamped(s: State, t: State, env: Env)
    requires NormalizeState(s, env).Some?
    requires t == s.(version := t.version, issuedAt := t.issuedAt, expiresAt := t.expiresAt)
    ensures NormalizeState(t, env)
         == Some(NormalizeState(s, env).value.(version := t.version, issuedAt := t.issuedAt, expiresAt := t.expiresAt))
  {
    hide NormalizeFrame;
    hide NormalizeGraph;
    hide Collapse;
    hide NodesInLimits;
  }

  /** A normalized state stays as it is when only its turn, session or stamp changes. */
  lemma MovedStays(s: State, t: State, env: Env)
    requires NormalizeState(s, env) == Some(s) && NormalizeState(t, env).Some?
    requires t == s.(turn := t.turn, sessionId := t.sessionId, version := t.version, issuedAt := t.issuedAt,
                     expiresAt := t.expiresAt)
    ensures NormalizeState(t, env) == Some(t)
  {
    hide NormalizeFrame;
    hide NormalizeGraph;
    hide Collapse;
    hide NodesInLimits;
  }

  lemma BlankIsNormal(env: Env)
    ensures NormalizeState(BLANK, env) == Some(BLANK)
  {
    BlankBody(env);
    assert NormalizeGraph(BLANK.graph) == BLANK.graph;
    assert Collapse("") == "";
  }

  lemma BlankBody(env: Env)
    ensures BodyChecks(BLANK, env)
  {
    assert Collapse("") == "";
  }

  lemma RequestedIsNormal(sealed: string -> Option<State>, token: string, now: int, env: Env)
    requires Requested(sealed, token, now, env).Some?
    ensures var s := Requested(sealed, token, now, env).value; NormalizeState(s, env) == Some(s)
  {
    BlankIsNormal(env);
    if token != "" { ContentIsNormal(sealed, token, env); }
    hide NormalizeState;
  }

  /**
   Exactly which preparation hops are believed: an open answer scope keeps its very token, and any
   other state comes back as it was, one turn later under a new stamp.
   */
  lemma {:induction false} PreparedIff(
    sealed: string -> Option<State>, requestToken: string, preparedToken: string, now: int, env: Env)
    ensures var hop := ValidatePrepared(sealed, requestToken, preparedToken, now, env);
      var prepared, start := Open(sealed, preparedToken, now, env), Requested(sealed, requestToken, now, env);
      && (hop.Some? ==> hop == prepared)
      && (hop.Some?
          <==> && preparedToken != "" && prepared.Some? && start.Some?
               && if requestToken != "" && start.value.pending.active then preparedToken == requestToken
                  else prepared.value == start.value.(
                    turn := start.value.turn + 1,
                    sessionId := if requestToken == "" then prepared.value.sessionId else start.value.sessionId,
                    version := prepared.value.version, issuedAt := prepared.value.issuedAt,
                    expiresAt := prepared.value.expiresAt))
  {
    var prepared, start := Open(sealed, preparedToken, now, env), Requested(sealed, requestToken, now, env);
    if preparedToken != "" && prepared.Some? && start.Some? {
      ContentIsNormal(sealed, preparedToken, env);
      RequestedIsNormal(sealed, requestToken, now, env);
      var expected := Expected(start.value, requestToken, prepared.value);
      hide NormalizeState;
      if NormalizeState(expected, env).Some? { MovedStays(start.value, expected, env); }
    }
  }

  // ---------------------------------------------------------------- checkpoint validation

  predicate ControlMatches(phase: Phase, action: CoachAction) {
    match phase
    case AwaitingAnswer => action.Elicit?
    case AwaitingRestatement => action.Restate?
    case Expanding => action.Expand?
    case Complete => action.Finish?
    case Blocked => action.Retry? || action.LetGo?
    case _ => false
  }

  /** The first valid tag, in the source's order. */
  function ScopeOf(f: Frame, env: Env): string {
    if f.questionTag != "" && env.validTag(f.questionTag) then f.questionTag
    else if f.nativeTag != "" && env.validTag(f.nativeTag) then f.nativeTag
    else if f.restatementTag != "" && env.validTag(f.restatementTag) then f.restatementTag
    else ""
  }

  /** In a normalized frame every tag is valid, and a native one stands alone. */
  lemma ScopeIs(f: Frame, env: Env)
    requires NormalizeFrame(f, env) == Some(f)
    ensures ScopeOf(f, env) ==
      if f.nativeTag != "" then f.nativeTag else if f.questionTag != "" then f.questionTag else f.restatementTag
  {
    hide Collapse;
    hide Distinct;
  }

  predicate SameScope(previous: Frame, next: Frame, env: Env) {
    var p, n := ScopeOf(previous, env), ScopeOf(next, env);
    p != "" && n != "" && (p == n || (previous.nativeTag != "" && next.restatementTag != ""))
  }

  predicate ActionFits(next: State, action: CoachAction, env: Env) {
    var f, scope := next.pending, ScopeOf(next.pending, env);
    match action
    case Elicit => f.active && f.phase.AwaitingAnswer? && scope != "" && scope == next.checkpointScope
    case Restate => f.active && f.phase.AwaitingRestatement? && f.restatementTag != "" && scope == next.checkpointScope
    case Expand => f.active && f.phase.Expanding? && scope != "" && scope == next.checkpointScope
    case Retry => f.active && scope != "" && scope == next.checkpointScope
    case Finish => !f.active
    case LetGo => !f.active
    case UnknownAction => false
  }

  datatype Request = Request(
    requestToken: string, preparedToken: string, nextToken: string, requestId: string,
    toRespondent: bool, stageKnown: bool, phase: Phase, action: CoachAction, now: int)

  ghost predicate Accepts(sealed: string -> Option<State>, q: Request, env: Env) {
    && q.nextToken != "" && q.requestId != "" && q.toRespondent && q.stageKnown && ControlMatches(q.phase, q.action)
    && Open(sealed, q.nextToken, q.now, env).Some?
    && var next := Open(sealed, q.nextToken, q.now, env).value;
    && next.checkpointTag != "" && next.checkpointScope != ""
    && var tag := env.checkpointTag(q.requestId, next.sessionId, next.turn, next.checkpointScope);
    && tag != "" && next.checkpointTag == tag
    && ValidatePrepared(sealed, q.requestToken, q.preparedToken, q.now, env).Some?
    && var previous := ValidatePrepared(sealed, q.requestToken, q.preparedToken, q.now, env).value;
    && previous.sessionId == next.sessionId && previous.turn < MAX_TURNS && next.turn == previous.turn + 1
    && ActionFits(next, q.action, env)
    && (previous.pending.active && next.pending.active ==> SameScope(previous.pending, next.pending, env))
    && ((q.action.Finish? || q.action.LetGo?) && previous.pending.active ==>
          ScopeOf(previous.pending, env) != "" && ScopeOf(previous.pending, env) == next.checkpointScope)
  }

  /** What an action claims about the frame of the next state. */
  ghost predicate Claims(action: CoachAction, f: Frame) {
    match action
    case Elicit => f.active && f.phase == AwaitingAnswer
    case Restate => f.active && f.phase == AwaitingRestatement && f.restatementTag != ""
    case Expand => f.active && f.phase == Expanding
    case Retry => f.active
    case Finish => !f.active
    case LetGo => !f.active
    case UnknownAction => false
  }

  /** The phase that has to be announced with an action. */
  ghost predicate Announces(phase: Phase, action: CoachAction) {
    || (phase == AwaitingAnswer && action == Elicit) || (phase == AwaitingRestatement && action == Restate)
    || (phase == Expanding && action == Expand) || (phase == Complete && action == Finish)
    || (phase == Blocked && (action == Retry || action == LetGo))
  }

  /**
   How the scope carries over: an open frame names its own scope and keeps the one before, unless it
   exchanges a native scope for a restatement; a closing one names the scope that was open.
   */
  ghost predicate CarriesScope(previous: State, next: State, env: Env) {
    && next.checkpointScope != ""
    && (next.pending.active ==> next.checkpointScope == ScopeOf(next.pending, env))
    && (next.pending.active && previous.pending.active && ScopeOf(previous.pending, env) != next.checkpointScope ==>
          ScopeOf(previous.pending, env) != "" && previous.pending.nativeTag != "" && next.pending.restatementTag != "")
    && (!next.pending.active && previous.pending.active ==> next.checkpointScope == ScopeOf(previous.pending, env))
  }

  /** Exactly which checkpoints are accepted, read off the states in the tokens. */
  lemma {:induction false} AcceptsIff(sealed: string -> Option<State>, q: Request, env: Env)
    requires Open(sealed, q.nextToken, q.now, env).Some?
    requires ValidatePrepared(sealed, q.requestToken, q.preparedToken, q.now, env).Some?
    ensures var next := Open(sealed, q.nextToken, q.now, env).value;
      var previous := ValidatePrepared(sealed, q.requestToken, q.preparedToken, q.now, env).value;
      Accepts(sealed, q, env)
      <==> && q.nextToken != "" && q.requestId != "" && q.toRespondent && q.stageKnown
           && Announces(q.phase, q.action) && Claims(q.action, next.pending)
           && next.sessionId == previous.sessionId && next.turn == previous.turn + 1 <= MAX_TURNS
           && CarriesScope(previous, next, env) && next.checkpointTag != ""
           && next.checkpointTag == env.checkpointTag(q.requestId, next.sessionId, next.turn, next.checkpointScope)
  {
    hide Open;
    hide ValidatePrepared;
    hide ScopeOf;
  }

  /**
   Round trip: the next state of a turn, sealed with its checkpoint tag and a frame in the phase of its
   action, is accepted until it expires.
   */
  lemma {:induction false} SealedIsAccepted(
    sealed: string -> Option<State>, q: Request, s: State, at: int, newSession: string, env: Env)
    requires q.nextToken != "" && q.requestId != "" && q.toRespondent && q.stageKnown
    requires Announces(q.phase, q.action)
    requires Sealing(s, at, newSession, env).Some? && sealed(q.nextToken) == Sealing(s, at, newSession, env)
    requires env.validSession(newSession) && at <= q.now + CLOCK_SKEW_SECONDS && q.now < at + TOKEN_SECONDS
    requires ValidatePrepared(sealed, q.requestToken, q.preparedToken, q.now, env).Some?
    requires var next := sealed(q.nextToken).value;
      var previous := ValidatePrepared(sealed, q.requestToken, q.preparedToken, q.now, env).value;
      && Claims(q.action, next.pending) && CarriesScope(previous, next, env)
      && next.sessionId == previous.sessionId && next.turn == previous.turn + 1
      && next.checkpointTag != ""
      && next.checkpointTag == env.checkpointTag(q.requestId, next.sessionId, next.turn, next.checkpointScope)
    ensures Accepts(sealed, q, env)
  {
    SealedOpens(sealed, q.nextToken, s, at, newSession, q.now, env);
    AcceptsIff(sealed, q, env);
    TurnInRange(s, at, newSession, env);
    hide *;
  }

  lemma TurnInRange(s: State, at: int, newSession: string, env: Env)
    requires Sealing(s, at, newSession, env).Some?
    ensures 1 <= Sealing(s, at, newSession, env).value.turn <= MAX_TURNS
  {
    NormalizedFields(s, env);
    hide NormalizeState;
  }

  /** Between a caller's token and the next checkpoint the session is fixed and the turn grows. */
  lemma {:induction false} AcceptedStep(sealed: string -> Option<State>, q: Request, env: Env)
    requires Accepts(sealed, q, env) && q.requestToken != ""
    ensures Content(sealed, q.requestToken, env).Some? && Content(sealed, q.nextToken, env).Some?
    ensures var before, next := Content(sealed, q.requestToken, env).value, Content(sealed, q.nextToken, env).value;
      && next.sessionId == before.sessionId
      && next.turn == before.turn + (if before.pending.active then 1 else 2)
      && (before.pending.active && next.pending.active ==> SameScope(before.pending, next.pending, env))
  {
    hide NormalizeState;
  }

  /** A closing checkpoint names the scope that was open just before it. */
  lemma {:induction false} ClosingNamesTheOpenScope(sealed: string -> Option<State>, q: Request, env: Env)
    requires Accepts(sealed, q, env) && q.requestToken != ""
    requires q.action.Finish? || q.action.LetGo?
    ensures var before, next := Content(sealed, q.requestToken, env), Content(sealed, q.nextToken, env);
      && before.Some? && next.Some? && !next.value.pending.active
      && (before.value.pending.active ==>
            next.value.checkpointScope == ScopeOf(before.value.pending, env) && next.value.checkpointScope != "")
  {
    hide NormalizeState;
  }

  /** With an injective tag, a checkpoint cannot be replayed under another request. */
  lemma {:induction false} ReplayNeedsTheSameRequest(sealed: string -> Option<State>, q: Request, q': Request, env: Env)
    requires Accepts(sealed, q, env) && Accepts(sealed, q', env) && q.nextToken == q'.nextToken
    requires forall a, a', session, turn, scope ::
      env.checkpointTag(a, session, turn, scope) == env.checkpointTag(a', session, turn, scope) ==> a == a'
    ensures q.requestId == q'.requestId
  {
    hide NormalizeState;
    hide ValidatePrepared;
  }

  // ---------------------------------------------------------------- chains

  /** Consecutive accepted checkpoints, each made from the token of the one before, all still open. */
  ghost predicate OpenChain(sealed: string -> Option<State>, tokens: seq<string>, requests: seq<Request>, env: Env) {
    && |tokens| == |requests| + 1
    && (forall i :: 0 <= i < |tokens| ==> tokens[i] != "" && OpenAt(sealed, tokens, i, env))
    && (forall i :: 0 <= i < |requests| ==>
          && Accepts(sealed, requests[i], env)
          && requests[i].requestToken == tokens[i] && requests[i].nextToken == tokens[i + 1])
  }

  ghost predicate OpenAt(sealed: string -> Option<State>, tokens: seq<string>, i: nat, env: Env)
    requires i < |tokens|
  {
    Content(sealed, tokens[i], env).Some? && Content(sealed, tokens[i], env).value.pending.active
  }

  ghost function StateAt(sealed: string -> Option<State>, tokens: seq<string>, i: nat, env: Env): State
    requires i < |tokens| && OpenAt(sealed, tokens, i, env)
  {
    Content(sealed, tokens[i], env).value
  }

  ghost function FrameAt(sealed: string -> Option<State>, tokens: seq<string>, i: nat, env: Env): Frame
    requires i < |tokens| && OpenAt(sealed, tokens, i, env)
  {
    StateAt(sealed, tokens, i, env).pending
  }

  /** Native tags live in their own domain: none equals a question or restatement tag. */
  ghost predicate NativeTagsApart(sealed: string -> Option<State>, tokens: seq<string>, env: Env) {
    forall i, j ::
      0 <= i < |tokens| && 0 <= j < |tokens| && OpenAt(sealed, tokens, i, env) && OpenAt(sealed, tokens, j, env) ==>
      var f, g := FrameAt(sealed, tokens, i, env), FrameAt(sealed, tokens, j, env);
      f.nativeTag == "" || (f.nativeTag != g.questionTag && f.nativeTag != g.restatementTag)
  }

  lemma ChainStep(sealed: string -> Option<State>, tokens: seq<string>, requests: seq<Request>, env: Env, i: nat)
    requires OpenChain(sealed, tokens, requests, env) && i < |requests|
    ensures OpenAt(sealed, tokens, i, env) && OpenAt(sealed, tokens, i + 1, env)
    ensures var s, t := StateAt(sealed, tokens, i, env), StateAt(sealed, tokens, i + 1, env);
      && t.sessionId == s.sessionId && t.turn == s.turn + 1
      && SameScope(s.pending, t.pending, env) && s.pending.active && t.pending.active
      && NormalizeFrame(s.pending, env) == Some(s.pending) && NormalizeFrame(t.pending, env) == Some(t.pending)
  {
    hide NormalizeFrame;
    hide NormalizeState;
    hide SameScope;
    hide Accepts;
    hide Content;
    AcceptedStep(sealed, requests[i], env);
    ContentIsNormal(sealed, tokens[i], env);
    ContentIsNormal(sealed, tokens[i + 1], env);
  }

  lemma {:induction false} ChainTurns(
    sealed: string -> Option<State>, tokens: seq<string>, requests: seq<Request>, env: Env, i: nat)
    requires OpenChain(sealed, tokens, requests, env) && i < |tokens|
    ensures StateAt(sealed, tokens, i, env).sessionId == StateAt(sealed, tokens, 0, env).sessionId
    ensures StateAt(sealed, tokens, i, env).turn == StateAt(sealed, tokens, 0, env).turn + i
    decreases i
  {
    if i > 0 {
      ChainTurns(sealed, tokens, requests, env, i - 1);
      ChainStep(sealed, tokens, requests, env, i - 1);
      hide Accepts;
      hide Content;
    }
  }

  lemma NormalNative(f: Frame, env: Env)
    requires NormalizeFrame(f, env) == Some(f) && f.active && f.nativeTag != ""
    ensures ScopeOf(f, env) == f.nativeTag && f.restatementTag == "" && f.questionTag == ""
  {
    hide Collapse;
  }

  lemma PlainStaysPlain(f: Frame, g: Frame, env: Env)
    requires NormalizeFrame(g, env) == Some(g) && SameScope(f, g, env)
    requires f.active && g.active && f.nativeTag == ""
    requires g.nativeTag != "" ==> g.nativeTag != f.questionTag && g.nativeTag != f.restatementTag
    ensures g.nativeTag == "" && ScopeOf(g, env) == ScopeOf(f, env)
  {
    if g.nativeTag != "" { NormalNative(g, env); }
    hide NormalizeFrame;
  }

  /** Once the native tag is gone it never comes back, so the scope stays as it is. */
  lemma {:induction false} NoNativeAgain(
    sealed: string -> Option<State>, tokens: seq<string>, requests: seq<Request>, env: Env, i: nat, j: nat)
    requires OpenChain(sealed, tokens, requests, env) && NativeTagsApart(sealed, tokens, env)
    requires i <= j < |tokens| && FrameAt(sealed, tokens, i, env).nativeTag == ""
    ensures FrameAt(sealed, tokens, j, env).nativeTag == ""
    ensures ScopeOf(FrameAt(sealed, tokens, j, env), env) == ScopeOf(FrameAt(sealed, tokens, i, env), env)
    decreases j
  {
    hide NormalizeFrame;
    hide SameScope;
    hide ScopeOf;
    hide Accepts;
    hide Content;
    if j > i {
      NoNativeAgain(sealed, tokens, requests, env, i, j - 1);
      ChainStep(sealed, tokens, requests, env, j - 1);
      PlainStaysPlain(FrameAt(sealed, tokens, j - 1, env), FrameAt(sealed, tokens, j, env), env);
    }
  }

  ghost predicate ScopeChangesAt(sealed: string -> Option<State>, tokens: seq<string>, i: nat, env: Env)
    requires i + 1 < |tokens| && OpenAt(sealed, tokens, i, env) && OpenAt(sealed, tokens, i + 1, env)
  {
    ScopeOf(FrameAt(sealed, tokens, i, env), env) != ScopeOf(FrameAt(sealed, tokens, i + 1, env), env)
  }

  /**
   While an answer scope is open its tag changes at most once in any chain, and only by exchanging
   a native scope for a restatement-bound one.
   */
  lemma {:induction false} ScopeChangesAtMostOnce(
    sealed: string -> Option<State>, tokens: seq<string>, requests: seq<Request>, env: Env, i: nat, j: nat)
    requires OpenChain(sealed, tokens, requests, env) && NativeTagsApart(sealed, tokens, env)
    requires i < |requests| && j < |requests| && ScopeChangesAt(sealed, tokens, i, env)
    ensures FrameAt(sealed, tokens, i, env).nativeTag != "" && FrameAt(sealed, tokens, i + 1, env).restatementTag != ""
    ensures ScopeChangesAt(sealed, tokens, j, env) ==> i == j
  {
    hide Accepts;
    hide Content;
    hide NativeTagsApart;
    SwapAt(sealed, tokens, requests, env, i);
    if ScopeChangesAt(sealed, tokens, j, env) {
      SwapAt(sealed, tokens, requests, env, j);
      if i < j {
        NoNativeAgain(sealed, tokens, requests, env, i + 1, j);
      } else if j < i {
        NoNativeAgain(sealed, tokens, requests, env, j + 1, i);
      }
    }
  }

  lemma SwapAt(sealed: string -> Option<State>, tokens: seq<string>, requests: seq<Request>, env: Env, i: nat)
    requires OpenChain(sealed, tokens, requests, env)
    requires i < |requests| && ScopeChangesAt(sealed, tokens, i, env)
    ensures FrameAt(sealed, tokens, i, env).nativeTag != "" && FrameAt(sealed, tokens, i + 1, env).restatementTag != ""
    ensures FrameAt(sealed, tokens, i + 1, env).nativeTag == ""
  {
    hide Accepts;
    hide Content;
    hide NormalizeFrame;
    ChainStep(sealed, tokens, requests, env, i);
    Swapped(FrameAt(sealed, tokens, i, env), FrameAt(sealed, tokens, i + 1, env), env);
  }

  lemma Swapped(f: Frame, g: Frame, env: Env)
    requires NormalizeFrame(g, env) == Some(g) && g.active && SameScope(f, g, env) && ScopeOf(f, env) != ScopeOf(g, env)
    ensures f.nativeTag != "" && g.restatementTag != "" && g.nativeTag == ""
  {
    if g.nativeTag != "" { NormalNative(g, env); }
    hide NormalizeFrame;
  }
}
