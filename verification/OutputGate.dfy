/**
 The live output gate.  Response audio, the respondent checkpoint and the commit acknowledgement
 are produced by different goroutines; one mutex serializes their critical sections.  The wire
 log records the frames in the order the socket accepts them.

 `Step` is one critical section (or one local move of the checkpoint callback between two of
 them).  The class below has one method per critical section, each proved to take exactly that
 step.  The theorems are about every finite interleaving.
 */
module OutputGate {
  import opened Common
  import opened ByteEncoding
  import opened PcmOutput
  import StrictAudio

  datatype Checkpoint = Checkpoint(
    sessionState: string, route: string, assistanceTarget: string,
    respondentStage: string, coachPhase: string, coachAction: string)

  datatype TurnResult = TurnResult(
    stateToken: string, route: string, assistanceTarget: string,
    respondentStage: string, coachPhase: string, coachAction: string)

  datatype Frame = Ack | Coach(checkpoint: Checkpoint) | Pcm(audio: Bytes)

  /** Where the first checkpoint callback stands; a later callback fails on its first move. */
  datatype Callback =
    | NotBegun
    | Begun(checkpoint: Checkpoint)
    | FramesClear(checkpoint: Checkpoint)
    | Doomed
    | Finished

  datatype Handler = Capturing | Committed | Returned

  /** What is fixed for one connection: strict mode excludes native audio, hence checkpoints. */
  datatype Config = Config(ackRequested: bool, strict: bool)

  /** In strict mode `held` waits for the result; `handed` of its chunks have gone out since it was closed. */
  datatype State = State(
    attempted: bool, accepted: bool, rejected: bool, checkpoint: Option<Checkpoint>,
    committed: bool, frames: nat, bytes: nat, callback: Callback, handler: Handler, wire: seq<Frame>,
    held: seq<Bytes>, heldBytes: nat, closed: bool, handed: nat, stopped: bool)

  const INITIAL := State(false, false, false, None, false, 0, 0, NotBegun, Capturing, [], [], 0, false, 0, false)

  /**
   Deliver carries one chunk; Deliver and HandOut carry how many 20 ms frames the socket took before it
   failed.  The other flags are the outcomes of the calls made inside the section.
   */
  datatype Action =
    | Deliver(audio: Bytes, taken: nat)
    | Begin(checkpoint: Checkpoint)
    | Inspect(valid: bool)
    | RejectSelf
    | Publish(written: bool)
    | Commit(inputFinished: bool, written: bool)
    | Release
    | HandOut(taken: nat)

  function Taken(audio: Bytes, taken: nat): nat {
    if taken <= |Frames(audio)| then taken else |Frames(audio)|
  }

  function Sent(audio: Bytes, taken: nat): seq<Frame> {
    seq(Taken(audio, taken), i requires 0 <= i < |Frames(audio)| => Pcm(Frames(audio)[i]))
  }

  function SentBytes(audio: Bytes, taken: nat): nat {
    |Flatten(Frames(audio)[..Taken(audio, taken)])|
  }

  /** The metrics refuse audio before the commit, misshapen audio, and audio over the budget. */
  predicate Admitted(s: State, audio: Bytes) {
    && s.committed && |audio| != 0 && |audio| % 2 == 0 && |audio| <= MAX_CHUNK_BYTES
    && FrameCount(|audio|) <= MAX_FRAMES - s.frames && |audio| <= MAX_AUDIO_BYTES - s.bytes
  }

  /** Writes response audio, as far as the socket takes it. */
  function Write(s: State, audio: Bytes, taken: nat): State {
    if !Admitted(s, audio) then s
    else s.(wire := s.wire + Sent(audio, taken), frames := s.frames + Taken(audio, taken),
      bytes := s.bytes + SentBytes(audio, taken))
  }

  /** What the strict buffer still takes in. */
  predicate Holds(s: State, audio: Bytes) {
    && !s.closed && s.committed && |audio| != 0 && |audio| % 2 == 0 && |audio| <= MAX_CHUNK_BYTES
    && |s.held| < StrictAudio.MAX_CHUNKS && |audio| <= MAX_AUDIO_BYTES - s.heldBytes
  }

  function Hold(s: State, audio: Bytes): State {
    if !Holds(s, audio) then s else s.(held := s.held + [audio], heldBytes := s.heldBytes + |audio|)
  }

  /** Hands out the next held chunk; a failure ends the hand-out. */
  function HandedOut(s: State, taken: nat): State {
    if !s.closed || s.stopped || s.handed >= |s.held| then s
    else
      var chunk := s.held[s.handed];
      if Admitted(s, chunk) && Taken(chunk, taken) == |Frames(chunk)|
      then Write(s, chunk, taken).(handed := s.handed + 1) else Write(s, chunk, taken).(stopped := true)
  }

  /** One step; an action that is not enabled changes nothing. */
  function Step(cfg: Config, s: State, a: Action): State {
    match a
    case Deliver(audio, taken) =>
      if s.rejected || (s.attempted && !s.accepted) then s.(rejected := true)
      else if cfg.strict then Hold(s, audio)
      else Write(s, audio, taken)
    case Begin(c) =>
      if cfg.strict then s
      else if s.attempted then s.(rejected := true)
      else s.(attempted := true, callback := Begun(c))
    case Inspect(valid) =>
      if !s.callback.Begun? then s
      else if !valid || s.frames != 0 then s.(callback := Doomed)
      else s.(callback := FramesClear(s.callback.checkpoint))
    case RejectSelf =>
      if !s.callback.Doomed? then s else s.(rejected := true, callback := Finished)
    case Publish(written) =>
      if !s.callback.FramesClear? then s
      else if s.rejected then s.(callback := Finished)
      else if !written then s.(rejected := true, callback := Finished)
      else s.(accepted := true, checkpoint := Some(s.callback.checkpoint), callback := Finished,
              wire := s.wire + [Coach(s.callback.checkpoint)])
    case Commit(inputFinished, written) =>
      if !s.handler.Capturing? then s
      else
        var marked := s.(committed := true);
        if !inputFinished || (cfg.ackRequested && !written) then marked.(rejected := true, handler := Returned)
        else marked.(handler := Committed, wire := if cfg.ackRequested then s.wire + [Ack] else s.wire)
    case Release =>
      if !cfg.strict || !s.handler.Committed? then s else s.(closed := true)
    case HandOut(taken) => HandedOut(s, taken)
  }

  function Run(cfg: Config, s: State, actions: seq<Action>): State
    decreases |actions|
  {
    if actions == [] then s else Run(cfg, Step(cfg, s, actions[0]), actions[1..])
  }

  // ---------------------------------------------------------------- the critical sections

  class CoachOutputGate {
    const cfg: Config
    var attempted: bool
    var accepted: bool
    var rejected: bool
    var checkpoint: Option<Checkpoint>
    var committed: bool
    var frames: nat
    var bytes: nat
    var callback: Callback
    var handler: Handler
    var wire: seq<Frame>
    var held: seq<Bytes>
    var heldBytes: nat
    var closed: bool
    var handed: nat
    var stopped: bool

    ghost function Abs(): State
      reads this
    {
      State(attempted, accepted, rejected, checkpoint, committed, frames, bytes, callback, handler, wire,
            held, heldBytes, closed, handed, stopped)
    }

    constructor (cfg: Config)
      ensures Abs() == INITIAL && this.cfg == cfg
    {
      this.cfg := cfg;
      attempted, accepted, rejected, checkpoint := false, false, false, None;
      committed, frames, bytes, callback, handler, wire := false, 0, 0, NotBegun, Capturing, [];
      held, heldBytes, closed, handed, stopped := [], 0, false, 0, false;
    }

    method WriteAudio(audio: Bytes, taken: nat) returns (ok: bool)
      modifies this`wire, this`frames, this`bytes
      ensures Abs() == Write(old(Abs()), audio, taken)
      ensures ok <==> old(Admitted(Abs(), audio)) && Taken(audio, taken) == |Frames(audio)|
    {
      hide Sent;
      hide SentBytes;
      hide Taken;
      hide Frames;
      if !committed || |audio| == 0 || |audio| % 2 != 0 || |audio| > MAX_CHUNK_BYTES
         || FrameCount(|audio|) > MAX_FRAMES - frames || |audio| > MAX_AUDIO_BYTES - bytes {
        return false;
      }
      ok := WriteFrames(audio, taken);
    }

    /** Frame by frame, until the socket takes no more. */
    method WriteFrames(audio: Bytes, taken: nat) returns (ok: bool)
      modifies this`wire, this`frames, this`bytes
      ensures wire == old(wire) + Sent(audio, taken)
      ensures frames == old(frames) + Taken(audio, taken) && bytes == old(bytes) + SentBytes(audio, taken)
      ensures ok <==> Taken(audio, taken) == |Frames(audio)|
    {
      var chunk := Frames(audio);
      hide *;
      var sent := 0;
      NothingSent(audio);
      while sent < |chunk| && sent < taken
        invariant sent <= |chunk| && sent <= taken
        invariant wire == old(wire) + Sent(audio, sent)
        invariant frames == old(frames) + sent && bytes == old(bytes) + SentBytes(audio, sent)
      {
        OneMoreSent(audio, sent);
        wire := wire + [Pcm(chunk[sent])];
        frames := frames + 1;
        bytes := bytes + |chunk[sent]|;
        sent := sent + 1;
      }
      SentTaken(audio, sent, taken);
      ok := sent == |chunk|;
    }

    /** `entered` says whether the audio was let through to the writer at all. */
    method DeliverAudio(audio: Bytes, taken: nat) returns (entered: bool)
      modifies this
      ensures Abs() == Step(cfg, old(Abs()), Deliver(audio, taken))
      ensures entered <==> !old(rejected) && (old(attempted) ==> old(accepted))
    {
      if rejected || (attempted && !accepted) {
        rejected := true;
        return false;
      }
      entered := true;
      if !cfg.strict {
        var _ := WriteAudio(audio, taken);
      } else if !closed && committed && |audio| != 0 && |audio| % 2 == 0 && |audio| <= MAX_CHUNK_BYTES
                && |held| < StrictAudio.MAX_CHUNKS && |audio| <= MAX_AUDIO_BYTES - heldBytes {
        held := held + [audio];
        heldBytes := heldBytes + |audio|;
      }
    }

    /** The result has passed: the buffer takes nothing more in. */
    method ReleaseHeld()
      requires cfg.strict && handler.Committed?
      modifies this
      ensures Abs() == Step(cfg, old(Abs()), Release)
    {
      closed := true;
    }

    method HandOutNext(taken: nat) returns (ok: bool)
      requires closed && !stopped && handed < |held|
      modifies this
      ensures Abs() == Step(cfg, old(Abs()), HandOut(taken))
      ensures ok == !stopped
    {
      hide Frames;
      hide Sent;
      hide SentBytes;
      ok := WriteAudio(held[handed], taken);
      if ok {
        handed := handed + 1;
      } else {
        stopped := true;
      }
    }

    method BeginCheckpoint(c: Checkpoint) returns (ok: bool)
      requires !cfg.strict
      modifies this
      ensures Abs() == Step(cfg, old(Abs()), Begin(c))
      ensures ok == !old(attempted)
    {
      if attempted {
        rejected := true;
        return false;
      }
      attempted := true;
      callback := Begun(c);
      ok := true;
    }

    /** The callback's own validation and its look at the number of frames already sent. */
    method InspectCheckpoint(valid: bool) returns (ok: bool)
      requires callback.Begun?
      modifies this
      ensures Abs() == Step(cfg, old(Abs()), Inspect(valid))
      ensures ok <==> valid && frames == 0
    {
      ok := valid && frames == 0;
      callback := if ok then FramesClear(callback.checkpoint) else Doomed;
    }

    method Reject()
      requires callback.Doomed?
      modifies this
      ensures Abs() == Step(cfg, old(Abs()), RejectSelf)
    {
      rejected := true;
      callback := Finished;
    }

    method PublishCheckpoint(written: bool) returns (ok: bool)
      requires callback.FramesClear?
      modifies this
      ensures Abs() == Step(cfg, old(Abs()), Publish(written))
      ensures ok <==> accepted && checkpoint == Some(old(callback).checkpoint) && !old(rejected) && written
    {
      var c := callback.checkpoint;
      callback := Finished;
      if rejected {
        return false;
      }
      if !written {
        rejected := true;
        return false;
      }
      wire := wire + [Coach(c)];
      checkpoint := Some(c);
      accepted := true;
      ok := true;
    }

    method CommitInput(inputFinished: bool, written: bool) returns (ok: bool)
      requires handler.Capturing?
      modifies this
      ensures Abs() == Step(cfg, old(Abs()), Commit(inputFinished, written))
      ensures ok <==> handler.Committed?
    {
      committed := true;
      if !inputFinished {
        rejected, handler := true, Returned;
        return false;
      }
      if cfg.ackRequested {
        if !written {
          rejected, handler := true, Returned;
          return false;
        }
        wire := wire + [Ack];
      }
      handler := Committed;
      ok := true;
    }
  }

  lemma SentTaken(audio: Bytes, sent: nat, taken: nat)
    requires sent == if taken <= |Frames(audio)| then taken else |Frames(audio)|
    ensures sent == Taken(audio, taken)
    ensures Sent(audio, sent) == Sent(audio, taken) && SentBytes(audio, sent) == SentBytes(audio, taken)
  {
    hide Frames;
    hide Flatten;
  }

  /** Which parts of the state the writers touch. */
  lemma WriteTouches(s: State, audio: Bytes, taken: nat)
    ensures var t := Write(s, audio, taken); t == s.(wire := t.wire, frames := t.frames, bytes := t.bytes)
  {
    hide Sent;
    hide SentBytes;
    hide Taken;
    hide Admitted;
  }

  lemma HoldTouches(s: State, audio: Bytes)
    ensures var t := Hold(s, audio); t == s.(held := t.held, heldBytes := t.heldBytes)
  {
    hide Holds;
  }

  lemma HandOutTouches(s: State, taken: nat)
    ensures var t := HandedOut(s, taken);
      t == s.(wire := t.wire, frames := t.frames, bytes := t.bytes, handed := t.handed, stopped := t.stopped)
  {
    if s.handed < |s.held| { WriteTouches(s, s.held[s.handed], taken); }
    hide Write;
    hide Admitted;
  }

  lemma NothingSent(audio: Bytes)
    ensures Sent(audio, 0) == [] && SentBytes(audio, 0) == 0
  {
    assert Frames(audio)[..0] == [];
  }

  lemma OneMoreSent(audio: Bytes, sent: nat)
    requires sent < |Frames(audio)|
    ensures Sent(audio, sent + 1) == Sent(audio, sent) + [Pcm(Frames(audio)[sent])]
    ensures SentBytes(audio, sent + 1) == SentBytes(audio, sent) + |Frames(audio)[sent]|
  {
    hide Flatten;
    assert Frames(audio)[..sent + 1] == Frames(audio)[..sent] + [Frames(audio)[sent]];
    FlattenSnoc(Frames(audio)[..sent], Frames(audio)[sent]);
  }

  // ---------------------------------------------------------------- the invariant

  function PcmCount(wire: seq<Frame>): nat {
    if wire == [] then 0 else PcmCount(wire[..|wire| - 1]) + if wire[|wire| - 1].Pcm? then 1 else 0
  }

  lemma {:induction false} CountAppended(wire: seq<Frame>, more: seq<Frame>)
    ensures PcmCount(wire + more) == PcmCount(wire) + PcmCount(more)
    decreases |more|
  {
    if more == [] {
      assert wire + more == wire;
    } else {
      assert (wire + more)[..|wire + more| - 1] == wire + more[..|more| - 1];
      CountAppended(wire, more[..|more| - 1]);
    }
  }

  lemma {:induction false} CountSent(audio: Bytes, taken: nat)
    requires taken <= |Frames(audio)|
    ensures PcmCount(Sent(audio, taken)) == taken
    decreases taken
  {
    if taken > 0 {
      CountSent(audio, taken - 1);
      hide Frames;
      assert Sent(audio, taken)[..taken - 1] == Sent(audio, taken - 1);
    }
  }

  /** No more than the chunk's own frames and bytes go out. */
  lemma SentFits(audio: Bytes, taken: nat)
    ensures Taken(audio, taken) <= FrameCount(|audio|) && SentBytes(audio, taken) <= |audio|
  {
    FrameShape(audio);
    FramesLoseNothing(audio);
    hide Frames;
    hide Flatten;
    var frames, n := Frames(audio), Taken(audio, taken);
    FlattenConcat(frames[..n], frames[n..]);
    assert frames == frames[..n] + frames[n..];
  }

  lemma OneFrameCounted(wire: seq<Frame>, f: Frame)
    ensures PcmCount(wire + [f]) == PcmCount(wire) + if f.Pcm? then 1 else 0
  {
    assert (wire + [f])[..|wire|] == wire;
  }

  ghost predicate NoPcm(wire: seq<Frame>) {
    forall i :: 0 <= i < |wire| ==> !wire[i].Pcm?
  }

  ghost predicate CoachBeforePcm(wire: seq<Frame>) {
    forall i, j :: 0 <= i < j < |wire| && wire[i].Pcm? ==> !wire[j].Coach?
  }

  ghost predicate OneCoachAtMost(wire: seq<Frame>) {
    forall i, j :: 0 <= i < j < |wire| && wire[i].Coach? ==> !wire[j].Coach?
  }

  ghost predicate AckBeforePcm(wire: seq<Frame>) {
    forall j :: 0 <= j < |wire| && wire[j].Pcm? ==> exists i :: 0 <= i < j && wire[i].Ack?
  }

  ghost predicate OneAckAtMost(wire: seq<Frame>) {
    forall i, j :: 0 <= i < j < |wire| && wire[i].Ack? ==> !wire[j].Ack?
  }

  ghost predicate WireOrdered(cfg: Config, wire: seq<Frame>) {
    && OneCoachAtMost(wire) && CoachBeforePcm(wire) && OneAckAtMost(wire)
    && (cfg.ackRequested ==> AckBeforePcm(wire))
  }

  ghost predicate HasCoach(wire: seq<Frame>) {
    exists i :: 0 <= i < |wire| && wire[i].Coach?
  }

  ghost predicate HasAck(wire: seq<Frame>) {
    exists i :: 0 <= i < |wire| && wire[i].Ack?
  }

  ghost predicate Inv(cfg: Config, s: State) {
    && WireOrdered(cfg, s.wire)
    && s.frames == PcmCount(s.wire) <= MAX_FRAMES && s.bytes <= MAX_AUDIO_BYTES
    && (s.frames == 0 <==> NoPcm(s.wire))
    && (s.accepted <==> HasCoach(s.wire))
    && (s.accepted <==> s.checkpoint.Some?)
    && (s.accepted ==> Coach(s.checkpoint.value) in s.wire)
    && (s.attempted <==> !s.callback.NotBegun?)
    && (s.accepted ==> s.attempted && s.callback.Finished?)
    && (s.callback.Finished? && !s.accepted ==> s.rejected)
    && (s.callback.FramesClear? ==> s.frames == 0)
    && (s.committed <==> !s.handler.Capturing?)
    && (s.handler.Returned? ==> s.rejected)
    && (s.frames > 0 ==> s.handler.Committed?)
    && (HasAck(s.wire) <==> cfg.ackRequested && s.handler.Committed?)
    && (cfg.strict ==> !s.attempted && (s.rejected ==> s.handler.Returned?))
    && (s.closed ==> cfg.strict && s.handler.Committed?)
  }

  lemma AppendPcm(cfg: Config, wire: seq<Frame>, audio: Bytes, taken: nat)
    requires WireOrdered(cfg, wire) && (cfg.ackRequested ==> HasAck(wire))
    ensures var wire' := wire + Sent(audio, taken);
      && WireOrdered(cfg, wire')
      && (HasCoach(wire') <==> HasCoach(wire)) && (HasAck(wire') <==> HasAck(wire))
      && (NoPcm(wire') <==> NoPcm(wire) && Taken(audio, taken) == 0)
      && PcmCount(wire') == PcmCount(wire) + Taken(audio, taken)
      && forall f :: f in wire ==> f in wire'
  {
    var sent := Sent(audio, taken);
    var wire' := wire + sent;
    CountSent(audio, Taken(audio, taken));
    assert sent == Sent(audio, Taken(audio, taken));
    CountAppended(wire, sent);
    hide Frames;
    hide PcmCount;
    assert forall i :: 0 <= i < |wire| ==> wire'[i] == wire[i];
    assert forall i :: |wire| <= i < |wire'| ==> wire'[i] == sent[i - |wire|] && wire'[i].Pcm?;
    if sent != [] { assert wire'[|wire|].Pcm?; }
  }

  lemma AppendCoach(cfg: Config, wire: seq<Frame>, c: Checkpoint)
    requires WireOrdered(cfg, wire) && NoPcm(wire) && !HasCoach(wire)
    ensures var wire' := wire + [Coach(c)];
      && WireOrdered(cfg, wire') && HasCoach(wire') && (HasAck(wire') <==> HasAck(wire)) && NoPcm(wire')
  {
    var wire' := wire + [Coach(c)];
    assert wire'[|wire|].Coach?;
    assert forall i :: 0 <= i < |wire| ==> wire'[i] == wire[i];
  }

  lemma AppendAck(cfg: Config, wire: seq<Frame>)
    requires WireOrdered(cfg, wire) && !HasAck(wire)
    ensures var wire' := wire + [Ack];
      && WireOrdered(cfg, wire') && HasAck(wire') && (HasCoach(wire') <==> HasCoach(wire))
      && (NoPcm(wire') <==> NoPcm(wire)) && forall f :: f in wire ==> f in wire'
  {
    var wire' := wire + [Ack];
    assert wire'[|wire|].Ack?;
    assert forall i :: 0 <= i < |wire| ==> wire'[i] == wire[i];
  }

  lemma StepKeepsInv(cfg: Config, s: State, a: Action)
    requires Inv(cfg, s)
    ensures Inv(cfg, Step(cfg, s, a))
  {
    hide WireOrdered;
    hide HasCoach;
    hide HasAck;
    hide NoPcm;
    hide Sent;
    hide SentBytes;
    hide Taken;
    hide FrameCount;
    hide PcmCount;
    match a
    case Deliver(audio, taken) =>
      if s.handler.Committed? {
        AppendPcm(cfg, s.wire, audio, taken);
        SentFits(audio, taken);
      }
    case HandOut(taken) =>
      if s.closed && s.handed < |s.held| {
        AppendPcm(cfg, s.wire, s.held[s.handed], taken);
        SentFits(s.held[s.handed], taken);
      }
    case Publish(written) =>
      if s.callback.FramesClear? {
        AppendCoach(cfg, s.wire, s.callback.checkpoint);
        OneFrameCounted(s.wire, Coach(s.callback.checkpoint));
      }
    case Commit(inputFinished, written) =>
      if s.handler.Capturing? {
        AppendAck(cfg, s.wire);
        OneFrameCounted(s.wire, Ack);
      }
    case _ =>
  }

  lemma {:induction false} RunKeepsInv(cfg: Config, s: State, actions: seq<Action>)
    requires Inv(cfg, s)
    ensures Inv(cfg, Run(cfg, s, actions))
    decreases |actions|
  {
    if actions != [] {
      StepKeepsInv(cfg, s, actions[0]);
      RunKeepsInv(cfg, Step(cfg, s, actions[0]), actions[1..]);
    }
  }

  lemma ReachableInv(cfg: Config, actions: seq<Action>)
    ensures Inv(cfg, Run(cfg, INITIAL, actions))
  {
    RunKeepsInv(cfg, INITIAL, actions);
  }

  // ---------------------------------------------------------------- theorems over whole runs

  /**
   In every interleaving: one coach frame at most, none after audio, the ack before all audio, and the frame budget.
   */
  lemma {:induction false} WireIsOrdered(cfg: Config, actions: seq<Action>)
    ensures WireOrdered(cfg, Run(cfg, INITIAL, actions).wire)
    ensures PcmCount(Run(cfg, INITIAL, actions).wire) <= MAX_FRAMES
  {
    RunKeepsInv(cfg, INITIAL, actions);
  }

  lemma WriteAppends(s: State, audio: Bytes, taken: nat)
    ensures s.wire <= Write(s, audio, taken).wire
  {
    hide Sent;
    hide Admitted;
  }

  lemma HandedOutAppends(s: State, taken: nat)
    ensures s.wire <= HandedOut(s, taken).wire
  {
    hide Write;
    if s.handed < |s.held| { WriteAppends(s, s.held[s.handed], taken); }
  }

  lemma StepAppends(cfg: Config, s: State, a: Action)
    ensures s.wire <= Step(cfg, s, a).wire
  {
    hide Write;
    hide HandedOut;
    hide Holds;
    match a
    case Deliver(audio, taken) => WriteAppends(s, audio, taken);
    case HandOut(taken) => HandedOutAppends(s, taken);
    case _ =>
  }

  /** Frames are only ever appended. */
  lemma {:induction false} WireGrows(cfg: Config, s: State, actions: seq<Action>)
    ensures s.wire <= Run(cfg, s, actions).wire
    decreases |actions|
  {
    if actions != [] {
      StepAppends(cfg, s, actions[0]);
      hide Step;
      WireGrows(cfg, Step(cfg, s, actions[0]), actions[1..]);
    }
  }

  lemma AttemptStep(cfg: Config, s: State, a: Action)
    requires Inv(cfg, s) && s.attempted && !s.accepted
    ensures var m := Step(cfg, s, a);
      m.attempted && (m.accepted || m.wire == s.wire || m.wire == s.wire + [Ack])
  {
    hide Sent;
    hide SentBytes;
    hide Taken;
    hide FrameCount;
    hide PcmCount;
    hide WireOrdered;
  }

  lemma NoPcmJoined(u: seq<Frame>, v: seq<Frame>, w: seq<Frame>)
    requires u <= v <= w && NoPcm(v[|u|..]) && NoPcm(w[|v|..])
    ensures NoPcm(w[|u|..])
  {
    assert w[|u|..] == v[|u|..] + w[|v|..];
  }

  /** From a checkpoint attempt on, no audio reaches the wire before that checkpoint is accepted. */
  lemma {:induction false} SilentWhileAttempting(cfg: Config, s: State, actions: seq<Action>)
    requires Inv(cfg, s) && s.attempted && !s.accepted
    ensures var t := Run(cfg, s, actions);
      t.attempted && s.wire <= t.wire && (!t.accepted ==> NoPcm(t.wire[|s.wire|..]))
    decreases |actions|
  {
    hide Step;
    hide Inv;
    WireGrows(cfg, s, actions);
    if actions == [] {
      assert s.wire[|s.wire|..] == [];
    } else {
      var m := Step(cfg, s, actions[0]);
      StepKeepsInv(cfg, s, actions[0]);
      AttemptStep(cfg, s, actions[0]);
      if m.accepted {
        AcceptedForever(cfg, m, actions[1..]);
      } else {
        SilentWhileAttempting(cfg, m, actions[1..]);
        var t := Run(cfg, s, actions);
        if !t.accepted { NoPcmJoined(s.wire, m.wire, t.wire); }
      }
    }
  }

  lemma {:induction false} AcceptedForever(cfg: Config, s: State, actions: seq<Action>)
    requires Inv(cfg, s) && s.accepted
    ensures var t := Run(cfg, s, actions); t.accepted && t.attempted && t.checkpoint == s.checkpoint
    decreases |actions|
  {
    if actions != [] {
      StepKeepsInv(cfg, s, actions[0]);
      AcceptedForever(cfg, Step(cfg, s, actions[0]), actions[1..]);
    }
  }

  /** After a rejection nothing but one outstanding acknowledgement can still be written. */
  lemma {:induction false} AfterRejection(cfg: Config, s: State, actions: seq<Action>)
    requires Inv(cfg, s) && s.rejected
    ensures var t := Run(cfg, s, actions);
      t.rejected && (t.wire == s.wire || (cfg.ackRequested && s.handler.Capturing? && t.wire == s.wire + [Ack]))
    decreases |actions|
  {
    hide Step;
    hide Inv;
    if actions != [] {
      StepKeepsInv(cfg, s, actions[0]);
      RejectedStep(cfg, s, actions[0]);
      AfterRejection(cfg, Step(cfg, s, actions[0]), actions[1..]);
    }
  }

  lemma RejectedStep(cfg: Config, s: State, a: Action)
    requires Inv(cfg, s) && s.rejected
    ensures var m := Step(cfg, s, a);
      && m.rejected
      && (if m.wire == s.wire then m.handler.Capturing? ==> s.handler.Capturing?
          else cfg.ackRequested && s.handler.Capturing? && m.wire == s.wire + [Ack] && !m.handler.Capturing?)
  {
    hide Sent;
    hide SentBytes;
    hide Taken;
    hide FrameCount;
    hide PcmCount;
    hide WireOrdered;
  }

  /**
   "Nothing follows a rejection" holds exactly when no requested acknowledgement is outstanding:
   the commit section does not look at the rejected flag.
   */
  lemma {:induction false} NothingFollowsRejectionIff(cfg: Config, s: State)
    requires Inv(cfg, s) && s.rejected
    ensures (forall actions :: Run(cfg, s, actions).wire == s.wire)
       <==> !(cfg.ackRequested && s.handler.Capturing?)
  {
    if cfg.ackRequested && s.handler.Capturing? {
      var actions := [Commit(true, true)];
      assert Run(cfg, s, actions) == Step(cfg, s, actions[0]) by { assert actions[1..] == []; }
      assert Run(cfg, s, actions).wire == s.wire + [Ack];
      assert Run(cfg, s, actions).wire != s.wire;
    } else {
      forall actions ensures Run(cfg, s, actions).wire == s.wire { AfterRejection(cfg, s, actions); }
    }
  }

  /** A run in which the acknowledgement is written after two checkpoint attempts were rejected. */
  lemma RejectionCanPrecedeAck(c: Checkpoint)
    ensures var cfg := Config(true, false);
      var s := Run(cfg, INITIAL, [Begin(c), Begin(c)]);
      s.rejected && s.wire == [] && Run(cfg, INITIAL, [Begin(c), Begin(c), Commit(true, true)]).wire == [Ack]
  {
    var cfg := Config(true, false);
    var s1 := Step(cfg, INITIAL, Begin(c));
    var s2 := Step(cfg, s1, Begin(c));
    assert [Begin(c), Begin(c)][1..] == [Begin(c)] && [Begin(c)][1..] == [];
    assert [Begin(c), Begin(c), Commit(true, true)][1..] == [Begin(c), Commit(true, true)];
    assert [Begin(c), Commit(true, true)][1..] == [Commit(true, true)] && [Commit(true, true)][1..] == [];
    assert Run(cfg, INITIAL, [Begin(c), Begin(c)]) == Run(cfg, s1, [Begin(c)]) == s2;
    assert Run(cfg, INITIAL, [Begin(c), Begin(c), Commit(true, true)])
        == Run(cfg, s1, [Begin(c), Commit(true, true)]) == Run(cfg, s2, [Commit(true, true)])
        == Step(cfg, s2, Commit(true, true));
  }

  // ---------------------------------------------------------------- the turn's result

  predicate Matches(c: Checkpoint, r: TurnResult) {
    && c.sessionState == r.stateToken && c.route == r.route && c.assistanceTarget == r.assistanceTarget
    && c.respondentStage == r.respondentStage && c.coachPhase == r.coachPhase && c.coachAction == r.coachAction
  }

  predicate RequiresCheckpoint(r: TurnResult) {
    || r.route == "native-respondent-coach" || r.assistanceTarget == "respondent"
    || r.respondentStage != "none" || r.coachPhase != "none" || r.coachAction != "none"
  }

  /** Whether the control lane reports success for a result the provider returned without error. */
  predicate ControlLaneSucceeds(s: State, providerOk: bool, r: TurnResult) {
    if s.rejected || !providerOk then false
    else if s.accepted then s.checkpoint.Some? && Matches(s.checkpoint.value, r)
    else !RequiresCheckpoint(r)
  }

  /**
   A successful result that carries respondent metadata agrees, field by field, with the one and
   only coach frame the client has received.
   */
  lemma {:induction false} SuccessMatchesTheCoachFrame(
    cfg: Config, actions: seq<Action>, providerOk: bool, r: TurnResult)
    requires ControlLaneSucceeds(Run(cfg, INITIAL, actions), providerOk, r)
    ensures var wire := Run(cfg, INITIAL, actions).wire;
      && (RequiresCheckpoint(r) ==> HasCoach(wire))
      && (forall i :: 0 <= i < |wire| && wire[i].Coach? ==> Matches(wire[i].checkpoint, r))
  {
    RunKeepsInv(cfg, INITIAL, actions);
    var s := Run(cfg, INITIAL, actions);
    forall i | 0 <= i < |s.wire| && s.wire[i].Coach? ensures Matches(s.wire[i].checkpoint, r) {
      var j :| 0 <= j < |s.wire| && s.wire[j] == Coach(s.checkpoint.value);
      assert i == j;
    }
  }
}
