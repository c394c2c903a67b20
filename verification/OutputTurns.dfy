/**
 What a client hears of a turn: the frames every action writes, the audio they add up to over a run,
 and the turns in which nothing goes wrong.
 */
module OutputTurns {
  import opened Common
  import opened Sequences
  import opened ByteEncoding
  import opened PcmOutput
  import opened OutputGate
  import StrictAudio

  // ---------------------------------------------------------------- frames and audio

  function Smaller(a: nat, b: nat): nat {
    if a <= b then a else b
  }

  /** The `i`-th 20 ms of a chunk. */
  function Slice(audio: Bytes, i: nat): Bytes
    requires FRAME_BYTES * i <= |audio|
  {
    audio[FRAME_BYTES * i..Smaller(FRAME_BYTES * (i + 1), |audio|)]
  }

  /** What the socket has taken of a chunk after `taken` frames. */
  function Upto(audio: Bytes, taken: nat): Bytes {
    audio[..Smaller(FRAME_BYTES * taken, |audio|)]
  }

  lemma CountFits(length: nat, i: nat)
    ensures i < FrameCount(length) <==> FRAME_BYTES * i < length
  {
  }

  /** The frames of a chunk are its consecutive slices. */
  lemma {:induction false} FrameIsSlice(audio: Bytes, i: nat)
    requires i < FrameCount(|audio|)
    ensures i < |Frames(audio)| && FRAME_BYTES * i < |audio| && Frames(audio)[i] == Slice(audio, i)
    decreases i
  {
    FrameShape(audio);
    CountFits(|audio|, i);
    if i > 0 {
      FrameIsSlice(audio[FRAME_BYTES..], i - 1);
      SliceOfRest(audio, i);
      hide Slice;
      assert Frames(audio)[i] == Frames(audio[FRAME_BYTES..])[i - 1];
    }
  }

  lemma SliceOfRest(audio: Bytes, i: nat)
    requires i > 0 && FRAME_BYTES * i <= |audio|
    ensures Slice(audio[FRAME_BYTES..], i - 1) == Slice(audio, i)
  {
    var end := Smaller(FRAME_BYTES * (i + 1), |audio|);
    WholeTail(audio, FRAME_BYTES);
    SliceOfSlice(audio, FRAME_BYTES, |audio|, FRAME_BYTES * (i - 1), end - FRAME_BYTES * i);
  }

  lemma WholeTail(audio: Bytes, from: nat)
    requires from <= |audio|
    ensures audio[from..|audio|] == audio[from..]
  {
  }

  /** The first `taken` slices of a chunk, one frame each. */
  function Slices(audio: Bytes, taken: nat): (frames: seq<Frame>)
  {
    seq(Smaller(taken, FrameCount(|audio|)), i requires 0 <= i < Smaller(taken, FrameCount(|audio|)) =>
      CountFits(|audio|, i);
      Pcm(Slice(audio, i)))
  }

  lemma SentIsSlices(audio: Bytes, taken: nat)
    ensures Sent(audio, taken) == Slices(audio, taken)
  {
    FrameShape(audio);
    hide Frames;
    hide FrameCount;
    forall i | 0 <= i < |Slices(audio, taken)| ensures Sent(audio, taken)[i] == Slices(audio, taken)[i] {
      FrameIsSlice(audio, i);
    }
  }

  /** The audio in a run of frames. */
  function AudioOn(wire: seq<Frame>): Bytes {
    if wire == [] then []
    else AudioOn(wire[..|wire| - 1]) + match wire[|wire| - 1] case Pcm(audio) => audio case _ => []
  }

  lemma {:induction false} AudioJoined(wire: seq<Frame>, more: seq<Frame>)
    ensures AudioOn(wire + more) == AudioOn(wire) + AudioOn(more)
    decreases |more|
  {
    if more == [] {
      assert wire + more == wire;
    } else {
      var n := |more| - 1;
      assert (wire + more)[..|wire + more| - 1] == wire + more[..n];
      AudioJoined(wire, more[..n]);
    }
  }

  lemma OneMoreSlice(audio: Bytes, n: nat)
    ensures n < FrameCount(|audio|) ==>
      && FRAME_BYTES * n < |audio|
      && Slices(audio, n + 1) == Slices(audio, n) + [Pcm(Slice(audio, n))]
      && Upto(audio, n + 1) == Upto(audio, n) + Slice(audio, n)
    ensures n >= FrameCount(|audio|) ==>
      Slices(audio, n + 1) == Slices(audio, n) && Upto(audio, n + 1) == Upto(audio, n)
  {
    CountFits(|audio|, n);
    CountFits(|audio|, n + 1);
    hide FrameCount;
  }

  lemma AudioOfOne(wire: seq<Frame>, audio: Bytes)
    ensures AudioOn(wire + [Pcm(audio)]) == AudioOn(wire) + audio
  {
    assert (wire + [Pcm(audio)])[..|wire|] == wire;
  }

  /** What a chunk's first frames carry is the chunk's first bytes. */
  lemma {:induction false} SlicesCarry(audio: Bytes, taken: nat)
    ensures AudioOn(Slices(audio, taken)) == Upto(audio, taken)
    decreases taken
  {
    if taken > 0 {
      SlicesCarry(audio, taken - 1);
      OneMoreSlice(audio, taken - 1);
      hide *;
      if taken - 1 < FrameCount(|audio|) { AudioOfOne(Slices(audio, taken - 1), Slice(audio, taken - 1)); }
    }
  }

  lemma AllSlices(audio: Bytes, taken: nat)
    requires taken >= FrameCount(|audio|)
    ensures Slices(audio, taken) == Slices(audio, FrameCount(|audio|)) && Upto(audio, taken) == audio
  {
    CountFits(|audio|, taken);
  }

  // ---------------------------------------------------------------- what each action writes

  /** The gate lets response audio through. */
  predicate GateOpen(s: State) {
    !s.rejected && (s.attempted ==> s.accepted)
  }

  function WrittenBy(cfg: Config, s: State, a: Action): seq<Frame> {
    match a
    case Deliver(audio, taken) =>
      if !cfg.strict && GateOpen(s) && Admitted(s, audio) then Slices(audio, taken) else []
    case HandOut(taken) =>
      if s.closed && !s.stopped && s.handed < |s.held| && Admitted(s, s.held[s.handed])
      then Slices(s.held[s.handed], taken) else []
    case Publish(written) =>
      if s.callback.FramesClear? && !s.rejected && written then [Coach(s.callback.checkpoint)] else []
    case Commit(inputFinished, written) =>
      if s.handler.Capturing? && inputFinished && cfg.ackRequested && written then [Ack] else []
    case _ => []
  }

  lemma StepWrites(cfg: Config, s: State, a: Action)
    ensures Step(cfg, s, a).wire == s.wire + WrittenBy(cfg, s, a)
  {
    match a
    case Deliver(audio, taken) =>
      hide Admitted;
      hide Holds;
      hide Sent;
      hide Slices;
      SentIsSlices(audio, taken);
    case HandOut(taken) =>
      hide Admitted;
      hide Sent;
      hide Slices;
      if s.handed < |s.held| { SentIsSlices(s.held[s.handed], taken); }
    case _ =>
  }

  /** The frames written by the actions of a run, in order. */
  ghost function Written(cfg: Config, actions: seq<Action>): seq<Frame> {
    if actions == [] then []
    else
      var n := |actions| - 1;
      Written(cfg, actions[..n]) + WrittenBy(cfg, Run(cfg, INITIAL, actions[..n]), actions[n])
  }

  lemma {:induction false} RunConcat(cfg: Config, s: State, a: seq<Action>, b: seq<Action>)
    ensures Run(cfg, s, a + b) == Run(cfg, Run(cfg, s, a), b)
    decreases |a|
  {
    hide Step;
    if a == [] {
      assert a + b == b;
    } else {
      assert (a + b)[1..] == a[1..] + b;
      RunConcat(cfg, Step(cfg, s, a[0]), a[1..], b);
    }
  }

  lemma RunOne(cfg: Config, s: State, a: Action)
    ensures Run(cfg, s, [a]) == Step(cfg, s, a)
  {
    hide Step;
    assert [a][1..] == [];
  }

  lemma RunLast(cfg: Config, s: State, actions: seq<Action>)
    requires actions != []
    ensures var n := |actions| - 1;
      Run(cfg, s, actions) == Step(cfg, Run(cfg, s, actions[..n]), actions[n])
  {
    hide Step;
    var n := |actions| - 1;
    assert actions == actions[..n] + [actions[n]];
    RunConcat(cfg, s, actions[..n], [actions[n]]);
    RunOne(cfg, Run(cfg, s, actions[..n]), actions[n]);
  }

  /** Over any run the wire holds exactly what its actions wrote, in order. */
  lemma {:induction false} WireIsWritten(cfg: Config, actions: seq<Action>)
    ensures Run(cfg, INITIAL, actions).wire == Written(cfg, actions)
    decreases |actions|
  {
    if actions != [] {
      hide Step;
      hide WrittenBy;
      var n := |actions| - 1;
      WireIsWritten(cfg, actions[..n]);
      RunLast(cfg, INITIAL, actions);
      StepWrites(cfg, Run(cfg, INITIAL, actions[..n]), actions[n]);
    }
  }

  /** The part of a chunk that an action puts on the wire. */
  function HeardBy(cfg: Config, s: State, a: Action): Bytes {
    match a
    case Deliver(audio, taken) =>
      if !cfg.strict && GateOpen(s) && Admitted(s, audio) then Upto(audio, taken) else []
    case HandOut(taken) =>
      if s.closed && !s.stopped && s.handed < |s.held| && Admitted(s, s.held[s.handed])
      then Upto(s.held[s.handed], taken) else []
    case _ => []
  }

  ghost function Heard(cfg: Config, actions: seq<Action>): Bytes {
    if actions == [] then []
    else
      var n := |actions| - 1;
      Heard(cfg, actions[..n]) + HeardBy(cfg, Run(cfg, INITIAL, actions[..n]), actions[n])
  }

  lemma WrittenIsHeard(cfg: Config, s: State, a: Action)
    ensures AudioOn(WrittenBy(cfg, s, a)) == HeardBy(cfg, s, a)
  {
    hide Slices;
    hide Upto;
    hide Admitted;
    match a
    case Deliver(audio, taken) => SlicesCarry(audio, taken);
    case HandOut(taken) => if s.handed < |s.held| { SlicesCarry(s.held[s.handed], taken); }
    case _ =>
  }

  /** Over any run the audio on the wire is what its deliveries got through, in order. */
  lemma {:induction false} AudioIsHeard(cfg: Config, actions: seq<Action>)
    ensures AudioOn(Run(cfg, INITIAL, actions).wire) == Heard(cfg, actions)
    decreases |actions|
  {
    if actions != [] {
      hide *;
      var n := |actions| - 1;
      var s := Run(cfg, INITIAL, actions[..n]);
      AudioIsHeard(cfg, actions[..n]);
      RunLast(cfg, INITIAL, actions);
      StepWrites(cfg, s, actions[n]);
      AudioJoined(s.wire, WrittenBy(cfg, s, actions[n]));
      WrittenIsHeard(cfg, s, actions[n]);
      HeardLast(cfg, actions);
    } else {
      NothingHeard(cfg);
    }
  }

  lemma HeardLast(cfg: Config, actions: seq<Action>)
    requires actions != []
    ensures var n := |actions| - 1;
      Heard(cfg, actions) == Heard(cfg, actions[..n]) + HeardBy(cfg, Run(cfg, INITIAL, actions[..n]), actions[n])
  {
  }

  lemma NothingHeard(cfg: Config)
    ensures Heard(cfg, []) == AudioOn(Run(cfg, INITIAL, []).wire)
  {
  }

  /**
   One delivery: behind the commit, with the gate open, whole samples and room in the budget, exactly
   the frames that the socket takes are appended; otherwise none is.
   */
  lemma DeliveryReachesTheWire(cfg: Config, s: State, audio: Bytes, taken: nat)
    requires Inv(cfg, s) && !cfg.strict
    ensures var t := Step(cfg, s, Deliver(audio, taken));
      var heard := !s.handler.Capturing? && !s.rejected && (s.attempted ==> s.accepted)
        && 0 < |audio| <= 1_048_576 && |audio| % 2 == 0
        && PcmCount(s.wire) + FrameCount(|audio|) <= 3_000 && s.bytes + |audio| <= 16_777_216;
      && t.wire == s.wire + (if heard then Slices(audio, taken) else [])
      && AudioOn(t.wire) == AudioOn(s.wire) + (if heard then Upto(audio, taken) else [])
      && t.held == s.held
  {
    hide WireOrdered;
    hide PcmCount;
    hide Slices;
    hide Upto;
    hide FrameCount;
    StepWrites(cfg, s, Deliver(audio, taken));
    StepKeeps(cfg, s, Deliver(audio, taken));
    hide Step;
    SlicesCarry(audio, taken);
    AudioJoined(s.wire, Slices(audio, taken));
    assert s.wire + [] == s.wire && AudioOn(s.wire) + [] == AudioOn(s.wire);
  }

  /** One delivery in strict mode: under the same conditions, with the buffer's own budget, it is held back. */
  lemma DeliveryIsHeld(cfg: Config, s: State, audio: Bytes, taken: nat)
    requires Inv(cfg, s) && cfg.strict
    ensures var t := Step(cfg, s, Deliver(audio, taken));
      var kept := !s.handler.Capturing? && !s.rejected && !s.closed && 0 < |audio| <= 1_048_576 && |audio| % 2 == 0
        && |s.held| < 513 && s.heldBytes + |audio| <= 16_777_216;
      t.held == s.held + (if kept then [audio] else []) && t.wire == s.wire
  {
    hide WireOrdered;
    hide PcmCount;
    StepWrites(cfg, s, Deliver(audio, taken));
    StepKeeps(cfg, s, Deliver(audio, taken));
    hide Step;
  }

  /** How many bytes of audio are on the wire, and held back. */
  ghost predicate Accounted(s: State) {
    s.bytes == |AudioOn(s.wire)| && s.heldBytes == |Flatten(s.held)|
  }

  lemma UptoSize(audio: Bytes, taken: nat)
    ensures |Upto(audio, taken)| == SentBytes(audio, taken)
  {
    SentIsSlices(audio, taken);
    SlicesCarry(audio, taken);
    SentCarries(audio, Taken(audio, taken));
    assert Sent(audio, taken) == Sent(audio, Taken(audio, taken));
  }

  lemma {:induction false} SentCarries(audio: Bytes, n: nat)
    requires n <= |Frames(audio)|
    ensures AudioOn(Sent(audio, n)) == Flatten(Frames(audio)[..n])
    decreases n
  {
    hide Frames;
    if n == 0 {
      assert Sent(audio, 0) == [] && Frames(audio)[..0] == [];
    } else {
      SentCarries(audio, n - 1);
      assert Sent(audio, n)[..n - 1] == Sent(audio, n - 1);
      assert Frames(audio)[..n] == Frames(audio)[..n - 1] + [Frames(audio)[n - 1]];
      FlattenSnoc(Frames(audio)[..n - 1], Frames(audio)[n - 1]);
    }
  }

  lemma StepAccounts(cfg: Config, s: State, a: Action)
    requires Accounted(s)
    ensures Accounted(Step(cfg, s, a))
  {
    StepWrites(cfg, s, a);
    WrittenIsHeard(cfg, s, a);
    AudioJoined(s.wire, WrittenBy(cfg, s, a));
    StepKeeps(cfg, s, a);
    FlattenConcat(s.held, KeptBy(cfg, s, a));
    StepCounts(cfg, s, a);
    if a.Deliver? { FlattenSnoc([], a.audio); assert [] + [a.audio] == [a.audio]; }
    hide Step;
    hide WrittenBy;
    hide KeptBy;
  }

  lemma StepCounts(cfg: Config, s: State, a: Action)
    ensures var t := Step(cfg, s, a);
      && t.bytes == s.bytes + |HeardBy(cfg, s, a)|
      && t.heldBytes == s.heldBytes + (if KeptBy(cfg, s, a) == [] then 0 else |KeptBy(cfg, s, a)[0]|)
  {
    match a
    case Deliver(audio, taken) => DeliverCounts(cfg, s, audio, taken);
    case HandOut(taken) => HandOutCounts(cfg, s, taken);
    case _ =>
  }

  lemma DeliverCounts(cfg: Config, s: State, audio: Bytes, taken: nat)
    ensures var t, a := Step(cfg, s, Deliver(audio, taken)), Deliver(audio, taken);
      && t.bytes == s.bytes + |HeardBy(cfg, s, a)|
      && t.heldBytes == s.heldBytes + (if KeptBy(cfg, s, a) == [] then 0 else |KeptBy(cfg, s, a)[0]|)
  {
    WriteTouches(s, audio, taken);
    WriteCounts(s, audio, taken);
    hide Upto;
    hide Admitted;
    hide Holds;
    hide Write;
  }

  lemma HandOutCounts(cfg: Config, s: State, taken: nat)
    ensures var t, a := Step(cfg, s, HandOut(taken)), HandOut(taken);
      && t.bytes == s.bytes + |HeardBy(cfg, s, a)| && t.heldBytes == s.heldBytes && KeptBy(cfg, s, a) == []
  {
    HandOutTouches(s, taken);
    if s.handed < |s.held| { WriteCounts(s, s.held[s.handed], taken); }
    hide Upto;
    hide Admitted;
    hide Write;
  }

  lemma WriteCounts(s: State, audio: Bytes, taken: nat)
    ensures Write(s, audio, taken).bytes == s.bytes + if Admitted(s, audio) then |Upto(audio, taken)| else 0
  {
    UptoSize(audio, taken);
    hide Admitted;
    hide Upto;
    hide SentBytes;
  }

  lemma {:induction false} BytesAreAccounted(cfg: Config, actions: seq<Action>)
    ensures Accounted(Run(cfg, INITIAL, actions))
    decreases |actions|
  {
    if actions != [] {
      hide Step;
      hide Accounted;
      var n := |actions| - 1;
      BytesAreAccounted(cfg, actions[..n]);
      RunLast(cfg, INITIAL, actions);
      StepAccounts(cfg, Run(cfg, INITIAL, actions[..n]), actions[n]);
    }
  }

  // ---------------------------------------------------------------- rejections and checkpoints

  /** The actions that spoil a turn. */
  predicate Spoils(cfg: Config, s: State, a: Action) {
    match a
    case Deliver(_, _) => s.attempted && !s.accepted
    case Begin(_) => !cfg.strict && s.attempted
    case RejectSelf => s.callback.Doomed?
    case Publish(written) => s.callback.FramesClear? && !written
    case Commit(inputFinished, written) =>
      s.handler.Capturing? && (!inputFinished || (cfg.ackRequested && !written))
    case _ => false
  }

  /** A run is rejected exactly when one of its actions has spoiled it. */
  lemma {:induction false} RejectedIff(cfg: Config, actions: seq<Action>)
    ensures Run(cfg, INITIAL, actions).rejected
       <==> exists k :: 0 <= k < |actions| && Spoils(cfg, Run(cfg, INITIAL, actions[..k]), actions[k])
    decreases |actions|
  {
    if actions != [] {
      hide Run;
      hide Spoils;
      var n := |actions| - 1;
      RejectedIff(cfg, actions[..n]);
      assert forall k :: 0 <= k < n ==> actions[..n][..k] == actions[..k] && actions[..n][k] == actions[k];
      RunLast(cfg, INITIAL, actions);
      SpoilsOnly(cfg, Run(cfg, INITIAL, actions[..n]), actions[n]);
      hide Step;
    }
  }

  lemma SpoilsOnly(cfg: Config, s: State, a: Action)
    ensures Step(cfg, s, a).rejected <==> s.rejected || Spoils(cfg, s, a)
  {
    if a.Deliver? {
      WriteTouches(s, a.audio, a.taken);
      HoldTouches(s, a.audio);
    }
    if a.HandOut? { HandOutTouches(s, a.taken); }
    hide Write;
    hide Hold;
    hide HandedOut;
  }

  /** The first three moves of the callback that has published `c`. */
  ghost predicate Earned(cfg: Config, actions: seq<Action>, i: nat, j: nat, k: nat, c: Checkpoint) {
    && i < j < k < |actions|
    && actions[i] == Begin(c) && actions[j] == Inspect(true) && actions[k] == Publish(true)
    && NoPcm(Run(cfg, INITIAL, actions[..j]).wire)
  }

  /** How far the callback has come, and by which actions. */
  ghost predicate Traced(cfg: Config, actions: seq<Action>, s: State) {
    && (s.callback.Begun? ==> exists i :: 0 <= i < |actions| && actions[i] == Begin(s.callback.checkpoint))
    && (s.callback.FramesClear? ==>
          exists i, j :: 0 <= i < j < |actions| && Cleared(cfg, actions, i, j, s.callback.checkpoint))
    && (s.accepted ==> s.checkpoint.Some? && exists i, j, k :: Earned(cfg, actions, i, j, k, s.checkpoint.value))
  }

  ghost predicate Cleared(cfg: Config, actions: seq<Action>, i: nat, j: nat, c: Checkpoint) {
    && i < j < |actions| && actions[i] == Begin(c) && actions[j] == Inspect(true)
    && NoPcm(Run(cfg, INITIAL, actions[..j]).wire)
  }

  lemma {:induction false} RunIsTraced(cfg: Config, actions: seq<Action>)
    ensures Traced(cfg, actions, Run(cfg, INITIAL, actions))
    decreases |actions|
  {
    hide Step;
    hide Inv;
    if actions != [] {
      var n := |actions| - 1;
      RunIsTraced(cfg, actions[..n]);
      ReachableInv(cfg, actions[..n]);
      RunLast(cfg, INITIAL, actions);
      var s := Run(cfg, INITIAL, actions[..n]);
      hide Run;
      TraceGrows(cfg, actions, s);
      TraceStep(cfg, actions, s);
    }
  }

  lemma TraceGrows(cfg: Config, actions: seq<Action>, s: State)
    requires actions != [] && Traced(cfg, actions[..|actions| - 1], s)
    ensures Traced(cfg, actions, s)
  {
    hide NoPcm;
    hide Run;
    var n := |actions| - 1;
    assert forall k :: 0 <= k < n ==> actions[..n][k] == actions[k] && actions[..n][..k] == actions[..k];
    if s.callback.FramesClear? {
      var i, j :| 0 <= i < j < n && Cleared(cfg, actions[..n], i, j, s.callback.checkpoint);
      assert Cleared(cfg, actions, i, j, s.callback.checkpoint);
    }
    if s.accepted {
      var i, j, k :| Earned(cfg, actions[..n], i, j, k, s.checkpoint.value);
      assert Earned(cfg, actions, i, j, k, s.checkpoint.value);
    }
  }

  lemma TraceStep(cfg: Config, actions: seq<Action>, s: State)
    requires actions != [] && Traced(cfg, actions, s) && Inv(cfg, s)
    requires s == Run(cfg, INITIAL, actions[..|actions| - 1])
    requires Traced(cfg, actions[..|actions| - 1], s)
    ensures Traced(cfg, actions, Step(cfg, s, actions[|actions| - 1]))
  {
    var n := |actions| - 1;
    hide Run;
    hide Inv;
    match actions[n]
    case Begin(c) =>
      hide Cleared;
      hide Earned;
    case Inspect(valid) => TraceInspect(cfg, actions, s, valid);
    case Publish(written) => TracePublish(cfg, actions, s, written);
    case _ =>
      SameCallback(cfg, s, actions[n]);
      hide Cleared;
      hide Earned;
      hide Step;
  }

  lemma TraceInspect(cfg: Config, actions: seq<Action>, s: State, valid: bool)
    requires actions != [] && Traced(cfg, actions, s) && Inv(cfg, s) && actions[|actions| - 1] == Inspect(valid)
    requires s == Run(cfg, INITIAL, actions[..|actions| - 1])
    requires Traced(cfg, actions[..|actions| - 1], s)
    ensures Traced(cfg, actions, Step(cfg, s, Inspect(valid)))
  {
    var n := |actions| - 1;
    hide Run;
    hide Earned;
    hide WireOrdered;
    hide PcmCount;
    hide NoPcm;
    if s.callback.Begun? && valid && s.frames == 0 {
      var i :| 0 <= i < |actions[..n]| && actions[..n][i] == Begin(s.callback.checkpoint);
      assert actions[i] == actions[..n][i];
      assert Cleared(cfg, actions, i, n, s.callback.checkpoint);
    }
  }

  lemma TracePublish(cfg: Config, actions: seq<Action>, s: State, written: bool)
    requires actions != [] && Traced(cfg, actions, s) && Inv(cfg, s) && actions[|actions| - 1] == Publish(written)
    requires Traced(cfg, actions[..|actions| - 1], s)
    ensures Traced(cfg, actions, Step(cfg, s, Publish(written)))
  {
    var n := |actions| - 1;
    hide Run;
    hide NoPcm;
    hide WireOrdered;
    hide PcmCount;
    if s.callback.FramesClear? && !s.rejected && written {
      var c := s.callback.checkpoint;
      var i, j :| 0 <= i < j < |actions[..n]| && Cleared(cfg, actions[..n], i, j, c);
      assert actions[..n][i] == actions[i] && actions[..n][j] == actions[j] && actions[..n][..j] == actions[..j];
      assert Earned(cfg, actions, i, j, n, c);
    }
    hide Cleared;
    hide Earned;
  }

  lemma SameCallback(cfg: Config, s: State, a: Action)
    requires !a.Begin? && !a.Inspect? && !a.Publish?
    ensures var t := Step(cfg, s, a);
      && (t.callback == s.callback || t.callback.Finished?)
      && t.accepted == s.accepted && t.checkpoint == s.checkpoint
  {
    if a.Deliver? {
      WriteTouches(s, a.audio, a.taken);
      HoldTouches(s, a.audio);
    }
    if a.HandOut? { HandOutTouches(s, a.taken); }
    hide Write;
    hide Hold;
    hide HandedOut;
  }

  /**
   Every coach frame on the wire was earned: its checkpoint began, was found valid before any audio,
   and was then published.
   */
  lemma {:induction false} CoachFrameIsEarned(cfg: Config, actions: seq<Action>, at: nat)
    requires at < |Run(cfg, INITIAL, actions).wire| && Run(cfg, INITIAL, actions).wire[at].Coach?
    ensures exists i, j, k ::
      Earned(cfg, actions, i, j, k, Run(cfg, INITIAL, actions).wire[at].checkpoint)
  {
    RunIsTraced(cfg, actions);
    ReachableInv(cfg, actions);
    hide Run;
    hide Earned;
    var s := Run(cfg, INITIAL, actions);
    var m :| 0 <= m < |s.wire| && s.wire[m] == Coach(s.checkpoint.value);
    assert m == at;
  }

  // ---------------------------------------------------------------- the strict buffer

  /** In strict mode what has gone out is a beginning of what is held, chunk by chunk while nothing fails. */
  ghost predicate HandsOutHeld(s: State) {
    && s.handed <= |s.held|
    && (if s.stopped then AudioOn(s.wire) <= Flatten(s.held) else AudioOn(s.wire) == Flatten(s.held[..s.handed]))
    && (!s.closed ==> s.handed == 0 && !s.stopped)
  }

  lemma FlattenPrefix(chunks: seq<Bytes>, more: seq<Bytes>)
    ensures Flatten(chunks) <= Flatten(chunks + more)
  {
    FlattenConcat(chunks, more);
  }

  lemma StrictStep(cfg: Config, s: State, a: Action)
    requires cfg.strict && HandsOutHeld(s)
    ensures HandsOutHeld(Step(cfg, s, a))
  {
    hide *;
    StepWrites(cfg, s, a);
    WrittenIsHeard(cfg, s, a);
    AudioJoined(s.wire, WrittenBy(cfg, s, a));
    if a.HandOut? {
      HandOutIs(cfg, s, a.taken);
      HandOutTouches(s, a.taken);
      HandOutFlags(s, a.taken);
      GoesOn(s, Step(cfg, s, a), a.taken);
    } else {
      StrictFlags(cfg, s, a);
      StaysQuiet(cfg, s, a);
      HoldsMore(s, Step(cfg, s, a), if a.Deliver? then a.audio else []);
    }
  }

  lemma HandOutIs(cfg: Config, s: State, taken: nat)
    ensures Step(cfg, s, HandOut(taken)) == HandedOut(s, taken)
    ensures HeardBy(cfg, s, HandOut(taken)) ==
      if s.closed && !s.stopped && s.handed < |s.held| && Admitted(s, s.held[s.handed])
      then Upto(s.held[s.handed], taken) else []
  {
  }

  lemma StaysQuiet(cfg: Config, s: State, a: Action)
    requires cfg.strict && !a.HandOut?
    ensures HeardBy(cfg, s, a) == []
  {
  }

  /** Holding more back changes nothing about what has gone out. */
  lemma HoldsMore(s: State, t: State, audio: Bytes)
    requires HandsOutHeld(s) && AudioOn(t.wire) == AudioOn(s.wire) + [] && (s.closed ==> t.closed)
    requires t.held == s.held || t.held == s.held + [audio]
    requires t.handed == s.handed && t.stopped == s.stopped
    ensures HandsOutHeld(t)
  {
    FlattenPrefix(s.held, [audio]);
    hide Flatten;
    hide AudioOn;
    assert (s.held + [audio])[..s.handed] == s.held[..s.handed];
  }

  lemma GoesOn(s: State, t: State, taken: nat)
    requires HandsOutHeld(s) && t.held == s.held && t.closed == s.closed
    requires var next := s.closed && !s.stopped && s.handed < |s.held|;
      && AudioOn(t.wire) == AudioOn(s.wire)
           + (if next && Admitted(s, s.held[s.handed]) then Upto(s.held[s.handed], taken) else [])
      && if next then
           if Admitted(s, s.held[s.handed]) && taken >= FrameCount(|s.held[s.handed]|)
           then t.handed == s.handed + 1 && !t.stopped
           else t.handed == s.handed && t.stopped
         else t.handed == s.handed && t.stopped == s.stopped
    ensures HandsOutHeld(t)
  {
    hide Flatten;
    hide AudioOn;
    hide Admitted;
    hide FrameCount;
    hide Upto;
    if s.closed && !s.stopped && s.handed < |s.held| { NextHanded(s.held, s.handed, taken); }
  }

  lemma StrictFlags(cfg: Config, s: State, a: Action)
    requires cfg.strict && !a.HandOut?
    ensures var t := Step(cfg, s, a);
      && (t.held == s.held || (a.Deliver? && !s.closed && t.held == s.held + [a.audio]))
      && (s.closed ==> t.closed) && t.handed == s.handed && t.stopped == s.stopped
  {
    hide Step;
    if a.Deliver? {
      DeliverFlags(cfg, s, a.audio, a.taken);
    } else {
      OtherFlags(cfg, s, a);
    }
  }

  lemma DeliverFlags(cfg: Config, s: State, audio: Bytes, taken: nat)
    requires cfg.strict
    ensures var t := Step(cfg, s, Deliver(audio, taken));
      && (t.held == s.held || (!s.closed && t.held == s.held + [audio]))
      && t.closed == s.closed && t.handed == s.handed && t.stopped == s.stopped
  {
    HoldTouches(s, audio);
    HoldAppends(s, audio);
    hide Write;
    hide Hold;
  }

  ghost predicate SameBuffer(s: State, t: State) {
    t.held == s.held && (s.closed ==> t.closed) && t.handed == s.handed && t.stopped == s.stopped
  }

  lemma OtherFlags(cfg: Config, s: State, a: Action)
    requires cfg.strict && !a.HandOut? && !a.Deliver?
    ensures SameBuffer(s, Step(cfg, s, a))
  {
    hide Step;
    match a
    case Begin(c) => BeginFlags(cfg, s, c);
    case Inspect(valid) => InspectFlags(cfg, s, valid);
    case Publish(written) => PublishFlags(cfg, s, written);
    case Commit(inputFinished, written) => CommitFlags(cfg, s, inputFinished, written);
    case RejectSelf => RejectFlags(cfg, s);
    case Release => ReleaseFlags(cfg, s);
    case _ =>
  }

  lemma BeginFlags(cfg: Config, s: State, c: Checkpoint)
    ensures SameBuffer(s, Step(cfg, s, Begin(c)))
  {
  }

  lemma InspectFlags(cfg: Config, s: State, valid: bool)
    ensures SameBuffer(s, Step(cfg, s, Inspect(valid)))
  {
  }

  lemma PublishFlags(cfg: Config, s: State, written: bool)
    ensures SameBuffer(s, Step(cfg, s, Publish(written)))
  {
  }

  lemma CommitFlags(cfg: Config, s: State, inputFinished: bool, written: bool)
    ensures SameBuffer(s, Step(cfg, s, Commit(inputFinished, written)))
  {
  }

  lemma RejectFlags(cfg: Config, s: State)
    ensures SameBuffer(s, Step(cfg, s, RejectSelf))
  {
  }

  lemma ReleaseFlags(cfg: Config, s: State)
    ensures SameBuffer(s, Step(cfg, s, Release))
  {
  }

  lemma HoldAppends(s: State, audio: Bytes)
    ensures Hold(s, audio).held == s.held || (!s.closed && Hold(s, audio).held == s.held + [audio])
  {
  }

  lemma HandOutFlags(s: State, taken: nat)
    ensures var t := HandedOut(s, taken);
      if s.closed && !s.stopped && s.handed < |s.held| then
        if Admitted(s, s.held[s.handed]) && taken >= FrameCount(|s.held[s.handed]|)
        then t.handed == s.handed + 1 && !t.stopped
        else t.handed == s.handed && t.stopped
      else t.handed == s.handed && t.stopped == s.stopped
  {
    if s.handed < |s.held| {
      FrameShape(s.held[s.handed]);
      WriteTouches(s, s.held[s.handed], taken);
    }
    hide Write;
    hide Admitted;
    hide Frames;
    hide FrameCount;
  }

  /** Taking part of the next chunk goes on in the held audio, and taking all of it reaches its end. */
  lemma NextHanded(held: seq<Bytes>, handed: nat, taken: nat)
    requires handed < |held|
    ensures Flatten(held[..handed]) + Upto(held[handed], taken) <= Flatten(held)
    ensures Flatten(held[..handed]) <= Flatten(held)
    ensures taken >= FrameCount(|held[handed]|) ==>
      Flatten(held[..handed]) + Upto(held[handed], taken) == Flatten(held[..handed + 1])
  {
    var front, chunk := held[..handed], held[handed];
    assert held[..handed + 1] == front + [chunk];
    FlattenSnoc(front, chunk);
    assert held == held[..handed + 1] + held[handed + 1..];
    FlattenPrefix(held[..handed + 1], held[handed + 1..]);
    assert Upto(chunk, taken) <= chunk;
    if taken >= FrameCount(|chunk|) { AllSlices(chunk, taken); }
    hide Flatten;
    assert Flatten(front) + Upto(chunk, taken) <= Flatten(front) + chunk;
  }

  /** In strict mode, over any run, the client hears a beginning of what was held back for it. */
  lemma {:induction false} StrictWireIsPrefix(cfg: Config, actions: seq<Action>)
    requires cfg.strict
    ensures var s := Run(cfg, INITIAL, actions);
      && AudioOn(s.wire) <= Flatten(s.held) && s.handed <= |s.held|
      && (!s.stopped ==> AudioOn(s.wire) == Flatten(s.held[..s.handed]))
    ensures HandsOutHeld(Run(cfg, INITIAL, actions))
    decreases |actions|
  {
    hide Step;
    hide Inv;
    if actions != [] {
      var n := |actions| - 1;
      StrictWireIsPrefix(cfg, actions[..n]);
      RunLast(cfg, INITIAL, actions);
      var s := Run(cfg, INITIAL, actions[..n]);
      hide Run;
      StrictStep(cfg, s, actions[n]);
    }
    var s := Run(cfg, INITIAL, actions);
    assert s.held == s.held[..s.handed] + s.held[s.handed..];
    FlattenPrefix(s.held[..s.handed], s.held[s.handed..]);
  }

  /** The chunks that a delivery leaves with the strict buffer. */
  function KeptBy(cfg: Config, s: State, a: Action): seq<Bytes> {
    if cfg.strict && a.Deliver? && GateOpen(s) && Holds(s, a.audio) then [a.audio] else []
  }

  ghost function Kept(cfg: Config, actions: seq<Action>): seq<Bytes> {
    if actions == [] then []
    else
      var n := |actions| - 1;
      Kept(cfg, actions[..n]) + KeptBy(cfg, Run(cfg, INITIAL, actions[..n]), actions[n])
  }

  /** What is held is what the deliveries left, in order. */
  lemma {:induction false} HeldIsKept(cfg: Config, actions: seq<Action>)
    ensures Run(cfg, INITIAL, actions).held == Kept(cfg, actions)
    decreases |actions|
  {
    if actions != [] {
      hide Step;
      hide KeptBy;
      var n := |actions| - 1;
      HeldIsKept(cfg, actions[..n]);
      RunLast(cfg, INITIAL, actions);
      StepKeeps(cfg, Run(cfg, INITIAL, actions[..n]), actions[n]);
    }
  }

  lemma StepKeeps(cfg: Config, s: State, a: Action)
    ensures Step(cfg, s, a).held == s.held + KeptBy(cfg, s, a)
  {
    if a.Deliver? {
      WriteTouches(s, a.audio, a.taken);
      HoldTouches(s, a.audio);
    }
    if a.HandOut? { HandOutTouches(s, a.taken); }
    hide Write;
    hide Holds;
    hide HandedOut;
  }

  // ---------------------------------------------------------------- turns in which nothing goes wrong

  ghost predicate WellShaped(chunks: seq<Bytes>) {
    forall i :: 0 <= i < |chunks| ==> 0 < |chunks[i]| <= MAX_CHUNK_BYTES && |chunks[i]| % 2 == 0
  }

  function TotalFrames(chunks: seq<Bytes>): nat {
    if chunks == [] then 0 else FrameCount(|chunks[0]|) + TotalFrames(chunks[1..])
  }

  /** Every chunk delivered, with a socket that takes all of its frames. */
  function Speech(chunks: seq<Bytes>): seq<Action> {
    if chunks == [] then [] else [Deliver(chunks[0], FrameCount(|chunks[0]|))] + Speech(chunks[1..])
  }

  function AllFrames(chunks: seq<Bytes>): seq<Frame> {
    if chunks == [] then [] else Slices(chunks[0], FrameCount(|chunks[0]|)) + AllFrames(chunks[1..])
  }

  lemma {:induction false} AllFramesCarry(chunks: seq<Bytes>)
    ensures AudioOn(AllFrames(chunks)) == Flatten(chunks)
    decreases |chunks|
  {
    if chunks != [] {
      hide Slices;
      var count := FrameCount(|chunks[0]|);
      AllFramesCarry(chunks[1..]);
      AudioJoined(Slices(chunks[0], count), AllFrames(chunks[1..]));
      SlicesCarry(chunks[0], count);
      AllSlices(chunks[0], count);
    }
  }

  /** The writer and its budget, for a chunk that fits and a socket that takes everything. */
  lemma WholeChunk(s: State, audio: Bytes)
    requires Admitted(s, audio)
    ensures var t := Write(s, audio, FrameCount(|audio|));
      && t == s.(wire := s.wire + Slices(audio, FrameCount(|audio|)),
                 frames := s.frames + FrameCount(|audio|), bytes := s.bytes + |audio|)
      && Taken(audio, FrameCount(|audio|)) == |Frames(audio)|
  {
    FrameShape(audio);
    FramesLoseNothing(audio);
    SentIsSlices(audio, FrameCount(|audio|));
    hide Frames;
    hide Flatten;
    hide FrameCount;
    hide Sent;
    hide Slices;
    assert Frames(audio)[..|Frames(audio)|] == Frames(audio);
  }

  /** What the writer has left, and whether it is open. */
  ghost predicate Ready(s: State, chunks: seq<Bytes>) {
    && s.committed && GateOpen(s) && WellShaped(chunks)
    && s.frames + TotalFrames(chunks) <= MAX_FRAMES && s.bytes + |Flatten(chunks)| <= MAX_AUDIO_BYTES
  }

  lemma FirstFits(s: State, chunks: seq<Bytes>)
    requires Ready(s, chunks) && chunks != []
    ensures Admitted(s, chunks[0])
    ensures var t := Write(s, chunks[0], FrameCount(|chunks[0]|)); Ready(t, chunks[1..])
  {
    hide FrameCount;
    assert Admitted(s, chunks[0]);
    WholeChunk(s, chunks[0]);
    hide Write;
  }

  lemma {:induction false} SpeechIsHeard(cfg: Config, s: State, chunks: seq<Bytes>)
    requires !cfg.strict && Ready(s, chunks)
    ensures var t := Run(cfg, s, Speech(chunks));
      t.wire == s.wire + AllFrames(chunks) && GateOpen(t)
    decreases |chunks|
  {
    if chunks != [] {
      var a := Deliver(chunks[0], FrameCount(|chunks[0]|));
      FirstFits(s, chunks);
      WholeChunk(s, chunks[0]);
      hide Write;
      hide Ready;
      hide Slices;
      hide FrameCount;
      var m := Step(cfg, s, a);
      hide Step;
      SpeechIsHeard(cfg, m, chunks[1..]);
      assert Speech(chunks)[1..] == Speech(chunks[1..]);
      Assemble(s.wire, Slices(chunks[0], FrameCount(|chunks[0]|)), AllFrames(chunks[1..]));
    }
  }

  /** The commit, and then the checkpoint if there is one. */
  function Opening(c: Option<Checkpoint>): seq<Action> {
    [Commit(true, true)] + if c.Some? then [Begin(c.value), Inspect(true), Publish(true)] else []
  }

  function Announced(cfg: Config, c: Option<Checkpoint>): seq<Frame> {
    (if cfg.ackRequested then [Ack] else []) + if c.Some? then [Coach(c.value)] else []
  }

  lemma OpeningIs(cfg: Config, c: Option<Checkpoint>)
    requires cfg.strict ==> c.None?
    ensures var s := Run(cfg, INITIAL, Opening(c));
      && s.wire == Announced(cfg, c) && s.committed && s.handler.Committed? && GateOpen(s)
      && s.frames == 0 && s.bytes == 0 && s.held == [] && s.heldBytes == 0 && !s.closed && s.handed == 0 && !s.stopped
  {
    var s1 := Step(cfg, INITIAL, Commit(true, true));
    if c.Some? {
      var a := [Begin(c.value), Inspect(true), Publish(true)];
      assert Opening(c)[1..] == a && a[1..] == [Inspect(true), Publish(true)] && a[1..][1..] == [Publish(true)];
      assert [Publish(true)][1..] == [];
      var s2 := Step(cfg, s1, Begin(c.value));
      var s3 := Step(cfg, s2, Inspect(true));
      assert Run(cfg, INITIAL, Opening(c)) == Run(cfg, s1, a) == Run(cfg, s2, a[1..]) == Run(cfg, s3, [Publish(true)])
          == Step(cfg, s3, Publish(true));
    } else {
      RunOne(cfg, INITIAL, Commit(true, true));
      assert Opening(c) == [Commit(true, true)];
    }
  }

  /**
   A turn in which nothing fails: the client receives the acknowledgement if it asked for one, the
   checkpoint if there is one, and then every chunk, frame by frame.
   */
  lemma {:induction false} CompleteTurn(cfg: Config, c: Option<Checkpoint>, chunks: seq<Bytes>)
    requires !cfg.strict && WellShaped(chunks)
    requires TotalFrames(chunks) <= MAX_FRAMES && |Flatten(chunks)| <= MAX_AUDIO_BYTES
    ensures var t := Run(cfg, INITIAL, Opening(c) + Speech(chunks));
      && t.wire == Announced(cfg, c) + AllFrames(chunks) && AudioOn(t.wire) == Flatten(chunks) && !t.rejected
  {
    hide WellShaped;
    hide TotalFrames;
    hide Flatten;
    hide Run;
    hide Opening;
    hide AllFrames;
    hide Speech;
    OpeningIs(cfg, c);
    var s := Run(cfg, INITIAL, Opening(c));
    RunConcat(cfg, INITIAL, Opening(c), Speech(chunks));
    SpeechIsHeard(cfg, s, chunks);
    AnnouncedIsSilent(cfg, c);
    AudioJoined(Announced(cfg, c), AllFrames(chunks));
    AllFramesCarry(chunks);
  }

  lemma AnnouncedIsSilent(cfg: Config, c: Option<Checkpoint>)
    ensures AudioOn(Announced(cfg, c)) == []
  {
    var acked, coached := if cfg.ackRequested then [Ack] else [], if c.Some? then [Coach(c.value)] else [];
    OneIsSilent(acked);
    OneIsSilent(coached);
    AudioJoined(acked, coached);
  }

  lemma OneIsSilent(wire: seq<Frame>)
    requires |wire| <= 1 && NoPcm(wire)
    ensures AudioOn(wire) == []
  {
    if wire != [] { assert wire[..0] == []; }
  }

  // ---------------------------------------------------------------- the strict turn

  /** One hand-out for every chunk. */
  function HandOuts(chunks: seq<Bytes>): seq<Action> {
    if chunks == [] then [] else [HandOut(FrameCount(|chunks[0]|))] + HandOuts(chunks[1..])
  }

  /** What the strict buffer has left. */
  ghost predicate Roomy(s: State, chunks: seq<Bytes>) {
    && s.committed && GateOpen(s) && !s.closed && WellShaped(chunks)
    && |s.held| + |chunks| <= StrictAudio.MAX_CHUNKS && s.heldBytes + |Flatten(chunks)| <= MAX_AUDIO_BYTES
  }

  function Holding(s: State, chunks: seq<Bytes>): State {
    s.(held := s.held + chunks, heldBytes := s.heldBytes + |Flatten(chunks)|)
  }

  lemma {:induction false} SpeechIsHeld(cfg: Config, s: State, chunks: seq<Bytes>)
    requires cfg.strict && Roomy(s, chunks)
    ensures Run(cfg, s, Speech(chunks)) == Holding(s, chunks)
    decreases |chunks|
  {
    hide *;
    if chunks == [] {
      NothingToHold(cfg, s);
    } else {
      var a := Deliver(chunks[0], FrameCount(|chunks[0]|));
      RoomForFirst(s, chunks);
      OneHeld(cfg, s, chunks[0], FrameCount(|chunks[0]|));
      SpeechIsHeld(cfg, Step(cfg, s, a), chunks[1..]);
      SpeechFirst(cfg, s, chunks);
      HoldingMore(s, chunks);
    }
  }

  lemma NothingToHold(cfg: Config, s: State)
    ensures Run(cfg, s, Speech([])) == Holding(s, [])
  {
    assert s.held + [] == s.held;
  }

  lemma SpeechFirst(cfg: Config, s: State, chunks: seq<Bytes>)
    requires chunks != []
    ensures Run(cfg, s, Speech(chunks))
         == Run(cfg, Step(cfg, s, Deliver(chunks[0], FrameCount(|chunks[0]|))), Speech(chunks[1..]))
  {
    hide Step;
    hide FrameCount;
    assert Speech(chunks)[1..] == Speech(chunks[1..]);
  }

  lemma RoomForFirst(s: State, chunks: seq<Bytes>)
    requires Roomy(s, chunks) && chunks != []
    ensures GateOpen(s) && Holds(s, chunks[0])
    ensures Roomy(s.(held := s.held + [chunks[0]], heldBytes := s.heldBytes + |chunks[0]|), chunks[1..])
  {
  }

  lemma HoldingMore(s: State, chunks: seq<Bytes>)
    requires chunks != []
    ensures Holding(s.(held := s.held + [chunks[0]], heldBytes := s.heldBytes + |chunks[0]|), chunks[1..])
         == Holding(s, chunks)
  {
    assert s.held + [chunks[0]] + chunks[1..] == s.held + chunks;
  }

  lemma OneHeld(cfg: Config, s: State, audio: Bytes, taken: nat)
    requires cfg.strict && GateOpen(s) && Holds(s, audio)
    ensures Step(cfg, s, Deliver(audio, taken)) == s.(held := s.held + [audio], heldBytes := s.heldBytes + |audio|)
  {
    hide Holds;
  }

  lemma {:induction false} HandOutsAreHeard(cfg: Config, s: State)
    requires s.closed && !s.stopped && s.handed <= |s.held| && Ready(s, s.held[s.handed..])
    ensures var t := Run(cfg, s, HandOuts(s.held[s.handed..]));
      t.wire == s.wire + AllFrames(s.held[s.handed..]) && GateOpen(t)
    decreases |s.held| - s.handed
  {
    var rest := s.held[s.handed..];
    if rest != [] {
      var count := FrameCount(|rest[0]|);
      FirstFits(s, rest);
      WholeChunk(s, rest[0]);
      hide Write;
      hide Slices;
      hide FrameCount;
      hide Admitted;
      var m := Step(cfg, s, HandOut(count));
      assert m == Write(s, rest[0], count).(handed := s.handed + 1);
      assert m.held[m.handed..] == rest[1..];
      ReadyAgain(Write(s, rest[0], count), m, rest[1..]);
      hide Ready;
      hide Step;
      HandOutsAreHeard(cfg, m);
      assert HandOuts(rest)[1..] == HandOuts(rest[1..]);
      Assemble(s.wire, Slices(rest[0], count), AllFrames(rest[1..]));
    }
  }

  lemma ReadyAgain(s: State, t: State, chunks: seq<Bytes>)
    requires Ready(s, chunks) && t == s.(handed := t.handed)
    ensures Ready(t, chunks)
  {
  }

  /** The same in strict mode: nothing is heard before the release, and afterwards everything. */
  lemma {:induction false} CompleteStrictTurn(cfg: Config, chunks: seq<Bytes>)
    requires cfg.strict && WellShaped(chunks) && |chunks| <= StrictAudio.MAX_CHUNKS
    requires TotalFrames(chunks) <= MAX_FRAMES && |Flatten(chunks)| <= MAX_AUDIO_BYTES
    ensures Run(cfg, INITIAL, Opening(None) + Speech(chunks)).wire == Announced(cfg, None)
    ensures var t := Run(cfg, INITIAL, Opening(None) + Speech(chunks) + [Release] + HandOuts(chunks));
      && t.wire == Announced(cfg, None) + AllFrames(chunks) && AudioOn(t.wire) == Flatten(chunks) && !t.rejected
  {
    hide WellShaped;
    hide TotalFrames;
    hide Flatten;
    hide Run;
    hide Opening;
    hide AllFrames;
    hide Speech;
    hide HandOuts;
    OpeningIs(cfg, None);
    var s := Run(cfg, INITIAL, Opening(None));
    RunConcat(cfg, INITIAL, Opening(None), Speech(chunks));
    assert Roomy(s, chunks);
    SpeechIsHeld(cfg, s, chunks);
    var m := Run(cfg, INITIAL, Opening(None) + Speech(chunks));
    assert [] + chunks == chunks;
    RunConcat(cfg, INITIAL, Opening(None) + Speech(chunks), [Release]);
    RunOne(cfg, m, Release);
    var u := Step(cfg, m, Release);
    assert u.held[0..] == chunks;
    hide Step;
    RunConcat(cfg, INITIAL, Opening(None) + Speech(chunks) + [Release], HandOuts(chunks));
    HandOutsAreHeard(cfg, u);
    AnnouncedIsSilent(cfg, None);
    AudioJoined(Announced(cfg, None), AllFrames(chunks));
    AllFramesCarry(chunks);
  }
}
