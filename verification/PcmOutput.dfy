/**
 Synthesized output audio: the 20 ms framer, the frame and byte budget, and the detection of the
 first meaningful sample.
 */
module PcmOutput {
  import opened Common
  import opened ByteEncoding

  const FRAME_BYTES := 960
  const MAX_FRAMES := 3_000
  const MAX_CHUNK_BYTES := 0x10_0000
  const MAX_AUDIO_BYTES := 0x100_0000
  const MEANINGFUL_MAGNITUDE := 33

  // ---------------------------------------------------------------- meaningful samples

  /** A signed little-endian 16-bit sample. */
  function SampleOf(lo: Byte, hi: Byte): int {
    var u: int := lo as int + 0x100 * hi as int;
    if u >= 0x8000 then u - 0x1_0000 else u
  }

  function Magnitude(x: int): nat { if x < 0 then -x else x }

  predicate LoudAt(pcm: Bytes, k: nat) {
    2 * k + 1 < |pcm| && Magnitude(SampleOf(pcm[2 * k], pcm[2 * k + 1])) >= MEANINGFUL_MAGNITUDE
  }

  /** Some sample, at its even offset, reaches the magnitude floor. */
  ghost predicate Meaningful(pcm: Bytes) {
    exists k: nat :: LoudAt(pcm, k)
  }

  method HasMeaningfulSample(pcm: Bytes) returns (found: bool)
    ensures found <==> Meaningful(pcm)
  {
    var offset := 0;
    while offset + 1 < |pcm|
      invariant offset % 2 == 0
      invariant forall k: nat :: 2 * k < offset ==> !LoudAt(pcm, k)
      decreases |pcm| - offset
    {
      var sample := SampleOf(pcm[offset], pcm[offset + 1]);
      if sample < 0 {
        sample := -sample;
      }
      assert sample >= MEANINGFUL_MAGNITUDE <==> LoudAt(pcm, offset / 2);
      if sample >= MEANINGFUL_MAGNITUDE {
        return true;
      }
      offset := offset + 2;
    }
    found := false;
  }

  /** Cutting audio at a sample boundary neither hides nor invents a meaningful sample. */
  lemma MeaningfulConcat(a: Bytes, b: Bytes)
    requires |a| % 2 == 0
    ensures Meaningful(a + b) <==> Meaningful(a) || Meaningful(b)
  {
    var h := |a| / 2;
    forall k: nat ensures LoudAt(a + b, k) <==> (if k < h then LoudAt(a, k) else LoudAt(b, k - h)) {
      if k < h {
        assert 2 * k + 1 < |a|;
      } else {
        assert 2 * (k - h) == 2 * k - |a|;
      }
    }
    if Meaningful(a) {
      var k: nat :| LoudAt(a, k);
      assert LoudAt(a + b, k);
    }
    if Meaningful(b) {
      var k: nat :| LoudAt(b, k);
      assert LoudAt(a + b, k + h);
    }
  }

  // ---------------------------------------------------------------- framing

  /** The audio cut into full frames, with what is left as a last shorter frame. */
  function Frames(audio: Bytes): seq<Bytes>
    decreases |audio|
  {
    if |audio| == 0 then []
    else if |audio| <= FRAME_BYTES then [audio]
    else [audio[..FRAME_BYTES]] + Frames(audio[FRAME_BYTES..])
  }

  function Flatten(frames: seq<Bytes>): Bytes {
    if frames == [] then [] else frames[0] + Flatten(frames[1..])
  }

  lemma {:induction false} FlattenConcat(a: seq<Bytes>, b: seq<Bytes>)
    ensures Flatten(a + b) == Flatten(a) + Flatten(b)
    decreases |a|
  {
    if a == [] {
      assert a + b == b;
    } else {
      assert (a + b)[1..] == a[1..] + b;
      FlattenConcat(a[1..], b);
    }
  }

  lemma FlattenSnoc(a: seq<Bytes>, frame: Bytes)
    ensures Flatten(a + [frame]) == Flatten(a) + frame
  {
    FlattenConcat(a, [frame]);
    assert Flatten([frame]) == frame + Flatten([]) == frame;
  }

  /** Framing loses, repeats and reorders nothing. */
  lemma {:induction false} FramesLoseNothing(audio: Bytes)
    ensures Flatten(Frames(audio)) == audio
    decreases |audio|
  {
    if |audio| == 0 {
    } else if |audio| <= FRAME_BYTES {
      assert Flatten([audio]) == audio + Flatten([]);
    } else {
      FramesLoseNothing(audio[FRAME_BYTES..]);
      var rest := Frames(audio[FRAME_BYTES..]);
      assert Frames(audio)[1..] == rest;
    }
  }

  function FrameCount(length: nat): nat {
    (length + FRAME_BYTES - 1) / FRAME_BYTES
  }

  /** Exactly the rounded-up number of frames, all full but the last, all sample aligned. */
  lemma {:induction false} FrameShape(audio: Bytes)
    ensures |Frames(audio)| == FrameCount(|audio|)
    ensures forall i :: 0 <= i < |Frames(audio)| - 1 ==> |Frames(audio)[i]| == FRAME_BYTES
    ensures forall i :: 0 <= i < |Frames(audio)| ==> 0 < |Frames(audio)[i]| <= FRAME_BYTES
    ensures |audio| % 2 == 0 ==> forall i :: 0 <= i < |Frames(audio)| ==> |Frames(audio)[i]| % 2 == 0
    decreases |audio|
  {
    if |audio| > FRAME_BYTES {
      FrameShape(audio[FRAME_BYTES..]);
      var rest := Frames(audio[FRAME_BYTES..]);
      assert forall i :: 1 <= i < |Frames(audio)| ==> Frames(audio)[i] == rest[i - 1];
    }
  }

  // ---------------------------------------------------------------- the output budget

  class OutputMetrics {
    var committed: bool
    var firstOutputAt: Option<int>
    var frames: nat
    var bytes: nat
    ghost var sent: seq<Bytes>

    ghost predicate Valid()
      reads this
    {
      && frames == |sent| <= MAX_FRAMES
      && bytes == |Flatten(sent)| <= MAX_AUDIO_BYTES
      && bytes % 2 == 0
      && (firstOutputAt.Some? <==> Meaningful(Flatten(sent)))
      && (sent != [] ==> committed)
    }

    constructor ()
      ensures Valid() && sent == [] && !committed && firstOutputAt == None
    {
      committed, firstOutputAt, frames, bytes, sent := false, None, 0, 0, [];
    }

    method MarkCommitted()
      requires Valid()
      modifies this
      ensures Valid() && committed && sent == old(sent) && firstOutputAt == old(firstOutputAt)
    {
      committed := true;
    }

    /** The bookkeeping after the socket has taken one frame. */
    method Account(frame: Bytes, now: int)
      requires Valid() && committed && |frame| % 2 == 0
      requires frames < MAX_FRAMES && |frame| <= MAX_AUDIO_BYTES - bytes
      modifies this
      ensures Valid() && committed && sent == old(sent) + [frame]
      ensures Flatten(sent) == old(Flatten(sent)) + frame
      ensures frames == old(frames) + 1 && bytes == old(bytes) + |frame|
      ensures old(firstOutputAt).Some? ==> firstOutputAt == old(firstOutputAt)
      ensures old(firstOutputAt).None? && firstOutputAt.Some? ==> firstOutputAt == Some(now)
    {
      hide Flatten;
      hide Meaningful;
      var meaningful := HasMeaningfulSample(frame);
      if meaningful && firstOutputAt.None? {
        firstOutputAt := Some(now);
      }
      frames := frames + 1;
      bytes := bytes + |frame|;
      FlattenSnoc(sent, frame);
      MeaningfulConcat(Flatten(sent), frame);
      sent := sent + [frame];
    }

    /** Whether a chunk is admitted at all. */
    predicate Admits(audio: Bytes)
      reads this
    {
      && committed && |audio| != 0 && |audio| % 2 == 0 && |audio| <= MAX_CHUNK_BYTES
      && FrameCount(|audio|) <= MAX_FRAMES - frames && |audio| <= MAX_AUDIO_BYTES - bytes
    }

    /**
     One chunk.  `live` and `taken` answer, per frame, whether the context is still live and
     whether the socket takes the frame; `clock` is the time read after it did.
     */
    method Deliver(audio: Bytes, live: nat -> bool, taken: nat -> bool, clock: nat -> int)
      returns (ok: bool, ghost n: nat)
      requires Valid()
      modifies this
      ensures Valid() && committed == old(committed)
      ensures n <= |Frames(audio)| && sent == old(sent) + Frames(audio)[..n]
      ensures ok ==> old(Admits(audio)) && n == |Frames(audio)| && Flatten(sent) == old(Flatten(sent)) + audio
      ensures old(Admits(audio)) && !ok ==> n < |Frames(audio)| && !(live(n) && taken(n))
      ensures !old(Admits(audio)) ==> n == 0
      ensures forall i :: 0 <= i < n ==> live(i) && taken(i)
      ensures old(firstOutputAt).Some? ==> firstOutputAt == old(firstOutputAt)
    {
      hide Flatten;
      hide Meaningful;
      hide Frames;
      n := 0;
      if !Admits(audio) {
        return false, 0;
      }
      FrameShape(audio);
      FramesLoseNothing(audio);
      ghost var all := Frames(audio);
      ghost var before := Flatten(sent);
      assert before + audio[..0] == before && audio[0..] == audio && all[0..] == all;
      var offset, index := 0, 0;
      while offset < |audio|
        invariant 0 <= offset <= |audio| && Valid() && committed
        invariant index == n <= |all| && Frames(audio[offset..]) == all[n..]
        invariant sent == old(sent) + all[..n]
        invariant Flatten(sent) == before + audio[..offset]
        invariant frames == old(frames) + n && bytes == old(bytes) + offset
        invariant forall i :: 0 <= i < n ==> live(i) && taken(i)
        invariant old(firstOutputAt).Some? ==> firstOutputAt == old(firstOutputAt)
        decreases |audio| - offset
      {
        var end := if offset + FRAME_BYTES <= |audio| then offset + FRAME_BYTES else |audio|;
        var frame := audio[offset..end];
        FrameStep(audio, offset, end, all[n..]);
        assert all[n] == frame && all[n..][1..] == all[n + 1..];
        if !live(index) || !taken(index) {
          return false, n;
        }
        Account(frame, clock(index));
        assert all[..n + 1] == all[..n] + [frame];
        assert audio[..end] == audio[..offset] + frame;
        offset, index, n := end, index + 1, n + 1;
      }
      EmptyFrames(audio);
      assert all[..n] == all && audio[..offset] == audio;
      ok := true;
    }
  }

  lemma EmptyFrames(audio: Bytes)
    ensures Frames(audio[|audio|..]) == []
  {
  }

  lemma FrameStep(audio: Bytes, offset: nat, end: nat, rest: seq<Bytes>)
    requires offset < |audio| && rest == Frames(audio[offset..])
    requires end == if offset + FRAME_BYTES <= |audio| then offset + FRAME_BYTES else |audio|
    ensures rest != [] && rest[0] == audio[offset..end] && rest[1..] == Frames(audio[end..])
  {
    var tail := audio[offset..];
    if |tail| <= FRAME_BYTES {
      assert audio[offset..end] == tail && audio[end..] == [];
    } else {
      assert tail[..FRAME_BYTES] == audio[offset..end] && tail[FRAME_BYTES..] == audio[end..];
    }
  }
}
