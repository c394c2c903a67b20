/**
 The strict-mode audio buffer: synthesized audio waits behind the result-validation boundary and
 every retained copy is zeroed once it has been released or dropped.

 The ghost histories record, over the whole life of the buffer, the contents of the accepted
 appends, the chunks handed out, and every copy ever made.  `Valid` holds between any two calls,
 in whatever order they come.
 */
module StrictAudio {
  import opened Common
  import opened ByteEncoding
  import opened PcmOutput

  const MAX_CHUNKS := 513

  ghost function TotalBytes(chunks: seq<Bytes>): nat {
    if chunks == [] then 0 else TotalBytes(chunks[..|chunks| - 1]) + |chunks[|chunks| - 1]|
  }

  ghost predicate Zeroed(chunk: array<Byte>)
    reads chunk
  {
    forall k :: 0 <= k < chunk.Length ==> chunk[k] == 0
  }

  method ClearAudioChunks(chunks: seq<array<Byte>>)
    modifies chunks
    ensures forall i :: 0 <= i < |chunks| ==> Zeroed(chunks[i])
  {
    for index := 0 to |chunks|
      invariant forall i :: 0 <= i < index ==> Zeroed(chunks[i])
    {
      var chunk := chunks[index];
      for k := 0 to chunk.Length
        invariant forall j :: 0 <= j < k ==> chunk[j] == 0
        invariant forall i :: 0 <= i < index ==> Zeroed(chunks[i])
      {
        chunk[k] := 0;
      }
    }
  }

  class StrictAudioBuffer {
    var committed: bool
    var closed: bool
    var chunks: seq<array<Byte>>
    var bytes: nat
    ghost var accepted: seq<Bytes>
    ghost var delivered: seq<Bytes>
    ghost var copies: seq<array<Byte>>

    ghost predicate Valid()
      reads this, copies
    {
      && TotalBytes(accepted) <= MAX_AUDIO_BYTES && |accepted| <= MAX_CHUNKS
      && (accepted != [] ==> committed)
      && delivered <= accepted
      && |copies| == |accepted|
      && (closed ==> chunks == [] && bytes == 0 && forall i :: 0 <= i < |copies| ==> Zeroed(copies[i]))
      && (!closed ==>
            && chunks == copies && bytes == TotalBytes(accepted) && delivered == []
            && forall i :: 0 <= i < |copies| ==> copies[i][..] == accepted[i])
    }

    constructor ()
      ensures Valid() && !committed && !closed && accepted == [] && delivered == []
    {
      committed, closed, chunks, bytes := false, false, [], 0;
      accepted, delivered, copies := [], [], [];
    }

    method MarkCommitted()
      requires Valid()
      modifies this
      ensures Valid() && committed == (old(committed) || !closed) && closed == old(closed)
      ensures accepted == old(accepted) && delivered == old(delivered) && copies == old(copies)
    {
      if !closed {
        committed := true;
      }
    }

    /** The guard on one append, in terms of what has been accepted so far. */
    ghost predicate Admits(audio: array<Byte>)
      reads this
    {
      && !closed && committed && audio.Length != 0 && audio.Length % 2 == 0
      && audio.Length <= MAX_CHUNK_BYTES && |accepted| < MAX_CHUNKS
      && TotalBytes(accepted) + audio.Length <= MAX_AUDIO_BYTES
    }

    /** An accepted chunk is a fresh copy, so later writes to `audio` cannot show. */
    method Append(audio: array<Byte>) returns (ok: bool)
      requires Valid()
      modifies this
      ensures Valid() && committed == old(committed) && closed == old(closed) && delivered == old(delivered)
      ensures ok == old(Admits(audio))
      ensures accepted == if ok then old(accepted) + [audio[..]] else old(accepted)
      ensures if ok then |copies| == |old(copies)| + 1 && copies[..|old(copies)|] == old(copies)
                         && fresh(copies[|old(copies)|])
              else copies == old(copies)
    {
      if closed || !committed || audio.Length == 0 || audio.Length % 2 != 0
         || audio.Length > MAX_CHUNK_BYTES || |chunks| >= MAX_CHUNKS
         || audio.Length > MAX_AUDIO_BYTES - bytes
      {
        return false;
      }
      var chunk := new Byte[audio.Length](i requires 0 <= i < audio.Length reads audio => audio[i]);
      assert chunk[..] == audio[..];
      chunks := chunks + [chunk];
      bytes := bytes + chunk.Length;
      assert (accepted + [audio[..]])[..|accepted|] == accepted;
      accepted := accepted + [audio[..]];
      copies := copies + [chunk];
      ok := true;
    }

    method Spoke() returns (r: bool)
      requires Valid()
      ensures r <==> !closed && accepted != []
    {
      r := |chunks| > 0;
    }

    /**
     Hands the chunks out in order until one delivery fails.  The buffer is closed first, so an
     append that races the hand-out is refused.
     */
    method Release(deliver: Option<nat -> bool>) returns (ok: bool)
      requires Valid()
      modifies this, copies
      ensures Valid() && closed && committed == old(committed)
      ensures accepted == old(accepted) && copies == old(copies)
      ensures deliver.None? ==> !ok && delivered == old(delivered)
      ensures deliver.Some? && old(closed) ==> ok && delivered == old(delivered)
      ensures deliver.Some? && !old(closed) ==> (ok <==> delivered == accepted)
      ensures deliver.Some? && !old(closed) ==> forall i :: 0 <= i < |delivered| ==> (deliver.value)(i)
      ensures deliver.Some? && !ok ==> |delivered| < |accepted| && !(deliver.value)(|delivered|)
    {
      hide TotalBytes;
      hide Zeroed;
      if deliver.None? {
        Clear();
        return false;
      }
      var taken := chunks;
      closed := true;
      chunks := [];
      bytes := 0;
      ok := true;
      for index := 0 to |taken|
        modifies this`delivered
        invariant ok && (taken != [] ==> delivered == accepted[..index])
        invariant taken == [] ==> delivered == old(delivered)
        invariant forall j :: 0 <= j < index ==> (deliver.value)(j)
      {
        if !(deliver.value)(index) {
          ok := false;
          break;
        }
        assert taken[index][..] == accepted[index];
        assert accepted[..index + 1] == accepted[..index] + [accepted[index]];
        delivered := delivered + [taken[index][..]];
      }
      assert ok && taken != [] ==> delivered == accepted;
      ClearAudioChunks(taken);
    }

    method Clear()
      requires Valid()
      modifies this, copies
      ensures Valid() && closed && committed == old(committed)
      ensures accepted == old(accepted) && copies == old(copies) && delivered == old(delivered)
    {
      closed := true;
      var taken := chunks;
      chunks := [];
      bytes := 0;
      ClearAudioChunks(taken);
    }
  }
}
