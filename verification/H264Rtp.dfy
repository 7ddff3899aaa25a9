/** The class cH264RTP: it gathers fragments in mFUBuffer and pushes NAL units to the output queue. */
module H264Rtp {
  import opened Common
  import opened DropOldest
  import opened CQueue
  import opened H264Spec

  /** What pushing these frames, one after the other, adds to a queue's history. */
  function PushEvents(frames: seq<Bytes>, mframeLen: nat): seq<Event<Frame>> {
    if frames == [] then [] else [Pushed(Stored(frames[0], mframeLen))] + PushEvents(frames[1..], mframeLen)
  }

  lemma {:induction false} PushEventsConcat(a: seq<Bytes>, b: seq<Bytes>, mframeLen: nat)
    ensures PushEvents(a + b, mframeLen) == PushEvents(a, mframeLen) + PushEvents(b, mframeLen)
  {
    if a == [] {
      assert a + b == b;
    } else {
      assert (a + b)[1..] == a[1..] + b;
      PushEventsConcat(a[1..], b, mframeLen);
    }
  }

  /** Frames that fit a slot are pushed whole. */
  lemma {:induction false} PushedWhole(frames: seq<Bytes>, mframeLen: nat)
    requires forall f | f in frames :: |f| <= mframeLen
    ensures PushEvents(frames, mframeLen) == AllPushed(frames)
  {
    if frames != [] {
      var fewer, f := frames[..|frames| - 1], frames[|frames| - 1];
      assert frames == fewer + [f] && f in frames && forall x | x in fewer :: x in frames;
      PushedWhole(fewer, mframeLen);
      PushEventsConcat(fewer, [f], mframeLen);
      assert Stored(f, mframeLen) == f && [f][1..] == [];
    }
  }

  class H264Rtp {
    const pQueH264: CQueue
    const mFUBuffer: array<Byte>
    const mFUBufferLen: nat
    var mFUBufferOffset: nat

    /** Nobody has borrowed an output slot, so a push never waits. */
    ghost predicate Valid()
      reads this, pQueH264, pQueH264.que
    {
      && mFUBuffer.Length == mFUBufferLen && mFUBufferOffset <= mFUBufferLen
      && mFUBuffer as object != pQueH264.que
      && pQueH264.Valid()
      && forall i | 0 <= i < pQueH264.maxFrames :: !pQueH264.que[i].mlock
    }

    ghost function Gathered(): Bytes
      requires mFUBufferOffset <= mFUBuffer.Length
      reads this, mFUBuffer
    {
      mFUBuffer[..mFUBufferOffset]
    }

    constructor (queH264: CQueue, bufferLen: nat)
      requires queH264.Valid() && forall i | 0 <= i < queH264.maxFrames :: !queH264.que[i].mlock
      ensures Valid() && fresh(mFUBuffer) && pQueH264 == queH264 && mFUBufferLen == bufferLen
      ensures Gathered() == []
    {
      pQueH264, mFUBufferLen, mFUBufferOffset := queH264, bufferLen, 0;
      mFUBuffer := new Byte[bufferLen];
    }

    /** memcpy to mFUBuffer + mFUBufferOffset, and the offset moves on. */
    method Gather(src: Bytes)
      requires mFUBufferOffset + |src| <= mFUBuffer.Length
      modifies this`mFUBufferOffset, mFUBuffer
      ensures mFUBufferOffset == old(mFUBufferOffset) + |src|
      ensures Gathered() == old(Gathered()) + src
    {
      forall j | 0 <= j < |src| {
        mFUBuffer[mFUBufferOffset + j] := src[j];
      }
      mFUBufferOffset := mFUBufferOffset + |src|;
    }

    /** Pushes what is gathered and empties the buffer. */
    method Flush()
      requires Valid()
      modifies this`mFUBufferOffset, pQueH264, pQueH264.que
      ensures Valid() && Gathered() == []
      ensures pQueH264.history == old(pQueH264.history) + PushEvents([old(Gathered())], pQueH264.mframeLen)
    {
      var _ := pQueH264.Push(mFUBuffer[..mFUBufferOffset]);
      mFUBufferOffset := 0;
    }

    method ParseFuA(loadData: Bytes)
      requires Valid() && LongEnough(loadData) && GetNalType(loadData[0]).FuA?
               && Fits(mFUBufferLen, Gathered(), loadData)
      modifies this`mFUBufferOffset, mFUBuffer, pQueH264, pQueH264.que
      ensures Valid()
      ensures var (gathered, pushed) := Feed(mFUBufferLen, old(Gathered()), loadData);
              && Gathered() == gathered
              && pQueH264.history == old(pQueH264.history) + PushEvents(pushed, pQueH264.mframeLen)
    {
      var fuIndicator, fuHeader := loadData[0], loadData[1];
      var nal := RebuiltHeader(fuIndicator, fuHeader);
      var h264Data := loadData[2..];
      if fuHeader & 0x80 != 0 {
        if mFUBufferOffset != 0 {
          Flush();
        }
        Gather([nal]);
        Gather(h264Data);
      } else if fuHeader & 0x40 != 0 {
        Gather(h264Data);
        Flush();
      } else if mFUBufferOffset + |h264Data| > mFUBufferLen {
        var copylen := mFUBufferLen - mFUBufferOffset;
        Gather(h264Data[..copylen]);
        Flush();
      } else {
        Gather(h264Data);
      }
    }

    /** One RTP payload of dataLen bytes; the memory behind pData may go on, and dataLen may be negative. */
    method ParsePayload(pData: Bytes, dataLen: int)
      requires Valid() && pData != [] && dataLen <= |pData| && Defined(mFUBufferLen, Gathered(), pData, dataLen)
      modifies this`mFUBufferOffset, mFUBuffer, pQueH264, pQueH264.que
      ensures Valid()
      ensures var (gathered, pushed) := FeedMemory(mFUBufferLen, old(Gathered()), pData, dataLen);
              && Gathered() == gathered
              && pQueH264.history == old(pQueH264.history) + PushEvents(pushed, pQueH264.mframeLen)
    {
      match GetNalType(pData[0]) {
        case Single => var _ := pQueH264.Push(pData[..dataLen]);
        case FuA => ParseFuA(pData[..dataLen]);
        case _ =>
      }
    }
  }
}
