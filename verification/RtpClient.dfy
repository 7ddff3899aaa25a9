/** The class cRTPClient between its two queues: packets in, NAL units out. */
module RtpClient {
  import opened Common
  import opened DropOldest
  import opened CQueue
  import opened H264Spec
  import opened H264Rtp
  import opened RtpSpec

  // The sizes rtp_init and the default argument of the cH264RTP constructor give.
  const NET_FRAMES := 300
  const NET_FRAME_LEN := 1500
  const H264_FRAMES := 50
  const H264_FRAME_LEN := 512 * 1024
  const FU_BUFFER_LEN := 1024 * 512

  ghost predicate NoneBorrowed(q: CQueue)
    reads q, q.que
  {
    q.Valid() && forall i | 0 <= i < q.maxFrames :: !q.que[i].mlock
  }

  /** The n slots from place outx on, in the order in which they are handed out. */
  function Waiting(que: seq<QueueNode>, outx: nat, n: nat): seq<Slot>
    requires outx < |que|
    decreases n
  {
    if n == 0 then []
    else [Slot(que[outx].data, que[outx].datalen)] + Waiting(que, LoopAdd(outx, |que|), n - 1)
  }

  /** Locks do not matter. */
  lemma {:induction false} WaitingWhateverLocked(que: seq<QueueNode>, i: nat, lock: bool, outx: nat, n: nat)
    requires outx < |que| && i < |que|
    ensures Waiting(que[i := que[i].(mlock := lock)], outx, n) == Waiting(que, outx, n)
    decreases n
  {
    if n > 0 {
      WaitingWhateverLocked(que, i, lock, LoopAdd(outx, |que|), n - 1);
    }
  }

  /** The slots that wait carry the contents of the ring. */
  lemma {:induction false} WaitingCarries(que: seq<QueueNode>, frameLen: nat, inx: nat, outx: nat, eff: nat,
                                          contents: seq<Frame>)
    requires Ring(que, frameLen, inx, outx, eff, eff, contents)
    ensures Carry(Waiting(que, outx, eff), contents)
    decreases eff
  {
    if eff > 0 {
      var rest := que[outx := que[outx].(mlock := false)];
      assert Offset(|que|, outx, outx) == 0 && que[outx].Holds(contents[0]);
      TakeKeepsRing(que, frameLen, inx, outx, eff, contents, false);
      WaitingCarries(rest, frameLen, inx, LoopAdd(outx, |que|), eff - 1, contents[1..]);
      WaitingWhateverLocked(que, outx, false, LoopAdd(outx, |que|), eff - 1);
      assert contents == [contents[0]] + contents[1..];
    }
  }

  class RtpClient {
    const pQueNet: CQueue
    const pQueH264: CQueue
    var pRTPParse: H264Rtp?
    var mfistSequenceNumber: nat
    var mlastRtpInfo: HeaderInfo
    var mlostCount: int

    /** Every object a packet may change. */
    ghost function Footprint(): set<object>
      reads this
    {
      {pQueNet, pQueNet.que} + OutputSide()
    }

    /** The objects behind the network queue. */
    ghost function OutputSide(): set<object>
      reads this
    {
      {this, pQueH264, pQueH264.que} + ParserParts()
    }

    ghost function ParserParts(): set<object>
      reads this
    {
      if pRTPParse == null then {} else {pRTPParse, pRTPParse.mFUBuffer}
    }

    /** The depacketizing side, which does not depend on the state of the network queue. */
    ghost predicate Wired()
      reads OutputSide()
    {
      && NoneBorrowed(pQueH264)
      && {pQueNet, pQueNet.que} !! OutputSide()
      && (pRTPParse != null ==>
            pRTPParse.pQueH264 == pQueH264 && pRTPParse.Valid() && pRTPParse.mFUBufferLen == FU_BUFFER_LEN)
    }

    ghost predicate Valid()
      reads Footprint()
    {
      NoneBorrowed(pQueNet) && Wired()
    }

    /** The client's state as RtpSpec describes it. */
    ghost function View(): Client
      requires Wired()
      reads OutputSide()
    {
      Client(Session(mfistSequenceNumber, mlastRtpInfo, mlostCount, pRTPParse != null),
             if pRTPParse == null then [] else pRTPParse.Gathered())
    }

    /** The packets that wait in the network queue, each in its slot. */
    ghost function Queued(): seq<Slot>
      requires pQueNet.Valid()
      reads this, pQueNet, pQueNet.que
    {
      Waiting(pQueNet.que[..], pQueNet.mOutindex, pQueNet.mEffectives)
    }

    /** cRTPClient and rtp_init, without the socket. */
    constructor ()
      ensures Valid() && fresh(Footprint()) && View() == Client(FRESH, [])
      ensures pQueNet.contents == [] && pQueH264.contents == [] && pQueH264.history == []
      ensures pQueNet.maxFrames == 300 && pQueNet.mframeLen == 1500
      ensures pQueH264.maxFrames == 50 && pQueH264.mframeLen == 524288
    {
      pQueNet := new CQueue(NET_FRAMES, NET_FRAME_LEN);
      pQueH264 := new CQueue(H264_FRAMES, H264_FRAME_LEN);
      pRTPParse := null;
      mfistSequenceNumber, mlastRtpInfo, mlostCount := 0, HeaderInfo(0, 0, 0, 0, 0, 0), 0;
    }

    /** check_header: accepts the packet or not, and creates the parser for the first H.264 packet. */
    method CheckHeaderInfo(info: HeaderInfo) returns (ok: bool)
      requires Wired()
      modifies this
      ensures Wired() && fresh(ParserParts() - old(ParserParts()))
      ensures (View().session, ok) == CheckHeader(old(View().session), info) && View().gathered == old(View().gathered)
    {
      if mfistSequenceNumber == 0 {
        mfistSequenceNumber := info.sequenceNumber;
        mlastRtpInfo := info;
        if info.payloadType == H264_PAYLOAD_TYPE && pRTPParse == null {
          pRTPParse := new H264Rtp(pQueH264, FU_BUFFER_LEN);
        }
        return true;
      }
      if info.ssrc == mlastRtpInfo.ssrc {
        if info.payloadType == mlastRtpInfo.payloadType {
          if info.sequenceNumber - mlastRtpInfo.sequenceNumber != 1 {
            mlostCount := mlostCount + (info.sequenceNumber - 1 - mlastRtpInfo.sequenceNumber);
          }
          mlastRtpInfo := info;
          return true;
        }
      }
      return false;
    }

    /** The payload of an accepted packet goes to the parser if there is one. */
    method PassIfWanted(ok: bool, pData: Bytes, dataLen: int)
      requires Wired() && pData != [] && dataLen <= |pData|
      requires ok && pRTPParse != null ==> Defined(FU_BUFFER_LEN, pRTPParse.Gathered(), pData, dataLen)
      modifies OutputSide() - {this}
      ensures Wired()
      ensures var (gathered, pushed) :=
                if ok && pRTPParse != null then FeedMemory(FU_BUFFER_LEN, old(pRTPParse.Gathered()), pData, dataLen)
                else (old(View().gathered), []);
              && View() == old(View()).(gathered := gathered)
              && pQueH264.history == old(pQueH264.history) + PushEvents(pushed, pQueH264.mframeLen)
    {
      if ok && pRTPParse != null {
        PassOn(pData, dataLen);
      }
    }

    /** One payload, once there is a parser. */
    method PassOn(pData: Bytes, dataLen: int)
      requires Wired() && pRTPParse != null && pData != [] && dataLen <= |pData|
      requires Defined(FU_BUFFER_LEN, pRTPParse.Gathered(), pData, dataLen)
      modifies OutputSide() - {this}
      ensures Wired()
      ensures var (gathered, pushed) := FeedMemory(FU_BUFFER_LEN, old(pRTPParse.Gathered()), pData, dataLen);
              && View() == old(View()).(gathered := gathered)
              && pQueH264.history == old(pQueH264.history) + PushEvents(pushed, pQueH264.mframeLen)
    {
      pRTPParse.ParsePayload(pData, dataLen);
    }

    /** The part of parse between borrowing the packet's slot and releasing it. */
    method HandlePacket(pData: Bytes, dataLen: nat)
      requires Wired() && Sound(FU_BUFFER_LEN, View(), Slot(pData, dataLen))
      modifies OutputSide()
      ensures Wired() && fresh(ParserParts() - old(ParserParts()))
      ensures unchanged(pQueNet) && unchanged(pQueNet.que)
      ensures var (after, pushed) := Parse(FU_BUFFER_LEN, old(View()), Slot(pData, dataLen));
              && View() == after
              && pQueH264.history == old(pQueH264.history) + PushEvents(pushed, pQueH264.mframeLen)
    {
      var rtpInfo := SetHeaderInfo(pData);
      var ok := CheckHeaderInfo(rtpInfo);
      PassIfWanted(ok, pData[RTP_HEADER_LEN..], dataLen - RTP_HEADER_LEN);
    }

    /** parse up to the release: the packet's slot stays borrowed. */
    method BorrowAndHandle(ghost slot: Slot) returns (index: nat)
      requires Valid() && pQueNet.contents != [] && slot == Queued()[0] && Sound(FU_BUFFER_LEN, View(), slot)
      modifies Footprint()
      ensures Wired() && fresh(ParserParts() - old(ParserParts()))
      ensures pQueNet.Valid() && index < pQueNet.maxFrames
      ensures pQueNet.que[..] == old(pQueNet.que[..])[index := old(pQueNet.que[index]).(mlock := true)]
      ensures pQueNet.contents == old(pQueNet.contents)[1..] && index == old(pQueNet.mOutindex)
      ensures pQueNet.mOutindex == LoopAdd(index, pQueNet.maxFrames)
              && pQueNet.mEffectives == old(pQueNet.mEffectives) - 1
      ensures var (after, pushed) := Parse(FU_BUFFER_LEN, old(View()), slot);
              && View() == after
              && pQueH264.history == old(pQueH264.history) + PushEvents(pushed, pQueH264.mframeLen)
    {
      var dataLen;
      index, dataLen := pQueNet.GetBuffer();
      HandlePacket(pQueNet.que[index].data, dataLen);
    }

    /** parse: one packet from the network queue to the depacketizer. */
    method ParseNext()
      requires Valid() && pQueNet.contents != [] && Queued() != [] && Sound(FU_BUFFER_LEN, View(), Queued()[0])
      modifies Footprint()
      ensures Valid() && fresh(ParserParts() - old(ParserParts()))
      ensures pQueNet.contents == old(pQueNet.contents)[1..] && Queued() == old(Queued())[1..]
      ensures var (after, pushed) := Parse(FU_BUFFER_LEN, old(View()), old(Queued())[0]);
              && View() == after
              && pQueH264.history == old(pQueH264.history) + PushEvents(pushed, pQueH264.mframeLen)
    {
      var index := BorrowAndHandle(Queued()[0]);
      var _ := pQueNet.ReleaseBuffer(index);
      assert pQueNet.que[..] == old(pQueNet.que[..]);
    }

    /**
      How far a run of parse_thread has come: the pushes so far are done, and the queued packets will bring the rest
      of whole.
    */
    ghost predicate Underway(base: seq<Event<Frame>>, whole: (Client, seq<Bytes>), done: seq<Bytes>)
      reads Footprint()
    {
      && Valid() && pQueH264.history == base + PushEvents(done, pQueH264.mframeLen)
      && OnTheWay(whole, View(), Queued(), done)
    }

    /** One turn of parse_thread, as part of a longer run. */
    method ParseTurn(ghost base: seq<Event<Frame>>, ghost whole: (Client, seq<Bytes>), ghost done: seq<Bytes>)
      returns (ghost more: seq<Bytes>)
      requires Underway(base, whole, done) && pQueNet.mSem > 0
      modifies Footprint()
      ensures fresh(ParserParts() - old(ParserParts()))
      ensures Underway(base, whole, more) && |pQueNet.contents| < old(|pQueNet.contents|)
    {
      ghost var pushed := Parse(FU_BUFFER_LEN, View(), Queued()[0]).1;
      OneOnTheWay(whole, View(), Queued(), done);
      more := done + pushed;
      PushEventsConcat(done, pushed, pQueH264.mframeLen);
      Assoc(base, PushEvents(done, pQueH264.mframeLen), PushEvents(pushed, pQueH264.mframeLen));
      ParseNext();
    }

    /** The loop of parse_thread, until it would wait. */
    method ParseTurns(ghost base: seq<Event<Frame>>, ghost whole: (Client, seq<Bytes>)) returns (ghost done: seq<Bytes>)
      requires Underway(base, whole, [])
      modifies Footprint()
      ensures fresh(ParserParts() - old(ParserParts()))
      ensures Underway(base, whole, done) && pQueNet.contents == []
    {
      done := [];
      while pQueNet.mSem > 0
        invariant Underway(base, whole, done) && fresh(ParserParts() - old(ParserParts()))
        modifies Footprint()
        decreases |pQueNet.contents|
      {
        done := ParseTurn(base, whole, done);
      }
    }

    /** parse_thread, until it would wait for the network: every queued packet, in order. */
    method ParseQueued()
      requires Valid() && AllSound(FU_BUFFER_LEN, View(), Queued())
      modifies Footprint()
      ensures Valid() && fresh(ParserParts() - old(ParserParts())) && pQueNet.contents == []
      ensures var (after, pushed) := ParseAll(FU_BUFFER_LEN, old(View()), old(Queued()));
              && View() == after
              && pQueH264.history == old(pQueH264.history) + PushEvents(pushed, pQueH264.mframeLen)
              && ((forall u | u in pushed :: |u| <= pQueH264.mframeLen) ==>
                    pQueH264.contents == LastOnes(old(pQueH264.contents) + pushed, pQueH264.maxFrames))
    {
      ghost var base, whole := pQueH264.history, ParseAll(FU_BUFFER_LEN, View(), Queued());
      assert [] + whole.1 == whole.1 && base + [] == base;
      ghost var done := ParseTurns(base, whole);
      assert done + [] == done;
      UnitsFill(pQueH264.maxFrames, base, done, pQueH264.mframeLen);
    }

    /** What ParseQueued is asked to handle is what the network queue holds. */
    lemma QueuedCarriesContents()
      requires pQueNet.Valid()
      ensures Carry(Queued(), pQueNet.contents)
    {
      WaitingCarries(pQueNet.que[..], pQueNet.mframeLen, pQueNet.mInindex, pQueNet.mOutindex, pQueNet.mEffectives,
          pQueNet.contents);
    }
  }

  /** What an output queue holds after pushing units that fit its slots. */
  lemma UnitsFill(cap: nat, t: seq<Event<Frame>>, units: seq<Bytes>, mframeLen: nat)
    requires 0 < cap && After(cap, t).Some?
    ensures (forall u | u in units :: |u| <= mframeLen) ==>
              After(cap, t + PushEvents(units, mframeLen)) == Some(LastOnes(After(cap, t).value + units, cap))
  {
    if forall u | u in units :: |u| <= mframeLen {
      PushedWhole(units, mframeLen);
      PushesFill(cap, t, units);
    }
  }

  /**
    The video of a session as the application gets it: whatever NAL units of types 1
    to 23 and of at most 512 KB are sent, whole or fragmented, they are what the
    output queue is filled with, in order.
  */
  lemma VideoArrives(us: seq<Sent>, hs: seq<HeaderInfo>, ssrc: nat, slots: seq<Slot>)
    requires forall u | u in us :: ValidSent(u) && |u.nal| <= 524288
    requires |hs| == |AllPayloads(us)| && OneStream(hs, ssrc) && Carry(slots, Packets(hs, AllPayloads(us)))
    ensures FU_BUFFER_LEN == 524288 && AllSound(524288, Client(FRESH, []), slots)
    ensures var (after, pushed) := ParseAll(524288, Client(FRESH, []), slots);
            && pushed == Nals(us) && (forall u | u in pushed :: |u| <= 524288)
            && (|us| <= 50 ==> LastOnes([] + pushed, 50) == Nals(us))
  {
    ReceiveWhatWasSent(FU_BUFFER_LEN, us, hs, ssrc, slots);
    NalsOf(us);
  }

  lemma {:induction false} NalsOf(us: seq<Sent>)
    ensures |Nals(us)| == |us| && forall i | 0 <= i < |us| :: Nals(us)[i] == us[i].nal
  {
    if us != [] {
      NalsOf(us[1..]);
    }
  }

  /** Some packets of a run are done and have pushed these units; these packets remain. */
  ghost predicate OnTheWay(whole: (Client, seq<Bytes>), c: Client, packets: seq<Slot>, done: seq<Bytes>) {
    && AllSound(FU_BUFFER_LEN, c, packets)
    && var (last, rest) := ParseAll(FU_BUFFER_LEN, c, packets); whole == (last, done + rest)
  }

  lemma OneOnTheWay(whole: (Client, seq<Bytes>), c: Client, packets: seq<Slot>, done: seq<Bytes>)
    requires OnTheWay(whole, c, packets, done) && packets != []
    ensures var (next, pushed) := Parse(FU_BUFFER_LEN, c, packets[0]);
            OnTheWay(whole, next, packets[1..], done + pushed)
  {
    var (next, pushed) := Parse(FU_BUFFER_LEN, c, packets[0]);
    Assoc(done, pushed, ParseAll(FU_BUFFER_LEN, next, packets[1..]).1);
  }
}
