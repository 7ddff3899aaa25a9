/**
  RTP reception of cRTPClient.cpp on values: header decoding (section 5.1 of
  RFC 3550), acceptance of a stream, loss accounting, and the way a packet goes
  on to the depacketizer.
*/
module RtpSpec {
  import opened Common
  import opened H264Spec

  const H264_PAYLOAD_TYPE: Byte := 96
  const RTP_HEADER_LEN := 12

  datatype HeaderInfo = HeaderInfo(
    version: Byte, marker: Byte, payloadType: Byte, sequenceNumber: nat, timeStamp: nat, ssrc: nat)

  /** The macro LITTLE_MAKE_UNINT16: two bytes, most significant first. */
  function Word16(hi: Byte, lo: Byte): nat {
    (hi as int) * 0x100 + (lo as int)
  }

  /** The macro LITTLE_MAKE_UNINT32, kept in an unsigned 32-bit field. */
  function Word32(b3: Byte, b2: Byte, b1: Byte, b0: Byte): nat {
    Word16(b3, b2) * 0x1_0000 + Word16(b1, b0)
  }

  function SetHeaderInfo(p: Bytes): HeaderInfo
    requires |p| >= RTP_HEADER_LEN
  {
    HeaderInfo(
      (p[0] & 0xc0) >> 6, (p[1] & 0x80) >> 7, p[1] & 0x7f,
      Word16(p[2], p[3]), Word32(p[4], p[5], p[6], p[7]), Word32(p[8], p[9], p[10], p[11]))
  }

  /** Where the fields are: most significant byte and bit first. */
  lemma HeaderFields(p: Bytes)
    requires |p| >= RTP_HEADER_LEN
    ensures var h := SetHeaderInfo(p);
            && h.version == p[0] >> 6 && h.marker == p[1] >> 7 && h.payloadType == p[1] & 0x7f
            && h.sequenceNumber == 256 * (p[2] as nat) + (p[3] as nat)
            && h.timeStamp == 256 * (256 * (256 * (p[4] as nat) + (p[5] as nat)) + (p[6] as nat)) + (p[7] as nat)
            && h.ssrc == 256 * (256 * (256 * (p[8] as nat) + (p[9] as nat)) + (p[10] as nat)) + (p[11] as nat)
  {
    TopBits(p[0], p[1]);
  }

  lemma TopBits(a: Byte, b: Byte)
    ensures (a & 0xc0) >> 6 == a >> 6 && (b & 0x80) >> 7 == b >> 7
  {
  }

  // The sender's side of the header: no padding, extension or contributing sources.

  predicate ValidHeader(h: HeaderInfo) {
    && h.version < 4 && h.marker < 2 && h.payloadType < 128
    && h.sequenceNumber < 0x1_0000 && h.timeStamp < 0x1_0000_0000 && h.ssrc < 0x1_0000_0000
  }

  function ByteOf(n: nat): Byte {
    (n % 0x100) as Byte
  }

  function Encode16(n: nat): Bytes {
    [ByteOf(n / 0x100), ByteOf(n)]
  }

  function EncodeHeader(h: HeaderInfo): Bytes {
    [h.version << 6, (h.marker << 7) | h.payloadType] + Encode16(h.sequenceNumber)
    + Encode16(h.timeStamp / 0x1_0000) + Encode16(h.timeStamp % 0x1_0000)
    + Encode16(h.ssrc / 0x1_0000) + Encode16(h.ssrc % 0x1_0000)
  }

  lemma Word16Encode(n: nat)
    requires n < 0x1_0000
    ensures Word16(Encode16(n)[0], Encode16(n)[1]) == n
  {
    var hi, lo := n / 0x100 % 0x100, n % 0x100;
    ByteOfIsExact(hi);
    ByteOfIsExact(lo);
    assert hi * 0x100 + lo == n;
  }

  lemma HeaderBits(version: Byte, marker: Byte, payloadType: Byte)
    requires version < 4 && marker < 2 && payloadType < 128
    ensures ((version << 6) & 0xc0) >> 6 == version
    ensures (((marker << 7) | payloadType) & 0x80) >> 7 == marker
    ensures ((marker << 7) | payloadType) & 0x7f == payloadType
  {
  }

  /** Decoding undoes encoding, whatever payload follows. */
  lemma HeaderRoundTrip(h: HeaderInfo, payload: Bytes)
    requires ValidHeader(h)
    ensures var p := EncodeHeader(h) + payload;
            |p| == RTP_HEADER_LEN + |payload| && SetHeaderInfo(p) == h && p[RTP_HEADER_LEN..] == payload
  {
    HeaderBits(h.version, h.marker, h.payloadType);
    Word16Encode(h.sequenceNumber);
    Word16Encode(h.timeStamp / 0x1_0000);
    Word16Encode(h.timeStamp % 0x1_0000);
    Word16Encode(h.ssrc / 0x1_0000);
    Word16Encode(h.ssrc % 0x1_0000);
  }

  /** The fields check_header keeps; parser says whether pRTPParse has been created. */
  datatype Session = Session(firstSeq: nat, last: HeaderInfo, lost: int, parser: bool)

  const FRESH := Session(0, HeaderInfo(0, 0, 0, 0, 0, 0), 0, false)

  /** check_header: the state afterwards and whether the packet is accepted. */
  function CheckHeader(s: Session, h: HeaderInfo): (Session, bool) {
    if s.firstSeq == 0 then
      (Session(h.sequenceNumber, h, s.lost, s.parser || h.payloadType == H264_PAYLOAD_TYPE), true)
    else if h.ssrc == s.last.ssrc && h.payloadType == s.last.payloadType then
      (s.(lost := if h.sequenceNumber - s.last.sequenceNumber == 1 then s.lost
                  else s.lost + (h.sequenceNumber - 1 - s.last.sequenceNumber),
          last := h), true)
    else (s, false)
  }

  /** Which packets are accepted: all until a sequence number other than zero, then those of the last one's stream. */
  lemma AcceptedExactly(s: Session, h: HeaderInfo)
    ensures CheckHeader(s, h).1 <==> s.firstSeq == 0 || (h.ssrc == s.last.ssrc && h.payloadType == s.last.payloadType)
    ensures CheckHeader(s, h).1 ==> CheckHeader(s, h).0.last == h
    ensures !CheckHeader(s, h).1 ==> CheckHeader(s, h).0 == s
    ensures CheckHeader(s, h).0.parser <==> s.parser || (s.firstSeq == 0 && h.payloadType == 96)
  {
  }

  function CheckAll(s: Session, hs: seq<HeaderInfo>): Session
    decreases |hs|
  {
    if hs == [] then s else CheckAll(CheckHeader(s, hs[0]).0, hs[1..])
  }

  /** The headers accepted after the one that gave mfistSequenceNumber its first non-zero value. */
  function AcceptedSince(s: Session, hs: seq<HeaderInfo>): seq<HeaderInfo>
    decreases |hs|
  {
    if hs == [] then [] else
    var (next, ok) := CheckHeader(s, hs[0]);
    (if s.firstSeq != 0 && ok then [hs[0]] else []) + AcceptedSince(next, hs[1..])
  }

  predicate SameStream(a: HeaderInfo, b: HeaderInfo) {
    a.ssrc == b.ssrc && a.payloadType == b.payloadType
  }

  /** Once a stream is fixed, the loss counter is what the sequence numbers of its two ends say. */
  lemma {:induction false} LossTelescopesFrom(s: Session, hs: seq<HeaderInfo>)
    requires s.firstSeq != 0
    ensures var e, since := CheckAll(s, hs), AcceptedSince(s, hs);
            && e.firstSeq == s.firstSeq && SameStream(e.last, s.last)
            && e.lost - s.lost == e.last.sequenceNumber - s.last.sequenceNumber - |since|
            && (forall h | h in since :: SameStream(h, s.last))
            && e.last == (if since == [] then s.last else since[|since| - 1])
    decreases |hs|
  {
    if hs != [] {
      LossTelescopesFrom(CheckHeader(s, hs[0]).0, hs[1..]);
    }
  }

  /** The packet that counts as the first: the first one whose sequence number is not zero. */
  function First(hs: seq<HeaderInfo>): Option<HeaderInfo> {
    if hs == [] then None else if hs[0].sequenceNumber != 0 then Some(hs[0]) else First(hs[1..])
  }

  /**
    Loss accounting telescopes: after any packets, from the first one with a
    non-zero sequence number on, mlostCount is last - first - packets accepted
    since, and all of them share that first packet's stream.
  */
  lemma {:induction false} LossTelescopes(s: Session, hs: seq<HeaderInfo>)
    requires s.firstSeq == 0 && s.lost == 0
    ensures var e, since := CheckAll(s, hs), AcceptedSince(s, hs);
            match First(hs)
            case None => e.firstSeq == 0 && e.lost == 0 && since == []
            case Some(first) =>
              && e.firstSeq == first.sequenceNumber != 0
              && e.lost == e.last.sequenceNumber - first.sequenceNumber - |since|
              && (forall h | h in since :: SameStream(h, first))
              && e.last == (if since == [] then first else since[|since| - 1])
    decreases |hs|
  {
    if hs != [] {
      var next := CheckHeader(s, hs[0]).0;
      assert AcceptedSince(s, hs) == AcceptedSince(next, hs[1..]);
      if next.firstSeq == 0 {
        LossTelescopes(next, hs[1..]);
      } else {
        LossTelescopesFrom(next, hs[1..]);
      }
    }
  }

  function Numbers(hs: seq<HeaderInfo>): set<int> {
    set h | h in hs :: h.sequenceNumber
  }

  /** All sequence numbers from lo to hi. */
  function Range(lo: int, hi: int): set<int>
    decreases hi - lo
  {
    if hi < lo then {} else Range(lo, hi - 1) + {hi}
  }

  lemma {:induction false} RangeSize(lo: int, hi: int)
    requires lo <= hi + 1
    ensures forall n :: n in Range(lo, hi) <==> lo <= n <= hi
    ensures |Range(lo, hi)| == hi - lo + 1
    decreases hi - lo
  {
    if lo <= hi {
      RangeSize(lo, hi - 1);
    }
  }

  predicate Distinct(hs: seq<HeaderInfo>) {
    forall i, j | 0 <= i < j < |hs| :: hs[i].sequenceNumber != hs[j].sequenceNumber
  }

  lemma {:induction false} NumbersSize(hs: seq<HeaderInfo>)
    requires Distinct(hs)
    ensures |Numbers(hs)| == |hs|
  {
    if hs != [] {
      NumbersSize(hs[1..]);
      assert Numbers(hs) == Numbers(hs[1..]) + {hs[0].sequenceNumber};
      assert hs[0].sequenceNumber !in Numbers(hs[1..]);
    }
  }

  /**
    When the numbers accepted since the first one are distinct and lie between the
    first and the last, mlostCount counts exactly the numbers that are missing,
    even if packets came out of order before the last one.
  */
  lemma LossIsMissingCount(s: Session, hs: seq<HeaderInfo>)
    requires s.firstSeq == 0 && s.lost == 0
    requires var e, since := CheckAll(s, hs), AcceptedSince(s, hs);
             && e.firstSeq != 0 && Distinct(since)
             && forall h | h in since :: e.firstSeq < h.sequenceNumber <= e.last.sequenceNumber
    ensures var e, since := CheckAll(s, hs), AcceptedSince(s, hs);
            e.lost == |Range(e.firstSeq, e.last.sequenceNumber) - ({e.firstSeq} + Numbers(since))|
  {
    var e, since := CheckAll(s, hs), AcceptedSince(s, hs);
    LossTelescopes(s, hs);
    var all, seen := Range(e.firstSeq, e.last.sequenceNumber), {e.firstSeq} + Numbers(since);
    NumbersSize(since);
    assert e.firstSeq <= e.last.sequenceNumber by {
      if since != [] {
        assert since[0] in since;
      }
    }
    RangeSize(e.firstSeq, e.last.sequenceNumber);
    assert e.firstSeq !in Numbers(since);
    assert seen <= all;
    assert |all - seen| == |all| - |seen|;
  }

  // Packets on their way to the depacketizer.

  /** The client's state between packets: the session and the fragment bytes gathered so far. */
  datatype Client = Client(session: Session, gathered: Bytes)

  /** A packet as it lies in its slot: whatever is behind its bytes is still from earlier packets. */
  datatype Slot = Slot(data: Bytes, len: nat)

  /** What the source does with this packet is defined. Its header is read whether or not it was received. */
  predicate Sound(fuLen: nat, c: Client, p: Slot) {
    && RTP_HEADER_LEN < |p.data| && p.len <= |p.data| && |c.gathered| <= fuLen
    && (var (s, ok) := CheckHeader(c.session, SetHeaderInfo(p.data));
        ok && s.parser ==> Defined(fuLen, c.gathered, p.data[RTP_HEADER_LEN..], p.len - RTP_HEADER_LEN))
  }

  /** cRTPClient::parse on one packet: the new state and the NAL units pushed. */
  function Parse(fuLen: nat, c: Client, p: Slot): (Client, seq<Bytes>)
    requires Sound(fuLen, c, p)
  {
    var (s, ok) := CheckHeader(c.session, SetHeaderInfo(p.data));
    if ok && s.parser then
      var (gathered, pushed) := FeedMemory(fuLen, c.gathered, p.data[RTP_HEADER_LEN..], p.len - RTP_HEADER_LEN);
      (Client(s, gathered), pushed)
    else
      (Client(s, c.gathered), [])
  }

  predicate AllSound(fuLen: nat, c: Client, packets: seq<Slot>)
    decreases |packets|
  {
    packets == [] || (Sound(fuLen, c, packets[0]) && AllSound(fuLen, Parse(fuLen, c, packets[0]).0, packets[1..]))
  }

  function ParseAll(fuLen: nat, c: Client, packets: seq<Slot>): (Client, seq<Bytes>)
    requires AllSound(fuLen, c, packets)
    decreases |packets|
  {
    if packets == [] then (c, []) else
    var (next, pushed) := Parse(fuLen, c, packets[0]);
    var (last, more) := ParseAll(fuLen, next, packets[1..]);
    (last, pushed + more)
  }

  /** The packets of one source and payload type. */
  function OfStream(slots: seq<Slot>, ssrc: nat, payloadType: Byte): seq<Slot>
    requires forall p | p in slots :: |p.data| > RTP_HEADER_LEN
  {
    if slots == [] then [] else
    var h := SetHeaderInfo(slots[0].data);
    (if h.ssrc == ssrc && h.payloadType == payloadType then [slots[0]] else [])
        + OfStream(slots[1..], ssrc, payloadType)
  }

  lemma {:induction false} SoundHasHeader(fuLen: nat, c: Client, slots: seq<Slot>)
    requires AllSound(fuLen, c, slots)
    ensures forall p | p in slots :: |p.data| > RTP_HEADER_LEN
    decreases |slots|
  {
    if slots != [] {
      SoundHasHeader(fuLen, Parse(fuLen, c, slots[0]).0, slots[1..]);
    }
  }

  predicate OwnPacket(s: Session, p: Slot)
    requires |p.data| > RTP_HEADER_LEN
  {
    var h := SetHeaderInfo(p.data); h.ssrc == s.last.ssrc && h.payloadType == s.last.payloadType
  }

  /** One packet after the stream is fixed: it leaves the stream fixed, and a foreign one changes nothing at all. */
  lemma FixedStream(fuLen: nat, c: Client, p: Slot)
    requires c.session.firstSeq != 0 && Sound(fuLen, c, p)
    ensures var (next, pushed) := Parse(fuLen, c, p);
            && next.session.firstSeq != 0
            && next.session.last.ssrc == c.session.last.ssrc
            && next.session.last.payloadType == c.session.last.payloadType
            && (!OwnPacket(c.session, p) ==> next == c && pushed == [])
  {
    AcceptedExactly(c.session, SetHeaderInfo(p.data));
  }

  /** Once a stream is fixed, packets of any other source or payload type might as well not have come. */
  lemma {:induction false} ForeignPacketsDoNotMatter(fuLen: nat, c: Client, slots: seq<Slot>)
    requires c.session.firstSeq != 0 && AllSound(fuLen, c, slots)
    ensures forall p | p in slots :: |p.data| > RTP_HEADER_LEN
    ensures var own := OfStream(slots, c.session.last.ssrc, c.session.last.payloadType);
            AllSound(fuLen, c, own) && ParseAll(fuLen, c, own) == ParseAll(fuLen, c, slots)
    decreases |slots|
  {
    SoundHasHeader(fuLen, c, slots);
    if slots != [] {
      var (next, pushed) := Parse(fuLen, c, slots[0]);
      FixedStream(fuLen, c, slots[0]);
      ForeignPacketsDoNotMatter(fuLen, next, slots[1..]);
      var own := OfStream(slots[1..], c.session.last.ssrc, c.session.last.payloadType);
      if OwnPacket(c.session, slots[0]) {
        assert ([slots[0]] + own)[1..] == own;
      } else {
        var rest := ParseAll(fuLen, c, slots[1..]);
        assert [] + own == own && [] + rest.1 == rest.1;
      }
    }
  }

  /** Without a packet of payload type 96 there is no depacketizer, and nothing is ever pushed. */
  lemma {:induction false} OtherTypesPushNothing(fuLen: nat, c: Client, slots: seq<Slot>)
    requires !c.session.parser && AllSound(fuLen, c, slots)
    requires forall p | p in slots :: |p.data| > RTP_HEADER_LEN && SetHeaderInfo(p.data).payloadType != 96
    ensures var (last, pushed) := ParseAll(fuLen, c, slots);
            pushed == [] && last.gathered == c.gathered && !last.session.parser
    decreases |slots|
  {
    if slots != [] {
      OtherTypesPushNothing(fuLen, Parse(fuLen, c, slots[0]).0, slots[1..]);
    }
  }

  /** RTP packets with these headers around these payloads. */
  function Packets(hs: seq<HeaderInfo>, ps: seq<Bytes>): (r: seq<Bytes>)
    requires |hs| == |ps|
    ensures |r| == |ps|
  {
    if ps == [] then [] else [EncodeHeader(hs[0]) + ps[0]] + Packets(hs[1..], ps[1..])
  }

  /** One video stream: any sequence numbers, time stamps and markers, one source, payload type 96. */
  predicate OneStream(hs: seq<HeaderInfo>, ssrc: nat) {
    forall h | h in hs :: ValidHeader(h) && h.payloadType == 96 && h.ssrc == ssrc
  }

  /** The client is ready to pass on every packet of the stream. */
  predicate Listening(s: Session, ssrc: nat) {
    if s.firstSeq == 0 then true
    else s.parser && s.last.ssrc == ssrc && s.last.payloadType == 96
  }

  /** The slots hold these packets, with anything behind them. */
  predicate Carry(slots: seq<Slot>, packets: seq<Bytes>) {
    && |slots| == |packets|
    && forall i | 0 <= i < |slots| :: slots[i].len == |packets[i]| <= |slots[i].data|
        && slots[i].data[..slots[i].len] == packets[i]
  }

  /** One packet of a stream in its slot. */
  lemma PacketReachesDepacketizer(fuLen: nat, c: Client, h: HeaderInfo, p: Bytes, slot: Slot)
    requires ValidHeader(h) && |c.gathered| <= fuLen && LongEnough(p) && Fits(fuLen, c.gathered, p)
    requires var packet := EncodeHeader(h) + p; slot.len == |packet| <= |slot.data| && slot.data[..slot.len] == packet
    requires var (s, ok) := CheckHeader(c.session, h); ok && s.parser
    ensures Sound(fuLen, c, slot)
    ensures var (gathered, pushed) := Feed(fuLen, c.gathered, p);
            Parse(fuLen, c, slot) == (Client(CheckHeader(c.session, h).0, gathered), pushed)
  {
    var stale := slot.data[slot.len..];
    var data := slot.data[RTP_HEADER_LEN..];
    assert slot.data == EncodeHeader(h) + (p + stale) by {
      Assoc(EncodeHeader(h), p, stale);
    }
    HeaderRoundTrip(h, p + stale);
    assert data == p + stale && data[..|p|] == p;
    MemoryIsPayload(fuLen, c.gathered, data, |p|);
  }

  /** A stream's packets reach the depacketizer unchanged, every one of them. */
  lemma {:induction false} StreamReachesDepacketizer(fuLen: nat, c: Client, hs: seq<HeaderInfo>, ps: seq<Bytes>,
                                                     ssrc: nat, slots: seq<Slot>)
    requires |hs| == |ps| && OneStream(hs, ssrc) && Listening(c.session, ssrc) && Carry(slots, Packets(hs, ps))
    requires |c.gathered| <= fuLen && AllFit(fuLen, c.gathered, ps)
    ensures AllSound(fuLen, c, slots)
    ensures var (e, pushed) := ParseAll(fuLen, c, slots); (e.gathered, pushed) == FeedAll(fuLen, c.gathered, ps)
    decreases |ps|
  {
    if ps != [] {
      var packets := Packets(hs, ps);
      assert hs[0] in hs;
      assert packets[0] == EncodeHeader(hs[0]) + ps[0] && packets[1..] == Packets(hs[1..], ps[1..]);
      PacketReachesDepacketizer(fuLen, c, hs[0], ps[0], slots[0]);
      var (next, pushed) := Parse(fuLen, c, slots[0]);
      StreamReachesDepacketizer(fuLen, next, hs[1..], ps[1..], ssrc, slots[1..]);
    }
  }

  /**
    The receiver undoes the sender: for any list of NAL units of types 1 to 23,
    each sent whole or in any split into fragments, a fresh client that parses the
    packets of the stream, in slots with anything behind them, pushes exactly that
    list, in order.
  */
  lemma ReceiveWhatWasSent(fuLen: nat, us: seq<Sent>, hs: seq<HeaderInfo>, ssrc: nat, slots: seq<Slot>)
    requires forall u | u in us :: ValidSent(u) && (u.Fragmented? ==> |u.nal| <= fuLen)
    requires |hs| == |AllPayloads(us)| && OneStream(hs, ssrc) && Carry(slots, Packets(hs, AllPayloads(us)))
    ensures AllSound(fuLen, Client(FRESH, []), slots)
    ensures var (e, pushed) := ParseAll(fuLen, Client(FRESH, []), slots); pushed == Nals(us) && e.gathered == []
  {
    RoundTrip(fuLen, us);
    StreamReachesDepacketizer(fuLen, Client(FRESH, []), hs, AllPayloads(us), ssrc, slots);
  }
}
