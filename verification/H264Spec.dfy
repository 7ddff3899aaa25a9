/**
  The H.264 depacketizer of cH264RTP.cpp on values: one payload at a time it
  turns the bytes gathered so far into new gathered bytes and the NAL units it
  pushes. The packetizer it has to undo is that of sections 5.6 and 5.8 of RFC 6184.
*/
module H264Spec {
  import opened Common

  type Bytes = seq<Byte>

  datatype NalType = FuA | FuB | Single | Undefined

  /** The low five bits of the first payload byte decide how the payload is read. */
  function GetNalType(b: Byte): NalType {
    var nalType := b & 0x1f;
    if 1 <= nalType <= 23 then Single
    else if nalType == 28 then FuA
    else if nalType == 29 then FuB
    else Undefined
  }

  /** The NAL header byte rebuilt from the FU indicator and the FU header. */
  function RebuiltHeader(fuIndicator: Byte, fuHeader: Byte): Byte {
    (fuIndicator & 0xe0) | (fuHeader & 0x1f)
  }

  /** The bytes the source reads of a payload without looking at its length. */
  predicate LongEnough(p: Bytes) {
    |p| >= 1 && (GetNalType(p[0]).FuA? ==> |p| >= 2)
  }

  predicate IsStart(p: Bytes) {
    LongEnough(p) && GetNalType(p[0]).FuA? && p[1] & 0x80 != 0
  }

  predicate IsEnd(p: Bytes) {
    LongEnough(p) && GetNalType(p[0]).FuA? && !IsStart(p) && p[1] & 0x40 != 0
  }

  predicate IsMiddle(p: Bytes) {
    LongEnough(p) && GetNalType(p[0]).FuA? && !IsStart(p) && !IsEnd(p)
  }

  /** The copies the source makes without a size check stay inside mFUBuffer. */
  predicate Fits(fuLen: nat, gathered: Bytes, p: Bytes)
    requires LongEnough(p)
  {
    && (IsStart(p) ==> 1 + |p| - 2 <= fuLen)
    && (IsEnd(p) ==> |gathered| + |p| - 2 <= fuLen)
  }

  /** parse_payload: the gathered bytes afterwards, and the NAL units pushed. */
  function Feed(fuLen: nat, gathered: Bytes, p: Bytes): (Bytes, seq<Bytes>)
    requires LongEnough(p) && |gathered| <= fuLen
  {
    if GetNalType(p[0]).Single? then
      (gathered, [p])
    else if IsStart(p) then
      ([RebuiltHeader(p[0], p[1])] + p[2..], if gathered == [] then [] else [gathered])
    else if IsEnd(p) then
      ([], [gathered + p[2..]])
    else if IsMiddle(p) then
      if |gathered| + |p| - 2 > fuLen then ([], [gathered + p[2..][..fuLen - |gathered|]])
      else (gathered + p[2..], [])
    else
      (gathered, [])
  }

  /**
    What becomes of a payload, by its first byte: units of types 1 to 23 are pushed
    as they are, type 28 is gathered from its start bit to its end bit, and every
    other type is dropped. Gathered bytes past the end of mFUBuffer are cut off, and
    what fits is pushed.
  */
  lemma PayloadKinds(fuLen: nat, gathered: Bytes, p: Bytes)
    requires |p| >= 1 && (p[0] & 0x1f == 28 ==> |p| >= 2) && |gathered| <= fuLen
    ensures LongEnough(p)
    ensures 1 <= (p[0] & 0x1f) <= 23 ==> Feed(fuLen, gathered, p) == (gathered, [p])
    ensures p[0] & 0x1f == 0 || (24 <= (p[0] & 0x1f) && p[0] & 0x1f != 28) ==>
              Feed(fuLen, gathered, p) == (gathered, [])
    ensures p[0] & 0x1f == 28 && p[1] & 0x80 == 0x80 ==>
              var (after, pushed) := Feed(fuLen, gathered, p);
              && |after| == |p| - 1 && after[0] & 0xe0 == p[0] & 0xe0 && after[0] & 0x1f == p[1] & 0x1f
              && after[1..] == p[2..] && pushed == if gathered == [] then [] else [gathered]
    ensures p[0] & 0x1f == 28 && p[1] & 0xc0 == 0x40 ==> Feed(fuLen, gathered, p) == ([], [gathered + p[2..]])
    ensures p[0] & 0x1f == 28 && p[1] & 0xc0 == 0 ==>
              var all := gathered + p[2..];
              Feed(fuLen, gathered, p) == if |all| <= fuLen then (all, []) else ([], [all[..fuLen]])
  {
    if p[0] & 0x1f == 28 {
      StartEnd(p);
      RebuiltBits(p[0], p[1]);
      var all := gathered + p[2..];
      if |all| > fuLen {
        assert all[..fuLen] == gathered + p[2..][..fuLen - |gathered|];
      }
    }
  }

  lemma StartEnd(p: Bytes)
    requires |p| >= 2 && p[0] & 0x1f == 28
    ensures IsStart(p) <==> p[1] & 0x80 == 0x80
    ensures IsEnd(p) <==> p[1] & 0xc0 == 0x40
    ensures IsMiddle(p) <==> p[1] & 0xc0 == 0
  {
  }

  lemma RebuiltBits(fuIndicator: Byte, fuHeader: Byte)
    ensures RebuiltHeader(fuIndicator, fuHeader) & 0xe0 == fuIndicator & 0xe0
    ensures RebuiltHeader(fuIndicator, fuHeader) & 0x1f == fuHeader & 0x1f
  {
  }

  // Payloads as parse_payload gets them: memory, and a length that says how much of it was received.

  /** What the source does with this payload is defined: no length it copies is negative, and unchecked copies fit. */
  predicate Defined(fuLen: nat, gathered: Bytes, data: Bytes, len: int)
    requires data != [] && len <= |data|
  {
    match GetNalType(data[0])
    case Single => 0 <= len
    case FuA => 2 <= len && Fits(fuLen, gathered, data[..len])
    case _ => true
  }

  /** parse_payload: the type is read even from a payload of no bytes. */
  function FeedMemory(fuLen: nat, gathered: Bytes, data: Bytes, len: int): (Bytes, seq<Bytes>)
    requires data != [] && len <= |data| && |gathered| <= fuLen && Defined(fuLen, gathered, data, len)
  {
    match GetNalType(data[0])
    case Single => (gathered, [data[..len]])
    case FuA => Feed(fuLen, gathered, data[..len])
    case _ => (gathered, [])
  }

  /** A payload that is long enough is all that matters of the memory it lies in. */
  lemma MemoryIsPayload(fuLen: nat, gathered: Bytes, data: Bytes, len: int)
    requires 0 <= len <= |data| && |gathered| <= fuLen
    requires LongEnough(data[..len]) && Fits(fuLen, gathered, data[..len])
    ensures Defined(fuLen, gathered, data, len)
            && FeedMemory(fuLen, gathered, data, len) == Feed(fuLen, gathered, data[..len])
  {
    assert data[..len][0] == data[0];
  }

  /**
    When the source's treatment of a payload of len bytes is defined, and what it is,
    by the first byte of the memory it lies in, which is read even when len is not
    positive.
  */
  lemma MemoryKinds(fuLen: nat, gathered: Bytes, data: Bytes, len: int)
    requires data != [] && len <= |data| && |gathered| <= fuLen
    ensures var t := data[0] & 0x1f;
            Defined(fuLen, gathered, data, len) <==>
              && (1 <= t <= 23 ==> 0 <= len)
              && (t == 28 ==>
                    && 2 <= len
                    && (data[1] & 0x80 == 0x80 ==> len - 1 <= fuLen)
                    && (data[1] & 0xc0 == 0x40 ==> |gathered| + len - 2 <= fuLen))
    ensures Defined(fuLen, gathered, data, len) ==>
              var t, r := data[0] & 0x1f, FeedMemory(fuLen, gathered, data, len);
              if 1 <= t <= 23 then r == (gathered, [data[..len]])
              else if t == 28 then r == Feed(fuLen, gathered, data[..len])
              else r == (gathered, [])
  {
    if data[0] & 0x1f == 28 && 2 <= len {
      StartEnd(data[..len]);
    }
  }

  /** Every payload is long enough and every unchecked copy fits, one after the other. */
  predicate AllFit(fuLen: nat, gathered: Bytes, ps: seq<Bytes>)
    requires |gathered| <= fuLen
    decreases |ps|
  {
    ps == [] ||
    (LongEnough(ps[0]) && Fits(fuLen, gathered, ps[0]) && AllFit(fuLen, Feed(fuLen, gathered, ps[0]).0, ps[1..]))
  }

  /** A whole sequence of payloads. */
  function FeedAll(fuLen: nat, gathered: Bytes, ps: seq<Bytes>): (Bytes, seq<Bytes>)
    requires |gathered| <= fuLen && AllFit(fuLen, gathered, ps)
    decreases |ps|
  {
    if ps == [] then (gathered, []) else
    var (next, pushed) := Feed(fuLen, gathered, ps[0]);
    var (last, more) := FeedAll(fuLen, next, ps[1..]);
    (last, pushed + more)
  }

  /** The gathered bytes never outgrow mFUBuffer. */
  lemma {:induction false} GatheredStaysInBuffer(fuLen: nat, gathered: Bytes, ps: seq<Bytes>)
    requires |gathered| <= fuLen && AllFit(fuLen, gathered, ps)
    ensures |FeedAll(fuLen, gathered, ps).0| <= fuLen
    decreases |ps|
  {
    if ps != [] {
      GatheredStaysInBuffer(fuLen, Feed(fuLen, gathered, ps[0]).0, ps[1..]);
    }
  }

  lemma {:induction false} FeedConcat(fuLen: nat, gathered: Bytes, a: seq<Bytes>, b: seq<Bytes>)
    requires |gathered| <= fuLen && AllFit(fuLen, gathered, a)
    requires |FeedAll(fuLen, gathered, a).0| <= fuLen && AllFit(fuLen, FeedAll(fuLen, gathered, a).0, b)
    ensures AllFit(fuLen, gathered, a + b)
    ensures var (mid, first) := FeedAll(fuLen, gathered, a);
            var (last, second) := FeedAll(fuLen, mid, b);
            FeedAll(fuLen, gathered, a + b) == (last, first + second)
    decreases |a|
  {
    if a == [] {
      assert a + b == b && [] + FeedAll(fuLen, gathered, b).1 == FeedAll(fuLen, gathered, b).1;
    } else {
      assert (a + b)[1..] == a[1..] + b;
      var (next, pushed) := Feed(fuLen, gathered, a[0]);
      FeedConcat(fuLen, next, a[1..], b);
      var (mid, first) := FeedAll(fuLen, next, a[1..]);
      Assoc(pushed, first, FeedAll(fuLen, mid, b).1);
    }
  }

  // The packetizer.

  /** One NAL unit and how it is sent: whole, or its bytes after the header cut into two or more parts. */
  datatype Sent = Whole(nal: Bytes) | Fragmented(nal: Bytes, parts: seq<Bytes>)

  function Join(parts: seq<Bytes>): Bytes {
    if parts == [] then [] else parts[0] + Join(parts[1..])
  }

  predicate ValidSent(u: Sent) {
    && |u.nal| >= 1 && 1 <= (u.nal[0] & 0x1f) <= 23
    && (u.Fragmented? ==> |u.parts| >= 2 && Join(u.parts) == u.nal[1..])
  }

  function FuIndicator(nalHeader: Byte): Byte {
    (nalHeader & 0xe0) | 28
  }

  function FuHeader(nalHeader: Byte, start: bool, end: bool): Byte {
    (nalHeader & 0x1f) | (if start then 0x80 else 0) | (if end then 0x40 else 0)
  }

  /** The FU-A payloads of the parts; only the last one carries the end bit. */
  function Fragments(nalHeader: Byte, parts: seq<Bytes>, start: bool): seq<Bytes> {
    if parts == [] then [] else
    [[FuIndicator(nalHeader), FuHeader(nalHeader, start, |parts| == 1)] + parts[0]]
        + Fragments(nalHeader, parts[1..], false)
  }

  function Payloads(u: Sent): seq<Bytes>
    requires ValidSent(u)
  {
    match u
    case Whole(nal) => [nal]
    case Fragmented(nal, parts) => Fragments(nal[0], parts, true)
  }

  lemma FuBits(nalHeader: Byte, start: bool, end: bool)
    ensures FuIndicator(nalHeader) & 0x1f == 28 && FuIndicator(nalHeader) & 0xe0 == nalHeader & 0xe0
    ensures FuHeader(nalHeader, start, end) & 0x80 != 0 <==> start
    ensures FuHeader(nalHeader, start, end) & 0x40 != 0 <==> end
    ensures FuHeader(nalHeader, start, end) & 0x3f == nalHeader & 0x1f
    ensures RebuiltHeader(FuIndicator(nalHeader), FuHeader(nalHeader, start, end)) == nalHeader
  {
  }

  /** The rest of a train, after its start fragment, completes the gathered bytes and pushes them once. */
  lemma {:induction false} RestOfTrain(fuLen: nat, gathered: Bytes, nalHeader: Byte, parts: seq<Bytes>)
    requires parts != [] && |gathered| + |Join(parts)| <= fuLen
    ensures var ps := Fragments(nalHeader, parts, false);
            AllFit(fuLen, gathered, ps) && FeedAll(fuLen, gathered, ps) == ([], [gathered + Join(parts)])
    decreases |parts|
  {
    var ps := Fragments(nalHeader, parts, false);
    var p := ps[0];
    FuBits(nalHeader, false, |parts| == 1);
    assert p[2..] == parts[0] && ps[1..] == Fragments(nalHeader, parts[1..], false);
    if |parts| == 1 {
      assert parts[1..] == [] && Join(parts) == parts[0] + [] == parts[0];
      assert ps[1..] == [] && [gathered + parts[0]] + [] == [gathered + parts[0]];
    } else {
      RestOfTrain(fuLen, gathered + parts[0], nalHeader, parts[1..]);
      assert [] + [gathered + parts[0] + Join(parts[1..])] == [gathered + parts[0] + Join(parts[1..])];
      Assoc(gathered, parts[0], Join(parts[1..]));
    }
  }

  /**
    From any gathered bytes, a complete FU-A train pushes at most the leftover and
    then exactly its NAL unit, and leaves nothing gathered.
  */
  lemma TrainPushesNal(fuLen: nat, gathered: Bytes, nal: Bytes, parts: seq<Bytes>)
    requires |gathered| <= fuLen && ValidSent(Fragmented(nal, parts)) && |nal| <= fuLen
    ensures var ps := Fragments(nal[0], parts, true);
            && AllFit(fuLen, gathered, ps)
            && FeedAll(fuLen, gathered, ps) == ([], (if gathered == [] then [] else [gathered]) + [nal])
  {
    var ps := Fragments(nal[0], parts, true);
    FuBits(nal[0], true, false);
    assert ps[0][2..] == parts[0] && ps[1..] == Fragments(nal[0], parts[1..], false);
    RestOfTrain(fuLen, [nal[0]] + parts[0], nal[0], parts[1..]);
    Assoc([nal[0]], parts[0], Join(parts[1..]));
    assert [nal[0]] + nal[1..] == nal;
  }

  function AllPayloads(us: seq<Sent>): seq<Bytes>
    requires forall u | u in us :: ValidSent(u)
  {
    if us == [] then [] else Payloads(us[0]) + AllPayloads(us[1..])
  }

  function Nals(us: seq<Sent>): seq<Bytes> {
    if us == [] then [] else [us[0].nal] + Nals(us[1..])
  }

  /** Depacketizing what the packetizer sends gives back the NAL units, in order, and nothing else. */
  lemma {:induction false} RoundTrip(fuLen: nat, us: seq<Sent>)
    requires forall u | u in us :: ValidSent(u) && (u.Fragmented? ==> |u.nal| <= fuLen)
    ensures AllFit(fuLen, [], AllPayloads(us))
    ensures FeedAll(fuLen, [], AllPayloads(us)) == ([], Nals(us))
  {
    if us != [] {
      var u := us[0];
      if u.Fragmented? {
        TrainPushesNal(fuLen, [], u.nal, u.parts);
        assert [] + [u.nal] == [u.nal];
      } else {
        assert FeedAll(fuLen, [], [u.nal]) == ([], [u.nal] + []);
      }
      RoundTrip(fuLen, us[1..]);
      FeedConcat(fuLen, [], Payloads(u), AllPayloads(us[1..]));
    }
  }

  // Byte accounting.

  function Total(frames: seq<Bytes>): nat {
    if frames == [] then 0 else |frames[0]| + Total(frames[1..])
  }

  lemma {:induction false} TotalConcat(a: seq<Bytes>, b: seq<Bytes>)
    ensures Total(a + b) == Total(a) + Total(b)
  {
    if a == [] {
      assert a + b == b;
    } else {
      assert (a + b)[1..] == a[1..] + b;
      TotalConcat(a[1..], b);
    }
  }

  /** What a payload adds: a whole unit, or a fragment body and one rebuilt header per start fragment. */
  function Brought(p: Bytes): nat
    requires LongEnough(p)
  {
    match GetNalType(p[0])
    case Single => |p|
    case FuA => |p| - 2 + if IsStart(p) then 1 else 0
    case _ => 0
  }

  /** What the full-buffer branch throws away. */
  function Cut(fuLen: nat, gathered: Bytes, p: Bytes): nat {
    if IsMiddle(p) && |gathered| + |p| - 2 > fuLen then |gathered| + |p| - 2 - fuLen else 0
  }

  function TotalBrought(ps: seq<Bytes>): nat
    requires forall p | p in ps :: LongEnough(p)
  {
    if ps == [] then 0 else Brought(ps[0]) + TotalBrought(ps[1..])
  }

  function TotalCut(fuLen: nat, gathered: Bytes, ps: seq<Bytes>): int
    requires |gathered| <= fuLen && AllFit(fuLen, gathered, ps)
    decreases |ps|
  {
    if ps == [] then 0 else
    Cut(fuLen, gathered, ps[0]) + TotalCut(fuLen, Feed(fuLen, gathered, ps[0]).0, ps[1..])
  }

  /** Over any payloads whose unchecked copies fit, no byte is lost except at the full-buffer branch. */
  lemma {:induction false} BytesAreConserved(fuLen: nat, gathered: Bytes, ps: seq<Bytes>)
    requires |gathered| <= fuLen && AllFit(fuLen, gathered, ps)
    ensures forall p | p in ps :: LongEnough(p)
    ensures var (last, pushed) := FeedAll(fuLen, gathered, ps);
            Total(pushed) + |last| == |gathered| + TotalBrought(ps) - TotalCut(fuLen, gathered, ps)
    decreases |ps|
  {
    if ps != [] {
      var (next, pushed) := Feed(fuLen, gathered, ps[0]);
      BytesAreConserved(fuLen, next, ps[1..]);
      TotalConcat(pushed, FeedAll(fuLen, next, ps[1..]).1);
    }
  }

  // Loss: any packets may be missing, the rest arrive in order.

  /** The payloads kept, chosen one by one. */
  function Kept(ps: seq<Bytes>, keep: seq<bool>): seq<Bytes>
    requires |keep| == |ps|
  {
    if ps == [] then [] else
    (if keep[0] then [ps[0]] else []) + Kept(ps[1..], keep[1..])
  }

  predicate KeepsFor(us: seq<Sent>, keeps: seq<seq<bool>>) {
    && (forall u | u in us :: ValidSent(u))
    && |keeps| == |us| && forall i | 0 <= i < |us| :: |keeps[i]| == |Payloads(us[i])|
  }

  /** What arrives of a whole transmission. */
  function Received(us: seq<Sent>, keeps: seq<seq<bool>>): seq<Bytes>
    requires KeepsFor(us, keeps)
  {
    if us == [] then [] else Kept(Payloads(us[0]), keeps[0]) + Received(us[1..], keeps[1..])
  }

  predicate AllKept(keep: seq<bool>) {
    forall i | 0 <= i < |keep| :: keep[i]
  }

  /** The NAL units none of whose payloads is lost. */
  function Complete(us: seq<Sent>, keeps: seq<seq<bool>>): seq<Bytes>
    requires |keeps| == |us|
  {
    if us == [] then [] else (if AllKept(keeps[0]) then [us[0].nal] else []) + Complete(us[1..], keeps[1..])
  }

  /** Whether the bytes from one start fragment to the next, all of them, fit in mFUBuffer. */
  predicate StretchesFit(fuLen: nat, since: nat, ps: seq<Bytes>)
    decreases |ps|
  {
    ps == [] ||
    (LongEnough(ps[0]) && Since(since, ps[0]) <= fuLen && StretchesFit(fuLen, Since(since, ps[0]), ps[1..]))
  }

  /** The fragment bytes since the last start fragment. */
  function Since(since: nat, p: Bytes): nat
    requires LongEnough(p)
  {
    if IsStart(p) then 1 + |p| - 2 else if GetNalType(p[0]).FuA? then since + |p| - 2 else since
  }

  function SinceAll(since: nat, ps: seq<Bytes>): nat
    requires forall p | p in ps :: LongEnough(p)
    decreases |ps|
  {
    if ps == [] then since else SinceAll(Since(since, ps[0]), ps[1..])
  }

  /** Then every unchecked copy fits and the full-buffer branch is never taken. */
  lemma {:induction false} StretchesAreSafe(fuLen: nat, since: nat, gathered: Bytes, ps: seq<Bytes>)
    requires |gathered| <= since <= fuLen && StretchesFit(fuLen, since, ps)
    ensures forall p | p in ps :: LongEnough(p)
    ensures AllFit(fuLen, gathered, ps) && TotalCut(fuLen, gathered, ps) == 0
    ensures |FeedAll(fuLen, gathered, ps).0| <= SinceAll(since, ps) <= fuLen
    decreases |ps|
  {
    if ps != [] {
      StretchesAreSafe(fuLen, Since(since, ps[0]), Feed(fuLen, gathered, ps[0]).0, ps[1..]);
    }
  }

  lemma {:induction false} StretchesConcat(fuLen: nat, since: nat, a: seq<Bytes>, b: seq<Bytes>)
    requires StretchesFit(fuLen, since, a + b)
    ensures StretchesFit(fuLen, since, a) && forall p | p in a :: LongEnough(p)
    ensures StretchesFit(fuLen, SinceAll(since, a), b)
    decreases |a|
  {
    if a == [] {
      assert a + b == b;
    } else {
      assert (a + b)[1..] == a[1..] + b;
      StretchesConcat(fuLen, Since(since, a[0]), a[1..], b);
    }
  }

  lemma {:induction false} KeptAll(ps: seq<Bytes>, keep: seq<bool>)
    requires |keep| == |ps| && AllKept(keep)
    ensures Kept(ps, keep) == ps
  {
    if ps != [] {
      KeptAll(ps[1..], keep[1..]);
      assert [ps[0]] + ps[1..] == ps;
    }
  }

  /** A train that fits its stretch is no longer than mFUBuffer. */
  lemma {:induction false} RestOfTrainSince(fuLen: nat, since: nat, nalHeader: Byte, parts: seq<Bytes>)
    requires StretchesFit(fuLen, since, Fragments(nalHeader, parts, false)) && since <= fuLen
    ensures since + |Join(parts)| <= fuLen
    decreases |parts|
  {
    if parts != [] {
      var ps := Fragments(nalHeader, parts, false);
      FuBits(nalHeader, false, |parts| == 1);
      assert ps[1..] == Fragments(nalHeader, parts[1..], false);
      RestOfTrainSince(fuLen, since + |parts[0]|, nalHeader, parts[1..]);
    }
  }

  lemma TrainSince(fuLen: nat, since: nat, u: Sent)
    requires ValidSent(u) && u.Fragmented? && StretchesFit(fuLen, since, Payloads(u))
    ensures |u.nal| <= fuLen
  {
    var ps := Payloads(u);
    FuBits(u.nal[0], true, false);
    assert ps[1..] == Fragments(u.nal[0], u.parts[1..], false);
    RestOfTrainSince(fuLen, 1 + |u.parts[0]|, u.nal[0], u.parts[1..]);
  }

  ghost predicate Subsequence(xs: seq<Bytes>, ys: seq<Bytes>)
    decreases |ys|
  {
    xs == [] ||
    (ys != [] && ((xs[0] == ys[0] && Subsequence(xs[1..], ys[1..])) || Subsequence(xs, ys[1..])))
  }

  lemma {:induction false} SubsequenceAfter(xs: seq<Bytes>, before: seq<Bytes>, ys: seq<Bytes>)
    requires Subsequence(xs, ys)
    ensures Subsequence(xs, before + ys)
    decreases |before|
  {
    if before == [] {
      assert before + ys == ys;
    } else {
      assert (before + ys)[1..] == before[1..] + ys;
      SubsequenceAfter(xs, before[1..], ys);
    }
  }

  /** A unit that arrives completely ends its output with its NAL unit, whatever was gathered before. */
  lemma CompleteUnitPushes(fuLen: nat, since: nat, gathered: Bytes, u: Sent)
    requires ValidSent(u) && |gathered| <= fuLen && StretchesFit(fuLen, since, Payloads(u))
    ensures AllFit(fuLen, gathered, Payloads(u))
    ensures exists leftover :: FeedAll(fuLen, gathered, Payloads(u)).1 == leftover + [u.nal]
  {
    if u.Fragmented? {
      TrainSince(fuLen, since, u);
      TrainPushesNal(fuLen, gathered, u.nal, u.parts);
    } else {
      assert FeedAll(fuLen, gathered, [u.nal]).1 == [u.nal] + [] == [] + [u.nal];
    }
  }

  /**
    Resynchronisation: whatever packets are lost, as long as the bytes between two
    start fragments fit in mFUBuffer, every NAL unit all of whose packets arrive is
    pushed verbatim, in order.
  */
  lemma {:induction false} CompleteUnitsSurviveLoss(fuLen: nat, since: nat, gathered: Bytes, us: seq<Sent>,
                                                    keeps: seq<seq<bool>>)
    requires KeepsFor(us, keeps) && |gathered| <= since <= fuLen
    requires StretchesFit(fuLen, since, Received(us, keeps))
    ensures AllFit(fuLen, gathered, Received(us, keeps))
    ensures Subsequence(Complete(us, keeps), FeedAll(fuLen, gathered, Received(us, keeps)).1)
    decreases |us|
  {
    if us != [] {
      var first, rest := Kept(Payloads(us[0]), keeps[0]), Received(us[1..], keeps[1..]);
      StretchesConcat(fuLen, since, first, rest);
      StretchesAreSafe(fuLen, since, gathered, first);
      var (mid, pushed) := FeedAll(fuLen, gathered, first);
      CompleteUnitsSurviveLoss(fuLen, SinceAll(since, first), mid, us[1..], keeps[1..]);
      FeedConcat(fuLen, gathered, first, rest);
      var later := FeedAll(fuLen, mid, rest).1;
      var complete := Complete(us[1..], keeps[1..]);
      if AllKept(keeps[0]) {
        KeptAll(Payloads(us[0]), keeps[0]);
        CompleteUnitPushes(fuLen, since, gathered, us[0]);
        var leftover :| pushed == leftover + [us[0].nal];
        assert ([us[0].nal] + complete)[1..] == complete && ([us[0].nal] + later)[1..] == later;
        SubsequenceAfter([us[0].nal] + complete, leftover, [us[0].nal] + later);
        Assoc(leftover, [us[0].nal], later);
      } else {
        SubsequenceAfter(complete, pushed, later);
        assert [] + complete == complete;
      }
    }
  }
}
