/**
  cRTSPClient.cpp: the session of api_init as a state machine against any server.
  What the sockets, the RTP client and the server do is given from outside. Where
  the source would leave one of its buffers the model stops with Overrun.
*/
module RtspSession {
  import opened Common
  import opened RtspText
  import opened RtspScan
  import opened RtspReplySpec
  import opened RtspReply
  import opened RtspPrinted
  import opened RtspProtocol
  import RtspReplies
  import Sdp
  import SdpSpec

  datatype Outcome = Success | Error | Overrun

  /** The RTP client: the server port it is connected to, and whether rtp_start has been called. */
  datatype Rtp = Rtp(port: Option<nat>, started: bool)

  /** The type of m_port. The port comes in network byte order and is not converted, so it may be negative. */
  type Int16 = x: int | -0x8000 <= x < 0x8000

  /** What happens outside: connections, the RTP client's answers, and the server's reply to each request. */
  datatype World = World(
    connects: bool, rtpInit: bool, udpPort: Int16, udpConnects: bool, rtpStarts: bool,
    options: seq<char>, describe: seq<char>, setup: seq<char>, play: seq<char>, wild: string)

  /** One request: the lines it is built from and the bytes that go out. */
  datatype Sent = Sent(request: Request, cseq: nat, lines: seq<string>, bytes: string)

  const ORDER := [OPTIONS, DESCRIBE, SETUP, PLAY]
  const RTSP_BUFFER_LEN := 2048
  const SEND_LEN := 256

  /** snprintf into a buffer of 256 bytes. */
  function Cut(s: string): (r: string)
    ensures |r| <= 255 && r <= s && (|s| <= 255 ==> r == s)
  {
    s[..Min(|s|, 255)]
  }

  function CSeqLine(cseq: nat): string {
    "CSeq:" + Decimal(cseq)
  }

  /** How snprintf prints a control path that was never found. */
  function Printable(path: Option<string>): string {
    if path.Some? then path.value else "(null)"
  }

  function OptionsLines(url: string, cseq: nat): seq<string> {
    [Cut("OPTIONS " + url + " RTSP/1.0"), CSeqLine(cseq)]
  }

  function DescribeLines(url: string, cseq: nat): seq<string> {
    [Cut("DESCRIBE " + url + " RTSP/1.0"), CSeqLine(cseq)]
  }

  /** %d */
  function Signed(n: int): string {
    if n < 0 then "-" + Decimal(-n) else Decimal(n)
  }

  function SetupLines(path: Option<string>, cseq: nat, port: Int16): seq<string> {
    [Cut("SETUP " + Printable(path) + " RTSP/1.0"), CSeqLine(cseq),
     Cut("Transport:RTP/AVP;unicast;client_port=" + Signed(port) + "-" + Signed(port + 1))]
  }

  function PlayLines(url: string, cseq: nat, id: string): seq<string> {
    [Cut("PLAY " + url + " RTSP/1.0"), CSeqLine(cseq), "nRange:npt=0.000-", Cut("Session:" + id)]
  }

  /** What the client has read of a reply. */
  function Received(reply: seq<char>): (r: seq<char>)
    ensures r <= reply && |r| == Min(|reply|, 2048)
  {
    reply[..Min(|reply|, RTSP_BUFFER_LEN)]
  }

  /** A reply with status 200 and no CSeq header that differs from the request's. */
  predicate GoodReply(reply: seq<char>, cseq: nat, wild: string) {
    var (status, rest) := StatusLine(ReplyText(Received(reply)));
    ResponseCode(status) == Some(200) && AllAccepted(HeaderLines(rest), cseq, wild)
  }

  /** What a reply to one request leaves in the reply members. */
  function Left(r: Reply, reply: seq<char>, request: Request, cseq: nat, wild: string): Reply {
    ParseReply(r, ReplyText(Received(reply)), request, cseq, wild).0
  }

  function AfterDescribe(r: Reply, w: World): Reply {
    Left(Left(r, w.options, OPTIONS, 1, w.wild), w.describe, DESCRIBE, 2, w.wild)
  }

  function AfterSetup(r: Reply, w: World): Reply {
    Left(AfterDescribe(r, w), w.setup, SETUP, 3, w.wild)
  }

  /**
    Where the source would leave one of its buffers: the lines that fit leave no room
    for the blank one, the reply is empty, or the session identifier is too long.
  */
  predicate Overruns(lines: seq<string>, reply: seq<char>, request: Request, left: Reply) {
    |Joined(Kept(lines, 256))| > 254 || reply == [] || (request == SETUP && |left.sessionId| >= 64)
  }

  /** parse_rtsp_url: address and port. */
  function ParseUrl(url: string): Option<(string, nat)> {
    if |url| + 1 > 128 || !StartsWith(url, "rtsp://") then None else
    var ip := Until(url[7..], c => c == ':');
    if ip.0 == "" || ip.1 == "" then None else
    var port := Number(ip.1[1..], UINT);
    if port.None? || Token(port.value.1).None? then None else Some((ip.0, port.value.0))
  }

  predicate Fits(lines: seq<string>) {
    |Printed(lines)| <= SEND_LEN
  }

  /** A request is built from all its lines exactly when they fit; otherwise some line is silently missing. */
  lemma {:induction false} CompleteIffItFits(lines: seq<string>, n: int)
    requires n >= 0
    ensures Kept(lines, n) == lines <==> |Joined(lines)| <= n
    ensures |Joined(Kept(lines, n))| <= n && |Kept(lines, n)| <= |lines|
    decreases |lines|
  {
    if lines != [] {
      var l := lines[0];
      if |l| + 2 <= n {
        CompleteIffItFits(lines[1..], n - |l| - 2);
        assert lines == [l] + lines[1..];
        assert ([l] + Kept(lines[1..], n - |l| - 2))[1..] == Kept(lines[1..], n - |l| - 2);
      } else {
        CompleteIffItFits(lines[1..], n);
      }
    }
  }

  /** A request as it goes out: the lines that fit, then the blank line. */
  function Asked(request: Request, cseq: nat, lines: seq<string>): Sent {
    Sent(request, cseq, lines, Joined(Kept(lines, SEND_LEN)) + "\r\n")
  }

  class Client {
    var mUrl: string
    var serverIp: string
    var serverPort: nat
    var mCseq: nat
    const pr: Protocol
    var pRTP: Option<Rtp>
    ghost var sent: seq<Sent>

    /** A fresh client; the reply members hold whatever r says. */
    constructor (r: Reply)
      ensures fresh(pr) && fresh(pr.mSendbuf) && Valid() && mCseq == 1 && pRTP.None? && sent == []
    {
      mUrl, serverIp, serverPort, mCseq, pRTP, sent := "", "", 0, 1, None, [];
      pr := new Protocol(SEND_LEN, r);
    }

    ghost predicate Valid()
      reads this, pr
    {
      pr.Valid() && pr.mSendbuf.Length == SEND_LEN
    }

    /** Builds a request, sends it, and parses the server's reply. */
    method RtspRequest(request: Request, lines: seq<string>, reply: seq<char>, wild: string) returns (r: Outcome)
      requires Valid()
      modifies this`mCseq, this`sent, pr, pr.mSendbuf
      ensures Valid()
      ensures sent == old(sent) + [Asked(request, old(mCseq), lines)] || (r == Overrun && sent == old(sent))
      ensures r == Overrun ==>
                pr.Answer() in {old(pr.Answer()),
                    ParseReply(old(pr.Answer()), ReplyText(Received(reply)), request, old(mCseq), wild).0}
      ensures r != Overrun ==>
                && mCseq == old(mCseq) + 1
                && (pr.Answer(), r == Success) == ParseReply(old(pr.Answer()), ReplyText(Received(reply)), request,
                    old(mCseq), wild)
                && pr.Answer() == Left(old(pr.Answer()), reply, request, old(mCseq), wild)
      ensures r == Overrun <==>
                Overruns(lines, reply, request, Left(old(pr.Answer()), reply, request, old(mCseq), wild))
    {
      pr.BegainCmd();
      pr.AddLines(lines);
      if pr.mSendOffset + 2 > pr.mSendbuf.Length {
        return Overrun;
      }
      pr.EndCmd();
      assert "" + Joined(Kept(lines, SEND_LEN)) == Joined(Kept(lines, SEND_LEN));
      sent := sent + [Sent(request, mCseq, lines, pr.Request())];
      if reply == [] {
        return Overrun;
      }
      var buf := new char[RTSP_BUFFER_LEN](_ => '\0');
      var dataAll := Min(|reply|, RTSP_BUFFER_LEN);
      forall i | 0 <= i < dataAll {
        buf[i] := reply[i];
      }
      assert buf[..dataAll] == Received(reply);
      var ok := pr.Parse(buf, dataAll, request, mCseq, wild);
      mCseq := mCseq + 1;
      if request == SETUP && |pr.fSessionId| >= SESSION_ID_LEN {
        return Overrun;
      }
      return if ok then Success else Error;
    }

    method RequestOptions(w: World) returns (r: Outcome)
      requires Valid()
      modifies this`mCseq, this`sent, pr, pr.mSendbuf
      ensures Valid() && r != Error
      ensures sent == old(sent) + [Asked(OPTIONS, old(mCseq), OptionsLines(mUrl, old(mCseq)))]
              || (r == Overrun && sent == old(sent))
      ensures r != Overrun ==> mCseq == old(mCseq) + 1 && |sent| > |old(sent)|
      ensures var left := Left(old(pr.Answer()), w.options, OPTIONS, old(mCseq), w.wild);
              && (r != Overrun ==> pr.Answer() == left)
              && (r == Overrun <==> Overruns(OptionsLines(mUrl, old(mCseq)), w.options, OPTIONS, left))
    {
      r := RtspRequest(OPTIONS, OptionsLines(mUrl, mCseq), w.options, w.wild);
      if r == Error {
        r := Success;
      }
    }

    /** request_describe and after_describe. */
    method RequestDescribe(w: World) returns (r: Outcome)
      requires Valid()
      modifies this`mCseq, this`sent, this`pRTP, pr, pr.mSendbuf
      ensures Valid()
      ensures sent == old(sent) + [Asked(DESCRIBE, old(mCseq), DescribeLines(mUrl, old(mCseq)))]
              || (r == Overrun && sent == old(sent))
      ensures r != Overrun ==> mCseq == old(mCseq) + 1
      ensures r != Overrun ==> (r == Success <==> GoodReply(w.describe, old(mCseq), w.wild) && w.rtpInit)
      ensures var left := Left(old(pr.Answer()), w.describe, DESCRIBE, old(mCseq), w.wild);
              && (r != Overrun ==> pr.Answer() == left && |sent| > |old(sent)|)
              && (r == Overrun <==> Overruns(DescribeLines(mUrl, old(mCseq)), w.describe, DESCRIBE, left))
      ensures pRTP == old(pRTP) || pRTP == Some(Rtp(None, false))
      ensures r == Success ==> pRTP.Some?
    {
      r := RtspRequest(DESCRIBE, DescribeLines(mUrl, mCseq), w.describe, w.wild);
      SucceedsExactly(old(pr.Answer()), ReplyText(Received(w.describe)), DESCRIBE, old(mCseq), w.wild);
      if r == Success {
        if pr.respondCode == 200 {
          pRTP := Some(Rtp(None, false));
          r := if w.rtpInit then Success else Error;
        } else {
          r := Error;
        }
      }
    }

    /** request_setup and after_setup. */
    method RequestSetup(w: World) returns (r: Outcome)
      requires Valid() && pRTP.Some?
      modifies this`mCseq, this`sent, this`pRTP, pr, pr.mSendbuf
      ensures Valid()
      ensures sent == old(sent) + [Asked(SETUP, old(mCseq), SetupLines(old(pr.fControlPath), old(mCseq), w.udpPort))]
              || (r == Overrun && sent == old(sent))
      ensures r != Overrun ==> mCseq == old(mCseq) + 1
      ensures r != Overrun ==> (r == Success <==> GoodReply(w.setup, old(mCseq), w.wild) && w.udpConnects)
      ensures var left := Left(old(pr.Answer()), w.setup, SETUP, old(mCseq), w.wild);
              var lines := SetupLines(old(pr.fControlPath), old(mCseq), w.udpPort);
              && (r != Overrun ==> pr.Answer() == left && |sent| > |old(sent)|)
              && (r == Overrun <==> Overruns(lines, w.setup, SETUP, left))
      ensures pRTP.Some? && pRTP.value.started == old(pRTP.value.started)
      ensures r == Success ==> pRTP.value.port == Some(pr.serverPortNum)
    {
      r := RtspRequest(SETUP, SetupLines(pr.fControlPath, mCseq, w.udpPort), w.setup, w.wild);
      SucceedsExactly(old(pr.Answer()), ReplyText(Received(w.setup)), SETUP, old(mCseq), w.wild);
      if r == Success {
        if pr.respondCode == 200 && w.udpConnects {
          pRTP := Some(pRTP.value.(port := Some(pr.serverPortNum)));
        } else {
          r := Error;
        }
      }
    }

    /** request_play and after_play: rtp_start is called exactly after a good reply, and may fail. */
    method RequestPlay(w: World) returns (r: Outcome)
      requires Valid() && pRTP.Some?
      modifies this`mCseq, this`sent, this`pRTP, pr, pr.mSendbuf
      ensures Valid()
      ensures sent == old(sent) + [Asked(PLAY, old(mCseq), PlayLines(mUrl, old(mCseq), old(pr.fSessionId)))]
              || (r == Overrun && sent == old(sent))
      ensures pRTP.Some? && pRTP.value.port == old(pRTP.value.port)
      ensures r == Overrun ==> pRTP == old(pRTP)
      ensures r != Overrun ==>
                && (pRTP.value.started <==> old(pRTP.value.started) || GoodReply(w.play, old(mCseq), w.wild))
                && (r == Success <==> GoodReply(w.play, old(mCseq), w.wild) && w.rtpStarts)
      ensures var left := Left(old(pr.Answer()), w.play, PLAY, old(mCseq), w.wild);
              && (r != Overrun ==> pr.Answer() == left && |sent| > |old(sent)|)
              && (r == Overrun <==> Overruns(PlayLines(mUrl, old(mCseq), old(pr.fSessionId)), w.play, PLAY, left))
    {
      r := RtspRequest(PLAY, PlayLines(mUrl, mCseq, pr.fSessionId), w.play, w.wild);
      SucceedsExactly(old(pr.Answer()), ReplyText(Received(w.play)), PLAY, old(mCseq), w.wild);
      if r == Success {
        pRTP := Some(pRTP.value.(started := true));
        r := if w.rtpStarts then Success else Error;
      }
    }

    /** The first half of api_init. */
    method OptionsAndDescribe(w: World) returns (r: Outcome)
      requires Valid() && mCseq == 1 && sent == [] && pRTP.None?
      modifies this`mCseq, this`sent, this`pRTP, pr, pr.mSendbuf
      ensures Valid() && sent <= FirstTwo(mUrl) && (pRTP.Some? ==> !pRTP.value.started)
      ensures r == Success ==> sent == FirstTwo(mUrl) && mCseq == 3 && pRTP.Some?
      ensures r == Success ==> pr.Answer() == AfterDescribe(old(pr.Answer()), w)
      ensures r != Overrun ==> |sent| == 2
      ensures r == Overrun <==> EarlyOverrun(mUrl, old(pr.Answer()), w)
      ensures r != Overrun ==> (r == Success <==> GoodReply(w.describe, 2, w.wild) && w.rtpInit)
    {
      r := RequestOptions(w);
      if r == Success {
        r := RequestDescribe(w);
      }
    }

    /** The second half of api_init. */
    method SetupAndPlay(w: World) returns (r: Outcome)
      requires Valid() && mCseq == 3 && pRTP.Some? && !pRTP.value.started
      modifies this`mCseq, this`sent, this`pRTP, pr, pr.mSendbuf
      ensures Valid()
      ensures pRTP.Some? && old(sent) <= sent
      ensures var after := Left(old(pr.Answer()), w.setup, SETUP, 3, w.wild);
              && sent <= old(sent) + LastTwo(mUrl, old(pr.fControlPath), w.udpPort, after.sessionId)
              && (r == Success ==> pRTP == Some(Rtp(Some(after.serverPortNum), true)))
              && (r != Overrun ==>
                    |sent| == |old(sent)| + if GoodReply(w.setup, 3, w.wild) && w.udpConnects then 2 else 1)
              && (r == Overrun <==> LateOverrun(mUrl, old(pr.Answer()), w))
      ensures pRTP.value.started ==> |sent| == |old(sent)| + 2
      ensures r == Overrun ==> !pRTP.value.started
      ensures r != Overrun ==>
                (pRTP.value.started <==> GoodReply(w.setup, 3, w.wild) && w.udpConnects && GoodReply(w.play, 4, w.wild))
      ensures r != Overrun ==>
                (r == Success <==>
                 GoodReply(w.setup, 3, w.wild) && w.udpConnects && GoodReply(w.play, 4, w.wild) && w.rtpStarts)
    {
      r := RequestSetup(w);
      if r == Success {
        r := RequestPlay(w);
      }
    }

    /** The four requests of api_init, one after the other as long as they succeed. */
    method Negotiate(w: World) returns (r: Outcome)
      requires Valid() && mCseq == 1 && sent == [] && pRTP.None?
      modifies this`mCseq, this`sent, this`pRTP, pr, pr.mSendbuf
      ensures Valid()
      ensures var before, after := AfterDescribe(old(pr.Answer()), w), AfterSetup(old(pr.Answer()), w);
              && sent <= Script(mUrl, before.controlPath, w.udpPort, after.sessionId)
              && (r == Success ==> pRTP == Some(Rtp(Some(after.serverPortNum), true)))
      ensures r != Overrun ==> |sent| == HowFar(w)
      ensures r == Overrun <==> SomeOverrun(mUrl, old(pr.Answer()), w)
      ensures |sent| >= 3 ==> pRTP.Some?
      ensures pRTP.Some? && pRTP.value.started ==> |sent| == 4 && r != Overrun
      ensures r != Overrun ==> (pRTP.Some? && pRTP.value.started <==> Welcome(w))
      ensures r != Overrun ==> (r == Success <==> Welcome(w) && w.rtpStarts)
    {
      r := OptionsAndDescribe(w);
      if r == Success {
        r := SetupAndPlay(w);
      }
    }

    /** parse_rtsp_url: a URL that fits is kept even when it cannot be read. */
    method ParseRtspUrl(url: string) returns (ok: bool)
      modifies this`mUrl, this`serverIp, this`serverPort
      ensures ok <==> ParseUrl(url).Some?
      ensures ok ==> mUrl == url && (serverIp, serverPort) == ParseUrl(url).value
    {
      if |url| + 1 > 128 {
        return false;
      }
      mUrl := url;
      var address := ParseUrl(url);
      if address.Some? {
        serverIp, serverPort := address.value.0, address.value.1;
      }
      return address.Some?;
    }

    /**
      api_init of a fresh client against any server. The requests that go out are a
      prefix of OPTIONS, DESCRIBE, SETUP, PLAY with CSeq 1, 2, 3, 4, each built for its
      own number from what the replies before it said; there is an RTP client whenever
      SETUP or PLAY goes out; receiving starts only after good replies to the last
      three, from the port of the SETUP reply; and, unless a buffer is left, success is
      exactly what the last clause says.
    */
    method ApiInit(url: string, w: World) returns (r: Outcome)
      requires Valid() && mCseq == 1 && sent == [] && pRTP.None?
      modifies this, pr, pr.mSendbuf
      ensures Valid()
      ensures var before, after := AfterDescribe(old(pr.Answer()), w), AfterSetup(old(pr.Answer()), w);
              && sent <= Script(url, before.controlPath, w.udpPort, after.sessionId)
              && (r == Success ==> pRTP == Some(Rtp(Some(after.serverPortNum), true)))
      ensures var begins := ParseUrl(url).Some? && w.connects;
              && (r != Overrun ==> |sent| == if begins then HowFar(w) else 0)
              && (r == Overrun <==> begins && SomeOverrun(url, old(pr.Answer()), w))
      ensures ParseUrl(url).Some? ==> ParseUrl(url).value == (serverIp, serverPort) && mUrl == url
      ensures |sent| >= 3 ==> pRTP.Some?
      ensures pRTP.Some? && pRTP.value.started ==>
                |sent| == 4 && ParseUrl(url).Some? && w.connects && Welcome(w)
      ensures r != Overrun ==>
                (pRTP.Some? && pRTP.value.started <==> ParseUrl(url).Some? && w.connects && Welcome(w))
      ensures r != Overrun ==>
                (r == Success <==> ParseUrl(url).Some? && w.connects && Welcome(w) && w.rtpStarts)
    {
      var ok := ParseRtspUrl(url);
      if !ok || !w.connects {
        return Error;
      }
      r := Negotiate(w);
    }
  }

  /** Good replies to DESCRIBE, SETUP and PLAY, and an RTP client that starts up and connects. */
  predicate Welcome(w: World) {
    && GoodReply(w.describe, 2, w.wild) && w.rtpInit
    && GoodReply(w.setup, 3, w.wild) && w.udpConnects
    && GoodReply(w.play, 4, w.wild)
  }

  /** How many requests go out before one fails. */
  function HowFar(w: World): nat {
    if !(GoodReply(w.describe, 2, w.wild) && w.rtpInit) then 2
    else if !(GoodReply(w.setup, 3, w.wild) && w.udpConnects) then 3
    else 4
  }

  predicate EarlyOverrun(url: string, r: Reply, w: World) {
    var left := Left(r, w.options, OPTIONS, 1, w.wild);
    || Overruns(OptionsLines(url, 1), w.options, OPTIONS, left)
    || Overruns(DescribeLines(url, 2), w.describe, DESCRIBE, AfterDescribe(r, w))
  }

  predicate LateOverrun(url: string, r: Reply, w: World) {
    var left := Left(r, w.setup, SETUP, 3, w.wild);
    || Overruns(SetupLines(r.controlPath, 3, w.udpPort), w.setup, SETUP, left)
    || (GoodReply(w.setup, 3, w.wild) && w.udpConnects
        && Overruns(PlayLines(url, 4, left.sessionId), w.play, PLAY, Left(left, w.play, PLAY, 4, w.wild)))
  }

  /** Whether any request of the session, as far as it gets, overruns. */
  predicate SomeOverrun(url: string, r: Reply, w: World) {
    || EarlyOverrun(url, r, w)
    || (GoodReply(w.describe, 2, w.wild) && w.rtpInit && LateOverrun(url, AfterDescribe(r, w), w))
  }

  function FirstTwo(url: string): seq<Sent> {
    [Asked(OPTIONS, 1, OptionsLines(url, 1)), Asked(DESCRIBE, 2, DescribeLines(url, 2))]
  }

  function LastTwo(url: string, path: Option<string>, port: Int16, id: string): seq<Sent> {
    [Asked(SETUP, 3, SetupLines(path, 3, port)), Asked(PLAY, 4, PlayLines(url, 4, id))]
  }

  /** The four requests of a session. */
  function Script(url: string, path: Option<string>, port: Int16, id: string): seq<Sent> {
    FirstTwo(url) + LastTwo(url, path, port, id)
  }

  lemma ScriptIsInOrder(url: string, path: Option<string>, port: Int16, id: string, i: nat)
    requires i < 4
    ensures var s := Script(url, path, port, id);
            |s| == 4 && s[i].request == ORDER[i] && s[i].cseq == i + 1 && CSeqLine(i + 1) in s[i].lines
  {
    assert OptionsLines(url, 1)[1] == CSeqLine(1) && DescribeLines(url, 2)[1] == CSeqLine(2);
    assert SetupLines(path, 3, port)[1] == CSeqLine(3) && PlayLines(url, 4, id)[1] == CSeqLine(4);
  }

  lemma JoinedLength(lines: seq<string>)
    ensures |lines| == 2 ==> |Joined(lines)| == |lines[0]| + |lines[1]| + 4
    ensures |lines| == 3 ==> |Joined(lines)| == |lines[0]| + |lines[1]| + |lines[2]| + 6
    ensures |lines| == 4 ==> |Joined(lines)| == |lines[0]| + |lines[1]| + |lines[2]| + |lines[3]| + 8
  {
    if |lines| > 1 {
      assert Joined(lines) == lines[0] + "\r\n" + Joined(lines[1..]);
      JoinedLength(lines[1..]);
      if |lines| == 2 {
        assert Joined(lines[1..]) == lines[1] + "\r\n" + Joined(lines[1..][1..]);
      }
    }
  }

  /** A request that fits goes out complete. */
  lemma CompleteWhenItFits(request: Request, cseq: nat, lines: seq<string>)
    requires Fits(lines)
    ensures Asked(request, cseq, lines).bytes == Printed(lines)
  {
    CompleteIffItFits(lines, SEND_LEN);
  }

  /** OPTIONS, DESCRIBE and PLAY always go out complete: mUrl and fSessionId are short enough. */
  lemma ShortRequestsFit(url: string, id: string)
    requires |url| < 128 && |id| < SESSION_ID_LEN
    ensures Asked(OPTIONS, 1, OptionsLines(url, 1)).bytes == Printed(OptionsLines(url, 1))
    ensures Asked(DESCRIBE, 2, DescribeLines(url, 2)).bytes == Printed(DescribeLines(url, 2))
    ensures Asked(PLAY, 4, PlayLines(url, 4, id)).bytes == Printed(PlayLines(url, 4, id))
    ensures Fits(OptionsLines(url, 1)) && Fits(DescribeLines(url, 2)) && Fits(PlayLines(url, 4, id))
  {
    assert |CSeqLine(1)| == 6 && |CSeqLine(2)| == 6 && |CSeqLine(4)| == 6;
    JoinedLength(OptionsLines(url, 1));
    JoinedLength(DescribeLines(url, 2));
    JoinedLength(PlayLines(url, 4, id));
    CompleteWhenItFits(OPTIONS, 1, OptionsLines(url, 1));
    CompleteWhenItFits(DESCRIBE, 2, DescribeLines(url, 2));
    CompleteWhenItFits(PLAY, 4, PlayLines(url, 4, id));
  }

  lemma SetupLength(path: Option<string>, port: Int16)
    ensures Fits(SetupLines(path, 3, port)) <==> |Printable(path)| + |Signed(port)| + |Signed(port + 1)| <= 188
  {
    var lines := SetupLines(path, 3, port);
    var transport := "Transport:RTP/AVP;unicast;client_port=" + Signed(port) + "-" + Signed(port + 1);
    assert |CSeqLine(3)| == 6;
    JoinedLength(lines);
    assert |"SETUP " + Printable(path) + " RTSP/1.0"| == |Printable(path)| + 15;
    assert |transport| == 39 + |Signed(port)| + |Signed(port + 1)|;
  }

  /**
    The SETUP request goes out complete and inside its buffer exactly when the control
    path leaves room for the rest: 178 characters with ports of five characters.
  */
  lemma SetupFitsExactly(path: Option<string>, port: Int16)
    ensures var lines := SetupLines(path, 3, port);
            var bytes := Asked(SETUP, 3, lines).bytes;
            bytes == Printed(lines) && |bytes| <= SEND_LEN
            <==> |Printable(path)| + |Signed(port)| + |Signed(port + 1)| <= 188
  {
    SetupLength(path, port);
    var lines := SetupLines(path, 3, port);
    if Fits(lines) {
      CompleteWhenItFits(SETUP, 3, lines);
    }
  }

  // What goes out, in full.

  lemma SmallNumbers()
    ensures CSeqLine(1) == "CSeq:1" && CSeqLine(2) == "CSeq:2" && CSeqLine(3) == "CSeq:3" && CSeqLine(4) == "CSeq:4"
  {
  }

  /** The lines of OPTIONS, DESCRIBE and PLAY in a session, which go out complete. */
  lemma ShortRequestTexts(url: string, path: Option<string>, port: Int16, id: string)
    requires |url| < 128 && |id| < 64
    ensures var s := Script(url, path, port, id);
            && s[0].bytes == Printed(["OPTIONS " + url + " RTSP/1.0", "CSeq:1"])
            && s[1].bytes == Printed(["DESCRIBE " + url + " RTSP/1.0", "CSeq:2"])
            && s[3].bytes == Printed(["PLAY " + url + " RTSP/1.0", "CSeq:4", "nRange:npt=0.000-", "Session:" + id])
  {
    SmallNumbers();
    ShortRequestsFit(url, id);
  }

  /** The lines of SETUP, when they fit; the port is printed with its sign. */
  lemma SetupRequestText(url: string, path: string, port: Int16, id: string, first: string, second: string)
    requires var p: int := port;
             && first == (if p < 0 then "-" + Decimal(-p) else Decimal(p))
             && second == (if p + 1 < 0 then "-" + Decimal(-p - 1) else Decimal(p + 1))
    requires |path| + |first| + |second| <= 188
    ensures Script(url, Some(path), port, id)[2].bytes
            == Printed(["SETUP " + path + " RTSP/1.0", "CSeq:3",
                        "Transport:RTP/AVP;unicast;client_port=" + first + "-" + second])
  {
    SmallNumbers();
    SetupFitsExactly(Some(path), port);
  }

  // Addresses.

  /** A URL as the source expects it. */
  lemma UrlIsRead(scheme: string, host: string, port: nat, path: string)
    requires Named(scheme, "rtsp://") && |scheme| == 7 && host != "" && ':' !in host
    requires port < ULONG && Word(path) && NoDigitFirst(path)
    requires |scheme + (host + (":" + (Decimal(port) + path)))| <= 127
    ensures ParseUrl(scheme + (host + (":" + (Decimal(port) + path)))) == Some((host, port % 0x1_0000_0000))
  {
    var url := scheme + (host + (":" + (Decimal(port) + path)));
    assert url[..7] == scheme && url[7..] == host + (":" + (Decimal(port) + path));
    assert Named(url, "rtsp://") by {
      assert forall i | 0 <= i < 7 :: url[i] == scheme[i];
    }
    NamedIsStartsWith(url, "rtsp://");
    var colon: char -> bool := c => c == ':';
    assert forall i | 0 <= i < |host| :: !colon(host[i]) by {
      assert forall i | 0 <= i < |host| :: host[i] in host;
    }
    Sdp.AllUntil(host, colon, ":" + (Decimal(port) + path));
    assert (":" + (Decimal(port) + path))[1..] == Decimal(port) + path;
    NumberOfDecimal(port, path, UINT);
    WordIsRead(path, "");
    assert path + "" == path;
  }

  /** What is refused: a URL too long for mUrl, of another scheme, or without host and colon. */
  lemma UrlIsRefused(url: string)
    requires |url| > 127 || !Named(url, "rtsp://") || ':' !in url[7..] || url[7] == ':'
    ensures ParseUrl(url).None?
  {
    NamedIsStartsWith(url, "rtsp://");
    if |url| <= 127 && Named(url, "rtsp://") {
      var colon: char -> bool := c => c == ':';
      var ip := Until(url[7..], colon);
      assert url[7..] == ip.0 + ip.1;
      assert ip.1 != "" ==> url[7..][|ip.0|] == ':';
    }
  }

  // Replies.

  lemma GoodIsSuccess(r: Reply, reply: seq<char>, request: Request, cseq: nat, wild: string)
    ensures GoodReply(reply, cseq, wild) <==> ParseReply(r, ReplyText(Received(reply)), request, cseq, wild).1
  {
    SucceedsExactly(r, ReplyText(Received(reply)), request, cseq, wild);
  }

  /**
    What one reply says, the next requests use: with a DESCRIBE reply that has one
    video section and a SETUP reply that has a session and a unicast transport, both as
    a server prints them and short enough to be read, both are good, SETUP asks for the
    control path of that section, the RTP client connects to that port, and PLAY names
    that session.
  */
  lemma RepliesCarryOn(r: Reply, w: World, version: string, reason: string,
                       headers: seq<string>, session: seq<string>, sections: seq<Sdp.Section>, v: nat, path: string,
                       answers: seq<string>, si: nat, id: string, params: string, ti: nat, fields: seq<string>,
                       port: nat, status: string)
    requires Word(version) && NoDigitFirst(reason) && status == "RTSP/" + (version + (" " + ("200" + reason)))
    requires GoodHeaders([status] + headers) && CSeqsAre(headers, 2)
    requires RtspReplies.OneVideo(sections, v, path) && Sdp.GoodDoc(Sdp.Document(session, sections))
    requires w.describe == Printed([status] + headers) + SdpSpec.DocText(Sdp.Document(session, sections), "\r\n")
    requires GoodHeaders([status] + answers) && RtspReplies.SetupReply(answers, si, id, params, ti, fields, port, 3)
    requires w.setup == Printed([status] + answers)
    requires |w.describe| <= 2048 && |w.setup| <= 2048
    ensures GoodReply(w.describe, 2, w.wild) && GoodReply(w.setup, 3, w.wild)
    ensures AfterDescribe(r, w).controlPath == Some(path)
    ensures AfterSetup(r, w).serverPortNum == port && AfterSetup(r, w).sessionId == id
  {
    var r1 := Left(r, w.options, OPTIONS, 1, w.wild);
    var r2 := AfterDescribe(r, w);
    assert Received(w.describe) == w.describe && Received(w.setup) == w.setup;
    RtspReplies.DescribeRecovers(r1, version, reason, headers, session, sections, v, path, 2, w.wild);
    RtspReplies.SetupRecovers(r2, version, reason, answers, si, id, params, ti, fields, port, 3, w.wild);
    GoodIsSuccess(r1, w.describe, DESCRIBE, 2, w.wild);
    GoodIsSuccess(r2, w.setup, SETUP, 3, w.wild);
  }

  lemma FittingLines(lines: seq<string>, reply: seq<char>, request: Request, left: Reply)
    requires Fits(lines) && reply != [] && (request == SETUP ==> |left.sessionId| < 64)
    ensures !Overruns(lines, reply, request, left)
  {
    CompleteIffItFits(lines, 256);
  }

  /**
    No session overruns a buffer when every request is answered, the session identifier
    stays below 64 bytes and the control path leaves room for the rest of SETUP.
  */
  lemma NothingOverruns(url: string, r: Reply, w: World)
    requires |url| < 128 && w.options != [] && w.describe != [] && w.setup != [] && w.play != []
    requires |AfterSetup(r, w).sessionId| < 64
    requires |Printable(AfterDescribe(r, w).controlPath)| + |Signed(w.udpPort)| + |Signed(w.udpPort + 1)| <= 188
    ensures !SomeOverrun(url, r, w)
  {
    var before, after := AfterDescribe(r, w), AfterSetup(r, w);
    ShortRequestsFit(url, after.sessionId);
    SetupLength(before.controlPath, w.udpPort);
    FittingLines(OptionsLines(url, 1), w.options, OPTIONS, Left(r, w.options, OPTIONS, 1, w.wild));
    FittingLines(DescribeLines(url, 2), w.describe, DESCRIBE, before);
    FittingLines(SetupLines(before.controlPath, 3, w.udpPort), w.setup, SETUP, after);
    FittingLines(PlayLines(url, 4, after.sessionId), w.play, PLAY, Left(after, w.play, PLAY, 4, w.wild));
  }

  lemma {:induction false} DigitsOf(n: nat, k: nat)
    requires k > 0 && n < Power(10, k)
    ensures |Decimal(n)| <= k
  {
    if n >= 10 {
      DigitsOf(n / 10, k - 1);
    }
  }

  function Power(b: nat, k: nat): nat {
    if k == 0 then 1 else b * Power(b, k - 1)
  }

  /** A control path of 240 characters or more: SETUP goes out without its request line. */
  lemma LongPathIsLeftOut(path: string, port: Int16)
    requires |path| >= 240
    ensures Asked(SETUP, 3, SetupLines(Some(path), 3, port)).bytes
            == Printed(["CSeq:3", "Transport:RTP/AVP;unicast;client_port=" + Signed(port) + "-" + Signed(port + 1)])
  {
    var first := Cut("SETUP " + path + " RTSP/1.0");
    var transport := "Transport:RTP/AVP;unicast;client_port=" + Signed(port) + "-" + Signed(port + 1);
    assert |"SETUP " + path + " RTSP/1.0"| == |path| + 15;
    SmallNumbers();
    assert Power(10, 5) == 100000 by {
      assert Power(10, 1) == 10 && Power(10, 2) == 100 && Power(10, 3) == 1000 && Power(10, 4) == 10000;
    }
    DigitsOf(if port < 0 then 0 - port else port, 5);
    DigitsOf(if port + 1 < 0 then 0 - (port + 1) else port + 1, 5);
    assert |transport| == 39 + |Signed(port)| + |Signed(port + 1)|;
    assert Cut(transport) == transport;
    var lines := [first, "CSeq:3", transport];
    assert lines[1..] == ["CSeq:3", transport];
    JoinedLength(["CSeq:3", transport]);
    CompleteIffItFits(["CSeq:3", transport], 256);
  }
}
