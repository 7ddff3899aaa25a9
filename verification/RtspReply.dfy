/** What the reply parser finds, stated on the lines of the reply. */
module RtspReply {
  import opened Common
  import opened RtspText
  import opened RtspScan
  import opened SdpSpec
  import opened RtspReplySpec

  // Success.

  /** The header lines: up to the blank line or the end of the text. */
  function HeaderLines(text: Option<string>): seq<string>
    decreases if text.Some? then |text.value| + 1 else 0
  {
    if text.None? then [] else
    var (line, rest) := SplitLine(text.value);
    if line == "" then [] else [line] + HeaderLines(rest)
  }

  /** What follows the blank line. */
  function Body(text: Option<string>): Option<string>
    decreases if text.Some? then |text.value| + 1 else 0
  {
    if text.None? then None else
    var (line, rest) := SplitLine(text.value);
    if line == "" then rest else Body(rest)
  }

  predicate Accepted(line: string, cseq: nat, wild: string) {
    StartsWith(line, "CSeq:") ==> CSeqFits(line, cseq, wild)
  }

  predicate AllAccepted(lines: seq<string>, cseq: nat, wild: string) {
    forall l | l in lines :: Accepted(l, cseq, wild)
  }

  lemma OneMoreAccepted(line: string, lines: seq<string>, cseq: nat, wild: string)
    ensures AllAccepted([line] + lines, cseq, wild) <==> Accepted(line, cseq, wild) && AllAccepted(lines, cseq, wild)
  {
    assert line in [line] + lines;
    assert forall l | l in lines :: l in [line] + lines;
  }

  function NoteLines(f: Found, lines: seq<string>): Found
    decreases |lines|
  {
    if lines == [] then f
    else NoteLines(if StartsWith(lines[0], "CSeq:") then f else Note(f, lines[0]), lines[1..])
  }

  /** The header loop fails exactly when some CSeq line does not fit; otherwise it keeps what the lines say. */
  lemma {:induction false} HeadersByLines(text: Option<string>, cseq: nat, wild: string, f: Found)
    ensures var h := ReadHeaders(text, cseq, wild, f);
            && (h.Headers? <==> AllAccepted(HeaderLines(text), cseq, wild))
            && (h.Headers? ==> h == Headers(NoteLines(f, HeaderLines(text)), Body(text)))
    decreases if text.Some? then |text.value| + 1 else 0
  {
    if text.Some? {
      var (line, rest) := SplitLine(text.value);
      if line != "" {
        var g := if StartsWith(line, "CSeq:") then f else Note(f, line);
        var ls := HeaderLines(rest);
        HeadersByLines(rest, cseq, wild, g);
        assert HeaderLines(text) == [line] + ls && ([line] + ls)[1..] == ls;
        OneMoreAccepted(line, ls, cseq, wild);
      }
    }
  }

  /**
    parse succeeds exactly when the status line is readable with code 200 and no CSeq
    header differs from the request; what else was missing does not count.
  */
  lemma SucceedsExactly(r: Reply, text: string, request: Request, cseq: nat, wild: string)
    ensures var (status, rest) := StatusLine(text);
            ParseReply(r, text, request, cseq, wild).1
            <==> ResponseCode(status) == Some(200) && AllAccepted(HeaderLines(rest), cseq, wild)
    ensures ParseReply(r, text, request, cseq, wild).1 ==> ParseReply(r, text, request, cseq, wild).0.respondCode == 200
  {
    HeadersByLines(StatusLine(text).1, cseq, wild, Found(None, None));
  }

  /** A reply with an unreadable status line or a CSeq header that does not fit changes nothing. */
  lemma RejectedReply(r: Reply, text: string, request: Request, cseq: nat, wild: string)
    requires var (status, rest) := StatusLine(text);
             ResponseCode(status).None? || !AllAccepted(HeaderLines(rest), cseq, wild)
    ensures ParseReply(r, text, request, cseq, wild) == (r, false)
  {
    HeadersByLines(StatusLine(text).1, cseq, wild, Found(None, None));
  }

  /** What an accepted reply leaves behind, whatever its status. */
  lemma AcceptedReply(r: Reply, text: string, status: string, code: nat, rest: string, request: Request, cseq: nat,
                      wild: string)
    requires StatusLine(text) == (status, Some(rest)) && ResponseCode(status) == Some(code)
    requires AllAccepted(HeaderLines(Some(rest)), cseq, wild)
    ensures ParseReply(r, text, request, cseq, wild)
            == (Special(r.(respondCode := code), request,
                Headers(NoteLines(Found(None, None), HeaderLines(Some(rest))), Body(Some(rest)))), code == 200)
  {
    HeadersByLines(Some(rest), cseq, wild, Found(None, None));
  }

  // A printed reply.

  predicate GoodHeaders(lines: seq<string>) {
    forall l | l in lines :: Plain(l) && l != ""
  }

  lemma OneJoined(line: string, lines: seq<string>, tail: string)
    requires Plain(line)
    ensures SplitLine(Joined([line] + lines) + tail) == (line, Some(Joined(lines) + tail))
  {
    assert ([line] + lines)[1..] == lines;
    Assoc(line + "\r\n", Joined(lines), tail);
    FirstLineOf(line, Joined(lines) + tail);
  }

  /** The header lines and the body of a message, whatever begins with the end of its blank line. */
  lemma {:induction false} HeadersOfJoined(headers: seq<string>, tail: string)
    requires GoodHeaders(headers) && tail != "" && tail[0] == '\r'
    ensures HeaderLines(Some(Joined(headers) + tail)) == headers
    ensures Body(Some(Joined(headers) + tail)) == SplitLine(tail).1
  {
    if headers == [] {
      assert "" + tail == tail;
    } else {
      assert headers[0] in headers && headers == [headers[0]] + headers[1..];
      assert forall l | l in headers[1..] :: l in headers;
      OneJoined(headers[0], headers[1..], tail);
      HeadersOfJoined(headers[1..], tail);
    }
  }

  predicate NoNul(s: string) {
    forall i | 0 <= i < |s| :: s[i] != '\0'
  }

  lemma {:induction false} WholeCString(s: string)
    requires NoNul(s)
    ensures CString(s) == s
  {
    if s != "" {
      WholeCString(s[1..]);
    }
  }

  lemma {:induction false} JoinedHasNoNul(lines: seq<string>, tail: string)
    requires GoodHeaders(lines) && NoNul(tail)
    ensures NoNul(Joined(lines) + tail)
  {
    if lines != [] {
      assert Plain(lines[0]);
      assert forall l | l in lines[1..] :: l in lines;
      JoinedHasNoNul(lines[1..], tail);
      Assoc(lines[0] + "\r\n", Joined(lines[1..]), tail);
    }
  }

  /** A message whose text goes on with tail after its header lines. */
  lemma MessageReads(status: string, headers: seq<string>, tail: string)
    requires GoodHeaders([status] + headers) && tail != "" && tail[0] == '\r' && NoNul(tail)
    ensures StatusLine(CString(Joined([status] + headers) + tail)) == (status, Some(Joined(headers) + tail))
    ensures HeaderLines(Some(Joined(headers) + tail)) == headers
    ensures Body(Some(Joined(headers) + tail)) == SplitLine(tail).1
  {
    var lines := [status] + headers;
    assert status in lines && forall l | l in headers :: l in lines;
    JoinedHasNoNul(lines, tail);
    WholeCString(Joined(lines) + tail);
    OneJoined(status, headers, tail);
    HeadersOfJoined(headers, tail);
  }

  lemma PrintedWithout(lines: seq<string>, body: string)
    ensures var data := Printed(lines) + body;
            ReplyText(data) == CString(Joined(lines) + (if body == "" then "\r" else "\r\n" + body[..|body| - 1]))
  {
    var data := Printed(lines) + body;
    assert data[..|data| - 1] == Joined(lines) + (if body == "" then "\r" else "\r\n" + body[..|body| - 1]);
  }

  lemma PlainReply(status: string, headers: seq<string>)
    requires GoodHeaders([status] + headers)
    ensures StatusLine(ReplyText(Printed([status] + headers))) == (status, Some(Joined(headers) + "\r"))
    ensures HeaderLines(Some(Joined(headers) + "\r")) == headers
  {
    PrintedWithout([status] + headers, "");
    assert Printed([status] + headers) + "" == Printed([status] + headers);
    MessageReads(status, headers, "\r");
  }

  /** A reply with a session description, as a server prints it. */
  lemma ReplyWithBody(status: string, headers: seq<string>, body: string)
    requires GoodHeaders([status] + headers) && body != "" && NoNul(body)
    ensures var text := Joined(headers) + ("\r\n" + body[..|body| - 1]);
            && StatusLine(ReplyText(Printed([status] + headers) + body)) == (status, Some(text))
            && HeaderLines(Some(text)) == headers && Body(Some(text)) == Some(body[..|body| - 1])
  {
    var tail := "\r\n" + body[..|body| - 1];
    assert tail[2..] == body[..|body| - 1];
    PrintedWithout([status] + headers, body);
    MessageReads(status, headers, tail);
  }
}
