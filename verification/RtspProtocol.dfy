/** cRTSPprotocol.cpp: the request buffer and the reply parser, in place. */
module RtspProtocol {
  import opened Common
  import opened RtspText
  import opened RtspScan
  import opened SdpSpec
  import opened RtspReplySpec

  /**
    The lines that still fit when a request is built in a buffer with room for n bytes: a line that does not is
    dropped.
  */
  function Kept(lines: seq<string>, n: int): seq<string>
    decreases |lines|
  {
    if lines == [] then []
    else if |lines[0]| + 2 > n then Kept(lines[1..], n)
    else [lines[0]] + Kept(lines[1..], n - |lines[0]| - 2)
  }

  class Protocol {
    const mSendbuf: array<char>
    var mSendOffset: nat

    // pREPLY
    var respondCode: nat
    var fControlPath: Option<string>
    var serverPortNum: nat
    var fSessionId: string

    ghost predicate Valid()
      reads this
    {
      mSendOffset <= mSendbuf.Length
    }

    /** The bytes of the request so far. */
    ghost function Request(): string
      requires Valid()
      reads this, mSendbuf
    {
      mSendbuf[..mSendOffset]
    }

    function Answer(): Reply
      reads this
    {
      Reply(respondCode, fControlPath, serverPortNum, fSessionId)
    }

    /** The reply members are not initialised: they hold whatever r says. */
    constructor (len: nat, r: Reply)
      ensures Valid() && Request() == "" && fresh(mSendbuf) && mSendbuf.Length == len && Answer() == r
    {
      mSendbuf := new char[len];
      mSendOffset := 0;
      respondCode, fControlPath, serverPortNum, fSessionId := r.respondCode, r.controlPath, r.serverPortNum,
          r.sessionId;
    }

    method BegainCmd()
      modifies this`mSendOffset, mSendbuf
      ensures Valid() && Request() == ""
    {
      forall i | 0 <= i < mSendbuf.Length {
        mSendbuf[i] := '\0';
      }
      mSendOffset := 0;
    }

    /** add_line_cmd: the line and its CRLF, or an error and no change. */
    method AddLineCmd(buf: string) returns (ok: bool)
      requires Valid()
      modifies this`mSendOffset, mSendbuf
      ensures Valid() && (ok <==> |old(Request())| + |buf| + 2 <= mSendbuf.Length)
      ensures Request() == if ok then old(Request()) + buf + "\r\n" else old(Request())
    {
      if mSendOffset + |buf| + 2 > mSendbuf.Length {
        return false;
      }
      ghost var before := Request();
      forall i | 0 <= i < |buf| {
        mSendbuf[mSendOffset + i] := buf[i];
      }
      assert mSendbuf[..mSendOffset + |buf|] == before + buf;
      mSendbuf[mSendOffset + |buf|] := '\r';
      mSendbuf[mSendOffset + |buf| + 1] := '\n';
      mSendOffset := mSendOffset + |buf| + 2;
      return true;
    }

    /** end_cmd, which does not check that there is room. */
    method EndCmd()
      requires Valid() && mSendOffset + 2 <= mSendbuf.Length
      modifies this`mSendOffset, mSendbuf
      ensures Valid() && Request() == old(Request()) + "\r\n"
    {
      mSendbuf[mSendOffset] := '\r';
      mSendbuf[mSendOffset + 1] := '\n';
      mSendOffset := mSendOffset + 2;
    }

    /** The calls between begain_cmd and end_cmd: errors are ignored, and the lines that fit are there. */
    method AddLines(lines: seq<string>)
      requires Valid()
      modifies this`mSendOffset, mSendbuf
      ensures Valid()
      ensures Request() == old(Request()) + Joined(Kept(lines, mSendbuf.Length - |old(Request())|))
    {
      var i := 0;
      ghost var start, done := Request(), [];
      while i < |lines|
        invariant i <= |lines| && Valid() && Request() == start + Joined(done)
        invariant Kept(lines, mSendbuf.Length - |start|) == done + Kept(lines[i..], mSendbuf.Length - |Request()|)
      {
        var ok := AddLineCmd(lines[i]);
        assert lines[i..][1..] == lines[i + 1..];
        if ok {
          JoinedMore(done, lines[i]);
          Assoc(start, Joined(done), lines[i]);
          Assoc(start, Joined(done) + lines[i], "\r\n");
          Assoc(done, [lines[i]], Kept(lines[i + 1..], mSendbuf.Length - |Request()|));
          done := done + [lines[i]];
        }
        i := i + 1;
      }
      assert lines[i..] == [] && done + [] == done;
    }

    /** parseTransportParams: the server port, or nothing when the header is not acceptable. */
    method ParseTransportParams(params: Option<string>) returns (serverPortNum: Option<nat>)
      ensures serverPortNum == TransportPort(params)
    {
      if params.None? {
        return None;
      }
      var server, client, multicastPort: Option<nat> := None, None, None;
      var foundChannelIds, isMulticast, foundDestination := false, true, false;
      var fields := params.value;
      var field := UpToSemicolon(fields);
      while field.Some?
        invariant field == UpToSemicolon(fields)
        invariant ReadFields(params.value, NO_TRANSPORT)
                  == ReadFields(fields, Transport(server, client, foundChannelIds, isMulticast, foundDestination,
                      multicastPort))
        decreases |fields|
      {
        var (text, rest) := field.value;
        if Assigned(text, "server_port=", USHORT).Some? {
          server := Assigned(text, "server_port=", USHORT);
        } else if Assigned(text, "client_port=", USHORT).Some? {
          client := Assigned(text, "client_port=", USHORT);
        } else if StartsWith(text, "source=") {
        } else if Interleaved(text) {
          foundChannelIds := true;
        } else if text == "unicast" {
          isMulticast := false;
        } else if StartsWith(text, "destination=") {
          foundDestination := true;
        } else if Assigned(text, "port=", USHORT).Some? {
          multicastPort := Assigned(text, "port=", USHORT);
        }
        fields := SkipSemicolons(rest);
        field := UpToSemicolon(fields);
      }
      if isMulticast && foundDestination && multicastPort.Some? {
        return multicastPort;
      }
      if foundChannelIds || server.Some? || client.Some? {
        serverPortNum := if server.Some? then server else Some(0);
        if client.Some? && server.None? {
          serverPortNum := client;
        }
        return;
      }
      return None;
    }

    /** parseSDP */
    method ParseSDP(sdpDescription: string)
      modifies this`fControlPath
      ensures fControlPath == Media(FirstMedia(sdpDescription), old(fControlPath))
    {
      var sdpLine := Some(sdpDescription);
      while true
        invariant sdpLine.Some? && fControlPath == old(fControlPath)
        invariant FirstMedia(sdpDescription) == FirstMedia(sdpLine.value)
        decreases |sdpLine.value|
      {
        if !ValidLine(sdpLine.value) {
          return;
        }
        if sdpLine.value[0] == 'm' {
          break;
        }
        var next := NextLine(sdpLine.value);
        if next.None? {
          return;
        }
        sdpLine := next;
      }
      ghost var result := Media(sdpLine, fControlPath);
      while sdpLine.Some?
        invariant result == Media(sdpLine, fControlPath)
        decreases if sdpLine.Some? then |sdpLine.value| + 1 else 0
      {
        if !ValidLine(sdpLine.value) {
          return;
        }
        var nextSDPLine := NextLine(sdpLine.value);
        if sdpLine.value[0] == 'm' && CatchVideo(sdpLine.value) {
          var valid;
          nextSDPLine, valid := VideoSection(nextSDPLine);
          if !valid {
            return;
          }
        }
        sdpLine := nextSDPLine;
      }
    }

    /** The inner loop of parseSDP: gives the line after the media line that ends the section. */
    method VideoSection(first: Option<string>) returns (next: Option<string>, valid: bool)
      modifies this`fControlPath
      ensures Video(first, old(fControlPath)) == if valid then Media(next, fControlPath) else fControlPath
      ensures next.Some? ==> first.Some? && |next.value| < |first.value|
    {
      next := first;
      while true
        invariant Video(first, old(fControlPath)) == Video(next, fControlPath)
        invariant next.Some? ==> first.Some? && |next.value| <= |first.value|
        decreases if next.Some? then |next.value| + 1 else 0
      {
        if next.None? {
          return None, true;
        }
        var sdpLine := next.value;
        next := NextLine(sdpLine);
        if !ValidLine(sdpLine) {
          return next, false;
        }
        if sdpLine[0] == 'm' {
          return next, true;
        }
        fControlPath := Control(sdpLine, fControlPath);
      }
    }

    /** The status line of parse: blank lines before it are skipped. */
    method ReadStatus(copy: array<char>) returns (status: string, next: Option<nat>)
      requires Writable(copy)
      modifies copy
      ensures Writable(copy) && (next.Some? ==> next.value < copy.Length)
      ensures (status, TextAt(copy, next)) == StatusLine(old(Text(copy, 0)))
    {
      var lineStart := 0;
      next := GetLine(copy, lineStart);
      status := Text(copy, lineStart);
      while status == "" && next.Some?
        invariant Writable(copy) && (next.Some? ==> lineStart < next.value < copy.Length)
        invariant StatusLine(old(Text(copy, 0)))
                  == if status == "" && next.Some? then StatusLine(Text(copy, next.value))
                      else (status, TextAt(copy, next))
        decreases copy.Length - lineStart
      {
        lineStart := next.value;
        next := GetLine(copy, lineStart);
        status := Text(copy, lineStart);
      }
    }

    /** The header loop of parse over the text from first on; copy is split into lines in place. */
    method ReadHeaderLines(copy: array<char>, first: Option<nat>, cseq: nat, wild: string) returns (h: Headers)
      requires Writable(copy) && (first.Some? ==> first.value < copy.Length)
      modifies copy
      ensures h == ReadHeaders(old(TextAt(copy, first)), cseq, wild, Found(None, None))
    {
      var sessionParams, transportParams: Option<string> := None, None;
      var next := first;
      while true
        invariant Writable(copy) && (next.Some? ==> next.value < copy.Length)
        invariant ReadHeaders(old(TextAt(copy, first)), cseq, wild, Found(None, None))
                  == ReadHeaders(TextAt(copy, next), cseq, wild, Found(sessionParams, transportParams))
        decreases if next.Some? then copy.Length - next.value else 0
      {
        if next.None? {
          return Headers(Found(sessionParams, transportParams), None);
        }
        var lineStart := next.value;
        next := GetLine(copy, lineStart);
        var line := Text(copy, lineStart);
        if line == "" {
          return Headers(Found(sessionParams, transportParams), TextAt(copy, next));
        }
        if StartsWith(line, "CSeq:") {
          if !CSeqFits(line, cseq, wild) {
            return BadCSeq;
          }
        } else if StartsWith(line, "Session:") {
          sessionParams := OrElse(Params(line, "Session:"), sessionParams);
        } else if StartsWith(line, "Transport:") {
          transportParams := OrElse(Params(line, "Transport:"), transportParams);
        }
      }
    }

    /**
      parse: leaves in the reply members, and returns, exactly what ParseReply says of
      the buffer's text.
    */
    method Parse(buf: array<char>, buflen: nat, request: Request, cseq: nat, wild: string) returns (ok: bool)
      requires 0 < buflen <= buf.Length
      modifies this`respondCode, this`fControlPath, this`serverPortNum, this`fSessionId
      ensures (Answer(), ok) == ParseReply(old(Answer()), old(ReplyText(buf[..buflen])), request, cseq, wild)
    {
      var headerDataCopy := CopyReply(buf, buflen);
      var lineStart, nextLineStart := ReadStatus(headerDataCopy);
      var code := ResponseCode(lineStart);
      if code.None? {
        return false;
      }
      var h := ReadHeaderLines(headerDataCopy, nextLineStart, cseq, wild);
      if h.BadCSeq? {
        return false;
      }
      respondCode := code.value;
      match request {
        case DESCRIBE =>
          fControlPath := None;
          if h.body.Some? {
            ParseSDP(h.body.value);
          }
        case SETUP =>
          serverPortNum, fSessionId := 0, "";
          var port := ParseTransportParams(h.found.transport);
          if port.Some? {
            serverPortNum := port.value;
            var id := if h.found.session.Some? then UpToSemicolon(h.found.session.value) else None;
            if id.Some? {
              fSessionId := id.value.0;
            }
          }
        case _ =>
      }
      return code.value == 200;
    }
  }

  /** The strncpy of parse and the NUL over the last byte. */
  method CopyReply(buf: array<char>, buflen: nat) returns (copy: array<char>)
    requires 0 < buflen <= buf.Length
    ensures fresh(copy) && Writable(copy) && Text(copy, 0) == ReplyText(buf[..buflen])
  {
    copy := new char[buflen];
    ghost var s := buf[..buflen];
    var n := 0;
    while n < buflen && buf[n] != '\0'
      invariant n <= buflen && copy[..n] == s[..n] && '\0' !in s[..n]
    {
      copy[n] := buf[n];
      n := n + 1;
    }
    forall i | n <= i < buflen {
      copy[i] := '\0';
    }
    copy[buflen - 1] := '\0';
    assert buf[..buflen] == s && copy[0..] == copy[..];
    CopyEnds(s, copy[..], n);
  }

  lemma CopyEnds(s: seq<char>, c: seq<char>, n: nat)
    requires |c| == |s| > 0 && n <= |s| && '\0' !in s[..n] && (n < |s| ==> s[n] == '\0')
    requires forall i | 0 <= i < |s| :: c[i] == if i < n && i < |s| - 1 then s[i] else '\0'
    ensures CString(c) == ReplyText(s)
  {
    var e := if n < |s| then n else n - 1;
    assert c[..e] == s[..e] == s[..|s| - 1][..e];
    assert forall x | x in s[..e] :: x in s[..n];
    CStringEnds(c, e);
    CStringEnds(s[..|s| - 1], e);
  }

  /** The last byte is the NUL that parse put there. */
  predicate Writable(copy: array<char>)
    reads copy
  {
    copy.Length > 0 && copy[copy.Length - 1] == '\0'
  }

  function Text(copy: array<char>, at: nat): string
    requires at <= copy.Length
    reads copy
  {
    CString(copy[at..])
  }

  function TextAt(copy: array<char>, at: Option<nat>): Option<string>
    requires at.Some? ==> at.value <= copy.Length
    reads copy
  {
    if at.Some? then Some(Text(copy, at.value)) else None
  }
}
