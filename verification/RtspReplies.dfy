/** Whole replies: what DESCRIBE and SETUP recover from text that a server prints, in any header and field order. */
module RtspReplies {
  import opened Common
  import opened RtspText
  import opened RtspScan
  import opened RtspReplySpec
  import opened RtspReply
  import opened RtspPrinted
  import SdpSpec
  import Sdp

  /** Header i is the last one with this name. */
  predicate LastOne(headers: seq<string>, name: string, i: nat) {
    i < |headers| && StartsWith(headers[i], name) && forall j | i < j < |headers| :: !StartsWith(headers[j], name)
  }

  lemma NamesDiffer(line: string)
    ensures StartsWith(line, "Session:") ==> !StartsWith(line, "CSeq:") && !StartsWith(line, "Transport:")
    ensures StartsWith(line, "Transport:") ==> !StartsWith(line, "CSeq:")
  {
    assert Lower("Session:"[0]) == 's' && Lower("CSeq:"[0]) == 'c' && Lower("Transport:"[0]) == 't';
  }

  lemma {:induction false} OtherLinesKeep(f: Found, lines: seq<string>)
    ensures (forall l | l in lines :: !StartsWith(l, "Session:")) ==> NoteLines(f, lines).session == f.session
    ensures (forall l | l in lines :: !StartsWith(l, "Transport:")) ==> NoteLines(f, lines).transport == f.transport
    decreases |lines|
  {
    if lines != [] {
      var l := lines[0];
      NamesDiffer(l);
      OtherLinesKeep(if StartsWith(l, "CSeq:") then f else Note(f, l), lines[1..]);
      assert forall k | k in lines[1..] :: k in lines;
      assert l in lines;
    }
  }

  /** The last Session header is found wherever it stands, and so is the last Transport header. */
  lemma {:induction false} LastOneIsFound(f: Found, lines: seq<string>, i: nat)
    ensures LastOne(lines, "Session:", i) && Params(lines[i], "Session:").Some? ==>
              NoteLines(f, lines).session == Params(lines[i], "Session:")
    ensures LastOne(lines, "Transport:", i) && Params(lines[i], "Transport:").Some? ==>
              NoteLines(f, lines).transport == Params(lines[i], "Transport:")
    decreases |lines|
  {
    if i < |lines| {
      NamesDiffer(lines[0]);
      var g := if StartsWith(lines[0], "CSeq:") then f else Note(f, lines[0]);
      if i == 0 {
        OtherLinesKeep(g, lines[1..]);
      } else {
        LastOneIsFound(g, lines[1..], i - 1);
      }
    }
  }

  // Transport fields.

  predicate GoodFields(fields: seq<string>) {
    forall f | f in fields :: f != "" && ';' !in f
  }

  function FieldsText(fields: seq<string>): string {
    if fields == [] then ""
    else if |fields| == 1 then fields[0]
    else fields[0] + ";" + FieldsText(fields[1..])
  }

  function NoteAll(t: Transport, fields: seq<string>): Transport
    decreases |fields|
  {
    if fields == [] then t else NoteAll(NoteField(t, fields[0]), fields[1..])
  }

  /** A value that is a name and, perhaps, more after a semicolon. */
  lemma NamePart(name: string, more: string)
    requires name != "" && ';' !in name && (more == "" || more[0] == ';')
    ensures UpToSemicolon(name + more) == Some((name, more))
  {
    assert forall i | 0 <= i < |name| :: !Semicolons()(name[i]) by {
      assert forall i | 0 <= i < |name| :: name[i] in name;
    }
    Sdp.AllUntil(name, Semicolons(), more);
  }

  lemma TextOfFields(fields: seq<string>)
    requires GoodFields(fields) && fields != []
    ensures FieldsText(fields) != "" && FieldsText(fields)[0] != ';' && fields[0] != "" && ';' !in fields[0]
  {
    assert fields[0] in fields && fields[0][0] in fields[0];
  }

  /** Any number of semicolons separates two fields. */
  lemma {:induction false} SemicolonsAreSkipped(run: string, rest: string)
    requires (forall i | 0 <= i < |run| :: run[i] == ';') && (rest == "" || rest[0] != ';')
    ensures SkipSemicolons(run + rest) == rest
  {
    if run == "" {
      assert run + rest == rest;
    } else {
      assert (run + rest)[1..] == run[1..] + rest;
      SemicolonsAreSkipped(run[1..], rest);
    }
  }

  lemma {:induction false} FieldsAreRead(fields: seq<string>, t: Transport)
    requires GoodFields(fields)
    ensures ReadFields(FieldsText(fields), t) == NoteAll(t, fields)
    decreases |fields|
  {
    if fields != [] {
      var f, u := fields[0], NoteField(t, fields[0]);
      assert forall k | k in fields[1..] :: k in fields;
      TextOfFields(fields);
      FieldsAreRead(fields[1..], u);
      if |fields| > 1 {
        var more := FieldsText(fields[1..]);
        TextOfFields(fields[1..]);
        Assoc(f, ";", more);
        NamePart(f, ";" + more);
        assert (";" + more)[1..] == more;
        assert SkipSemicolons(";" + more) == more;
      } else {
        assert fields[1..] == [] && f + "" == f;
        NamePart(f, "");
      }
    }
  }

  /** The value of the last field that assigns to name, or what there was before. */
  function LastAssigned(fields: seq<string>, name: string, before: Option<nat>): Option<nat>
    decreases |fields|
  {
    if fields == [] then before else LastAssigned(fields[1..], name, OrElse(Assigned(fields[0], name, USHORT), before))
  }

  lemma FieldsDiffer(field: string)
    ensures Assigned(field, "server_port=", USHORT).Some? ==> field[0] == 's'
    ensures Assigned(field, "client_port=", USHORT).Some? ==> field[0] == 'c'
    ensures Assigned(field, "port=", USHORT).Some? ==> field[0] == 'p'
    ensures Interleaved(field) ==> field[0] == 'i'
    ensures StartsWith(field, "source=") ==> Lower(field[0]) == 's'
    ensures StartsWith(field, "destination=") ==> Lower(field[0]) == 'd'
  {
    var f := field;
    assert "server_port="[0] == 's' && "client_port="[0] == 'c' && "interleaved="[0] == 'i' && "port="[0] == 'p';
    assert Literal(f, "server_port=").Some? ==> f[0] == "server_port="[0];
    assert Literal(f, "client_port=").Some? ==> f[0] == "client_port="[0];
    assert Literal(f, "port=").Some? ==> f[0] == "port="[0];
    assert Literal(f, "interleaved=").Some? ==> f[0] == "interleaved="[0];
    assert Lower("source="[0]) == 's' && Lower("destination="[0]) == 'd';
  }

  predicate HasChannels(fields: seq<string>) {
    exists f | f in fields :: Interleaved(f)
  }

  predicate HasDestination(fields: seq<string>) {
    exists f | f in fields :: StartsWith(f, "destination=")
  }

  /** One field, seen by what is kept of it. */
  lemma OneField(t: Transport, field: string)
    ensures var u := NoteField(t, field);
            && u.server == OrElse(Assigned(field, "server_port=", USHORT), t.server)
            && u.client == OrElse(Assigned(field, "client_port=", USHORT), t.client)
            && u.port == OrElse(Assigned(field, "port=", USHORT), t.port)
            && u.multicast == (t.multicast && field != "unicast")
            && u.channels == (t.channels || Interleaved(field))
            && u.destination == (t.destination || StartsWith(field, "destination="))
  {
    FieldsDiffer(field);
  }

  lemma {:induction false} FieldsInAnyOrder(t: Transport, fields: seq<string>)
    ensures var all := NoteAll(t, fields);
            && all.server == LastAssigned(fields, "server_port=", t.server)
            && all.client == LastAssigned(fields, "client_port=", t.client)
            && all.port == LastAssigned(fields, "port=", t.port)
            && all.multicast == (t.multicast && "unicast" !in fields)
            && all.channels == (t.channels || HasChannels(fields))
            && all.destination == (t.destination || HasDestination(fields))
    decreases |fields|
  {
    if fields != [] {
      var f := fields[0];
      OneField(t, f);
      FieldsInAnyOrder(NoteField(t, f), fields[1..]);
      assert fields == [f] + fields[1..];
      assert forall g :: g in fields <==> g == f || g in fields[1..];
    }
  }

  /**
    The port taken from a list of fields: for a multicast transport with a destination
    its port, otherwise the server's, otherwise the client's, otherwise none if the
    channels are interleaved. Without any of these the header is refused.
  */
  lemma TransportIsRead(fields: seq<string>)
    requires GoodFields(fields)
    ensures var server := LastAssigned(fields, "server_port=", None);
            var client := LastAssigned(fields, "client_port=", None);
            var multicast := LastAssigned(fields, "port=", None);
            TransportPort(Some(FieldsText(fields))) ==
            if "unicast" !in fields && HasDestination(fields) && multicast.Some? then multicast
            else if server.Some? then server
            else if client.Some? then client
            else if HasChannels(fields) then Some(0)
            else None
  {
    FieldsAreRead(fields, NO_TRANSPORT);
    FieldsInAnyOrder(NO_TRANSPORT, fields);
  }

  /** A printed port, alone or first of a range, is read back. */
  lemma PrintedPort(name: string, port: nat, tail: string)
    requires port < USHORT && (tail == "" || !IsDigit(tail[0]))
    ensures Assigned(name + Decimal(port) + tail, name, USHORT) == Some(port)
  {
    var s := name + Decimal(port) + tail;
    Assoc(name, Decimal(port), tail);
    assert s[|name|..] == Decimal(port) + tail;
    NumberOfDecimal(port, tail, USHORT);
  }

  /** The last field that names it gives this port, printed, alone or first of a range. */
  ghost predicate GivesPort(fields: seq<string>, name: string, port: nat) {
    exists j: nat, tail :: PortAt(fields, name, port, j, tail)
  }

  ghost predicate PortAt(fields: seq<string>, name: string, port: nat, j: nat, tail: string) {
    && j < |fields| && port < 65536 && NoDigitFirst(tail) && fields[j] == name + Decimal(port) + tail
    && forall k | j < k < |fields| :: !(name <= fields[k])
  }

  predicate NoneNames(fields: seq<string>, name: string) {
    forall k | 0 <= k < |fields| :: !(name <= fields[k])
  }

  lemma {:induction false} NoneAssigned(fields: seq<string>, name: string, before: Option<nat>)
    requires NoneNames(fields, name)
    ensures LastAssigned(fields, name, before) == before
    decreases |fields|
  {
    if fields != [] {
      NoneAssigned(fields[1..], name, before);
    }
  }

  lemma {:induction false} GivenPortIsRead(fields: seq<string>, name: string, port: nat, j: nat, tail: string,
                                           before: Option<nat>)
    requires PortAt(fields, name, port, j, tail)
    ensures LastAssigned(fields, name, before) == Some(port)
    decreases |fields|
  {
    var now := OrElse(Assigned(fields[0], name, USHORT), before);
    if j == 0 {
      PrintedPort(name, port, tail);
      NoneAssigned(fields[1..], name, now);
    } else {
      GivenPortIsRead(fields[1..], name, port, j - 1, tail, now);
    }
  }

  /** A unicast transport that gives the server's port, or only the client's. */
  ghost predicate UnicastTo(fields: seq<string>, port: nat) {
    && "unicast" in fields
    && (GivesPort(fields, "server_port=", port)
        || (NoneNames(fields, "server_port=") && GivesPort(fields, "client_port=", port)))
  }

  lemma UnicastPort(fields: seq<string>, port: nat)
    requires GoodFields(fields) && UnicastTo(fields, port)
    ensures TransportPort(Some(FieldsText(fields))) == Some(port)
  {
    TransportIsRead(fields);
    if GivesPort(fields, "server_port=", port) {
      var j: nat, tail :| PortAt(fields, "server_port=", port, j, tail);
      GivenPortIsRead(fields, "server_port=", port, j, tail, None);
    } else {
      var j: nat, tail :| PortAt(fields, "client_port=", port, j, tail);
      GivenPortIsRead(fields, "client_port=", port, j, tail, None);
      NoneAssigned(fields, "server_port=", None);
    }
  }

  /** A multicast transport with a destination and a port. */
  lemma MulticastPort(fields: seq<string>, port: nat, destination: string)
    requires GoodFields(fields) && "unicast" !in fields && GivesPort(fields, "port=", port)
    requires ("destination=" + destination) in fields
    ensures TransportPort(Some(FieldsText(fields))) == Some(port)
  {
    TransportIsRead(fields);
    var j: nat, tail :| PortAt(fields, "port=", port, j, tail);
    GivenPortIsRead(fields, "port=", port, j, tail, None);
    assert StartsWith("destination=" + destination, "destination=");
  }

  /** Interleaved channels are two numbers with a dash between them, no less. */
  lemma ChannelsAreRead(a: nat, b: nat, tail: string)
    requires a < ULONG && b < ULONG && NoDigitFirst(tail)
    ensures Interleaved("interleaved=" + (Decimal(a) + ("-" + (Decimal(b) + tail))))
    ensures !("-" <= tail) ==> !Interleaved("interleaved=" + (Decimal(a) + tail))
  {
    assert ("interleaved=" + (Decimal(a) + tail))[12..] == Decimal(a) + tail;
    NumberOfDecimal(a, tail, UINT);
    var more := "-" + (Decimal(b) + tail);
    assert ("interleaved=" + (Decimal(a) + more))[12..] == Decimal(a) + more && more[1..] == Decimal(b) + tail;
    NumberOfDecimal(a, more, UINT);
    NumberOfDecimal(b, tail, UINT);
  }

  /** Interleaved channels without any port: accepted, with port 0. */
  lemma InterleavedPort(fields: seq<string>, a: nat, b: nat, tail: string)
    requires GoodFields(fields) && a < ULONG && b < ULONG && NoDigitFirst(tail)
    requires ("interleaved=" + (Decimal(a) + ("-" + (Decimal(b) + tail)))) in fields
    requires NoneNames(fields, "server_port=") && NoneNames(fields, "client_port=") && NoneNames(fields, "port=")
    ensures TransportPort(Some(FieldsText(fields))) == Some(0)
  {
    ChannelsAreRead(a, b, tail);
    TransportIsRead(fields);
    NoneAssigned(fields, "server_port=", None);
    NoneAssigned(fields, "client_port=", None);
    NoneAssigned(fields, "port=", None);
  }

  lemma SetupInfoOf(r: Reply, f: Found, id: string, params: string, port: nat)
    requires f.session == Some(id + params) && TransportPort(f.transport) == Some(port)
    requires id != "" && ';' !in id && (params == "" || params[0] == ';')
    ensures SetupInfo(r, f) == r.(serverPortNum := port, sessionId := id)
  {
    NamePart(id, params);
  }

  /** Header i has this name and value, and no later one has the name. */
  ghost predicate LastSays(headers: seq<string>, name: string, i: nat, value: string) {
    i < |headers| && Says(headers[i], name, value) && forall j | i < j < |headers| :: !Named(headers[j], name)
  }

  lemma LastSaysIsRead(headers: seq<string>, name: string, i: nat, value: string)
    requires LastSays(headers, name, i, value)
    ensures LastOne(headers, name, i) && Params(headers[i], name) == Some(value)
  {
    forall j | 0 <= j < |headers|
      ensures Named(headers[j], name) <==> StartsWith(headers[j], name)
    {
      NamedIsStartsWith(headers[j], name);
    }
    ValueIsRead(headers[i], name, value);
  }

  /** What the header loop keeps of a SETUP reply. */
  lemma SetupHeaders(headers: seq<string>, si: nat, session: string, ti: nat, transport: string)
    requires LastSays(headers, "Session:", si, session) && LastSays(headers, "Transport:", ti, transport)
    ensures NoteLines(Found(None, None), headers) == Found(Some(session), Some(transport))
  {
    LastSaysIsRead(headers, "Session:", si, session);
    LastSaysIsRead(headers, "Transport:", ti, transport);
    LastOneIsFound(Found(None, None), headers, si);
    LastOneIsFound(Found(None, None), headers, ti);
  }

  /** The headers of a SETUP reply: the request's CSeq; the last Session and Transport headers count. */
  ghost predicate SetupReply(headers: seq<string>, si: nat, id: string, params: string, ti: nat, fields: seq<string>,
                             port: nat, cseq: nat) {
    && CSeqsAre(headers, cseq) && 0 < cseq < 0x1_0000_0000
    && LastSays(headers, "Session:", si, id + params)
    && id != "" && |id| < 64 && ';' !in id && (params == "" || params[0] == ';')
    && LastSays(headers, "Transport:", ti, FieldsText(fields))
    && GoodFields(fields) && UnicastTo(fields, port)
  }

  /**
    A SETUP reply as a server prints it, with code 200, the number of the request, a
    Session and a unicast Transport header anywhere among others, the last ones of
    their name: parse succeeds with the session identifier and the port.
  */
  lemma SetupRecovers(r: Reply, version: string, reason: string, headers: seq<string>, si: nat, id: string,
                      params: string, ti: nat, fields: seq<string>, port: nat, cseq: nat, wild: string)
    requires Word(version) && NoDigitFirst(reason) && SetupReply(headers, si, id, params, ti, fields, port, cseq)
    requires GoodHeaders(["RTSP/" + (version + (" " + ("200" + reason)))] + headers)
    ensures var data := Printed(["RTSP/" + (version + (" " + ("200" + reason)))] + headers);
            ParseReply(r, ReplyText(data), SETUP, cseq, wild)
            == (r.(respondCode := 200, serverPortNum := port, sessionId := id), true)
  {
    var status := "RTSP/" + (version + (" " + ("200" + reason)));
    Status200(version, reason);
    PlainReply(status, headers);
    CSeqsAreNumbersIfThey(headers, cseq);
    CSeqsAreChecked(headers, cseq, wild);
    SetupHeaders(headers, si, id + params, ti, FieldsText(fields));
    UnicastPort(fields, port);
    SetupInfoOf(r.(respondCode := 200), NoteLines(Found(None, None), headers), id, params, port);
    AcceptedReply(r, ReplyText(Printed([status] + headers)), status, 200, Joined(headers) + "\r", SETUP, cseq, wild);
  }

  /** A printed reply without a body, its status and CSeq headers read. */
  lemma ReplyWithoutBody(r: Reply, status: string, code: nat, headers: seq<string>, request: Request, cseq: nat,
                         wild: string)
    requires GoodHeaders([status] + headers) && ResponseCode(status) == Some(code) && AllAccepted(headers, cseq, wild)
    ensures ParseReply(r, ReplyText(Printed([status] + headers)), request, cseq, wild)
            == (Special(r.(respondCode := code), request, Headers(NoteLines(Found(None, None), headers), Some(""))),
                code == 200)
  {
    PlainReply(status, headers);
    PlainBody(headers);
    AcceptedReply(r, ReplyText(Printed([status] + headers)), status, code, Joined(headers) + "\r", request, cseq, wild);
  }

  lemma PlainBody(headers: seq<string>)
    requires GoodHeaders(headers)
    ensures Body(Some(Joined(headers) + "\r")) == Some("")
  {
    HeadersOfJoined(headers, "\r");
  }

  /**
    Printed replies that lack what the request is after, with any code: the code is
    kept and decides over success, and what the reply does not say is cleared. Only
    SETUP and DESCRIBE touch anything else.
  */
  lemma BareReplyLeaves(r: Reply, status: string, version: string, gap: string, code: nat, reason: string,
                        headers: seq<string>, request: Request, cseq: nat, wild: string)
    requires Word(version) && gap != "" && AllWhite(gap) && code < 0x1_0000_0000 && NoDigitFirst(reason)
    requires status == "RTSP/" + (version + (gap + (Decimal(code) + reason)))
    requires GoodHeaders([status] + headers) && CSeqsAre(headers, cseq) && 0 < cseq < 0x1_0000_0000
    requires request == SETUP ==> forall h | h in headers :: !Named(h, "Transport:")
    ensures var (after, ok) := ParseReply(r, ReplyText(Printed([status] + headers)), request, cseq, wild);
            && ok == (code == 200) && after.respondCode == code
            && after.controlPath == (if request == DESCRIBE then None else r.controlPath)
            && after.serverPortNum == (if request == SETUP then 0 else r.serverPortNum)
            && after.sessionId == (if request == SETUP then "" else r.sessionId)
  {
    assert ResponseCode(status) == Some(code) by {
      StatusIsRead(version, gap, code, reason);
    }
    CSeqsAreNumbersIfThey(headers, cseq);
    CSeqsAreChecked(headers, cseq, wild);
    ReplyWithoutBody(r, status, code, headers, request, cseq, wild);
    if request == SETUP {
      forall h | h in headers
        ensures !StartsWith(h, "Transport:")
      {
        NamedIsStartsWith(h, "Transport:");
      }
      OtherLinesKeep(Found(None, None), headers);
    }
  }

  lemma Status200(version: string, reason: string)
    requires Word(version) && NoDigitFirst(reason)
    ensures ResponseCode("RTSP/" + (version + (" " + ("200" + reason)))) == Some(200)
  {
    assert Decimal(2) == "2" && Decimal(20) == Decimal(2) + "0" && Decimal(200) == Decimal(20) + "0" == "200";
    StatusIsRead(version, " ", 200, reason);
  }

  // DESCRIBE.

  lemma {:induction false} DocTextEnds(doc: seq<SdpSpec.Line>)
    requires doc != [] && Sdp.GoodDoc(doc)
    ensures var body := SdpSpec.DocText(doc, "\r\n");
            NoNul(body) && body != "" && body[..|body| - 1] == SdpSpec.DocText(doc, "\r")
    decreases |doc|
  {
    var l := SdpSpec.LineText(doc[0]);
    assert SdpSpec.GoodLine(doc[0]);
    Sdp.GoodLineStarts(doc[0], "\r\n");
    if |doc| > 1 {
      DocTextEnds(doc[1..]);
      var more := SdpSpec.DocText(doc[1..], "\r\n");
      assert (l + "\r\n" + more)[..|l| + 2 + |more| - 1] == l + "\r\n" + more[..|more| - 1];
    } else {
      assert (l + "\r\n")[..|l| + 1] == l + "\r";
    }
  }

  /** A video section as a server prints it: RTP/AVP, a format up to 127, and its control attribute the last one. */
  ghost predicate VideoSection(s: Sdp.Section, path: string) {
    && s.media.profile == "RTP/AVP" && Named(s.media.medium, "video")
    && (exists format: nat, tail ::
          format <= 127 && NoDigitFirst(tail) && s.media.formats == Decimal(format) + tail)
    && Word(path)
    && exists j: nat :: ControlAt(s.attributes, j, path)
  }

  ghost predicate ControlAt(attributes: seq<string>, j: nat, path: string) {
    && j < |attributes| && attributes[j] == "a=control:" + path
    && forall k | j < k < |attributes| :: !("a=control:" <= attributes[k])
  }

  /** A section of another medium or another profile. */
  ghost predicate OtherSection(s: Sdp.Section) {
    s.media.profile != "RTP/AVP" || !Named(s.media.medium, "video")
  }

  lemma FormatIsRead(formats: string, format: nat, tail: string)
    requires format <= 127 && NoDigitFirst(tail) && formats == Decimal(format) + tail
    ensures SdpSpec.FirstFormat(formats) == Some(format)
  {
    NumberOfDecimal(format, tail, UINT);
    assert Number(formats, UINT) == Some((format, tail));
    assert formats[0] == Decimal(format)[0] && IsDigit(formats[0]);
  }

  lemma VideoIsVideo(s: Sdp.Section, path: string)
    ensures VideoSection(s, path) ==> SdpSpec.IsVideo(s.media)
    ensures OtherSection(s) ==> !SdpSpec.IsVideo(s.media)
  {
    NamedIsStartsWith(s.media.medium, "video");
    if VideoSection(s, path) {
      var format: nat, tail :| format <= 127 && NoDigitFirst(tail) && s.media.formats == Decimal(format) + tail;
      FormatIsRead(s.media.formats, format, tail);
    }
  }

  lemma ControlIsRead(path: string, c: Option<string>)
    requires Word(path)
    ensures SdpSpec.Later("a=control:" + path, c) == Some(path)
  {
    var s := "a=control:" + path;
    assert s[10..] == path && path + "" == path && s[2] == 'c';
    WordIsRead(path, "");
  }

  lemma {:induction false} NoControl(attributes: seq<string>, c: Option<string>)
    requires forall k | 0 <= k < |attributes| :: !("a=control:" <= attributes[k])
    ensures Sdp.LastControl(attributes, c) == c
  {
    if attributes != [] {
      NoControl(attributes[1..], c);
    }
  }

  lemma {:induction false} LastControlIsRead(attributes: seq<string>, j: nat, path: string, c: Option<string>)
    requires Word(path) && ControlAt(attributes, j, path)
    ensures Sdp.LastControl(attributes, c) == Some(path)
    decreases |attributes|
  {
    if j == 0 {
      ControlIsRead(path, c);
      NoControl(attributes[1..], Some(path));
    } else {
      LastControlIsRead(attributes[1..], j - 1, path, SdpSpec.Later(attributes[0], c));
    }
  }

  lemma {:induction false} OthersAreSkipped(before: seq<Sdp.Section>, rest: seq<Sdp.Section>, c: Option<string>)
    requires forall s | s in before :: OtherSection(s)
    ensures Sdp.Chosen(before + rest, c) == Sdp.Chosen(rest, c)
    decreases |before|
  {
    if before == [] {
      assert before + rest == rest;
    } else {
      assert before[0] in before && (before + rest)[1..] == before[1..] + rest;
      VideoIsVideo(before[0], "");
      OthersAreSkipped(before[1..], rest, c);
    }
  }

  /** Of two video sections the second one counts if another section lies between them, and the first one otherwise. */
  lemma TwoVideos(before: seq<Sdp.Section>, a: Sdp.Section, between: seq<Sdp.Section>, b: Sdp.Section,
                  after: seq<Sdp.Section>, first: string, second: string)
    requires VideoSection(a, first) && VideoSection(b, second)
    requires forall s | s in before + between + after :: OtherSection(s)
    ensures Sdp.Chosen(before + ([a] + (between + ([b] + after))), None)
            == Some(if between == [] then first else second)
  {
    var last := [b] + after;
    assert forall s | s in before || s in between || s in after :: s in before + between + after;
    OthersAreSkipped(before, [a] + (between + last), None);
    VideoIsTaken(a, first, between + last, None);
    if between == [] {
      assert between + last == last && last[1..] == after;
      OnlyOthersLeft(after, Some(first));
    } else {
      assert (between + last)[1..] == between[1..] + last;
      OthersAreSkipped(between[1..], last, Some(first));
      VideoIsTaken(b, second, after, Some(first));
      if after != [] {
        OnlyOthersLeft(after[1..], Some(second));
      }
    }
  }

  /** A video section gives its path, and the section after it is not looked at. */
  lemma VideoIsTaken(a: Sdp.Section, path: string, rest: seq<Sdp.Section>, c: Option<string>)
    requires VideoSection(a, path)
    ensures Sdp.Chosen([a] + rest, c) == if rest == [] then Some(path) else Sdp.Chosen(rest[1..], Some(path))
  {
    VideoIsVideo(a, path);
    var j: nat :| ControlAt(a.attributes, j, path);
    LastControlIsRead(a.attributes, j, path, c);
    if rest != [] {
      assert ([a] + rest)[2..] == rest[1..];
    }
  }

  lemma OnlyOthersLeft(rest: seq<Sdp.Section>, c: Option<string>)
    requires forall s | s in rest :: OtherSection(s)
    ensures Sdp.Chosen(rest, c) == c
  {
    OthersAreSkipped(rest, [], c);
    assert rest + [] == rest;
  }

  lemma TwoVideosAreRead(session: seq<string>, before: seq<Sdp.Section>, a: Sdp.Section, between: seq<Sdp.Section>,
                         b: Sdp.Section, after: seq<Sdp.Section>, first: string, second: string)
    requires VideoSection(a, first) && VideoSection(b, second)
    requires forall s | s in before + between + after :: OtherSection(s)
    requires Sdp.GoodDoc(Sdp.Document(session, before + ([a] + (between + ([b] + after)))))
    ensures var doc := Sdp.Document(session, before + ([a] + (between + ([b] + after))));
            SdpSpec.ParseSdp(SdpSpec.DocText(doc, "\r")) == Some(if between == [] then first else second)
  {
    var sections := before + ([a] + (between + ([b] + after)));
    assert Sdp.SectionLines(sections) != [];
    Sdp.ControlPathIsChosen(session, sections, "\r");
    TwoVideos(before, a, between, b, after, first, second);
  }

  /** The only video section of a description, and its control path. */
  ghost predicate OneVideo(sections: seq<Sdp.Section>, v: nat, path: string) {
    && v < |sections| && VideoSection(sections[v], path)
    && forall i | 0 <= i < |sections| && i != v :: OtherSection(sections[i])
  }

  lemma OneVideoIsRead(session: seq<string>, sections: seq<Sdp.Section>, v: nat, path: string)
    requires OneVideo(sections, v, path) && Sdp.GoodDoc(Sdp.Document(session, sections))
    ensures SdpSpec.ParseSdp(SdpSpec.DocText(Sdp.Document(session, sections), "\r")) == Some(path)
  {
    forall i | 0 <= i < |sections|
      ensures SdpSpec.IsVideo(sections[i].media) <==> i == v
    {
      VideoIsVideo(sections[i], path);
    }
    Sdp.ControlPathOfVideo(session, sections, v, "\r");
    var j: nat :| ControlAt(sections[v].attributes, j, path);
    LastControlIsRead(sections[v].attributes, j, path, None);
  }

  /**
    A DESCRIBE reply as a server prints it, with code 200, the number of the request
    and a well-formed session description with one RTP/AVP video section: parse
    succeeds with the control path of that section.
  */
  lemma DescribeRecovers(r: Reply, version: string, reason: string, headers: seq<string>, session: seq<string>,
                         sections: seq<Sdp.Section>, v: nat, path: string, cseq: nat, wild: string)
    requires Word(version) && NoDigitFirst(reason) && CSeqsAre(headers, cseq) && 0 < cseq < 0x1_0000_0000
    requires GoodHeaders(["RTSP/" + (version + (" " + ("200" + reason)))] + headers)
    requires OneVideo(sections, v, path) && Sdp.GoodDoc(Sdp.Document(session, sections))
    ensures var data := Printed(["RTSP/" + (version + (" " + ("200" + reason)))] + headers)
                        + SdpSpec.DocText(Sdp.Document(session, sections), "\r\n");
            ParseReply(r, ReplyText(data), DESCRIBE, cseq, wild)
            == (r.(respondCode := 200, controlPath := Some(path)), true)
  {
    var status := "RTSP/" + (version + (" " + ("200" + reason)));
    assert Sdp.SectionLines(sections) != [];
    Status200(version, reason);
    CSeqsAreNumbersIfThey(headers, cseq);
    CSeqsAreChecked(headers, cseq, wild);
    OneVideoIsRead(session, sections, v, path);
    DescriptionIsParsed(r, status, headers, Sdp.Document(session, sections), cseq, wild);
  }

  /** A DESCRIBE reply that is accepted leaves the control path of its description. */
  lemma DescriptionIsParsed(r: Reply, status: string, headers: seq<string>, doc: seq<SdpSpec.Line>, cseq: nat,
                            wild: string)
    requires GoodHeaders([status] + headers) && ResponseCode(status) == Some(200) && AllAccepted(headers, cseq, wild)
    requires doc != [] && Sdp.GoodDoc(doc)
    ensures ParseReply(r, ReplyText(Printed([status] + headers) + SdpSpec.DocText(doc, "\r\n")), DESCRIBE, cseq, wild)
            == (r.(respondCode := 200, controlPath := SdpSpec.ParseSdp(SdpSpec.DocText(doc, "\r"))), true)
  {
    DocTextEnds(doc);
    BodyIsParsed(r, status, headers, SdpSpec.DocText(doc, "\r\n"), SdpSpec.DocText(doc, "\r"), cseq, wild);
  }

  lemma BodyIsParsed(r: Reply, status: string, headers: seq<string>, body: string, received: string, cseq: nat,
                     wild: string)
    requires GoodHeaders([status] + headers) && ResponseCode(status) == Some(200) && AllAccepted(headers, cseq, wild)
    requires body != "" && NoNul(body) && received == body[..|body| - 1]
    ensures ParseReply(r, ReplyText(Printed([status] + headers) + body), DESCRIBE, cseq, wild)
            == (r.(respondCode := 200, controlPath := SdpSpec.ParseSdp(received)), true)
  {
    var rest := Joined(headers) + ("\r\n" + received);
    ReplyWithBody(status, headers, body);
    AcceptedReply(r, ReplyText(Printed([status] + headers) + body), status, 200, rest, DESCRIBE, cseq, wild);
  }
}
