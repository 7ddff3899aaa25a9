/**
  What cRTSPprotocol.cpp reads out of a reply: status line, CSeq check, Session
  and Transport headers. A header whose value is blank leaves the caller's pointer
  alone; for CSeq that pointer was never set, and wild stands for the text it
  happens to point at.
*/
module RtspReplySpec {
  import opened Common
  import opened RtspText
  import opened RtspScan
  import opened SdpSpec

  /** The first line that is not blank, or the last one, and what follows it. */
  function StatusLine(text: string): (r: (string, Option<string>))
    ensures r.1.Some? ==> |r.1.value| < |text|
    decreases |text|
  {
    var (line, rest) := SplitLine(text);
    if line == "" && rest.Some? then StatusLine(rest.value) else (line, rest)
  }

  /** parseResponseCode */
  function ResponseCode(line: string): Option<nat> {
    var version := Literal(line, "RTSP/");
    if version.None? then None else
    var token := Token(version.value);
    if token.None? then None else
    var code := Number(token.value.1, UINT);
    if code.None? then None else Some(code.value.0)
  }

  /** A CSeq header is accepted when it holds the number of the request. */
  predicate CSeqFits(line: string, cseq: nat, wild: string)
    requires StartsWith(line, "CSeq:")
  {
    var p := Params(line, "CSeq:");
    var n := Number(if p.Some? then p.value else wild, UINT);
    cseq > 0 && n.Some? && n.value.0 == cseq
  }

  /** The header values that the parser keeps. */
  datatype Found = Found(session: Option<string>, transport: Option<string>)

  function OrElse<T>(a: Option<T>, b: Option<T>): Option<T> {
    if a.Some? then a else b
  }

  /** One header line that is not a CSeq header. */
  function Note(f: Found, line: string): Found {
    if StartsWith(line, "Session:") then f.(session := OrElse(Params(line, "Session:"), f.session))
    else if StartsWith(line, "Transport:") then f.(transport := OrElse(Params(line, "Transport:"), f.transport))
    else f
  }

  datatype Headers = BadCSeq | Headers(found: Found, body: Option<string>)

  /** The header loop: up to the blank line, the end of the text or a CSeq header that does not fit. */
  function ReadHeaders(text: Option<string>, cseq: nat, wild: string, f: Found): Headers
    decreases if text.Some? then |text.value| + 1 else 0
  {
    if text.None? then Headers(f, None) else
    var (line, rest) := SplitLine(text.value);
    if line == "" then Headers(f, rest)
    else if StartsWith(line, "CSeq:") then
      if CSeqFits(line, cseq, wild) then ReadHeaders(rest, cseq, wild, f) else BadCSeq
    else ReadHeaders(rest, cseq, wild, Note(f, line))
  }

  // Transport.

  /** What is known of the transport after some of its fields. */
  datatype Transport = Transport(
    server: Option<nat>, client: Option<nat>, channels: bool, multicast: bool, destination: bool, port: Option<nat>)

  const NO_TRANSPORT := Transport(None, None, false, true, false, None)

  function Assigned(field: string, name: string, width: nat): Option<nat>
    requires width > 0
  {
    var v := Literal(field, name);
    if v.None? then None else
    var n := Number(v.value, width);
    if n.None? then None else Some(n.value.0)
  }

  /** "interleaved=%u-%u" with both numbers. */
  predicate Interleaved(field: string) {
    var v := Literal(field, "interleaved=");
    v.Some? &&
    var a := Number(v.value, UINT);
    a.Some? &&
    var d := Literal(a.value.1, "-");
    d.Some? && Number(d.value, UINT).Some?
  }

  /** One field of the list. */
  function NoteField(t: Transport, field: string): Transport {
    var server := Assigned(field, "server_port=", USHORT);
    var client := Assigned(field, "client_port=", USHORT);
    var port := Assigned(field, "port=", USHORT);
    if server.Some? then t.(server := server)
    else if client.Some? then t.(client := client)
    else if StartsWith(field, "source=") then t
    else if Interleaved(field) then t.(channels := true)
    else if field == "unicast" then t.(multicast := false)
    else if StartsWith(field, "destination=") then t.(destination := true)
    else if port.Some? then t.(port := port)
    else t
  }

  function SkipSemicolons(s: string): (r: string)
    ensures |r| <= |s| && (r != "" ==> r[0] != ';')
  {
    if s != "" && s[0] == ';' then SkipSemicolons(s[1..]) else s
  }

  /** The loop over the fields; a list that starts with a semicolon is not read at all. */
  function ReadFields(s: string, t: Transport): Transport
    decreases |s|
  {
    var f := UpToSemicolon(s);
    if f.None? then t else ReadFields(SkipSemicolons(f.value.1), NoteField(t, f.value.0))
  }

  /** The server port, if the transport is acceptable. */
  function ServerPort(t: Transport): Option<nat> {
    if t.multicast && t.destination && t.port.Some? then t.port
    else if t.channels || t.server.Some? || t.client.Some? then
      Some(if t.server.Some? then t.server.value else if t.client.Some? then t.client.value else 0)
    else None
  }

  /** parseTransportParams */
  function TransportPort(params: Option<string>): Option<nat> {
    if params.None? then None else ServerPort(ReadFields(params.value, NO_TRANSPORT))
  }

  // Replies.

  datatype Request = OPTIONS | DESCRIBE | SETUP | PLAY

  /** The bytes of fSessionId, its NUL included; nothing keeps the identifier of a reply below that. */
  const SESSION_ID_LEN := 64

  /** The members of pREPLY that later requests use. */
  datatype Reply = Reply(respondCode: nat, controlPath: Option<string>, serverPortNum: nat, sessionId: string)

  /** What a SETUP reply leaves: nothing, or the port alone, when a header is missing. */
  function SetupInfo(r: Reply, f: Found): Reply {
    var clear := r.(serverPortNum := 0, sessionId := "");
    var port := TransportPort(f.transport);
    if port.None? then clear else
    var id := if f.session.Some? then UpToSemicolon(f.session.value) else None;
    clear.(serverPortNum := port.value, sessionId := if id.Some? then id.value.0 else "")
  }

  function Special(r: Reply, request: Request, h: Headers): Reply
    requires h.Headers?
  {
    match request
    case DESCRIBE => r.(controlPath := if h.body.Some? then ParseSdp(h.body.value) else None)
    case SETUP => SetupInfo(r, h.found)
    case _ => r
  }

  /** cRTSPprotocol::parse: what it leaves in pREPLY, and whether it returns success. */
  function ParseReply(r: Reply, text: string, request: Request, cseq: nat, wild: string): (Reply, bool) {
    var (status, rest) := StatusLine(text);
    var code := ResponseCode(status);
    if code.None? then (r, false) else
    var h := ReadHeaders(rest, cseq, wild, Found(None, None));
    if h.BadCSeq? then (r, false)
    else (Special(r.(respondCode := code.value), request, h), code.value == 200)
  }
}
