/**
  How cRTSPprotocol.cpp reads the session description of a DESCRIBE reply. Lines
  are not cut out of the text, so every scan may look past the end of its line.
*/
module SdpSpec {
  import opened Common
  import opened RtspText
  import opened RtspScan

  function SkipLineEnds(s: string): (r: string)
    ensures |r| <= |s| && (r != "" ==> !LineEnd(r[0]))
  {
    if s != "" && LineEnd(s[0]) then SkipLineEnds(s[1..]) else s
  }

  function LineEnds(): char -> bool {
    c => LineEnd(c)
  }

  /** Where parseSDPLine finds the next line, all line ends in between skipped. */
  function NextLine(s: string): (r: Option<string>)
    ensures r.Some? ==> 0 < |r.value| < |s|
  {
    var rest := Until(s, LineEnds()).1;
    if rest == "" then None else
    var next := SkipLineEnds(rest[1..]);
    if next == "" then None else Some(next)
  }

  /** What parseSDPLine accepts: a letter and an equals sign, or a blank line. */
  predicate ValidLine(s: string) {
    s != "" && (LineEnd(s[0]) || (|s| >= 2 && s[1] == '=' && 'a' <= s[0] <= 'z'))
  }

  /** The end of a media line: the profile and the first format. */
  function Format(s: string): Option<nat> {
    var profile := Literal(SkipSpace(s), "RTP/AVP");
    if profile.None? then None else
    var n := Number(profile.value, UINT);
    if n.None? then None else Some(n.value.0)
  }

  /** The same after a number of ports. */
  function FormatAfterCount(s: string): Option<nat> {
    var slash := Literal(s, "/");
    if slash.None? then None else
    var count := Number(slash.value, UINT);
    if count.None? then None else Format(count.value.1)
  }

  /** catchVideoMedinSession */
  predicate CatchVideo(s: string) {
    var m := Literal(s, "m=");
    m.Some? &&
    var medium := Token(m.value);
    medium.Some? &&
    var port := Number(medium.value.1, USHORT);
    port.Some? &&
    var plain := Format(port.value.1);
    var f := if plain.Some? then plain else FormatAfterCount(port.value.1);
    f.Some? && f.value <= 127 && StartsWith(medium.value.0, "video")
  }

  /**
    The control path after a line of the video section: parseSDPAttribute_rtcpmux first, then
    parseSDPAttribute_control.
  */
  function Control(s: string, c: Option<string>): Option<string> {
    if "a=rtcp-mux" <= s then c else
    var v := Literal(s, "a=control:");
    if v.None? then c else
    var path := Token(v.value);
    if path.None? then c else Some(path.value.0)
  }

  /** The search for a video section from a line outside of one. */
  function Media(s: Option<string>, c: Option<string>): Option<string>
    decreases if s.Some? then |s.value| + 1 else 0
  {
    if s.None? || !ValidLine(s.value) then c
    else if s.value[0] == 'm' && CatchVideo(s.value) then Video(NextLine(s.value), c)
    else Media(NextLine(s.value), c)
  }

  /** The lines of a video section. The media line that ends it is not looked at again. */
  function Video(s: Option<string>, c: Option<string>): Option<string>
    decreases if s.Some? then |s.value| + 1 else 0
  {
    if s.None? || !ValidLine(s.value) then c
    else if s.value[0] == 'm' then Media(NextLine(s.value), c)
    else Video(NextLine(s.value), Control(s.value, c))
  }

  /** The first loop of parseSDP: to the first media line. */
  function FirstMedia(s: string): (r: Option<string>)
    ensures r.Some? ==> r.value != "" && r.value[0] == 'm'
    decreases |s|
  {
    if !ValidLine(s) then None
    else if s[0] == 'm' then Some(s)
    else
      var next := NextLine(s);
      if next.None? then None else FirstMedia(next.value)
  }

  /** fControlPath after parseSDP, which DESCRIBE starts with a null one. */
  function ParseSdp(s: string): Option<string> {
    Media(FirstMedia(s), None)
  }

  // Documents.

  /** A media line: medium, port, number of ports, profile, formats. */
  datatype MediaLine = MediaLine(medium: string, port: nat, count: Option<nat>, profile: string, formats: string)

  datatype Line = M(media: MediaLine) | Other(text: string)

  predicate IsToken(s: string) {
    s != "" && forall i | 0 <= i < |s| :: !IsSpace(s[i]) && s[i] != '\0'
  }

  function MediaText(m: MediaLine): string {
    "m=" + m.medium + " " + Decimal(m.port) + (if m.count.Some? then "/" + Decimal(m.count.value) else "") + " "
        + m.profile + " " + m.formats
  }

  function LineText(l: Line): string {
    if l.M? then MediaText(l.media) else l.text
  }

  /** The first format of a list that starts with a number. */
  function FirstFormat(formats: string): Option<nat> {
    var n := Number(formats, UINT);
    if formats == "" || !IsDigit(formats[0]) || n.None? then None else Some(n.value.0)
  }

  /** An RTP/AVP video section. */
  predicate IsVideo(m: MediaLine) {
    var f := FirstFormat(m.formats);
    m.profile == "RTP/AVP" && StartsWith(m.medium, "video") && f.Some? && f.value <= 127
  }

  /**
    A media line as the standard has it: RTP/AVP sections name formats up to 127, and no other profile merges with
    one.
  */
  predicate GoodMedia(m: MediaLine) {
    && IsToken(m.medium) && IsToken(m.profile) && Plain(m.formats) && m.formats != "" && !IsSpace(m.formats[0])
    && m.port < ULONG && (m.count.Some? ==> m.count.value < ULONG)
    && (m.profile == "RTP/AVP" ==> FirstFormat(m.formats).Some? && FirstFormat(m.formats).value <= 127)
    && ("RTP/AVP" <= m.profile && |m.profile| > 7
        ==> !IsDigit(m.profile[7]) && m.profile[7] != '+' && m.profile[7] != '-')
  }

  /** The control attribute of a line, if it is one. */
  function ControlOf(text: string): Option<string> {
    Control(text, None)
  }

  /** The control path after one more line. */
  function Later(text: string, c: Option<string>): Option<string> {
    if ControlOf(text).Some? then ControlOf(text) else c
  }

  predicate GoodLine(l: Line) {
    match l
    case M(m) => GoodMedia(m)
    case Other(text) =>
      && |text| >= 2 && text[1] == '=' && 'a' <= text[0] <= 'z' && text[0] != 'm' && Plain(text)
      && ("a=control:" <= text ==> ControlOf(text).Some?)
  }

  /**
    How the text of a document may end: its last line end may have lost its second
    byte, or a malformed line follows, and anything after it.
  */
  predicate Ending(end: string) {
    || end == "\r" || end == "\r\n"
    || (|end| > 2 && end[..2] == "\r\n" && Malformed(end[2..]))
  }

  /** No line end first, and not a letter and an equals sign. */
  predicate Malformed(s: string) {
    && s != "" && s[0] != '\r' && s[0] != '\n'
    && (|s| < 2 || s[1] != '=' || s[0] < 'a' || s[0] > 'z')
  }

  /** The text of a document. */
  function DocText(doc: seq<Line>, end: string): string {
    if doc == [] then ""
    else if |doc| == 1 then LineText(doc[0]) + end
    else LineText(doc[0]) + "\r\n" + DocText(doc[1..], end)
  }

  /** What the parser makes of the lines of a document outside a video section. */
  function MediaOf(doc: seq<Line>, c: Option<string>): Option<string> {
    if doc == [] then c
    else if doc[0].M? && IsVideo(doc[0].media) then VideoOf(doc[1..], c)
    else MediaOf(doc[1..], c)
  }

  function VideoOf(doc: seq<Line>, c: Option<string>): Option<string> {
    if doc == [] then c
    else if doc[0].M? then MediaOf(doc[1..], c)
    else VideoOf(doc[1..], Later(doc[0].text, c))
  }
}
