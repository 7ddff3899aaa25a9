/** What the SDP parser finds in a well-formed document, whatever stands around the video section. */
module Sdp {
  import opened Common
  import opened RtspText
  import opened RtspScan
  import opened SdpSpec

  lemma {:induction false} WholeToken(t: string, rest: string)
    requires IsToken(t) && (rest == "" || IsSpace(rest[0]))
    ensures Token(t + rest) == Some((t, rest)) && SkipSpace(t + rest) == t + rest
  {
    assert (t + rest)[0] == t[0];
    AllUntil(t, Spaces(), rest);
  }

  lemma {:induction false} AllUntil(s: string, stop: char -> bool, rest: string)
    requires (forall i | 0 <= i < |s| :: !stop(s[i])) && (rest == "" || stop(rest[0]))
    ensures Until(s + rest, stop) == (s, rest)
  {
    if s == "" {
      assert s + rest == rest;
    } else {
      assert (s + rest)[1..] == s[1..] + rest && (s + rest)[0] == s[0] && !stop(s[0]);
      assert [s[0]] + s[1..] == s;
      AllUntil(s[1..], stop, rest);
    }
  }

  /** The profile and formats of a good media line. */
  lemma FormatOf(m: MediaLine, rest: string)
    requires GoodMedia(m) && rest != "" && LineEnd(rest[0])
    ensures Format(m.profile + " " + m.formats + rest)
            == if m.profile == "RTP/AVP" then FirstFormat(m.formats) else None
  {
    var p := "RTP/AVP";
    var more := " " + (m.formats + rest);
    var s := m.profile + more;
    Assoc(m.profile, " ", m.formats);
    Assoc(m.profile, " " + m.formats, rest);
    Assoc(" ", m.formats, rest);
    assert m.profile + " " + m.formats + rest == s;
    WholeToken(m.profile, more);
    assert |m.profile| < 7 ==> s[|m.profile|] == ' ';
    if p <= s {
      assert forall i | 0 <= i < 7 :: s[i] == p[i] != ' ';
      assert m.profile[..7] == s[..7] == p;
      if |m.profile| == 7 {
        assert m.profile == p && s[7..] == more;
        NumberAfterSpace(m.formats + rest, UINT);
        NumberLocal(m.formats, UINT, rest);
      } else {
        assert s[7..][0] == m.profile[7] && !IsSpace(m.profile[7]);
      }
    }
  }

  function CountText(m: MediaLine): string {
    if m.count.Some? then "/" + Decimal(m.count.value) else ""
  }

  /** The two patterns of catchVideoMedinSession, from the end of the port on. */
  lemma FormatAfterPort(m: MediaLine, end: string)
    requires GoodMedia(m) && end != "" && !IsSpace(end[0])
    ensures var s := CountText(m) + (" " + end);
            && (if Format(s).Some? then Format(s) else FormatAfterCount(s)) == Format(end)
            && !IsDigit(s[0])
  {
    FormatAfterSpace(end);
    if m.count.Some? {
      var n := Decimal(m.count.value);
      Assoc("/", n, " " + end);
      FormatIsAfterCount(m.count.value, end);
    } else {
      assert "" + (" " + end) == " " + end;
    }
  }

  lemma FormatAfterSpace(end: string)
    requires end != "" && !IsSpace(end[0])
    ensures Format(" " + end) == Format(end)
  {
    assert (" " + end)[1..] == end && SkipSpace(end) == end;
  }

  lemma FormatIsAfterCount(count: nat, end: string)
    requires count < ULONG && end != "" && !IsSpace(end[0])
    ensures var s := "/" + (Decimal(count) + (" " + end)); Format(s).None? && FormatAfterCount(s) == Format(end)
  {
    var more := Decimal(count) + (" " + end);
    var s := "/" + more;
    assert s[1..] == more && s[0] == '/' && SkipSpace(s) == s;
    NumberOfDecimal(count, " " + end, UINT);
    FormatAfterSpace(end);
    assert !("RTP/AVP" <= s);
  }

  /** catchVideoMedinSession recognises a media line by its own text, whatever follows. */
  lemma CatchIsVideo(m: MediaLine, rest: string)
    requires GoodMedia(m) && rest != "" && LineEnd(rest[0])
    ensures CatchVideo(MediaText(m) + rest) == IsVideo(m)
  {
    var end := m.profile + " " + m.formats + rest;
    var afterPort := CountText(m) + (" " + end);
    var afterMedium := " " + (Decimal(m.port) + afterPort);
    TextSplits(m, rest);
    WholeToken(m.medium, afterMedium);
    FormatAfterPort(m, end);
    NumberAfterSpace(Decimal(m.port) + afterPort, USHORT);
    NumberOfDecimal(m.port, afterPort, USHORT);
    FormatOf(m, rest);
    Catches(m.medium, m.port, afterPort);
  }

  lemma Catches(medium: string, port: nat, afterPort: string)
    requires var afterMedium := " " + (Decimal(port) + afterPort);
             && Token(medium + afterMedium) == Some((medium, afterMedium))
             && Number(afterMedium, USHORT) == Some((port % USHORT, afterPort))
    ensures var f := if Format(afterPort).Some? then Format(afterPort) else FormatAfterCount(afterPort);
            CatchVideo("m=" + (medium + (" " + (Decimal(port) + afterPort))))
            == (f.Some? && f.value <= 127 && StartsWith(medium, "video"))
  {
    var s := medium + (" " + (Decimal(port) + afterPort));
    assert ("m=" + s)[2..] == s;
  }

  lemma TextSplits(m: MediaLine, rest: string)
    ensures MediaText(m) + rest == "m="
            + (m.medium + (" " + (Decimal(m.port) + (CountText(m) + (" " + (m.profile + " " + m.formats + rest))))))
  {
  }

  // From text to lines.

  lemma PrefixLocal(p: string, s: string, rest: string)
    requires (forall c | c in p :: !LineEnd(c)) && (rest == "" || LineEnd(rest[0]))
    ensures p <= s + rest <==> p <= s
  {
    assert |s| < |s + rest| ==> LineEnd((s + rest)[|s|]);
    if p <= s + rest {
      assert forall i | 0 <= i < |p| :: !LineEnd((s + rest)[i]) by {
        assert forall i | 0 <= i < |p| :: p[i] in p && (s + rest)[i] == p[i];
      }
      assert p == (s + rest)[..|p|] == s[..|p|];
    }
  }

  /** An attribute that is well formed is read from its own line only. */
  lemma ControlLocal(text: string, rest: string, c: Option<string>)
    requires GoodLine(Other(text)) && rest != "" && LineEnd(rest[0])
    ensures Control(text + rest, c) == Later(text, c)
  {
    PrefixLocal("a=rtcp-mux", text, rest);
    PrefixLocal("a=control:", text, rest);
    if "a=control:" <= text {
      assert (text + rest)[10..] == text[10..] + rest;
      TokenLocal(text[10..], rest);
    }
  }

  lemma GoodLineStarts(l: Line, rest: string)
    requires GoodLine(l)
    ensures var s := LineText(l);
            && Plain(s) && |s| >= 2 && s[1] == '=' && 'a' <= s[0] <= 'z' && (s[0] == 'm' <==> l.M?)
            && s + rest != "" && (s + rest)[0] == s[0] && ValidLine(s + rest)
  {
    if l.M? {
      assert LineText(l)[..2] == "m=";
    }
  }

  lemma NextAfter(line: string, end: string, rest: string)
    requires Plain(line) && (end == "\r" || end == "\r\n") && (rest != "" ==> !LineEnd(rest[0]))
    ensures NextLine(line + end + rest) == if rest == "" then None else Some(rest)
  {
    var t := end + rest;
    Assoc(line, end, rest);
    assert forall i | 0 <= i < |line| :: !LineEnds()(line[i]);
    AllUntil(line, LineEnds(), t);
    if end == "\r\n" {
      assert t[1..] == "\n" + rest && t[1..][1..] == rest;
      assert SkipLineEnds(t[1..]) == SkipLineEnds(rest);
    } else {
      assert t[1..] == rest;
    }
    assert SkipLineEnds(rest) == rest;
    assert Until(line + t, LineEnds()) == (line, t);
  }

  predicate GoodDoc(doc: seq<Line>) {
    forall l | l in doc :: GoodLine(l)
  }

  /** Line ends of any kind and number separate two lines. */
  lemma {:induction false} LineEndsAreSkipped(run: string, rest: string)
    requires (forall i | 0 <= i < |run| :: run[i] == '\r' || run[i] == '\n')
    requires rest == "" || (rest[0] != '\r' && rest[0] != '\n')
    ensures SkipLineEnds(run + rest) == rest
  {
    if run == "" {
      assert run + rest == rest;
    } else {
      assert (run + rest)[1..] == run[1..] + rest;
      LineEndsAreSkipped(run[1..], rest);
    }
  }

  lemma Starts(doc: seq<Line>, end: string)
    requires doc != [] && GoodLine(doc[0])
    ensures DocText(doc, end) != "" && !LineEnd(DocText(doc, end)[0])
  {
    var e := if |doc| == 1 then end else "\r\n" + DocText(doc[1..], end);
    Assoc(LineText(doc[0]), "\r\n", if |doc| == 1 then "" else DocText(doc[1..], end));
    GoodLineStarts(doc[0], e);
  }

  /** The line end after the first line of a document, and what follows it. */
  function EndOf(doc: seq<Line>, end: string): string {
    if |doc| == 1 && |end| <= 2 then end else "\r\n"
  }

  function RestOf(doc: seq<Line>, end: string): string {
    if |doc| > 1 then DocText(doc[1..], end) else if |end| > 2 then end[2..] else ""
  }

  lemma DocSplits(doc: seq<Line>, end: string)
    requires doc != [] && GoodDoc(doc) && Ending(end)
    ensures DocText(doc, end) == LineText(doc[0]) + (EndOf(doc, end) + RestOf(doc, end))
    ensures EndOf(doc, end) == "\r" || EndOf(doc, end) == "\r\n"
    ensures RestOf(doc, end) != "" ==> !LineEnd(RestOf(doc, end)[0])
  {
    if |doc| > 1 {
      assert GoodLine(doc[1]);
      Starts(doc[1..], end);
      Assoc(LineText(doc[0]), "\r\n", DocText(doc[1..], end));
    } else if |end| > 2 {
      assert end == end[..2] + end[2..];
    } else {
      assert end + "" == end;
    }
  }

  lemma LineAfter(doc: seq<Line>, end: string)
    requires doc != [] && GoodDoc(doc) && Ending(end)
    ensures NextLine(DocText(doc, end)) == if RestOf(doc, end) == "" then None else Some(RestOf(doc, end))
  {
    var l, e, more := LineText(doc[0]), EndOf(doc, end), RestOf(doc, end);
    assert GoodLine(doc[0]);
    GoodLineStarts(doc[0], e + more);
    DocSplits(doc, end);
    Assoc(l, e, more);
    NextAfter(l, e, more);
  }

  /** One line of a document: what follows it, and the scans of it. A malformed line after the last one is not valid. */
  lemma OneLine(doc: seq<Line>, end: string, c: Option<string>)
    requires doc != [] && GoodDoc(doc) && Ending(end)
    ensures var s := DocText(doc, end);
            && ValidLine(s) && (s[0] == 'm' <==> doc[0].M?)
            && NextLine(s) == (if |doc| > 1 then Some(DocText(doc[1..], end))
                               else if |end| > 2 then Some(end[2..]) else None)
            && (|end| > 2 ==> !ValidLine(end[2..]))
            && (doc[0].M? ==> CatchVideo(s) == IsVideo(doc[0].media))
            && (doc[0].Other? ==> Control(s, c) == Later(doc[0].text, c))
  {
    var l, rest := doc[0], EndOf(doc, end) + RestOf(doc, end);
    assert GoodLine(l);
    DocSplits(doc, end);
    LineAfter(doc, end);
    GoodLineStarts(l, rest);
    assert |doc| > 1 ==> RestOf(doc, end) != "" by {
      if |doc| > 1 {
        assert GoodLine(doc[1]);
        Starts(doc[1..], end);
      }
    }
    if l.M? {
      CatchIsVideo(l.media, rest);
    } else {
      ControlLocal(l.text, rest, c);
    }
  }

  lemma {:induction false} MediaByLines(doc: seq<Line>, end: string, c: Option<string>)
    requires doc != [] && GoodDoc(doc) && Ending(end)
    ensures Media(Some(DocText(doc, end)), c) == MediaOf(doc, c)
    ensures Video(Some(DocText(doc, end)), c) == VideoOf(doc, c)
    decreases |doc|
  {
    OneLine(doc, end, c);
    if |doc| == 1 {
      assert doc[1..] == [];
    } else {
      MediaByLines(doc[1..], end, c);
      if doc[0].Other? {
        MediaByLines(doc[1..], end, Later(doc[0].text, c));
      }
    }
  }

  lemma {:induction false} FirstMediaByLines(doc: seq<Line>, end: string)
    requires doc != [] && GoodDoc(doc) && Ending(end)
    ensures Media(FirstMedia(DocText(doc, end)), None) == MediaOf(doc, None)
    decreases |doc|
  {
    OneLine(doc, end, None);
    if doc[0].M? {
      MediaByLines(doc, end, None);
    } else if |doc| == 1 {
      assert doc[1..] == [];
    } else {
      FirstMediaByLines(doc[1..], end);
    }
  }

  // From lines to sections.

  datatype Section = Section(media: MediaLine, attributes: seq<string>)

  function Others(texts: seq<string>): seq<Line> {
    if texts == [] then [] else [Other(texts[0])] + Others(texts[1..])
  }

  function SectionLines(sections: seq<Section>): seq<Line> {
    if sections == [] then []
    else [M(sections[0].media)] + Others(sections[0].attributes) + SectionLines(sections[1..])
  }

  /** A session description: its session-level lines, then its media sections. */
  function Document(session: seq<string>, sections: seq<Section>): seq<Line> {
    Others(session) + SectionLines(sections)
  }

  /** The value of the last control attribute, or what there was before. */
  function LastControl(attributes: seq<string>, c: Option<string>): Option<string> {
    if attributes == [] then c
    else LastControl(attributes[1..], Later(attributes[0], c))
  }

  lemma {:induction false} SkipOthers(texts: seq<string>, doc: seq<Line>, c: Option<string>)
    ensures MediaOf(Others(texts) + doc, c) == MediaOf(doc, c)
    ensures VideoOf(Others(texts) + doc, c) == VideoOf(doc, LastControl(texts, c))
  {
    if texts == [] {
      assert Others(texts) + doc == doc;
    } else {
      assert (Others(texts) + doc)[1..] == Others(texts[1..]) + doc;
      SkipOthers(texts[1..], doc, c);
      SkipOthers(texts[1..], doc, Later(texts[0], c));
    }
  }

  /** What the parser computes for any list of sections: a video section right after another one is passed over. */
  function Chosen(sections: seq<Section>, c: Option<string>): Option<string>
    decreases |sections|
  {
    if sections == [] then c
    else if IsVideo(sections[0].media) then
      var found := LastControl(sections[0].attributes, c);
      if |sections| == 1 then found else Chosen(sections[2..], found)
    else Chosen(sections[1..], c)
  }

  lemma {:induction false} SectionsChoose(sections: seq<Section>, c: Option<string>)
    ensures MediaOf(SectionLines(sections), c) == Chosen(sections, c)
    decreases |sections|
  {
    if sections != [] {
      var s := sections[0];
      var rest := SectionLines(sections[1..]);
      Assoc([M(s.media)], Others(s.attributes), rest);
      assert SectionLines(sections)[1..] == Others(s.attributes) + rest;
      SkipOthers(s.attributes, rest, c);
      if IsVideo(s.media) {
        if |sections| > 1 {
          var t := sections[1];
          var later := SectionLines(sections[2..]);
          assert sections[1..][1..] == sections[2..];
          Assoc([M(t.media)], Others(t.attributes), later);
          assert rest[1..] == Others(t.attributes) + later;
          var found := LastControl(s.attributes, c);
          SkipOthers(t.attributes, later, found);
          SectionsChoose(sections[2..], found);
        }
      } else {
        SectionsChoose(sections[1..], c);
      }
    }
  }

  lemma {:induction false} NoVideoNoChoice(sections: seq<Section>, c: Option<string>)
    requires forall s | s in sections :: !IsVideo(s.media)
    ensures Chosen(sections, c) == c
    decreases |sections|
  {
    if sections != [] {
      assert sections[0] in sections;
      NoVideoNoChoice(sections[1..], c);
    }
  }

  lemma {:induction false} OneVideoIsChosen(sections: seq<Section>, v: nat)
    requires v < |sections| && forall i | 0 <= i < |sections| :: IsVideo(sections[i].media) <==> i == v
    ensures Chosen(sections, None) == LastControl(sections[v].attributes, None)
    decreases v
  {
    if v == 0 {
      if |sections| > 1 {
        NoVideoNoChoice(sections[2..], LastControl(sections[0].attributes, None));
      }
    } else {
      assert !IsVideo(sections[0].media);
      OneVideoIsChosen(sections[1..], v - 1);
    }
  }

  /** Any well-formed document: fControlPath is what Chosen says of its sections. */
  lemma ControlPathIsChosen(session: seq<string>, sections: seq<Section>, end: string)
    requires var doc := Document(session, sections); doc != [] && GoodDoc(doc)
    requires Ending(end)
    ensures ParseSdp(DocText(Document(session, sections), end)) == Chosen(sections, None)
  {
    FirstMediaByLines(Document(session, sections), end);
    SkipOthers(session, SectionLines(sections), None);
    SectionsChoose(sections, None);
  }

  /**
    With exactly one RTP/AVP video section anywhere in a well-formed document,
    fControlPath is the value of the last control attribute inside that section and
    never one of the session level or of another section.
  */
  lemma ControlPathOfVideo(session: seq<string>, sections: seq<Section>, v: nat, end: string)
    requires v < |sections| && forall i | 0 <= i < |sections| :: IsVideo(sections[i].media) <==> i == v
    requires GoodDoc(Document(session, sections)) && Ending(end)
    ensures ParseSdp(DocText(Document(session, sections), end)) == LastControl(sections[v].attributes, None)
  {
    assert SectionLines(sections) != [];
    ControlPathIsChosen(session, sections, end);
    OneVideoIsChosen(sections, v);
  }

  lemma {:induction false} SkipSpaceThrough(s: string, rest: string)
    requires SkipSpace(s) == ""
    ensures SkipSpace(s + rest) == SkipSpace(rest)
  {
    if s == "" {
      assert s + rest == rest;
    } else {
      assert (s + rest)[1..] == s[1..] + rest;
      SkipSpaceThrough(s[1..], rest);
    }
  }

  /**
    Why a control attribute must not be blank: the line reads its own value exactly
    when there is one; otherwise it reads the first word of whatever comes next.
  */
  lemma ControlReadsOwnLineIffNotBlank(v: string, rest: string, c: Option<string>)
    requires rest != "" && LineEnd(rest[0])
    ensures Control("a=control:" + (v + rest), c) ==
            if Token(v).Some? then Some(Token(v).value.0)
            else if Token(rest).Some? then Some(Token(rest).value.0)
            else c
  {
    var s := "a=control:" + (v + rest);
    assert s[10..] == v + rest;
    assert !("a=rtcp-mux" <= s) by {
      assert s[2] == 'c';
    }
    if Token(v).Some? {
      TokenLocal(v, rest);
    } else {
      assert SkipSpace(v) == "" by {
        assert SkipSpace(v) != "" ==> Until(SkipSpace(v), Spaces()).0 != "";
      }
      SkipSpaceThrough(v, rest);
    }
  }
}
