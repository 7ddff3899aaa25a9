/** How a status line and the headers must be printed for the reply parser to read them, and what it then reads. */
module RtspPrinted {
  import opened Common
  import opened RtspText
  import opened RtspScan
  import opened RtspReplySpec
  import opened RtspReply
  import Sdp

  // Characters.

  predicate White(c: char) {
    c == ' ' || c == '\t' || c == '\n' || c == '\U{b}' || c == '\U{c}' || c == '\r'
  }

  /** Not empty, and no white space in it. */
  predicate Word(s: string) {
    s != "" && forall i | 0 <= i < |s| :: !White(s[i])
  }

  predicate AllWhite(s: string) {
    forall i | 0 <= i < |s| :: White(s[i])
  }

  predicate NoDigitFirst(s: string) {
    s == "" || !('0' <= s[0] <= '9')
  }

  lemma SpaceIsWhite(c: char)
    ensures IsSpace(c) <==> White(c)
  {
  }

  lemma {:induction false} WhiteIsSkipped(gap: string, rest: string)
    requires AllWhite(gap) && (rest == "" || !White(rest[0]))
    ensures SkipSpace(gap + rest) == rest
  {
    if gap == "" {
      assert gap + rest == rest;
      if rest != "" {
        SpaceIsWhite(rest[0]);
      }
    } else {
      assert (gap + rest)[0] == gap[0] && (gap + rest)[1..] == gap[1..] + rest;
      SpaceIsWhite(gap[0]);
      WhiteIsSkipped(gap[1..], rest);
    }
  }

  /** A number after white space. */
  lemma NumberIsRead(gap: string, n: nat, tail: string, width: nat)
    requires AllWhite(gap) && n < ULONG && width > 0 && NoDigitFirst(tail)
    ensures Number(gap + (Decimal(n) + tail), width) == Some((n % width, tail))
  {
    var t := Decimal(n) + tail;
    assert t[0] == Decimal(n)[0];
    WhiteIsSkipped(gap, t);
    WhiteIsSkipped("", t);
    assert "" + t == t;
    NumberOfDecimal(n, tail, width);
  }

  lemma WordIsRead(word: string, rest: string)
    requires Word(word) && (rest == "" || White(rest[0]))
    ensures Token(word + rest) == Some((word, rest))
  {
    forall i | 0 <= i < |word|
      ensures !IsSpace(word[i])
    {
      SpaceIsWhite(word[i]);
    }
    assert (word + rest)[0] == word[0];
    assert forall i | 0 <= i < |word| :: !Spaces()(word[i]);
    Sdp.AllUntil(word, Spaces(), rest);
  }

  // Status lines.

  /** A printed status line is read as its code, cut to 32 bits. */
  lemma StatusIsRead(version: string, gap: string, code: nat, reason: string)
    requires Word(version) && gap != "" && AllWhite(gap) && code < ULONG && NoDigitFirst(reason)
    ensures ResponseCode("RTSP/" + (version + (gap + (Decimal(code) + reason)))) == Some(code % 0x1_0000_0000)
  {
    var rest := gap + (Decimal(code) + reason);
    assert ("RTSP/" + (version + rest))[5..] == version + rest;
    assert rest[0] == gap[0];
    WordIsRead(version, rest);
    NumberIsRead(gap, code, reason, UINT);
  }

  /** A line that does not start with RTSP/, or whose second word is no number, is not. */
  lemma OtherLinesAreNoStatus(line: string, version: string, gap: string, reason: string)
    ensures !("RTSP/" <= line) ==> ResponseCode(line).None?
    ensures Word(version) && gap != "" && AllWhite(gap) && NoDigitFirst(reason)
            && (reason != "" ==> !White(reason[0]) && reason[0] != '-' && reason[0] != '+') ==>
              ResponseCode("RTSP/" + (version + (gap + reason))).None?
  {
    if Word(version) && gap != "" && AllWhite(gap) && (reason == "" || !White(reason[0])) {
      var rest := gap + reason;
      assert ("RTSP/" + (version + rest))[5..] == version + rest;
      assert rest[0] == gap[0];
      WordIsRead(version, rest);
      WhiteIsSkipped(gap, reason);
    }
  }

  /** Blank lines before the status line are passed over. */
  lemma BlankLinesArePassed(text: string)
    ensures StatusLine("\r\n" + text) == StatusLine(text)
    ensures text == "" || text[0] != '\n' ==> StatusLine("\r" + text) == StatusLine(text)
    ensures StatusLine("\n" + text) == StatusLine(text)
  {
    AnyLineEnd("", "\r\n", text);
    AnyLineEnd("", "\n", text);
    assert "" + ("\r\n" + text) == "\r\n" + text && "" + ("\n" + text) == "\n" + text;
    if text == "" || text[0] != '\n' {
      AnyLineEnd("", "\r", text);
      assert "" + ("\r" + text) == "\r" + text;
    }
  }

  // Headers.

  /** The same character, or the same letter in the other case. */
  predicate SameLetter(a: char, b: char) {
    || a == b
    || ('A' <= a <= 'Z' && b as int == a as int + 32)
    || ('A' <= b <= 'Z' && a as int == b as int + 32)
  }

  /** The line begins with this name, in any mixture of cases. */
  predicate Named(line: string, name: string) {
    |name| <= |line| && forall i | 0 <= i < |name| :: SameLetter(line[i], name[i])
  }

  lemma LowerIsSameLetter(a: char, b: char)
    ensures Lower(a) == Lower(b) <==> SameLetter(a, b)
  {
  }

  lemma NamedIsStartsWith(line: string, name: string)
    ensures StartsWith(line, name) <==> Named(line, name)
  {
    forall i | 0 <= i < |name| && i < |line|
      ensures Lower(line[i]) == Lower(name[i]) <==> SameLetter(line[i], name[i])
    {
      LowerIsSameLetter(line[i], name[i]);
    }
  }

  predicate AllBlank(s: string) {
    forall i | 0 <= i < |s| :: s[i] == ' ' || s[i] == '\t'
  }

  /** A header with this name, blanks and this value. */
  ghost predicate Says(line: string, name: string, value: string) {
    && Named(line, name) && value != "" && value[0] != ' ' && value[0] != '\t'
    && exists blanks :: AllBlank(blanks) && line[|name|..] == blanks + value
  }

  lemma {:induction false} BlanksAreSkipped(blanks: string, value: string)
    requires AllBlank(blanks) && (value == "" || (value[0] != ' ' && value[0] != '\t'))
    ensures SkipBlanks(blanks + value) == value
  {
    if blanks == "" {
      assert blanks + value == value;
    } else {
      assert (blanks + value)[1..] == blanks[1..] + value;
      BlanksAreSkipped(blanks[1..], value);
    }
  }

  lemma ValueIsRead(line: string, name: string, value: string)
    requires Says(line, name, value)
    ensures StartsWith(line, name) && Params(line, name) == Some(value)
  {
    NamedIsStartsWith(line, name);
    var blanks :| AllBlank(blanks) && line[|name|..] == blanks + value;
    BlanksAreSkipped(blanks, value);
  }

  /** A CSeq header with this number. */
  ghost predicate SaysNumber(line: string, name: string, n: nat) {
    exists tail :: NoDigitFirst(tail) && Says(line, name, Decimal(n) + tail)
  }

  /** A CSeq header that holds a number is accepted exactly when it is the number of the request. */
  lemma CSeqIsChecked(line: string, n: nat, cseq: nat, wild: string)
    requires SaysNumber(line, "CSeq:", n) && n < 0x1_0000_0000
    ensures StartsWith(line, "CSeq:") && (CSeqFits(line, cseq, wild) <==> cseq > 0 && n == cseq)
  {
    var tail :| NoDigitFirst(tail) && Says(line, "CSeq:", Decimal(n) + tail);
    ValueIsRead(line, "CSeq:", Decimal(n) + tail);
    NumberOfDecimal(n, tail, UINT);
  }

  /** Every CSeq header holds some number. */
  ghost predicate CSeqsAreNumbers(headers: seq<string>) {
    forall h | h in headers && Named(h, "CSeq:") :: HoldsNumber(h)
  }

  ghost predicate HoldsNumber(line: string) {
    exists n: nat :: n < 0x1_0000_0000 && SaysNumber(line, "CSeq:", n)
  }

  /** Every CSeq header holds the number of the request. */
  ghost predicate CSeqsAre(headers: seq<string>, cseq: nat) {
    forall h | h in headers && Named(h, "CSeq:") :: SaysNumber(h, "CSeq:", cseq)
  }

  /** The CSeq headers of a reply are accepted exactly when each holds the number of the request. */
  lemma CSeqsAreChecked(headers: seq<string>, cseq: nat, wild: string)
    requires CSeqsAreNumbers(headers) && 0 < cseq < 0x1_0000_0000
    ensures AllAccepted(headers, cseq, wild) <==> CSeqsAre(headers, cseq)
  {
    forall h | h in headers
      ensures Accepted(h, cseq, wild) <==> (Named(h, "CSeq:") ==> SaysNumber(h, "CSeq:", cseq))
    {
      NamedIsStartsWith(h, "CSeq:");
      if Named(h, "CSeq:") {
        assert HoldsNumber(h);
        var n: nat :| n < 0x1_0000_0000 && SaysNumber(h, "CSeq:", n);
        CSeqIsChecked(h, n, cseq, wild);
        if SaysNumber(h, "CSeq:", cseq) {
          CSeqIsChecked(h, cseq, cseq, wild);
        }
      }
    }
  }

  lemma CSeqsAreNumbersIfThey(headers: seq<string>, cseq: nat)
    requires CSeqsAre(headers, cseq) && cseq < 0x1_0000_0000
    ensures CSeqsAreNumbers(headers)
  {
    forall h | h in headers && Named(h, "CSeq:")
      ensures HoldsNumber(h)
    {
      assert SaysNumber(h, "CSeq:", cseq);
    }
  }

  /**
    When parse succeeds, for a reply as a server prints it: the code is 200 and every
    CSeq header holds the number of the request, whatever the other headers say.
  */
  lemma PrintedReplySucceeds(r: Reply, status: string, version: string, gap: string, code: nat, reason: string,
                             headers: seq<string>, request: Request, cseq: nat, wild: string)
    requires Word(version) && gap != "" && AllWhite(gap) && code < 0x1_0000_0000 && NoDigitFirst(reason)
    requires status == "RTSP/" + (version + (gap + (Decimal(code) + reason)))
    requires GoodHeaders([status] + headers) && CSeqsAreNumbers(headers) && 0 < cseq < 0x1_0000_0000
    ensures ParseReply(r, ReplyText(Printed([status] + headers)), request, cseq, wild).1
            <==> code == 200 && CSeqsAre(headers, cseq)
  {
    assert ResponseCode(status) == Some(code) by {
      StatusIsRead(version, gap, code, reason);
    }
    LinesDecide(r, status, headers, request, cseq, wild);
    CSeqsAreChecked(headers, cseq, wild);
  }

  lemma LinesDecide(r: Reply, status: string, headers: seq<string>, request: Request, cseq: nat, wild: string)
    requires GoodHeaders([status] + headers)
    ensures ParseReply(r, ReplyText(Printed([status] + headers)), request, cseq, wild).1
            <==> ResponseCode(status) == Some(200) && AllAccepted(headers, cseq, wild)
  {
    PlainReply(status, headers);
    SucceedsExactly(r, ReplyText(Printed([status] + headers)), request, cseq, wild);
  }
}
