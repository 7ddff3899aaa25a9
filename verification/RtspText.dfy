/**
  RTSP text: C strings as sequences of characters, the in-place line splitter,
  and the text that the request builder prints.
*/
module RtspText {
  import opened Common

  /** The C string at the start of a piece of memory. */
  function CString(b: seq<char>): string {
    if b == [] || b[0] == '\0' then "" else [b[0]] + CString(b[1..])
  }

  /** A C string ends at its first NUL. */
  lemma {:induction false} CStringEnds(b: seq<char>, n: nat)
    requires n <= |b| && '\0' !in b[..n] && (n < |b| ==> b[n] == '\0')
    ensures CString(b) == b[..n]
  {
    if n > 0 {
      assert b[..n][0] == b[0] && forall c | c in b[1..][..n - 1] :: c in b[..n];
      CStringEnds(b[1..], n - 1);
    }
  }

  predicate LineEnd(c: char) {
    c == '\r' || c == '\n'
  }

  /** No line end and no NUL. */
  predicate Plain(s: string) {
    forall i | 0 <= i < |s| :: !LineEnd(s[i]) && s[i] != '\0'
  }

  /** The first line, and what comes after its CR, LF or CRLF if it has one. */
  function SplitLine(s: string): (r: (string, Option<string>))
    ensures r.1.Some? ==> |r.0| + |r.1.value| < |s|
  {
    if s == "" then ("", None)
    else if s[0] == '\r' then ("", Some(if |s| > 1 && s[1] == '\n' then s[2..] else s[1..]))
    else if s[0] == '\n' then ("", Some(s[1..]))
    else
      var (line, rest) := SplitLine(s[1..]);
      ([s[0]] + line, rest)
  }

  /** CR, LF and CRLF each end a line, and nothing else does. */
  lemma AnyLineEnd(line: string, end: string, rest: string)
    requires forall i | 0 <= i < |line| :: line[i] != '\r' && line[i] != '\n' && line[i] != '\0'
    requires end == "\r\n" || end == "\n" || (end == "\r" && (rest == "" || rest[0] != '\n'))
    ensures SplitLine(line + (end + rest)) == (line, Some(rest)) && SplitLine(line) == (line, None)
  {
    var t := end + rest;
    PlainPrefix(line, t);
    PlainPrefix(line, "");
    assert line + "" == line;
    assert t[|end|..] == rest;
    assert SplitLine(t) == ("", Some(rest));
  }

  /** All lines. */
  function Lines(s: string): seq<string>
    decreases |s|
  {
    var (line, rest) := SplitLine(s);
    [line] + if rest.Some? then Lines(rest.value) else []
  }

  lemma {:induction false} PlainPrefix(a: string, b: seq<char>)
    requires Plain(a)
    ensures CString(a + b) == a + CString(b)
    ensures SplitLine(a + b) == (a + SplitLine(b).0, SplitLine(b).1)
  {
    if a == "" {
      assert a + b == b && a + SplitLine(b).0 == SplitLine(b).0;
    } else {
      assert (a + b)[1..] == a[1..] + b;
      PlainPrefix(a[1..], b);
      assert (a + b)[0] == a[0] && !LineEnd(a[0]) && Plain(a[1..]);
      assert a == [a[0]] + a[1..];
      Assoc([a[0]], a[1..], CString(b));
      Assoc([a[0]], a[1..], SplitLine(b).0);
    }
  }

  /** What getLine finds at the line end in b after the first n characters. */
  lemma LineEndsAt(b: seq<char>, n: nat)
    requires n < |b| && Plain(b[..n]) && (LineEnd(b[n]) || b[n] == '\0')
    ensures CString(b[n := '\0']) == b[..n] == SplitLine(CString(b)).0
    ensures var rest := SplitLine(CString(b)).1;
            if b[n] == '\0' then rest == None
            else if b[n] == '\r' && n + 1 < |b| && b[n + 1] == '\n' then rest == Some(CString(b[n + 2..]))
            else rest == Some(CString(b[n + 1..]))
  {
    var a, t := b[..n], b[n..];
    assert b == a + t && b[n := '\0'] == a + t[0 := '\0'];
    assert t[1..] == b[n + 1..] && (n + 1 < |b| ==> t[1..][1..] == b[n + 2..]);
    PlainPrefix(a, t);
    PlainPrefix(a, t[0 := '\0']);
    PlainPrefix(a, CString(t));
  }

  /**
    getLine: ends the line that starts at start in place, with a NUL, and gives
    the start of the next one. It does what SplitLine says and touches nothing else.
  */
  method GetLine(buf: array<char>, start: nat) returns (next: Option<nat>)
    requires start < buf.Length && '\0' in buf[start..]
    modifies buf
    ensures var (line, rest) := SplitLine(CString(old(buf[start..])));
            && CString(buf[start..]) == line
            && (match next
                case None => rest == None && buf[..] == old(buf[..])
                case Some(p) => start < p < buf.Length && rest == Some(CString(buf[p..])) && buf[p..] == old(buf[p..]))
    ensures buf[..start] == old(buf[..start])
  {
    var at := LineLength(buf, start);
    ghost var b, n := buf[start..], at - start;
    LineEndsAt(b, n);
    if buf[at] == '\0' {
      assert buf[start..] == b[n := '\0'];
      return None;
    }
    var p := at + 1;
    if buf[at] == '\r' && buf[p] == '\n' {
      p := p + 1;
    }
    buf[at] := '\0';
    assert buf[start..] == b[n := '\0'] && buf[p..] == b[p - start..];
    return Some(p);
  }

  /** The scan of getLine. */
  method LineLength(buf: array<char>, start: nat) returns (ptr: nat)
    requires start < buf.Length && '\0' in buf[start..]
    ensures start <= ptr < buf.Length && Plain(buf[start..][..ptr - start]) && (LineEnd(buf[ptr]) || buf[ptr] == '\0')
    ensures LineEnd(buf[ptr]) ==> ptr + 1 < buf.Length
  {
    ghost var b := buf[start..];
    ptr := start;
    while buf[ptr] != '\0' && buf[ptr] != '\r' && buf[ptr] != '\n'
      invariant start <= ptr < buf.Length && Plain(b[..ptr - start]) && '\0' in b[ptr - start..]
      decreases buf.Length - ptr
    {
      ptr := ptr + 1;
    }
  }

  // What the request builder prints.

  function Joined(lines: seq<string>): string {
    if lines == [] then "" else lines[0] + "\r\n" + Joined(lines[1..])
  }

  /** A whole message without a body: the lines, then a blank one. */
  function Printed(lines: seq<string>): string {
    Joined(lines) + "\r\n"
  }

  lemma {:induction false} JoinedMore(lines: seq<string>, line: string)
    ensures Joined(lines + [line]) == Joined(lines) + line + "\r\n"
  {
    if lines == [] {
      assert Joined([line]) == line + "\r\n" + "";
    } else {
      assert (lines + [line])[1..] == lines[1..] + [line];
      JoinedMore(lines[1..], line);
      var a := lines[0] + "\r\n";
      Assoc(a, Joined(lines[1..]), line);
      Assoc(a, Joined(lines[1..]) + line, "\r\n");
    }
  }

  /** The text that a reader of n bytes sees: the last one is replaced by a NUL. */
  function ReplyText(data: seq<char>): string {
    if data == [] then "" else CString(data[..|data| - 1])
  }

  predicate AllPlain(lines: seq<string>) {
    forall l | l in lines :: Plain(l)
  }

  lemma FirstLineOf(line: string, rest: string)
    requires Plain(line)
    ensures SplitLine(line + "\r\n" + rest) == (line, Some(rest))
    ensures CString(line + "\r\n" + rest) == line + "\r\n" + CString(rest)
  {
    var t := "\r\n" + rest;
    Assoc(line, "\r\n", rest);
    Assoc(line, "\r\n", CString(rest));
    PlainPrefix(line, t);
    LineEndFirst(rest);
    assert line + "" == line;
  }

  lemma LineEndFirst(rest: string)
    ensures SplitLine("\r\n" + rest) == ("", Some(rest))
    ensures CString("\r\n" + rest) == "\r\n" + CString(rest)
  {
    var t := "\r\n" + rest;
    assert t[2..] == rest && t[1..] == "\n" + rest && t[1..][1..] == rest;
  }

  /**
    Printer and splitter: the lines come back, then a blank one (and an empty rest),
    although the last byte of the message was replaced by a NUL.
  */
  lemma {:induction false} PrintedLines(lines: seq<string>)
    requires AllPlain(lines)
    ensures Lines(ReplyText(Printed(lines))) == lines + ["", ""]
  {
    var text := Printed(lines)[..|Printed(lines)| - 1];
    if lines == [] {
      assert Printed([]) == "\r\n" && text == "\r";
      assert CString("\r") == "\r" + CString("");
      assert Lines("\r") == [""] + Lines("");
    } else {
      var l, more := lines[0], Printed(lines[1..]);
      assert Plain(l) && AllPlain(lines[1..]);
      Assoc(l + "\r\n", Joined(lines[1..]), "\r\n");
      assert Printed(lines) == l + "\r\n" + more;
      assert text == l + "\r\n" + more[..|more| - 1];
      FirstLineOf(l, more[..|more| - 1]);
      FirstLineOf(l, ReplyText(more));
      PrintedLines(lines[1..]);
      assert lines + ["", ""] == [l] + (lines[1..] + ["", ""]);
    }
  }
}
