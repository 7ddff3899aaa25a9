/**
  The few sscanf directives that the RTSP parsers use, and header names, on C
  strings. Numbers are read as the 64-bit C library reads them: as an unsigned
  long that is then cut to the width of the variable.
*/
module RtspScan {
  import opened Common

  predicate IsSpace(c: char) {
    c == ' ' || '\t' <= c <= '\r'
  }

  predicate IsDigit(c: char) {
    '0' <= c <= '9'
  }

  /** A white-space directive: what is left after any amount of it. */
  function SkipSpace(s: string): (r: string)
    ensures |r| <= |s| && (r != "" ==> !IsSpace(r[0]))
  {
    if s != "" && IsSpace(s[0]) then SkipSpace(s[1..]) else s
  }

  /** An ordinary directive: this text and no other. */
  function Literal(s: string, text: string): (r: Option<string>)
    ensures r.Some? <==> text <= s
    ensures r.Some? ==> s == text + r.value
  {
    if text <= s then Some(s[|text|..]) else None
  }

  /** The longest prefix without a character of a kind, and the rest. */
  function Until(s: string, stop: char -> bool): (r: (string, string))
    ensures s == r.0 + r.1 && (forall i | 0 <= i < |r.0| :: !stop(r.0[i])) && (r.1 != "" ==> stop(r.1[0]))
  {
    if s == "" || stop(s[0]) then ("", s)
    else
      var (a, rest) := Until(s[1..], stop);
      ([s[0]] + a, rest)
  }

  function Spaces(): char -> bool {
    c => IsSpace(c)
  }

  function Semicolons(): char -> bool {
    c => c == ';'
  }

  /** %s: white space, then everything up to the next white space. */
  function Token(s: string): Option<(string, string)> {
    var r := Until(SkipSpace(s), Spaces());
    if r.0 == "" then None else Some(r)
  }

  /** %[^;] */
  function UpToSemicolon(s: string): Option<(string, string)> {
    var r := Until(s, Semicolons());
    if r.0 == "" then None else Some(r)
  }

  function DigitValue(c: char): nat
    requires IsDigit(c)
  {
    c as int - '0' as int
  }

  /** The decimal digits at the start: their value on top of acc, and the rest. */
  function Digits(s: string, acc: nat): (nat, string)
    decreases |s|
  {
    if s != "" && IsDigit(s[0]) then Digits(s[1..], 10 * acc + DigitValue(s[0])) else (acc, s)
  }

  const ULONG: nat := 0x1_0000_0000_0000_0000

  /** The unsigned long that a sign and digits stand for. */
  function Unsigned(negative: bool, n: nat): nat {
    if n >= ULONG then ULONG - 1 else if negative then (ULONG - n) % ULONG else n
  }

  /** %u and %hu, for a variable that holds the values below width. */
  function Number(s: string, width: nat): Option<(nat, string)>
    requires width > 0
  {
    var t := SkipSpace(s);
    var sign := t != "" && (t[0] == '-' || t[0] == '+');
    var d := if sign then t[1..] else t;
    if d != "" && IsDigit(d[0]) then
      var (n, rest) := Digits(d, 0);
      Some((Unsigned(sign && t[0] == '-', n) % width, rest))
    else None
  }

  const UINT: nat := 0x1_0000_0000
  const USHORT: nat := 0x1_0000

  function Lower(c: char): char {
    if 'A' <= c <= 'Z' then (c as int + 32) as char else c
  }

  /** strncasecmp with all of name. */
  predicate StartsWith(line: string, name: string) {
    |name| <= |line| && forall i | 0 <= i < |name| :: Lower(line[i]) == Lower(name[i])
  }

  predicate Blank(c: char) {
    c == ' ' || c == '\t'
  }

  function SkipBlanks(s: string): string {
    if s != "" && Blank(s[0]) then SkipBlanks(s[1..]) else s
  }

  /** What checkForHeader finds after the name of a matching header; nothing leaves the caller's pointer as it was. */
  function Params(line: string, name: string): Option<string>
    requires StartsWith(line, name)
  {
    var p := SkipBlanks(line[|name|..]);
    if p == "" then None else Some(p)
  }

  // Printing and scanning a number.

  function Decimal(n: nat): (s: string)
    ensures s != "" && IsDigit(s[0]) && (forall i | 0 <= i < |s| :: IsDigit(s[i]))
  {
    var d := [('0' as int + n % 10) as char];
    if n < 10 then d else Decimal(n / 10) + d
  }

  lemma {:induction false} DigitsSplit(a: string, b: string, acc: nat)
    requires forall i | 0 <= i < |a| :: IsDigit(a[i])
    ensures Digits(a + b, acc) == Digits(b, Digits(a, acc).0)
  {
    if a == "" {
      assert a + b == b;
    } else {
      assert (a + b)[1..] == a[1..] + b && (a + b)[0] == a[0];
      DigitsSplit(a[1..], b, 10 * acc + DigitValue(a[0]));
    }
  }

  lemma {:induction false} DigitsOfDecimal(n: nat)
    ensures Digits(Decimal(n), 0).0 == n
  {
    var d := [('0' as int + n % 10) as char];
    assert forall acc: nat :: Digits(d, acc) == Digits("", 10 * acc + DigitValue(d[0]));
    if n >= 10 {
      DigitsOfDecimal(n / 10);
      DigitsSplit(Decimal(n / 10), d, 0);
    }
  }

  /** Reading a printed number gives it back, cut to the width of the variable. */
  lemma NumberOfDecimal(n: nat, tail: string, width: nat)
    requires width > 0 && n < ULONG && (tail == "" || !IsDigit(tail[0]))
    ensures Number(Decimal(n) + tail, width) == Some((n % width, tail))
  {
    var d := Decimal(n);
    assert (d + tail)[0] == d[0];
    DigitsOfDecimal(n);
    DigitsSplit(d, tail, 0);
  }

  /** A sign, and a number that is too large: the C library negates modulo 2^64 and stops at the largest value. */
  lemma NumbersPastTheEdge(n: nat, tail: string, width: nat)
    requires width > 0 && (tail == "" || !IsDigit(tail[0]))
    ensures n >= 0x1_0000_0000_0000_0000 ==>
              Number(Decimal(n) + tail, width) == Some((0xFFFF_FFFF_FFFF_FFFF % width, tail))
    ensures n < 0x1_0000_0000_0000_0000 ==> Number("+" + (Decimal(n) + tail), width) == Some((n % width, tail))
    ensures 0 < n < 0x1_0000_0000_0000_0000 ==>
              Number("-" + (Decimal(n) + tail), width) == Some(((0x1_0000_0000_0000_0000 - n) % width, tail))
  {
    var d := Decimal(n);
    assert (d + tail)[0] == d[0];
    DigitsOfDecimal(n);
    DigitsSplit(d, tail, 0);
    assert ("-" + (d + tail))[1..] == d + tail && ("+" + (d + tail))[1..] == d + tail;
  }

  // What comes after a scanned value does not change it.

  lemma {:induction false} UntilLocal(s: string, stop: char -> bool, rest: string)
    requires rest == "" || stop(rest[0])
    ensures Until(s + rest, stop) == (Until(s, stop).0, Until(s, stop).1 + rest)
  {
    if s == "" || stop(s[0]) {
      assert s == "" ==> s + rest == rest;
    } else {
      assert (s + rest)[1..] == s[1..] + rest;
      UntilLocal(s[1..], stop, rest);
    }
  }

  lemma {:induction false} SkipSpaceLocal(s: string, rest: string)
    requires SkipSpace(s) != ""
    ensures SkipSpace(s + rest) == SkipSpace(s) + rest
  {
    if IsSpace(s[0]) {
      assert (s + rest)[1..] == s[1..] + rest;
      SkipSpaceLocal(s[1..], rest);
    }
  }

  lemma TokenLocal(s: string, rest: string)
    requires Token(s).Some? && (rest == "" || IsSpace(rest[0]))
    ensures Token(s + rest) == Some((Token(s).value.0, Token(s).value.1 + rest))
  {
    SkipSpaceLocal(s, rest);
    UntilLocal(SkipSpace(s), Spaces(), rest);
  }

  lemma {:induction false} DigitsLocal(s: string, acc: nat, rest: string)
    requires rest == "" || !IsDigit(rest[0])
    ensures Digits(s + rest, acc) == (Digits(s, acc).0, Digits(s, acc).1 + rest)
    decreases |s|
  {
    if s == "" {
      assert s + rest == rest;
    } else if IsDigit(s[0]) {
      assert (s + rest)[1..] == s[1..] + rest;
      DigitsLocal(s[1..], 10 * acc + DigitValue(s[0]), rest);
    }
  }

  lemma NumberLocal(s: string, width: nat, rest: string)
    requires width > 0 && Number(s, width).Some? && (rest == "" || !IsDigit(rest[0]))
    ensures Number(s + rest, width) == Some((Number(s, width).value.0, Number(s, width).value.1 + rest))
  {
    SkipSpaceLocal(s, rest);
    var t := SkipSpace(s);
    var sign := t[0] == '-' || t[0] == '+';
    var d := if sign then t[1..] else t;
    assert (t + rest)[1..] == t[1..] + rest;
    DigitsLocal(d, 0, rest);
  }

  lemma NumberAfterSpace(s: string, width: nat)
    requires width > 0
    ensures Number(" " + s, width) == Number(s, width)
  {
    assert (" " + s)[1..] == s;
  }
}
