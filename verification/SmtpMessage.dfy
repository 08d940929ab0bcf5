/** The message body on its way to the server: newline normalisation, dot-stuffing and the end
    mark (sections 4.1.1.4 and 4.5.2 of RFC 5321). */
module SmtpMessage {
  import opened Wrappers

  const CRLF := "\r\n"
  const END_MARK := "\r\n.\r\n"

  // ----- The client -----

  /** Every LF and every CRLF becomes CRLF; a CR alone stays. */
  function NormalizeNewlines(s: string): string {
    if |s| == 0 then ""
    else if |s| >= 2 && s[0] == '\r' && s[1] == '\n' then CRLF + NormalizeNewlines(s[2..])
    else if s[0] == '\n' then CRLF + NormalizeNewlines(s[1..])
    else [s[0]] + NormalizeNewlines(s[1..])
  }

  function SplitCrlf(s: string): (lines: seq<string>)
    ensures |lines| > 0
  {
    if |s| == 0 then [""]
    else if |s| >= 2 && s[0] == '\r' && s[1] == '\n' then [""] + SplitCrlf(s[2..])
    else
      var rest := SplitCrlf(s[1..]);
      [[s[0]] + rest[0]] + rest[1..]
  }

  function JoinCrlf(lines: seq<string>): string
    requires |lines| > 0
  {
    if |lines| == 1 then lines[0] else lines[0] + CRLF + JoinCrlf(lines[1..])
  }

  function StuffLine(line: string): string {
    if |line| > 0 && line[0] == '.' then "." + line else line
  }

  function StuffLines(lines: seq<string>): (stuffed: seq<string>)
    ensures |stuffed| == |lines| && forall i :: 0 <= i < |lines| ==> stuffed[i] == StuffLine(lines[i])
  {
    seq(|lines|, i requires 0 <= i < |lines| => StuffLine(lines[i]))
  }

  function DotStuff(value: string): string {
    JoinCrlf(StuffLines(SplitCrlf(NormalizeNewlines(value))))
  }

  datatype Message = Message(sender: string, recipient: string, subject: string, body: string)

  datatype Formatted = Text(text: string) | HeaderInvalid

  function SanitizeHeader(value: string): Option<string> {
    var sanitized := Trim(value);
    if sanitized == "" || '\r' in sanitized || '\n' in sanitized then None else Some(sanitized)
  }

  /** A header line that is not a lone dot and stays on one line. */
  predicate HeaderLike(line: string) { |line| > 0 && line[0] != '.' && '\n' !in line }

  ghost predicate Clean(headers: seq<string>) {
    |headers| > 0 && forall i :: 0 <= i < |headers| ==> HeaderLike(headers[i])
  }

  function AddressLines(sender: string, recipient: string, subject: string, date: string): seq<string> {
    ["From: " + sender, "To: " + recipient, "Subject: " + subject, "Date: " + date]
  }

  function FixedLines(): seq<string> {
    ["MIME-Version: 1.0", "Content-Type: text/plain; charset=utf-8", "Content-Transfer-Encoding: 8bit"]
  }

  /** `date` is the clock, already printed. */
  function HeaderLines(m: Message, date: string): Option<seq<string>> {
    var sender, recipient, subject := SanitizeHeader(m.sender), SanitizeHeader(m.recipient), SanitizeHeader(m.subject);
    if sender.None? || recipient.None? || subject.None? then None
    else Some(AddressLines(sender.value, recipient.value, subject.value, date) + FixedLines())
  }

  function Compose(headers: seq<string>, body: string): string
    requires |headers| > 0
  {
    JoinCrlf(headers) + CRLF + CRLF + DotStuff(body)
  }

  function FormatMessage(m: Message, date: string): Formatted {
    var headers := HeaderLines(m, date);
    if headers.None? then HeaderInvalid else Text(Compose(headers.value, m.body))
  }

  // ----- The server -----

  /** Index of the first CRLF, or the length when there is none. */
  function CrlfAt(s: string): (n: nat)
    ensures n <= |s| && (n < |s| ==> n + 2 <= |s| && s[n..n + 2] == CRLF)
  {
    if |s| < 2 then |s|
    else if s[0] == '\r' && s[1] == '\n' then assert s[0..2] == CRLF; 0
    else
      var n := CrlfAt(s[1..]);
      assert n < |s[1..]| ==> s[1..][n..n + 2] == s[1 + n..n + 3];
      1 + n
  }

  function Unstuff(line: string): string {
    if |line| > 0 && line[0] == '.' then line[1..] else line
  }

  datatype Received = Mail(lines: seq<string>, rest: string) | Incomplete

  /** A server reads lines up to a lone dot and drops one leading dot of every other line. */
  function Receive(stream: string): Received
    decreases |stream|
  {
    var n := CrlfAt(stream);
    if n == |stream| then Incomplete
    else if stream[..n] == "." then Mail([], stream[n + 2..])
    else
      var more := Receive(stream[n + 2..]);
      if more.Incomplete? then Incomplete else Mail([Unstuff(stream[..n])] + more.lines, more.rest)
  }

  // ----- Lines -----

  ghost predicate Unbroken(lines: seq<string>) {
    forall i :: 0 <= i < |lines| ==> '\n' !in lines[i]
  }

  lemma {:induction false} SplitJoins(s: string)
    ensures JoinCrlf(SplitCrlf(s)) == s
  {
    if |s| == 0 {
    } else if |s| >= 2 && s[0] == '\r' && s[1] == '\n' {
      SplitJoins(s[2..]);
      assert SplitCrlf(s)[1..] == SplitCrlf(s[2..]);
      assert s == CRLF + s[2..];
    } else {
      SplitJoins(s[1..]);
      JoinPrepend(s[0], SplitCrlf(s[1..]));
    }
  }

  lemma Prepend(c: char, line: string, newline: string, tail: string)
    ensures [c] + line + newline + tail == [c] + (line + newline + tail)
  {
  }

  lemma JoinPrepend(c: char, lines: seq<string>)
    requires |lines| > 0
    ensures JoinCrlf([[c] + lines[0]] + lines[1..]) == [c] + JoinCrlf(lines)
  {
    var longer := [[c] + lines[0]] + lines[1..];
    assert longer[1..] == lines[1..];
    if |lines| == 1 {
      assert JoinCrlf(longer) == [c] + lines[0];
    } else {
      var tail := JoinCrlf(lines[1..]);
      assert JoinCrlf(longer) == [c] + lines[0] + CRLF + tail;
      assert JoinCrlf(lines) == lines[0] + CRLF + tail;
      Prepend(c, lines[0], CRLF, tail);
    }
  }

  /** After normalisation no line contains a line feed. */
  lemma {:induction false} NormalizedIsUnbroken(s: string)
    ensures Unbroken(SplitCrlf(NormalizeNewlines(s)))
  {
    if |s| > 0 {
      var t := NormalizeNewlines(s);
      if (|s| >= 2 && s[0] == '\r' && s[1] == '\n') || s[0] == '\n' {
        var tail := if s[0] == '\n' then s[1..] else s[2..];
        NormalizedIsUnbroken(tail);
        assert t[2..] == NormalizeNewlines(tail);
      } else {
        NormalizedIsUnbroken(s[1..]);
        NormalizedHead(s[1..]);
        assert t[1..] == NormalizeNewlines(s[1..]);
      }
    }
  }

  lemma NormalizedHead(s: string)
    ensures NormalizeNewlines(s) != "" ==> NormalizeNewlines(s)[0] != '\n'
  {
  }

  /** Normalising twice is normalising once. */
  lemma {:induction false} NormalizeIsIdempotent(s: string)
    ensures NormalizeNewlines(NormalizeNewlines(s)) == NormalizeNewlines(s)
  {
    if |s| > 0 {
      var t := NormalizeNewlines(s);
      if (|s| >= 2 && s[0] == '\r' && s[1] == '\n') || s[0] == '\n' {
        var tail := if s[0] == '\n' then s[1..] else s[2..];
        NormalizeIsIdempotent(tail);
        assert t[2..] == NormalizeNewlines(tail);
      } else {
        NormalizeIsIdempotent(s[1..]);
        NormalizedHead(s[1..]);
        assert t[1..] == NormalizeNewlines(s[1..]);
      }
    }
  }

  lemma {:induction false} CrlfAfter(line: string, rest: string)
    requires '\n' !in line
    ensures CrlfAt(line + CRLF + rest) == |line|
  {
    var s := line + CRLF + rest;
    if |line| > 0 {
      assert s[1..] == line[1..] + CRLF + rest;
      assert s[1] != '\n';
      CrlfAfter(line[1..], rest);
    }
  }

  // ----- What the server gets -----

  /** Stuffed lines, each with its CRLF. */
  function Sent(lines: seq<string>): string {
    if |lines| == 0 then "" else StuffLine(lines[0]) + CRLF + Sent(lines[1..])
  }

  lemma {:induction false} JoinedIsSent(lines: seq<string>)
    requires |lines| > 0
    ensures JoinCrlf(StuffLines(lines)) + CRLF == Sent(lines)
    decreases |lines|
  {
    if |lines| > 1 {
      assert StuffLines(lines)[1..] == StuffLines(lines[1..]);
      JoinedIsSent(lines[1..]);
      var line, tail := StuffLine(lines[0]), JoinCrlf(StuffLines(lines[1..]));
      assert line + CRLF + tail + CRLF == line + CRLF + (tail + CRLF);
    }
  }

  lemma ReceiveLine(line: string, tail: string)
    requires '\n' !in line && Receive(tail).Mail?
    ensures Receive(StuffLine(line) + CRLF + tail) == Mail([line] + Receive(tail).lines, Receive(tail).rest)
  {
    var stuffed := StuffLine(line);
    var s := stuffed + CRLF + tail;
    CrlfAfter(stuffed, tail);
    assert s[..|stuffed|] == stuffed && s[|stuffed| + 2..] == tail;
    assert ("." + line)[1..] == line;
  }

  lemma ReceiveDot(rest: string)
    ensures Receive("." + CRLF + rest) == Mail([], rest)
  {
    var s := "." + CRLF + rest;
    CrlfAfter(".", rest);
    assert s[..1] == "." && s[3..] == rest;
  }

  lemma Regroup(a: string, b: string, c: string, d: string)
    ensures a + b + c + d == a + b + (c + d) == a + (b + c) + d
  {
  }

  /** Lines without line feeds, stuffed and followed by a lone dot, arrive as they were. */
  lemma {:induction false} ServerGetsLines(lines: seq<string>, rest: string)
    requires Unbroken(lines)
    ensures Receive(Sent(lines) + ("." + CRLF + rest)) == Mail(lines, rest)
  {
    var end := "." + CRLF + rest;
    if |lines| == 0 {
      ReceiveDot(rest);
      assert Sent(lines) + end == end;
    } else {
      ServerGetsLines(lines[1..], rest);
      ReceiveLine(lines[0], Sent(lines[1..]) + end);
      Regroup(StuffLine(lines[0]), CRLF, Sent(lines[1..]), end);
      assert lines == [lines[0]] + lines[1..];
    }
  }

  // ----- The whole message as lines -----

  /** Headers, an empty line, the normalised body. */
  function MailLines(headers: seq<string>, body: string): seq<string> {
    headers + ([""] + SplitCrlf(NormalizeNewlines(body)))
  }

  lemma {:induction false} SentConcat(a: seq<string>, b: seq<string>)
    ensures Sent(a + b) == Sent(a) + Sent(b)
  {
    if |a| == 0 {
      assert a + b == b;
    } else {
      assert (a + b)[1..] == a[1..] + b;
      SentConcat(a[1..], b);
      Regroup(StuffLine(a[0]), CRLF, Sent(a[1..]), Sent(b));
    }
  }

  lemma {:induction false} HeadersAreSent(headers: seq<string>)
    requires Clean(headers)
    ensures JoinCrlf(headers) + CRLF == Sent(headers) && Unbroken(headers)
    decreases |headers|
  {
    assert HeaderLike(headers[0]);
    if |headers| > 1 {
      HeadersAreSent(headers[1..]);
      Regroup(headers[0], CRLF, JoinCrlf(headers[1..]), CRLF);
    }
  }

  lemma ComposedIsSent(headers: seq<string>, body: string)
    requires Clean(headers)
    ensures Unbroken(MailLines(headers, body)) && Compose(headers, body) + CRLF == Sent(MailLines(headers, body))
  {
    var split := SplitCrlf(NormalizeNewlines(body));
    NormalizedIsUnbroken(body);
    HeadersAreSent(headers);
    JoinedIsSent(split);
    SentConcat(headers, [""] + split);
    SentConcat([""], split);
    assert Sent([""]) == CRLF;
    Assemble(JoinCrlf(headers), CRLF, DotStuff(body));
  }

  lemma Assemble(headers: string, newline: string, body: string)
    ensures headers + newline + newline + body + newline == (headers + newline) + (newline + (body + newline))
  {
  }

  lemma EndMarkParts(text: string, rest: string)
    ensures text + END_MARK + rest == (text + CRLF) + ("." + CRLF + rest)
    ensures text + END_MARK == (text + CRLF) + ".\r\n"
  {
    assert END_MARK == CRLF + ("." + CRLF) == CRLF + ".\r\n";
  }

  lemma FixedLinesAreClean()
    ensures Clean(FixedLines())
  {
    assert HeaderLike("MIME-Version: 1.0");
    assert HeaderLike("Content-Type: text/plain; charset=utf-8");
    assert HeaderLike("Content-Transfer-Encoding: 8bit");
  }

  lemma AddressLinesAreClean(sender: string, recipient: string, subject: string, date: string)
    requires '\n' !in sender && '\n' !in recipient && '\n' !in subject && '\n' !in date
    ensures Clean(AddressLines(sender, recipient, subject, date))
  {
    assert HeaderLike("From: " + sender);
    assert HeaderLike("To: " + recipient);
    assert HeaderLike("Subject: " + subject);
    assert HeaderLike("Date: " + date);
  }

  /** Header values cannot smuggle in a line of their own. */
  lemma HeadersAreClean(m: Message, date: string)
    requires '\n' !in date && HeaderLines(m, date).Some?
    ensures Clean(HeaderLines(m, date).value)
  {
    FixedLinesAreClean();
    AddressLinesAreClean(SanitizeHeader(m.sender).value, SanitizeHeader(m.recipient).value,
                         SanitizeHeader(m.subject).value, date);
  }

  /** Main result: whatever the body, the server that undoes dot-stuffing gets the headers, an
      empty line and exactly the newline-normalised body, and continues right after the end mark. */
  lemma DotStuffingIsTransparent(headers: seq<string>, body: string, rest: string)
    requires Clean(headers)
    ensures Receive(Compose(headers, body) + END_MARK + rest)
         == Mail(headers + ([""] + SplitCrlf(NormalizeNewlines(body))), rest)
    ensures JoinCrlf(SplitCrlf(NormalizeNewlines(body))) == NormalizeNewlines(body)
  {
    ComposedIsSent(headers, body);
    ServerGetsLines(MailLines(headers, body), rest);
    EndMarkParts(Compose(headers, body), rest);
    SplitJoins(NormalizeNewlines(body));
  }

  /** A message is refused if and only if one of its three header values is blank or keeps a CR or a
      LF after trimming. */
  lemma RefusedExactlyWhen(m: Message, date: string)
    ensures FormatMessage(m, date) == HeaderInvalid <==> exists value ::
      && value in {m.sender, m.recipient, m.subject}
      && ((forall c :: c in value ==> IsWhitespace(c)) || '\r' in Trim(value) || '\n' in Trim(value))
  {
    var values := {m.sender, m.recipient, m.subject};
    TrimEmpty(m.sender);
    TrimEmpty(m.recipient);
    TrimEmpty(m.subject);
    assert m.sender in values && m.recipient in values && m.subject in values;
  }

  /** Main result: an accepted message arrives line by line: the trimmed sender, recipient and subject
      under their names, the date, the fixed headers, an empty line and the lines of the body. */
  lemma FormattedMessageArrives(m: Message, date: string, rest: string)
    requires '\n' !in date && FormatMessage(m, date).Text?
    ensures Receive(FormatMessage(m, date).text + "\r\n.\r\n" + rest) == Mail(
      ["From: " + Trim(m.sender), "To: " + Trim(m.recipient), "Subject: " + Trim(m.subject), "Date: " + date,
       "MIME-Version: 1.0", "Content-Type: text/plain; charset=utf-8", "Content-Transfer-Encoding: 8bit", ""]
      + SplitCrlf(NormalizeNewlines(m.body)), rest)
  {
    HeadersAreClean(m, date);
    DotStuffingIsTransparent(HeaderLines(m, date).value, m.body, rest);
    AllHeaders(Trim(m.sender), Trim(m.recipient), Trim(m.subject), date, SplitCrlf(NormalizeNewlines(m.body)));
  }

  lemma AllHeaders(sender: string, recipient: string, subject: string, date: string, body: seq<string>)
    ensures AddressLines(sender, recipient, subject, date) + FixedLines() + ([""] + body) ==
      ["From: " + sender, "To: " + recipient, "Subject: " + subject, "Date: " + date,
       "MIME-Version: 1.0", "Content-Type: text/plain; charset=utf-8", "Content-Transfer-Encoding: 8bit", ""] + body
  {
  }

  // ----- The lines of a body -----

  /** Lines with a line end of either kind between any two. */
  function Mixed(lines: seq<string>, ends: seq<string>): string
    requires |lines| == |ends| + 1
  {
    if |ends| == 0 then lines[0] else lines[0] + ends[0] + Mixed(lines[1..], ends[1..])
  }

  /** Main result: what is sent of a body is its lines, whether LF or CRLF ends each of them. */
  lemma {:induction false} NewlinesMean(lines: seq<string>, ends: seq<string>)
    requires |lines| == |ends| + 1 && Unbroken(lines)
    requires forall i :: 0 <= i < |ends| ==>
      ends[i] == "\r\n" || (ends[i] == "\n" && (lines[i] == "" || lines[i][|lines[i]| - 1] != '\r'))
    ensures SplitCrlf(NormalizeNewlines(Mixed(lines, ends))) == lines
    decreases |ends|
  {
    if |ends| == 0 {
      LineAlone(lines[0]);
    } else {
      var tail := Mixed(lines[1..], ends[1..]);
      NewlinesMean(lines[1..], ends[1..]);
      NormalizeAfter(lines[0], ends[0], tail);
      SplitAfter(lines[0], NormalizeNewlines(tail));
    }
  }

  lemma {:induction false} LineAlone(line: string)
    requires '\n' !in line
    ensures NormalizeNewlines(line) == line && SplitCrlf(line) == [line]
  {
    if |line| > 0 {
      LineAlone(line[1..]);
      assert line == [line[0]] + line[1..];
      assert |line| >= 2 ==> line[1] in line;
    }
  }

  lemma KeptCharacter(c: char, rest: string)
    requires c != '\n' && (c == '\r' ==> rest == "" || rest[0] != '\n')
    ensures NormalizeNewlines([c] + rest) == [c] + NormalizeNewlines(rest)
  {
    assert ([c] + rest)[1..] == rest;
  }

  lemma LineEnd(end: string, tail: string)
    requires end == "\r\n" || end == "\n"
    ensures NormalizeNewlines(end + tail) == "\r\n" + NormalizeNewlines(tail)
  {
    assert (end + tail)[|end|..] == tail;
  }

  lemma {:induction false} NormalizeAfter(line: string, end: string, tail: string)
    requires '\n' !in line && (end == "\r\n" || (end == "\n" && (line == "" || line[|line| - 1] != '\r')))
    ensures NormalizeNewlines(line + end + tail) == line + "\r\n" + NormalizeNewlines(tail)
  {
    if |line| == 0 {
      LineEnd(end, tail);
      assert line + end + tail == end + tail;
    } else {
      var c, rest := line[0], line[1..];
      assert line == [c] + rest && (|rest| > 0 ==> rest[0] in line);
      NormalizeAfter(rest, end, tail);
      KeptCharacter(c, rest + end + tail);
      Prepend(c, rest, end, tail);
      Prepend(c, rest, "\r\n", NormalizeNewlines(tail));
    }
  }

  lemma {:induction false} SplitAfter(line: string, tail: string)
    requires '\n' !in line
    ensures SplitCrlf(line + "\r\n" + tail) == [line] + SplitCrlf(tail)
  {
    var s := line + "\r\n" + tail;
    if |line| == 0 {
      assert s[2..] == tail;
    } else {
      SplitAfter(line[1..], tail);
      assert s[1..] == line[1..] + "\r\n" + tail;
      assert s[0] == line[0] && line[0] in line;
      assert |line| > 1 ==> s[1] == line[1] && line[1] in line;
      assert line == [line[0]] + line[1..];
    }
  }

  // ----- The end mark -----

  predicate EndMarkAt(s: string, i: nat) {
    i + 5 <= |s| && s[i] == '\r' && s[i + 1] == '\n' && s[i + 2] == '.' && s[i + 3] == '\r' && s[i + 4] == '\n'
  }

  lemma {:induction false} NoEarlyEndMark(lines: seq<string>, i: nat)
    requires Unbroken(lines) && i + 2 < |Sent(lines)|
    ensures !EndMarkAt(Sent(lines) + ".\r\n", i)
  {
    if |lines| > 0 {
      var line, tail := StuffLine(lines[0]), Sent(lines[1..]) + ".\r\n";
      var s := Sent(lines) + ".\r\n";
      assert s == line + CRLF + tail;
      if i > |line| + 1 {
        NoEarlyEndMark(lines[1..], i - |line| - 2);
        MarkInTail(line, tail, i);
      } else if i == |line| && |lines| > 1 {
        SentStart(lines[1..]);
        assert s[i + 2] == tail[0] && s[i + 3] == tail[1];
      } else if i + 1 < |line| {
        assert s[i + 1] == line[i + 1] && line[i + 1] in line;
        assert line[i + 1] == '.' || line[i + 1] in lines[0];
      }
    }
  }

  lemma MarkInTail(line: string, tail: string, i: nat)
    requires i >= |line| + 2
    ensures EndMarkAt(line + CRLF + tail, i) <==> EndMarkAt(tail, i - |line| - 2)
  {
  }

  /** A stuffed text never starts with a dot and something other than a dot. */
  lemma SentStart(lines: seq<string>)
    requires |lines| > 0
    ensures |Sent(lines)| >= 2 && (Sent(lines)[0] == '.' ==> Sent(lines)[1] == '.')
  {
  }

  lemma MarkMeans(s: string, i: nat)
    requires i + 5 <= |s|
    ensures EndMarkAt(s, i) <==> s[i..i + 5] == "\r\n.\r\n"
  {
    var t := s[i..i + 5];
    assert t[0] == s[i] && t[1] == s[i + 1] && t[2] == s[i + 2] && t[3] == s[i + 3] && t[4] == s[i + 4];
  }

  /** In a message followed by the end mark, the first end mark is that one. */
  lemma FirstEndMarkIsTheLast(headers: seq<string>, body: string, i: nat)
    requires Clean(headers) && i <= |Compose(headers, body)|
    ensures (Compose(headers, body) + "\r\n.\r\n")[i..i + 5] == "\r\n.\r\n" <==> i == |Compose(headers, body)|
  {
    ComposedIsSent(headers, body);
    var text, lines := Compose(headers, body), MailLines(headers, body);
    EndMarkParts(text, "");
    MarkMeans(text + END_MARK, i);
    if i < |text| {
      NoEarlyEndMark(lines, i);
    }
  }
}
