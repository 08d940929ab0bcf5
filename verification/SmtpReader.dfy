/** The SMTP client's reply reader: bytes arrive in arbitrary chunks, callers ask for replies
    at arbitrary moments, and the two meet in a pair of queues. */
module SmtpReader {
  import opened Wrappers

  // ----- Replies of a whole stream, as the reader groups its lines -----

  /** Index of the first line feed, or the length when there is none. */
  function LineEnd(s: string): (n: nat)
    ensures n <= |s| && '\n' !in s[..n] && (n < |s| ==> s[n] == '\n')
  {
    if |s| == 0 || s[0] == '\n' then 0
    else
      var n := LineEnd(s[1..]);
      assert s[..1 + n] == [s[0]] + s[1..][..n];
      1 + n
  }

  function StripCr(line: string): string {
    if |line| > 0 && line[|line| - 1] == '\r' then line[..|line| - 1] else line
  }

  function CompleteLines(s: string): seq<string>
    decreases |s|
  {
    var n := LineEnd(s);
    if n == |s| then [] else [StripCr(s[..n])] + CompleteLines(s[n + 1..])
  }

  function Unfinished(s: string): string
    decreases |s|
  {
    var n := LineEnd(s);
    if n == |s| then s else Unfinished(s[n + 1..])
  }

  /** Three digits and a space: what the reader takes for the last line of a reply. */
  predicate IsLast(line: string) {
    |line| >= 4 && IsDigit(line[0]) && IsDigit(line[1]) && IsDigit(line[2]) && line[3] == ' '
  }

  type Reply = seq<string>

  /** Replies completed by `lines` when the lines of `current` are already collected. */
  function Replies(lines: seq<string>, current: Reply): seq<Reply>
    decreases |lines|
  {
    if |lines| == 0 then []
    else if IsLast(lines[0]) then [current + [lines[0]]] + Replies(lines[1..], [])
    else Replies(lines[1..], current + [lines[0]])
  }

  function Partial(lines: seq<string>, current: Reply): Reply
    decreases |lines|
  {
    if |lines| == 0 then current
    else if IsLast(lines[0]) then Partial(lines[1..], [])
    else Partial(lines[1..], current + [lines[0]])
  }

  function AllReplies(stream: string): seq<Reply> { Replies(CompleteLines(stream), []) }

  // ----- The reader as a transition system -----

  datatype Outcome = Resolved(reply: Reply) | Rejected

  /** `delivered` logs the calls of `next` in the order in which they received replies. */
  datatype Reader = Reader(
    buffer: string, current: Reply, responses: seq<Reply>, waiters: seq<nat>,
    calls: nat, settled: map<nat, Outcome>, delivered: seq<nat>)

  const IDLE := Reader("", [], [], [], 0, map[], [])

  function Settle(r: Reader, call: nat, reply: Reply): Reader {
    r.(settled := r.settled[call := Resolved(reply)], delivered := r.delivered + [call])
  }

  function Flush(r: Reader): Reader
    decreases |r.waiters|
  {
    if |r.responses| == 0 || |r.waiters| == 0 then r
    else Flush(Settle(r, r.waiters[0], r.responses[0]).(responses := r.responses[1..], waiters := r.waiters[1..]))
  }

  /** Turn the complete lines of the buffer into replies. */
  function Digest(r: Reader): Reader {
    var lines := CompleteLines(r.buffer);
    r.(buffer := Unfinished(r.buffer),
       current := Partial(lines, r.current),
       responses := r.responses + Replies(lines, r.current))
  }

  function Absorb(r: Reader, chunk: string): Reader { Digest(r.(buffer := r.buffer + chunk)) }

  /** Take the first line off the buffer, which ends at `n`. */
  function TakeLine(r: Reader, n: nat): Reader
    requires n < |r.buffer|
  {
    var line := StripCr(r.buffer[..n]);
    var rest := r.(buffer := r.buffer[n + 1..]);
    if IsLast(line) then rest.(responses := r.responses + [r.current + [line]], current := [])
    else rest.(current := r.current + [line])
  }

  function Next(r: Reader): Reader {
    var called := r.(calls := r.calls + 1);
    if |r.responses| > 0 then Settle(called, r.calls, r.responses[0]).(responses := r.responses[1..])
    else called.(waiters := r.waiters + [r.calls])
  }

  function Fail(r: Reader): Reader {
    r.(waiters := [], settled := r.settled + (map id | id in r.waiters :: Rejected))
  }

  datatype Event = Data(chunk: string) | NextCall | SocketError

  function Step(r: Reader, e: Event): Reader {
    match e
    case Data(chunk) => Flush(Absorb(r, chunk))
    case NextCall => Next(r)
    case SocketError => Fail(r)
  }

  function Run(r: Reader, events: seq<Event>): Reader
    decreases |events|
  {
    if |events| == 0 then r else Run(Step(r, events[0]), events[1..])
  }

  function Bytes(e: Event): string { if e.Data? then e.chunk else "" }

  /** The bytes of a run in order of arrival. */
  function Stream(events: seq<Event>): string
    decreases |events|
  {
    if |events| == 0 then "" else Bytes(events[0]) + Stream(events[1..])
  }

  function Calls(events: seq<Event>): nat
    decreases |events|
  {
    if |events| == 0 then 0 else (if events[0].NextCall? then 1 else 0) + Calls(events[1..])
  }

  // ----- Splitting a stream does not matter -----

  lemma {:induction false} LineEndConcat(a: string, b: string)
    ensures LineEnd(a + b) == if LineEnd(a) < |a| then LineEnd(a) else |a| + LineEnd(b)
  {
    if |a| == 0 {
      assert a + b == b;
    } else if a[0] != '\n' {
      assert (a + b)[1..] == a[1..] + b;
      LineEndConcat(a[1..], b);
    }
  }

  lemma {:induction false} LinesConcat(a: string, b: string)
    ensures CompleteLines(a + b) == CompleteLines(a) + CompleteLines(Unfinished(a) + b)
    ensures Unfinished(a + b) == Unfinished(Unfinished(a) + b)
    decreases |a|
  {
    var n := LineEnd(a);
    if n < |a| {
      LinesConcat(a[n + 1..], b);
      FirstLineConcat(a, b, n);
    }
  }

  lemma FirstLineConcat(a: string, b: string, n: nat)
    requires n == LineEnd(a) < |a|
    ensures var line, tail := StripCr(a[..n]), a[n + 1..];
      && CompleteLines(a) == [line] + CompleteLines(tail) && CompleteLines(a + b) == [line] + CompleteLines(tail + b)
      && Unfinished(a) == Unfinished(tail) && Unfinished(a + b) == Unfinished(tail + b)
  {
    LineEndConcat(a, b);
    SplitAfter(a, b, n);
    LinesStep(a, n);
    LinesStep(a + b, n);
  }

  lemma SplitAfter(a: string, b: string, n: nat)
    requires n < |a|
    ensures (a + b)[..n] == a[..n] && (a + b)[n + 1..] == a[n + 1..] + b
  {
  }

  lemma LinesStep(s: string, n: nat)
    requires n == LineEnd(s) < |s|
    ensures CompleteLines(s) == [StripCr(s[..n])] + CompleteLines(s[n + 1..])
    ensures Unfinished(s) == Unfinished(s[n + 1..])
  {
  }

  lemma {:induction false} RepliesConcat(x: seq<string>, y: seq<string>, current: Reply)
    ensures Replies(x + y, current) == Replies(x, current) + Replies(y, Partial(x, current))
    ensures Partial(x + y, current) == Partial(y, Partial(x, current))
    decreases |x|
  {
    if |x| == 0 {
      assert x + y == y;
    } else {
      assert (x + y)[1..] == x[1..] + y;
      RepliesConcat(x[1..], y, if IsLast(x[0]) then [] else current + [x[0]]);
    }
  }

  // ----- What lines and replies are, for any bytes -----

  /** A line is what precedes a line feed, less one carriage return at its end; what follows the
      last line feed is no line yet. */
  lemma LineByLine(line: string, rest: string)
    requires '\n' !in line
    ensures CompleteLines(line) == [] && Unfinished(line) == line
    ensures CompleteLines(line + "\r\n" + rest) == [line] + CompleteLines(rest) && Unfinished(line + "\r\n" + rest) == Unfinished(rest)
    ensures (|line| == 0 || line[|line| - 1] != '\r') ==>
      CompleteLines(line + "\n" + rest) == [line] + CompleteLines(rest) && Unfinished(line + "\n" + rest) == Unfinished(rest)
  {
    NoLine(line);
    var ended := line + "\r";
    assert line + "\r\n" + rest == ended + "\n" + rest;
    OneLine(ended, rest);
    OneLine(line, rest);
    assert ended[..|ended| - 1] == line;
  }

  lemma {:induction false} NoLine(line: string)
    requires '\n' !in line
    ensures LineEnd(line) == |line|
  {
    if |line| > 0 {
      assert line[0] in line;
      NoLine(line[1..]);
    }
  }

  lemma OneLine(line: string, rest: string)
    requires '\n' !in line
    ensures CompleteLines(line + "\n" + rest) == [StripCr(line)] + CompleteLines(rest) && Unfinished(line + "\n" + rest) == Unfinished(rest)
  {
    var s := line + "\n" + rest;
    LineEndAt(line, rest);
    assert s[..|line|] == line && s[|line| + 1..] == rest;
    LinesStep(s, |line|);
  }

  /** The line that ends a reply: three digits and a blank, and then anything. */
  lemma LastMeans(line: string)
    ensures IsLast(line) <==>
      && |line| >= 4 && line[3] == ' '
      && line[0] in "0123456789" && line[1] in "0123456789" && line[2] in "0123456789"
  {
    forall c: char
      ensures IsDigit(c) <==> c in "0123456789"
    {
      DigitMeans(c);
    }
  }

  function Flatten(replies: seq<Reply>): seq<string> {
    if |replies| == 0 then [] else replies[0] + Flatten(replies[1..])
  }

  /** The replies of any lines: no line is lost, added or moved, every reply is cut after the first
      line that ends one, and what has no such line waits. */
  lemma {:induction false} RepliesMean(lines: seq<string>, current: Reply)
    requires forall line :: line in current ==> !IsLast(line)
    ensures Flatten(Replies(lines, current)) + Partial(lines, current) == current + lines
    ensures forall r :: r in Replies(lines, current) ==>
      |r| > 0 && IsLast(r[|r| - 1]) && forall line :: line in r[..|r| - 1] ==> !IsLast(line)
    ensures forall line :: line in Partial(lines, current) ==> !IsLast(line)
    decreases |lines|
  {
    if |lines| > 0 {
      var done := current + [lines[0]];
      assert current + lines == done + lines[1..];
      if IsLast(lines[0]) {
        RepliesMean(lines[1..], []);
        assert done[..|done| - 1] == current;
        assert Flatten([done] + Replies(lines[1..], [])) == done + Flatten(Replies(lines[1..], []));
        assert [] + lines[1..] == lines[1..];
      } else {
        RepliesMean(lines[1..], done);
      }
    }
  }

  // ----- Replies by the grammar of section 4.2.1 of RFC 5321 -----

  /** Reply-code: three digits in their ranges. */
  predicate IsReplyCode(s: string) {
    |s| == 3 && '2' <= s[0] <= '5' && '0' <= s[1] <= '5' && '0' <= s[2] <= '9'
  }

  /** The characters of a textstring: tab, blank and the printable ones. */
  predicate IsText(s: string) { forall i :: 0 <= i < |s| ==> s[i] == '\t' || ' ' <= s[i] <= '~' }

  /** Every line but the last: code, hyphen, text. */
  predicate IsContinuation(line: string) {
    |line| >= 4 && IsReplyCode(line[..3]) && line[3] == '-' && IsText(line[4..])
  }

  /** The last line: the code, and a blank with or without text unless the server omits both. */
  predicate IsFinal(line: string) {
    |line| >= 3 && IsReplyCode(line[..3]) && (|line| == 3 || (line[3] == ' ' && IsText(line[4..])))
  }

  predicate IsReply(reply: Reply) {
    |reply| > 0 && IsFinal(reply[|reply| - 1]) && forall i :: 0 <= i < |reply| - 1 ==> IsContinuation(reply[i])
  }

  /** The last line carries its blank. */
  predicate HasBlank(reply: Reply) { |reply| > 0 && |reply[|reply| - 1]| > 3 }

  function Wire(lines: seq<string>): string {
    if |lines| == 0 then "" else lines[0] + "\r\n" + Wire(lines[1..])
  }

  function WireAll(replies: seq<Reply>): string {
    if |replies| == 0 then "" else Wire(replies[0]) + WireAll(replies[1..])
  }

  /** What the reader makes of replies: one without the blank is glued to the next. */
  function Glued(replies: seq<Reply>, current: Reply): seq<Reply>
    decreases |replies|
  {
    if |replies| == 0 then []
    else if HasBlank(replies[0]) then [current + replies[0]] + Glued(replies[1..], [])
    else Glued(replies[1..], current + replies[0])
  }

  /** The codes and the text of that section, in figures. */
  lemma GrammarInFigures(s: string)
    ensures IsReplyCode(s) <==> |s| == 3 && s[0] in "2345" && s[1] in "012345" && s[2] in "0123456789"
    ensures IsText(s) <==> forall c :: c in s ==> c as int == 9 || 32 <= c as int <= 126
  {
    if |s| == 3 {
      DigitMeans(s[2]);
      assert '0' <= s[1] <= '5' ==> s[1] in ['0', '1', '2', '3', '4', '5'];
      assert '2' <= s[0] <= '5' ==> s[0] in ['2', '3', '4', '5'];
    }
    if forall c :: c in s ==> c as int == 9 || 32 <= c as int <= 126 {
      forall i | 0 <= i < |s|
        ensures s[i] == '\t' || ' ' <= s[i] <= '~'
      {
        assert s[i] in s;
        assert s[i] as int == 9 ==> s[i] == '\t';
      }
    }
  }

  /** The two kinds of line: a code with a hyphen and text, and a code alone or with a blank and text. */
  lemma GrammarMeans(line: string)
    ensures IsContinuation(line) <==> exists code, text :: IsReplyCode(code) && IsText(text) && line == code + "-" + text
    ensures IsFinal(line) <==> exists code, text :: IsReplyCode(code) && IsText(text) && (line == code || line == code + " " + text)
  {
    if |line| >= 4 {
      var code, text := line[..3], line[4..];
      assert line == code + [line[3]] + text;
    } else if |line| == 3 {
      assert line == line[..3] && IsText("");
    }
    forall code, text | IsReplyCode(code) && IsText(text)
      ensures line == code + "-" + text ==> line[..3] == code && line[4..] == text
      ensures line == code + " " + text ==> line[..3] == code && line[4..] == text
      ensures line == code ==> line[..3] == code
    {
    }
  }

  lemma {:induction false} LineEndAt(line: string, rest: string)
    requires '\n' !in line
    ensures LineEnd(line + "\n" + rest) == |line|
  {
    if |line| == 0 {
      assert line + "\n" + rest == "\n" + rest;
    } else {
      assert (line + "\n" + rest)[1..] == line[1..] + "\n" + rest;
      LineEndAt(line[1..], rest);
    }
  }

  lemma {:induction false} WireLines(lines: seq<string>)
    requires forall i :: 0 <= i < |lines| ==> '\n' !in lines[i]
    ensures CompleteLines(Wire(lines)) == lines && Unfinished(Wire(lines)) == ""
  {
    if |lines| > 0 {
      var s, line := Wire(lines), lines[0] + "\r";
      assert s == line + "\n" + Wire(lines[1..]);
      LineEndAt(line, Wire(lines[1..]));
      assert s[..|line|] == line && s[|line| + 1..] == Wire(lines[1..]);
      assert StripCr(line) == lines[0];
      WireLines(lines[1..]);
    }
  }

  /** No line of the grammar breaks, and the reader sees through it what it is. */
  lemma GrammarLines(line: string)
    requires IsContinuation(line) || IsFinal(line)
    ensures '\n' !in line && (IsLast(line) <==> IsFinal(line) && |line| > 3)
  {
    assert line[..3][0] == line[0] && line[..3][1] == line[1] && line[..3][2] == line[2];
    forall i | 0 <= i < |line|
      ensures line[i] != '\n'
    {
      if i >= 4 {
        assert line[4..][i - 4] == line[i];
      }
    }
  }

  lemma {:induction false} OneReply(reply: Reply, current: Reply)
    requires IsReply(reply)
    ensures Replies(reply, current) == (if HasBlank(reply) then [current + reply] else [])
    ensures Partial(reply, current) == if HasBlank(reply) then [] else current + reply
    decreases |reply|
  {
    if |reply| == 1 {
      GrammarLines(reply[0]);
      assert reply == [reply[0]];
    } else {
      assert IsContinuation(reply[0]);
      GrammarLines(reply[0]);
      assert forall i :: 0 <= i < |reply[1..]| - 1 ==> reply[1..][i] == reply[i + 1];
      OneReply(reply[1..], current + [reply[0]]);
      assert current + [reply[0]] + reply[1..] == current + reply;
    }
  }

  lemma ReplyLines(reply: Reply)
    requires IsReply(reply)
    ensures forall i :: 0 <= i < |reply| ==> '\n' !in reply[i]
  {
    forall i | 0 <= i < |reply|
      ensures '\n' !in reply[i]
    {
      GrammarLines(reply[i]);
    }
  }

  /** Main result: whatever replies a server sends, the reader gets them with each one that lacks
      the blank glued to the next, and without the last ones if those lack it. */
  lemma {:induction false} ReadsWhatWasSent(replies: seq<Reply>, current: Reply)
    requires forall r :: r in replies ==> IsReply(r)
    ensures Unfinished(WireAll(replies)) == ""
    ensures Replies(CompleteLines(WireAll(replies)), current) == Glued(replies, current)
    decreases |replies|
  {
    if |replies| > 0 {
      var first, rest := Wire(replies[0]), WireAll(replies[1..]);
      assert replies[0] in replies;
      ReplyLines(replies[0]);
      WireLines(replies[0]);
      LinesConcat(first, rest);
      assert "" + rest == rest;
      RepliesConcat(replies[0], CompleteLines(rest), current);
      OneReply(replies[0], current);
      ReadsWhatWasSent(replies[1..], if HasBlank(replies[0]) then [] else current + replies[0]);
    }
  }

  lemma {:induction false} GluedCount(replies: seq<Reply>, current: Reply)
    ensures |Glued(replies, current)| <= |replies|
    ensures |Glued(replies, current)| == |replies| ==> forall r :: r in replies ==> HasBlank(r)
    decreases |replies|
  {
    if |replies| > 0 {
      assert replies == [replies[0]] + replies[1..];
      GluedCount(replies[1..], if HasBlank(replies[0]) then [] else current + replies[0]);
    }
  }

  lemma {:induction false} NothingGlued(replies: seq<Reply>)
    requires forall r :: r in replies ==> HasBlank(r)
    ensures Glued(replies, []) == replies
    decreases |replies|
  {
    if |replies| > 0 {
      NothingGlued(replies[1..]);
      assert [] + replies[0] == replies[0] && replies[0] in replies;
    }
  }

  /** Main result: the replies of a server are read back one by one if and only if every last
      line carries its blank, which the section lets a server omit. */
  lemma ReadsBackExactlyWhen(replies: seq<Reply>)
    requires forall r :: r in replies ==> IsReply(r)
    ensures AllReplies(WireAll(replies)) == replies <==> forall r :: r in replies ==> HasBlank(r)
  {
    ReadsWhatWasSent(replies, []);
    GluedCount(replies, []);
    if forall r :: r in replies ==> HasBlank(r) {
      NothingGlued(replies);
    }
  }

  /** The concrete case: a bare code is a reply of the grammar, and the reader never delivers it. */
  lemma BareReplyIsNeverRead()
    ensures IsReply(["250"]) && WireAll([["250"]]) == "250\r\n" && AllReplies("250\r\n") == []
  {
    var bare := "250";
    assert bare[..3] == bare && IsFinal(bare) && [bare][0] == bare;
    assert Wire([bare]) == bare + "\r\n" + Wire([]) && WireAll([[bare]]) == Wire([bare]) + WireAll([]);
    assert bare + "\r\n" + "" == "250\r\n";
    forall r | r in [[bare]]
      ensures IsReply(r)
    {
      assert r == [bare];
    }
    ReadsWhatWasSent([[bare]], []);
    assert !HasBlank([bare]) && [[bare]][1..] == [];
  }

  // ----- Every run -----

  ghost predicate Increasing(ids: seq<nat>) {
    forall i, j :: 0 <= i < j < |ids| ==> ids[i] < ids[j]
  }

  /** Who got what: the k-th call to receive a reply received the k-th reply of the stream, in
      call order, and every other call is waiting or was rejected. */
  ghost predicate Served(r: Reader, all: seq<Reply>) {
    && |r.delivered| <= |all|
    && r.responses == all[|r.delivered|..]
    && Increasing(r.delivered + r.waiters)
    && (forall id :: id in r.delivered || id in r.waiters ==> id < r.calls)
    && (forall k :: 0 <= k < |r.delivered| ==>
          r.delivered[k] in r.settled && r.settled[r.delivered[k]] == Resolved(all[k]))
    && (forall id :: 0 <= id < r.calls ==>
          id in r.delivered || id in r.waiters || (id in r.settled && r.settled[id] == Rejected))
    && (forall id :: id in r.settled ==> id < r.calls && id !in r.waiters)
  }

  ghost predicate Inv(r: Reader, stream: string) {
    && r.buffer == Unfinished(stream)
    && r.current == Partial(CompleteLines(stream), [])
    && Served(r, AllReplies(stream))
    && (r.waiters == [] || r.responses == [])
  }

  lemma SettleServes(r: Reader, all: seq<Reply>)
    requires Served(r, all) && |r.waiters| > 0 && |r.responses| > 0
    ensures Served(Settle(r, r.waiters[0], r.responses[0]).(responses := r.responses[1..], waiters := r.waiters[1..]), all)
  {
    var call := r.waiters[0];
    var r' := Settle(r, call, r.responses[0]).(responses := r.responses[1..], waiters := r.waiters[1..]);
    var ids := r.delivered + r.waiters;
    assert r.waiters == [call] + r'.waiters;
    assert ids == r'.delivered + r'.waiters;
    assert ids[|r.delivered|] == call;
    forall k | 0 <= k < |r.delivered|
      ensures r.delivered[k] < call
    {
      assert ids[k] == r.delivered[k];
    }
    forall id | id in r'.waiters
      ensures id in r.waiters && id != call
    {
      var k :| 0 <= k < |r'.waiters| && r'.waiters[k] == id;
      assert ids[|r.delivered| + 1 + k] == id;
    }
    assert r'.responses == all[|r'.delivered|..];
    assert call in r.waiters;
  }

  lemma {:induction false} FlushServes(r: Reader, all: seq<Reply>)
    requires Served(r, all)
    ensures Served(Flush(r), all) && (Flush(r).waiters == [] || Flush(r).responses == [])
    ensures Flush(r).buffer == r.buffer && Flush(r).current == r.current && Flush(r).calls == r.calls
    decreases |r.waiters|
  {
    if |r.responses| > 0 && |r.waiters| > 0 {
      SettleServes(r, all);
      FlushServes(Settle(r, r.waiters[0], r.responses[0]).(responses := r.responses[1..], waiters := r.waiters[1..]), all);
    }
  }

  lemma MoreReplies(r: Reader, all: seq<Reply>, more: seq<Reply>, buffer: string, current: Reply)
    requires Served(r, all)
    ensures Served(r.(buffer := buffer, current := current, responses := r.responses + more), all + more)
  {
    assert (all + more)[|r.delivered|..] == r.responses + more;
  }

  lemma DataKeepsInv(r: Reader, stream: string, chunk: string)
    requires Inv(r, stream)
    ensures Inv(Step(r, Data(chunk)), stream + chunk)
  {
    LinesConcat(stream, chunk);
    var before, lines := CompleteLines(stream), CompleteLines(r.buffer + chunk);
    RepliesConcat(before, lines, []);
    MoreReplies(r, AllReplies(stream), Replies(lines, r.current), Unfinished(r.buffer + chunk), Partial(lines, r.current));
    FlushServes(Absorb(r, chunk), AllReplies(stream + chunk));
  }

  lemma NextKeepsInv(r: Reader, stream: string)
    requires Inv(r, stream)
    ensures Inv(Next(r), stream)
  {
    var r' := Next(r);
    if |r.responses| > 0 {
      assert r.delivered + r.waiters == r.delivered;
      assert r'.delivered + r'.waiters == r.delivered + [r.calls];
    } else {
      assert r'.delivered + r'.waiters == r.delivered + r.waiters + [r.calls];
    }
    forall k | 0 <= k < |r.delivered + r.waiters|
      ensures (r.delivered + r.waiters)[k] < r.calls
    {
      assert (r.delivered + r.waiters)[k] in r.delivered || (r.delivered + r.waiters)[k] in r.waiters;
    }
  }

  lemma ErrorKeepsInv(r: Reader, stream: string)
    requires Inv(r, stream)
    ensures Inv(Fail(r), stream)
  {
    var r' := Fail(r);
    assert r'.delivered + r'.waiters == r.delivered;
    DeliveredIncreases(r, AllReplies(stream));
    forall k | 0 <= k < |r.delivered|
      ensures r.delivered[k] !in r.waiters
    {
      assert r.delivered[k] in r.settled;
    }
  }

  lemma DeliveredIncreases(r: Reader, all: seq<Reply>)
    requires Served(r, all)
    ensures Increasing(r.delivered)
  {
    forall i, j | 0 <= i < j < |r.delivered|
      ensures r.delivered[i] < r.delivered[j]
    {
      assert (r.delivered + r.waiters)[i] < (r.delivered + r.waiters)[j];
    }
  }

  lemma StepKeepsInv(r: Reader, stream: string, e: Event)
    requires Inv(r, stream)
    ensures Inv(Step(r, e), stream + Bytes(e))
  {
    assert e.Data? || stream + Bytes(e) == stream;
    match e {
      case Data(chunk) => DataKeepsInv(r, stream, chunk);
      case NextCall => NextKeepsInv(r, stream);
      case SocketError => ErrorKeepsInv(r, stream);
    }
  }

  lemma {:induction false} RunKeepsInv(r: Reader, stream: string, events: seq<Event>)
    requires Inv(r, stream)
    ensures Inv(Run(r, events), stream + Stream(events))
    decreases |events|
  {
    if |events| == 0 {
      assert stream + Stream(events) == stream;
    } else {
      var next, sofar := Step(r, events[0]), stream + Bytes(events[0]);
      StreamGrows(stream, events);
      StepKeepsInv(r, stream, events[0]);
      RunKeepsInv(next, sofar, events[1..]);
    }
  }

  lemma StreamGrows(stream: string, events: seq<Event>)
    requires |events| > 0
    ensures stream + Stream(events) == stream + Bytes(events[0]) + Stream(events[1..])
  {
  }

  // ----- Socket errors -----

  /** A socket error rejects every waiting call and touches nothing else. */
  lemma ErrorRejectsWaiting(r: Reader, stream: string)
    requires Inv(r, stream)
    ensures var r' := Step(r, SocketError);
      && r'.waiters == []
      && (forall id :: id in r.waiters ==> id !in r.settled && id in r'.settled && r'.settled[id] == Rejected)
      && (forall id :: id !in r.waiters ==> (id in r'.settled <==> id in r.settled))
      && (forall id :: id in r.settled ==> r'.settled[id] == r.settled[id])
      && r'.buffer == r.buffer && r'.current == r.current && r'.responses == r.responses && r'.calls == r.calls
  {
  }

  lemma {:induction false} RunCalls(r: Reader, events: seq<Event>)
    ensures Run(r, events).calls == r.calls + Calls(events)
    decreases |events|
  {
    if |events| > 0 {
      if events[0].Data? {
        FlushKeepsCalls(Absorb(r, events[0].chunk));
      }
      RunCalls(Step(r, events[0]), events[1..]);
    }
  }

  lemma {:induction false} RunConcat(r: Reader, a: seq<Event>, b: seq<Event>)
    ensures Run(r, a + b) == Run(Run(r, a), b)
    decreases |a|
  {
    if |a| == 0 {
      assert a + b == b;
    } else {
      assert (a + b)[1..] == a[1..] + b;
      RunConcat(Step(r, a[0]), a[1..], b);
    }
  }

  /** How many of the first `n` calls have received a reply. */
  ghost function Answered(r: Reader, n: nat): nat {
    if n == 0 then 0 else Answered(r, n - 1) + if n - 1 in r.settled && r.settled[n - 1].Resolved? then 1 else 0
  }

  /** The first `m` of the list, and no others, are below `n`. */
  ghost predicate Cut(ids: seq<nat>, m: nat, n: nat) {
    m <= |ids| && forall k :: 0 <= k < |ids| ==> (k < m <==> ids[k] < n)
  }

  lemma CutStep(ids: seq<nat>, m: nat, n: nat)
    requires Increasing(ids) && Cut(ids, m, n)
    ensures Cut(ids, if n in ids then m + 1 else m, n + 1)
  {
    if n in ids {
      CutAt(ids, m, n);
    }
  }

  lemma CutAt(ids: seq<nat>, m: nat, n: nat)
    requires Increasing(ids) && Cut(ids, m, n) && n in ids
    ensures m < |ids| && ids[m] == n
  {
    var k :| 0 <= k < |ids| && ids[k] == n;
    assert m <= k;
    InOrder(ids, m, k);
  }

  lemma InOrder(ids: seq<nat>, i: nat, j: nat)
    requires Increasing(ids) && i <= j < |ids|
    ensures i < j <==> ids[i] < ids[j]
  {
  }

  lemma CutAll(ids: seq<nat>, m: nat, n: nat)
    requires Cut(ids, m, n) && forall k :: 0 <= k < |ids| ==> ids[k] < n
    ensures m == |ids|
  {
    if |ids| > 0 {
      assert ids[|ids| - 1] < n;
    }
  }

  /** The calls below `n` that received a reply are the first so many of `delivered`. */
  lemma {:induction false} AnsweredCounts(r: Reader, all: seq<Reply>, n: nat)
    requires Served(r, all)
    ensures Cut(r.delivered, Answered(r, n), n)
  {
    if n > 0 {
      AnsweredCounts(r, all, n - 1);
      DeliveredIncreases(r, all);
      CutStep(r.delivered, Answered(r, n - 1), n - 1);
      ResolvedIsDelivered(r, all, n - 1);
    }
  }

  lemma ResolvedIsDelivered(r: Reader, all: seq<Reply>, id: nat)
    requires Served(r, all)
    ensures id in r.settled && r.settled[id].Resolved? <==> id in r.delivered
  {
  }

  /** Main result: on every run, with socket errors wherever they come, a call that has received a
      reply received the m-th of the stream, where m is the number of earlier calls that received
      one: errors lose no reply, repeat none and swap none. */
  lemma RepliesInCallOrder(events: seq<Event>, call: nat)
    requires call in Run(IDLE, events).settled && Run(IDLE, events).settled[call].Resolved?
    ensures var r, all := Run(IDLE, events), AllReplies(Stream(events));
      var m := Answered(r, call);
      m < |all| && r.settled[call].reply == all[m]
  {
    var r, all := Run(IDLE, events), AllReplies(Stream(events));
    RunKeepsInv(IDLE, "", events);
    assert "" + Stream(events) == Stream(events);
    ResolvedIsDelivered(r, all, call);
    AnsweredCounts(r, all, call);
    DeliveredIncreases(r, all);
    CutAt(r.delivered, Answered(r, call), call);
  }

  /** Nobody waits while a reply is there: on every run a call without outcome is in the queue, and
      every complete reply of the stream has been handed to some call. */
  lemma WaitingIsForMore(events: seq<Event>, call: nat, r: Reader, stream: string)
    requires r == Run(IDLE, events) && stream == Stream(events)
    requires call < Calls(events) && call !in r.settled
    ensures r.calls == Calls(events) && call in r.waiters && Answered(r, r.calls) == |AllReplies(stream)|
  {
    RunKeepsInv(IDLE, "", events);
    assert "" + stream == stream;
    RunCalls(IDLE, events);
    StillWaiting(r, stream, call);
  }

  lemma StillWaiting(r: Reader, stream: string, call: nat)
    requires Inv(r, stream) && call < r.calls && call !in r.settled
    ensures call in r.waiters && Answered(r, r.calls) == |AllReplies(stream)|
  {
    assert call in r.waiters;
    assert r.responses == [];
    AllAnswered(r, AllReplies(stream));
  }

  /** Main result: just after a socket error nobody waits: each call made so far keeps the outcome it
      had, and is rejected if it had none. */
  lemma ErrorSettlesEverybody(events: seq<Event>, call: nat)
    requires call < Calls(events)
    ensures var before, after := Run(IDLE, events), Run(IDLE, events + [SocketError]);
      && after.waiters == [] && call in after.settled
      && after.settled[call] == if call in before.settled then before.settled[call] else Rejected
  {
    var before := Run(IDLE, events);
    RunKeepsInv(IDLE, "", events);
    assert "" + Stream(events) == Stream(events);
    RunConcat(IDLE, events, [SocketError]);
    assert Run(before, [SocketError]) == Step(before, SocketError);
    RunCalls(IDLE, events);
    ErrorRejectsWaiting(before, Stream(events));
    assert call in before.settled || call in before.waiters;
  }

  lemma AllAnswered(r: Reader, all: seq<Reply>)
    requires Served(r, all) && r.responses == []
    ensures Answered(r, r.calls) == |all|
  {
    assert |all[|r.delivered|..]| == 0;
    AnsweredCounts(r, all, r.calls);
    forall k | 0 <= k < |r.delivered|
      ensures r.delivered[k] < r.calls
    {
      assert r.delivered[k] in r.delivered;
    }
    CutAll(r.delivered, Answered(r, r.calls), r.calls);
  }

  // ----- Runs without a socket error -----

  lemma {:induction false} FlushRejectsNobody(r: Reader)
    requires forall id :: id in r.settled ==> r.settled[id].Resolved?
    ensures forall id :: id in Flush(r).settled ==> Flush(r).settled[id].Resolved?
    decreases |r.waiters|
  {
    if |r.responses| > 0 && |r.waiters| > 0 {
      FlushRejectsNobody(Settle(r, r.waiters[0], r.responses[0]).(responses := r.responses[1..], waiters := r.waiters[1..]));
    }
  }

  lemma {:induction false} FlushKeepsCalls(r: Reader)
    ensures Flush(r).calls == r.calls
    decreases |r.waiters|
  {
    if |r.responses| > 0 && |r.waiters| > 0 {
      FlushKeepsCalls(Settle(r, r.waiters[0], r.responses[0]).(responses := r.responses[1..], waiters := r.waiters[1..]));
    }
  }

  lemma {:induction false} QuietRun(r: Reader, events: seq<Event>)
    requires SocketError !in events && forall id :: id in r.settled ==> r.settled[id].Resolved?
    ensures forall id :: id in Run(r, events).settled ==> Run(r, events).settled[id].Resolved?
    ensures Run(r, events).calls == r.calls + Calls(events)
    decreases |events|
  {
    if |events| > 0 {
      var e := events[0];
      assert e in events && e != SocketError;
      if e.Data? {
        FlushRejectsNobody(Absorb(r, e.chunk));
        FlushKeepsCalls(Absorb(r, e.chunk));
      }
      QuietRun(Step(r, e), events[1..]);
    }
  }

  /** An increasing list of all numbers below `n` is 0, 1, ..., n-1. */
  lemma {:induction false} AllInOrder(ids: seq<nat>, n: nat, k: nat)
    requires Increasing(ids) && k < |ids|
    requires forall id :: id in ids ==> id < n
    requires forall id :: 0 <= id < n ==> id in ids
    ensures ids[k] == k
    decreases k
  {
    assert ids[k] in ids;
    if k > 0 {
      AllInOrder(ids, n, k - 1);
      assert ids[k - 1] < ids[k];
    }
    assert k < n;
    assert k in ids;
    var j :| 0 <= j < |ids| && ids[j] == k;
  }

  lemma NobodyRejected(r: Reader, all: seq<Reply>, k: nat)
    requires Served(r, all) && k < r.calls
    requires forall id :: id in r.settled ==> r.settled[id].Resolved?
    ensures k < |r.delivered| + |r.waiters| && (r.delivered + r.waiters)[k] == k
  {
    var ids := r.delivered + r.waiters;
    forall id | 0 <= id < r.calls
      ensures id in ids
    {
      assert id in r.delivered || id in r.waiters;
    }
    assert k in ids;
    var j :| 0 <= j < |ids| && ids[j] == k;
    AllInOrder(ids, r.calls, j);
  }

  /** Main result: on a run without a socket error, call `k` of `next` has received reply `k` of
      the whole stream if that reply is complete, and is waiting otherwise. */
  lemma KthCallGetsKthReply(events: seq<Event>, k: nat)
    requires SocketError !in events && k < Calls(events)
    ensures var r, all := Run(IDLE, events), AllReplies(Stream(events));
      && (k < |all| ==> k in r.settled && r.settled[k] == Resolved(all[k]))
      && (k >= |all| ==> k !in r.settled && k in r.waiters)
  {
    RunKeepsInv(IDLE, "", events);
    assert "" + Stream(events) == Stream(events);
    QuietRun(IDLE, events);
    var r, all := Run(IDLE, events), AllReplies(Stream(events));
    NobodyRejected(r, all, k);
    if k < |r.delivered| {
      assert r.delivered[k] == k;
    } else {
      assert r.waiters[k - |r.delivered|] == k;
      assert |r.waiters| > 0;
    }
  }

  /** What a server that answers with `replies` gives to the callers: call `k` gets the k-th of
      the glued replies, and with fewer of those than calls the last ones wait for ever. */
  lemma CallsOfAServer(events: seq<Event>, replies: seq<Reply>, k: nat)
    requires SocketError !in events && k < Calls(events)
    requires (forall r :: r in replies ==> IsReply(r)) && Stream(events) == WireAll(replies)
    ensures var r, glued := Run(IDLE, events), Glued(replies, []);
      && (k < |glued| ==> k in r.settled && r.settled[k] == Resolved(glued[k]))
      && (k >= |glued| ==> k !in r.settled && k in r.waiters)
  {
    ReadsWhatWasSent(replies, []);
    KthCallGetsKthReply(events, k);
  }

  /** However the bytes are cut into chunks and however the calls fall between them, every call
      ends up with the same outcome. */
  lemma ChunkingAndTimingDoNotMatter(a: seq<Event>, b: seq<Event>, k: nat)
    requires SocketError !in a && SocketError !in b
    requires Stream(a) == Stream(b) && Calls(a) == Calls(b) && k < Calls(a)
    ensures var x, y := Run(IDLE, a), Run(IDLE, b);
      (k in x.settled <==> k in y.settled) && (k in x.settled ==> x.settled[k] == y.settled[k])
  {
    KthCallGetsKthReply(a, k);
    KthCallGetsKthReply(b, k);
  }

  // ----- The reader object -----

  lemma TakingLinesDigests(r: Reader, n: nat)
    requires n == LineEnd(r.buffer) < |r.buffer|
    ensures Digest(TakeLine(r, n)) == Digest(r)
  {
    LinesStep(r.buffer, n);
    DigestsOn(r, n, StripCr(r.buffer[..n]), CompleteLines(r.buffer[n + 1..]));
  }

  lemma DigestsOn(r: Reader, n: nat, line: string, rest: seq<string>)
    requires n < |r.buffer| && line == StripCr(r.buffer[..n]) && rest == CompleteLines(r.buffer[n + 1..])
    requires CompleteLines(r.buffer) == [line] + rest && Unfinished(r.buffer) == Unfinished(r.buffer[n + 1..])
    ensures Digest(TakeLine(r, n)) == Digest(r)
  {
    FirstReply(line, rest, r.current, r.responses);
  }

  lemma FirstReply(line: string, rest: seq<string>, current: Reply, responses: seq<Reply>)
    ensures Partial([line] + rest, current) == Partial(rest, if IsLast(line) then [] else current + [line])
    ensures responses + Replies([line] + rest, current) ==
      if IsLast(line) then responses + [current + [line]] + Replies(rest, [])
      else responses + Replies(rest, current + [line])
  {
    assert ([line] + rest)[1..] == rest;
    if IsLast(line) {
      assert responses + ([current + [line]] + Replies(rest, [])) == responses + [current + [line]] + Replies(rest, []);
    }
  }

  lemma NothingLeft(r: Reader)
    requires LineEnd(r.buffer) == |r.buffer|
    ensures Digest(r) == r
  {
  }

  function IndexOfLineFeed(s: string): (i: int)
    ensures i == if LineEnd(s) == |s| then -1 else LineEnd(s)
  {
    if LineEnd(s) == |s| then -1 else LineEnd(s)
  }

  class SmtpReader {
    var buffer: string
    var current: Reply
    var responses: seq<Reply>
    var waiters: seq<nat>
    var calls: nat
    var settled: map<nat, Outcome>
    ghost var delivered: seq<nat>

    ghost function Model(): Reader
      reads this
    {
      Reader(buffer, current, responses, waiters, calls, settled, delivered)
    }

    constructor ()
      ensures Model() == IDLE
    {
      buffer, current, responses, waiters := "", [], [], [];
      calls, settled, delivered := 0, map[], [];
    }

    method OnData(chunk: string)
      modifies this
      ensures Model() == Step(old(Model()), Data(chunk))
    {
      ghost var digested := Absorb(Model(), chunk);
      buffer := buffer + chunk;
      var newlineIndex := IndexOfLineFeed(buffer);
      while newlineIndex >= 0
        invariant newlineIndex == IndexOfLineFeed(buffer)
        invariant digested == Digest(Model())
        decreases |buffer|
      {
        TakingLinesDigests(Model(), newlineIndex);
        var line := StripCr(buffer[..newlineIndex]);
        buffer := buffer[newlineIndex + 1..];
        current := current + [line];
        if IsLast(line) {
          responses := responses + [current];
          current := [];
        }
        newlineIndex := IndexOfLineFeed(buffer);
      }
      NothingLeft(Model());
      FlushWaiters();
    }

    method FlushWaiters()
      modifies this
      ensures Model() == Flush(old(Model()))
    {
      while |responses| > 0 && |waiters| > 0
        invariant Flush(Model()) == Flush(old(Model()))
        decreases |waiters|
      {
        var response, waiter := responses[0], waiters[0];
        responses, waiters := responses[1..], waiters[1..];
        settled := settled[waiter := Resolved(response)];
        delivered := delivered + [waiter];
      }
    }

    /** Returns the number of the call; its reply shows up in `settled`. */
    method NextReply() returns (call: nat)
      modifies this
      ensures Model() == Step(old(Model()), NextCall)
      ensures call == old(calls) && calls == call + 1
      ensures if |old(responses)| > 0
        then settled == old(settled)[call := Resolved(old(responses)[0])] && responses == old(responses)[1..] && waiters == old(waiters)
        else settled == old(settled) && responses == [] && waiters == old(waiters) + [call]
      ensures buffer == old(buffer) && current == old(current)
    {
      call := calls;
      calls := calls + 1;
      if |responses| > 0 {
        settled := settled[call := Resolved(responses[0])];
        delivered := delivered + [call];
        responses := responses[1..];
      } else {
        waiters := waiters + [call];
      }
    }

    method OnError()
      modifies this
      ensures Model() == Step(old(Model()), SocketError)
      ensures waiters == [] && forall id :: id in old(waiters) ==> id in settled && settled[id] == Rejected
      ensures forall id :: id !in old(waiters) ==>
        (id in settled <==> id in old(settled)) && (id in settled ==> settled[id] == old(settled)[id])
      ensures buffer == old(buffer) && current == old(current) && responses == old(responses) && calls == old(calls)
    {
      var pending := waiters;
      waiters := [];
      settled := settled + (map id | id in pending :: Rejected);
    }
  }
}
