/** The AT command engine of the modem driver, running over a scripted
    serial port: commands go out as ASCII lines ended by CR, replies are
    read until a line satisfies the caller's test or the budget of reads
    runs out. */
module AtModem {
  import opened Wrappers
  import opened Lines
  import opened Transport
  import Decimal
  import Hex
  import Pdu

  /** Why an exchange with the modem failed. */
  datatype AtError =
    | NotAscii              // the command text has a character above 127
    | NoResponse            // `command` used up its tries without an OK line
    | PinStatusUnknown      // no +CPIN: line within the reads allowed
    | PinRejected           // no OK line after the PIN was sent
    | SubmitNotStarted      // no "> " prompt after AT+CMGS
    | SubmitNotAcknowledged // no +CMGS: line after the PDU

  /** Line feed, carriage return and Ctrl-Z (SUB), the control bytes the
      engine writes or looks for. */
  const LF: byte := 10
  const CR: byte := 13
  const CtrlZ: byte := 0x1A

  /** The line test of `command` and `sendpin`. */
  const Ok: Matcher := Exact("OK")

  /** bytes are the characters of s followed by CR. */
  predicate Spells(bytes: seq<byte>, s: string)
  {
    |bytes| == |s| + 1 && bytes[|s|] == CR && forall i :: 0 <= i < |s| ==> bytes[i] == s[i] as int
  }

  /** The bytes `send` writes for s, when s can be encoded. */
  function CommandLine(s: string): (r: Option<seq<byte>>)
    ensures r.Some? <==> IsAscii(s)
    ensures r.Some? ==> Spells(r.value, s)
  {
    var t := s + "\r";
    assert forall i :: 0 <= i < |s| ==> t[i] == s[i];
    assert t[|s|] == '\r';
    AsciiEncode(t)
  }

  /** `reset`: Ctrl-Z abandons whatever was half typed, CR ends the line. */
  function Reset(p: Port): (q: Port)
    ensures Extends(p, q) && Traffic(Delta(p, q))
    ensures Writes(Delta(p, q)) == [[CtrlZ], [CR]] && ReceivedBytes(Delta(p, q)) == []
    ensures |Delta(p, q)| == 2
  {
    var p1 := Write(p, [CtrlZ]);
    var q := Write(p1, [CR]);
    ExtendsTrans(p, p1, q);
    q
  }

  /** `send`: one write of the encoded text and CR, or an encoding error
      before anything is written. */
  function Send(s: string, p: Port): (r: (Result<(), AtError>, Port))
    ensures r.0.Success? <==> IsAscii(s)
    ensures r.0.Success? ==> Extends(p, r.1) && Delta(p, r.1) == [Wrote(CommandLine(s).value)]
    ensures r.0.Failure? ==> r == (Failure(NotAscii), p)
  {
    match CommandLine(s)
    case None => (Failure(NotAscii), p)
    case Some(bytes) => (Success(()), Write(p, bytes))
  }

  /** Whether `waitforbuf` inspects the buffer after a read: it must hold
      something, and in complete-line mode its last byte must be LF. */
  predicate Ready(buf: seq<byte>, complete: bool)
  {
    |buf| > 0 && (buf[|buf| - 1] == LF || !complete)
  }

  /** What one inspection of the buffer yields: the first accepted line,
      once the buffer is ready. */
  function Scan(buf: seq<byte>, complete: bool, m: Matcher): (r: Option<string>)
    ensures r.Some? ==> Ready(buf, complete) && Accepts(m, r.value) && r.value in SplitLines(AsciiDecode(buf))
    ensures r.None? <==>
              (|| !Ready(buf, complete)
               || forall i :: 0 <= i < |SplitLines(AsciiDecode(buf))| ==> !Accepts(m, SplitLines(AsciiDecode(buf))[i]))
  {
    if Ready(buf, complete) then FirstMatch(SplitLines(AsciiDecode(buf)), m) else None
  }

  /** `waitforbuf`: read (a line in complete-line mode, a chunk otherwise),
      append to the buffer, and stop at the first accepted line. A complete-
      line read always costs a try; a chunk read costs one only when it is
      empty, that is, when it timed out. */
  function WaitForBuf(m: Matcher, prev: seq<byte>, complete: bool, tries: nat, p: Port): (r: (Option<string>, Port))
    ensures Extends(p, r.1) && ReadsOnly(Delta(p, r.1))
    ensures tries == 0 ==> r == (None, p)
    ensures tries > 0 ==> |Delta(p, r.1)| > 0
    ensures complete ==> |Delta(p, r.1)| <= tries && (r.0.None? ==> |Delta(p, r.1)| == tries)
    ensures !complete ==> Timeouts(Delta(p, r.1)) <= tries && (r.0.None? ==> Timeouts(Delta(p, r.1)) == tries)
    ensures r.0.Some? ==> r.0 == Scan(prev + ReceivedBytes(Delta(p, r.1)), complete, m)
    decreases tries, |p.pending|
  {
    if tries == 0 then
      ExtendsRefl(p);
      (None, p)
    else
      var (c, p1) := if complete then ReadLine(p) else Read(p);
      var buf := prev + c;
      var found := Scan(buf, complete, m);
      if found.Some? then
        ReadOnce(p, p1, c);
        assert prev + ReceivedBytes(Delta(p, p1)) == buf;
        (found, p1)
      else
        var next := if complete || |c| == 0 then tries - 1 else tries;
        var (r, q) := WaitForBuf(m, buf, complete, next, p1);
        ReadThenMore(p, p1, q, prev, c);
        (r, q)
  }

  /** No inspection after the first `upto` reads of events found a line. */
  predicate Unanswered(events: seq<Event>, prev: seq<byte>, complete: bool, m: Matcher, upto: int)
  {
    forall j :: 1 <= j <= upto && j <= |events| ==> Scan(prev + ReceivedBytes(events[..j]), complete, m).None?
  }

  /** The outcome r of a wait starting at p returned at the first read
      whose buffer held an accepted line: no earlier read found one, and on
      giving up no read did. */
  predicate FirstHit(m: Matcher, prev: seq<byte>, complete: bool, p: Port, r: (Option<string>, Port))
  {
    && Extends(p, r.1)
    && Unanswered(Delta(p, r.1), prev, complete, m,
                  if r.0.None? then |Delta(p, r.1)| else |Delta(p, r.1)| - 1)
  }

  /** `waitforbuf` returns at the first read after which the buffer holds an
      accepted line: no earlier read did, and on giving up none did. */
  lemma {:induction false} WaitForBufFirstHit(m: Matcher, prev: seq<byte>, complete: bool, tries: nat, p: Port)
    ensures FirstHit(m, prev, complete, p, WaitForBuf(m, prev, complete, tries, p))
    decreases tries, |p.pending|
  {
    if tries > 0 {
      var (c, p1) := if complete then ReadLine(p) else Read(p);
      if Scan(prev + c, complete, m).None? {
        var next := if complete || |c| == 0 then tries - 1 else tries;
        var r := WaitForBuf(m, prev + c, complete, next, p1);
        WaitForBufFirstHit(m, prev + c, complete, next, p1);
        MissThenHit(m, prev, c, complete, p, p1, r);
        assert WaitForBuf(m, prev, complete, tries, p) == r;
      } else {
        ExtendsRefl(p);
      }
    } else {
      ExtendsRefl(p);
    }
  }

  /** A read that found nothing, followed by a wait that returned at its
      first hit, returns at the first hit as a whole. */
  lemma MissThenHit(m: Matcher, prev: seq<byte>, c: seq<byte>, complete: bool, p: Port, p1: Port, r: (Option<string>, Port))
    requires Extends(p, p1) && Delta(p, p1) == [Received(c)]
    requires Scan(prev + c, complete, m).None?
    requires FirstHit(m, prev + c, complete, p1, r)
    ensures FirstHit(m, prev, complete, p, r)
  {
    var q := r.1;
    ExtendsTrans(p, p1, q);
    assert Delta(p, q) == [Received(c)] + Delta(p1, q);
    UnansweredAfterMiss(prev, c, Delta(p1, q), complete, m,
                        if r.0.None? then |Delta(p, q)| else |Delta(p, q)| - 1);
  }

  /** A read whose buffer held no accepted line, then reads that found none
      either. */
  lemma UnansweredAfterMiss(prev: seq<byte>, c: seq<byte>, later: seq<Event>, complete: bool, m: Matcher, upto: int)
    requires Scan(prev + c, complete, m).None?
    requires Unanswered(later, prev + c, complete, m, upto - 1)
    ensures Unanswered([Received(c)] + later, prev, complete, m, upto)
  {
    var d := [Received(c)] + later;
    forall j | 1 <= j <= upto && j <= |d|
      ensures Scan(prev + ReceivedBytes(d[..j]), complete, m).None?
    {
      BufferAfter(prev, c, later, j);
      if j == 1 {
        assert (prev + c) + ReceivedBytes(later[..0]) == prev + c;
      }
    }
  }

  /** The buffer after j reads of a read of c followed by later ones. */
  lemma BufferAfter(prev: seq<byte>, c: seq<byte>, later: seq<Event>, j: nat)
    requires 1 <= j <= |later| + 1
    ensures prev + ReceivedBytes(([Received(c)] + later)[..j]) == (prev + c) + ReceivedBytes(later[..j - 1])
  {
    assert ([Received(c)] + later)[..j] == [Received(c)] + later[..j - 1];
    ReceivedAppend([Received(c)], later[..j - 1]);
    assert [Received(c)][1..] == [];
  }

  /** A single read. */
  lemma ReadOnce(p: Port, p1: Port, c: seq<byte>)
    requires Extends(p, p1) && Delta(p, p1) == [Received(c)]
    ensures ReadsOnly(Delta(p, p1)) && |Delta(p, p1)| == 1
    ensures Timeouts(Delta(p, p1)) == (if |c| == 0 then 1 else 0)
    ensures ReceivedBytes(Delta(p, p1)) == c
  {
    assert [Received(c)][1..] == [];
  }

  /** One read followed by more reads: the buffer grows by the chunk and
      then by whatever the later reads received. */
  lemma ReadThenMore(p: Port, p1: Port, q: Port, prev: seq<byte>, c: seq<byte>)
    requires Extends(p, p1) && Delta(p, p1) == [Received(c)]
    requires Extends(p1, q) && ReadsOnly(Delta(p1, q))
    ensures Extends(p, q) && ReadsOnly(Delta(p, q))
    ensures |Delta(p, q)| == 1 + |Delta(p1, q)|
    ensures Timeouts(Delta(p, q)) == (if |c| == 0 then 1 else 0) + Timeouts(Delta(p1, q))
    ensures prev + ReceivedBytes(Delta(p, q)) == (prev + c) + ReceivedBytes(Delta(p1, q))
  {
    ExtendsTrans(p, p1, q);
    var d := Delta(p1, q);
    assert [Received(c)][1..] == [];
    assert ReceivedBytes([Received(c)]) == c;
    assert Timeouts([Received(c)]) == (if |c| == 0 then 1 else 0);
    assert Delta(p, q) == [Received(c)] + d;
    assert forall i :: 0 < i < |Delta(p, q)| ==> Delta(p, q)[i] == d[i - 1];
  }

  /** What a wait's budget counts: every read in complete-line mode, only
      the reads that came back empty otherwise. */
  function Spent(got: seq<Event>, complete: bool): nat
  {
    if complete then |got| else Timeouts(got)
  }

  /** The reads of one `waitforbuf` from an empty buffer with a budget of
      `tries`. When `heard`, the wait ended at the first read after which the
      buffer held an accepted line; otherwise it spent its whole budget and
      no inspection found one. */
  predicate Waited(got: seq<Event>, m: Matcher, complete: bool, tries: nat, heard: bool)
  {
    && ReadsOnly(got)
    && Spent(got, complete) <= tries
    && if heard then
         && |got| > 0
         && Scan([] + ReceivedBytes(got), complete, m).Some?
         && Unanswered(got, [], complete, m, |got| - 1)
       else
         Spent(got, complete) == tries && Unanswered(got, [], complete, m, |got|)
  }

  /** `waitforbuf` from an empty buffer heard an answer exactly as Waited
      describes it. */
  lemma WaitOutcome(m: Matcher, complete: bool, tries: nat, p: Port)
    ensures var r := WaitForBuf(m, [], complete, tries, p);
      Extends(p, r.1) && Waited(Delta(p, r.1), m, complete, tries, r.0.Some?)
  {
    WaitForBufFirstHit(m, [], complete, tries, p);
  }

  /** The reads decide the outcome of a wait: none both heard and did not. */
  lemma WaitedDecides(got: seq<Event>, m: Matcher, complete: bool, tries: nat)
    ensures !(Waited(got, m, complete, tries, true) && Waited(got, m, complete, tries, false))
  {
    assert got[..|got|] == got;
  }

  /** One `send` of the command `text` followed by the wait for its answer. */
  predicate Exchange(events: seq<Event>, text: string, m: Matcher, complete: bool, tries: nat, heard: bool)
  {
    && |events| >= 1 && events[0].Wrote? && CommandLine(text) == Some(events[0].data)
    && Waited(events[1..], m, complete, tries, heard)
  }

  /** A send of `text`, then a wait: the log between the two ports is the
      exchange. */
  lemma Exchanged(p: Port, p1: Port, q: Port, text: string, m: Matcher, complete: bool, tries: nat, heard: bool)
    requires IsAscii(text)
    requires Extends(p, p1) && Delta(p, p1) == [Wrote(CommandLine(text).value)]
    requires Extends(p1, q) && Waited(Delta(p1, q), m, complete, tries, heard)
    ensures Extends(p, q) && Exchange(Delta(p, q), text, m, complete, tries, heard)
  {
    ExtendsTrans(p, p1, q);
    assert Delta(p, q)[1..] == Delta(p1, q);
  }

  /** The j-th exchange of `command`: five events from position 5j, or what
      is left of them. */
  function Round(events: seq<Event>, j: nat): (r: seq<Event>)
    ensures |r| <= 5
  {
    if 5 * j + 5 <= |events| then events[5 * j..5 * j + 5]
    else if 5 * j <= |events| then events[5 * j..]
    else []
  }

  /** The first k exchanges of `command` sent `text` and heard no OK in
      their four lines. */
  predicate Unheard(events: seq<Event>, text: string, k: nat)
  {
    && 5 * k <= |events|
    && forall j :: 0 <= j < k ==> Exchange(Round(events, j), text, Ok, true, 4, false)
  }

  /** The log of `command` with `tries` tries: exchanges of `text`, each
      unanswered, until one hears OK (`ok`), which is the last; or `tries`
      unanswered ones. */
  predicate CommandLog(events: seq<Event>, text: string, tries: nat, ok: bool)
  {
    if ok then
      exists k :: 0 <= k < tries && |events| <= 5 * k + 5 && Unheard(events, text, k)
        && Exchange(Round(events, k), text, Ok, true, 4, true)
    else
      |events| == 5 * tries && Unheard(events, text, tries)
  }

  /** The log decides the outcome of `command`: it cannot show both an OK and
      `tries` unanswered exchanges. */
  lemma CommandLogDecides(events: seq<Event>, text: string, tries: nat)
    ensures !(CommandLog(events, text, tries, true) && CommandLog(events, text, tries, false))
  {
    if CommandLog(events, text, tries, true) && CommandLog(events, text, tries, false) {
      var k :| 0 <= k < tries && |events| <= 5 * k + 5 && Unheard(events, text, k)
        && Exchange(Round(events, k), text, Ok, true, 4, true);
      assert k == tries - 1;
      assert Exchange(Round(events, k), text, Ok, true, 4, false);
      WaitedDecides(Round(events, k)[1..], Ok, true, 4);
      assert false;
    }
  }

  /** An unanswered exchange in front of the rest of a `command` log is a
      log with one more try. */
  lemma CommandLogCons(e: seq<Event>, rest: seq<Event>, text: string, tries: nat, ok: bool)
    requires |e| == 5 && Exchange(e, text, Ok, true, 4, false)
    requires CommandLog(rest, text, tries, ok)
    ensures CommandLog(e + rest, text, tries + 1, ok)
  {
    var d := e + rest;
    assert Round(d, 0) == e;
    forall j: nat | 5 * j <= |rest| ensures Round(d, j + 1) == Round(rest, j) {
      if 5 * j + 5 <= |rest| {
        assert d[5 * (j + 1)..5 * (j + 1) + 5] == rest[5 * j..5 * j + 5];
      } else {
        assert d[5 * (j + 1)..] == rest[5 * j..];
      }
    }
    if ok {
      var k :| 0 <= k < tries && |rest| <= 5 * k + 5 && Unheard(rest, text, k)
        && Exchange(Round(rest, k), text, Ok, true, 4, true);
      UnheardCons(e, rest, text, k);
      assert Exchange(Round(d, k + 1), text, Ok, true, 4, true);
    } else {
      UnheardCons(e, rest, text, tries);
    }
  }

  /** Unanswered exchanges stay unanswered behind one more. */
  lemma UnheardCons(e: seq<Event>, rest: seq<Event>, text: string, k: nat)
    requires |e| == 5 && Exchange(e, text, Ok, true, 4, false)
    requires Unheard(rest, text, k)
    requires forall j: nat :: 5 * j <= |rest| ==> Round(e + rest, j + 1) == Round(rest, j)
    requires Round(e + rest, 0) == e
    ensures Unheard(e + rest, text, k + 1)
  {
    var d := e + rest;
    forall j | 0 <= j < k + 1 ensures Exchange(Round(d, j), text, Ok, true, 4, false) {
      if j > 0 {
        assert Round(d, (j - 1) + 1) == Round(rest, j - 1);
      }
    }
  }

  /** The one exchange of a `command` that heard OK at once. */
  lemma CommandLogOne(events: seq<Event>, text: string, tries: nat)
    requires tries > 0 && Exchange(events, text, Ok, true, 4, true)
    ensures CommandLog(events, text, tries, true)
  {
    assert |events| <= 5;
    assert Round(events, 0) == events;
    assert Unheard(events, text, 0);
  }

  /** n copies of one write. */
  function Repeat(x: seq<byte>, n: nat): (xs: seq<seq<byte>>)
    ensures |xs| == n && forall i :: 0 <= i < n ==> xs[i] == x
  {
    if n == 0 then [] else [x] + Repeat(x, n - 1)
  }

  /** What `command` with an ASCII text `c` leaves on the port: copies of
      its line only, at most `tries` of them, `tries` of them when it gave
      up, and a log that shows an OK heard exactly when it succeeded. */
  predicate Commanded(c: string, tries: nat, p: Port, r: (Result<(), AtError>, Port))
    requires IsAscii(c)
  {
    && Extends(p, r.1) && Traffic(Delta(p, r.1))
    && Writes(Delta(p, r.1)) == Repeat(CommandLine(c).value, |Writes(Delta(p, r.1))|)
    && |Writes(Delta(p, r.1))| <= tries
    && (r.0.Success? ==> |Writes(Delta(p, r.1))| >= 1)
    && (r.0.Failure? ==> r.0.error == NoResponse && |Writes(Delta(p, r.1))| == tries)
    && CommandLog(Delta(p, r.1), c, tries, r.0.Success?)
  }

  /** `command`: send the line and wait up to four lines for OK; on silence
      send it again, at most `tries` times in all. */
  function Command(c: string, tries: nat, p: Port): (r: (Result<(), AtError>, Port))
    ensures Extends(p, r.1) && Traffic(Delta(p, r.1))
    ensures tries == 0 ==> r == (Failure(NoResponse), p)
    ensures tries > 0 && !IsAscii(c) ==> r == (Failure(NotAscii), p)
    ensures IsAscii(c) ==> Commanded(c, tries, p, r)
    decreases tries
  {
    if tries == 0 then
      ExtendsRefl(p);
      (Failure(NoResponse), p)
    else
      var (sent, p1) := Send(c, p);
      if sent.Failure? then
        ExtendsRefl(p);
        (sent, p1)
      else
        var (res, p2) := WaitForBuf(Ok, [], true, 4, p1);
        Asked(c, tries, p, p1, p2, res);
        if res.Some? then
          (Success(()), p2)
        else
          var r := Command(c, tries - 1, p2);
          Resent(c, tries, p, p2, r);
          r
  }

  /** One exchange of `command`: a write of its line and the wait; when the
      wait heard OK, that is the whole of a successful `command`. */
  lemma Asked(c: string, tries: nat, p: Port, p1: Port, p2: Port, res: Option<string>)
    requires IsAscii(c) && tries > 0
    requires Extends(p, p1) && Delta(p, p1) == [Wrote(CommandLine(c).value)]
    requires (res, p2) == WaitForBuf(Ok, [], true, 4, p1)
    ensures Extends(p, p2) && Traffic(Delta(p, p2)) && Writes(Delta(p, p2)) == [CommandLine(c).value]
    ensures Exchange(Delta(p, p2), c, Ok, true, 4, res.Some?)
    ensures res.None? ==> |Delta(p, p2)| == 5
    ensures res.Some? ==> Commanded(c, tries, p, (Success(()), p2))
  {
    SendThenRead(p, p1, p2, CommandLine(c).value);
    WaitOutcome(Ok, true, 4, p1);
    Exchanged(p, p1, p2, c, Ok, true, 4, res.Some?);
    if res.Some? {
      CommandLogOne(Delta(p, p2), c, tries);
    }
  }

  /** An unanswered exchange followed by `command` with one try fewer is
      `command` with the full count. */
  lemma Resent(c: string, tries: nat, p: Port, p2: Port, r: (Result<(), AtError>, Port))
    requires IsAscii(c) && tries > 0
    requires Extends(p, p2) && Traffic(Delta(p, p2)) && Writes(Delta(p, p2)) == [CommandLine(c).value]
    requires Exchange(Delta(p, p2), c, Ok, true, 4, false) && |Delta(p, p2)| == 5
    requires Commanded(c, tries - 1, p2, r)
    ensures Commanded(c, tries, p, r)
  {
    var q := r.1;
    TrafficThen(p, p2, q);
    RepeatCons(CommandLine(c).value, Writes(Delta(p2, q)));
    CommandLogCons(Delta(p, p2), Delta(p2, q), c, tries - 1, r.0.Success?);
    assert Delta(p, q) == Delta(p, p2) + Delta(p2, q) by {
      ExtendsTrans(p, p2, q);
    }
  }

  /** A write followed by reads: one write, and the reads' bytes. */
  lemma SendThenRead(p: Port, p1: Port, q: Port, line: seq<byte>)
    requires Extends(p, p1) && Delta(p, p1) == [Wrote(line)]
    requires Extends(p1, q) && ReadsOnly(Delta(p1, q))
    ensures Extends(p, q) && Traffic(Delta(p, q))
    ensures Writes(Delta(p, q)) == [line]
    ensures ReceivedBytes(Delta(p, q)) == ReceivedBytes(Delta(p1, q))
    ensures |Delta(p, q)| == 1 + |Delta(p1, q)|
  {
    ExtendsTrans(p, p1, q);
    ReadsOnlyWriteNothing(Delta(p1, q));
    assert [Wrote(line)][1..] == [];
    assert Traffic([Wrote(line)]);
  }

  /** Traffic followed by traffic: the writes and the received bytes
      concatenate. */
  lemma TrafficThen(p: Port, p1: Port, q: Port)
    requires Extends(p, p1) && Traffic(Delta(p, p1))
    requires Extends(p1, q) && Traffic(Delta(p1, q))
    ensures Extends(p, q) && Traffic(Delta(p, q))
    ensures Writes(Delta(p, q)) == Writes(Delta(p, p1)) + Writes(Delta(p1, q))
    ensures ReceivedBytes(Delta(p, q)) == ReceivedBytes(Delta(p, p1)) + ReceivedBytes(Delta(p1, q))
    ensures |Delta(p, q)| == |Delta(p, p1)| + |Delta(p1, q)|
  {
    ExtendsTrans(p, p1, q);
  }

  /** One more copy in front of n copies is n + 1 copies. */
  lemma RepeatCons(x: seq<byte>, xs: seq<seq<byte>>)
    requires xs == Repeat(x, |xs|)
    ensures [x] + xs == Repeat(x, |xs| + 1)
  {
  }

  /** `ping`: AT, three tries. */
  function Ping(p: Port): (r: (Result<(), AtError>, Port))
    ensures Extends(p, r.1) && Traffic(Delta(p, r.1))
    ensures Writes(Delta(p, r.1)) == Repeat(CommandLine("AT").value, |Writes(Delta(p, r.1))|)
    ensures r.0.Success? ==> 1 <= |Writes(Delta(p, r.1))| <= 3
    ensures r.0.Failure? ==> r.0.error == NoResponse && |Writes(Delta(p, r.1))| == 3
    ensures CommandLog(Delta(p, r.1), "AT", 3, r.0.Success?)
  {
    FixedCommandsAscii();
    Command("AT", 3, p)
  }

  /** `setspeed`: AT+IPR=<speed>, three tries. */
  function SetSpeed(speed: string, p: Port): (r: (Result<(), AtError>, Port))
    ensures Extends(p, r.1) && Traffic(Delta(p, r.1))
    ensures !IsAscii(speed) ==> r == (Failure(NotAscii), p)
    ensures IsAscii(speed) ==>
      Writes(Delta(p, r.1)) == Repeat(CommandLine("AT+IPR=" + speed).value, |Writes(Delta(p, r.1))|)
    ensures IsAscii(speed) && r.0.Success? ==> 1 <= |Writes(Delta(p, r.1))| <= 3
    ensures IsAscii(speed) && r.0.Failure? ==> r.0.error == NoResponse && |Writes(Delta(p, r.1))| == 3
    ensures IsAscii(speed) ==> CommandLog(Delta(p, r.1), "AT+IPR=" + speed, 3, r.0.Success?)
  {
    AsciiAppend("AT+IPR=", speed);
    Command("AT+IPR=" + speed, 3, p)
  }

  /** The fixed command texts are ASCII, so `send` never fails on them. */
  lemma FixedCommandsAscii()
    ensures IsAscii("AT") && IsAscii("AT+IPR=") && IsAscii("AT+CPIN?")
    ensures IsAscii("AT+CPIN=") && IsAscii("AT+CMGF=0") && IsAscii("AT+CMGS=")
  {
  }

  /** A concatenation is ASCII exactly when both parts are. */
  lemma AsciiAppend(a: string, b: string)
    ensures IsAscii(a + b) <==> IsAscii(a) && IsAscii(b)
  {
    if IsAscii(a + b) {
      forall i | 0 <= i < |a| ensures a[i] as int < 128 {
        assert a[i] == (a + b)[i];
      }
      forall i | 0 <= i < |b| ensures b[i] as int < 128 {
        assert b[i] == (a + b)[|a| + i];
      }
    }
  }

  /** The matcher `pinstatus` waits for. */
  const PinReport: Matcher := StartsWith("+CPIN:")

  /** The first line among everything the events received that the
      matcher accepts. */
  function Reply(events: seq<Event>, m: Matcher): Option<string>
  {
    FirstMatch(SplitLines(AsciiDecode(ReceivedBytes(events))), m)
  }

  /** A command line followed by a wait for its answer: one write, and a
      found answer is the first accepted line of all that was received. */
  lemma AnswerAfterSend(p: Port, p1: Port, q: Port, line: seq<byte>, m: Matcher, res: Option<string>)
    requires Extends(p, p1) && Delta(p, p1) == [Wrote(line)]
    requires Extends(p1, q) && ReadsOnly(Delta(p1, q))
    requires res.Some? ==> res == Scan([] + ReceivedBytes(Delta(p1, q)), true, m)
    ensures Extends(p, q) && Traffic(Delta(p, q))
    ensures Writes(Delta(p, q)) == [line]
    ensures |Delta(p, q)| == 1 + |Delta(p1, q)|
    ensures res.Some? ==> res == Reply(Delta(p, q), m)
  {
    SendThenRead(p, p1, q, line);
    assert [] + ReceivedBytes(Delta(p1, q)) == ReceivedBytes(Delta(p, q));
  }

  /** `pinstatus`: ask, wait up to eight lines for the +CPIN: report, and
      answer whether it says READY. */
  function PinStatus(p: Port): (r: (Result<bool, AtError>, Port))
    ensures Extends(p, r.1) && Traffic(Delta(p, r.1))
    ensures Writes(Delta(p, r.1)) == [CommandLine("AT+CPIN?").value]
    ensures Exchange(Delta(p, r.1), "AT+CPIN?", PinReport, true, 8, r.0.Success?)
    ensures r.0.Failure? ==> r.0.error == PinStatusUnknown
    ensures r.0.Success? ==>
      Reply(Delta(p, r.1), PinReport).Some? &&
      r.0.value == Contains(Reply(Delta(p, r.1), PinReport).value, "READY")
  {
    FixedCommandsAscii();
    var (_, p1) := Send("AT+CPIN?", p);
    var (res, q) := WaitForBuf(PinReport, [], true, 8, p1);
    AnswerAfterSend(p, p1, q, CommandLine("AT+CPIN?").value, PinReport, res);
    WaitOutcome(PinReport, true, 8, p1);
    Exchanged(p, p1, q, "AT+CPIN?", PinReport, true, 8, res.Some?);
    match res
    case None => (Failure(PinStatusUnknown), q)
    case Some(line) => (Success(Contains(line, "READY")), q)
  }

  /** `sendpin`: send the PIN and wait up to four lines for OK. */
  function SendPin(pin: string, p: Port): (r: (Result<(), AtError>, Port))
    ensures Extends(p, r.1) && Traffic(Delta(p, r.1))
    ensures !IsAscii(pin) ==> r == (Failure(NotAscii), p)
    ensures IsAscii(pin) ==> |Writes(Delta(p, r.1))| == 1 && CommandLine("AT+CPIN=" + pin) == Some(Writes(Delta(p, r.1))[0])
    ensures IsAscii(pin) ==> Exchange(Delta(p, r.1), "AT+CPIN=" + pin, Ok, true, 4, r.0.Success?)
    ensures IsAscii(pin) && r.0.Failure? ==> r.0.error == PinRejected
  {
    AsciiAppend("AT+CPIN=", pin);
    var (sent, p1) := Send("AT+CPIN=" + pin, p);
    if sent.Failure? then
      ExtendsRefl(p);
      (sent, p1)
    else
      var (res, q) := WaitForBuf(Ok, [], true, 4, p1);
      SendThenRead(p, p1, q, CommandLine("AT+CPIN=" + pin).value);
      WaitOutcome(Ok, true, 4, p1);
      Exchanged(p, p1, q, "AT+CPIN=" + pin, Ok, true, 4, res.Some?);
      if res.Some? then (Success(()), q) else (Failure(PinRejected), q)
  }

  /** `auth`: the PIN goes out only when the SIM does not report READY, and
      then auth fails exactly when sendpin does. */
  function Auth(pin: string, p: Port): (r: (Result<(), AtError>, Port))
    ensures Extends(p, r.1) && Traffic(Delta(p, r.1))
    ensures |Writes(Delta(p, r.1))| >= 1 && CommandLine("AT+CPIN?") == Some(Writes(Delta(p, r.1))[0])
    ensures |Writes(Delta(p, r.1))| > 1 <==> PinStatus(p).0 == Success(false) && IsAscii(pin)
    ensures |Writes(Delta(p, r.1))| > 1 ==> CommandLine("AT+CPIN=" + pin) == Some(Writes(Delta(p, r.1))[1])
    ensures PinStatus(p).0.Failure? ==> r.0 == Failure(PinStatusUnknown)
    ensures PinStatus(p).0 == Success(true) ==> r.0.Success?
    ensures PinStatus(p).0 == Success(false) ==> r.0 == SendPin(pin, PinStatus(p).1).0
  {
    FixedCommandsAscii();
    AsciiAppend("AT+CPIN=", pin);
    var (ready, p1) := PinStatus(p);
    if ready.Failure? then
      (Failure(ready.error), p1)
    else if ready.value then
      (Success(()), p1)
    else
      var (r, q) := SendPin(pin, p1);
      QueryThenPin(pin, p, p1, q);
      (r, q)
  }

  /** The PIN query's one write followed by what `sendpin` wrote. */
  lemma QueryThenPin(pin: string, p: Port, p1: Port, q: Port)
    requires Extends(p, p1) && Traffic(Delta(p, p1))
    requires |Writes(Delta(p, p1))| == 1 && CommandLine("AT+CPIN?") == Some(Writes(Delta(p, p1))[0])
    requires Extends(p1, q) && Traffic(Delta(p1, q))
    requires !IsAscii(pin) ==> q == p1
    requires IsAscii(pin) ==> |Writes(Delta(p1, q))| == 1 && CommandLine("AT+CPIN=" + pin) == Some(Writes(Delta(p1, q))[0])
    ensures Extends(p, q) && Traffic(Delta(p, q))
    ensures |Writes(Delta(p, q))| >= 1 && CommandLine("AT+CPIN?") == Some(Writes(Delta(p, q))[0])
    ensures |Writes(Delta(p, q))| > 1 <==> IsAscii(pin)
    ensures |Writes(Delta(p, q))| > 1 ==> CommandLine("AT+CPIN=" + pin) == Some(Writes(Delta(p, q))[1])
  {
    TrafficThen(p, p1, q);
    if !IsAscii(pin) {
      ExtendsRefl(p1);
    }
  }

  /** Decimal digits are ASCII. */
  lemma DigitsAscii(s: string)
    requires forall i :: 0 <= i < |s| ==> Decimal.IsDigit(s[i])
    ensures IsAscii(s)
  {
  }

  /** Hex text is ASCII. */
  lemma HexAscii(s: string)
    requires Hex.HexText(s)
    ensures IsAscii(s)
  {
    forall i | 0 <= i < |s| ensures s[i] as int < 128 {
      assert Hex.DigitValue(s[i]).Some?;
    }
  }

  /** The line tests of `sendpdusms`: the "> " prompt and the +CMGS:
      acknowledgement. */
  const Prompt: Matcher := StartsWith("> ")
  const Ack: Matcher := StartsWith("+CMGS:")

  /** AT+CMGS with a length in octets, in decimal. */
  function LengthCommand(n: nat): (c: string)
    ensures IsAscii(c)
  {
    var length := Decimal.FromNat(n);
    DigitsAscii(length);
    AsciiAppend("AT+CMGS=", length);
    "AT+CMGS=" + length
  }

  /** The writes of `sendpdusms` up to the length announcement: AT+CMGF=0
      and AT+CMGS=<TPDU octets in decimal>. */
  predicate Announcement(sub: Pdu.Submission, writes: seq<seq<byte>>)
    requires sub.destination.Valid()
  {
    && |writes| >= 2
    && CommandLine("AT+CMGF=0") == Some(writes[0])
    && CommandLine(LengthCommand(Pdu.TpduOctetLength(sub))) == Some(writes[1])
  }

  /** All four writes of a submission that got its prompt: the announcement,
      the PDU as ASCII hex, Ctrl-Z CR. */
  predicate Delivery(sub: Pdu.Submission, writes: seq<seq<byte>>)
    requires sub.destination.Valid()
  {
    && |writes| == 4
    && Announcement(sub, writes)
    && AsciiEncode(Pdu.SubmissionHex(sub)) == Some(writes[2])
    && writes[3] == [CtrlZ, CR]
  }

  /** The writes each outcome of `sendpdusms` leaves behind. */
  predicate SubmitTrace(sub: Pdu.Submission, outcome: Result<(), AtError>, writes: seq<seq<byte>>)
    requires sub.destination.Valid()
  {
    match outcome
    case Success(_) => Delivery(sub, writes)
    case Failure(NoResponse) => |writes| == 1 && CommandLine("AT+CMGF=0") == Some(writes[0])
    case Failure(SubmitNotStarted) => |writes| == 2 && Announcement(sub, writes)
    case Failure(SubmitNotAcknowledged) => Delivery(sub, writes)
    case Failure(_) => false
  }

  /** PDU mode acknowledged by one try of `command`, then the length
      announced and the wait, chunk by chunk, for the prompt; `heard` says
      whether it came. */
  predicate ModeThenPrompt(sub: Pdu.Submission, events: seq<Event>, heard: bool)
    requires sub.destination.Valid()
  {
    exists i :: 0 <= i <= |events| && CommandLog(events[..i], "AT+CMGF=0", 1, true)
      && Exchange(events[i..], LengthCommand(Pdu.TpduOctetLength(sub)), Prompt, false, 30, heard)
  }

  /** The log of the first half of `sendpdusms` for each of its outcomes. */
  predicate AnnounceLog(sub: Pdu.Submission, outcome: Result<(), AtError>, events: seq<Event>)
    requires sub.destination.Valid()
  {
    match outcome
    case Success(_) => ModeThenPrompt(sub, events, true)
    case Failure(NoResponse) => CommandLog(events, "AT+CMGF=0", 1, false)
    case Failure(SubmitNotStarted) => ModeThenPrompt(sub, events, false)
    case Failure(_) => false
  }

  /** The log of the second half: the PDU as ASCII hex, Ctrl-Z CR, and the
      wait for +CMGS:; `heard` says whether it came. */
  predicate DeliverLog(sub: Pdu.Submission, events: seq<Event>, heard: bool)
    requires sub.destination.Valid()
  {
    && |events| >= 2
    && events[0].Wrote? && AsciiEncode(Pdu.SubmissionHex(sub)) == Some(events[0].data)
    && events[1] == Wrote([CtrlZ, CR])
    && Waited(events[2..], Ack, true, 4, heard)
  }

  /** The log of `sendpdusms` for each of its outcomes: the PDU is written
      only after the prompt was heard, and the outcome is what the waits
      heard. */
  predicate SubmitLog(sub: Pdu.Submission, outcome: Result<(), AtError>, events: seq<Event>)
    requires sub.destination.Valid()
  {
    if outcome.Success? || outcome == Failure(SubmitNotAcknowledged) then
      exists j :: 0 <= j <= |events| && AnnounceLog(sub, Success(()), events[..j])
        && DeliverLog(sub, events[j..], outcome.Success?)
    else
      AnnounceLog(sub, outcome, events)
  }

  /** The first half of `sendpdusms`: PDU mode (one try), the TPDU length
      announced with AT+CMGS, and the wait, chunk by chunk, for the "> "
      prompt. */
  function Announce(sub: Pdu.Submission, p: Port): (r: (Result<(), AtError>, Port))
    requires sub.destination.Valid()
    ensures Extends(p, r.1) && Traffic(Delta(p, r.1))
    ensures r.0.Success? ==> |Writes(Delta(p, r.1))| == 2 && Announcement(sub, Writes(Delta(p, r.1)))
    ensures r.0.Failure? ==> SubmitTrace(sub, r.0, Writes(Delta(p, r.1)))
    ensures AnnounceLog(sub, r.0, Delta(p, r.1))
  {
    FixedCommandsAscii();
    var (mode, p1) := Command("AT+CMGF=0", 1, p);
    if mode.Failure? then
      (mode, p1)
    else
      var length := LengthCommand(Pdu.TpduOctetLength(sub));
      var (_, p2) := Send(length, p1);
      var (prompt, p3) := WaitForBuf(Prompt, [], false, 30, p2);
      Announced(p, p1, p2, p3, CommandLine("AT+CMGF=0").value, CommandLine(length).value);
      WaitOutcome(Prompt, false, 30, p2);
      Exchanged(p1, p2, p3, length, Prompt, false, 30, prompt.Some?);
      ModeThenPromptOf(sub, p, p1, p3, prompt.Some?);
      if prompt.None? then (Failure(SubmitNotStarted), p3) else (Success(()), p3)
  }

  /** PDU mode acknowledged, then the announcement exchange. */
  lemma ModeThenPromptOf(sub: Pdu.Submission, p: Port, p1: Port, q: Port, heard: bool)
    requires sub.destination.Valid()
    requires Extends(p, p1) && CommandLog(Delta(p, p1), "AT+CMGF=0", 1, true)
    requires Extends(p1, q) && Exchange(Delta(p1, q), LengthCommand(Pdu.TpduOctetLength(sub)), Prompt, false, 30, heard)
    ensures Extends(p, q) && ModeThenPrompt(sub, Delta(p, q), heard)
  {
    ExtendsTrans(p, p1, q);
    var i := |Delta(p, p1)|;
    assert Delta(p, q)[..i] == Delta(p, p1) && Delta(p, q)[i..] == Delta(p1, q);
  }

  /** PDU mode set and the length announced: two writes, then the reads that
      waited for the prompt. */
  lemma Announced(p: Port, p1: Port, p2: Port, p3: Port, mode: seq<byte>, announce: seq<byte>)
    requires Extends(p, p1) && Traffic(Delta(p, p1)) && Writes(Delta(p, p1)) == [mode]
    requires Extends(p1, p2) && Delta(p1, p2) == [Wrote(announce)]
    requires Extends(p2, p3) && ReadsOnly(Delta(p2, p3))
    ensures Extends(p, p3) && Traffic(Delta(p, p3)) && Writes(Delta(p, p3)) == [mode, announce]
  {
    SendThenRead(p1, p2, p3, announce);
    TrafficThen(p, p1, p3);
  }

  /** The second half of `sendpdusms`: the PDU as hex text, Ctrl-Z CR, and
      the wait for the +CMGS: acknowledgement. */
  function Deliver(sub: Pdu.Submission, p: Port): (r: (Result<(), AtError>, Port))
    requires sub.destination.Valid()
    ensures Extends(p, r.1) && Traffic(Delta(p, r.1))
    ensures |Writes(Delta(p, r.1))| == 2
    ensures AsciiEncode(Pdu.SubmissionHex(sub)) == Some(Writes(Delta(p, r.1))[0])
    ensures Writes(Delta(p, r.1))[1] == [CtrlZ, CR]
    ensures DeliverLog(sub, Delta(p, r.1), r.0.Success?)
    ensures r.0.Failure? ==> r.0.error == SubmitNotAcknowledged
  {
    Pdu.SubmissionHexText(sub);
    HexAscii(Pdu.SubmissionHex(sub));
    var payload := AsciiEncode(Pdu.SubmissionHex(sub)).value;
    var p1 := Write(p, payload);
    var p2 := Write(p1, [CtrlZ, CR]);
    var (ack, q) := WaitForBuf(Ack, [], true, 4, p2);
    Delivered(p, p1, p2, q, payload);
    WaitOutcome(Ack, true, 4, p2);
    if ack.None? then (Failure(SubmitNotAcknowledged), q) else (Success(()), q)
  }

  /** The payload and its terminator, then the reads that waited for the
      acknowledgement. */
  lemma Delivered(p: Port, p1: Port, p2: Port, q: Port, payload: seq<byte>)
    requires Extends(p, p1) && Delta(p, p1) == [Wrote(payload)]
    requires Extends(p1, p2) && Delta(p1, p2) == [Wrote([CtrlZ, CR])]
    requires Extends(p2, q) && ReadsOnly(Delta(p2, q))
    ensures Extends(p, q) && Traffic(Delta(p, q))
    ensures Writes(Delta(p, q)) == [payload, [CtrlZ, CR]]
    ensures |Delta(p, q)| >= 2 && Delta(p, q)[0] == Wrote(payload) && Delta(p, q)[1] == Wrote([CtrlZ, CR])
    ensures Delta(p, q)[2..] == Delta(p2, q)
  {
    SendThenRead(p1, p2, q, [CtrlZ, CR]);
    assert Traffic([Wrote(payload)]);
    TrafficThen(p, p1, q);
    ExtendsTrans(p, p1, p2);
    ExtendsTrans(p, p2, q);
    assert Delta(p, q) == [Wrote(payload)] + [Wrote([CtrlZ, CR])] + Delta(p2, q);
  }

  /** Later traffic that writes twice follows the first two writes. */
  lemma LaterWrites(p: Port, p1: Port, q: Port)
    requires Extends(p, p1) && Traffic(Delta(p, p1)) && |Writes(Delta(p, p1))| == 2
    requires Extends(p1, q) && Traffic(Delta(p1, q)) && |Writes(Delta(p1, q))| == 2
    ensures Extends(p, q) && Traffic(Delta(p, q))
    ensures |Writes(Delta(p, q))| == 4
    ensures Writes(Delta(p, q))[0] == Writes(Delta(p, p1))[0] && Writes(Delta(p, q))[1] == Writes(Delta(p, p1))[1]
    ensures Writes(Delta(p, q))[2] == Writes(Delta(p1, q))[0] && Writes(Delta(p, q))[3] == Writes(Delta(p1, q))[1]
  {
    TrafficThen(p, p1, q);
  }

  /** `sendpdusms`: the announcement, and only once the prompt came, the
      delivery. */
  function SendPduSms(sub: Pdu.Submission, p: Port): (r: (Result<(), AtError>, Port))
    requires sub.destination.Valid()
    ensures Extends(p, r.1) && Traffic(Delta(p, r.1))
    ensures SubmitTrace(sub, r.0, Writes(Delta(p, r.1)))
    ensures SubmitLog(sub, r.0, Delta(p, r.1))
  {
    var (started, p1) := Announce(sub, p);
    if started.Failure? then
      (started, p1)
    else
      var (delivered, q) := Deliver(sub, p1);
      LaterWrites(p, p1, q);
      AnnouncedThenDelivered(sub, p, p1, q, delivered.Success?);
      (delivered, q)
  }

  /** A prompted announcement, then the delivery. */
  lemma AnnouncedThenDelivered(sub: Pdu.Submission, p: Port, p1: Port, q: Port, heard: bool)
    requires sub.destination.Valid()
    requires Extends(p, p1) && AnnounceLog(sub, Success(()), Delta(p, p1))
    requires Extends(p1, q) && DeliverLog(sub, Delta(p1, q), heard)
    ensures Extends(p, q)
    ensures SubmitLog(sub, if heard then Success(()) else Failure(SubmitNotAcknowledged), Delta(p, q))
  {
    ExtendsTrans(p, p1, q);
    var j := |Delta(p, p1)|;
    assert Delta(p, q)[..j] == Delta(p, p1) && Delta(p, q)[j..] == Delta(p1, q);
  }
}
