/** The serial line as a script: the chunks successive reads return (an empty
    chunk is a read that timed out; an exhausted script keeps timing out) and
    a log in the shape of the debug logger: one event per write, one per
    read the protocol engine makes, plus acquiring and releasing the locked
    port. */
module Transport {
  import Config
  import opened Lines

  /** One entry of the port log. */
  datatype Event =
    | Acquired(settings: Config.SerialSettings)
    | Released
    | Wrote(data: seq<byte>)
    | Received(data: seq<byte>)

  /** The chunks still to be read, and the log so far. */
  datatype Port = Port(pending: seq<seq<byte>>, log: seq<Event>)

  /** The chunks joined into one byte string. */
  function Flatten(chunks: seq<seq<byte>>): (bytes: seq<byte>)
  {
    if |chunks| == 0 then [] else chunks[0] + Flatten(chunks[1..])
  }

  /** Every byte the logged reads returned, in order. */
  function ReceivedBytes(events: seq<Event>): seq<byte>
  {
    if |events| == 0 then []
    else (if events[0].Received? then events[0].data else []) + ReceivedBytes(events[1..])
  }

  /** Every write, in order. */
  function Writes(events: seq<Event>): seq<seq<byte>>
  {
    if |events| == 0 then []
    else (if events[0].Wrote? then [events[0].data] else []) + Writes(events[1..])
  }

  /** Number of logged reads that returned nothing. */
  function Timeouts(events: seq<Event>): nat
  {
    if |events| == 0 then 0
    else (if events[0] == Received([]) then 1 else 0) + Timeouts(events[1..])
  }

  /** Number of times the port was acquired. */
  function Acquisitions(events: seq<Event>): nat
  {
    if |events| == 0 then 0
    else (if events[0].Acquired? then 1 else 0) + Acquisitions(events[1..])
  }

  /** The lock is held: the last acquire or release event is an acquire. */
  predicate Held(log: seq<Event>)
  {
    if |log| == 0 then false
    else if log[|log| - 1].Acquired? then true
    else if log[|log| - 1].Released? then false
    else Held(log[..|log| - 1])
  }

  /** q is p after more I/O: the log only grows, the script is only consumed,
      and what was consumed is exactly what the new read events show. */
  predicate Extends(p: Port, q: Port)
  {
    && |p.log| <= |q.log| && q.log[..|p.log|] == p.log
    && |q.pending| <= |p.pending| && q.pending == p.pending[|p.pending| - |q.pending|..]
    && ReceivedBytes(q.log[|p.log|..]) == Flatten(p.pending[..|p.pending| - |q.pending|])
  }

  /** Events that only talk to the modem: no acquiring or releasing. */
  predicate Traffic(events: seq<Event>)
  {
    forall i :: 0 <= i < |events| ==> events[i].Wrote? || events[i].Received?
  }

  /** Events that only read. */
  predicate ReadsOnly(events: seq<Event>)
  {
    forall i :: 0 <= i < |events| ==> events[i].Received?
  }

  /** Reads write nothing and acquire nothing. */
  lemma {:induction false} ReadsOnlyWriteNothing(events: seq<Event>)
    requires ReadsOnly(events)
    ensures Writes(events) == [] && Acquisitions(events) == 0 && Traffic(events)
    decreases |events|
  {
    if |events| > 0 {
      ReadsOnlyWriteNothing(events[1..]);
    }
  }

  /** Traffic leaves the lock as it was. */
  lemma {:induction false} TrafficKeepsHeld(log: seq<Event>, events: seq<Event>)
    requires Traffic(events)
    ensures Held(log + events) == Held(log)
    decreases |events|
  {
    if |events| > 0 {
      var n := |events| - 1;
      assert (log + events)[..|log + events| - 1] == log + events[..n];
      TrafficKeepsHeld(log, events[..n]);
    } else {
      assert log + events == log;
    }
  }

  /** Traffic between two ports leaves the lock as it was. */
  lemma TrafficKeepsLock(p: Port, q: Port)
    requires Extends(p, q) && Traffic(q.log[|p.log|..])
    ensures Held(q.log) == Held(p.log)
  {
    assert q.log == p.log + q.log[|p.log|..];
    TrafficKeepsHeld(p.log, q.log[|p.log|..]);
  }

  /** The events logged between p and q. */
  function Delta(p: Port, q: Port): seq<Event>
    requires Extends(p, q)
  {
    q.log[|p.log|..]
  }

  /** Joining distributes over concatenation. */
  lemma {:induction false} FlattenAppend(a: seq<seq<byte>>, b: seq<seq<byte>>)
    ensures Flatten(a + b) == Flatten(a) + Flatten(b)
    decreases |a|
  {
    if |a| > 0 {
      FlattenAppend(a[1..], b);
      assert (a + b)[1..] == a[1..] + b;
    } else {
      assert a + b == b;
    }
  }

  /** The event counters distribute over concatenation. */
  lemma {:induction false} ReceivedAppend(a: seq<Event>, b: seq<Event>)
    ensures ReceivedBytes(a + b) == ReceivedBytes(a) + ReceivedBytes(b)
    ensures Writes(a + b) == Writes(a) + Writes(b)
    ensures Timeouts(a + b) == Timeouts(a) + Timeouts(b)
    ensures Acquisitions(a + b) == Acquisitions(a) + Acquisitions(b)
    decreases |a|
  {
    if |a| > 0 {
      ReceivedAppend(a[1..], b);
      assert (a + b)[1..] == a[1..] + b;
    } else {
      assert a + b == b;
    }
  }

  /** No I/O is an extension with no events. */
  lemma ExtendsRefl(p: Port)
    ensures Extends(p, p) && Delta(p, p) == []
  {
    assert p.pending[..|p.pending| - |p.pending|] == [];
  }

  /** More I/O after more I/O is more I/O; the events concatenate. */
  lemma ExtendsTrans(p: Port, q: Port, r: Port)
    requires Extends(p, q) && Extends(q, r)
    ensures Extends(p, r)
    ensures Delta(p, r) == Delta(p, q) + Delta(q, r)
    ensures ReceivedBytes(Delta(p, r)) == ReceivedBytes(Delta(p, q)) + ReceivedBytes(Delta(q, r))
    ensures Writes(Delta(p, r)) == Writes(Delta(p, q)) + Writes(Delta(q, r))
    ensures Timeouts(Delta(p, r)) == Timeouts(Delta(p, q)) + Timeouts(Delta(q, r))
    ensures Acquisitions(Delta(p, r)) == Acquisitions(Delta(p, q)) + Acquisitions(Delta(q, r))
    ensures Traffic(Delta(p, q)) && Traffic(Delta(q, r)) ==> Traffic(Delta(p, r))
  {
    LogsChain(p, q, r);
    var d1, d2 := q.log[|p.log|..], r.log[|q.log|..];
    ReceivedAppend(d1, d2);
    PendingChain(p, q, r);
  }

  /** The logs of two extensions chain. */
  lemma LogsChain(p: Port, q: Port, r: Port)
    requires |p.log| <= |q.log| && q.log[..|p.log|] == p.log
    requires |q.log| <= |r.log| && r.log[..|q.log|] == q.log
    ensures |p.log| <= |r.log| && r.log[..|p.log|] == p.log
    ensures r.log[|p.log|..] == q.log[|p.log|..] + r.log[|q.log|..]
  {
  }

  /** The consumed input of two extensions chains. */
  lemma PendingChain(p: Port, q: Port, r: Port)
    requires Extends(p, q) && Extends(q, r)
    ensures |r.pending| <= |p.pending| && r.pending == p.pending[|p.pending| - |r.pending|..]
    ensures Flatten(p.pending[..|p.pending| - |r.pending|])
      == Flatten(p.pending[..|p.pending| - |q.pending|]) + Flatten(q.pending[..|q.pending| - |r.pending|])
  {
    var n1 := |p.pending| - |q.pending|;
    var n2 := |q.pending| - |r.pending|;
    assert p.pending[..n1 + n2] == p.pending[..n1] + q.pending[..n2];
    FlattenAppend(p.pending[..n1], q.pending[..n2]);
  }

  /** Appending an event that reads nothing. */
  function Log(p: Port, e: Event): (q: Port)
    requires !e.Received?
    ensures Extends(p, q) && Delta(p, q) == [e]
  {
    var q := Port(p.pending, p.log + [e]);
    assert q.log[|p.log|..] == [e];
    assert p.pending[..|p.pending| - |q.pending|] == [];
    q
  }

  /** A write of some bytes. */
  function Write(p: Port, data: seq<byte>): (q: Port)
    ensures Extends(p, q) && Delta(p, q) == [Wrote(data)]
  {
    Log(p, Wrote(data))
  }

  /** Opening and locking the device with the prepared settings. */
  function Acquire(p: Port, settings: Config.SerialSettings): (q: Port)
    ensures Extends(p, q) && Delta(p, q) == [Acquired(settings)] && Held(q.log)
  {
    Log(p, Acquired(settings))
  }

  /** Unlocking and closing the device. */
  function Release(p: Port): (q: Port)
    ensures Extends(p, q) && Delta(p, q) == [Released] && !Held(q.log)
  {
    Log(p, Released)
  }

  /** A chunk that completes a line: its last byte is LF. */
  predicate EndsLine(c: seq<byte>)
  {
    |c| > 0 && c[|c| - 1] == 10
  }

  /** The undecorated line read: chunks are concatenated until one ends in
      LF (kept) or one comes back empty. The result is the consumed chunks. */
  function RawReadLine(pending: seq<seq<byte>>): (r: (seq<byte>, nat))
    ensures r.1 <= |pending| && r.0 == Flatten(pending[..r.1])
    ensures forall j :: 0 <= j < r.1 - 1 ==> |pending[j]| > 0 && !EndsLine(pending[j])
    ensures r.1 == |pending| || (r.1 > 0 && (pending[r.1 - 1] == [] || EndsLine(pending[r.1 - 1])))
    decreases |pending|
  {
    if |pending| == 0 then ([], 0)
    else
      var c := pending[0];
      if |c| == 0 || EndsLine(c) then
        assert pending[..1] == [c];
        (c, 1)
      else
        var rest := RawReadLine(pending[1..]);
        assert pending[..rest.1 + 1] == [c] + pending[1..][..rest.1];
        (c + rest.0, rest.1 + 1)
  }

  /** A read of whatever the line delivers next (the engine's partial mode). */
  function Read(p: Port): (r: (seq<byte>, Port))
    ensures Extends(p, r.1) && Delta(p, r.1) == [Received(r.0)]
    ensures |p.pending| > 0 ==> r.0 == p.pending[0] && r.1.pending == p.pending[1..]
    ensures |p.pending| == 0 ==> r.0 == [] && r.1.pending == []
  {
    var k := if |p.pending| == 0 then 0 else 1;
    var c := Flatten(p.pending[..k]);
    Consume(p, k, c);
    assert k == 1 ==> c == p.pending[0];
    (c, Port(p.pending[k..], p.log + [Received(c)]))
  }

  /** readlinebytes: one logged read of a whole line, or of what arrived
      before a timeout. */
  function ReadLine(p: Port): (r: (seq<byte>, Port))
    ensures Extends(p, r.1) && Delta(p, r.1) == [Received(r.0)]
    ensures r.0 == RawReadLine(p.pending).0 && r.1.pending == p.pending[RawReadLine(p.pending).1..]
  {
    var (line, k) := RawReadLine(p.pending);
    Consume(p, k, line);
    (line, Port(p.pending[k..], p.log + [Received(line)]))
  }

  /** Logging one read of the first k pending chunks. */
  lemma Consume(p: Port, k: nat, data: seq<byte>)
    requires k <= |p.pending| && data == Flatten(p.pending[..k])
    ensures Extends(p, Port(p.pending[k..], p.log + [Received(data)]))
    ensures Delta(p, Port(p.pending[k..], p.log + [Received(data)])) == [Received(data)]
  {
    var q := Port(p.pending[k..], p.log + [Received(data)]);
    assert q.log[|p.log|..] == [Received(data)];
    assert q.log[..|p.log|] == p.log;
    assert p.pending[..|p.pending| - |q.pending|] == p.pending[..k];
    assert ReceivedBytes([Received(data)]) == data;
  }

  /** When every chunk is one byte, as the port's read() returns, a line
      holds no LF before its end. */
  lemma {:induction false} ReadLineStopsAtFirstLf(pending: seq<seq<byte>>)
    requires forall j :: 0 <= j < |pending| ==> |pending[j]| <= 1
    ensures forall i :: 0 <= i < |RawReadLine(pending).0| - 1 ==> RawReadLine(pending).0[i] != 10
    decreases |pending|
  {
    if |pending| > 0 {
      var c := pending[0];
      if !(|c| == 0 || EndsLine(c)) {
        ReadLineStopsAtFirstLf(pending[1..]);
        var rest := RawReadLine(pending[1..]).0;
        assert forall k :: 0 <= k < |rest| - 1 ==> rest[k] != 10;
        assert c == [c[0]] && c[0] != 10;
        assert RawReadLine(pending).0 == c + rest;
        var line := c + rest;
        forall i | 0 <= i < |line| - 1
          ensures line[i] != 10
        {
          if i > 0 {
            assert line[i] == rest[i - 1];
          }
        }
      }
    }
  }
}
