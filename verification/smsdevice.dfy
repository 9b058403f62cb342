/** The SMS device session: a lazily opened, exclusively locked modem
    connection with an error counter. Every public operation connects
    first; an operation that fails after connecting drops the connection
    and counts one error, so the next call starts afresh. */
module SmsDevice {
  import opened Wrappers
  import opened Config
  import opened Transport
  import AtModem
  import Pdu
  import Lines

  /** The connection: none, or an open, locked port with its settings. */
  datatype Link = Offline | Online(settings: SerialSettings)

  /** SMSDevice: the connection, the error counter and the two configuration
      sections it was built with. */
  datatype Session = Session(link: Link, errors: nat, serialConf: map<string, string>, modemConf: map<string, string>)

  /** Why a session operation failed. */
  datatype DeviceError =
    | BadConfig(cause: ConfigError)  // the serial configuration lacks a key or holds a non-integer
    | PortUnavailable                // the device could not be opened
    | MissingPin                     // the modem configuration has no "pin"
    | Modem(at: AtModem.AtError)     // an AT exchange failed

  /** The outcome of an AT exchange as the outcome of a session step. */
  function Lift(r: Result<(), AtModem.AtError>): (d: Result<(), DeviceError>)
    ensures d.Success? <==> r.Success?
    ensures d.Failure? ==> d.error == Modem(r.error)
  {
    match r
    case Success(_) => Success(())
    case Failure(e) => Failure(Modem(e))
  }

  /** SMSDevice.__init__: not connected, no errors yet. */
  function NewSession(serialConf: map<string, string>, modemConf: map<string, string>): (s: Session)
    ensures s.link == Offline && s.errors == 0
    ensures s.serialConf == serialConf && s.modemConf == modemConf
  {
    Session(Offline, 0, serialConf, modemConf)
  }

  /** The session holds a connection exactly when the port's lock is held. */
  predicate Consistent(s: Session, p: Port)
  {
    s.link.Online? <==> Held(p.log)
  }

  /** The greeting every handshake starts with: Ctrl-Z and CR from the
      reset, the empty line, then AT. */
  predicate Greeting(w: seq<seq<Lines.byte>>)
  {
    && |w| >= 4
    && w[..3] == [[AtModem.CtrlZ], [AtModem.CR], [AtModem.CR]]
    && AtModem.CommandLine("AT") == Some(w[3])
  }

  /** The last line written was the command `c`. */
  predicate LastCommand(w: seq<seq<Lines.byte>>, c: string)
  {
    |w| >= 1 && AtModem.CommandLine(c) == Some(w[|w| - 1])
  }

  /** From position `from` on, a speed command is directly followed by the
      PIN status query. */
  predicate SpeedThenPin(w: seq<seq<Lines.byte>>, speed: string, from: nat)
  {
    exists i :: from <= i < |w| - 1 && AtModem.CommandLine("AT+IPR=" + speed) == Some(w[i])
      && AtModem.CommandLine("AT+CPIN?") == Some(w[i + 1])
  }

  /** The modem handshake of connect after the port is locked: reset, an
      empty line, ping, set the speed to the configured one, then the PIN.
      The PIN is looked up only after the speed was set. */
  function Handshake(speed: string, modemConf: map<string, string>, p: Port): (r: (Result<(), DeviceError>, Port))
    ensures Extends(p, r.1) && Traffic(Delta(p, r.1))
    ensures Greeting(Writes(Delta(p, r.1)))
    ensures r.0.Failure? && r.0.error.MissingPin? ==>
      "pin" !in modemConf && LastCommand(Writes(Delta(p, r.1)), "AT+IPR=" + speed)
    ensures r.0.Success? ==> "pin" in modemConf && SpeedThenPin(Writes(Delta(p, r.1)), speed, 4)
    ensures r.0.Success? <==> Greet(p).0.Success? && Configure(speed, modemConf, Greet(p).1).0.Success?
    ensures Greet(p).0.Failure? ==> r.0 == Failure(Modem(AtModem.NoResponse))
    ensures Greet(p).0.Success? ==> r.0 == Configure(speed, modemConf, Greet(p).1).0
  {
    var (greeted, p1) := Greet(p);
    if greeted.Failure? then
      (Failure(Modem(greeted.error)), p1)
    else
      var (configured, q) := Configure(speed, modemConf, p1);
      Continued(p, p1, q);
      if configured.Failure? && configured.error.MissingPin? then
        EndsWith(p, p1, q, "AT+IPR=" + speed);
        (configured, q)
      else if configured.Success? then
        AfterGreeting(p, p1, q, speed);
        (configured, q)
      else
        (configured, q)
  }

  /** The start of the handshake: Ctrl-Z CR, an empty line, and ping, which
      succeeds exactly when the modem answered one of its tries with OK. */
  function Greet(p: Port): (r: (Result<(), AtModem.AtError>, Port))
    ensures Extends(p, r.1) && Traffic(Delta(p, r.1))
    ensures Greeting(Writes(Delta(p, r.1)))
    ensures r.0.Failure? ==> r.0.error == AtModem.NoResponse
    ensures |Delta(p, r.1)| >= 3 && AtModem.CommandLog(Delta(p, r.1)[3..], "AT", 3, r.0.Success?)
  {
    var p1 := AtModem.Reset(p);
    var (_, p2) := AtModem.Send("", p1);
    var (pinged, q) := AtModem.Ping(p2);
    Greeted(p, p1, p2, q);
    (pinged, q)
  }

  /** Reset, the empty line and ping, written one after the other. */
  lemma Greeted(p: Port, p1: Port, p2: Port, q: Port)
    requires Extends(p, p1) && Traffic(Delta(p, p1)) && Writes(Delta(p, p1)) == [[AtModem.CtrlZ], [AtModem.CR]]
    requires Extends(p1, p2) && Delta(p1, p2) == [Wrote(AtModem.CommandLine("").value)]
    requires Extends(p2, q) && Traffic(Delta(p2, q))
    requires Writes(Delta(p2, q)) == AtModem.Repeat(AtModem.CommandLine("AT").value, |Writes(Delta(p2, q))|)
    requires |Writes(Delta(p2, q))| >= 1
    requires |Delta(p, p1)| == 2
    ensures Extends(p, q) && Traffic(Delta(p, q))
    ensures Greeting(Writes(Delta(p, q)))
    ensures |Delta(p, q)| >= 3 && Delta(p, q)[3..] == Delta(p2, q)
  {
    assert Traffic([Wrote(AtModem.CommandLine("").value)]);
    assert Writes([Wrote(AtModem.CommandLine("").value)]) == [AtModem.CommandLine("").value];
    assert AtModem.CommandLine("").value == [AtModem.CR];
    AtModem.TrafficThen(p, p1, p2);
    AtModem.TrafficThen(p, p2, q);
    assert Writes(Delta(p, q)) == [[AtModem.CtrlZ], [AtModem.CR], [AtModem.CR]] + Writes(Delta(p2, q));
    ExtendsTrans(p, p1, p2);
    ExtendsTrans(p, p2, q);
  }

  /** The rest of the handshake: the speed, then the PIN. */
  function Configure(speed: string, modemConf: map<string, string>, p: Port): (r: (Result<(), DeviceError>, Port))
    ensures Extends(p, r.1) && Traffic(Delta(p, r.1))
    ensures r.0.Failure? && r.0.error.MissingPin? ==>
      "pin" !in modemConf && LastCommand(Writes(Delta(p, r.1)), "AT+IPR=" + speed)
    ensures r.0.Success? ==> "pin" in modemConf && SpeedThenPin(Writes(Delta(p, r.1)), speed, 0)
    ensures r.0.Success? <==>
              (&& AtModem.SetSpeed(speed, p).0.Success? && "pin" in modemConf
               && AtModem.Auth(modemConf["pin"], AtModem.SetSpeed(speed, p).1).0.Success?)
    ensures AtModem.SetSpeed(speed, p).0.Failure? ==> r.0 == Lift(AtModem.SetSpeed(speed, p).0)
    ensures AtModem.SetSpeed(speed, p).0.Success? && "pin" in modemConf ==>
      r.0 == Lift(AtModem.Auth(modemConf["pin"], AtModem.SetSpeed(speed, p).1).0)
  {
    AtModem.AsciiAppend("AT+IPR=", speed);
    AtModem.FixedCommandsAscii();
    var (sped, p1) := AtModem.SetSpeed(speed, p);
    if sped.Failure? then
      (Lift(sped), p1)
    else if "pin" !in modemConf then
      SpeedWasSet(p, p1, speed);
      (Failure(MissingPin), p1)
    else
      var (authed, q) := AtModem.Auth(modemConf["pin"], p1);
      SpeedThenQuery(p, p1, q, speed);
      (Lift(authed), q)
  }

  /** The speed commands, then `auth`, whose first write is the PIN status
      query. */
  lemma SpeedThenQuery(p: Port, p1: Port, q: Port, speed: string)
    requires Lines.IsAscii("AT+IPR=" + speed)
    requires Extends(p, p1) && Traffic(Delta(p, p1)) && |Writes(Delta(p, p1))| >= 1
    requires Writes(Delta(p, p1)) == AtModem.Repeat(AtModem.CommandLine("AT+IPR=" + speed).value, |Writes(Delta(p, p1))|)
    requires Extends(p1, q) && Traffic(Delta(p1, q))
    requires |Writes(Delta(p1, q))| >= 1 && AtModem.CommandLine("AT+CPIN?") == Some(Writes(Delta(p1, q))[0])
    ensures Extends(p, q) && Traffic(Delta(p, q))
    ensures SpeedThenPin(Writes(Delta(p, q)), speed, 0)
  {
    AtModem.TrafficThen(p, p1, q);
    var w, w1, w2 := Writes(Delta(p, q)), Writes(Delta(p, p1)), Writes(Delta(p1, q));
    var i := |w1| - 1;
    assert w1[i] == AtModem.CommandLine("AT+IPR=" + speed).value;
    assert w[i] == w1[i] && w[i + 1] == w2[0];
  }

  /** The handshake's writes after the greeting keep their speed-then-PIN
      pair, shifted past the greeting. */
  lemma AfterGreeting(p: Port, p1: Port, q: Port, speed: string)
    requires Extends(p, p1) && Traffic(Delta(p, p1)) && |Writes(Delta(p, p1))| >= 4
    requires Extends(p1, q) && Traffic(Delta(p1, q)) && SpeedThenPin(Writes(Delta(p1, q)), speed, 0)
    ensures Extends(p, q)
    ensures SpeedThenPin(Writes(Delta(p, q)), speed, 4)
  {
    AtModem.TrafficThen(p, p1, q);
    var w, w1, w2 := Writes(Delta(p, q)), Writes(Delta(p, p1)), Writes(Delta(p1, q));
    var i :| 0 <= i < |w2| - 1 && AtModem.CommandLine("AT+IPR=" + speed) == Some(w2[i])
      && AtModem.CommandLine("AT+CPIN?") == Some(w2[i + 1]);
    assert w[|w1| + i] == w2[i] && w[|w1| + i + 1] == w2[i + 1];
  }

  /** After the speed was set, the last write is the speed command. */
  lemma SpeedWasSet(p: Port, q: Port, speed: string)
    requires Lines.IsAscii("AT+IPR=" + speed)
    requires Extends(p, q) && |Writes(Delta(p, q))| >= 1
    requires Writes(Delta(p, q)) == AtModem.Repeat(AtModem.CommandLine("AT+IPR=" + speed).value, |Writes(Delta(p, q))|)
    ensures LastCommand(Writes(Delta(p, q)), "AT+IPR=" + speed)
  {
    var w := Writes(Delta(p, q));
    assert w[|w| - 1] == AtModem.Repeat(AtModem.CommandLine("AT+IPR=" + speed).value, |w|)[|w| - 1];
  }

  /** Traffic after the greeting keeps the greeting. */
  lemma Continued(p: Port, p1: Port, q: Port)
    requires Extends(p, p1) && Traffic(Delta(p, p1)) && Greeting(Writes(Delta(p, p1)))
    requires Extends(p1, q) && Traffic(Delta(p1, q))
    ensures Extends(p, q) && Traffic(Delta(p, q))
    ensures Greeting(Writes(Delta(p, q)))
  {
    AtModem.TrafficThen(p, p1, q);
    var w, w1 := Writes(Delta(p, q)), Writes(Delta(p, p1));
    assert w[..3] == w1[..3] && w[3] == w1[3];
  }

  /** The last write of later traffic is the last write of the whole. */
  lemma EndsWith(p: Port, p1: Port, q: Port, c: string)
    requires Extends(p, p1) && Traffic(Delta(p, p1))
    requires Extends(p1, q) && Traffic(Delta(p1, q))
    requires LastCommand(Writes(Delta(p1, q)), c)
    ensures Extends(p, q)
    ensures LastCommand(Writes(Delta(p, q)), c)
  {
    AtModem.TrafficThen(p, p1, q);
    var w, w2 := Writes(Delta(p, q)), Writes(Delta(p1, q));
    assert w[|w| - 1] == w2[|w2| - 1];
  }

  /** SMSDevice.connect: nothing to do when connected. Otherwise the serial
      configuration is prepared (its errors come before the port is touched),
      the port is opened and locked, and the handshake runs; when it fails,
      the port is unlocked and closed again and the session stays offline.
      Whether the device opens is a parameter. */
  function Connect(s: Session, opens: bool, p: Port): (r: (Result<(), DeviceError>, Session, Port))
    ensures Extends(p, r.2)
    ensures r.1 == s.(link := r.1.link)
    ensures s.link.Online? ==> r == (Success(()), s, p)
    ensures r.0.Success? <==> r.1.link.Online?
    ensures s.link.Offline? && PrepareSerial(s.serialConf).Failure? ==>
      r == (Failure(BadConfig(PrepareSerial(s.serialConf).error)), s, p)
    ensures s.link.Offline? && PrepareSerial(s.serialConf).Success? && !opens ==>
      r == (Failure(PortUnavailable), s, p)
    ensures s.link.Offline? && r.0.Success? ==>
      r.1.link == Online(PrepareSerial(s.serialConf).value) && Established(r.1.link.settings, s.modemConf, p, r.2)
    ensures s.link.Offline? && PrepareSerial(s.serialConf).Success? && opens && r.0.Failure? ==> Withdrawn(p, r.2)
    ensures Acquisitions(Delta(p, r.2)) <= 1
    ensures Consistent(s, p) ==> Consistent(r.1, r.2)
  {
    if s.link.Online? then
      ExtendsRefl(p);
      (Success(()), s, p)
    else
      match PrepareSerial(s.serialConf)
      case Failure(e) =>
        ExtendsRefl(p);
        (Failure(BadConfig(e)), s, p)
      case Success(settings) =>
        if !opens then
          ExtendsRefl(p);
          (Failure(PortUnavailable), s, p)
        else
          var attempt := Open(settings, s.modemConf, p);
          if attempt.0.Success? then (attempt.0, s.(link := Online(settings)), attempt.1) else (attempt.0, s, attempt.1)
  }

  /** The port was locked with `settings` before anything else, is still
      held, and the handshake wrote the greeting and later the speed command
      directly followed by the PIN status query, with a PIN configured. */
  predicate Established(settings: SerialSettings, modemConf: map<string, string>, p: Port, q: Port)
  {
    && Extends(p, q) && Held(q.log)
    && |Delta(p, q)| > 0 && Delta(p, q)[0] == Acquired(settings)
    && Acquisitions(Delta(p, q)) == 1
    && "pin" in modemConf
    && Greeting(Writes(Delta(p, q)))
    && SpeedThenPin(Writes(Delta(p, q)), settings.speed, 4)
  }

  /** The port was locked first and released last, and is no longer held. */
  predicate Withdrawn(p: Port, q: Port)
  {
    && Extends(p, q) && !Held(q.log) && p != q
    && |Delta(p, q)| > 1 && Delta(p, q)[0].Acquired? && Delta(p, q)[|Delta(p, q)| - 1] == Released
    && Acquisitions(Delta(p, q)) == 1
  }

  /** From offline, with a usable configuration and a device that opens,
      connect's outcome is the outcome of the handshake on the locked port. */
  lemma ConnectRunsHandshake(s: Session, opens: bool, p: Port)
    requires s.link.Offline? && PrepareSerial(s.serialConf).Success? && opens
    ensures var settings := PrepareSerial(s.serialConf).value;
      Connect(s, opens, p).0 == Handshake(settings.speed, s.modemConf, Acquire(p, settings)).0
  {
  }

  /** From offline, connect succeeds exactly when the serial configuration
      is usable, the device opens, the modem answers ping with OK, accepts
      the speed command, and a configured PIN leaves the SIM ready. */
  lemma ConnectSucceeds(s: Session, opens: bool, p: Port)
    requires s.link.Offline?
    ensures Connect(s, opens, p).0.Success? <==>
      (&& PrepareSerial(s.serialConf).Success? && opens
       && var settings := PrepareSerial(s.serialConf).value;
          var greeted := Greet(Acquire(p, settings));
          var sped := AtModem.SetSpeed(settings.speed, greeted.1);
          && greeted.0.Success? && sped.0.Success? && "pin" in s.modemConf
          && AtModem.Auth(s.modemConf["pin"], sped.1).0.Success?)
  {
    if PrepareSerial(s.serialConf).Success? && opens {
      ConnectRunsHandshake(s, opens, p);
    }
  }

  /** The part of connect inside its try block: lock the port, run the
      handshake, and release the port again when the handshake fails. */
  function Open(settings: SerialSettings, modemConf: map<string, string>, p: Port): (r: (Result<(), DeviceError>, Port))
    ensures r.0.Success? ==> Established(settings, modemConf, p, r.1)
    ensures r.0.Failure? ==> Withdrawn(p, r.1)
    ensures r.0 == Handshake(settings.speed, modemConf, Acquire(p, settings)).0
  {
    var p1 := Acquire(p, settings);
    var (shaken, p2) := Handshake(settings.speed, modemConf, p1);
    if shaken.Success? then
      LockedSession(p, p1, p2, settings);
      WritesAfterAcquire(p, p1, p2, settings);
      (shaken, p2)
    else
      var q := Release(p2);
      AbandonedSession(p, p1, p2, q, settings);
      (shaken, q)
  }

  /** Acquired, then handshake traffic: held, one acquisition, first event. */
  lemma LockedSession(p: Port, p1: Port, q: Port, settings: SerialSettings)
    requires Extends(p, p1) && Delta(p, p1) == [Acquired(settings)] && Held(p1.log)
    requires Extends(p1, q) && Traffic(Delta(p1, q))
    ensures Extends(p, q) && Held(q.log)
    ensures |Delta(p, q)| > 0 && Delta(p, q)[0] == Acquired(settings)
    ensures Acquisitions(Delta(p, q)) == 1
  {
    ExtendsTrans(p, p1, q);
    TrafficKeepsLock(p1, q);
    NoAcquisitions(Delta(p1, q));
    assert [Acquired(settings)][1..] == [];
  }

  /** Acquiring writes nothing: the writes after it are all the writes. */
  lemma WritesAfterAcquire(p: Port, p1: Port, q: Port, settings: SerialSettings)
    requires Extends(p, p1) && Delta(p, p1) == [Acquired(settings)]
    requires Extends(p1, q)
    ensures Extends(p, q) && Writes(Delta(p, q)) == Writes(Delta(p1, q))
  {
    ExtendsTrans(p, p1, q);
    assert [Acquired(settings)][1..] == [];
  }

  /** Acquired, handshake traffic, released: not held, one acquisition, first
      and last events. */
  lemma AbandonedSession(p: Port, p1: Port, p2: Port, q: Port, settings: SerialSettings)
    requires Extends(p, p1) && Delta(p, p1) == [Acquired(settings)] && Held(p1.log)
    requires Extends(p1, p2) && Traffic(Delta(p1, p2))
    requires Extends(p2, q) && Delta(p2, q) == [Released] && !Held(q.log)
    ensures Extends(p, q) && !Held(q.log) && p != q
    ensures |Delta(p, q)| > 1 && Delta(p, q)[0] == Acquired(settings) && Delta(p, q)[|Delta(p, q)| - 1] == Released
    ensures Acquisitions(Delta(p, q)) == 1
  {
    LockedSession(p, p1, p2, settings);
    ExtendsTrans(p, p2, q);
    assert [Released][1..] == [];
    assert |q.log| > |p.log|;
  }

  /** Traffic acquires nothing. */
  lemma {:induction false} NoAcquisitions(events: seq<Event>)
    requires Traffic(events)
    ensures Acquisitions(events) == 0
    decreases |events|
  {
    if |events| > 0 {
      NoAcquisitions(events[1..]);
    }
  }

  /** SMSDevice.disconnect: unlock and close when connected, otherwise
      nothing. */
  function Disconnect(s: Session, p: Port): (r: (Session, Port))
    ensures Extends(p, r.1)
    ensures r.0 == s.(link := Offline)
    ensures s.link.Offline? ==> r.1 == p
    ensures s.link.Online? ==> Delta(p, r.1) == [Released] && !Held(r.1.log)
    ensures Consistent(s, p) ==> Consistent(r.0, r.1)
  {
    if s.link.Online? then
      (s.(link := Offline), Release(p))
    else
      ExtendsRefl(p);
      (s, p)
  }

  /** Disconnecting twice is disconnecting once. */
  lemma DisconnectIdempotent(s: Session, p: Port)
    ensures Disconnect(Disconnect(s, p).0, Disconnect(s, p).1) == Disconnect(s, p)
  {
  }

  /** The failure path shared by sendpdusms and ping: disconnect and count
      one error. */
  function Fail(s: Session, e: DeviceError, p: Port): (r: (Result<(), DeviceError>, Session, Port))
    ensures Extends(p, r.2)
    ensures r.0 == Failure(e)
    ensures r.1 == s.(link := Offline, errors := s.errors + 1)
    ensures s.link.Online? ==> Delta(p, r.2) == [Released] && !Held(r.2.log)
    ensures s.link.Offline? ==> r.2 == p
  {
    var (s1, q) := Disconnect(s, p);
    (Failure(e), s1.(errors := s.errors + 1), q)
  }

  /** What every session operation after connect promises: the port log
      only grows, the configuration is kept, the outcome tells whether the
      session stays connected, an error is counted exactly when connecting
      succeeded and the operation then failed, a connected session acquires
      nothing, and the session keeps agreeing with the port's lock. */
  predicate Settled(s: Session, p: Port, connected: bool, r: (Result<(), DeviceError>, Session, Port))
  {
    && Extends(p, r.2)
    && r.1.serialConf == s.serialConf && r.1.modemConf == s.modemConf
    && (r.0.Success? <==> r.1.link.Online?)
    && r.1.errors == (if connected && r.0.Failure? then s.errors + 1 else s.errors)
    && (s.link.Online? ==> Acquisitions(Delta(p, r.2)) == 0)
    && (Consistent(s, p) ==> Consistent(r.1, r.2))
  }

  /** A failed connect settles the operation with nothing counted. */
  lemma NotConnected(s: Session, opens: bool, p: Port)
    requires Connect(s, opens, p).0.Failure?
    ensures Settled(s, p, false, Connect(s, opens, p))
  {
  }

  /** Modem traffic after a successful connect, the connection kept. */
  lemma Kept(s: Session, p: Port, s1: Session, p1: Port, q: Port)
    requires ConnectedFrom(s, p, s1, p1)
    requires Extends(p1, q) && Traffic(Delta(p1, q))
    ensures Settled(s, p, true, (Success(()), s1, q))
  {
    Carried(p, p1, q);
  }

  /** Modem traffic after a successful connect, then the connection dropped
      and one error counted. */
  lemma Abandoned(s: Session, p: Port, s1: Session, p1: Port, e: DeviceError, q: Port)
    requires ConnectedFrom(s, p, s1, p1)
    requires Extends(p1, q) && Traffic(Delta(p1, q))
    ensures Settled(s, p, true, Fail(s1, e, q))
  {
    Carried(p, p1, q);
    var r := Fail(s1, e, q);
    Dropped(p, q, r.2);
    assert !Held(r.2.log) && r.1.link.Offline? && r.1.errors == s.errors + 1;
  }

  /** What a successful connect hands to the rest of an operation: the
      session `s1` on port `p1` came from `s` on `p` by connecting, which
      touched nothing but the link and acquired nothing when `s` was already
      connected. */
  predicate ConnectedFrom(s: Session, p: Port, s1: Session, p1: Port)
  {
    && Extends(p, p1) && s1.link.Online?
    && s1.errors == s.errors && s1.serialConf == s.serialConf && s1.modemConf == s.modemConf
    && (s.link.Online? ==> Acquisitions(Delta(p, p1)) == 0)
    && (Consistent(s, p) ==> Consistent(s1, p1))
  }

  /** A successful connect. */
  lemma Connected(s: Session, opens: bool, p: Port)
    requires Connect(s, opens, p).0.Success?
    ensures ConnectedFrom(s, p, Connect(s, opens, p).1, Connect(s, opens, p).2)
  {
    if s.link.Online? {
      assert Delta(p, p) == [];
    }
  }

  /** Work on a connected modem: traffic after connecting. */
  lemma Carried(p: Port, p1: Port, q: Port)
    requires Extends(p, p1) && Extends(p1, q) && Traffic(Delta(p1, q))
    ensures Extends(p, q)
    ensures Acquisitions(Delta(p, q)) == Acquisitions(Delta(p, p1))
    ensures Held(q.log) == Held(p1.log)
    ensures |Writes(Delta(p, q))| >= |Writes(Delta(p1, q))|
    ensures |Writes(Delta(p1, q))| >= 4 ==>
      |Writes(Delta(p, q))| >= 4 &&
      Writes(Delta(p, q))[|Writes(Delta(p, q))| - 4..] == Writes(Delta(p1, q))[|Writes(Delta(p1, q))| - 4..]
  {
    ExtendsTrans(p, p1, q);
    NoAcquisitions(Delta(p1, q));
    TrafficKeepsLock(p1, q);
    var w, w1, w2 := Writes(Delta(p, q)), Writes(Delta(p, p1)), Writes(Delta(p1, q));
    if |w2| >= 4 {
      assert w[|w| - 4..] == (w1 + w2)[|w1| + |w2| - 4..];
      assert (w1 + w2)[|w1| + |w2| - 4..] == w2[|w2| - 4..];
    }
  }

  /** Dropping the connection after the work. */
  lemma Dropped(p: Port, p1: Port, q: Port)
    requires Extends(p, p1) && Extends(p1, q) && (q == p1 || Delta(p1, q) == [Released])
    ensures Extends(p, q)
    ensures Acquisitions(Delta(p, q)) == Acquisitions(Delta(p, p1))
  {
    ExtendsTrans(p, p1, q);
    assert [Released][1..] == [];
    if q == p1 {
      ExtendsRefl(p1);
    }
  }

  /** The last four lines written since `p` deliver the submission. */
  predicate Delivered(sub: Pdu.Submission, p: Port, q: Port)
    requires sub.destination.Valid()
  {
    && Extends(p, q)
    && |Writes(Delta(p, q))| >= 4
    && AtModem.Delivery(sub, Writes(Delta(p, q))[|Writes(Delta(p, q))| - 4..])
  }

  /** The work of sendpdusms on a connected modem: ping, then submit. */
  function PingAndSubmit(sub: Pdu.Submission, p: Port): (r: (Result<(), AtModem.AtError>, Port))
    requires sub.destination.Valid()
    ensures Extends(p, r.1) && Traffic(Delta(p, r.1))
    ensures r.0.Success? ==> Delivered(sub, p, r.1)
  {
    var (pinged, p1) := AtModem.Ping(p);
    if pinged.Failure? then
      (pinged, p1)
    else
      var (sent, q) := AtModem.SendPduSms(sub, p1);
      AtModem.TrafficThen(p, p1, q);
      Carried(p, p1, q);
      assert sent.Success? ==> Writes(Delta(p1, q))[|Writes(Delta(p1, q))| - 4..] == Writes(Delta(p1, q));
      (sent, q)
  }

  /** Ping and submit succeeds exactly when both steps do; otherwise its
      outcome is the failure of the first step that failed. */
  lemma PingThenSubmit(sub: Pdu.Submission, p: Port)
    requires sub.destination.Valid()
    ensures var r := PingAndSubmit(sub, p).0;
      && (r.Success? <==> AtModem.Ping(p).0.Success? && AtModem.SendPduSms(sub, AtModem.Ping(p).1).0.Success?)
      && (AtModem.Ping(p).0.Failure? ==> r == AtModem.Ping(p).0)
      && (AtModem.Ping(p).0.Success? ==> r == AtModem.SendPduSms(sub, AtModem.Ping(p).1).0)
  {
  }

  /** The part of sendpdusms after connecting. */
  function SubmitConnected(s: Session, p: Port, s1: Session, p1: Port, sub: Pdu.Submission): (r: (Result<(), DeviceError>, Session, Port))
    requires sub.destination.Valid() && ConnectedFrom(s, p, s1, p1)
    ensures Settled(s, p, true, r)
    ensures r.0.Success? ==> Delivered(sub, p, r.2)
    ensures r.0 == Lift(PingAndSubmit(sub, p1).0)
  {
    var (done, q) := PingAndSubmit(sub, p1);
    if done.Success? then
      Kept(s, p, s1, p1, q);
      DeliveredAfter(p, p1, q, sub);
      (Success(()), s1, q)
    else
      Abandoned(s, p, s1, p1, Modem(done.error), q);
      Fail(s1, Modem(done.error), q)
  }

  /** A delivery at the end of later traffic ends the whole log too. */
  lemma DeliveredAfter(p: Port, p1: Port, q: Port, sub: Pdu.Submission)
    requires sub.destination.Valid()
    requires Extends(p, p1) && Delivered(sub, p1, q) && Traffic(Delta(p1, q))
    ensures Delivered(sub, p, q)
  {
    Carried(p, p1, q);
  }

  /** SMSDevice.sendpdusms: connect (a failure there propagates and is not
      counted), ping, submit; a failure after connecting disconnects and
      counts one error. On success the last four writes deliver the
      submission. */
  function SendPduSms(s: Session, sub: Pdu.Submission, opens: bool, p: Port): (r: (Result<(), DeviceError>, Session, Port))
    requires sub.destination.Valid()
    ensures Settled(s, p, Connect(s, opens, p).0.Success?, r)
    ensures r.0.Success? ==> Delivered(sub, p, r.2)
    ensures Connect(s, opens, p).0.Failure? ==> r == Connect(s, opens, p)
    ensures Connect(s, opens, p).0.Success? ==> r.0 == Lift(PingAndSubmit(sub, Connect(s, opens, p).2).0)
  {
    var connected := Connect(s, opens, p);
    if connected.0.Failure? then
      NotConnected(s, opens, p);
      connected
    else
      Connected(s, opens, p);
      SubmitConnected(s, p, connected.1, connected.2, sub)
  }

  /** SMSDevice.ping: connect, ping; a failure after connecting disconnects
      and counts one error. */
  function Ping(s: Session, opens: bool, p: Port): (r: (Result<(), DeviceError>, Session, Port))
    ensures Settled(s, p, Connect(s, opens, p).0.Success?, r)
    ensures r.0.Success? ==> |Writes(Delta(p, r.2))| >= 1
    ensures Connect(s, opens, p).0.Failure? ==> r == Connect(s, opens, p)
    ensures Connect(s, opens, p).0.Success? ==> r.0 == Lift(AtModem.Ping(Connect(s, opens, p).2).0)
  {
    var connected := Connect(s, opens, p);
    if connected.0.Failure? then
      NotConnected(s, opens, p);
      connected
    else
      Connected(s, opens, p);
      var (pinged, q) := AtModem.Ping(connected.2);
      if pinged.Success? then
        Kept(s, p, connected.1, connected.2, q);
        Carried(p, connected.2, q);
        (Success(()), connected.1, q)
      else
        Abandoned(s, p, connected.1, connected.2, Modem(pinged.error), q);
        Fail(connected.1, Modem(pinged.error), q)
  }
}
