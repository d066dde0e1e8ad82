/** The border router's prefix bootstrap and start-up sequence.

    The gateway's globals (`prefix`, `prefix_set`, the uIP buffer `uip_buf` and its
    length `uip_len`) are the fields of a `Gateway` object. The border-router process
    thread is a protothread: every time it is scheduled it resumes where it last waited.
    `phase` records that resume point. `Begin`, `Resume`, `TimerExpired` and `HandleEvent`
    are resumptions, `SetPrefix64` is the host's call, and `RequestPrefix`, `PollPrefix`
    and `BecomeRoot` are steps inside a resumption. Every
    action the gateway takes towards the radio, SLIP, RPL and UDP is appended to `log`,
    and `Valid` keeps that log well ordered in the sense of `StartupTrace`.

    The results of `rpl_set_root` and `udp_new` are not visible here; they are passed in
    as the booleans `rootCreated` (a DAG was returned) and `udpCreated` (a connection was
    returned). */
module BorderRouter {
  import opened Common
  import opened StartupTrace

  /** Where the process thread resumes next. */
  datatype Phase =
    | Idle     // PROCESS_BEGIN not reached yet
    | Paused   // at PROCESS_PAUSE, after the radio went off
    | Probing  // in `while(!prefix_set)`, waiting for the one-second timer
    | Running  // in the final event loop

  /** The events the final event loop tells apart. */
  datatype Event =
    | TcpIp(newData: bool, payload: SensorPacket)  // tcpip_event, with uip_newdata()
    | Sensors(fromButton: bool)                     // sensors_event, from the button or not
    | OtherEvent

  /** The start-up stage that a resume point and the `prefix_set` flag stand for. */
  function ExpectedStage(phase: Phase, prefixSet: bool): Stage
  {
    match phase
    case Idle => Fresh
    case Paused => if prefixSet then Committed else Started
    case Probing => if prefixSet then Committed else Started
    case Running => Rooted
  }

  class Gateway {
    var prefix: array<uint8>
    var prefixSet: bool
    var buf: array<uint8>
    var len: nat
    var phase: Phase
    var log: seq<Action>

    ghost predicate Valid()
      reads this, prefix
    {
      prefix.Length == 16 && buf.Length >= 2 && prefix != buf &&
      WellOrdered(log) &&
      StageOf(log) == ExpectedStage(phase, prefixSet) &&
      (phase == Running ==> prefixSet) &&
      (prefixSet ==> LastCommit(log).Some?) &&
      (LastCommit(log).Some? ==> LastCommit(log).value == prefix[..])
    }

    /** The gateway at boot: all statics zero, a uIP buffer of `bufSize` bytes. */
    constructor (bufSize: nat)
      requires bufSize >= 2
      ensures Valid() && fresh(prefix) && fresh(buf)
      ensures buf.Length == bufSize && prefix[..] == seq(16, _ => 0)
      ensures !prefixSet && len == 0 && phase == Idle && log == []
    {
      prefix := new uint8[16](_ => 0);
      buf := new uint8[bufSize](_ => 0);
      prefixSet := false;
      len := 0;
      phase := Idle;
      log := [];
    }

    /** `request_prefix`: writes '?' 'P' into the uIP buffer, sends those two bytes over
        SLIP and leaves the buffer length at zero. The rest of the buffer is untouched.
        The thread calls it only while it waits for a prefix. */
    method RequestPrefix()
      requires Valid() && !prefixSet && (phase == Paused || phase == Probing)
      modifies buf, this`len, this`log
      ensures Valid()
      ensures buf[..2] == PrefixRequest && buf[2..] == old(buf[2..])
      ensures len == 0
      ensures log == old(log) + [SlipSend(PrefixRequest)]
    {
      Extend(log, SlipSend(PrefixRequest));
      buf[0] := 0x3F;
      buf[1] := 0x50;
      len := 2;
      log := log + [SlipSend(buf[..len])];
      len := 0;
    }

    /** `set_prefix_64`: the host's answer. Copies the 16 bytes of `p` into `prefix`,
        installs an address on that prefix and raises `prefix_set`. A later call simply
        overwrites the prefix. */
    method SetPrefix64(p: seq<uint8>)
      requires Valid() && |p| == 16
      modifies prefix, this`prefixSet, this`log
      ensures Valid()
      ensures prefix[..] == p && prefixSet
      ensures log == old(log) + [AddressAdded(p)]
    {
      for i := 0 to 16
        invariant prefix[..i] == p[..i]
        invariant log == old(log) && prefixSet == old(prefixSet)
      {
        prefix[i] := p[i];
      }
      Extend(log, AddressAdded(p));
      prefixSet := true;
      log := log + [AddressAdded(p)];
    }

    /** The thread's first run: clears `prefix_set`, switches the radio off and pauses.
        The thread runs this part once; any later call changes nothing. */
    method Begin()
      requires Valid()
      modifies this`prefixSet, this`log, this`phase
      ensures Valid()
      ensures old(phase) == Idle ==>
        !prefixSet && phase == Paused && log == old(log) + [RadioOff]
      ensures old(phase) != Idle ==>
        prefixSet == old(prefixSet) && phase == old(phase) && log == old(log)
    {
      if phase == Idle {
        Extend(log, RadioOff);
        prefixSet := false;
        log := log + [RadioOff];
        phase := Paused;
      }
    }

    /** The thread resumed after its pause: activates the button sensor, then asks for a
        prefix unless one arrived during the pause, in which case it goes straight on to
        become root. Outside the pause, changes nothing. */
    method Resume(rootCreated: bool, udpCreated: bool)
      requires Valid()
      modifies buf, this`len, this`log, this`phase
      ensures Valid()
      ensures old(phase) == Paused && !prefixSet ==>
        phase == Probing && log == old(log) + [ButtonSensorOn, SlipSend(PrefixRequest)] &&
        len == 0 && buf[..2] == PrefixRequest && buf[2..] == old(buf[2..])
      ensures old(phase) == Paused && prefixSet ==>
        phase == Running && log == old(log) + [ButtonSensorOn] + RootSequence(prefix[..], rootCreated, udpCreated) &&
        len == old(len) && buf[..] == old(buf[..])
      ensures old(phase) != Paused ==>
        phase == old(phase) && log == old(log) && len == old(len) && buf[..] == old(buf[..])
    {
      if phase == Paused {
        Extend(log, ButtonSensorOn);
        log := log + [ButtonSensorOn];
        PollPrefix(rootCreated, udpCreated);
      }
    }

    /** The one-second timer of the bootstrap loop expired: asks again while no prefix has
        arrived, otherwise leaves the loop and becomes root. Outside the loop, changes
        nothing. */
    method TimerExpired(rootCreated: bool, udpCreated: bool)
      requires Valid()
      modifies buf, this`len, this`log, this`phase
      ensures Valid()
      ensures old(phase) == Probing && !prefixSet ==>
        phase == Probing && log == old(log) + [SlipSend(PrefixRequest)] &&
        len == 0 && buf[..2] == PrefixRequest && buf[2..] == old(buf[2..])
      ensures old(phase) == Probing && prefixSet ==>
        phase == Running && log == old(log) + RootSequence(prefix[..], rootCreated, udpCreated) &&
        len == old(len) && buf[..] == old(buf[..])
      ensures old(phase) != Probing ==>
        phase == old(phase) && log == old(log) && len == old(len) && buf[..] == old(buf[..])
    {
      if phase == Probing {
        PollPrefix(rootCreated, udpCreated);
      }
    }

    /** The test of `while(!prefix_set)`: one more request, or on to the root sequence. */
    method PollPrefix(rootCreated: bool, udpCreated: bool)
      requires Valid() && (phase == Paused || phase == Probing)
      modifies buf, this`len, this`log, this`phase
      ensures Valid()
      ensures !prefixSet ==>
        phase == Probing && log == old(log) + [SlipSend(PrefixRequest)] &&
        len == 0 && buf[..2] == PrefixRequest && buf[2..] == old(buf[2..])
      ensures prefixSet ==>
        phase == Running && log == old(log) + RootSequence(prefix[..], rootCreated, udpCreated) &&
        len == old(len) && buf[..] == old(buf[..])
    {
      if !prefixSet {
        RequestPrefix();
        phase := Probing;
      } else {
        BecomeRoot(rootCreated, udpCreated);
      }
    }

    /** After the loop: try to become root, give RPL the prefix if a DAG was created,
        switch the radio on and open the UDP connection, then enter the event loop. */
    method BecomeRoot(rootCreated: bool, udpCreated: bool)
      requires Valid() && prefixSet && (phase == Paused || phase == Probing)
      modifies this`log, this`phase
      ensures Valid()
      ensures phase == Running && log == old(log) + RootSequence(prefix[..], rootCreated, udpCreated)
    {
      RootSequenceAllowed(log, prefix[..], rootCreated, udpCreated);
      log := log + RootSequence(prefix[..], rootCreated, udpCreated);
      phase := Running;
    }

    /** One event of the final loop. A tcpip event only reads the received report, the
        button starts a global repair of the DAG, anything else is ignored. Before the
        loop is reached, changes nothing. Neither the prefix nor the flag ever changes. */
    method HandleEvent(ev: Event) returns (received: Option<SensorPacket>)
      requires Valid()
      modifies this`log
      ensures Valid()
      ensures log == if old(phase) == Running && ev == Sensors(true)
                     then old(log) + [RepairRoot] else old(log)
      ensures received.Some? <==> phase == Running && ev.TcpIp? && ev.newData
      ensures received.Some? ==> received.value == ev.payload
    {
      received := None;
      if phase == Running {
        match ev
        case TcpIp(newData, payload) =>
          // handle_sensor_packet: the payload is read as a report and nothing is stored
          if newData {
            received := Some(payload);
          }
        case Sensors(fromButton) =>
          if fromButton {
            Extend(log, RepairRoot);
            log := log + [RepairRoot];
          }
        case OtherEvent =>
      }
    }
  }

  /** A boot in which the host answers after the first request: the gateway switches the
      radio off, asks once, takes the prefix, becomes root and opens UDP; later timer
      expiries send no further request. */
  method BootWithOneRequest(p: seq<uint8>, bufSize: nat) returns (g: Gateway)
    requires |p| == 16 && bufSize >= 2
    ensures fresh(g) && g.Valid() && g.phase == Running && g.prefixSet && g.prefix[..] == p
    ensures g.log == [RadioOff] + [ButtonSensorOn, SlipSend(PrefixRequest)] + [AddressAdded(p)] +
                     RootSequence(p, true, true)
  {
    g := new Gateway(bufSize);
    g.Begin();
    assert g.phase == Paused && !g.prefixSet;
    g.Resume(true, true);
    assert g.phase == Probing;
    g.SetPrefix64(p);
    assert g.phase == Probing && g.prefixSet;
    g.TimerExpired(true, true);
    assert g.phase == Running && g.prefix[..] == p;
    g.TimerExpired(true, true);
    var _ := g.HandleEvent(TcpIp(true, SensorPacket(0, 0)));
  }
}
