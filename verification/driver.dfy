/** One SmartAudio exchange (`serial_smart_audio_send_payload`) and the
    driver state it works on: the settings record, the link counters, the
    auto-baud statics, the receive buffer and the transmit line. */
module SmartAudio {
  import opened Bytes
  import opened Crc
  import opened Encoder
  import opened BaudControl
  import opened Echo
  import opened Decoder

  function Min(a: int, b: int): int {
    if a <= b then a else b
  }

  /** The driver state as a value: settings, link, the receive queue and
      everything transmitted so far. */
  datatype Snapshot = Snapshot(settings: Settings, link: Link, rx: seq<byte>, wire: seq<byte>)

  /** Whether the exchange returned 1, and the state after it. */
  datatype Outcome = Outcome(ok: bool, state: Snapshot)

  /** What the outside world does during one exchange: `txReady` is how many
      bytes the transmitter accepts before a TXE wait times out, `incoming`
      the bytes that arrive on the half-duplex line once the receive buffer
      was cleared (the echo of the frame, then the response), `residue` what
      out-of-range payload reads see. */
  datatype Request = Request(cmd: byte, payload: seq<byte>, txReady: nat, incoming: seq<byte>, residue: Residue)

  /** A 32-bit counter incremented with wrap-around. */
  function Inc(x: int): (y: int)
    requires 0 <= x < U32
    ensures 0 <= y < U32
    ensures x < U32 - 1 ==> y == x + 1
    ensures x == U32 - 1 ==> y == 0
  {
    (x + 1) % U32
  }

  /** The sending half of `serial_smart_audio_send_payload`: clear the
      receive buffer, run the auto-baud step, and send the frame as far as
      the transmitter takes it, counting the send only when it is complete. */
  function Transmit(st: Snapshot, frame: seq<byte>, txReady: nat): Snapshot
    requires InRange(st.link)
  {
    var l := AutoBaudStep(st.link);
    var l' := if txReady >= |frame| then l.(sent := Inc(l.sent)) else l;
    Snapshot(st.settings, l', [], st.wire + frame[..Min(txReady, |frame|)])
  }

  /** The receiving half: the echo of the frame after its pad byte must come
      back, then one response is read and applied; a success is counted. */
  function Receive(st: Snapshot, frame: seq<byte>, incoming: seq<byte>, residue: Residue): Outcome
    requires 2 <= |frame| && InRange(st.link)
  {
    var e := EchoCheck(frame[1..], incoming);
    if !e.ok then Outcome(false, st.(rx := e.rest))
    else
      var p := ReadPacketModel(e.rest, st.settings, residue);
      match p.result
      case Err(_) => Outcome(false, st.(rx := p.rest))
      case Ok(s) => Outcome(true, Snapshot(s, st.link.(recv := Inc(st.link.recv)), p.rest, st.wire))
  }

  /** `serial_smart_audio_send_payload(cmd, payload, |payload|)`. */
  function Exchange(st: Snapshot, r: Request): Outcome
    requires |r.payload| <= MaxPayload && InRange(st.link)
  {
    var frame := FrameOf(r.cmd, r.payload);
    FrameLayout(r.cmd, r.payload);
    Receive(Transmit(st, frame, r.txReady), frame, r.incoming, r.residue)
  }

  /** Every request of a sequence can be sent. */
  predicate Sendable(rs: seq<Request>) {
    forall i :: 0 <= i < |rs| ==> |rs[i].payload| <= MaxPayload
  }

  /** A run of exchanges, one after the other. */
  function Run(st: Snapshot, rs: seq<Request>): Snapshot
    requires InRange(st.link) && Sendable(rs)
    decreases |rs|
  {
    if rs == [] then st
    else
      ExchangeInRange(st, rs[0]);
      Run(Exchange(st, rs[0]).state, rs[1..])
  }

  // ---------------------------------------------------------------------
  // Properties of an exchange

  /** The counters stay 32-bit values. */
  lemma ExchangeInRange(st: Snapshot, r: Request)
    requires |r.payload| <= MaxPayload && InRange(st.link)
    ensures InRange(Exchange(st, r).state.link)
  {
    var frame := FrameOf(r.cmd, r.payload);
    FrameLayout(r.cmd, r.payload);
    AutoBaudInRange(st.link);
    ReceiveKeepsBaud(Transmit(st, frame, r.txReady), frame, r.incoming, r.residue);
  }

  lemma AutoBaudInRange(l: Link)
    requires InRange(l)
    ensures InRange(AutoBaudStep(l))
  {
  }

  /** Receiving changes only the receive counter, by one on success, and the
      settings only on success; the transmitted bytes and the baud state are
      untouched. */
  lemma ReceiveKeepsBaud(st: Snapshot, frame: seq<byte>, incoming: seq<byte>, residue: Residue)
    requires 2 <= |frame| && InRange(st.link)
    ensures var o := Receive(st, frame, incoming, residue);
      && o.state.link == st.link.(recv := o.state.link.recv)
      && o.state.link.recv == (if o.ok then Inc(st.link.recv) else st.link.recv)
      && o.state.wire == st.wire
      && (!o.ok ==> o.state.settings == st.settings)
  {
  }

  /** The frame goes out as far as the transmitter takes it; the send is
      counted only when every byte went out; the receive buffer is cleared
      and nothing else changes beyond the auto-baud step. */
  lemma TransmitSends(st: Snapshot, frame: seq<byte>, txReady: nat)
    requires InRange(st.link)
    ensures var t := Transmit(st, frame, txReady); var l := AutoBaudStep(st.link);
      && st.wire <= t.wire
      && t.wire[|st.wire|..] <= frame
      && (t.wire == st.wire + frame <==> txReady >= |frame|)
      && (t.link.sent == Inc(l.sent) <==> txReady >= |frame|)
      && t.link == l.(sent := t.link.sent)
      && t.rx == []
      && t.settings == st.settings
  {
    var t := Transmit(st, frame, txReady);
    assert t.wire[|st.wire|..] == frame[..Min(txReady, |frame|)];
    var l := AutoBaudStep(st.link);
    assert Inc(l.sent) != l.sent by {
      AutoBaudInRange(st.link);
    }
  }

  lemma TakeOneMore(q: seq<byte>, i: nat)
    requires i < |q|
    ensures q[..i + 1] == q[..i] + [q[i]]
  {
  }

  /** Receiving reads only the incoming bytes, not what was queued before. */
  lemma ReceiveIgnoresQueue(st: Snapshot, q: seq<byte>, frame: seq<byte>, incoming: seq<byte>, residue: Residue)
    requires 2 <= |frame| && InRange(st.link)
    ensures Receive(st.(rx := q), frame, incoming, residue) == Receive(st, frame, incoming, residue)
  {
  }

  /** A bad echo ends the exchange before the response is read: the settings
      and the receive counter stay as they were. */
  lemma EchoMismatchFails(st: Snapshot, frame: seq<byte>, incoming: seq<byte>, residue: Residue)
    requires 2 <= |frame| && InRange(st.link)
    requires !EchoCheck(frame[1..], incoming).ok
    ensures Receive(st, frame, incoming, residue)
         == Outcome(false, st.(rx := EchoCheck(frame[1..], incoming).rest))
  {
  }

  /** Receiving succeeds iff the echo came back and the response after it
      was read and accepted, and then the settings are the command switch's. */
  lemma ReceiveSucceedsIff(st: Snapshot, frame: seq<byte>, incoming: seq<byte>, residue: Residue)
    requires 2 <= |frame| && InRange(st.link)
    ensures var o := Receive(st, frame, incoming, residue);
      var e := EchoCheck(frame[1..], incoming);
      var p := ReadPacketModel(e.rest, st.settings, residue);
      && (o.ok <==> e.ok && p.result.Ok?)
      && (o.ok ==> o.state.settings == p.result.value && o.state.rx == p.rest)
  {
  }

  /** The auto-baud step keeps the baud rate on its grid, and the counting
      around it does not touch the baud rate or the direction. */
  lemma ExchangeKeepsGrid(st: Snapshot, r: Request)
    requires |r.payload| <= MaxPayload && OnGrid(st.link)
    ensures OnGrid(Exchange(st, r).state.link)
    ensures Exchange(st, r).state.link.baud == AutoBaudStep(st.link).baud
  {
    var frame := FrameOf(r.cmd, r.payload);
    FrameLayout(r.cmd, r.payload);
    var l := AutoBaudStep(st.link);
    AutoBaudKeepsGrid(st.link);
    TransmitSends(st, frame, r.txReady);
    var t := Transmit(st, frame, r.txReady);
    ReceiveKeepsBaud(t, frame, r.incoming, r.residue);
    var o := Receive(t, frame, r.incoming, r.residue);
    assert Exchange(st, r) == o;
    RecountedOnGrid(l, t.link.sent, o.state.link.recv);
    assert o.state.link == l.(sent := t.link.sent, recv := o.state.link.recv);
  }

  /** Counting sends and responses does not take the link off its grid. */
  lemma RecountedOnGrid(l: Link, sent: int, recv: int)
    requires OnGrid(l) && 0 <= sent < U32 && 0 <= recv < U32
    ensures OnGrid(l.(sent := sent, recv := recv))
  {
  }

  /** Auto-baud never lets more responses than sends be counted. */
  lemma AutoBaudKeepsRecvWithinSent(l: Link)
    requires InRange(l) && l.recv <= l.sent
    ensures AutoBaudStep(l).recv <= AutoBaudStep(l).sent <= l.sent
  {
  }

  /** While every sent frame goes out completely, no more responses are
      counted than frames sent, so the success rate is a percentage. */
  lemma ExchangeKeepsRecvWithinSent(st: Snapshot, r: Request)
    requires |r.payload| <= MaxPayload && InRange(st.link)
    requires st.link.recv <= st.link.sent < U32 - 1
    requires r.txReady >= |r.payload| + 6
    ensures var l := Exchange(st, r).state.link; l.recv <= l.sent
  {
    var frame := FrameOf(r.cmd, r.payload);
    FrameLayout(r.cmd, r.payload);
    AutoBaudKeepsRecvWithinSent(st.link);
    TransmitSends(st, frame, r.txReady);
    ReceiveKeepsBaud(Transmit(st, frame, r.txReady), frame, r.incoming, r.residue);
  }

  /** Across any run of exchanges the baud rate never leaves its grid. */
  lemma {:induction false} RunKeepsGrid(st: Snapshot, rs: seq<Request>)
    requires OnGrid(st.link) && Sendable(rs)
    ensures OnGrid(Run(st, rs).link)
    ensures BaudMin <= Run(st, rs).link.baud <= BaudMax
    decreases |rs|
  {
    if rs != [] {
      ExchangeKeepsGrid(st, rs[0]);
      assert Sendable(rs[1..]) by {
        forall i | 0 <= i < |rs[1..]|
          ensures |rs[1..][i].payload| <= MaxPayload
        {
          assert rs[1..][i] == rs[i + 1];
        }
      }
      RunKeepsGrid(Exchange(st, rs[0]).state, rs[1..]);
    }
  }

  /** A SET_FREQUENCY request for `hi lo` whose frame is echoed back (with
      its pad byte) and answered by `AA 55 04 02 hi lo t` with an accepted
      trailer sets the frequency to `hi * 256 + lo`, counts one frame sent
      and one received, and leaves what followed the response. */
  lemma SetFrequencyExchange(st: Snapshot, r: Request, hi: byte, lo: byte, t: byte, rest: seq<byte>)
    requires InRange(st.link)
    requires r.cmd == SetFrequency && r.payload == [hi, lo] && r.txReady >= 8
    requires Crc8(Crc8Data([0x04, 0x02, hi, lo]), t) == t
    requires r.incoming == FrameOf(r.cmd, r.payload) + [0xAA, 0x55, 0x04, 0x02, hi, lo, t] + rest
    ensures var o := Exchange(st, r); var l := AutoBaudStep(st.link);
      && o.ok
      && o.state.settings == st.settings.(frequency := BigEndian(hi, lo))
      && o.state.link == l.(sent := Inc(l.sent), recv := Inc(l.recv))
      && o.state.rx == rest
      && o.state.wire == st.wire + FrameOf(r.cmd, r.payload)
  {
    EchoedExchange(st, r, [0xAA, 0x55, 0x04, 0x02, hi, lo, t] + rest);
    SetFrequencyReplyAccepted(st.settings, hi, lo, t, rest, r.residue);
  }

  /** A request that goes out completely and is echoed back with its pad
      byte: the exchange is `read_packet` on what follows the echo. */
  lemma EchoedExchange(st: Snapshot, r: Request, reply: seq<byte>)
    requires |r.payload| <= MaxPayload && InRange(st.link)
    requires r.txReady >= |r.payload| + 6
    requires r.incoming == FrameOf(r.cmd, r.payload) + reply
    ensures var o := Exchange(st, r); var l := AutoBaudStep(st.link);
      var p := ReadPacketModel(reply, st.settings, r.residue);
      && (o.ok <==> p.result.Ok?)
      && o.state.rx == p.rest
      && o.state.wire == st.wire + FrameOf(r.cmd, r.payload)
      && (o.ok ==> o.state.settings == p.result.value && o.state.link == l.(sent := Inc(l.sent), recv := Inc(l.recv)))
      && (!o.ok ==> o.state.settings == st.settings && o.state.link == l.(sent := Inc(l.sent)))
  {
    var frame := FrameOf(r.cmd, r.payload);
    FrameLayout(r.cmd, r.payload);
    AutoBaudInRange(st.link);
    TransmitSends(st, frame, r.txReady);
    var ts := Transmit(st, frame, r.txReady);
    assert ts.wire == st.wire + frame;
    FrameEchoAccepted(r.cmd, r.payload, reply);
    assert Exchange(st, r) == Receive(ts, frame, r.incoming, r.residue);
  }

  // ---------------------------------------------------------------------
  // The driver

  class Driver {
    var settings: Settings   // smart_audio_settings
    var baudRate: int        // baud_rate
    var packetsSent: int     // packets_sent
    var packetsRecv: int     // packets_recv
    var lastPercent: int     // last_percent, static in smart_audio_auto_baud
    var direction: int       // direction, static in smart_audio_auto_baud
    var rx: seq<byte>        // smart_audio_rx_buffer, oldest byte first
    var wire: seq<byte>      // every byte handed to USART_SendData so far

    /** How many times the UART was reconfigured for a new baud rate. */
    ghost var reconfigurations: nat

    function LinkOf(): Link
      reads this
    {
      Link(baudRate, packetsSent, packetsRecv, lastPercent, direction)
    }

    function Snap(): Snapshot
      reads this
    {
      Snapshot(settings, LinkOf(), rx, wire)
    }

    /** The baud rate is on its grid and every counter fits its C type. */
    predicate Valid()
      reads this
    {
      OnGrid(LinkOf())
    }

    /** The zero-initialised globals, 4800 baud, direction up. */
    constructor ()
      ensures Snap() == Snapshot(NoSettings, Initial, [], [])
      ensures reconfigurations == 0
      ensures Valid()
    {
      settings := NoSettings;
      baudRate := BaudInitial;
      packetsSent := 0;
      packetsRecv := 0;
      lastPercent := 0;
      direction := 1;
      rx := [];
      wire := [];
      reconfigurations := 0;
    }

    /** `smart_audio_auto_baud`. */
    method AutoBaud()
      requires InRange(LinkOf())
      modifies this`baudRate, this`packetsSent, this`packetsRecv, this`lastPercent, this`direction,
               this`reconfigurations
      ensures LinkOf() == AutoBaudStep(old(LinkOf()))
      ensures reconfigurations == old(reconfigurations) + if Rebauds(old(LinkOf())) then 1 else 0
    {
      var current := if packetsSent == 0 then 0 else (packetsRecv * 100 % U32) / packetsSent % 256;
      if packetsSent < (if lastPercent == 0 then 3 else 10) {
        lastPercent := current;
        return;
      }
      if current < GoodPercent {
        if lastPercent < current {
          direction := if direction == 1 then -1 else 1;
        }
        if direction == 1 && baudRate == BaudMax {
          direction := -1;
        } else if direction == -1 && baudRate == BaudMin {
          direction := 1;
        }
        baudRate := (baudRate + direction * BaudStep) % U32;
        reconfigurations := reconfigurations + 1;
      }
      lastPercent := current;
      packetsSent := 0;
      packetsRecv := 0;
    }

    /** `serial_smart_audio_send_data`: the bytes go out one by one while
      the transmitter takes them; a TXE timeout abandons the rest, and only
      a complete send is counted. */
    method SendData(data: seq<byte>, txReady: nat)
      requires 0 <= packetsSent < U32
      modifies this`wire, this`packetsSent
      ensures wire == old(wire) + data[..Min(txReady, |data|)]
      ensures packetsSent == if txReady >= |data| then Inc(old(packetsSent)) else old(packetsSent)
    {
      var i := 0;
      while i < |data|
        invariant 0 <= i <= |data| && i <= txReady
        invariant wire == old(wire) + data[..i]
        invariant packetsSent == old(packetsSent)
      {
        if i >= txReady {
          return;
        }
        wire := wire + [data[i]];
        i := i + 1;
      }
      packetsSent := (packetsSent + 1) % U32;
    }

    /** `serial_smart_audio_read_byte`: the oldest queued byte, or a timeout
      when the queue is empty. */
    method ReadByte() returns (ok: bool, data: byte)
      modifies this`rx
      ensures ok <==> old(rx) != []
      ensures ok ==> data == old(rx)[0]
      ensures rx == Drop(old(rx), 1)
    {
      if rx == [] {
        return false, 0;
      }
      data := rx[0];
      rx := rx[1..];
      ok := true;
    }

    /** `serial_smart_audio_check_for_byte`: one byte is read (if any) and
      compared. */
    method CheckForByte(check: byte) returns (ok: bool)
      modifies this`rx
      ensures ok <==> old(rx) != [] && old(rx)[0] == check
      ensures rx == Drop(old(rx), 1)
    {
      var got, data := ReadByte();
      if !got {
        return false;
      }
      ok := data == check;
    }

    /** `serial_smart_audio_read_byte_crc`: a read byte is folded into the
      running CRC; on a timeout the CRC is left alone. */
    method ReadByteCrc(crc: byte) returns (ok: bool, crc': byte, data: byte)
      modifies this`rx
      ensures ok <==> old(rx) != []
      ensures ok ==> data == old(rx)[0] && crc' == Crc8(crc, data)
      ensures !ok ==> crc' == crc
      ensures rx == Drop(old(rx), 1)
    {
      crc' := crc;
      ok, data := ReadByte();
      if !ok {
        return;
      }
      crc' := Crc8Loop(crc, data);
    }

    /** The magic loop of `serial_smart_audio_read_packet`: up to three
      tries at reading 0xAA then 0x55. */
    method Resynchronise() returns (found: bool)
      modifies this`rx
      ensures (found, rx) == Resync(old(rx), MagicTries)
    {
      var tries := 0;
      while true
        invariant 0 <= tries <= MagicTries
        invariant Resync(old(rx), MagicTries) == Resync(rx, MagicTries - tries)
        decreases MagicTries - tries
      {
        if tries >= MagicTries {
          return false;
        }
        ghost var q := rx;
        var first := CheckForByte(0xAA);
        var second := false;
        if first {
          second := CheckForByte(0x55);
        }
        if second {
          assert rx == q[2..];
          return true;
        }
        assert rx == Drop(q, if |q| >= 1 && q[0] == 0xAA then 2 else 1);
        tries := tries + 1;
      }
    }

    /** The rest of `serial_smart_audio_read_packet` up to the command
      switch: command, length, payload, and the trailing CRC unless the
      command skips it. */
    method ReadBody() returns (frame: Result<RxFrame>)
      modifies this`rx
      ensures Parsed(frame, rx) == ParseBody(old(rx))
    {
      ghost var q := rx;
      var ok, cmd, payload, crc := ReadHead();
      if !ok {
        TruncatedBodyTimesOut(q);
        return Err(ReadTimeout);
      }
      ParseBodyReads(q);
      if cmd != 0x01 && cmd != 0x09 {
        var crcInput;
        ok, crc, crcInput := ReadByteCrc(crc);
        if !ok {
          TruncatedBodyTimesOut(q);
          return Err(ReadTimeout);
        }
        if crc != crcInput {
          return Err(InvalidCrc);
        }
      }
      frame := Ok(RxFrame(cmd, payload, crc));
    }

    /** Command, length and payload, each folded into the running CRC. */
    method ReadHead() returns (ok: bool, cmd: byte, payload: seq<byte>, crc: byte)
      modifies this`rx
      ensures ok <==> 2 <= |old(rx)| && 2 + old(rx)[1] as int <= |old(rx)|
      ensures ok ==> var n := old(rx)[1] as int;
        && cmd == old(rx)[0] && payload == old(rx)[2..2 + n]
        && crc == Crc8Data(old(rx)[..2 + n]) && rx == old(rx)[2 + n..]
      ensures !ok ==> rx == []
    {
      ghost var q := rx;
      var length;
      payload := [];
      ok, crc, cmd := ReadByteCrc(0);
      if !ok {
        return;
      }
      ok, crc, length := ReadByteCrc(crc);
      if !ok {
        return;
      }
      assert cmd == q[0] && length == q[1] && rx == q[2..];
      var n := length as int;
      ok, crc, payload := ReadPayload(crc, n);
      if ok {
        assert payload == q[2..2 + n] && rx == q[2 + n..];
        HeaderCrc(q, n);
      }
    }

    /** The payload loop of `serial_smart_audio_read_packet`: `n` bytes into
      an `n`-byte array, each folded into the running CRC. */
    method ReadPayload(crc0: byte, n: nat) returns (ok: bool, crc: byte, payload: seq<byte>)
      modifies this`rx
      ensures ok <==> n <= |old(rx)|
      ensures ok ==> payload == old(rx)[..n] && crc == Crc8Fold(crc0, old(rx)[..n]) && rx == old(rx)[n..]
      ensures !ok ==> rx == []
    {
      ghost var q := rx;
      var a := new byte[n];
      crc := crc0;
      var i := 0;
      while i < n
        invariant 0 <= i <= n && i <= |q|
        invariant rx == q[i..]
        invariant Crc8Fold(crc0, q[..i]) == crc
        invariant forall k :: 0 <= k < i ==> a[k] == q[k]
      {
        var next, data;
        ok, next, data := ReadByteCrc(crc);
        if !ok {
          return false, crc, [];
        }
        assert data == q[i];
        TakeOneMore(q, i);
        Crc8FoldSnoc(crc0, q[..i], data);
        crc := next;
        a[i] := data;
        assert a[i] == q[i];
        i := i + 1;
      }
      assert a[..] == q[..n];
      return true, crc, a[..];
    }

    /** `serial_smart_audio_read_packet`: read one response and apply it to
      the settings; a success is counted in `packets_recv`. */
    method ReadPacket(residue: Residue) returns (ok: bool)
      requires 0 <= packetsRecv < U32
      modifies this`rx, this`settings, this`packetsRecv
      ensures var r := ReadPacketModel(old(rx), old(settings), residue);
        && rx == r.rest
        && (ok <==> r.result.Ok?)
        && settings == (if ok then r.result.value else old(settings))
        && packetsRecv == (if ok then Inc(old(packetsRecv)) else old(packetsRecv))
    {
      if |rx| < 2 {
        return false;
      }
      var found := Resynchronise();
      if !found {
        return false;
      }
      var frame := ReadBody();
      if frame.Err? {
        return false;
      }
      var next := Apply(settings, frame.value, residue);
      if next.Err? {
        return false;
      }
      settings := next.value;
      packetsRecv := (packetsRecv + 1) % U32;
      ok := true;
    }

    /** `serial_smart_audio_read_frame_back(frame, |frame|)`: the echo of
      the transmitted bytes, with an optional leading 0x00. */
    method ReadFrameBack(frame: seq<byte>) returns (ok: bool)
      requires 1 <= |frame| < 256
      modifies this`rx
      ensures Read(ok, rx) == EchoCheck(frame, old(rx))
    {
      var got, first := ReadByte();
      if !got {
        return false;
      }
      var start := 0;
      if first != 0x00 && first != frame[0] {
        return false;
      } else if first == frame[0] {
        start := 1;
      }
      ghost var q1 := rx;
      var i := start;
      while i < |frame|
        invariant start <= i <= |frame|
        invariant MatchFrom(frame[start..], q1) == MatchFrom(frame[i..], rx)
      {
        var same := CheckForByte(frame[i]);
        if !same {
          return false;
        }
        i := i + 1;
      }
      ok := true;
    }

    /** The sending half of `serial_smart_audio_send_payload`: clear the
      receive buffer, run the auto-baud step, send the frame. */
    method SendFrame(frame: seq<byte>, txReady: nat)
      requires InRange(LinkOf())
      modifies this`rx, this`baudRate, this`packetsSent, this`packetsRecv, this`lastPercent,
               this`direction, this`reconfigurations, this`wire
      ensures Snap() == Transmit(old(Snap()), frame, txReady)
      ensures reconfigurations == old(reconfigurations) + if Rebauds(old(LinkOf())) then 1 else 0
    {
      rx := [];
      AutoBaud();
      AutoBaudInRange(old(LinkOf()));
      SendData(frame, txReady);
    }

    /** The receiving half of `serial_smart_audio_send_payload`: the echo of
      the frame after its pad byte, then the response. */
    method AwaitReply(frame: seq<byte>, residue: Residue) returns (ok: bool)
      requires 2 <= |frame| <= 256 && InRange(LinkOf())
      modifies this`rx, this`settings, this`packetsRecv
      ensures Outcome(ok, Snap()) == Receive(old(Snap()), frame, old(rx), residue)
    {
      var echoed := ReadFrameBack(frame[1..]);
      if !echoed {
        return false;
      }
      ok := ReadPacket(residue);
    }

    /** `serial_smart_audio_send_payload(cmd, payload, |payload|)`; the
      bytes that arrive once the frame is out are `r.incoming`. */
    method SendPayload(r: Request) returns (ok: bool)
      requires |r.payload| <= MaxPayload && InRange(LinkOf())
      modifies this
      ensures Outcome(ok, Snap()) == Exchange(old(Snap()), r)
      ensures reconfigurations == old(reconfigurations) + if Rebauds(old(LinkOf())) then 1 else 0
      ensures old(Valid()) ==> Valid()
    {
      var frame := EncodeFrame(r.cmd, r.payload);
      FrameLayout(r.cmd, r.payload);
      SendFrame(frame, r.txReady);
      ghost var sent := Snap();
      AutoBaudInRange(old(LinkOf()));
      rx := r.incoming;
      ok := AwaitReply(frame, r.residue);
      ReceiveIgnoresQueue(sent, r.incoming, frame, r.incoming, r.residue);
      if old(Valid()) {
        ExchangeKeepsGrid(old(Snap()), r);
      }
    }
  }
}
