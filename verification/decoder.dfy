/** The receive side of `serial_smart_audio_read_packet`, over the receive
    queue as a byte sequence: magic resynchronisation, the running CRC, the
    trailing-CRC check, and the per-command update of the VTX settings. */
module Decoder {
  import opened Bytes
  import opened Crc

  // Response command ids. Their header is not part of this model; the
  // values are the SmartAudio protocol's. The trailing-CRC test below uses
  // the raw ids 0x01 and 0x09 as literals.
  const GetSettings: byte := 0x01
  const SetPower: byte := 0x02
  const SetChannel: byte := 0x03
  const SetFrequency: byte := 0x04
  const SetMode: byte := 0x05
  const GetSettingsV2: byte := 0x09
  const GetSettingsV21: byte := 0x11

  /** Magic resynchronisation gives up after this many tries. */
  const MagicTries: nat := 3

  /** `smart_audio_settings_t`: the last known VTX state. */
  datatype Settings = Settings(version: byte, channel: byte, power: byte, mode: byte, frequency: uint16)

  /** The zero-initialised global. */
  const NoSettings: Settings := Settings(0, 0, 0, 0, 0)

  /** Why `read_packet` returned 0 (the reasons its log lines name). */
  datatype Failure =
    | NoPacket          // fewer than two bytes queued
    | InvalidMagic      // three resynchronisation tries failed
    | ReadTimeout       // the queue ran out inside the frame
    | InvalidCrc        // the trailing CRC check failed
    | SettingsRejected  // a GET_SETTINGS response with crc == payload[5]

  datatype Result<T> = Ok(value: T) | Err(failure: Failure)

  /** A response frame as read: command byte, payload, and the running CRC
      after the last byte read (the trailer included when there is one). */
  datatype RxFrame = RxFrame(cmd: byte, payload: seq<byte>, crc: byte)

  datatype Parsed = Parsed(frame: Result<RxFrame>, rest: seq<byte>)

  /** What `payload[0..5]` reads past the end of the `length`-byte local
      array: the bytes then on the stack beyond it, which the C code leaves
      unspecified. */
  type Residue = s: seq<byte> | |s| == 6 witness [0, 0, 0, 0, 0, 0]

  /** `payload[k]` for `k < 6`, whatever the payload length. */
  function Field(payload: seq<byte>, residue: Residue, k: nat): (b: byte)
    requires k < 6
    ensures k < |payload| ==> b == payload[k]
  {
    if k < |payload| then payload[k] else residue[k]
  }

  /** The queue after `n` reads: each read takes one byte until it is empty. */
  function Drop(q: seq<byte>, n: nat): (r: seq<byte>)
    ensures |r| == if n <= |q| then |q| - n else 0
  {
    if n <= |q| then q[n..] else []
  }

  /** The resynchronisation loop with `tries` tries left. A try reads one
      byte and, only if it was 0xAA, a second one; it succeeds when that
      second byte is 0x55. A read from an empty queue fails the try. */
  function Resync(q: seq<byte>, tries: nat): (bool, seq<byte>)
    decreases tries
  {
    if tries == 0 then (false, q)
    else if |q| >= 2 && q[0] == 0xAA && q[1] == 0x55 then (true, q[2..])
    else Resync(Drop(q, if |q| >= 1 && q[0] == 0xAA then 2 else 1), tries - 1)
  }

  /** The responses with no trailing CRC byte. */
  predicate SkipsCrc(cmd: byte) {
    cmd == 0x01 || cmd == 0x09
  }

  /** Reading command, length, payload and (unless skipped) the trailing CRC
      after the magic. The running CRC starts at 0 with the command byte. */
  function ParseBody(q: seq<byte>): Parsed {
    if |q| < 2 then Parsed(Err(ReadTimeout), [])
    else
      var cmd, n := q[0], q[1] as int;
      if |q| < 2 + n then Parsed(Err(ReadTimeout), [])
      else
        var crc := Crc8Data(q[..2 + n]);
        if SkipsCrc(cmd) then Parsed(Ok(RxFrame(cmd, q[2..2 + n], crc)), q[2 + n..])
        else if |q| < 3 + n then Parsed(Err(ReadTimeout), [])
        else
          var t := q[2 + n];
          var crc' := Crc8(crc, t);
          if crc' != t then Parsed(Err(InvalidCrc), q[3 + n..])
          else Parsed(Ok(RxFrame(cmd, q[2..2 + n], crc')), q[3 + n..])
  }

  /** Reading one response frame off the queue. */
  function ParseFrame(q: seq<byte>): Parsed {
    if |q| < 2 then Parsed(Err(NoPacket), q)
    else
      var (found, q1) := Resync(q, MagicTries);
      if !found then Parsed(Err(InvalidMagic), q1) else ParseBody(q1)
  }

  /** `(channel / 8) * 10 + channel % 8`, stored in a `uint8_t`. */
  function WeirdChannel(channel: byte): byte {
    ((channel as int / 8 * 10 + channel as int % 8) % 256) as byte
  }

  /** `(uint16_t)(((uint16_t)hi << 8) | lo)`: the shifted high byte has a
      zero low byte, so the OR is a sum. */
  function BigEndian(hi: byte, lo: byte): uint16 {
    (hi as int * 256 + lo as int) as uint16
  }

  predicate IsGetSettings(cmd: byte) {
    cmd == GetSettings || cmd == GetSettingsV2 || cmd == GetSettingsV21
  }

  /** The command switch: the settings after a response frame was read. */
  function Apply(s: Settings, f: RxFrame, residue: Residue): Result<Settings> {
    var p0, p1 := Field(f.payload, residue, 0), Field(f.payload, residue, 1);
    if IsGetSettings(f.cmd) then
      if f.crc == Field(f.payload, residue, 5) then Err(SettingsRejected)
      else
        var version: byte := if f.cmd == GetSettings then 1 else if f.cmd == GetSettingsV2 then 2 else 3;
        Ok(Settings(version, p0, p1, Field(f.payload, residue, 2),
                    BigEndian(Field(f.payload, residue, 3), Field(f.payload, residue, 4))))
    else if f.cmd == SetFrequency then Ok(s.(frequency := BigEndian(p0, p1)))
    else if f.cmd == SetChannel then Ok(s.(channel := p0))
    else if f.cmd == SetPower then
      if p0 == s.channel || p0 == WeirdChannel(s.channel) then Ok(s.(power := p1))
      else if p1 == 1 then Ok(s.(power := p0))
      else Ok(s)
    else if f.cmd == SetMode then Ok(s.(mode := p0))
    else Ok(s)
  }

  /** The outcome of `read_packet`: the new settings or why it failed, and
      what is left in the queue. */
  datatype Reply = Reply(result: Result<Settings>, rest: seq<byte>)

  /** `read_packet` over the queue `q` and the settings `s`. */
  function ReadPacketModel(q: seq<byte>, s: Settings, residue: Residue): Reply {
    var p := ParseFrame(q);
    match p.frame
    case Err(why) => Reply(Err(why), p.rest)
    case Ok(f) => Reply(Apply(s, f, residue), p.rest)
  }

  // ---------------------------------------------------------------------
  // Properties of the frame reader

  /** With fewer than two bytes queued nothing is read. */
  lemma FewerThanTwoBytes(q: seq<byte>, s: Settings, residue: Residue)
    requires |q| < 2
    ensures ReadPacketModel(q, s, residue) == Reply(Err(NoPacket), q)
  {
  }

  /** A successful resynchronisation consumed at most two bytes per try
      before a 0xAA 0x55 pair and leaves what follows the pair. */
  lemma {:induction false} ResyncFindsMagic(q: seq<byte>, tries: nat)
    ensures var (found, rest) := Resync(q, tries);
      && |rest| <= |q|
      && rest == q[|q| - |rest|..]
      && (found ==> var m := |q| - |rest|;
            2 <= m <= 2 * tries && q[m - 2] == 0xAA && q[m - 1] == 0x55)
    decreases tries
  {
    if tries > 0 && !(|q| >= 2 && q[0] == 0xAA && q[1] == 0x55) {
      var k := if |q| >= 1 && q[0] == 0xAA then 2 else 1;
      var d := Drop(q, k);
      assert d == q[|q| - |d|..] && |q| - |d| <= 2;
      ResyncFindsMagic(d, tries - 1);
      var (found, rest) := Resync(d, tries - 1);
      assert Resync(q, tries) == (found, rest);
      SuffixOfSuffix(q, d, rest);
      if found {
        var m' := |d| - |rest|;
        assert d[m' - 2] == q[|q| - |d| + m' - 2];
        assert d[m' - 1] == q[|q| - |d| + m' - 1];
      }
    }
  }

  /** A suffix of a suffix is a suffix, at the summed offset. */
  lemma SuffixOfSuffix(q: seq<byte>, d: seq<byte>, rest: seq<byte>)
    requires |d| <= |q| && d == q[|q| - |d|..]
    requires |rest| <= |d| && rest == d[|d| - |rest|..]
    ensures rest == q[|q| - |rest|..]
    ensures forall i :: 0 <= i < |d| ==> d[i] == q[|q| - |d| + i]
  {
  }

  /** Up to two noise bytes that cannot start the magic are skipped, one try
      each, before the magic is found. */
  lemma ResyncSkipsNoise(noise: seq<byte>, q: seq<byte>)
    requires |noise| <= MagicTries - 1
    requires forall i :: 0 <= i < |noise| ==> noise[i] != 0xAA
    requires |q| >= 2 && q[0] == 0xAA && q[1] == 0x55
    ensures Resync(noise + q, MagicTries) == (true, q[2..])
  {
    if |noise| == 1 {
      assert (noise + q)[1..] == q;
    } else if |noise| == 2 {
      assert (noise + q)[1..][1..] == q;
    } else {
      assert noise + q == q;
    }
  }

  /** What a successful read after the magic consumed: the command, the
      length, the payload and (unless skipped) a trailer byte equal to the
      final running CRC. */
  lemma ParseBodySound(q: seq<byte>)
    requires ParseBody(q).frame.Ok?
    ensures var p := ParseBody(q); var f := p.frame.value;
      var body := [f.cmd, |f.payload| as byte] + f.payload;
      var trailer := if SkipsCrc(f.cmd) then [] else [f.crc];
      && |f.payload| < 256
      && q == body + trailer + p.rest
      && (SkipsCrc(f.cmd) ==> f.crc == Crc8Data(body))
      && (!SkipsCrc(f.cmd) ==> f.crc == Crc8(Crc8Data(body), f.crc))
  {
    var n := q[1] as int;
    SplitHeader(q, n);
    if !SkipsCrc(q[0]) {
      SplitTrailer(q[2 + n..]);
    }
  }

  /** A queue holding a header and `n` payload bytes, cut into its parts. */
  lemma SplitHeader(q: seq<byte>, n: nat)
    requires 2 + n <= |q|
    ensures q[..2 + n] == [q[0], q[1]] + q[2..2 + n]
    ensures q == q[..2 + n] + q[2 + n..]
  {
  }

  lemma SplitTrailer(q: seq<byte>)
    requires 1 <= |q|
    ensures q == [q[0]] + q[1..]
  {
  }

  /** What `ParseBody` reads from a queue holding the whole frame body. */
  lemma ParseBodyReads(q: seq<byte>)
    requires 2 <= |q| && 2 + q[1] as int <= |q|
    ensures var n := q[1] as int; var crc := Crc8Data(q[..2 + n]);
      && (SkipsCrc(q[0]) ==>
            ParseBody(q) == Parsed(Ok(RxFrame(q[0], q[2..2 + n], crc)), q[2 + n..]))
      && (!SkipsCrc(q[0]) && 3 + n <= |q| && Crc8(crc, q[2 + n]) != q[2 + n] ==>
            ParseBody(q) == Parsed(Err(InvalidCrc), q[3 + n..]))
      && (!SkipsCrc(q[0]) && 3 + n <= |q| && Crc8(crc, q[2 + n]) == q[2 + n] ==>
            ParseBody(q) == Parsed(Ok(RxFrame(q[0], q[2..2 + n], q[2 + n])), q[3 + n..]))
  {
  }

  /** The running CRC after the command, the length and `n` payload bytes. */
  lemma HeaderCrc(q: seq<byte>, n: nat)
    requires 2 + n <= |q|
    ensures Crc8Data(q[..2 + n]) == Crc8Fold(Crc8(Crc8(0, q[0]), q[1]), q[2..2 + n])
  {
    assert q[..2 + n] == [q[0], q[1]] + q[2..2 + n];
    Crc8FoldAppend(0, [q[0], q[1]], q[2..2 + n]);
    Crc8DataOfTwo(q[0], q[1]);
  }

  /** A successful read found the magic 0xAA 0x55 after at most four
      skipped bytes, and parsed the body right behind it. */
  lemma ParseFrameSound(q: seq<byte>)
    requires ParseFrame(q).frame.Ok?
    ensures var r := Resync(q, MagicTries);
      var m := |q| - |r.1|;
      && r.0
      && 2 <= m <= 6
      && q[m - 2..] == [0xAA, 0x55] + r.1
      && ParseFrame(q) == ParseBody(r.1)
      && ParseBody(r.1).frame.Ok?
  {
    var r := Resync(q, MagicTries);
    assert r.0 && ParseFrame(q) == ParseBody(r.1);
    MagicFound(q);
  }

  /** A successful resynchronisation stopped right behind a magic pair
      within the first six bytes. */
  lemma MagicFound(q: seq<byte>)
    requires Resync(q, MagicTries).0
    ensures var r := Resync(q, MagicTries);
      var m := |q| - |r.1|;
      && 2 <= m <= 6
      && q[m - 2..] == [0xAA, 0x55] + r.1
  {
    ResyncFindsMagic(q, MagicTries);
    var r := Resync(q, MagicTries);
    MagicBeforeRest(q, |q| - |r.1|);
  }

  lemma MagicBeforeRest(q: seq<byte>, m: nat)
    requires 2 <= m <= |q| && q[m - 2] == 0xAA && q[m - 1] == 0x55
    ensures q[m - 2..] == [0xAA, 0x55] + q[m..]
  {
  }

  /** A well-formed response after the magic is read as such. */
  lemma ParseBodyComplete(cmd: byte, payload: seq<byte>, t: byte, rest: seq<byte>)
    requires |payload| < 256
    ensures var body := [cmd, |payload| as byte] + payload;
      var crc := Crc8Data(body);
      && (SkipsCrc(cmd) ==>
            ParseBody(body + rest) == Parsed(Ok(RxFrame(cmd, payload, crc)), rest))
      && (!SkipsCrc(cmd) && Crc8(crc, t) == t ==>
            ParseBody(body + [t] + rest) == Parsed(Ok(RxFrame(cmd, payload, t)), rest))
      && (!SkipsCrc(cmd) && Crc8(crc, t) != t ==>
            ParseBody(body + [t] + rest) == Parsed(Err(InvalidCrc), rest))
  {
    var body := [cmd, |payload| as byte] + payload;
    var n := |payload|;
    assert (body + rest)[..2 + n] == body;
    assert (body + rest)[2..2 + n] == payload;
    assert (body + rest)[2 + n..] == rest;
    assert (body + [t] + rest)[..2 + n] == body;
    assert (body + [t] + rest)[2..2 + n] == payload;
    assert (body + [t] + rest)[2 + n] == t;
    assert (body + [t] + rest)[3 + n..] == rest;
  }

  /** The trailer check accepts `t` iff folding `t` into the running CRC
      gives `t` back. A trailer equal to the running CRC itself is therefore
      rejected unless that CRC is 0. */
  lemma TrailerEqualToRunningCrc(r: byte)
    ensures Crc8(r, r) == r <==> r == 0
  {
    Crc8Self(r);
  }

  /** A frame cut short by the end of the queue is a read timeout and
      empties the queue. */
  lemma TruncatedBodyTimesOut(q: seq<byte>)
    requires |q| < 2 || |q| < 2 + q[1] as int || (!SkipsCrc(q[0]) && |q| < 3 + q[1] as int)
    ensures ParseBody(q) == Parsed(Err(ReadTimeout), [])
  {
  }

  // ---------------------------------------------------------------------
  // Properties of the settings update

  /** A GET_SETTINGS response (any variant) whose CRC differs from
      `payload[5]` replaces the whole record; the variant decides only the
      version: 1, 2 and 3 for GET_SETTINGS, V2 and V21. */
  lemma GetSettingsDecodes(s: Settings, f: RxFrame, residue: Residue)
    requires IsGetSettings(f.cmd)
    requires f.crc != Field(f.payload, residue, 5)
    ensures var r := Apply(s, f, residue);
      && r.Ok?
      && r.value.version == (if f.cmd == GetSettings then 1 else if f.cmd == GetSettingsV2 then 2 else 3)
      && r.value.channel == Field(f.payload, residue, 0)
      && r.value.power == Field(f.payload, residue, 1)
      && r.value.mode == Field(f.payload, residue, 2)
      && r.value.frequency as int
         == Field(f.payload, residue, 3) as int * 256 + Field(f.payload, residue, 4) as int
  {
  }

  /** The three GET_SETTINGS variants decode the same bytes identically
      except for the version. */
  lemma GetSettingsVariantsDifferInVersionOnly(s: Settings, payload: seq<byte>, crc: byte, residue: Residue)
    requires crc != Field(payload, residue, 5)
    ensures var r1 := Apply(s, RxFrame(GetSettings, payload, crc), residue);
      var r2 := Apply(s, RxFrame(GetSettingsV2, payload, crc), residue);
      var r3 := Apply(s, RxFrame(GetSettingsV21, payload, crc), residue);
      && r1.Ok? && r2.Ok? && r3.Ok?
      && r1.value.version == 1 && r2.value.version == 2 && r3.value.version == 3
      && r2.value == r1.value.(version := 2) && r3.value == r1.value.(version := 3)
  {
  }

  /** The GET_SETTINGS quirk: a CRC equal to `payload[5]` rejects it. */
  lemma GetSettingsQuirkRejects(s: Settings, f: RxFrame, residue: Residue)
    requires IsGetSettings(f.cmd)
    ensures Apply(s, f, residue).Err? <==> f.crc == Field(f.payload, residue, 5)
  {
  }

  /** SET_FREQUENCY sets the frequency, big-endian, and nothing else. */
  lemma SetFrequencyDecodes(s: Settings, f: RxFrame, residue: Residue)
    requires f.cmd == SetFrequency
    ensures var r := Apply(s, f, residue);
      && r.Ok?
      && r.value.frequency as int
         == Field(f.payload, residue, 0) as int * 256 + Field(f.payload, residue, 1) as int
      && r.value == s.(frequency := r.value.frequency)
  {
  }

  /** SET_CHANNEL and SET_MODE set their one field from `payload[0]`. */
  lemma SetChannelAndModeDecode(s: Settings, f: RxFrame, residue: Residue)
    ensures f.cmd == SetChannel ==> Apply(s, f, residue) == Ok(s.(channel := Field(f.payload, residue, 0)))
    ensures f.cmd == SetMode ==> Apply(s, f, residue) == Ok(s.(mode := Field(f.payload, residue, 0)))
  {
  }

  /** SET_POWER with the swapped-argument workaround: `payload[0]` naming the
      channel (plainly or in the "weird" encoding) makes `payload[1]` the
      power; otherwise a `payload[1]` of 1 makes `payload[0]` the power;
      otherwise nothing changes. Only the power ever changes. */
  lemma SetPowerDecodes(s: Settings, f: RxFrame, residue: Residue)
    requires f.cmd == SetPower
    ensures var r := Apply(s, f, residue);
      var p0, p1 := Field(f.payload, residue, 0), Field(f.payload, residue, 1);
      && r.Ok?
      && r.value == s.(power := r.value.power)
      && ((p0 == s.channel || p0 == WeirdChannel(s.channel)) ==> r.value.power == p1)
      && (p0 != s.channel && p0 != WeirdChannel(s.channel) && p1 == 1 ==> r.value.power == p0)
      && (p0 != s.channel && p0 != WeirdChannel(s.channel) && p1 != 1 ==> r.value == s)
  {
  }

  /** The "weird" channel encoding is the band/channel pair `(ch/8, ch%8)`
      written as two decimal digits. */
  lemma WeirdChannelDigits(ch: byte)
    requires ch < 200
    ensures WeirdChannel(ch) as int == ch as int / 8 * 10 + ch as int % 8
  {
    var band, slot := ch as int / 8, ch as int % 8;
    assert band < 25 && slot < 8;
    assert band * 10 + slot < 256;
  }

  /** Channel 13 (band 1, channel 5) becomes 15. */
  lemma WeirdChannelExample()
    ensures WeirdChannel(13) == 15
  {
    assert 13 / 8 == 1 && 13 % 8 == 5;
  }

  /** An unknown command id changes nothing but is still a success. */
  lemma UnknownCommandKeepsSettings(s: Settings, f: RxFrame, residue: Residue)
    requires !IsGetSettings(f.cmd)
    requires f.cmd !in {SetFrequency, SetChannel, SetPower, SetMode}
    ensures Apply(s, f, residue) == Ok(s)
  {
  }

  /** A queue that starts with the magic is read from right behind it. */
  lemma ParseFrameAtMagic(q: seq<byte>)
    ensures ParseFrame([0xAA, 0x55] + q) == ParseBody(q)
  {
    assert ([0xAA, 0x55] + q)[2..] == q;
  }

  /** A SET_FREQUENCY reply `AA 55 04 02 hi lo t` whose trailer passes the
      check sets the frequency to `hi * 256 + lo` and changes nothing else. */
  lemma SetFrequencyReplyAccepted(s: Settings, hi: byte, lo: byte, t: byte, rest: seq<byte>, residue: Residue)
    requires Crc8(Crc8Data([0x04, 0x02, hi, lo]), t) == t
    ensures ReadPacketModel([0xAA, 0x55, 0x04, 0x02, hi, lo, t] + rest, s, residue)
         == Reply(Ok(s.(frequency := BigEndian(hi, lo))), rest)
  {
    SetFrequencyReplyParses(hi, lo, t, rest);
    var f := RxFrame(0x04, [hi, lo], t);
    assert Apply(s, f, residue) == Ok(s.(frequency := BigEndian(hi, lo)));
  }

  lemma SetFrequencyReplyParses(hi: byte, lo: byte, t: byte, rest: seq<byte>)
    requires Crc8(Crc8Data([0x04, 0x02, hi, lo]), t) == t
    ensures ParseFrame([0xAA, 0x55, 0x04, 0x02, hi, lo, t] + rest)
         == Parsed(Ok(RxFrame(0x04, [hi, lo], t)), rest)
  {
    var payload := [hi, lo];
    assert [0x04, |payload| as byte] + payload == [0x04, 0x02, hi, lo];
    ReplyLayout(0xAA, 0x55, 0x04, 0x02, hi, lo, t, rest);
    FrameParses(0x04, payload, t, rest);
  }

  /** A checked response frame right behind the magic is read as such. */
  lemma FrameParses(cmd: byte, payload: seq<byte>, t: byte, rest: seq<byte>)
    requires |payload| < 256 && !SkipsCrc(cmd)
    requires Crc8(Crc8Data([cmd, |payload| as byte] + payload), t) == t
    ensures ParseFrame([0xAA, 0x55] + ([cmd, |payload| as byte] + payload + [t] + rest))
         == Parsed(Ok(RxFrame(cmd, payload, t)), rest)
  {
    ParseFrameAtMagic([cmd, |payload| as byte] + payload + [t] + rest);
    ParseBodyComplete(cmd, payload, t, rest);
  }

  lemma ReplyLayout<T>(a: T, b: T, c: T, d: T, e: T, f: T, g: T, rest: seq<T>)
    ensures [a, b, c, d, e, f, g] + rest == [a, b] + ([c, d] + [e, f] + [g] + rest)
  {
  }

  /** The reply for 5676 MHz (0x162C): 0x4B is a trailer the check accepts
      after `04 02 16 2C`. */
  lemma SetFrequencyReplyCrc()
    ensures Crc8(Crc8Data([0x04, 0x02, 0x16, 0x2C]), 0x4B) == 0x4B
  {
    Crc8DataOfFour(0x04, 0x02, 0x16, 0x2C);
    SetFrequencyReplySteps();
  }

  lemma SetFrequencyReplySteps()
    ensures Crc8(Crc8(Crc8(Crc8(Crc8(0, 0x04), 0x02), 0x16), 0x2C), 0x4B) == 0x4B
  {
    assert Crc8(0x00, 0x04) == 0xFE;
    assert Crc8(0xFE, 0x02) == 0x53;
    assert Crc8(0x53, 0x16) == 0xB6;
    assert Crc8(0xB6, 0x2C) == 0xEB;
    assert Crc8(0xEB, 0x4B) == 0x4B;
  }
}
