/** Self-echo verification on the half-duplex wire
    (`serial_smart_audio_read_frame_back`), over the receive queue. */
module Echo {
  import opened Bytes
  import opened Encoder

  /** Whether a read sequence succeeded, and what is left in the queue. */
  datatype Read = Read(ok: bool, rest: seq<byte>)

  /** `check_for_byte` on each expected byte in turn, stopping at the first
      one that times out (empty queue) or differs (that byte is consumed). */
  function MatchFrom(expected: seq<byte>, q: seq<byte>): Read
    decreases |expected|
  {
    if expected == [] then Read(true, q)
    else if q == [] then Read(false, q)
    else if q[0] != expected[0] then Read(false, q[1..])
    else MatchFrom(expected[1..], q[1..])
  }

  /** The echo check of `frame` (the transmitted bytes after the pad): the
      first byte read may be the pad 0x00 or the first frame byte; the
      remaining frame bytes must follow exactly. */
  function EchoCheck(frame: seq<byte>, q: seq<byte>): Read
    requires |frame| >= 1
  {
    if q == [] then Read(false, q)
    else
      var first := q[0];
      if first != 0x00 && first != frame[0] then Read(false, q[1..])
      else MatchFrom(frame[(if first == frame[0] then 1 else 0)..], q[1..])
  }

  // ---------------------------------------------------------------------
  // Properties

  /** Matching succeeds iff the queue starts with the expected bytes, and
      then exactly those are consumed. */
  lemma {:induction false} MatchFromIsPrefix(e: seq<byte>, q: seq<byte>)
    ensures MatchFrom(e, q).ok <==> e <= q
    ensures MatchFrom(e, q).ok ==> MatchFrom(e, q).rest == q[|e|..]
    decreases |e|
  {
    if e != [] && q != [] && q[0] == e[0] {
      MatchFromIsPrefix(e[1..], q[1..]);
      assert e <= q <==> e[1..] <= q[1..];
    }
  }

  /** Matching fails at the first diverging byte, which it consumes, or when
      the queue runs out. */
  lemma {:induction false} MatchFromFailsAt(e: seq<byte>, q: seq<byte>, k: nat)
    requires k < |e| && k <= |q|
    requires e[..k] == q[..k]
    requires k == |q| || q[k] != e[k]
    ensures MatchFrom(e, q) == Read(false, if k == |q| then [] else q[k + 1..])
    decreases k
  {
    if k > 0 {
      assert q[0] == q[..k][0] == e[..k][0] == e[0];
      assert e[1..][..k - 1] == e[..k][1..];
      assert q[1..][..k - 1] == q[..k][1..];
      MatchFromFailsAt(e[1..], q[1..], k - 1);
    }
  }

  /** The echo check succeeds iff the queue starts with the frame, or with
      one pad byte 0x00 and then the frame (when the frame does not itself
      start with 0x00). It consumes exactly those bytes. */
  lemma EchoCheckAccepts(f: seq<byte>, q: seq<byte>)
    requires |f| >= 1
    ensures EchoCheck(f, q).ok <==> (f <= q || (f[0] != 0x00 && [0x00] + f <= q))
    ensures f <= q ==> EchoCheck(f, q) == Read(true, q[|f|..])
    ensures f[0] != 0x00 && [0x00] + f <= q ==> EchoCheck(f, q) == Read(true, q[|f| + 1..])
  {
    if q != [] {
      var first := q[0];
      if first == f[0] {
        MatchFromIsPrefix(f[1..], q[1..]);
        assert f <= q <==> f[1..] <= q[1..];
      } else if first == 0x00 {
        MatchFromIsPrefix(f, q[1..]);
        assert [0x00] + f <= q <==> f <= q[1..];
      }
    }
  }

  /** A transmitted frame mirrored back, with or without its pad byte,
      passes the echo check and leaves exactly what followed it. */
  lemma FrameEchoAccepted(cmd: byte, payload: seq<byte>, rest: seq<byte>)
    requires |payload| <= MaxPayload
    ensures var frame := FrameOf(cmd, payload);
      && EchoCheck(frame[1..], frame + rest) == Read(true, rest)
      && EchoCheck(frame[1..], frame[1..] + rest) == Read(true, rest)
  {
    var frame := FrameOf(cmd, payload);
    FrameLayout(cmd, payload);
    var f := frame[1..];
    assert frame == [0x00] + f;
    EchoCheckAccepts(f, frame + rest);
    assert [0x00] + f <= frame + rest;
    assert (frame + rest)[|f| + 1..] == rest;
    EchoCheckAccepts(f, f + rest);
    assert (f + rest)[|f|..] == rest;
  }
}
