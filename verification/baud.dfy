/** The auto-baud hill climber `smart_audio_auto_baud`, over a value that
    gathers the state it reads and writes: the global `baud_rate`, the
    counters `packets_sent` / `packets_recv`, and its statics `last_percent`
    and `direction`. */
module BaudControl {
  import opened Bytes

  const BaudMin: int := 4650
  const BaudMax: int := 4950
  const BaudStep: int := 50
  const BaudInitial: int := 4800

  /** Success rates below this move the baud rate. */
  const GoodPercent: int := 70

  datatype Link = Link(
    baud: int,         // uint32_t baud_rate
    sent: int,         // uint32_t packets_sent
    recv: int,         // uint32_t packets_recv
    lastPercent: int,  // static uint8_t last_percent
    direction: int)    // static int8_t direction

  /** The state at power-up. */
  const Initial: Link := Link(BaudInitial, 0, 0, 0, 1)

  /** Every field holds a value its C type can hold. */
  predicate InRange(l: Link) {
    && 0 <= l.baud < U32
    && 0 <= l.sent < U32
    && 0 <= l.recv < U32
    && 0 <= l.lastPercent < 256
    && -128 <= l.direction < 128
  }

  /** The baud rate is on the 50-step grid inside [4650, 4950] and the
      direction is one step up or down. */
  predicate OnGrid(l: Link) {
    && InRange(l)
    && BaudMin <= l.baud <= BaudMax
    && (l.baud - BaudMin) % BaudStep == 0
    && (l.direction == 1 || l.direction == -1)
  }

  /** `(uint8_t)((packets_recv * 100) / packets_sent)`: the product wraps at
      32 bits and the quotient is truncated to a byte. The C division by zero
      when nothing was sent is modelled as giving 0, as the Cortex-M `UDIV`
      instruction does with divide-by-zero trapping off. */
  function Percent(sent: int, recv: int): (p: int)
    requires 0 <= sent < U32 && 0 <= recv < U32
    ensures 0 <= p < 256
    ensures sent == 0 ==> p == 0
  {
    if sent == 0 then 0 else (recv * 100 % U32) / sent % 256
  }

  /** The number of sends needed before an evaluation: 3 with no baseline yet,
      10 otherwise. */
  function WarmUp(lastPercent: int): int {
    if lastPercent == 0 then 3 else 10
  }

  /** The direction after the "improved, so switch" test. */
  function Flipped(l: Link, current: int): int {
    if l.lastPercent < current then (if l.direction == 1 then -1 else 1) else l.direction
  }

  /** The direction after the clamp at the bounds. */
  function Clamped(baud: int, direction: int): int {
    if direction == 1 && baud == BaudMax then -1
    else if direction == -1 && baud == BaudMin then 1
    else direction
  }

  /** One call of `smart_audio_auto_baud`. */
  function AutoBaudStep(l: Link): Link
    requires InRange(l)
  {
    var current := Percent(l.sent, l.recv);
    if l.sent < WarmUp(l.lastPercent) then
      l.(lastPercent := current)
    else if current < GoodPercent then
      var d := Clamped(l.baud, Flipped(l, current));
      Link((l.baud + d * BaudStep) % U32, 0, 0, current, d)
    else
      l.(sent := 0, recv := 0, lastPercent := current)
  }

  /** Whether a call re-baudes the link (and so reconfigures the UART). */
  predicate Rebauds(l: Link)
    requires InRange(l)
  {
    l.sent >= WarmUp(l.lastPercent) && Percent(l.sent, l.recv) < GoodPercent
  }

  // ---------------------------------------------------------------------
  // Properties

  /** The power-up state is on the grid, at 4800 baud. */
  lemma InitialOnGrid()
    ensures OnGrid(Initial) && Initial.baud == 4800
  {
  }

  /** A call keeps the baud rate on the grid: the clamps turn around at the
      bounds instead of overshooting. */
  lemma AutoBaudKeepsGrid(l: Link)
    requires OnGrid(l)
    ensures OnGrid(AutoBaudStep(l))
  {
    var current := Percent(l.sent, l.recv);
    if l.sent >= WarmUp(l.lastPercent) && current < GoodPercent {
      var d := Clamped(l.baud, Flipped(l, current));
      if d == 1 {
        assert l.baud < BaudMax;
        StepOnGrid(l.baud, 1);
      } else {
        assert d == -1 && l.baud > BaudMin;
        StepOnGrid(l.baud, -1);
      }
    }
  }

  /** One step in either direction from a grid point strictly inside the
      range in that direction lands on the grid. */
  lemma StepOnGrid(baud: int, d: int)
    requires BaudMin <= baud <= BaudMax && (baud - BaudMin) % BaudStep == 0
    requires d == 1 ==> baud < BaudMax
    requires d == -1 ==> baud > BaudMin
    requires d == 1 || d == -1
    ensures var b := (baud + d * BaudStep) % U32;
      && b == baud + d * BaudStep
      && BaudMin <= b <= BaudMax && (b - BaudMin) % BaudStep == 0
  {
    var k := (baud - BaudMin) / BaudStep;
    assert baud == BaudMin + k * BaudStep;
    if d == 1 {
      assert baud + d * BaudStep == BaudMin + (k + 1) * BaudStep;
    } else {
      assert baud + d * BaudStep == BaudMin + (k - 1) * BaudStep;
    }
  }

  /** During warm-up only `last_percent` changes. */
  lemma WarmUpOnlyRecords(l: Link)
    requires InRange(l)
    requires l.sent < WarmUp(l.lastPercent)
    ensures var r := AutoBaudStep(l);
      && r.baud == l.baud && r.direction == l.direction
      && r.sent == l.sent && r.recv == l.recv
      && r.lastPercent == Percent(l.sent, l.recv)
  {
  }

  /** After warm-up both counters are reset and the rate is recorded. */
  lemma EvaluationResets(l: Link)
    requires InRange(l)
    requires l.sent >= WarmUp(l.lastPercent)
    ensures var r := AutoBaudStep(l);
      r.sent == 0 && r.recv == 0 && r.lastPercent == Percent(l.sent, l.recv)
  {
  }

  /** After warm-up the baud rate moves by exactly one step iff the success
      rate is below 70%, and stays put otherwise. */
  lemma StepsIffPoor(l: Link)
    requires OnGrid(l)
    requires l.sent >= WarmUp(l.lastPercent)
    ensures var r := AutoBaudStep(l);
      && (Percent(l.sent, l.recv) < GoodPercent <==> r.baud != l.baud)
      && (r.baud == l.baud + BaudStep || r.baud == l.baud - BaudStep || r.baud == l.baud)
      && (Percent(l.sent, l.recv) >= GoodPercent ==> r.direction == l.direction)
  {
    AutoBaudKeepsGrid(l);
  }

  /** When stepping, the new direction is the old one negated exactly when
      the rate improved, unless that would leave the range, in which case it
      points back in. The step is taken in the new direction. */
  lemma DirectionRule(l: Link)
    requires OnGrid(l)
    requires Rebauds(l)
    ensures var r := AutoBaudStep(l);
      var current := Percent(l.sent, l.recv);
      var pre := if l.lastPercent < current then -l.direction else l.direction;
      && r.direction == Clamped(l.baud, pre)
      && (pre == 1 && l.baud == BaudMax ==> r.direction == -1)
      && (pre == -1 && l.baud == BaudMin ==> r.direction == 1)
      && (BaudMin < l.baud < BaudMax ==> r.direction == pre)
      && r.baud == l.baud + r.direction * BaudStep
  {
    AutoBaudKeepsGrid(l);
  }

  /** The hill climber across a session: between two evaluations the
      exchanges leave the counters at the given values. */
  function Session(l: Link, counts: seq<(int, int)>): Link
    requires InRange(l)
    requires forall i :: 0 <= i < |counts| ==> 0 <= counts[i].0 < U32 && 0 <= counts[i].1 < U32
    decreases |counts|
  {
    if counts == [] then l
    else Session(AutoBaudStep(l.(sent := counts[0].0, recv := counts[0].1)), counts[1..])
  }

  /** Whatever the link does, the baud rate never leaves the grid. */
  lemma {:induction false} SessionStaysOnGrid(l: Link, counts: seq<(int, int)>)
    requires OnGrid(l)
    requires forall i :: 0 <= i < |counts| ==> 0 <= counts[i].0 < U32 && 0 <= counts[i].1 < U32
    ensures OnGrid(Session(l, counts))
    ensures BaudMin <= Session(l, counts).baud <= BaudMax
    decreases |counts|
  {
    if counts != [] {
      var l' := l.(sent := counts[0].0, recv := counts[0].1);
      AutoBaudKeepsGrid(l');
      SessionStaysOnGrid(AutoBaudStep(l'), counts[1..]);
    }
  }

  /** When no more was received than sent, the rate is the plain percentage. */
  lemma PercentIsRate(sent: int, recv: int)
    requires 0 < sent < U32 && 0 <= recv <= sent
    requires recv * 100 < U32
    ensures Percent(sent, recv) == recv * 100 / sent
    ensures Percent(sent, recv) <= 100
  {
    var a := recv * 100;
    SmallRemainder(a, U32);
    QuotientAtMost(a, sent, 100);
    SmallRemainder(a / sent, 256);
  }

  lemma SmallRemainder(x: int, m: int)
    requires 0 <= x < m
    ensures x % m == x
  {
  }

  lemma QuotientAtMost(a: int, b: int, c: int)
    requires 0 < b && 0 <= a <= c * b
    ensures a / b <= c
  {
  }

  /** 3 of 10 twice in a row: the rate did not improve, so no flip. */
  lemma SameRateKeepsDirection()
    ensures var l := Link(4800, 10, 3, 30, 1); AutoBaudStep(l) == Link(4850, 0, 0, 30, 1)
  {
  }

  /** From 30% to 50%: the rate improved, so the direction flips. */
  lemma ImprovedRateFlips()
    ensures var l := Link(4800, 10, 5, 30, 1); AutoBaudStep(l) == Link(4750, 0, 0, 50, -1)
  {
  }

  /** From 50% to 30%: the rate degraded, and the direction is kept. */
  lemma DegradedRateKeepsDirection()
    ensures var l := Link(4800, 10, 3, 50, -1); AutoBaudStep(l) == Link(4750, 0, 0, 30, -1)
  {
  }
}
