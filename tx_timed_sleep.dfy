// Blink transmitter that sleeps between frames (ex_01d). The sleep counter
// is calibrated once against the crystal so that the DW1000, which goes to
// sleep by itself after each transmission, wakes up 10 ms before the host
// sends the next blink.
module TxTimedSleep {
  import opened Bytes
  import opened Radio
  import SleepScheduler

  const XtalFreqHz: nat := 38400000
  /** Period between blinks, in milliseconds. */
  const TxDelayMs: nat := 1000
  /** Sleep time, with a 10 ms margin for the wake-up. */
  const SleepTimeMs: nat := TxDelayMs - 10
  const BlinkFrameSnIdx: nat := 1

  /** The 12-byte blink: frame type 0xC5, sequence number, device ID
      "DECAWAVE" and two check-sum bytes filled by the radio. */
  const InitialTxMsg: seq<byte> := [0xC5, 0, 68, 69, 67, 65, 87, 65, 86, 69, 0, 0]

  /** `lp_osc_freq = (XTAL_FREQ_HZ / 2) / calib` stored in a `uint16`. For
      every calibration count of 293 or more the quotient fits and is stored
      unchanged. */
  function LpOscFreq16(calib: nat): (freqHz: nat)
    requires calib > 0
    ensures freqHz < U16
    ensures 293 <= calib ==> freqHz * calib <= XtalFreqHz / 2 < (freqHz + 1) * calib
  {
    var q := XtalFreqHz / 2 / calib;
    if 293 <= calib then
      SleepScheduler.DivByLargerDivisor(XtalFreqHz / 2, 293, calib);
      assert q < U16;
      assert q % U16 == q;
      q % U16
    else
      q % U16
  }

  /** `sleep_cnt = ((SLEEP_TIME_MS * lp_osc_freq) / 1000) >> 12` in `int`
      arithmetic (no overflow: the product stays below 2^26) stored in a
      `uint16`, which it always fits. */
  function SleepCount16(calib: nat): (count: nat)
    requires calib > 0
    ensures count == SleepScheduler.Ticks(SleepTimeMs, LpOscFreq16(calib))
    ensures count <= 15
  {
    var f := LpOscFreq16(calib);
    SleepScheduler.TicksMonotone(SleepTimeMs, f, SleepTimeMs, U16 - 1);
    (SleepTimeMs * f / 1000) / SleepScheduler.CountsPerUnit % U16
  }

  /** The DW1000 sleeps at most 990 ms, so it is awake again at least 10 ms
      before the host, waiting 1000 ms, sends the next blink. */
  lemma SleepEndsBeforeNextBlink(calib: nat)
    requires calib > 0
    ensures SleepCount16(calib) * SleepScheduler.CountsPerUnit * 1000 + 10 * LpOscFreq16(calib)
            <= TxDelayMs * LpOscFreq16(calib)
  {
    SleepScheduler.TicksFloor(SleepTimeMs, LpOscFreq16(calib));
  }

  /** The driver calls of one pass: the blink goes out, then the host waits. */
  function IterationTrace(msg: seq<byte>): seq<Action>
  {
    [Transmit(msg), Delay(TxDelayMs)]
  }

  /** Each pass sends one blink and waits 1000 ms. */
  lemma IterationSendsOneBlink(msg: seq<byte>)
    ensures Transmitted(IterationTrace(msg)) == [msg]
    ensures Delays(IterationTrace(msg)) == [TxDelayMs]
  {
    var t := IterationTrace(msg);
    ProjectionsSuffixes(t);
    assert t[0..] == t && t[2..] == [];
  }

  class Blinker {
    /** The blink; only its sequence number changes. */
    const txMsg: array<byte>
    /** The value given to the sleep counter. */
    const sleepCount: nat
    /** Driver calls made so far. */
    ghost var trace: seq<Action>

    ghost predicate Valid()
      reads this, txMsg
    {
      txMsg.Length == |InitialTxMsg|
      && (forall i | 0 <= i < txMsg.Length && i != BlinkFrameSnIdx :: txMsg[i] == InitialTxMsg[i])
    }

    /** Start-up, given the count the sleep-counter calibration returns: the
        radio is woken through chip select in case it was asleep. */
    constructor (calib: nat)
      requires 0 < calib < U16
      ensures Valid() && fresh(txMsg)
      ensures txMsg[..] == InitialTxMsg
      ensures sleepCount == SleepCount16(calib)
      ensures trace == [SpiCsWakeup]
    {
      txMsg := new byte[|InitialTxMsg|](i requires 0 <= i < |InitialTxMsg| => InitialTxMsg[i]);
      sleepCount := SleepCount16(calib);
      trace := [SpiCsWakeup];
    }

    /** One pass of the main loop. */
    method Iteration()
      requires Valid()
      modifies this, txMsg
      ensures Valid()
      ensures txMsg[..] == old(txMsg[..])[BlinkFrameSnIdx := Inc(old(txMsg[BlinkFrameSnIdx]))]
      ensures trace == old(trace) + IterationTrace(old(txMsg[..]))
    {
      trace := trace + [Transmit(txMsg[..])];
      trace := trace + [Delay(TxDelayMs)];
      txMsg[BlinkFrameSnIdx] := Inc(txMsg[BlinkFrameSnIdx]);
    }
  }
}
