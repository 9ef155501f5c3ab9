// Blink transmitter with a clear-channel assessment (ex_01e). Before each
// transmission the receiver listens for a preamble for 3 PACs. A preamble
// timeout means the channel is clear: the queued blink goes out and the
// back-off is reset. A detected preamble means the channel is busy: the
// transmission is cancelled and the host waits the current back-off, which
// then grows by one millisecond.
module TxWithCca {
  import opened Bytes
  import opened Radio

  /** Period between blinks when the channel is clear, in milliseconds. */
  const TxDelayMs: int := 100
  /** Back-off after the first busy assessment, in milliseconds. */
  const InitialBackoffPeriod: int := 400
  const BlinkFrameSnIdx: nat := 1

  /** The 12-byte blink: frame type 0xC5, sequence number, device ID
      "DECAWAVE" and two check-sum bytes filled by the radio. */
  const InitialTxMsg: seq<byte> := [0xC5, 0, 68, 69, 67, 65, 87, 65, 86, 69, 0, 0]

  /** The status bits that end the preamble poll: RXPTO (preamble detection
      timed out) and RXPRD (preamble detected). */
  datatype PreambleStatus = PreambleStatus(timedOut: bool, detected: bool)

  /** The assessment: the channel is clear exactly when RXPTO is set, whatever
      RXPRD says. */
  predicate ChannelClear(status: PreambleStatus): (clear: bool)
    ensures status.timedOut ==> clear
    ensures status.detected && !status.timedOut ==> !clear
  {
    status.timedOut
  }

  /** `tx_sleep_period` and `next_backoff_interval`. */
  datatype Backoff = Backoff(sleepPeriod: int, nextInterval: int)

  /** How one assessment updates the sleep period and the next back-off: a
      clear channel resets both whatever came before; a busy one sleeps the
      pending back-off and lengthens the next by 1 ms. From a back-off of at
      least 400 ms, the back-off stays at or above 400 ms, every sleep is at
      least 100 ms, and the back-off grows exactly on a busy channel. */
  function NextBackoff(b: Backoff, clear: bool): (next: Backoff)
    ensures clear ==> next.sleepPeriod == TxDelayMs && next.nextInterval == InitialBackoffPeriod
    ensures !clear ==> next.sleepPeriod == b.nextInterval && next.nextInterval == b.nextInterval + 1
    ensures b.nextInterval >= InitialBackoffPeriod ==>
      next.nextInterval >= InitialBackoffPeriod && next.sleepPeriod >= TxDelayMs
      && (next.nextInterval > b.nextInterval <==> !clear)
  {
    if clear then Backoff(TxDelayMs, InitialBackoffPeriod)
    else Backoff(b.nextInterval, b.nextInterval + 1)
  }

  /** The host sleeps taken after each of a run of assessments. */
  function SleepsOf(b: Backoff, clearRun: seq<bool>): seq<int>
    decreases |clearRun|
  {
    if clearRun == [] then []
    else
      var next := NextBackoff(b, clearRun[0]);
      [next.sleepPeriod] + SleepsOf(next, clearRun[1..])
  }

  /** Along any run of assessments that starts from a back-off of at least
      400 ms, there is one sleep per assessment, every sleep lasts at least
      100 ms, and every sleep after a busy assessment at least 400 ms. */
  lemma {:induction false} RunSleepsBounded(b: Backoff, clearRun: seq<bool>)
    requires b.nextInterval >= InitialBackoffPeriod
    ensures |SleepsOf(b, clearRun)| == |clearRun|
    ensures forall i | 0 <= i < |clearRun| :: SleepsOf(b, clearRun)[i] >= TxDelayMs
    ensures forall i | 0 <= i < |clearRun| && !clearRun[i] :: SleepsOf(b, clearRun)[i] >= InitialBackoffPeriod
    decreases |clearRun|
  {
    if clearRun != [] {
      var next := NextBackoff(b, clearRun[0]);
      RunSleepsBounded(next, clearRun[1..]);
      var s := SleepsOf(b, clearRun);
      assert s == [next.sleepPeriod] + SleepsOf(next, clearRun[1..]);
      forall i | 1 <= i < |clearRun|
        ensures s[i] == SleepsOf(next, clearRun[1..])[i - 1] && clearRun[i] == clearRun[1..][i - 1]
      {
      }
    }
  }

  /** After `k` busy assessments in a row the sleeps are next, next+1, ...,
      next+k-1, so the back-off grows linearly. */
  lemma {:induction false} BusyRunSleeps(b: Backoff, k: nat)
    ensures SleepsOf(b, seq(k, _ => false)) == seq(k, i => b.nextInterval + i)
    decreases k
  {
    if k > 0 {
      var run := seq(k, _ => false);
      assert run[1..] == seq(k - 1, _ => false);
      var next := NextBackoff(b, false);
      BusyRunSleeps(next, k - 1);
    }
  }

  /** A clear assessment resets the back-off: the busy run that follows it
      sleeps 400, 401, ... whatever came before. */
  lemma {:induction false} ClearThenBusySleeps(b: Backoff, k: nat)
    ensures SleepsOf(b, [true] + seq(k, _ => false)) == [TxDelayMs] + seq(k, i => InitialBackoffPeriod + i)
  {
    var run := [true] + seq(k, _ => false);
    assert run[1..] == seq(k, _ => false);
    BusyRunSleeps(NextBackoff(b, true), k);
  }

  /** The driver calls of one assessment: the receiver listens, the blink
      goes on the air only on a clear channel (otherwise the transceiver is
      turned off, cancelling it), then the host sleeps. */
  function AttemptTrace(msg: seq<byte>, clear: bool, sleepMs: int): seq<Action>
    requires sleepMs >= 0
  {
    [RxEnable] + (if clear then [Transmit(msg)] else [ForceTrxOff]) + [Delay(sleepMs)]
  }

  class CcaTransmitter {
    /** The blink; only its sequence number changes. */
    const txMsg: array<byte>
    var txSleepPeriod: int
    var nextBackoffInterval: int
    /** Driver calls made so far. */
    ghost var trace: seq<Action>

    ghost predicate Valid()
      reads this, txMsg
    {
      txMsg.Length == |InitialTxMsg|
      && nextBackoffInterval >= InitialBackoffPeriod
      && (forall i | 0 <= i < txMsg.Length && i != BlinkFrameSnIdx :: txMsg[i] == InitialTxMsg[i])
    }

    constructor ()
      ensures Valid() && fresh(txMsg)
      ensures txMsg[..] == InitialTxMsg
      ensures txSleepPeriod == 0 && nextBackoffInterval == InitialBackoffPeriod && trace == []
    {
      txMsg := new byte[|InitialTxMsg|](i requires 0 <= i < |InitialTxMsg| => InitialTxMsg[i]);
      txSleepPeriod := 0;
      nextBackoffInterval := InitialBackoffPeriod;
      trace := [];
    }

    /** One pass of the main loop; `status` holds the bits that ended the
        preamble poll, which stops only once one of them is set. */
    method Attempt(status: PreambleStatus) returns (channelClear: bool)
      requires Valid()
      requires status.timedOut || status.detected
      modifies this, txMsg
      ensures Valid()
      ensures channelClear == ChannelClear(status)
      ensures Backoff(txSleepPeriod, nextBackoffInterval)
              == NextBackoff(Backoff(old(txSleepPeriod), old(nextBackoffInterval)), channelClear)
      ensures txMsg[..] ==
        if channelClear then old(txMsg[..])[BlinkFrameSnIdx := Inc(old(txMsg[BlinkFrameSnIdx]))] else old(txMsg[..])
      ensures txSleepPeriod >= 0
      ensures trace == old(trace) + AttemptTrace(old(txMsg[..]), channelClear, txSleepPeriod)
    {
      trace := trace + [RxEnable];
      if status.timedOut {
        channelClear := true;
        trace := trace + [Transmit(txMsg[..])];
        txSleepPeriod := TxDelayMs;
        nextBackoffInterval := InitialBackoffPeriod;
        txMsg[BlinkFrameSnIdx] := Inc(txMsg[BlinkFrameSnIdx]);
      } else {
        trace := trace + [ForceTrxOff];
        txSleepPeriod := nextBackoffInterval;
        nextBackoffInterval := nextBackoffInterval + 1;
        channelClear := false;
      }
      trace := trace + [Delay(txSleepPeriod)];
    }
  }
}
