// The DW1000 driver as the example programs see it. Every driver call that
// matters to the examples' logic is recorded as one Action in a trace; what
// the radio answers (a received frame, an error or timeout, a calibration
// value) comes in as a parameter chosen by the environment.
module Radio {
  import opened Bytes

  /** Status-register event groups that the examples clear after polling. */
  datatype StatusEvents =
    | TxFrameSent         // SYS_STATUS_TXFRS
    | RxGoodFrame         // SYS_STATUS_RXFCG
    | RxErrorsOrTimeouts  // SYS_STATUS_ALL_RX_TO | SYS_STATUS_ALL_RX_ERR
    | RxErrors            // SYS_STATUS_ALL_RX_ERR

  /** The two sleep configurations the low-power listener switches between. */
  datatype SleepConfig =
    | WakeOnSleepCounterRxOn  // preserve config, RX on wake; wake by the sleep counter
    | WakeOnChipSelect        // preserve config; wake by holding SPI chip select low

  datatype Action =
    | Transmit(frame: seq<byte>)      // dwt_writetxdata + dwt_writetxfctrl + dwt_starttx
    | RxEnable                        // dwt_rxenable(DWT_START_RX_IMMEDIATE)
    | ClearStatus(events: StatusEvents)
    | ForceTrxOff
    | ConfigureSleep(config: SleepConfig)
    | SetLowPowerListening            // dwt_setlowpowerlistening(1)
    | EnterSleep
    | SpiCsWakeup
    | Delay(ms: nat)                  // Sleep(ms) on the host

  /** What one poll of the status register after enabling the receiver yields. */
  datatype RxOutcome =
    | FrameReceived(frame: seq<byte>)  // RXFCG: a good frame of length |frame|
    | ReceiveFailed                    // an RX error or timeout bit

  /** `dwt_readrxdata(buffer, |frame|, 0)`: the received frame overwrites the
      start of the buffer and the rest of the buffer keeps its bytes. */
  function ReadInto(buffer: seq<byte>, frame: seq<byte>): (after: seq<byte>)
    requires |frame| <= |buffer|
    ensures |after| == |buffer|
    ensures forall i | 0 <= i < |buffer| :: after[i] == if i < |frame| then frame[i] else buffer[i]
  {
    frame + buffer[|frame|..]
  }

  /** The frames put on the air, in order. */
  function Transmitted(trace: seq<Action>): seq<seq<byte>>
  {
    if trace == [] then []
    else
      (if trace[0].Transmit? then [trace[0].frame] else []) + Transmitted(trace[1..])
  }

  /** The host delays, in order. */
  function Delays(trace: seq<Action>): seq<nat>
  {
    if trace == [] then []
    else
      (if trace[0].Delay? then [trace[0].ms] else []) + Delays(trace[1..])
  }

  /** Both projections distribute over concatenation of traces. */
  lemma {:induction false} ProjectionsAppend(a: seq<Action>, b: seq<Action>)
    ensures Transmitted(a + b) == Transmitted(a) + Transmitted(b)
    ensures Delays(a + b) == Delays(a) + Delays(b)
    decreases |a|
  {
    if a != [] {
      assert (a + b)[0] == a[0];
      assert (a + b)[1..] == a[1..] + b;
      ProjectionsAppend(a[1..], b);
    } else {
      assert a + b == b;
    }
  }

  /** The projections of a trace, computed one action at a time from its end. */
  lemma {:induction false} ProjectionsSuffixes(t: seq<Action>)
    ensures forall k {:trigger t[k]} | 0 <= k < |t| ::
      Transmitted(t[k..]) == (if t[k].Transmit? then [t[k].frame] else []) + Transmitted(t[k + 1..])
    ensures forall k {:trigger t[k]} | 0 <= k < |t| ::
      Delays(t[k..]) == (if t[k].Delay? then [t[k].ms] else []) + Delays(t[k + 1..])
  {
    forall k | 0 <= k < |t|
      ensures Transmitted(t[k..]) == (if t[k].Transmit? then [t[k].frame] else []) + Transmitted(t[k + 1..])
      ensures Delays(t[k..]) == (if t[k].Delay? then [t[k].ms] else []) + Delays(t[k + 1..])
    {
      assert t[k..][1..] == t[k + 1..];
    }
  }
}
