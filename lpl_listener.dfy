// The low-power listening receiver (ex_08a). The radio sleeps, samples the
// air twice per duty cycle, and on a good frame the driver's low-power
// listening interrupt hands the frame to `rx_ok_cb`. The callback accepts a
// wake-up frame into a one-frame mailbox (`rx_buffer` plus the `rx_frame`
// flag) or re-arms listening. The main loop disposes of an accepted frame:
// sleep until the end of the wake-up sequence and answer it, or sleep past
// the sequence and the interaction that follows it.
module LowPowerListenRx {
  import opened Bytes
  import opened Radio
  import SleepScheduler

  /** Crystal frequency, in hertz. */
  const XtalFreqHz: nat := 38400000
  /** Wanted duration of the "long sleep" phase, in milliseconds. */
  const LongSleepTimeMs: nat := 1500
  /** Upper bound on the interaction after a wake-up sequence, in milliseconds. */
  const InteractionPeriodMaxTimeMs: nat := 50
  /** Duration of one wake-up frame plus inter-frame spacing, in microseconds. */
  const WusFrameTimeUs: nat := 1130
  /** Length of a wake-up frame, check-sum included. */
  const WusFrameLen: nat := 14

  /** Field offsets in an IEEE 802.15.4-2011 data frame with 16-bit addresses
      and PAN ID compression (section 5.2.2.2), and in the wake-up payload. */
  const SeqNbIdx: nat := 2
  const PanIdIdx: nat := 3
  const DestAddrIdx: nat := 5
  const SrcAddrIdx: nat := 7
  const AppFcodeIdx: nat := 9
  const WusCountdownIdx: nat := 10

  /** Application code of a wake-up sequence frame. */
  const WakeUpAppCode: byte := 0xE0

  /** The 12-byte answer to a wake-up sequence: frame control 0x8841,
      sequence number, PAN ID 0xDECA, destination "XT", source "XR",
      application code 0xE1 and two check-sum bytes filled by the radio. */
  const InitialInteractionMsg: seq<byte> :=
    [0x41, 0x88, 0, 0xCA, 0xDE, AsciiX, AsciiT, AsciiX, AsciiR, 0xE1, 0, 0]

  /** A 16-bit frame field, low octet first (IEEE 802.15.4 byte order). */
  function Field16(frame: seq<byte>, i: nat): (v: nat)
    requires i + 1 < |frame|
    ensures v < U16
    ensures v % 256 == frame[i] as int && v / 256 == frame[i + 1] as int
  {
    frame[i + 1] as int * 256 + frame[i] as int
  }

  /** Acceptance test of the receive callback: exact length, PAN ID 0xDECA,
      source address "XT" ('X' is the low octet) and the wake-up
      application code. */
  predicate IsWakeUpFrame(frame: seq<byte>): (wake: bool)
    ensures wake <==> |frame| == WusFrameLen
                      && Field16(frame, PanIdIdx) == 0xDECA
                      && Field16(frame, SrcAddrIdx) == 0x5458
                      && frame[AppFcodeIdx] == WakeUpAppCode
  {
    |frame| == WusFrameLen
    && frame[PanIdIdx + 1] == 0xDE && frame[PanIdIdx] == 0xCA
    && frame[SrcAddrIdx + 1] == AsciiT && frame[SrcAddrIdx] == AsciiX
    && frame[AppFcodeIdx] == WakeUpAppCode
  }

  /** The wake-up sequence names this node ("XR") as its destination. */
  predicate IsAddressedToMe(frame: seq<byte>): (addressed: bool)
    requires |frame| == WusFrameLen
    ensures addressed <==> Field16(frame, DestAddrIdx) == 0x5258
  {
    frame[DestAddrIdx + 1] == AsciiR && frame[DestAddrIdx] == AsciiX
  }

  /** The countdown field read little-endian: byte 10 is the low octet. */
  function CountdownOf(frame: seq<byte>): (framesLeft: nat)
    requires |frame| == WusFrameLen
    ensures framesLeft < U16
    ensures framesLeft % 256 == frame[WusCountdownIdx] as int
    ensures framesLeft / 256 == frame[WusCountdownIdx + 1] as int
  {
    frame[WusCountdownIdx + 1] as int * 256 + frame[WusCountdownIdx] as int
  }

  /** Milliseconds until the end of the wake-up sequence, rounded down; the
      largest countdown gives 74054, well inside the `uint32` it is kept in. */
  function WakeUpEndTimeMs(framesLeft: nat): (ms: nat)
    requires framesLeft < U16
    ensures ms * 1000 <= framesLeft * WusFrameTimeUs < (ms + 1) * 1000
    ensures ms <= 74054
  {
    framesLeft * WusFrameTimeUs / 1000
  }

  /** Frequency of the low-power oscillator, from the calibration count the
      driver returns (crystal periods / 2 per oscillator period). */
  function LpOscFreq(calib: nat): (freqHz: nat)
    requires calib > 0
    ensures freqHz * calib <= XtalFreqHz / 2 < (freqHz + 1) * calib
  {
    (XtalFreqHz / 2) / calib
  }

  /** `((1500 * lp_osc_freq) / 1000) >> 12` in `uint32` arithmetic. For every
      calibration count of 7 or more the product does not wrap and the value
      is the exact formula. */
  function LongSleepCount(calib: nat): (count: nat)
    requires 0 < calib < U16
    ensures count < U32
    ensures 7 <= calib ==> count == SleepScheduler.Ticks(LongSleepTimeMs, LpOscFreq(calib))
  {
    if 7 <= calib then
      SleepScheduler.DivByLargerDivisor(XtalFreqHz / 2, 7, calib);
      assert LongSleepTimeMs * LpOscFreq(calib) < U32;
      ((LongSleepTimeMs * LpOscFreq(calib)) % U32 / 1000) / SleepScheduler.CountsPerUnit
    else
      ((LongSleepTimeMs * LpOscFreq(calib)) % U32 / 1000) / SleepScheduler.CountsPerUnit
  }

  /** The long sleep never lasts longer than 1500 ms, whatever the
      calibration count (a wrapped product only shortens it), and for counts
      of 7 or more one more counter unit would: there the count is the floor
      of the wanted duration. */
  lemma LongSleepCountFloor(calib: nat)
    requires 0 < calib < U16
    ensures LongSleepCount(calib) * SleepScheduler.CountsPerUnit * 1000 <= LongSleepTimeMs * LpOscFreq(calib)
    ensures 7 <= calib ==>
      LongSleepTimeMs * LpOscFreq(calib) < (LongSleepCount(calib) + 1) * SleepScheduler.CountsPerUnit * 1000
  {
    var wrapped := (LongSleepTimeMs * LpOscFreq(calib)) % U32;
    SleepScheduler.TicksFloor(1, wrapped);
    assert LongSleepCount(calib) == SleepScheduler.Ticks(1, wrapped);
    assert wrapped <= LongSleepTimeMs * LpOscFreq(calib);
    if 7 <= calib {
      SleepScheduler.TicksFloor(LongSleepTimeMs, LpOscFreq(calib));
    }
  }

  /** A faster oscillator (a smaller calibration count) never gives a
      smaller sleep count; the count fits the 16-bit sleep-counter register. */
  lemma LongSleepCountMonotone(calib1: nat, calib2: nat)
    requires 7 <= calib1 <= calib2 < U16
    ensures LpOscFreq(calib2) <= LpOscFreq(calib1)
    ensures LongSleepCount(calib2) <= LongSleepCount(calib1) < U16
  {
    SleepScheduler.DivByLargerDivisor(XtalFreqHz / 2, calib1, calib2);
    SleepScheduler.TicksMonotone(LongSleepTimeMs, LpOscFreq(calib2), LongSleepTimeMs, LpOscFreq(calib1));
    SleepScheduler.DivByLargerDivisor(XtalFreqHz / 2, 7, calib1);
    SleepScheduler.TicksMonotone(LongSleepTimeMs, LpOscFreq(calib1), LongSleepTimeMs, XtalFreqHz / 2 / 7);
  }

  /** Sleep configuration, low-power listening enabled, radio asleep. */
  const Rearm: seq<Action> := [ConfigureSleep(WakeOnSleepCounterRxOn), SetLowPowerListening, EnterSleep]

  /** The driver calls of one pass of the main loop once a frame is captured:
      switch to chip-select wake-up, sleep the host for the rest of the
      wake-up sequence (plus the interaction period when the sequence is for
      another node), wake the radio, send `msg` if addressed, and re-arm. */
  function DisposalTrace(frame: seq<byte>, msg: seq<byte>): (t: seq<Action>)
    requires |frame| == WusFrameLen
    ensures |t| == if IsAddressedToMe(frame) then 9 else 7
    ensures t[0] == ConfigureSleep(WakeOnChipSelect)
    ensures t[|t| - |Rearm|..] == Rearm
  {
    var endMs := WakeUpEndTimeMs(CountdownOf(frame));
    if IsAddressedToMe(frame) then
      [ConfigureSleep(WakeOnChipSelect), EnterSleep, Delay(endMs), SpiCsWakeup,
       Transmit(msg), ClearStatus(TxFrameSent)] + Rearm
    else
      [ConfigureSleep(WakeOnChipSelect), EnterSleep, Delay(endMs + InteractionPeriodMaxTimeMs), SpiCsWakeup] + Rearm
  }

  /** A captured frame addressed to this node makes the listener transmit
      `msg` exactly once after sleeping exactly until the end of the wake-up
      sequence; any other captured frame makes it transmit nothing and sleep
      past the sequence and the interaction period. */
  lemma DisposalOutcome(frame: seq<byte>, msg: seq<byte>)
    requires |frame| == WusFrameLen
    ensures var endMs := WakeUpEndTimeMs(CountdownOf(frame));
      if IsAddressedToMe(frame) then
        Transmitted(DisposalTrace(frame, msg)) == [msg] && Delays(DisposalTrace(frame, msg)) == [endMs]
      else
        Transmitted(DisposalTrace(frame, msg)) == [] &&
        Delays(DisposalTrace(frame, msg)) == [endMs + InteractionPeriodMaxTimeMs]
  {
    var t := DisposalTrace(frame, msg);
    ProjectionsSuffixes(t);
    assert t[0..] == t;
    assert t[|t|..] == [];
    assert t[0].ConfigureSleep? && t[1].EnterSleep? && t[2].Delay? && t[3].SpiCsWakeup?;
    if IsAddressedToMe(frame) {
      assert t[4].Transmit? && t[5].ClearStatus? && t[6].ConfigureSleep? && t[7].SetLowPowerListening? && t[8].EnterSleep?;
    } else {
      assert t[4].ConfigureSleep? && t[5].SetLowPowerListening? && t[6].EnterSleep?;
    }
  }

  class Listener {
    /** The receive buffer, sized to the one frame the listener handles. */
    const rxBuffer: array<byte>
    /** The interaction frame sent after a wake-up sequence for this node. */
    const interactionMsg: array<byte>
    /** Value programmed into the sleep counter for the long sleep. */
    const sleepCount: nat
    /** Mailbox flag set by the callback and cleared by the main loop. */
    var rxFrame: bool
    /** Frames that interrupted listening without being wake-up frames. */
    var nonWusFrameRxNb: int
    /** The sleep configuration last written to the radio. */
    var sleepConfig: SleepConfig
    /** Low-power listening is enabled and the radio has been put to sleep. */
    var listening: bool
    /** Driver calls made so far. */
    ghost var trace: seq<Action>

    ghost predicate Valid()
      reads this, interactionMsg
    {
      rxBuffer.Length == WusFrameLen
      && interactionMsg.Length == |InitialInteractionMsg|
      && rxBuffer != interactionMsg
      && 0 <= nonWusFrameRxNb < U32
      && (forall i | 0 <= i < interactionMsg.Length && i != SeqNbIdx :: interactionMsg[i] == InitialInteractionMsg[i])
    }

    /** Listening is armed and the mailbox is empty. */
    ghost predicate Armed()
      reads this
    {
      !rxFrame && listening && sleepConfig == WakeOnSleepCounterRxOn
    }

    /** The mailbox holds one wake-up frame and the radio stays idle until
        the main loop has disposed of it. */
    ghost predicate Captured()
      reads this, rxBuffer
    {
      rxFrame && !listening && IsWakeUpFrame(rxBuffer[..])
    }

    /** Start-up after initialisation: program the long sleep from the
        oscillator calibration `calib`, then arm low-power listening. */
    constructor (calib: nat)
      requires 0 < calib < U16
      ensures Valid() && Armed()
      ensures fresh(rxBuffer) && fresh(interactionMsg)
      ensures sleepCount == LongSleepCount(calib)
      ensures interactionMsg[..] == InitialInteractionMsg
      ensures nonWusFrameRxNb == 0
      ensures trace == Rearm
    {
      rxBuffer := new byte[WusFrameLen];
      interactionMsg := new byte[|InitialInteractionMsg|](i requires 0 <= i < |InitialInteractionMsg| => InitialInteractionMsg[i]);
      sleepCount := LongSleepCount(calib);
      rxFrame := false;
      nonWusFrameRxNb := 0;
      sleepConfig := WakeOnSleepCounterRxOn;
      listening := true;
      trace := Rearm;
    }

    /** A good frame delivered by the low-power listening interrupt (which
        leaves listening mode) to `rx_ok_cb`. A frame of the wake-up length is
        copied into `rxBuffer`; if it also has the wake-up signature the flag
        is raised and the radio stays idle, otherwise listening is re-armed and
        the drop counter rises by one (modulo 2^32). */
    method OnRxOk(frame: seq<byte>)
      requires Valid()
      modifies this, rxBuffer
      ensures Valid()
      ensures rxBuffer[..] == if |frame| == WusFrameLen then frame else old(rxBuffer[..])
      ensures rxFrame == (old(rxFrame) || IsWakeUpFrame(frame))
      ensures |frame| != WusFrameLen ==> rxFrame == old(rxFrame)
      ensures listening == !rxFrame
      ensures nonWusFrameRxNb == if rxFrame then old(nonWusFrameRxNb) else (old(nonWusFrameRxNb) + 1) % U32
      ensures trace == old(trace) + if rxFrame then [] else [SetLowPowerListening, EnterSleep]
      ensures sleepConfig == old(sleepConfig) && interactionMsg[..] == old(interactionMsg[..])
      ensures old(Armed()) ==> if IsWakeUpFrame(frame) then Captured() else Armed()
    {
      listening := false;
      if |frame| == WusFrameLen {
        forall i | 0 <= i < |frame| {
          rxBuffer[i] := frame[i];
        }
        assert rxBuffer[..] == frame;
        if rxBuffer[PanIdIdx + 1] == 0xDE && rxBuffer[PanIdIdx] == 0xCA
          && rxBuffer[SrcAddrIdx + 1] == AsciiT && rxBuffer[SrcAddrIdx] == AsciiX
          && rxBuffer[AppFcodeIdx] == WakeUpAppCode
        {
          rxFrame := true;
        }
      }
      if !rxFrame {
        trace := trace + [SetLowPowerListening, EnterSleep];
        listening := true;
        nonWusFrameRxNb := (nonWusFrameRxNb + 1) % U32;
      }
    }

    /** One pass of the main loop after it has seen the flag: decode the
        countdown, sleep, answer only a sequence addressed to this node
        (then advance the answer's sequence number modulo 256), restore the
        listening configuration and clear the flag. */
    method DisposeCapturedFrame()
      requires Valid() && rxFrame
      modifies this, interactionMsg
      ensures Valid() && Armed()
      ensures trace == old(trace) + DisposalTrace(old(rxBuffer[..]), old(interactionMsg[..]))
      ensures interactionMsg[..] ==
        if IsAddressedToMe(old(rxBuffer[..]))
        then old(interactionMsg[..])[SeqNbIdx := Inc(old(interactionMsg[SeqNbIdx]))]
        else old(interactionMsg[..])
      ensures rxBuffer[..] == old(rxBuffer[..]) && nonWusFrameRxNb == old(nonWusFrameRxNb)
    {
      sleepConfig := WakeOnChipSelect;
      trace := trace + [ConfigureSleep(WakeOnChipSelect)];
      var framesLeft := rxBuffer[WusCountdownIdx + 1] as int * 256 + rxBuffer[WusCountdownIdx] as int;
      var endMs := framesLeft * WusFrameTimeUs / 1000;
      assert framesLeft == CountdownOf(rxBuffer[..]);
      if rxBuffer[DestAddrIdx + 1] == AsciiR && rxBuffer[DestAddrIdx] == AsciiX {
        trace := trace + [EnterSleep, Delay(endMs), SpiCsWakeup];
        trace := trace + [Transmit(interactionMsg[..]), ClearStatus(TxFrameSent)];
        interactionMsg[SeqNbIdx] := Inc(interactionMsg[SeqNbIdx]);
      } else {
        var sleepTimeMs := endMs + InteractionPeriodMaxTimeMs;
        trace := trace + [EnterSleep, Delay(sleepTimeMs), SpiCsWakeup];
      }
      sleepConfig := WakeOnSleepCounterRxOn;
      listening := true;
      trace := trace + Rearm;
      rxFrame := false;
    }
  }
}
