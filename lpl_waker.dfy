// The wake-up sequence transmitter (ex_08b). Each pass of its main loop
// sends a burst of back-to-back wake-up frames whose countdown field counts
// the frames still to come, listens once for an answer, waits, and switches
// the destination address between the companion listener and a dummy node.
module LowPowerListenTx {
  import opened Bytes
  import opened Radio
  import Rx = LowPowerListenRx

  /** Frames per wake-up sequence: enough to cover one listener duty cycle. */
  const WusFrameNb: nat := 1350
  /** Delay between wake-up sequences, in milliseconds. */
  const TxDelayMs: nat := 5000
  /** Largest frame the receive buffer takes (IEEE 802.15.4 maximum). */
  const RxBufLen: nat := 127

  const SeqNbIdx: nat := 2
  const DestAddrIdx: nat := 5
  const WusCountdownIdx: nat := 10

  /** The 14-byte wake-up frame: frame control 0x8841, sequence number,
      PAN ID 0xDECA, destination "XR", source "XT", application code 0xE0,
      the countdown and two check-sum bytes filled by the radio. */
  const InitialWusMsg: seq<byte> :=
    [0x41, 0x88, 0, 0xCA, 0xDE, AsciiX, AsciiR, AsciiX, AsciiT, 0xE0, 0, 0, 0, 0]

  /** A wake-up frame buffer as the loop keeps it: every byte but the
      sequence number, the first destination octet and the countdown is the
      initial one, and the destination octet is 'X' or 0. */
  predicate IsWusBuffer(msg: seq<byte>)
  {
    |msg| == |InitialWusMsg|
    && (forall i | 0 <= i < |msg| && i != SeqNbIdx && i != DestAddrIdx && i != WusCountdownIdx && i != WusCountdownIdx + 1
          :: msg[i] == InitialWusMsg[i])
    && (msg[DestAddrIdx] == AsciiX || msg[DestAddrIdx] == 0)
  }

  /** Writes countdown `c` into bytes 10 (low octet) and 11 (high octet);
      the listener's decoding gives back `c` and no other byte changes. */
  function StampCountdown(msg: seq<byte>, c: nat): (stamped: seq<byte>)
    requires |msg| == Rx.WusFrameLen && c < U16
    ensures |stamped| == |msg|
    ensures Rx.CountdownOf(stamped) == c
    ensures forall i | 0 <= i < |msg| && i != WusCountdownIdx && i != WusCountdownIdx + 1 :: stamped[i] == msg[i]
  {
    msg[WusCountdownIdx := (c % 256) as byte][WusCountdownIdx + 1 := (c / 256) as byte]
  }

  /** The other direction of the round trip: stamping the decoded countdown
      gives back the frame. */
  lemma StampDecodedCountdown(msg: seq<byte>)
    requires |msg| == Rx.WusFrameLen
    ensures StampCountdown(msg, Rx.CountdownOf(msg)) == msg
  {
    var s := StampCountdown(msg, Rx.CountdownOf(msg));
    assert s[WusCountdownIdx] == msg[WusCountdownIdx];
    assert s[WusCountdownIdx + 1] == msg[WusCountdownIdx + 1];
    assert forall i | 0 <= i < |msg| :: s[i] == msg[i];
  }

  /** Frame `k` (from 0) of a burst of `n` frames started from buffer `msg`:
      countdown `n - 1 - k`, sequence number advanced `k` times. */
  function BurstFrame(msg: seq<byte>, n: nat, k: nat): (frame: seq<byte>)
    requires |msg| == Rx.WusFrameLen && k < n <= U16
    ensures |frame| == Rx.WusFrameLen
    ensures Rx.CountdownOf(frame) == n - 1 - k
    ensures frame[SeqNbIdx] as int == (msg[SeqNbIdx] as int + k) % 256
  {
    IncTimesAdds(msg[SeqNbIdx], k);
    var stamped := StampCountdown(msg, n - 1 - k);
    var frame := stamped[SeqNbIdx := IncTimes(msg[SeqNbIdx], k)];
    assert frame[WusCountdownIdx] == stamped[WusCountdownIdx] && frame[WusCountdownIdx + 1] == stamped[WusCountdownIdx + 1];
    frame
  }

  /** The buffer after `i` frames of a burst of `n` frames started from `msg`. */
  function BurstProgress(msg: seq<byte>, n: nat, i: nat): (p: seq<byte>)
    requires |msg| == Rx.WusFrameLen && i <= n <= U16
    ensures |p| == Rx.WusFrameLen
    ensures 0 < i ==> Rx.CountdownOf(p) == n - i
    ensures p[SeqNbIdx] as int == (msg[SeqNbIdx] as int + i) % 256
  {
    IncTimesAdds(msg[SeqNbIdx], i);
    if i == 0 then msg
    else
      var stamped := StampCountdown(msg, n - i);
      var p := stamped[SeqNbIdx := IncTimes(msg[SeqNbIdx], i)];
      assert p[WusCountdownIdx] == stamped[WusCountdownIdx] && p[WusCountdownIdx + 1] == stamped[WusCountdownIdx + 1];
      p
  }

  /** The driver calls of the first `i` frames of a burst of `n`: each frame
      is transmitted, then its transmit-done event is cleared. */
  function BurstTrace(msg: seq<byte>, n: nat, i: nat): seq<Action>
    requires |msg| == Rx.WusFrameLen && i <= n <= U16
  {
    if i == 0 then []
    else BurstTrace(msg, n, i - 1) + [Transmit(BurstFrame(msg, n, i - 1)), ClearStatus(TxFrameSent)]
  }

  /** One step of the burst loop: frame `i` is the buffer after `i` frames
      with countdown `n - 1 - i` stamped, and the buffer after `i + 1` frames
      is that frame with its sequence number incremented. */
  lemma BurstStep(msg: seq<byte>, n: nat, i: nat)
    requires |msg| == Rx.WusFrameLen && i < n <= U16
    ensures BurstFrame(msg, n, i) ==
      BurstProgress(msg, n, i)[WusCountdownIdx := ((n - 1 - i) % 256) as byte][WusCountdownIdx + 1 := ((n - 1 - i) / 256) as byte]
    ensures BurstProgress(msg, n, i + 1) == BurstFrame(msg, n, i)[SeqNbIdx := Inc(BurstFrame(msg, n, i)[SeqNbIdx])]
  {
    IncTimesStep(msg[SeqNbIdx], i);
    var restamped := BurstProgress(msg, n, i)[WusCountdownIdx := ((n - 1 - i) % 256) as byte][WusCountdownIdx + 1 := ((n - 1 - i) / 256) as byte];
    assert forall j | 0 <= j < |msg| :: BurstFrame(msg, n, i)[j] == restamped[j];
  }

  /** Frame `k` of a burst carries countdown `n - 1 - k` and sequence number
      `msg[2] + k` modulo 256; every other byte is the buffer's. */
  lemma BurstFrameFields(msg: seq<byte>, n: nat, k: nat)
    requires |msg| == Rx.WusFrameLen && k < n <= U16
    ensures |BurstFrame(msg, n, k)| == Rx.WusFrameLen
    ensures Rx.CountdownOf(BurstFrame(msg, n, k)) == n - 1 - k
    ensures BurstFrame(msg, n, k)[SeqNbIdx] as int == (msg[SeqNbIdx] as int + k) % 256
    ensures forall i | 0 <= i < |msg| && i != SeqNbIdx && i != WusCountdownIdx && i != WusCountdownIdx + 1
      :: BurstFrame(msg, n, k)[i] == msg[i]
  {
    IncTimesAdds(msg[SeqNbIdx], k);
    var f := BurstFrame(msg, n, k);
    var s := StampCountdown(msg, n - 1 - k);
    assert f[WusCountdownIdx] == s[WusCountdownIdx] && f[WusCountdownIdx + 1] == s[WusCountdownIdx + 1];
  }

  /** A burst of `n` frames puts exactly `n` frames on the air, frame `k`
      being `BurstFrame(msg, n, k)`; so the countdowns sent are n-1, ..., 0. */
  lemma {:induction false} BurstTransmits(msg: seq<byte>, n: nat, i: nat)
    requires |msg| == Rx.WusFrameLen && i <= n <= U16
    ensures |Transmitted(BurstTrace(msg, n, i))| == i
    ensures forall k | 0 <= k < i ::
      Transmitted(BurstTrace(msg, n, i))[k] == BurstFrame(msg, n, k)
      && Rx.CountdownOf(Transmitted(BurstTrace(msg, n, i))[k]) == n - 1 - k
    decreases i
  {
    if i > 0 {
      BurstTransmits(msg, n, i - 1);
      var last := [Transmit(BurstFrame(msg, n, i - 1)), ClearStatus(TxFrameSent)];
      ProjectionsAppend(BurstTrace(msg, n, i - 1), last);
      ProjectionsSuffixes(last);
      assert last[0].Transmit? && last[1].ClearStatus?;
      assert last[0..] == last && last[2..] == [];
      assert Transmitted(last) == [BurstFrame(msg, n, i - 1)];
      forall k | 0 <= k < i
        ensures Rx.CountdownOf(Transmitted(BurstTrace(msg, n, i))[k]) == n - 1 - k
      {
        BurstFrameFields(msg, n, k);
      }
    }
  }

  /** Every frame of a burst sent from a well-formed buffer passes the
      listener's acceptance test, is addressed to the listener exactly when
      the destination octet is 'X', and tells it to sleep
      floor((n - 1 - k) * 1130 / 1000) ms until the end of the burst. */
  lemma BurstWakesListener(msg: seq<byte>, n: nat, k: nat)
    requires IsWusBuffer(msg) && k < n <= U16
    ensures Rx.IsWakeUpFrame(BurstFrame(msg, n, k))
    ensures Rx.IsAddressedToMe(BurstFrame(msg, n, k)) <==> msg[DestAddrIdx] == AsciiX
    ensures Rx.WakeUpEndTimeMs(Rx.CountdownOf(BurstFrame(msg, n, k))) == (n - 1 - k) * Rx.WusFrameTimeUs / 1000
  {
    BurstFrameFields(msg, n, k);
    var f := BurstFrame(msg, n, k);
    assert f[3] == InitialWusMsg[3] && f[4] == InitialWusMsg[4];
    assert f[6] == InitialWusMsg[6] && f[7] == InitialWusMsg[7] && f[8] == InitialWusMsg[8];
    assert f[9] == InitialWusMsg[9] && f[5] == msg[5];
  }

  /** After a whole burst of `n` frames the buffer is still well formed,
      its sequence number has advanced by `n` modulo 256, its countdown is 0
      and its destination is unchanged. */
  lemma BurstEnd(msg: seq<byte>, n: nat)
    requires IsWusBuffer(msg) && 0 < n <= U16
    ensures var p := BurstProgress(msg, n, n);
      IsWusBuffer(p)
      && p[SeqNbIdx] as int == (msg[SeqNbIdx] as int + n) % 256
      && Rx.CountdownOf(p) == 0
      && p[DestAddrIdx] == msg[DestAddrIdx]
  {
    var p := BurstProgress(msg, n, n);
    var s := StampCountdown(msg, 0);
    assert p == s[SeqNbIdx := IncTimes(msg[SeqNbIdx], n)];
    IncTimesAdds(msg[SeqNbIdx], n);
    assert p[WusCountdownIdx] == s[WusCountdownIdx] && p[WusCountdownIdx + 1] == s[WusCountdownIdx + 1];
  }

  /** The destination octet after a burst: 'X' becomes 0, anything else 'X'. */
  function NextDestination(dest: byte): (next: byte)
    ensures next == AsciiX || next == 0
    ensures next == AsciiX <==> dest != AsciiX
  {
    if dest == AsciiX then 0 else AsciiX
  }

  /** The response wait after a burst: one receive, whose events are cleared. */
  function ResponseTrace(outcome: RxOutcome): seq<Action>
  {
    [RxEnable] + if outcome.FrameReceived? then [ClearStatus(RxGoodFrame)] else [ClearStatus(RxErrorsOrTimeouts)]
  }

  /** The receive buffer after the response wait: only a received frame of
      at most 127 bytes is read into it. */
  function AfterResponse(buffer: seq<byte>, outcome: RxOutcome): (after: seq<byte>)
    requires |buffer| == RxBufLen
    ensures |after| == RxBufLen
    ensures outcome.FrameReceived? && |outcome.frame| <= RxBufLen ==>
      after[..|outcome.frame|] == outcome.frame && after[|outcome.frame|..] == buffer[|outcome.frame|..]
    ensures !(outcome.FrameReceived? && |outcome.frame| <= RxBufLen) ==> after == buffer
  {
    if outcome.FrameReceived? && |outcome.frame| <= RxBufLen then ReadInto(buffer, outcome.frame)
    else buffer
  }

  class Waker {
    /** The wake-up frame, patched in place frame after frame. */
    const wusMsg: array<byte>
    /** Where an answer to the wake-up sequence is read. */
    const rxBuffer: array<byte>
    /** Driver calls made so far. */
    ghost var trace: seq<Action>

    ghost predicate Valid()
      reads this, wusMsg
    {
      wusMsg.Length == Rx.WusFrameLen && rxBuffer.Length == RxBufLen && wusMsg != rxBuffer
      && IsWusBuffer(wusMsg[..])
    }

    constructor ()
      ensures Valid() && fresh(wusMsg) && fresh(rxBuffer)
      ensures wusMsg[..] == InitialWusMsg && trace == []
    {
      wusMsg := new byte[|InitialWusMsg|](i requires 0 <= i < |InitialWusMsg| => InitialWusMsg[i]);
      rxBuffer := new byte[RxBufLen];
      trace := [];
    }

    /** `while (frame_counter--)` from 1350: stamp the countdown, transmit,
        wait for the transmit-done event, advance the sequence number. */
    method SendBurst()
      requires Valid()
      modifies this, wusMsg
      ensures Valid()
      ensures wusMsg[..] == BurstProgress(old(wusMsg[..]), WusFrameNb, WusFrameNb)
      ensures trace == old(trace) + BurstTrace(old(wusMsg[..]), WusFrameNb, WusFrameNb)
    {
      ghost var msg := wusMsg[..];
      var frameCounter := WusFrameNb;
      while frameCounter != 0
        invariant 0 <= frameCounter <= WusFrameNb
        invariant wusMsg[..] == BurstProgress(msg, WusFrameNb, WusFrameNb - frameCounter)
        invariant trace == old(trace) + BurstTrace(msg, WusFrameNb, WusFrameNb - frameCounter)
        decreases frameCounter
      {
        SendFrame(msg, frameCounter);
        frameCounter := frameCounter - 1;
      }
      BurstEnd(msg, WusFrameNb);
    }

    /** One pass of the burst loop with `frameCounter` frames still to send:
        the countdown is stamped, the frame goes out, and the sequence
        number advances. */
    method SendFrame(ghost msg: seq<byte>, frameCounter: nat)
      requires wusMsg.Length == Rx.WusFrameLen == |msg| && 0 < frameCounter <= WusFrameNb
      requires wusMsg[..] == BurstProgress(msg, WusFrameNb, WusFrameNb - frameCounter)
      modifies this, wusMsg
      ensures wusMsg[..] == BurstProgress(msg, WusFrameNb, WusFrameNb - frameCounter + 1)
      ensures trace == old(trace) + [Transmit(BurstFrame(msg, WusFrameNb, WusFrameNb - frameCounter)), ClearStatus(TxFrameSent)]
    {
      ghost var i := WusFrameNb - frameCounter;
      BurstStep(msg, WusFrameNb, i);
      var framesLeft := frameCounter - 1;
      wusMsg[WusCountdownIdx] := (framesLeft % 256) as byte;
      wusMsg[WusCountdownIdx + 1] := (framesLeft / 256) as byte;
      assert wusMsg[..] == BurstFrame(msg, WusFrameNb, i);
      trace := trace + [Transmit(wusMsg[..]), ClearStatus(TxFrameSent)];
      wusMsg[SeqNbIdx] := Inc(wusMsg[SeqNbIdx]);
    }

    /** Listen once for an answer; a good frame of at most 127 bytes is read
        into `rxBuffer`, an error or timeout only has its events cleared. */
    method AwaitResponse(outcome: RxOutcome)
      requires Valid()
      modifies this, rxBuffer
      ensures Valid() && wusMsg[..] == old(wusMsg[..])
      ensures trace == old(trace) + ResponseTrace(outcome)
      ensures rxBuffer[..] == AfterResponse(old(rxBuffer[..]), outcome)
    {
      trace := trace + [RxEnable];
      if outcome.FrameReceived? {
        trace := trace + [ClearStatus(RxGoodFrame)];
        var frameLen := |outcome.frame|;
        if frameLen <= RxBufLen {
          forall i | 0 <= i < frameLen {
            rxBuffer[i] := outcome.frame[i];
          }
        }
      } else {
        trace := trace + [ClearStatus(RxErrorsOrTimeouts)];
      }
    }

    /** Switch the first destination octet between 'X' and 0. */
    method ToggleDestination()
      requires Valid()
      modifies wusMsg
      ensures Valid()
      ensures wusMsg[..] == old(wusMsg[..])[DestAddrIdx := NextDestination(old(wusMsg[DestAddrIdx]))]
    {
      if wusMsg[DestAddrIdx] == AsciiX {
        wusMsg[DestAddrIdx] := 0;
      } else {
        wusMsg[DestAddrIdx] := AsciiX;
      }
    }

    /** One pass of the main loop: burst, one response wait, the 5 s delay,
        then the destination toggle. */
    method Cycle(outcome: RxOutcome)
      requires Valid()
      modifies this, wusMsg, rxBuffer
      ensures Valid()
      ensures trace == old(trace) + BurstTrace(old(wusMsg[..]), WusFrameNb, WusFrameNb)
                                   + ResponseTrace(outcome) + [Delay(TxDelayMs)]
      ensures wusMsg[..] == BurstProgress(old(wusMsg[..]), WusFrameNb, WusFrameNb)
                              [DestAddrIdx := NextDestination(old(wusMsg[DestAddrIdx]))]
      ensures rxBuffer[..] == AfterResponse(old(rxBuffer[..]), outcome)
    {
      SendBurst();
      AwaitResponse(outcome);
      trace := trace + [Delay(TxDelayMs)];
      ToggleDestination();
    }
  }

  /** One pass of the main loop advances the sequence number by
      1350 mod 256 = 70, leaves countdown 0 in the buffer and flips the
      destination between the listener and the dummy node. */
  lemma CycleEffect(msg: seq<byte>)
    requires IsWusBuffer(msg)
    ensures var after := BurstProgress(msg, WusFrameNb, WusFrameNb)[DestAddrIdx := NextDestination(msg[DestAddrIdx])];
      IsWusBuffer(after)
      && after[SeqNbIdx] as int == (msg[SeqNbIdx] as int + 70) % 256
      && Rx.CountdownOf(after) == 0
      && (after[DestAddrIdx] == AsciiX <==> msg[DestAddrIdx] != AsciiX)
  {
    BurstEnd(msg, WusFrameNb);
    var p := BurstProgress(msg, WusFrameNb, WusFrameNb);
    var after := p[DestAddrIdx := NextDestination(msg[DestAddrIdx])];
    assert after[WusCountdownIdx] == p[WusCountdownIdx] && after[WusCountdownIdx + 1] == p[WusCountdownIdx + 1];
  }
}
