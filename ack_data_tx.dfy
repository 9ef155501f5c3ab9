// Stop-and-wait data transmitter (ex_07a). Each pass of the main loop sends
// the data frame with an acknowledgement request, listens for the answer,
// and either moves on to the next sequence number (acknowledged) or sends
// the same frame again (anything else).
module AckDataTx {
  import opened Bytes
  import opened Radio

  /** Delay after an acknowledged frame, in milliseconds. */
  const TxDelayMs: nat := 1000
  /** Length of an IEEE 802.15.4-2011 acknowledgement frame (section 5.2.2.3),
      check-sum included. */
  const AckFrameLen: nat := 5
  const FrameFcIdx: nat := 0
  const FrameSnIdx: nat := 2
  /** Frame control of an acknowledgement frame, low octet first. */
  const AckFc0: byte := 0x02
  const AckFc1: byte := 0x00

  /** The 21-byte data frame: frame control 0x8861 (data, acknowledgement
      requested, 16-bit addresses), sequence number, PAN ID 0xDECA,
      destination "XR", source "XT", the payload "macpayload" and two
      check-sum bytes filled by the radio. */
  const InitialTxMsg: seq<byte> :=
    [0x61, 0x88, 0, 0xCA, 0xDE, AsciiX, AsciiR, AsciiX, AsciiT,
     109, 97, 99, 112, 97, 121, 108, 111, 97, 100, 0, 0]

  /** The acknowledgement test: exactly 5 bytes, frame control 0x0002 and
      the sequence number of the frame just sent: the frame is an
      acknowledgement header naming `seqNb`, followed by a check-sum. */
  predicate IsAckFor(frame: seq<byte>, seqNb: byte): (ack: bool)
    ensures ack <==> |frame| == AckFrameLen && frame[..FrameSnIdx + 1] == [AckFc0, AckFc1, seqNb]
  {
    |frame| == AckFrameLen
    && frame[FrameFcIdx] == AckFc0 && frame[FrameFcIdx + 1] == AckFc1
    && frame[FrameSnIdx] == seqNb
  }

  /** The outcome of one receive acknowledges the frame numbered `seqNb`. */
  predicate AckReceived(outcome: RxOutcome, seqNb: byte)
  {
    outcome.FrameReceived? && IsAckFor(outcome.frame, seqNb)
  }

  /** The driver calls of one pass: transmit `msg` (the receiver is turned on
      right after), clear the receive events, and wait only after an ACK. */
  function IterationTrace(msg: seq<byte>, outcome: RxOutcome, acked: bool): seq<Action>
  {
    [Transmit(msg)]
    + (if outcome.FrameReceived? then [ClearStatus(RxGoodFrame)] else [ClearStatus(RxErrorsOrTimeouts)])
    + (if acked then [Delay(TxDelayMs)] else [])
  }

  /** Every pass puts the current frame on the air exactly once, and waits
      1000 ms exactly when the frame was acknowledged. */
  lemma IterationTransmitsOnce(msg: seq<byte>, outcome: RxOutcome, acked: bool)
    ensures Transmitted(IterationTrace(msg, outcome, acked)) == [msg]
    ensures Delays(IterationTrace(msg, outcome, acked)) == if acked then [TxDelayMs] else []
  {
    var t := IterationTrace(msg, outcome, acked);
    ProjectionsSuffixes(t);
    assert t[0..] == t;
    assert t[0].Transmit? && t[1].ClearStatus?;
    if acked {
      assert t[2].Delay? && t[3..] == [];
    } else {
      assert t[2..] == [];
    }
  }

  /** A `uint32` counter and a `uint8` sequence number that advance together
      stay equal modulo 256, because 2^32 is a multiple of 256. */
  lemma {:induction false} WrappedIncrementsAgree(counter: int, seqNb: byte)
    requires 0 <= counter < U32 && seqNb as int == counter % 256
    ensures Inc(seqNb) as int == ((counter + 1) % U32) % 256
  {
    if counter + 1 == U32 {
      assert counter % 256 == 255;
    } else {
      assert (counter + 1) % U32 == counter + 1;
    }
  }

  /** One pass of the counters: the send counter and exactly one of the
      acknowledgement and retry counters advance (each a `uint32`), so the
      send counter stays their wrapped sum. */
  lemma CountersStep(sent: int, acked: int, retried: int, ack: bool)
    requires 0 <= sent < U32 && 0 <= acked < U32 && 0 <= retried < U32
    requires sent == (acked + retried) % U32
    ensures var acked' := if ack then (acked + 1) % U32 else acked;
      var retried' := if ack then retried else (retried + 1) % U32;
      (sent + 1) % U32 == (acked' + retried') % U32
  {
    var s := acked + retried;
    if s + 1 < U32 {
      assert sent == s;
    } else if s + 1 == U32 {
      assert sent == s;
    } else {
      assert sent == s - U32;
    }
  }

  class AckSender {
    /** The data frame; only its sequence number changes. */
    const txMsg: array<byte>
    /** Where an acknowledgement of the right length is read. */
    const rxBuffer: array<byte>
    /** Whether the frame of the current pass was acknowledged. */
    var txFrameAcked: bool
    /** Frames sent, frames acknowledged and retransmissions (`uint32`). */
    var txFrameNb: int
    var txFrameAckNb: int
    var txFrameRetryNb: int
    /** Driver calls made so far. */
    ghost var trace: seq<Action>

    /** Every send was acknowledged or retried; the sequence number counts
        the acknowledgements modulo 256; the frame is the initial one but for
        its sequence number. */
    ghost predicate Consistent()
      reads this, txMsg
    {
      txMsg.Length == |InitialTxMsg| && rxBuffer.Length == AckFrameLen && txMsg != rxBuffer
      && 0 <= txFrameNb < U32 && 0 <= txFrameAckNb < U32 && 0 <= txFrameRetryNb < U32
      && txFrameNb == (txFrameAckNb + txFrameRetryNb) % U32
      && txMsg[FrameSnIdx] as int == txFrameAckNb % 256
      && (forall i | 0 <= i < txMsg.Length && i != FrameSnIdx :: txMsg[i] == InitialTxMsg[i])
    }

    /** The invariant at the top of the loop: consistent, flag down. */
    ghost predicate Valid()
      reads this, txMsg
    {
      Consistent() && !txFrameAcked
    }

    constructor ()
      ensures Valid() && fresh(txMsg) && fresh(rxBuffer)
      ensures txMsg[..] == InitialTxMsg
      ensures txFrameNb == 0 && txFrameAckNb == 0 && txFrameRetryNb == 0 && trace == []
    {
      txMsg := new byte[|InitialTxMsg|](i requires 0 <= i < |InitialTxMsg| => InitialTxMsg[i]);
      rxBuffer := new byte[AckFrameLen];
      txFrameAcked := false;
      txFrameNb, txFrameAckNb, txFrameRetryNb := 0, 0, 0;
      trace := [];
    }

    /** The receive half of a pass: a 5-byte frame is read into `rxBuffer`
        and the flag is raised exactly for an acknowledgement of the current
        sequence number. */
    method ReceiveAck(outcome: RxOutcome)
      requires Valid()
      modifies this, rxBuffer
      ensures Consistent()
      ensures txFrameAcked == AckReceived(outcome, txMsg[FrameSnIdx])
      ensures txFrameNb == old(txFrameNb) && txFrameAckNb == old(txFrameAckNb) && txFrameRetryNb == old(txFrameRetryNb)
      ensures trace == old(trace) + if outcome.FrameReceived? then [ClearStatus(RxGoodFrame)] else [ClearStatus(RxErrorsOrTimeouts)]
      ensures rxBuffer[..] ==
        if outcome.FrameReceived? && |outcome.frame| == AckFrameLen then outcome.frame else old(rxBuffer[..])
    {
      if outcome.FrameReceived? {
        trace := trace + [ClearStatus(RxGoodFrame)];
        var frameLen := |outcome.frame|;
        if frameLen == AckFrameLen {
          forall i | 0 <= i < frameLen {
            rxBuffer[i] := outcome.frame[i];
          }
          assert rxBuffer[..] == outcome.frame;
          if rxBuffer[FrameFcIdx] == AckFc0 && rxBuffer[FrameFcIdx + 1] == AckFc1
            && rxBuffer[FrameSnIdx] == txMsg[FrameSnIdx]
          {
            txFrameAcked := true;
          }
        }
      } else {
        trace := trace + [ClearStatus(RxErrorsOrTimeouts)];
      }
    }

    /** The bookkeeping half of a pass: count the send, then either wait,
        advance the sequence number and count an acknowledgement, or count a
        retry; the flag goes down. */
    method Account()
      requires Consistent()
      modifies this, txMsg
      ensures Valid()
      ensures var acked := old(txFrameAcked);
        trace == old(trace) + (if acked then [Delay(TxDelayMs)] else [])
        && txMsg[..] == (if acked then old(txMsg[..])[FrameSnIdx := Inc(old(txMsg[FrameSnIdx]))] else old(txMsg[..]))
        && txFrameNb == (old(txFrameNb) + 1) % U32
        && txFrameAckNb == (if acked then (old(txFrameAckNb) + 1) % U32 else old(txFrameAckNb))
        && txFrameRetryNb == (if acked then old(txFrameRetryNb) else (old(txFrameRetryNb) + 1) % U32)
    {
      CountersStep(txFrameNb, txFrameAckNb, txFrameRetryNb, txFrameAcked);
      txFrameNb := (txFrameNb + 1) % U32;

      if txFrameAcked {
        trace := trace + [Delay(TxDelayMs)];
        WrappedIncrementsAgree(txFrameAckNb, txMsg[FrameSnIdx]);
        txMsg[FrameSnIdx] := Inc(txMsg[FrameSnIdx]);
        txFrameAckNb := (txFrameAckNb + 1) % U32;
      } else {
        txFrameRetryNb := (txFrameRetryNb + 1) % U32;
      }

      txFrameAcked := false;
    }

    /** One pass of the main loop, `outcome` being what the receiver reported
        after the transmission. An acknowledgement of the current sequence
        number advances it; anything else (another frame, an error, a timeout)
        counts as a retry and leaves the frame as it was for the next pass. */
    method Iteration(outcome: RxOutcome)
      requires Valid()
      modifies this, txMsg, rxBuffer
      ensures Valid()
      ensures var acked := AckReceived(outcome, old(txMsg[FrameSnIdx]));
        trace == old(trace) + IterationTrace(old(txMsg[..]), outcome, acked)
        && txMsg[..] == (if acked then old(txMsg[..])[FrameSnIdx := Inc(old(txMsg[FrameSnIdx]))] else old(txMsg[..]))
        && txFrameNb == (old(txFrameNb) + 1) % U32
        && txFrameAckNb == (if acked then (old(txFrameAckNb) + 1) % U32 else old(txFrameAckNb))
        && txFrameRetryNb == (if acked then old(txFrameRetryNb) else (old(txFrameRetryNb) + 1) % U32)
      ensures rxBuffer[..] ==
        if outcome.FrameReceived? && |outcome.frame| == AckFrameLen then outcome.frame else old(rxBuffer[..])
    {
      trace := trace + [Transmit(txMsg[..])];
      ReceiveAck(outcome);
      Account();
    }
  }
}
