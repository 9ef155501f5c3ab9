// Receiver that answers blinks (ex_03b). The receiver is re-enabled on every
// pass of the main loop. A good frame is read into a 127-byte buffer when it
// fits; when it is the 14-byte ISO/IEC 24730-62 blink that asks for a
// response, the 64-bit source address of the blink becomes the destination
// of a 21-byte activity-control data frame, which is sent at once.
module RxSendResp {
  import opened Bytes
  import opened Radio

  /** IEEE 802.15.4 maximum frame length; longer frames are not read. */
  const FrameLenMax: nat := 127
  const BlinkFrameLen: nat := 14
  const BlinkFrameSrcIdx: nat := 2
  const DataFrameSnIdx: nat := 2
  const DataFrameDestIdx: nat := 5
  /** Length of a 64-bit address in bytes. */
  const AddressLen: nat := 8

  /** The 21-byte response: frame control 0x8C41 (data, 64-bit destination,
      16-bit source), sequence number, application ID 0x609A, an 8-byte
      destination, source "DW", function code 0x10 (activity control),
      activity code 0x00 (finished), blink rate and two check-sum bytes. */
  const InitialTxMsg: seq<byte> :=
    [0x41, 0x8C, 0, 0x9A, 0x60, 0, 0, 0, 0, 0, 0, 0, 0, 68, 87, 0x10, 0x00, 0, 0, 0, 0]

  /** A blink of the "TX then wait for a response" sender: 14 bytes, frame
      type 0xC5, and the two bytes announcing that a response is listened for.
      Such a blink carries its whole 64-bit source address. */
  predicate IsExpectedBlink(frame: seq<byte>): (blink: bool)
    ensures blink <==> |frame| == BlinkFrameLen && frame[..1] == [0xC5] && frame[10..12] == [0x43, 0x02]
    ensures blink ==> |frame| >= BlinkFrameSrcIdx + AddressLen
  {
    |frame| == BlinkFrameLen && frame[0] == 0xC5 && frame[10] == 0x43 && frame[11] == 0x02
  }

  /** The check as the source writes it: on the frame length reported by the
      radio and on the receive buffer (which may still hold an older frame). */
  predicate BufferHoldsExpectedBlink(buffer: seq<byte>, frameLen: nat)
    requires |buffer| == FrameLenMax
  {
    frameLen == BlinkFrameLen && buffer[0] == 0xC5 && buffer[10] == 0x43 && buffer[11] == 0x02
  }

  /** The receive buffer after a good frame: overwritten only when it fits. */
  function BufferAfter(buffer: seq<byte>, frame: seq<byte>): seq<byte>
    requires |buffer| == FrameLenMax
  {
    if |frame| <= FrameLenMax then ReadInto(buffer, frame) else buffer
  }

  /** The 64-bit destination address of a response frame. */
  function DestinationOf(msg: seq<byte>): seq<byte>
    requires |msg| == |InitialTxMsg|
  {
    msg[DataFrameDestIdx..DataFrameDestIdx + AddressLen]
  }

  /** The 64-bit source address of a blink. */
  function BlinkSourceOf(blink: seq<byte>): seq<byte>
    requires |blink| >= BlinkFrameSrcIdx + AddressLen
  {
    blink[BlinkFrameSrcIdx..BlinkFrameSrcIdx + AddressLen]
  }

  /** The response to `blink`: `msg` with bytes 5..12 replaced by bytes 2..9
      of the blink. */
  function WithDestination(msg: seq<byte>, blink: seq<byte>): (resp: seq<byte>)
    requires |msg| == |InitialTxMsg| && |blink| >= BlinkFrameSrcIdx + AddressLen
    ensures |resp| == |msg|
    ensures forall i | 0 <= i < |msg| ::
      resp[i] == if DataFrameDestIdx <= i < DataFrameDestIdx + AddressLen
                 then blink[i - DataFrameDestIdx + BlinkFrameSrcIdx] else msg[i]
  {
    msg[..DataFrameDestIdx] + BlinkSourceOf(blink) + msg[DataFrameDestIdx + AddressLen..]
  }

  /** The response is addressed to the blink's sender and keeps every other
      field of the frame. */
  lemma WithDestinationAddressesSender(msg: seq<byte>, blink: seq<byte>)
    requires |msg| == |InitialTxMsg| && |blink| >= BlinkFrameSrcIdx + AddressLen
    ensures DestinationOf(WithDestination(msg, blink)) == BlinkSourceOf(blink)
    ensures WithDestination(msg, blink)[..DataFrameDestIdx] == msg[..DataFrameDestIdx]
    ensures WithDestination(msg, blink)[DataFrameDestIdx + AddressLen..] == msg[DataFrameDestIdx + AddressLen..]
  {
    var resp := WithDestination(msg, blink);
    assert forall k | 0 <= k < AddressLen :: DestinationOf(resp)[k] == resp[DataFrameDestIdx + k];
  }

  /** Addressing a response again overrides the earlier address, and
      addressing it to its own destination changes nothing. */
  lemma WithDestinationOverrides(msg: seq<byte>, blink1: seq<byte>, blink2: seq<byte>)
    requires |msg| == |InitialTxMsg|
    requires |blink1| >= BlinkFrameSrcIdx + AddressLen && |blink2| >= BlinkFrameSrcIdx + AddressLen
    ensures WithDestination(WithDestination(msg, blink1), blink2) == WithDestination(msg, blink2)
    ensures BlinkSourceOf(blink1) == DestinationOf(msg) ==> WithDestination(msg, blink1) == msg
  {
    var a := WithDestination(WithDestination(msg, blink1), blink2);
    var b := WithDestination(msg, blink2);
    assert forall i | 0 <= i < |msg| :: a[i] == b[i];
    if BlinkSourceOf(blink1) == DestinationOf(msg) {
      var c := WithDestination(msg, blink1);
      forall i | 0 <= i < |msg|
        ensures c[i] == msg[i]
      {
        if DataFrameDestIdx <= i < DataFrameDestIdx + AddressLen {
          assert BlinkSourceOf(blink1)[i - DataFrameDestIdx] == DestinationOf(msg)[i - DataFrameDestIdx];
        }
      }
    }
  }

  /** The test on the buffer accepts exactly the expected blinks: a frame of
      14 bytes always fits and is read, so stale buffer contents never decide. */
  lemma BufferCheckSeesFrame(buffer: seq<byte>, frame: seq<byte>)
    requires |buffer| == FrameLenMax
    ensures BufferHoldsExpectedBlink(BufferAfter(buffer, frame), |frame|) <==> IsExpectedBlink(frame)
  {
    if |frame| == BlinkFrameLen {
      var after := BufferAfter(buffer, frame);
      assert after[0] == frame[0] && after[10] == frame[10] && after[11] == frame[11];
    }
  }

  /** The driver calls of one pass. */
  function IterationTrace(msg: seq<byte>, outcome: RxOutcome): seq<Action>
    requires |msg| == |InitialTxMsg|
  {
    [RxEnable]
    + if outcome.FrameReceived? then
        [ClearStatus(RxGoodFrame)]
        + (if IsExpectedBlink(outcome.frame)
           then [Transmit(WithDestination(msg, outcome.frame)), ClearStatus(TxFrameSent)]
           else [])
      else [ClearStatus(RxErrors)]
  }

  /** A pass sends one frame, addressed to the blink's sender, exactly when
      the expected blink arrived, and nothing otherwise. */
  lemma IterationResponds(msg: seq<byte>, outcome: RxOutcome)
    requires |msg| == |InitialTxMsg|
    ensures Transmitted(IterationTrace(msg, outcome)) ==
      if outcome.FrameReceived? && IsExpectedBlink(outcome.frame)
      then [WithDestination(msg, outcome.frame)] else []
    ensures Delays(IterationTrace(msg, outcome)) == []
  {
    var t := IterationTrace(msg, outcome);
    ProjectionsSuffixes(t);
    assert t[0..] == t;
    assert t[0].RxEnable? && t[1].ClearStatus?;
    if outcome.FrameReceived? && IsExpectedBlink(outcome.frame) {
      assert t[2].Transmit? && t[3].ClearStatus? && t[4..] == [];
    } else {
      assert t[2..] == [];
    }
  }

  class Responder {
    const rxBuffer: array<byte>
    /** The response frame; its destination and sequence number change. */
    const txMsg: array<byte>
    /** Driver calls made so far. */
    ghost var trace: seq<Action>

    ghost predicate Valid()
      reads this, txMsg
    {
      rxBuffer.Length == FrameLenMax && txMsg.Length == |InitialTxMsg| && rxBuffer != txMsg
      && (forall i | 0 <= i < txMsg.Length && i != DataFrameSnIdx
            && !(DataFrameDestIdx <= i < DataFrameDestIdx + AddressLen) :: txMsg[i] == InitialTxMsg[i])
    }

    constructor ()
      ensures Valid() && fresh(rxBuffer) && fresh(txMsg)
      ensures txMsg[..] == InitialTxMsg && trace == []
    {
      rxBuffer := new byte[FrameLenMax];
      txMsg := new byte[|InitialTxMsg|](i requires 0 <= i < |InitialTxMsg| => InitialTxMsg[i]);
      trace := [];
    }

    /** The copy loop: the blink's source address, byte by byte, into the
        response's destination. */
    method CopyBlinkSource()
      requires Valid()
      modifies txMsg
      ensures Valid()
      ensures txMsg[..] == WithDestination(old(txMsg[..]), rxBuffer[..])
    {
      for i := 0 to AddressLen
        invariant forall j | 0 <= j < txMsg.Length ::
          txMsg[j] == if DataFrameDestIdx <= j < DataFrameDestIdx + i
                      then rxBuffer[j - DataFrameDestIdx + BlinkFrameSrcIdx] else old(txMsg[j])
      {
        txMsg[DataFrameDestIdx + i] := rxBuffer[BlinkFrameSrcIdx + i];
      }
      assert txMsg[..] == WithDestination(old(txMsg[..]), rxBuffer[..]);
    }

    /** One pass of the main loop, `outcome` being what ended the receive poll. */
    method Iteration(outcome: RxOutcome)
      requires Valid()
      modifies this, txMsg, rxBuffer
      ensures Valid()
      ensures rxBuffer[..] ==
        if outcome.FrameReceived? then BufferAfter(old(rxBuffer[..]), outcome.frame) else old(rxBuffer[..])
      ensures var responded := outcome.FrameReceived? && IsExpectedBlink(outcome.frame);
        txMsg[..] == (if responded
                      then WithDestination(old(txMsg[..]), outcome.frame)[DataFrameSnIdx := Inc(old(txMsg[DataFrameSnIdx]))]
                      else old(txMsg[..]))
      ensures trace == old(trace) + IterationTrace(old(txMsg[..]), outcome)
    {
      trace := trace + [RxEnable];
      if outcome.FrameReceived? {
        var frameLen := |outcome.frame|;
        if frameLen <= FrameLenMax {
          forall i | 0 <= i < frameLen {
            rxBuffer[i] := outcome.frame[i];
          }
          assert rxBuffer[..] == ReadInto(old(rxBuffer[..]), outcome.frame);
        }
        trace := trace + [ClearStatus(RxGoodFrame)];
        BufferCheckSeesFrame(old(rxBuffer[..]), outcome.frame);
        if frameLen == BlinkFrameLen && rxBuffer[0] == 0xC5 && rxBuffer[10] == 0x43 && rxBuffer[11] == 0x02 {
          assert rxBuffer[..][..BlinkFrameLen] == outcome.frame;
          CopyBlinkSource();
          assert txMsg[..] == WithDestination(old(txMsg[..]), outcome.frame);
          trace := trace + [Transmit(txMsg[..]), ClearStatus(TxFrameSent)];
          txMsg[DataFrameSnIdx] := Inc(txMsg[DataFrameSnIdx]);
        }
      } else {
        trace := trace + [ClearStatus(RxErrors)];
      }
    }
  }
}
