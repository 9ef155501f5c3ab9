# DW1000 example programs: frame handling and bookkeeping

This project models the application logic of six DW1000 UWB example programs
for the DWM1001 board. The radio driver stays outside the model.

- **Low-power listening receiver (ex_08a).** Its interrupt callback accepts a
  14-byte wake-up frame with the right PAN ID, source and application code, and
  posts it to the main loop through a one-flag mailbox. The main loop decodes
  the little-endian countdown and converts it to milliseconds. It then either
  sleeps to the end of the wake-up sequence and sends one interaction frame,
  or sleeps past the sequence and the 50 ms interaction period. Finally it
  re-arms low-power listening. The long-sleep counter value is computed from
  the oscillator calibration.
- **Low-power listening transmitter (ex_08b).** It sends a burst of 1350
  back-to-back wake-up frames from one buffer patched in place (countdown
  1349 … 0, sequence number +1 per frame). It listens once for an answer,
  waits 5 s, and toggles the destination between the listener and a dummy
  node.
- **Acknowledged data transmitter (ex_07a).** A stop-and-wait sender with an
  IEEE 802.15.4-2011 acknowledgement check (5 bytes, frame control 0x0002,
  matching sequence number). It keeps `uint32` sent/acknowledged/retry
  counters.
- **Transmitter with clear-channel assessment (ex_01e).** A preamble timeout
  means the channel is clear: the blink is sent. A detected preamble
  cancels it and the host backs off linearly; the back-off resets on success.
- **Blink responder (ex_03b).** It validates a 14-byte blink and copies its
  8-byte source address into the destination of a 21-byte response.
- **Timed-sleep blinker (ex_01d).** It computes the 16-bit sleep count and
  sends one blink per second.

Each driver call that matters to this logic is recorded as an `Action` in a
ghost `trace`: transmit (with the frame bytes), receiver enable, status clear,
transceiver off, sleep configuration, low-power listening on, enter sleep,
chip-select wake-up, and host delay (in milliseconds). What the radio answers
comes in as a parameter: a received frame or a receive failure, the
preamble-status bits, or the calibration count. `Transmitted` and `Delays`
project a trace onto the frames sent and the delays taken.
`uint8`/`uint16`/`uint32` arithmetic is written out with explicit moduli.
Files: `bytes.dfy`, `radio.dfy` and `sleep_scheduler.dfy` are shared. Each of
the other files models one program: `lpl_listener.dfy`, `lpl_waker.dfy`,
`ack_data_tx.dfy`, `tx_with_cca.dfy`, `rx_send_resp.dfy` and
`tx_timed_sleep.dfy`.

## Model

| member | source | states |
|---|---|---|
| Bytes.Inc | examples/ex_01d_tx_timed_sleep/ex_01d_main.c:124-125 | `uint8` increment: the result is the input plus one modulo 256, and always differs from the input |
| Bytes.IncTimesAdds | examples/ex_08b_low_power_listen_tx/ex_08b_main.c:137-138 | k increments of a sequence number add k modulo 256 |
| Radio.ReadInto | examples/ex_08b_low_power_listen_tx/ex_08b_main.c:157-164 | reading a frame into a buffer overwrites exactly its first \|frame\| bytes; the rest of the buffer and its length are unchanged |
| SleepScheduler.TicksFloor | examples/ex_08a_low_power_listen_rx/ex_08a_main.c:164-166 | the sleep-count formula rounds down: the counted sleep never exceeds the wanted time, and one more unit would exceed it |
| SleepScheduler.TicksMonotone | examples/ex_08a_low_power_listen_rx/ex_08a_main.c:164-166 | the sleep count never decreases when the wanted time or the oscillator frequency grows |
| LowPowerListenRx.CountdownOf | examples/ex_08a_low_power_listen_rx/ex_08a_main.c:206 | the countdown is little-endian: byte 10 is its low octet, byte 11 its high octet, and it is below 2^16 |
| LowPowerListenRx.IsWakeUpFrame | examples/ex_08a_low_power_listen_rx/ex_08a_main.c:279-291 | a frame is accepted as a wake-up frame exactly when it is 14 bytes long, its little-endian PAN ID is 0xDECA, its source address is "XT" ('X' the low octet, 0x5458) and its application code is 0xE0 |
| LowPowerListenRx.IsAddressedToMe | examples/ex_08a_low_power_listen_rx/ex_08a_main.c:210 | a wake-up frame is for this node exactly when its little-endian destination address is "XR" ('X' the low octet, 0x5258) |
| LowPowerListenRx.WakeUpEndTimeMs | examples/ex_08a_low_power_listen_rx/ex_08a_main.c:193-207 | the wake-up end time is floor(frames × 1130 / 1000) ms, at most 74054, so it fits its `uint32` |
| LowPowerListenRx.LpOscFreq | examples/ex_08a_low_power_listen_rx/ex_08a_main.c:164 | the oscillator frequency is the floor of the half crystal frequency over the calibration count |
| LowPowerListenRx.LongSleepCount | examples/ex_08a_low_power_listen_rx/ex_08a_main.c:126-166 | the `uint32` sleep count is below 2^32, and for calibration counts of 7 or more it equals the unbounded formula |
| LowPowerListenRx.LongSleepCountFloor | examples/ex_08a_low_power_listen_rx/ex_08a_main.c:164-166 | for every calibration count the long sleep never exceeds 1500 ms (a wrapped product only shortens it); from count 7 upwards one more counter unit would exceed it |
| LowPowerListenRx.LongSleepCountMonotone | examples/ex_08a_low_power_listen_rx/ex_08a_main.c:164-166 | a larger calibration count gives a lower frequency and a sleep count no larger; the count fits 16 bits |
| LowPowerListenRx.DisposalTrace | examples/ex_08a_low_power_listen_rx/ex_08a_main.c:202-264 | disposal of a captured frame first switches the radio to chip-select wake-up and always ends by restoring sleep-counter wake-up, low-power listening and sleep; it makes 9 driver calls for a frame addressed here and 7 otherwise |
| LowPowerListenRx.DisposalOutcome | examples/ex_08a_low_power_listen_rx/ex_08a_main.c:203-264 | a captured frame addressed to this node makes it transmit the interaction frame once after sleeping exactly the wake-up end time; any other frame makes it transmit nothing and sleep that time plus 50 ms |
| LowPowerListenRx.Listener.constructor | examples/ex_08a_low_power_listen_rx/ex_08a_main.c:161-188 | start-up programs the long-sleep count from the calibration and leaves listening armed with an empty mailbox |
| LowPowerListenRx.Listener.OnRxOk | examples/ex_08a_low_power_listen_rx/ex_08a_main.c:277-301 | only a 14-byte frame is copied into the buffer; the flag is raised exactly for a wake-up frame; otherwise listening is re-armed and the drop counter rises by one modulo 2^32; from the armed state the listener ends captured or armed again |
| LowPowerListenRx.Listener.DisposeCapturedFrame | examples/ex_08a_low_power_listen_rx/ex_08a_main.c:199-264 | disposal follows the disposal trace; the interaction frame's sequence number rises by one exactly when the frame was addressed here, and no other byte changes; listening is re-armed and the flag cleared |
| LowPowerListenTx.StampCountdown | examples/ex_08b_low_power_listen_tx/ex_08b_main.c:117-119 | the stamped countdown decodes, by the listener's formula, to the value stamped; no other byte changes |
| LowPowerListenTx.StampDecodedCountdown | examples/ex_08b_low_power_listen_tx/ex_08b_main.c:118-119 | stamping a frame's own decoded countdown leaves the frame unchanged (the other direction of the round trip) |
| LowPowerListenTx.BurstFrame | examples/ex_08b_low_power_listen_tx/ex_08b_main.c:115-138 | frame k of an n-frame burst is 14 bytes long, decodes by the listener's formula to countdown n-1-k, and carries sequence number start + k modulo 256 |
| LowPowerListenTx.BurstProgress | examples/ex_08b_low_power_listen_tx/ex_08b_main.c:115-138 | after i frames of a burst the buffer is 14 bytes long, its sequence number has advanced by i modulo 256, and (once a frame was sent) its countdown is n-i |
| LowPowerListenTx.BurstFrameFields | examples/ex_08b_low_power_listen_tx/ex_08b_main.c:113-138 | frame k of an n-frame burst carries countdown n-1-k and sequence number start + k modulo 256; every other byte is the buffer's |
| LowPowerListenTx.BurstStep | examples/ex_08b_low_power_listen_tx/ex_08b_main.c:115-138 | one loop step: the frame sent is the buffer with the next countdown stamped, and the buffer after it is that frame with its sequence number incremented |
| LowPowerListenTx.BurstTransmits | examples/ex_08b_low_power_listen_tx/ex_08b_main.c:113-139 | a burst of n frames transmits exactly n frames, in order, with countdowns n-1, …, 0 |
| LowPowerListenTx.BurstWakesListener | examples/ex_08b_low_power_listen_tx/ex_08b_main.c:44-58 | every burst frame passes the listener's wake-up test, is addressed to it exactly when destination byte 5 is 'X', and makes it sleep floor((n-1-k)×1130/1000) ms |
| LowPowerListenTx.BurstEnd | examples/ex_08b_low_power_listen_tx/ex_08b_main.c:113-139 | after a whole burst the buffer is still well formed, its sequence number advanced by n modulo 256, its countdown 0 and its destination unchanged |
| LowPowerListenTx.NextDestination | examples/ex_08b_low_power_listen_tx/ex_08b_main.c:177-184 | the destination octet alternates: the result is 'X' exactly when the input is not 'X', and 0 otherwise |
| LowPowerListenTx.AfterResponse | examples/ex_08b_low_power_listen_tx/ex_08b_main.c:150-165 | after the response wait the buffer keeps its 127 bytes; a received frame of at most 127 bytes fills its first bytes and the rest is kept; after an error, a timeout or a longer frame the buffer is unchanged |
| LowPowerListenTx.Waker.constructor | examples/ex_08b_low_power_listen_tx/ex_08b_main.c:54-71 | the wake-up buffer starts as the initial frame |
| LowPowerListenTx.Waker.SendFrame | examples/ex_08b_low_power_listen_tx/ex_08b_main.c:115-138 | one pass of the burst loop: the frame sent is the burst's frame for that pass, and the buffer becomes the burst specification one frame further |
| LowPowerListenTx.Waker.SendBurst | examples/ex_08b_low_power_listen_tx/ex_08b_main.c:113-139 | the burst loop leaves the buffer and the trace as the burst specification after 1350 frames, and keeps the buffer well formed |
| LowPowerListenTx.Waker.AwaitResponse | examples/ex_08b_low_power_listen_tx/ex_08b_main.c:143-170 | one receive; a good frame of at most 127 bytes is read into the buffer; an error or timeout only clears the status; the wake-up frame is unchanged |
| LowPowerListenTx.Waker.ToggleDestination | examples/ex_08b_low_power_listen_tx/ex_08b_main.c:177-184 | only byte 5 changes, to the next destination |
| LowPowerListenTx.Waker.Cycle | examples/ex_08b_low_power_listen_tx/ex_08b_main.c:111-185 | one outer pass is burst, response wait, 5000 ms delay and destination toggle, in that order |
| LowPowerListenTx.CycleEffect | examples/ex_08b_low_power_listen_tx/ex_08b_main.c:111-185 | one outer pass keeps the buffer well formed, advances the sequence number by 1350 mod 256 = 70, leaves countdown 0 and flips the destination |
| AckDataTx.IterationTransmitsOnce | examples/ex_07a_ack_data_tx/ex_07a_main.c:124-166 | every pass transmits the current frame exactly once and waits 1000 ms exactly when it was acknowledged |
| AckDataTx.IsAckFor | examples/ex_07a_ack_data_tx/ex_07a_main.c:142-151 | a frame acknowledges sequence number s exactly when it is 5 bytes long and begins with the acknowledgement frame control 0x02 0x00 followed by s |
| AckDataTx.WrappedIncrementsAgree | examples/ex_07a_ack_data_tx/ex_07a_main.c:168-172 | the `uint8` sequence number stays equal to the `uint32` acknowledgement counter modulo 256 across an increment |
| AckDataTx.CountersStep | examples/ex_07a_ack_data_tx/ex_07a_main.c:160-178 | counting one send and exactly one of acknowledgement or retry keeps sent = acked + retried modulo 2^32 |
| AckDataTx.AckSender.constructor | examples/ex_07a_ack_data_tx/ex_07a_main.c:51-81 | all counters start at zero, the flag is down, and the frame is the initial one |
| AckDataTx.AckSender.ReceiveAck | examples/ex_07a_ack_data_tx/ex_07a_main.c:135-158 | only a 5-byte frame is read; the flag is raised exactly for an acknowledgement of the current sequence number (0x02 0x00, same number); an error or timeout only clears its status bits |
| AckDataTx.AckSender.Account | examples/ex_07a_ack_data_tx/ex_07a_main.c:160-181 | the send counter advances; on an acknowledgement the host waits 1000 ms and the sequence number and acknowledgement counter advance, otherwise the retry counter does; the flag goes down |
| AckDataTx.AckSender.Iteration | examples/ex_07a_ack_data_tx/ex_07a_main.c:120-182 | a pass counts one send and exactly one of acknowledgement or retry, keeping sent = acked + retried modulo 2^32; the sequence number advances only on an acknowledgement of the current frame (5 bytes, 0x02 0x00, same number); only a 5-byte frame is read; the flag is down again |
| TxWithCca.ChannelClear | examples/ex_01e_tx_with_cca/ex_01e_tx_with_cca.c:138 | a preamble timeout means a clear channel even when a preamble was also detected; a detected preamble without timeout means a busy channel |
| TxWithCca.NextBackoff | examples/ex_01e_tx_with_cca/ex_01e_tx_with_cca.c:144-156 | a clear channel resets the sleep to 100 ms and the back-off to 400 ms whatever came before; a busy one sleeps the pending back-off and lengthens it by 1 ms; from a back-off of at least 400 ms it stays at least 400 ms, every sleep is at least 100 ms, and it grows exactly on a busy channel |
| TxWithCca.RunSleepsBounded | examples/ex_01e_tx_with_cca/ex_01e_tx_with_cca.c:138-161 | along any run of assessments there is one sleep per assessment, every sleep is at least 100 ms, and every sleep after a busy assessment at least 400 ms |
| TxWithCca.BusyRunSleeps | examples/ex_01e_tx_with_cca/ex_01e_tx_with_cca.c:149-161 | k busy assessments in a row sleep next, next+1, …, next+k-1 |
| TxWithCca.ClearThenBusySleeps | examples/ex_01e_tx_with_cca/ex_01e_tx_with_cca.c:138-161 | a clear assessment sleeps 100 ms and resets the back-off, so the busy run after it sleeps 400, 401, … |
| TxWithCca.CcaTransmitter.constructor | examples/ex_01e_tx_with_cca/ex_01e_tx_with_cca.c:60-75 | the blink is the initial one and the back-off starts at 400 ms |
| TxWithCca.CcaTransmitter.Attempt | examples/ex_01e_tx_with_cca/ex_01e_tx_with_cca.c:125-168 | the channel is clear exactly when the preamble timed out (whatever detection says); the blink goes out and its sequence number advances only then; the back-off follows the clear/busy rule; only byte 1 ever changes |
| RxSendResp.WithDestination | examples/ex_03b_rx_send_resp/ex_03b_main.c:134-138 | the response's bytes 5..12 are the blink's bytes 2..9 and every other byte is the message's |
| RxSendResp.IsExpectedBlink | examples/ex_03b_rx_send_resp/ex_03b_main.c:130 | a frame is an expected blink exactly when it is 14 bytes long, starts with frame type 0xC5 and has 0x43 0x02 at bytes 10-11; such a frame contains the whole 8-byte source address |
| RxSendResp.WithDestinationAddressesSender | examples/ex_03b_rx_send_resp/ex_03b_main.c:134-138 | the response's destination address is the blink's source address; header and trailer are unchanged |
| RxSendResp.WithDestinationOverrides | examples/ex_03b_rx_send_resp/ex_03b_main.c:134-138 | re-addressing overrides the earlier address; addressing to the current destination changes nothing |
| RxSendResp.BufferCheckSeesFrame | examples/ex_03b_rx_send_resp/ex_03b_main.c:115-130 | the check on the buffer and reported length accepts exactly the expected blinks, so stale buffer bytes never decide |
| RxSendResp.IterationResponds | examples/ex_03b_rx_send_resp/ex_03b_main.c:104-162 | a pass transmits one response, addressed to the blink's sender, exactly when an expected blink arrived, and nothing otherwise |
| RxSendResp.Responder.constructor | examples/ex_03b_rx_send_resp/ex_03b_main.c:53-63 | the response frame starts as the initial one |
| RxSendResp.Responder.CopyBlinkSource | examples/ex_03b_rx_send_resp/ex_03b_main.c:135-138 | the copy loop leaves the frame addressed to the buffer's blink source |
| RxSendResp.Responder.Iteration | examples/ex_03b_rx_send_resp/ex_03b_main.c:104-163 | a frame of at most 127 bytes is read; only an expected blink gets a response, after which the sequence number rises by one; an error only clears the error bits |
| TxTimedSleep.LpOscFreq16 | examples/ex_01d_tx_timed_sleep/ex_01d_main.c:65-87 | the frequency stored in `uint16` is below 2^16, and for calibration counts of 293 or more it is the floor of the half crystal frequency over the count |
| TxTimedSleep.SleepCount16 | examples/ex_01d_tx_timed_sleep/ex_01d_main.c:88 | the stored sleep count is the unbounded formula for 990 ms, and at most 15 |
| TxTimedSleep.SleepEndsBeforeNextBlink | examples/ex_01d_tx_timed_sleep/ex_01d_main.c:52-88 | the counted sleep plus the 10 ms margin fits in the 1000 ms loop period |
| TxTimedSleep.IterationSendsOneBlink | examples/ex_01d_tx_timed_sleep/ex_01d_main.c:105-126 | each pass sends one blink and waits 1000 ms |
| TxTimedSleep.Blinker.constructor | examples/ex_01d_tx_timed_sleep/ex_01d_main.c:63-99 | start-up wakes the radio and programs the 16-bit sleep count from the calibration |
| TxTimedSleep.Blinker.Iteration | examples/ex_01d_tx_timed_sleep/ex_01d_main.c:105-126 | a pass transmits the blink, waits 1000 ms and advances byte 1 modulo 256; no other byte changes |

## Left out

- The `dwt_*` driver and the platform layer (SPI, reset, clock rates, LEDs, LNA/PA, radio configuration, snooze time, preamble-detect and frame-wait timeouts, interrupt masks). They are foreign code; each call appears only as an `Action`, and its answer appears as a parameter.
- Busy-wait polls of the status register. Each poll is one step that yields the event that ended it. The transmit-done polls are folded into the transmit action.
- Real time. Only the millisecond argument of each host delay is recorded.
- The race between the receive interrupt and the main loop around `rx_frame` in ex_08a. The callback is one atomic method, including the driver's low-power-listening interrupt that leaves listening mode before calling it.
- The endless `while (1)` after a failed `dwt_initialise`. Initialisation is assumed to succeed.
- Debug-only copies (`status_reg`, `frame_len`) and console output (`printk`, `console_str`).
- LowPowerListenRx.LongSleepCount: for calibration counts of 6 or less, the `uint32` product 1500 × frequency wraps. The function computes the wrapped value. The "never exceeds 1500 ms" half of the floor lemma holds for every count; its "one more unit would exceed" half and the monotonicity lemma are stated only from 7 upwards. The value passed to the 16-bit `dwt_configuresleepcnt` parameter is not truncated further; the monotonicity lemma shows that it fits from 7 upwards.
- TxTimedSleep.LpOscFreq16: the exact-quotient clause holds only from calibration count 293 upwards. Below that, the `uint16` store wraps; the function computes the wrapped value.
- LowPowerListenRx.LpOscFreq, TxTimedSleep.LpOscFreq16, LowPowerListenRx.Listener.constructor, TxTimedSleep.Blinker.constructor: require a non-zero calibration count. The source divides by it unchecked, and in C a division by zero has no defined result.
- TxWithCca.NextBackoff: the `int` increment of `next_backoff_interval` is unbounded here. Overflow after about 2^31 consecutive busy assessments is not modelled.
- TxWithCca.CcaTransmitter.Attempt: ex_01e queues the transmission before the assessment, and `dwt_forcetrxoff` cancels it when a preamble is detected. The trace records only the outcome: a transmission on a clear channel, and the transceiver-off call on a busy one.
- The check-sum bytes. A `Transmit` action carries the whole buffer; the radio replaces its last two bytes with the check-sum.
- The receive length masks: `RX_FINFO_RXFL_MASK_1023` (10 bits) in ex_07a and ex_03b, and `RX_FINFO_RXFLEN_MASK` (7 bits) in ex_08b, which configures the extended PHY header mode (`DWT_PHRMODE_EXT`). A received frame's length is taken to be the length reported.
