# Q-Source 3 link: RS-485 transport and query protocol

This project models the link between an Arduino Due and the Janas Q-Source 3
quadrupole RF source. It has two layers.

- **The byte transport `RTOS_Stream`** (`rtos_stream.dfy`, with the framing
  rules stated on values in `framing.dfy`).
  - A transmit worker drains a FreeRTOS message buffer into the UART.
  - A receive worker assembles UART bytes into frames that end at a
    terminator or fill the assembly buffer. It publishes each frame into a
    second message buffer.
  - Tasks read whole frames from that buffer with `readBytesUntil`.
  - The class `RtosStreams.RtosStream` keeps the source's state as fields:
    the assembly buffer (an `array`), its cursor, and each message buffer as
    an "exists" flag plus a FIFO of messages.
  - Its methods are proved against the functions `Framing.Assemble` and
    `Framing.CopyCount`.
- **The driver `JanasCardQSource3`** (`qsource3.dfy`, with the pure parts in
  `commands.dfy` and `decimal.dfy`).
  - Each call drains stale input, sends a command line such as `#DC1 250`
    followed by `\r`, and reads one reply frame.
  - Setters succeed when the reply starts with `OK`. Getters decode the
    reply's leading decimal number, or answer -1 when the reply text is empty
    (no reply, no receive buffer, or a reply that starts with `\r`).
  - Command lines are values of `Commands.Command`, encoded by
    `Commands.Encode`. A reference decoder `Commands.Decode` shows that each
    line carries exactly the mnemonic and arguments it was built from.
  - `%d` formatting (`Decimal.FormatInt`) and base-10 `strtol`
    (`Decimal.ParseLong`, 32-bit `long` as on the Due) are related in one
    direction: `ParseLong(FormatInt(v) + u) == v` for every 32-bit `v` and
    every tail `u` that does not start with a digit. The converse
    (formatting what was parsed) is not stated.

The integer types follow the target. `int32_t` and `uint32_t` are the
subset types `int32` and `uint32`. The conversion the source applies when it
passes a `uint32_t` to an `int32_t` parameter is written out in
`Decimal.AsInt32`. Bytes are `bv8`.

Three things are parameters because other tasks or the hardware decide them:
- the frame that arrives while a task waits on an empty receive buffer (`arriving`/`reply`; `None` is a timeout);
- whether FreeRTOS could allocate a message buffer (`Init`'s flags);
- the bytes waiting in the UART (`Uart.incoming`).

Where the design notes and the code disagree, the model follows the code:

- `read()` answers the LENGTH of the message it takes off the receive buffer
  (src/rtos_stream.cpp:92-95), not a byte. `RtosStream.Read` returns that count.
- On the terminated path, the published frame INCLUDES the terminator: it is
  stored before the buffer is published (src/rtos_stream.cpp:178-198).
  `readBytesUntil` strips it again. `Framing.FrameRoundTrip` proves that the
  caller still gets exactly the bytes before the terminator.
- An overflow frame has length equal to the capacity, not less than it.

## Model

| member | source | states |
|---|---|---|
| `RtosStreams.ReceiveFifo` | src/rtos_stream.cpp:121-124 | the message buffer is first in, first out: a message appended (by `Write` or `WorkRx`) behind others is received only after them and stays last; one appended to an empty buffer is the next one received |
| `RtosStreams.RtosStream.constructor` | src/rtos_stream.cpp:7-11 | a new stream keeps its UART, owns a fresh empty assembly buffer of RX_BUFFER_LENGTH bytes, and has no message buffers yet |
| `RtosStreams.RtosStream.Init` | src/rtos_stream.cpp:13-33 | it creates each missing buffer and does not try the receive buffer when the transmit buffer fails; it succeeds iff both exist; once both exist it changes nothing and succeeds |
| `RtosStreams.RtosStream.Write` | src/rtos_stream.cpp:35-66 | the string holds no NUL (it is a C string); a NULL string or a missing transmit buffer sends nothing and answers 0; otherwise the string is appended as one message and its length is answered |
| `RtosStreams.RtosStream.Available` | src/rtos_stream.cpp:68-72 | true exactly when the receive buffer exists and holds a message |
| `RtosStreams.RtosStream.ReceiveRx` | src/rtos_stream.cpp:92-95 | the task-context receive on the receive buffer, as `Receive` describes, never longer than RX_BUFFER_LENGTH |
| `RtosStreams.RtosStream.Read` | src/rtos_stream.cpp:74-96 | with no receive buffer: 0 and nothing consumed; otherwise one message is consumed and its length answered |
| `RtosStreams.RtosStream.ReadBytesUntil` | src/rtos_stream.cpp:98-138 | it receives one message; the count equals `CopyCount` (bounded by length, message and capacity, stopping at the first terminator); exactly those bytes are copied and the rest of the caller's buffer is untouched; with no receive buffer nothing happens |
| `RtosStreams.RtosStream.WorkTx` | src/rtos_stream.cpp:140-160 | the oldest transmit message is written byte for byte to the UART and dequeued; with no buffer, an empty one, or a message longer than RX_BUFFER_LENGTH, nothing changes |
| `RtosStreams.RtosStream.WorkRx` | src/rtos_stream.cpp:162-203 | exactly the bytes `Assemble` takes are consumed from the UART; the assembly buffer ends as `Assemble` says; a completed frame is appended to the receive buffer if it exists and the cursor resets |
| `Framing.CopyCount` | src/rtos_stream.cpp:128-132 | the count is within all three bounds; no terminator comes before it; when it stops short of the bound, it stops at a terminator |
| `Framing.Copied` | src/rtos_stream.cpp:128-132 | the copied bytes are a prefix of the message, fit the caller's length and the capacity, and hold no terminator |
| `Framing.Assemble` | src/rtos_stream.cpp:174-202 | one run takes at least one byte and never overfills the buffer; it publishes iff it took the terminator or filled the buffer, and then the frame is the old contents plus the taken bytes and the buffer empties; otherwise it took every waiting byte and keeps them |
| `Framing.AssembleFrame` | src/rtos_stream.cpp:174-202 | a published frame is 1 to capacity bytes; a terminated frame ends with its only terminator; an overflow frame is exactly capacity bytes with no terminator |
| `Framing.AssembleOverflow` | src/rtos_stream.cpp:175-188 | with at least the free room waiting and no terminator in it, exactly the room is taken and a capacity-length frame is published |
| `Framing.FrameRoundTrip` | src/rtos_stream.cpp:128-132 | a terminated frame from the receive worker, read with a large enough buffer, yields exactly the bytes before the terminator |
| `Decimal.AsInt32` | src/JanasCardQSource3.cpp:201 | a `uint32_t` passed as `int32_t` keeps its value up to 2^31-1 and is 2^32 less (negative) above |
| `Decimal.FormatInt` | src/JanasCardQSource3.cpp:121 | `%d` text (also at lines 129, 144, 162 and 204) is nonempty, starts with `-` iff the value is negative, and is digits after the sign; `Decimal.ParseFormatted` proves `strtol` reads the value back |
| `Decimal.NatDigits` | src/JanasCardQSource3.cpp:121 | `%d` digits are nonempty, all decimal digits, and have no leading zero |
| `Decimal.NatDigitsValue` | src/JanasCardQSource3.cpp:121 | the `%d` digits of n denote n |
| `Decimal.ParseLong` | src/JanasCardQSource3.cpp:228 | `strtol` (also at line 245): a text without any digit reads as 0; `Decimal.ParseFormatted` (it inverts `FormatInt`) and `Decimal.ParseStopsAtNul` (it ends at the NUL) are its partners |
| `Decimal.Saturate` | src/JanasCardQSource3.cpp:228 | a value beyond a 32-bit `long` is read as the nearest bound, and a value inside is read unchanged |
| `Decimal.ParseFormatted` | src/JanasCardQSource3.cpp:228 | `strtol` of the `%d` text of any 32-bit value, followed by a non-digit, gives that value back |
| `Decimal.ParseStopsAtNul` | src/JanasCardQSource3.cpp:70 | the NUL `_query` adds ends what `strtol` reads: bytes after it do not change the value |
| `Commands.Limit` | src/JanasCardQSource3.cpp:43-48 | `_limit` gives max above the range, min below it, the value itself inside it, and always lands in a nonempty range |
| `Commands.Encode` | src/JanasCardQSource3.cpp:121 | the `snprintf` command line (likewise the literals and formats at lines 110-111, 129, 144, 162 and 204): a line starts with `#` and the mnemonic, and is longer than them exactly when it carries arguments; `Commands.CommandRoundTrip` proves `Decode` inverts it |
| `Commands.CommandRoundTrip` | src/JanasCardQSource3.cpp:162 | a line `#<mnemonic> %d %d ...` decodes back to the same mnemonic and arguments |
| `Commands.LineIsClean` | src/JanasCardQSource3.cpp:67-68 | a command line starts with `#` and contains neither `\r` nor NUL, so the `\r` sent after it is its only terminator |
| `Commands.RsModeCommand` | src/JanasCardQSource3.cpp:108-112 | `#R1` iff the value is nonzero, `#R0` iff it is zero |
| `Commands.DcCommand` | src/JanasCardQSource3.cpp:115-136 | a line exists iff the output is 1 or 2; `DC1` iff output 1; the value is clamped to the DC range and kept when inside it |
| `Commands.DcExample` | src/JanasCardQSource3.cpp:115-136 | with a DC maximum of 1000, output 1 set to 999999 sends exactly `#DC1 1000` |
| `Commands.AcCommand` | src/JanasCardQSource3.cpp:139-151 | `#AC` carries the maximum when the value exceeds it and 0 otherwise |
| `Commands.VoltagesCommand` | src/JanasCardQSource3.cpp:154-169 | `#C` carries both DC values clamped to the DC range, and the AC value cut to its maximum and otherwise kept |
| `Commands.AcAsymmetry` | src/JanasCardQSource3.cpp:139-169 | for an in-range nonzero AC amplitude, `writeAC` sends 0 while `writeVoltages` sends the amplitude |
| `Commands.FreqRangeCommand` | src/JanasCardQSource3.cpp:172-196 | a line exists iff the range is 0, 1 or 2, and it is `#B <range>` |
| `Commands.FreqCommandAsWritten` | src/JanasCardQSource3.cpp:199-211 | as written: up to 2^31-1 the value is clamped to the frequency range |
| `Commands.FreqAsWrittenWraps` | src/JanasCardQSource3.cpp:201 | as written, a request of 4294967295 is sent as the minimum frequency |
| `Commands.FreqCommand` | src/JanasCardQSource3.cpp:199-211 | `#F` carries the value clamped to the frequency range as an unsigned number; this agrees with the code up to 2^31-1 |
| `Commands.DriverLinesReadBack` | src/JanasCardQSource3.cpp:108-211 | every setter's line decodes back to the command it was built from, the corrected and the as-written `#F` line alike, and so does `storeFreq`'s `#S` |
| `JanasCard.ReplyText` | src/JanasCardQSource3.cpp:69-70 | the reply text fits the caller's buffer and has no `\r`; it is a prefix of the frame, and empty with no frame or no receive buffer |
| `JanasCard.ConfirmedIffOk` | src/JanasCardQSource3.cpp:87-89 | a reply confirms iff its frame starts with `OK` |
| `JanasCard.QSource3.ClearBuffer` | src/JanasCardQSource3.cpp:51-58 | reads until nothing is available, which empties the receive buffer |
| `JanasCard.QSource3.Query` | src/JanasCardQSource3.cpp:61-81 | drains stale input and queues the line then `\r`; the buffer receives the reply text, NUL-terminated when there is room, and nothing else; success iff the text is nonempty |
| `JanasCard.QSource3.QueryOK` | src/JanasCardQSource3.cpp:84-93 | the line is exchanged; success iff the reply text starts with `OK` |
| `JanasCard.QSource3.ReadTest` | src/JanasCardQSource3.cpp:96-99 | `#Q` is exchanged; success iff the reply starts with `OK` |
| `JanasCard.QSource3.ReadSerialNo` | src/JanasCardQSource3.cpp:102-105 | `#N` is exchanged; the caller's buffer gets the reply text, NUL-terminated when there is room, and nothing else of it changes; success iff the text is nonempty |
| `JanasCard.QSource3.WriteRSMode` | src/JanasCardQSource3.cpp:108-112 | the `#R1`/`#R0` line is exchanged; success iff `OK` |
| `JanasCard.QSource3.WriteDC` | src/JanasCardQSource3.cpp:115-136 | an output other than 1 or 2 fails without any traffic; otherwise the clamped `#DC` line is exchanged and success iff `OK` |
| `JanasCard.QSource3.WriteAC` | src/JanasCardQSource3.cpp:139-151 | the `#AC` line is exchanged; success iff `OK` |
| `JanasCard.QSource3.WriteVoltages` | src/JanasCardQSource3.cpp:154-169 | the `#C` line is exchanged; success iff `OK` |
| `JanasCard.QSource3.WriteFreqRange` | src/JanasCardQSource3.cpp:172-196 | a range above 2 fails without any traffic; otherwise `#B <range>` is exchanged and success iff `OK` |
| `JanasCard.QSource3.WriteFreq` | src/JanasCardQSource3.cpp:199-211 | the corrected `#F` line (`FreqCommand`) is exchanged; success iff `OK`; it is the line the code sends for every request up to 2^31-1 |
| `JanasCard.QSource3.StoreFreq` | src/JanasCardQSource3.cpp:214-217 | `#S` is exchanged; success iff `OK` |
| `JanasCard.QSource3.QueryNumber` | src/JanasCardQSource3.cpp:225-231 | the line is exchanged; the answer is `strtol` of the reply text, or -1 when the text is empty |
| `JanasCard.QSource3.ReadFreq` | src/JanasCardQSource3.cpp:220-235 | `#G` is exchanged; the answer is `strtol` of the reply text, or -1 when the text is empty (no reply, or a reply starting with `\r`) |
| `JanasCard.QSource3.ReadCurrent` | src/JanasCardQSource3.cpp:238-249 | `#U` is exchanged; the answer is `strtol` of the reply text, or -1 when the text is empty (no reply, or a reply starting with `\r`) |

## Left out

- Interrupt-context paths (`xPortIsInsideInterrupt()` branches) are not modelled. Only the task-context paths are.
- Timeouts and tick counts (`_timeout`, `xTicksToWait...`) are not modelled. A blocking receive on an empty buffer takes the `arriving`/`reply` parameter, which is either the frame published during the wait or `None` for a timeout.
- The `vTaskDelay` wait at the start of `workRx` (src/rtos_stream.cpp:166-170) is not modelled. `RtosStream.WorkRx` requires that UART data is already available.
- FreeRTOS message-buffer capacity (TX_BUFFER_LENGTH, RX_BUFFER_LENGTH in bytes) is not modelled.
  - Sends are always accepted.
  - Only the rule that a receive refuses a message longer than its RX_BUFFER_LENGTH-byte destination is kept.
  - This hides a loss. The receive buffer is created with `xMessageBufferCreate(RX_BUFFER_LENGTH)` (src/rtos_stream.cpp:27), and FreeRTOS stores a length word beside each message. An overflow frame of exactly RX_BUFFER_LENGTH bytes (src/rtos_stream.cpp:188-198) therefore cannot fit, and the real program drops it.
  - `RtosStream.WorkRx`'s promise that such a frame is appended to the receive buffer holds only under the assumption that sends are always accepted.
- rtos_stream.h and JanasCardQSource3.h are not part of this model.
  - RX_BUFFER_LENGTH is the constructor parameter `rxCapacity`.
  - The Q_SOURCE3_* limits are a `Commands.Limits` value.
- `Stream::print` is modelled as one `write` per call. `print(query)` queues the line as one message, and `print('\r')` queues `\r` as another.
- `snprintf` truncation at 64 or 128 bytes is not modelled. The lines are built whole.
- WriteFreq: exchanges the corrected line `Commands.FreqCommand`, not the line the code as written sends. The two agree for requests up to 2^31-1. For larger requests the code sends `Commands.FreqCommandAsWritten`'s line, which carries the minimum frequency (see Findings).
- QueryNumber: when a reply fills all 64 bytes, the C code writes no NUL and `strtol` reads past the buffer. The model parses only the 64 bytes.
- Concurrency is not modelled. Each method runs atomically, and the interleaving of the workers with a query is reduced to the `reply` parameter.
- The `TEST` build variants and the `TRACE_*` output are not modelled.
- `initCommJanasCardQSource3` is not modelled. It configures the USART hardware registers.
- The UART driver is a plain byte queue. Its own ring buffer and the RS-485 line timing are not modelled.
- The driver's constructor is declared in JanasCardQSource3.h, which is not part of this model. The model's constructor only records the transport and the limits.

## Findings

| source | as written | input that shows it | evidently intended | confidence | as-written member | corrected member |
|---|---|---|---|---|---|---|
| src/JanasCardQSource3.cpp:201 | `writeFreq(uint32_t value)` passes `value` to `_limit(int32_t, ...)`, so a request of 2^31 or more becomes negative and is clamped to Q_SOURCE3_MIN_FREQ | `writeFreq(4294967295)` sends the minimum frequency instead of the maximum | a request above the range is clamped to Q_SOURCE3_MAX_FREQ | not executed | `Commands.FreqCommandAsWritten`, `Commands.FreqAsWrittenWraps` | `Commands.FreqCommand` |
