/** The byte transport `RTOS_Stream` (src/rtos_stream.cpp), task-context
    paths only. Each FreeRTOS message buffer is a FIFO of whole messages
    held in a field, with a flag for "the handle is not NULL"; the UART is an
    object whose incoming bytes are consumed and whose outgoing bytes are
    appended to. */
module RtosStreams {
  import opened Bytes
  import opened Framing

  /** The UART driver the transport sits on: non-blocking, byte at a time. */
  class Uart {
    var incoming: seq<byte>  // received and not yet read
    var outgoing: seq<byte>  // written so far

    constructor (incoming: seq<byte>)
      ensures this.incoming == incoming && outgoing == []
    {
      this.incoming := incoming;
      outgoing := [];
    }

    method Available() returns (b: bool)
      ensures b == (incoming != [])
    {
      b := incoming != [];
    }

    method Read() returns (c: byte)
      requires incoming != []
      modifies this`incoming
      ensures c == old(incoming)[0] && incoming == old(incoming)[1..]
    {
      c := incoming[0];
      incoming := incoming[1..];
    }

    method Write(c: byte)
      modifies this`outgoing
      ensures outgoing == old(outgoing) + [c]
    {
      outgoing := outgoing + [c];
    }
  }

  /** What a receive on a message buffer hands over, and what stays queued:
      the oldest message when there is one; otherwise the message another
      task sends while the receiver waits, or nothing when the wait times
      out (`arriving == None`). */
  function Receive(queue: seq<seq<byte>>, arriving: Option<seq<byte>>): (seq<byte>, seq<seq<byte>>)
  {
    if queue != [] then (queue[0], queue[1..])
    else if arriving.Some? then (arriving.value, [])
    else ([], [])
  }

  /** A message buffer is first in, first out: a message appended behind
      others is received only after them and stays last in the queue, and
      one appended to an empty buffer is the next one received, whatever
      would have arrived otherwise. */
  lemma ReceiveFifo(queue: seq<seq<byte>>, msg: seq<byte>, arriving: Option<seq<byte>>)
    ensures queue != [] ==> Receive(queue + [msg], arriving) == (queue[0], queue[1..] + [msg])
    ensures queue == [] ==> Receive(queue + [msg], arriving) == (msg, [])
    ensures Receive([], Some(msg)) == (msg, [])
  {
    if queue != [] {
      assert (queue + [msg])[1..] == queue[1..] + [msg];
    } else {
      assert queue + [msg] == [msg] && [msg][1..] == [];
    }
  }

  class RtosStream {
    const usart: Uart
    /** RX_BUFFER_LENGTH: the assembly buffer's size and the largest message
        any receive in this file accepts. */
    const rxCapacity: nat
    /** `_rxBuffer`, the receive worker's assembly buffer. */
    const rxBuffer: array<byte>
    /** `_rxIdx`, the assembly buffer's write cursor. */
    var rxIdx: nat
    /** `_xMessageBufferTx != NULL` and the messages it holds. */
    var txAllocated: bool
    var txQueue: seq<seq<byte>>
    /** `_xMessageBufferRx != NULL` and the messages it holds. */
    var rxAllocated: bool
    var rxQueue: seq<seq<byte>>

    ghost predicate Valid()
      reads this
    {
      && rxBuffer.Length == rxCapacity
      && rxIdx < rxCapacity
      && (!txAllocated ==> txQueue == [])
      && (!rxAllocated ==> rxQueue == [])
      && (forall i :: 0 <= i < |rxQueue| ==> |rxQueue[i]| <= rxCapacity)
    }

    /** The bytes assembled so far and not yet published. */
    function Pending(): seq<byte>
      reads this, rxBuffer
      requires rxIdx <= rxBuffer.Length
    {
      rxBuffer[..rxIdx]
    }

    constructor (usart: Uart, rxCapacity: nat)
      requires rxCapacity > 0
      ensures Valid() && fresh(rxBuffer)
      ensures this.usart == usart && this.rxCapacity == rxCapacity
      ensures !txAllocated && !rxAllocated && rxIdx == 0
    {
      this.usart := usart;
      this.rxCapacity := rxCapacity;
      rxBuffer := new byte[rxCapacity];
      rxIdx := 0;
      txAllocated, txQueue := false, [];
      rxAllocated, rxQueue := false, [];
    }

    /** Creates each message buffer that does not exist yet; `txCreated`
        and `rxCreated` are what the allocator would answer. The receive
        buffer is not attempted when the transmit buffer could not be made.
        Once both exist, a further call changes nothing and succeeds. */
    method Init(txCreated: bool, rxCreated: bool) returns (ok: bool)
      requires Valid()
      modifies this`txAllocated, this`rxAllocated
      ensures Valid()
      ensures txAllocated == (old(txAllocated) || txCreated)
      ensures rxAllocated == (old(rxAllocated) || (txAllocated && rxCreated))
      ensures ok == (txAllocated && rxAllocated)
      ensures old(txAllocated && rxAllocated) ==> ok && unchanged(this)
    {
      if !txAllocated {
        txAllocated := txCreated;
        if !txAllocated { return false; }
      }
      if !rxAllocated {
        rxAllocated := rxCreated;
        if !rxAllocated { return false; }
      }
      return true;
    }

    /** Sends the C string `str` (None for NULL) as one message; a C
        string holds no NUL, which would end it. */
    method Write(str: Option<seq<byte>>) returns (sent: nat)
      requires Valid()
      requires str.Some? ==> NUL !in str.value
      modifies this`txQueue
      ensures Valid()
      ensures str.None? || !txAllocated ==> sent == 0 && txQueue == old(txQueue)
      ensures str.Some? && txAllocated ==> sent == |str.value| && txQueue == old(txQueue) + [str.value]
    {
      if str.None? { return 0; }
      if !txAllocated { return 0; }
      txQueue := txQueue + [str.value];
      sent := |str.value|;
    }

    /** True exactly when the receive buffer exists and holds a message. */
    method Available() returns (b: bool)
      requires Valid()
      ensures b <==> rxAllocated && rxQueue != []
    {
      if !rxAllocated { return false; }
      b := rxQueue != [];
    }

    /** The message-buffer receive on the receive buffer. */
    method ReceiveRx(arriving: Option<seq<byte>>) returns (msg: seq<byte>)
      requires Valid() && rxAllocated
      requires arriving.Some? ==> |arriving.value| <= rxCapacity
      modifies this`rxQueue
      ensures Valid()
      ensures (msg, rxQueue) == Receive(old(rxQueue), arriving)
      ensures |msg| <= rxCapacity
    {
      if rxQueue != [] {
        msg := rxQueue[0];
        rxQueue := rxQueue[1..];
      } else if arriving.Some? {
        msg := arriving.value;
      } else {
        msg := [];
      }
    }

    /** Takes one whole message off the receive buffer and answers its
        length (not a byte of it); 0 without a receive buffer. */
    method Read(arriving: Option<seq<byte>>) returns (count: nat)
      requires Valid()
      requires arriving.Some? ==> |arriving.value| <= rxCapacity
      modifies this`rxQueue
      ensures Valid()
      ensures !rxAllocated ==> count == 0 && rxQueue == old(rxQueue)
      ensures rxAllocated ==> var (msg, rest) := Receive(old(rxQueue), arriving);
        count == |msg| && rxQueue == rest
    {
      if !rxAllocated { return 0; }
      var msg := ReceiveRx(arriving);
      count := |msg|;
    }

    /** Receives one message and copies its bytes into `buffer` up to, not
        including, the first `terminator`, and no further than `length`
        bytes; answers how many were copied. The rest of `buffer` keeps its
        contents. */
    method ReadBytesUntil(terminator: byte, buffer: array<byte>, length: nat, arriving: Option<seq<byte>>)
      returns (n: nat)
      requires Valid() && length <= buffer.Length
      requires arriving.Some? ==> |arriving.value| <= rxCapacity
      modifies this`rxQueue, buffer
      ensures Valid()
      ensures !rxAllocated ==> n == 0 && rxQueue == old(rxQueue) && buffer[..] == old(buffer[..])
      ensures rxAllocated ==> var (msg, rest) := Receive(old(rxQueue), arriving);
        && rxQueue == rest
        && n == CopyCount(msg, terminator, length, rxCapacity)
        && buffer[..n] == msg[..n]
        && buffer[n..] == old(buffer[n..])
    {
      if !rxAllocated { return 0; }
      var msg := ReceiveRx(arriving);
      n := 0;
      while n < length && n < |msg| && n < rxCapacity
        modifies buffer
        invariant n <= length && n <= |msg| && n <= rxCapacity
        invariant forall j :: 0 <= j < n ==> msg[j] != terminator
        invariant forall j :: 0 <= j < n ==> buffer[j] == msg[j]
        invariant forall j :: n <= j < buffer.Length ==> buffer[j] == old(buffer[j])
      {
        if terminator == msg[n] { break; }
        buffer[n] := msg[n];
        n := n + 1;
      }
      ghost var bound := CopyBound(|msg|, length, rxCapacity);
      FirstIndexOfUnique(msg[..bound], terminator, n);
      assert buffer[..n] == msg[..n];
      assert buffer[n..] == old(buffer[n..]);
    }

    /** Transmit worker: takes the oldest message of the transmit buffer and
        writes its bytes to the UART in order. Nothing happens without a
        transmit buffer, when the wait times out on an empty one, or when the
        oldest message is longer than the receive area (RX_BUFFER_LENGTH),
        which leaves that message queued. */
    method WorkTx()
      requires Valid()
      modifies this`txQueue, usart`outgoing
      ensures Valid()
      ensures !txAllocated || old(txQueue) == [] || |old(txQueue)[0]| > rxCapacity ==>
        txQueue == old(txQueue) && usart.outgoing == old(usart.outgoing)
      ensures txAllocated && old(txQueue) != [] && |old(txQueue)[0]| <= rxCapacity ==>
        txQueue == old(txQueue)[1..] && usart.outgoing == old(usart.outgoing) + old(txQueue)[0]
    {
      if !txAllocated { return; }
      if txQueue == [] || |txQueue[0]| > rxCapacity { return; }
      var msg := txQueue[0];
      txQueue := txQueue[1..];
      for i := 0 to |msg|
        modifies usart`outgoing
        invariant usart.outgoing == old(usart.outgoing) + msg[..i]
      {
        usart.Write(msg[i]);
      }
    }

    /** Receive worker, one run, entered once the UART has data: appends
        UART bytes to the assembly buffer until it has taken the terminator,
        the buffer is full or the UART is empty; in the first two cases it
        publishes the buffer (terminator included) to the receive buffer,
        if that exists, and resets the cursor. */
    method WorkRx(terminator: byte)
      requires Valid() && usart.incoming != []
      modifies this`rxIdx, this`rxQueue, rxBuffer, usart`incoming
      ensures Valid()
      ensures var r := Assemble(old(Pending()), old(usart.incoming), terminator, rxCapacity);
        && usart.incoming == old(usart.incoming)[r.consumed..]
        && Pending() == r.pending
        && (r.frame.Some? ==> rxIdx == 0)
        && rxQueue == (if rxAllocated && r.frame.Some? then old(rxQueue) + [r.frame.value] else old(rxQueue))
    {
      ghost var input := usart.incoming;
      ghost var before := rxBuffer[..rxIdx];
      ghost var i := 0;
      var isTerminator := false;
      while rxIdx < rxCapacity
        modifies this`rxIdx, rxBuffer, usart`incoming
        invariant |before| + i == rxIdx <= rxCapacity
        invariant i <= |input| && usart.incoming == input[i..]
        invariant rxBuffer[..rxIdx] == before + input[..i]
        invariant forall j :: 0 <= j < i ==> input[j] != terminator
        invariant !isTerminator
      {
        var more := usart.Available();
        if !more { break; }
        var c := usart.Read();
        rxBuffer[rxIdx] := c;
        rxIdx := rxIdx + 1;
        i := i + 1;
        assert rxBuffer[..rxIdx] == before + input[..i];
        if c == terminator {
          isTerminator := true;
          break;
        }
      }
      ghost var r := Assemble(before, input, terminator, rxCapacity);
      assert r.consumed == i;
      if isTerminator || rxIdx == rxCapacity {
        if rxAllocated {
          rxQueue := rxQueue + [rxBuffer[..rxIdx]];
        }
        rxIdx := 0;
      }
    }
  }
}
