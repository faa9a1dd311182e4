/** What the transport does to frames, stated on values: how the receive
    worker cuts the UART byte stream into frames (`workRx`), and which prefix
    of a received frame `readBytesUntil` hands to its caller. The methods of
    `RtosStreams.RtosStream` are proved against these functions. */
module Framing {
  import opened Bytes

  /** How far `readBytesUntil` may copy: the caller's buffer length, the
      received message's length and the receive buffer's capacity. */
  function CopyBound(msgLen: nat, length: nat, capacity: nat): nat
  {
    Min(Min(length, msgLen), capacity)
  }

  /** The number of bytes `readBytesUntil` copies out of the received
      message `msg`: it stops at the bound or at the first terminator, which
      it does not copy. */
  function CopyCount(msg: seq<byte>, terminator: byte, length: nat, capacity: nat): (n: nat)
    ensures n <= length && n <= |msg| && n <= capacity
    ensures n < CopyBound(|msg|, length, capacity) ==> msg[n] == terminator
    ensures forall j :: 0 <= j < n ==> msg[j] != terminator
  {
    FirstIndexOf(msg[..CopyBound(|msg|, length, capacity)], terminator)
  }

  /** The bytes `readBytesUntil` copies out of `msg`. */
  function Copied(msg: seq<byte>, terminator: byte, length: nat, capacity: nat): (r: seq<byte>)
    ensures |r| <= length && |r| <= capacity
    ensures terminator !in r
    ensures r <= msg
  {
    msg[..CopyCount(msg, terminator, length, capacity)]
  }

  /** The outcome of one run of the receive worker. */
  datatype AssemblyStep = AssemblyStep(
    consumed: nat,             // bytes taken from the UART
    terminated: bool,          // the last byte taken was the terminator
    frame: Option<seq<byte>>,  // the frame published, if any
    pending: seq<byte>)        // what stays in the assembly buffer

  /** One run of the receive worker on the assembly buffer's contents
      `pending` and the bytes `input` waiting in the UART: take bytes until
      the terminator has been taken, the buffer is full or the UART is empty;
      publish the whole buffer, terminator included, in the first two cases
      and empty it; otherwise keep the bytes for the next run. */
  function Assemble(pending: seq<byte>, input: seq<byte>, terminator: byte, capacity: nat): (r: AssemblyStep)
    requires |pending| < capacity
    requires input != []
    ensures 0 < r.consumed <= |input| && |pending| + r.consumed <= capacity
    ensures r.terminated <==> input[r.consumed - 1] == terminator
    ensures forall j :: 0 <= j < r.consumed - 1 ==> input[j] != terminator
    ensures r.frame.Some? <==> r.terminated || |pending| + r.consumed == capacity
    ensures r.frame.None? ==> r.consumed == |input|
    ensures r.frame.Some? ==> r.frame.value == pending + input[..r.consumed] && r.pending == []
    ensures r.frame.None? ==> r.pending == pending + input[..r.consumed]
    ensures |r.pending| < capacity
  {
    var room := capacity - |pending|;
    var available := Min(|input|, room);
    var t := FirstIndexOf(input[..available], terminator);
    if t < available then
      AssemblyStep(t + 1, true, Some(pending + input[..t + 1]), [])
    else if available == room then
      AssemblyStep(room, false, Some(pending + input[..room]), [])
    else
      AssemblyStep(available, false, None, pending + input[..available])
  }

  /** A published frame never exceeds the assembly buffer; when it ends
      with the terminator, that is its only terminator, provided the
      buffer held none before the run; and a buffer free of terminators
      stays so. */
  lemma AssembleFrame(pending: seq<byte>, input: seq<byte>, terminator: byte, capacity: nat)
    requires |pending| < capacity && input != []
    requires terminator !in pending
    ensures var r := Assemble(pending, input, terminator, capacity);
      && terminator !in r.pending
      && (r.frame.Some? ==> 0 < |r.frame.value| <= capacity)
      && (r.frame.Some? && r.terminated ==>
            r.frame.value[|r.frame.value| - 1] == terminator && terminator !in r.frame.value[..|r.frame.value| - 1])
      && (r.frame.Some? && !r.terminated ==> |r.frame.value| == capacity && terminator !in r.frame.value)
  {
    var r := Assemble(pending, input, terminator, capacity);
    var taken := input[..r.consumed];
    assert terminator !in taken[..r.consumed - 1] by {
      forall j | 0 <= j < r.consumed - 1 ensures taken[j] != terminator {
        assert taken[j] == input[j];
      }
    }
    if r.frame.Some? {
      var f := r.frame.value;
      assert f[..|f| - 1] == pending + taken[..r.consumed - 1];
      if !r.terminated {
        assert f == pending + taken[..r.consumed - 1] + [input[r.consumed - 1]];
      }
    } else {
      assert r.pending == pending + taken[..r.consumed - 1] + [input[r.consumed - 1]];
    }
  }

  /** Overflow: when at least the free room's worth of bytes is waiting and
      none of them is the terminator, the run publishes exactly `capacity`
      bytes, with no terminator among them, and takes no further byte. */
  lemma AssembleOverflow(pending: seq<byte>, input: seq<byte>, terminator: byte, capacity: nat)
    requires |pending| < capacity && input != []
    requires |input| >= capacity - |pending|
    requires forall j :: 0 <= j < capacity - |pending| ==> input[j] != terminator
    ensures var r := Assemble(pending, input, terminator, capacity);
      && r.frame == Some(pending + input[..capacity - |pending|])
      && !r.terminated
      && r.consumed == capacity - |pending|
  {
    var r := Assemble(pending, input, terminator, capacity);
    assert input[r.consumed - 1] != terminator;
  }

  /** End to end: a frame that the receive worker publishes on the
      terminated path and that `readBytesUntil` then receives, with a
      caller buffer at least as long as the frame's text, yields exactly the
      bytes that came before the terminator: those left from earlier runs
      followed by those taken in this run. */
  lemma FrameRoundTrip(pending: seq<byte>, input: seq<byte>, terminator: byte, capacity: nat, length: nat)
    requires |pending| < capacity && input != []
    requires terminator !in pending
    requires Assemble(pending, input, terminator, capacity).terminated
    requires length >= |pending| + Assemble(pending, input, terminator, capacity).consumed - 1
    ensures var r := Assemble(pending, input, terminator, capacity);
      Copied(r.frame.value, terminator, length, capacity) == pending + input[..r.consumed - 1]
  {
    var r := Assemble(pending, input, terminator, capacity);
    var f := r.frame.value;
    AssembleFrame(pending, input, terminator, capacity);
    var n := CopyCount(f, terminator, length, capacity);
    var k := |f| - 1;
    assert n == k;
    assert f[..k] == pending + input[..r.consumed - 1];
  }
}
