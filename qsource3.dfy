/** The query/response driver of the Q-Source 3 card
    (`JanasCardQSource3`, src/JanasCardQSource3.cpp) on top of the byte
    transport. Each query drains stale input, queues the command line and
    its '\r', and receives one reply frame. The reply frame is a parameter
    (`reply`): the frame the receive worker publishes while the query waits,
    or None when the wait times out. */
module JanasCard {
  import opened Bytes
  import opened Decimal
  import opened Framing
  import opened RtosStreams
  import opened Commands

  /** What a reply leaves in the caller's buffer: the bytes of the received
      frame before its '\r', at most `buffLen` of them; nothing when no frame
      arrives or the receive buffer does not exist. */
  function ReplyText(rxAllocated: bool, reply: Option<seq<byte>>, buffLen: nat, capacity: nat): (text: seq<byte>)
    ensures |text| <= buffLen && CR !in text
    ensures !rxAllocated || reply.None? ==> text == []
    ensures rxAllocated && reply.Some? ==> text <= reply.value
  {
    if rxAllocated && reply.Some? then Copied(reply.value, CR, buffLen, capacity) else []
  }

  /** The reply starts with "OK". */
  predicate IsOk(text: seq<byte>)
  {
    |text| >= 2 && text[0] == 0x4F && text[1] == 0x4B
  }

  /** A command is confirmed exactly when the reply frame starts with
      "OK", whatever follows (the receive buffer existing and holding at
      least two bytes). */
  lemma ConfirmedIffOk(msg: seq<byte>, capacity: nat)
    requires capacity >= 2
    ensures IsOk(ReplyText(true, Some(msg), OK_BUFFER_LENGTH, capacity)) <==>
      |msg| >= 2 && msg[0] == 0x4F && msg[1] == 0x4B
  {
    var text := ReplyText(true, Some(msg), OK_BUFFER_LENGTH, capacity);
    if |msg| >= 2 && msg[0] == 0x4F && msg[1] == 0x4B {
      var n := CopyCount(msg, CR, OK_BUFFER_LENGTH, capacity);
      assert msg[0] != CR && msg[1] != CR;
      assert n >= 2;
    }
  }

  /** The messages `_query` puts on the transmit buffer: the command, then
      a lone '\r'; none when the transmit buffer does not exist. */
  function Sent(txAllocated: bool, line: seq<byte>): seq<seq<byte>>
  {
    if txAllocated then [line, [CR]] else []
  }

  /** `_queryOK`'s 8-byte reply buffer, and the 64-byte one of the
      numeric getters. */
  const OK_BUFFER_LENGTH: nat := 8
  const NUMBER_BUFFER_LENGTH: nat := 64

  class QSource3 {
    const comm: RtosStream
    const limits: Limits

    constructor (comm: RtosStream, limits: Limits)
      ensures this.comm == comm && this.limits == limits
    {
      this.comm := comm;
      this.limits := limits;
    }

    /** One exchange of `line` has happened: stale input was drained and
        `line` with its '\r' was queued for transmission. */
    twostate predicate Exchanged(line: seq<byte>)
      reads this, comm
    {
      comm.Valid() && comm.rxQueue == [] && comm.txQueue == old(comm.txQueue) + Sent(comm.txAllocated, line)
    }

    /** The reply confirms the command. */
    predicate Confirms(reply: Option<seq<byte>>)
      reads this, comm
    {
      IsOk(ReplyText(comm.rxAllocated, reply, OK_BUFFER_LENGTH, comm.rxCapacity))
    }

    /** Drains the receive buffer, one message per read, until it is empty. */
    method ClearBuffer()
      requires comm.Valid()
      modifies comm`rxQueue
      ensures comm.Valid() && comm.rxQueue == []
    {
      var available := comm.Available();
      while available
        invariant comm.Valid()
        invariant available == (comm.rxAllocated && comm.rxQueue != [])
        decreases |comm.rxQueue|
      {
        var _ := comm.Read(None);
        available := comm.Available();
      }
    }

    /** Sends `line` and reads the reply into `buffer`, NUL-terminated when
        it leaves room; true when the reply has at least one byte. */
    method Query(line: seq<byte>, buffer: array<byte>, buffLen: nat, reply: Option<seq<byte>>) returns (ok: bool)
      requires comm.Valid() && buffLen <= buffer.Length
      requires NUL !in line
      requires reply.Some? ==> |reply.value| <= comm.rxCapacity
      modifies comm`rxQueue, comm`txQueue, buffer
      ensures Exchanged(line)
      ensures var text := ReplyText(comm.rxAllocated, reply, buffLen, comm.rxCapacity);
        && ok == (text != [])
        && buffer[..|text|] == text
        && (|text| < buffLen ==> buffer[|text|] == NUL && buffer[|text| + 1..] == old(buffer[|text| + 1..]))
        && (|text| == buffLen ==> buffer[|text|..] == old(buffer[|text|..]))
    {
      ClearBuffer();
      var _ := comm.Write(Some(line));
      var _ := comm.Write(Some([CR]));
      var n := comm.ReadBytesUntil(CR, buffer, buffLen, reply);
      if n < buffLen {
        buffer[n] := NUL;
      }
      ok := n != 0;
    }

    /** Sends `line`; true when the reply starts with "OK". */
    method QueryOK(line: seq<byte>, reply: Option<seq<byte>>) returns (ok: bool)
      requires comm.Valid()
      requires NUL !in line
      requires reply.Some? ==> |reply.value| <= comm.rxCapacity
      modifies comm`rxQueue, comm`txQueue
      ensures Exchanged(line)
      ensures ok == Confirms(reply)
    {
      var buff := new byte[OK_BUFFER_LENGTH];
      var rc := Query(line, buff, OK_BUFFER_LENGTH, reply);
      ok := rc && buff[0] == 0x4F && buff[1] == 0x4B;
    }

    method ReadTest(reply: Option<seq<byte>>) returns (ok: bool)
      requires comm.Valid()
      requires reply.Some? ==> |reply.value| <= comm.rxCapacity
      modifies comm`rxQueue, comm`txQueue
      ensures Exchanged(Encode(Command(TEST_MNEMONIC, [])))
      ensures ok == Confirms(reply)
    {
      LineIsClean(Command(TEST_MNEMONIC, []));
      ok := QueryOK(Encode(Command(TEST_MNEMONIC, [])), reply);
    }

    method ReadSerialNo(buffer: array<byte>, buffLen: nat, reply: Option<seq<byte>>) returns (ok: bool)
      requires comm.Valid() && buffLen <= buffer.Length
      requires reply.Some? ==> |reply.value| <= comm.rxCapacity
      modifies comm`rxQueue, comm`txQueue, buffer
      ensures Exchanged(Encode(Command(SERIAL_NO_MNEMONIC, [])))
      ensures var text := ReplyText(comm.rxAllocated, reply, buffLen, comm.rxCapacity);
        && ok == (text != [])
        && buffer[..|text|] == text
        && (|text| < buffLen ==> buffer[|text|] == NUL && buffer[|text| + 1..] == old(buffer[|text| + 1..]))
        && (|text| == buffLen ==> buffer[|text|..] == old(buffer[|text|..]))
    {
      LineIsClean(Command(SERIAL_NO_MNEMONIC, []));
      ok := Query(Encode(Command(SERIAL_NO_MNEMONIC, [])), buffer, buffLen, reply);
    }

    method WriteRSMode(value: uint32, reply: Option<seq<byte>>) returns (ok: bool)
      requires comm.Valid()
      requires reply.Some? ==> |reply.value| <= comm.rxCapacity
      modifies comm`rxQueue, comm`txQueue
      ensures Exchanged(Encode(RsModeCommand(value)))
      ensures ok == Confirms(reply)
    {
      LineIsClean(RsModeCommand(value));
      ok := QueryOK(Encode(RsModeCommand(value)), reply);
    }

    /** Output 1 or 2 gets the clamped value; any other output is refused
        without anything being sent. */
    method WriteDC(output: uint32, value: int32, reply: Option<seq<byte>>) returns (ok: bool)
      requires comm.Valid()
      requires reply.Some? ==> |reply.value| <= comm.rxCapacity
      modifies comm`rxQueue, comm`txQueue
      ensures var c := DcCommand(output, value, limits);
        && (c.None? ==> !ok && unchanged(comm))
        && (c.Some? ==> Exchanged(Encode(c.value)) && ok == Confirms(reply))
    {
      var c := DcCommand(output, value, limits);
      if c.None? { return false; }
      LineIsClean(c.value);
      ok := QueryOK(Encode(c.value), reply);
    }

    method WriteAC(value: uint32, reply: Option<seq<byte>>) returns (ok: bool)
      requires comm.Valid()
      requires reply.Some? ==> |reply.value| <= comm.rxCapacity
      modifies comm`rxQueue, comm`txQueue
      ensures Exchanged(Encode(AcCommand(value, limits)))
      ensures ok == Confirms(reply)
    {
      LineIsClean(AcCommand(value, limits));
      ok := QueryOK(Encode(AcCommand(value, limits)), reply);
    }

    method WriteVoltages(dc1: int32, dc2: int32, ac: uint32, reply: Option<seq<byte>>) returns (ok: bool)
      requires comm.Valid()
      requires reply.Some? ==> |reply.value| <= comm.rxCapacity
      modifies comm`rxQueue, comm`txQueue
      ensures Exchanged(Encode(VoltagesCommand(dc1, dc2, ac, limits)))
      ensures ok == Confirms(reply)
    {
      LineIsClean(VoltagesCommand(dc1, dc2, ac, limits));
      ok := QueryOK(Encode(VoltagesCommand(dc1, dc2, ac, limits)), reply);
    }

    /** Ranges 0, 1 and 2 are sent; any other is refused without anything
        being sent. */
    method WriteFreqRange(range: uint32, reply: Option<seq<byte>>) returns (ok: bool)
      requires comm.Valid()
      requires reply.Some? ==> |reply.value| <= comm.rxCapacity
      modifies comm`rxQueue, comm`txQueue
      ensures var c := FreqRangeCommand(range);
        && (c.None? ==> !ok && unchanged(comm))
        && (c.Some? ==> Exchanged(Encode(c.value)) && ok == Confirms(reply))
    {
      var c := FreqRangeCommand(range);
      if c.None? { return false; }
      LineIsClean(c.value);
      ok := QueryOK(Encode(c.value), reply);
    }

    /** Sends the frequency clamped as an unsigned number (the corrected
        `FreqCommand`, see `FreqCommandAsWritten`). */
    method WriteFreq(value: uint32, reply: Option<seq<byte>>) returns (ok: bool)
      requires comm.Valid()
      requires reply.Some? ==> |reply.value| <= comm.rxCapacity
      modifies comm`rxQueue, comm`txQueue
      ensures Exchanged(Encode(FreqCommand(value, limits)))
      ensures ok == Confirms(reply)
    {
      LineIsClean(FreqCommand(value, limits));
      ok := QueryOK(Encode(FreqCommand(value, limits)), reply);
    }

    method StoreFreq(reply: Option<seq<byte>>) returns (ok: bool)
      requires comm.Valid()
      requires reply.Some? ==> |reply.value| <= comm.rxCapacity
      modifies comm`rxQueue, comm`txQueue
      ensures Exchanged(Encode(Command(STORE_FREQ_MNEMONIC, [])))
      ensures ok == Confirms(reply)
    {
      LineIsClean(Command(STORE_FREQ_MNEMONIC, []));
      ok := QueryOK(Encode(Command(STORE_FREQ_MNEMONIC, [])), reply);
    }

    /** Sends `line` and reads the reply's leading number; -1 when the reply
        text is empty. */
    method QueryNumber(line: seq<byte>, reply: Option<seq<byte>>) returns (r: int32)
      requires comm.Valid()
      requires NUL !in line
      requires reply.Some? ==> |reply.value| <= comm.rxCapacity
      modifies comm`rxQueue, comm`txQueue
      ensures Exchanged(line)
      ensures var text := ReplyText(comm.rxAllocated, reply, NUMBER_BUFFER_LENGTH, comm.rxCapacity);
        r == if text != [] then ParseLong(text) else -1
    {
      var buff := new byte[NUMBER_BUFFER_LENGTH];
      var ok := Query(line, buff, NUMBER_BUFFER_LENGTH, reply);
      ghost var text := ReplyText(comm.rxAllocated, reply, NUMBER_BUFFER_LENGTH, comm.rxCapacity);
      if ok {
        if |text| < NUMBER_BUFFER_LENGTH {
          assert buff[..] == text + buff[|text|..];
          ParseStopsAtNul(text, buff[|text|..]);
        } else {
          assert buff[..] == text;
        }
        r := ParseLong(buff[..]);
      } else {
        r := -1;
      }
    }

    method ReadFreq(reply: Option<seq<byte>>) returns (r: int32)
      requires comm.Valid()
      requires reply.Some? ==> |reply.value| <= comm.rxCapacity
      modifies comm`rxQueue, comm`txQueue
      ensures Exchanged(Encode(Command(READ_FREQ_MNEMONIC, [])))
      ensures var text := ReplyText(comm.rxAllocated, reply, NUMBER_BUFFER_LENGTH, comm.rxCapacity);
        r == if text != [] then ParseLong(text) else -1
    {
      LineIsClean(Command(READ_FREQ_MNEMONIC, []));
      r := QueryNumber(Encode(Command(READ_FREQ_MNEMONIC, [])), reply);
    }

    method ReadCurrent(reply: Option<seq<byte>>) returns (r: int32)
      requires comm.Valid()
      requires reply.Some? ==> |reply.value| <= comm.rxCapacity
      modifies comm`rxQueue, comm`txQueue
      ensures Exchanged(Encode(Command(READ_CURRENT_MNEMONIC, [])))
      ensures var text := ReplyText(comm.rxAllocated, reply, NUMBER_BUFFER_LENGTH, comm.rxCapacity);
        r == if text != [] then ParseLong(text) else -1
    {
      LineIsClean(Command(READ_CURRENT_MNEMONIC, []));
      r := QueryNumber(Encode(Command(READ_CURRENT_MNEMONIC, [])), reply);
    }
  }
}
