/** The pure side of the Q-Source 3 protocol (src/JanasCardQSource3.cpp):
    the clamp `_limit`, the command lines the setters send, and a reference
    reading of a command line that shows each line carries exactly the
    mnemonic and the arguments it was built from. */
module Commands {
  import opened Bytes
  import opened Decimal

  /** The configured limits Q_SOURCE3_MAX_DC, Q_SOURCE3_MIN_DC,
      Q_SOURCE3_MAX_AC, Q_SOURCE3_MAX_FREQ and Q_SOURCE3_MIN_FREQ. */
  datatype Limits = Limits(maxDc: int32, minDc: int32, maxAc: int32, maxFreq: int32, minFreq: int32)

  /** Limits that describe ranges: each minimum at most its maximum, and
      the AC amplitude and the frequency never negative. */
  predicate ValidLimits(l: Limits)
  {
    l.minDc <= l.maxDc && 0 <= l.maxAc && 0 <= l.minFreq <= l.maxFreq
  }

  /** `_limit(x, max, min)`: `max` above the range, `min` below it, `x`
      itself inside it. */
  function Limit(x: int, max: int, min: int): (r: int)
    ensures min <= max ==> min <= r <= max
    ensures min <= x <= max ==> r == x
    ensures x > max ==> r == max
    ensures x < min && min <= max ==> r == min
  {
    if x > max then max
    else if x < min then min
    else x
  }

  /** One command line: `#`, the mnemonic, then each argument as ` %d`. */
  datatype Command = Command(mnemonic: seq<byte>, args: seq<int>)

  const HASH: byte := 0x23

  /** A mnemonic a line can carry: not empty, and free of the argument
      separator, the line terminator and the C string terminator. */
  predicate ValidMnemonic(m: seq<byte>)
  {
    m != [] && SP !in m && CR !in m && NUL !in m
  }

  lemma FormatIntBytes(v: int)
    ensures FormatInt(v) != []
    ensures forall b :: b in FormatInt(v) ==> b == MINUS || IsDigit(b)
  {
  }

  /** The arguments of a line, each as a space and its `%d` text. */
  function EncodeArgs(args: seq<int>): (r: seq<byte>)
    ensures r == [] <==> args == []
    ensures r != [] ==> r[0] == SP
  {
    if args == [] then [] else [SP] + FormatInt(args[0]) + EncodeArgs(args[1..])
  }

  /** The bytes of a command line, without the terminating `\r`. */
  function Encode(c: Command): (r: seq<byte>)
    ensures |r| > |c.mnemonic| && r[0] == HASH && r[1..|c.mnemonic| + 1] == c.mnemonic
    ensures c.args == [] <==> |r| == |c.mnemonic| + 1
  {
    [HASH] + c.mnemonic + EncodeArgs(c.args)
  }

  /** An exact decimal field: an optional minus sign and at least one digit. */
  function DecodeInt(field: seq<byte>): Option<int>
  {
    if |field| > 1 && field[0] == MINUS && AllDigits(field[1..]) then
      var magnitude: int := DigitsValue(field[1..]);
      Some(-magnitude)
    else if field != [] && AllDigits(field) then Some(DigitsValue(field))
    else None
  }

  /** Space-separated decimal arguments. */
  function DecodeArgs(s: seq<byte>): Option<seq<int>>
    decreases |s|
  {
    if s == [] then Some([])
    else if s[0] != SP then None
    else
      var k := FirstIndexOf(s[1..], SP);
      match DecodeInt(s[1..][..k])
      case None => None
      case Some(v) =>
        match DecodeArgs(s[1..][k..])
        case None => None
        case Some(vs) => Some([v] + vs)
  }

  /** The instrument's reading of a command line: `#`, a mnemonic up to
      the first space, then the arguments. */
  function Decode(line: seq<byte>): Option<Command>
  {
    if line == [] || line[0] != HASH then None
    else
      var k := FirstIndexOf(line[1..], SP);
      if k == 0 then None
      else
        match DecodeArgs(line[1..][k..])
        case None => None
        case Some(args) => Some(Command(line[1..][..k], args))
  }

  lemma DecodeFormatted(v: int)
    ensures DecodeInt(FormatInt(v)) == Some(v)
  {
    if v < 0 {
      var d := NatDigits(-v);
      var f := [MINUS] + d;
      assert FormatInt(v) == f;
      assert f[0] == MINUS && f[1..] == d;
      NatDigitsValue(-v);
    } else {
      var d := NatDigits(v);
      assert FormatInt(v) == d;
      assert d[0] != MINUS;
      NatDigitsValue(v);
    }
  }

  /** Reading one argument field off the front of an argument list. */
  lemma DecodeArgsStep(s: seq<byte>, v: int, f: seq<byte>, rest: seq<byte>)
    requires DecodeInt(f) == Some(v)
    requires SP !in f
    requires rest == [] || rest[0] == SP
    requires s == [SP] + f + rest
    ensures DecodeArgs(s) ==
      if DecodeArgs(rest).Some? then Some([v] + DecodeArgs(rest).value) else None
  {
    assert s[0] == SP && s[1..] == f + rest;
    FirstIndexOfAfter(f, rest, SP);
    assert (f + rest)[..|f|] == f;
    assert (f + rest)[|f|..] == rest;
  }

  lemma {:induction false} ArgsRoundTrip(args: seq<int>)
    ensures DecodeArgs(EncodeArgs(args)) == Some(args)
  {
    if args != [] {
      var f := FormatInt(args[0]);
      FormatIntBytes(args[0]);
      DecodeFormatted(args[0]);
      var rest := EncodeArgs(args[1..]);
      DecodeArgsStep(EncodeArgs(args), args[0], f, rest);
      ArgsRoundTrip(args[1..]);
      assert [args[0]] + args[1..] == args;
    }
  }

  /** Reading the mnemonic off the front of a line. */
  lemma DecodeStep(line: seq<byte>, m: seq<byte>, rest: seq<byte>)
    requires ValidMnemonic(m)
    requires rest == [] || rest[0] == SP
    requires line == [HASH] + m + rest
    ensures Decode(line) ==
      if DecodeArgs(rest).Some? then Some(Command(m, DecodeArgs(rest).value)) else None
  {
    assert line[0] == HASH && line[1..] == m + rest;
    FirstIndexOfAfter(m, rest, SP);
    assert (m + rest)[..|m|] == m;
    assert (m + rest)[|m|..] == rest;
  }

  /** Round trip: a line built from a valid mnemonic reads back as the
      command it was built from. */
  lemma CommandRoundTrip(c: Command)
    requires ValidMnemonic(c.mnemonic)
    ensures Decode(Encode(c)) == Some(c)
  {
    ArgsRoundTrip(c.args);
    DecodeStep(Encode(c), c.mnemonic, EncodeArgs(c.args));
  }

  lemma {:induction false} ArgsBytes(args: seq<int>)
    ensures forall b :: b in EncodeArgs(args) ==> b == SP || b == MINUS || IsDigit(b)
  {
    if args != [] {
      FormatIntBytes(args[0]);
      ArgsBytes(args[1..]);
    }
  }

  /** A command line is a C string without an embedded line terminator. */
  lemma LineIsClean(c: Command)
    requires ValidMnemonic(c.mnemonic)
    ensures Encode(c)[0] == HASH
    ensures CR !in Encode(c) && NUL !in Encode(c)
  {
    ArgsBytes(c.args);
  }

  // The commands of src/JanasCardQSource3.cpp.

  // The mnemonics, in ASCII.
  const TEST_MNEMONIC: seq<byte> := [0x51]               // Q
  const SERIAL_NO_MNEMONIC: seq<byte> := [0x4E]          // N
  const RS_MODE_ON_MNEMONIC: seq<byte> := [0x52, 0x31]   // R1
  const RS_MODE_OFF_MNEMONIC: seq<byte> := [0x52, 0x30]  // R0
  const DC1_MNEMONIC: seq<byte> := [0x44, 0x43, 0x31]    // DC1
  const DC2_MNEMONIC: seq<byte> := [0x44, 0x43, 0x32]    // DC2
  const AC_MNEMONIC: seq<byte> := [0x41, 0x43]           // AC
  const VOLTAGES_MNEMONIC: seq<byte> := [0x43]           // C
  const FREQ_RANGE_MNEMONIC: seq<byte> := [0x42]         // B
  const FREQ_MNEMONIC: seq<byte> := [0x46]               // F
  const STORE_FREQ_MNEMONIC: seq<byte> := [0x53]         // S
  const READ_FREQ_MNEMONIC: seq<byte> := [0x47]          // G
  const READ_CURRENT_MNEMONIC: seq<byte> := [0x55]       // U

  /** `#R1` for any nonzero value, `#R0` for zero. */
  function RsModeCommand(value: uint32): (c: Command)
    ensures c.args == [] && ValidMnemonic(c.mnemonic)
    ensures c.mnemonic == RS_MODE_ON_MNEMONIC <==> value != 0
    ensures c.mnemonic == RS_MODE_OFF_MNEMONIC <==> value == 0
  {
    Command(if value != 0 then RS_MODE_ON_MNEMONIC else RS_MODE_OFF_MNEMONIC, [])
  }

  /** `#DC1 v` or `#DC2 v` with the value clamped to the DC range; no
      command for any other output. */
  function DcCommand(output: uint32, value: int32, lim: Limits): (c: Option<Command>)
    ensures c.Some? <==> output == 1 || output == 2
    ensures c.Some? ==> ValidMnemonic(c.value.mnemonic) && |c.value.args| == 1
    ensures c.Some? ==> (c.value.mnemonic == DC1_MNEMONIC <==> output == 1)
    ensures c.Some? && ValidLimits(lim) ==> lim.minDc <= c.value.args[0] <= lim.maxDc
    ensures c.Some? && lim.minDc <= value <= lim.maxDc ==> c.value.args[0] == value
    ensures c.Some? && value > lim.maxDc ==> c.value.args[0] == lim.maxDc
    ensures c.Some? && ValidLimits(lim) && value < lim.minDc ==> c.value.args[0] == lim.minDc
  {
    var v := Limit(value, lim.maxDc, lim.minDc);
    if output == 1 then Some(Command(DC1_MNEMONIC, [v]))
    else if output == 2 then Some(Command(DC2_MNEMONIC, [v]))
    else None
  }

  /** `#AC v`: the maximum when the value exceeds it, otherwise 0 (an
      in-range amplitude is not sent as given). */
  function AcCommand(value: uint32, lim: Limits): (c: Command)
    ensures c.mnemonic == AC_MNEMONIC && ValidMnemonic(c.mnemonic) && |c.args| == 1
    ensures value > lim.maxAc ==> c.args[0] == lim.maxAc
    ensures value <= lim.maxAc ==> c.args[0] == 0
  {
    Command(AC_MNEMONIC, [if value > lim.maxAc then lim.maxAc else 0])
  }

  /** `#C dc1 dc2 ac`: both DC values clamped to the DC range, the AC
      amplitude cut to its maximum and otherwise kept. */
  function VoltagesCommand(dc1: int32, dc2: int32, ac: uint32, lim: Limits): (c: Command)
    ensures c.mnemonic == VOLTAGES_MNEMONIC && ValidMnemonic(c.mnemonic) && |c.args| == 3
    ensures ValidLimits(lim) ==>
      lim.minDc <= c.args[0] <= lim.maxDc && lim.minDc <= c.args[1] <= lim.maxDc && 0 <= c.args[2] <= lim.maxAc
    ensures lim.minDc <= dc1 <= lim.maxDc ==> c.args[0] == dc1
    ensures lim.minDc <= dc2 <= lim.maxDc ==> c.args[1] == dc2
    ensures c.args[2] == (if ac > lim.maxAc then lim.maxAc else ac)
  {
    Command(VOLTAGES_MNEMONIC, [Limit(dc1, lim.maxDc, lim.minDc), Limit(dc2, lim.maxDc, lim.minDc),
                         if ac > lim.maxAc then lim.maxAc else ac])
  }

  /** The asymmetry between the two ways of setting the AC amplitude: for
      an in-range, nonzero amplitude `writeAC` sends 0 while
      `writeVoltages` sends the amplitude itself. */
  lemma AcAsymmetry(dc1: int32, dc2: int32, ac: uint32, lim: Limits)
    requires 0 < ac <= lim.maxAc
    ensures AcCommand(ac, lim).args[0] == 0
    ensures VoltagesCommand(dc1, dc2, ac, lim).args[2] == ac
  {
  }

  /** `#B n` for a range 0, 1 or 2; no command for any other. */
  function FreqRangeCommand(range: uint32): (c: Option<Command>)
    ensures c.Some? <==> range <= 2
    ensures c.Some? ==> c.value == Command(FREQ_RANGE_MNEMONIC, [range]) && ValidMnemonic(c.value.mnemonic)
  {
    if range <= 2 then Some(Command(FREQ_RANGE_MNEMONIC, [range])) else None
  }

  /** `#F v` as src/JanasCardQSource3.cpp:201 computes it: the unsigned
      value goes through the signed `_limit`, so a value of 2^31 or more
      turns negative before it is clamped. */
  function FreqCommandAsWritten(value: uint32, lim: Limits): (c: Command)
    ensures c.mnemonic == FREQ_MNEMONIC && ValidMnemonic(c.mnemonic) && |c.args| == 1
    ensures value <= INT32_MAX ==> c.args[0] == Limit(value, lim.maxFreq, lim.minFreq)
  {
    Command(FREQ_MNEMONIC, [Limit(AsInt32(value), lim.maxFreq, lim.minFreq)])
  }

  /** The input that shows it: the largest frequency request is sent as the
      smallest frequency. */
  lemma FreqAsWrittenWraps(lim: Limits)
    requires ValidLimits(lim) && lim.minFreq < lim.maxFreq
    ensures FreqCommandAsWritten(0xFFFF_FFFF, lim).args == [lim.minFreq]
  {
  }

  /** `#F v` with the value clamped to the frequency range as an unsigned
      number, as intended. */
  function FreqCommand(value: uint32, lim: Limits): (c: Command)
    ensures c.mnemonic == FREQ_MNEMONIC && ValidMnemonic(c.mnemonic) && |c.args| == 1
    ensures ValidLimits(lim) ==> lim.minFreq <= c.args[0] <= lim.maxFreq
    ensures lim.minFreq <= value <= lim.maxFreq ==> c.args[0] == value
    ensures value > lim.maxFreq ==> c.args[0] == lim.maxFreq
    ensures value <= INT32_MAX ==> c == FreqCommandAsWritten(value, lim)
  {
    Command(FREQ_MNEMONIC, [Limit(value, lim.maxFreq, lim.minFreq)])
  }

  /** Every line the driver sends reads back as the command it was built
      from, and is a clean C string ending before any `\r`. */
  lemma DriverLinesReadBack(value: uint32, output: uint32, dc1: int32, dc2: int32, lim: Limits)
    ensures var c := RsModeCommand(value); Decode(Encode(c)) == Some(c)
    ensures var c := DcCommand(output, dc1, lim); c.Some? ==> Decode(Encode(c.value)) == c
    ensures var c := AcCommand(value, lim); Decode(Encode(c)) == Some(c)
    ensures var c := VoltagesCommand(dc1, dc2, value, lim); Decode(Encode(c)) == Some(c)
    ensures var c := FreqRangeCommand(value); c.Some? ==> Decode(Encode(c.value)) == c
    ensures var c := FreqCommand(value, lim); Decode(Encode(c)) == Some(c) && CR !in Encode(c)
    ensures var c := FreqCommandAsWritten(value, lim); Decode(Encode(c)) == Some(c)
    ensures var c := Command(STORE_FREQ_MNEMONIC, []); Decode(Encode(c)) == Some(c)
  {
    CommandRoundTrip(RsModeCommand(value));
    var dc := DcCommand(output, dc1, lim);
    if dc.Some? {
      CommandRoundTrip(dc.value);
    }
    CommandRoundTrip(AcCommand(value, lim));
    CommandRoundTrip(VoltagesCommand(dc1, dc2, value, lim));
    if value <= 2 {
      CommandRoundTrip(FreqRangeCommand(value).value);
    }
    CommandRoundTrip(FreqCommand(value, lim));
    LineIsClean(FreqCommand(value, lim));
    CommandRoundTrip(FreqCommandAsWritten(value, lim));
    CommandRoundTrip(Command(STORE_FREQ_MNEMONIC, []));
  }

  lemma FormatThousand()
    ensures FormatInt(1000) == [0x31, 0x30, 0x30, 0x30]
  {
    var zero := DigitByte(0);
    assert zero == 0x30;
    assert NatDigits(10) == [0x31, 0x30];
    assert NatDigits(100) == NatDigits(10) + [zero];
    assert NatDigits(1000) == NatDigits(100) + [zero];
  }

  /** The example of a DC setting beyond a maximum of 1000: output 1 set to
      999999 sends the line `#DC1 1000`. */
  lemma DcExample(lim: Limits)
    requires lim.maxDc == 1000 && lim.minDc <= 1000
    ensures Encode(DcCommand(1, 999999, lim).value) == [0x23, 0x44, 0x43, 0x31, 0x20, 0x31, 0x30, 0x30, 0x30]
  {
    var c := Command(DC1_MNEMONIC, [1000]);
    assert DcCommand(1, 999999, lim) == Some(c);
    assert [1000][1..] == [];
    assert Encode(c) == [HASH] + DC1_MNEMONIC + ([SP] + FormatInt(1000));
    FormatThousand();
  }
}
