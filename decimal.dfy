/** Decimal text on the wire: the `%d` conversion that `snprintf` applies
    to command arguments, and the base-10 `strtol` that decodes numeric
    replies, for the 32-bit `int` and `long` of the ARM target. */
module Decimal {
  import opened Bytes

  const INT32_MIN: int := -0x8000_0000
  const INT32_MAX: int := 0x7FFF_FFFF
  type int32 = x: int | INT32_MIN <= x <= INT32_MAX
  type uint32 = x: int | 0 <= x < 0x1_0000_0000

  const MINUS: byte := 0x2D
  const PLUS: byte := 0x2B

  /** The int32 that a uint32 becomes when C converts it (two's complement). */
  function AsInt32(u: uint32): (v: int32)
    ensures u <= INT32_MAX ==> v == u
    ensures u > INT32_MAX ==> v < 0 && v == u - 0x1_0000_0000
  {
    if u <= INT32_MAX then u else u - 0x1_0000_0000
  }

  predicate IsDigit(b: byte)
  {
    0x30 <= b <= 0x39
  }

  /** C's `isspace` in the "C" locale: space, tab, newline, vertical tab,
      form feed and carriage return. */
  predicate IsSpace(b: byte)
  {
    b == SP || 0x09 <= b <= 0x0D
  }

  predicate AllDigits(s: seq<byte>)
  {
    forall i :: 0 <= i < |s| ==> IsDigit(s[i])
  }

  function DigitByte(d: nat): (b: byte)
    requires d < 10
    ensures IsDigit(b)
  {
    (0x30 + d) as byte
  }

  function DigitValue(b: byte): (d: nat)
    requires IsDigit(b)
    ensures d < 10
  {
    (b as int) - 0x30
  }

  lemma DigitRoundTrip(d: nat)
    requires d < 10
    ensures DigitValue(DigitByte(d)) == d
  {
  }

  /** The digits of `n`, most significant first, with no leading zero. */
  function NatDigits(n: nat): (s: seq<byte>)
    ensures s != [] && AllDigits(s)
    ensures |s| > 1 ==> s[0] != DigitByte(0)
  {
    if n < 10 then [DigitByte(n)] else NatDigits(n / 10) + [DigitByte(n % 10)]
  }

  /** `%d`: a minus sign for negative values, then the digits of the magnitude. */
  function FormatInt(v: int): (s: seq<byte>)
    ensures s != [] && (s[0] == MINUS <==> v < 0)
    ensures AllDigits(s[if v < 0 then 1 else 0..])
  {
    if v < 0 then [MINUS] + NatDigits(-v) else NatDigits(v)
  }

  /** The number a run of decimal digits denotes. */
  function DigitsValue(s: seq<byte>): nat
    requires AllDigits(s)
  {
    if s == [] then 0 else DigitsValue(s[..|s| - 1]) * 10 + DigitValue(s[|s| - 1])
  }

  lemma {:induction false} NatDigitsValue(n: nat)
    ensures DigitsValue(NatDigits(n)) == n
  {
    if n < 10 {
      DigitRoundTrip(n);
    } else {
      var s := NatDigits(n);
      assert s[..|s| - 1] == NatDigits(n / 10);
      NatDigitsValue(n / 10);
      DigitRoundTrip(n % 10);
      assert DigitsValue(s) == (n / 10) * 10 + n % 10;
    }
  }

  /** The length of the run of white space that starts `s`. */
  function SpaceRun(s: seq<byte>): (k: nat)
    ensures k <= |s|
    ensures forall i :: 0 <= i < k ==> IsSpace(s[i])
    ensures k < |s| ==> !IsSpace(s[k])
  {
    if s != [] && IsSpace(s[0]) then 1 + SpaceRun(s[1..]) else 0
  }

  /** The length of the run of digits that starts `s`. */
  function DigitRun(s: seq<byte>): (k: nat)
    ensures k <= |s|
    ensures AllDigits(s[..k])
    ensures k < |s| ==> !IsDigit(s[k])
  {
    if s != [] && IsDigit(s[0]) then 1 + DigitRun(s[1..]) else 0
  }

  /** The value of the run of digits that starts `s` (0 when there is none). */
  function LeadingValue(s: seq<byte>): nat
  {
    DigitsValue(s[..DigitRun(s)])
  }

  /** The value of an optional sign followed by digits, before saturation. */
  function SignedValue(body: seq<byte>): int
  {
    if body != [] && body[0] == MINUS then -(LeadingValue(body[1..]) as int)
    else if body != [] && body[0] == PLUS then LeadingValue(body[1..])
    else LeadingValue(body)
  }

  /** The nearest 32-bit `long`. */
  function Saturate(v: int): (r: int32)
    ensures INT32_MIN <= v <= INT32_MAX ==> r == v
    ensures v > INT32_MAX ==> r == INT32_MAX
    ensures v < INT32_MIN ==> r == INT32_MIN
  {
    if v > INT32_MAX then INT32_MAX else if v < INT32_MIN then INT32_MIN else v
  }

  /** The number a text begins with, as `strtol(text, &end, 10)` reads it:
      leading white space is skipped, one sign is accepted, then the longest
      run of digits; no digits read as 0, and values beyond a 32-bit `long`
      saturate at its bounds. */
  function ParseLong(s: seq<byte>): (r: int32)
    ensures (forall i :: 0 <= i < |s| ==> !IsDigit(s[i])) ==> r == 0
  {
    Saturate(SignedValue(s[SpaceRun(s)..]))
  }

  lemma {:induction false} DigitRunAll(s: seq<byte>, u: seq<byte>)
    requires AllDigits(s)
    requires u == [] || !IsDigit(u[0])
    ensures DigitRun(s + u) == |s|
  {
    if s != [] {
      assert (s + u)[1..] == s[1..] + u;
      DigitRunAll(s[1..], u);
    }
  }

  /** A digit string followed by a non-digit leads with its own value. */
  lemma LeadingValueOf(d: seq<byte>, u: seq<byte>)
    requires AllDigits(d)
    requires u == [] || !IsDigit(u[0])
    ensures LeadingValue(d + u) == DigitsValue(d)
  {
    DigitRunAll(d, u);
    assert (d + u)[..|d|] == d;
  }

  /** `strtol` on a text that does not start with white space reads its
      signed value. */
  lemma ParseUnspaced(s: seq<byte>)
    requires s != [] && !IsSpace(s[0])
    ensures ParseLong(s) == Saturate(SignedValue(s))
  {
    assert SpaceRun(s) == 0;
    assert s[0..] == s;
  }

  lemma SignedDigits(d: seq<byte>, u: seq<byte>)
    requires d != [] && AllDigits(d)
    requires u == [] || !IsDigit(u[0])
    ensures SignedValue(d + u) == DigitsValue(d)
  {
    assert (d + u)[0] == d[0];
    LeadingValueOf(d, u);
  }

  lemma SignedMinusDigits(d: seq<byte>, u: seq<byte>)
    requires AllDigits(d)
    requires u == [] || !IsDigit(u[0])
    ensures SignedValue([MINUS] + d + u) == -(DigitsValue(d) as int)
  {
    assert ([MINUS] + d + u)[1..] == d + u;
    LeadingValueOf(d, u);
  }

  lemma ParseMinusDigits(s: seq<byte>, d: seq<byte>, u: seq<byte>)
    requires AllDigits(d)
    requires u == [] || !IsDigit(u[0])
    requires s == [MINUS] + d + u
    ensures ParseLong(s) == Saturate(-(DigitsValue(d) as int))
  {
    SignedMinusDigits(d, u);
    ParseUnspaced(s);
  }

  lemma ParseFormattedNegative(v: int32, u: seq<byte>)
    requires v < 0
    requires u == [] || !IsDigit(u[0])
    ensures ParseLong(FormatInt(v) + u) == v
  {
    var m: nat := -(v as int);
    var d := NatDigits(m);
    NatDigitsValue(m);
    ParseMinusDigits(FormatInt(v) + u, d, u);
  }

  lemma ParseDigits(s: seq<byte>, d: seq<byte>, u: seq<byte>)
    requires d != [] && AllDigits(d)
    requires u == [] || !IsDigit(u[0])
    requires s == d + u
    ensures ParseLong(s) == Saturate(DigitsValue(d))
  {
    SignedDigits(d, u);
    assert s[0] == d[0];
    ParseUnspaced(s);
  }

  lemma ParseFormattedNonNegative(v: int32, u: seq<byte>)
    requires v >= 0
    requires u == [] || !IsDigit(u[0])
    ensures ParseLong(FormatInt(v) + u) == v
  {
    var d := NatDigits(v);
    NatDigitsValue(v);
    ParseDigits(FormatInt(v) + u, d, u);
  }

  /** `%d` read back: the text of any 32-bit value, followed by anything
      that is not a digit, parses to that value. */
  lemma ParseFormatted(v: int32, u: seq<byte>)
    requires u == [] || !IsDigit(u[0])
    ensures ParseLong(FormatInt(v) + u) == v
  {
    if v < 0 {
      ParseFormattedNegative(v, u);
    } else {
      ParseFormattedNonNegative(v, u);
    }
  }

  lemma {:induction false} SpaceRunStops(s: seq<byte>, u: seq<byte>)
    requires u != [] && !IsSpace(u[0])
    ensures SpaceRun(s + u) == SpaceRun(s)
  {
    if s != [] {
      assert (s + u)[0] == s[0];
      if IsSpace(s[0]) {
        assert (s + u)[1..] == s[1..] + u;
        SpaceRunStops(s[1..], u);
      }
    }
  }

  lemma {:induction false} DigitRunStops(s: seq<byte>, u: seq<byte>)
    requires u != [] && !IsDigit(u[0])
    ensures DigitRun(s + u) == DigitRun(s)
  {
    if s != [] {
      assert (s + u)[0] == s[0];
      if IsDigit(s[0]) {
        assert (s + u)[1..] == s[1..] + u;
        DigitRunStops(s[1..], u);
      }
    }
  }

  /** The leading value stops at a NUL. */
  lemma LeadingValueStops(s: seq<byte>, u: seq<byte>)
    requires u != [] && u[0] == NUL
    ensures LeadingValue(s + u) == LeadingValue(s)
  {
    DigitRunStops(s, u);
    assert (s + u)[..DigitRun(s)] == s[..DigitRun(s)];
  }

  /** The signed value stops at a NUL. */
  lemma SignedValueStops(body: seq<byte>, u: seq<byte>)
    requires u != [] && u[0] == NUL
    ensures SignedValue(body + u) == SignedValue(body)
  {
    if body == [] {
      LeadingValueStops(body, u);
    } else {
      assert (body + u)[0] == body[0];
      assert (body + u)[1..] == body[1..] + u;
      LeadingValueStops(body[1..], u);
      LeadingValueStops(body, u);
    }
  }

  /** Parsing stops at a NUL: whatever follows a C string's terminator in
      its buffer does not change the value read. */
  lemma ParseStopsAtNul(s: seq<byte>, u: seq<byte>)
    requires u != [] && u[0] == NUL
    ensures ParseLong(s + u) == ParseLong(s)
  {
    SpaceRunStops(s, u);
    var k := SpaceRun(s);
    assert (s + u)[k..] == s[k..] + u;
    SignedValueStops(s[k..], u);
  }
}
