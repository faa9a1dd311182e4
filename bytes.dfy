/** Bytes as they travel over the RS-485 link, optional values, and the
    sequence helpers that the transport and the protocol share. */
module Bytes {

  /** One octet on the wire (the source's `uint8_t` / `char`). */
  type byte = bv8

  /** A value that may be absent: a NULL pointer, a receive that timed out. */
  datatype Option<+T> = None | Some(value: T)

  /** Carriage return, the line terminator of the instrument's protocol. */
  const CR: byte := 0x0D
  /** The NUL byte that ends a C string. */
  const NUL: byte := 0x00
  /** Space, the argument separator of the instrument's commands. */
  const SP: byte := 0x20

  function Min(a: int, b: int): int
  {
    if a <= b then a else b
  }

  /** The position of the first `t` in `s`, or `|s|` when `s` holds none. */
  function FirstIndexOf(s: seq<byte>, t: byte): (i: nat)
    ensures i <= |s|
    ensures i < |s| ==> s[i] == t
    ensures forall j :: 0 <= j < i ==> s[j] != t
  {
    if s == [] then 0
    else if s[0] == t then 0
    else 1 + FirstIndexOf(s[1..], t)
  }

  /** `FirstIndexOf` is the only index with its two properties. */
  lemma FirstIndexOfUnique(s: seq<byte>, t: byte, i: nat)
    requires i <= |s|
    requires i < |s| ==> s[i] == t
    requires forall j :: 0 <= j < i ==> s[j] != t
    ensures FirstIndexOf(s, t) == i
  {
  }

  /** The first `t` of `a + b` is where `b` starts, when `a` holds no `t`
      and `b` is empty or starts with `t`. */
  lemma FirstIndexOfAfter(a: seq<byte>, b: seq<byte>, t: byte)
    requires t !in a
    requires b == [] || b[0] == t
    ensures FirstIndexOf(a + b, t) == |a|
  {
    if b != [] {
      assert (a + b)[|a|] == t;
    }
  }
}
