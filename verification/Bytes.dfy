/** Bytes, byte strings and the little-endian integers that every layer of the uploader exchanges. */
module Bytes {

  datatype Option<+T> = None | Some(value: T)

  newtype byte = x: int | 0 <= x < 0x100

  /** The number of values that fit into `width` bytes. */
  function Capacity(width: nat): (c: nat)
    ensures c >= 1
  {
    if width == 0 then 1 else 0x100 * Capacity(width - 1)
  }

  /** `int.to_bytes(width, byteorder="little", signed=False)`, for numbers that fit. */
  function ToLe(n: nat, width: nat): (s: seq<byte>)
    ensures |s| == width
  {
    if width == 0 then [] else [(n % 0x100) as byte] + ToLe(n / 0x100, width - 1)
  }

  /** `int.from_bytes(s, byteorder="little", signed=False)`. */
  function FromLe(s: seq<byte>): nat {
    if s == [] then 0 else s[0] as nat + 0x100 * FromLe(s[1..])
  }

  lemma {:induction false} FromLeFits(s: seq<byte>)
    ensures FromLe(s) < Capacity(|s|)
  {
    if s != [] {
      FromLeFits(s[1..]);
    }
  }

  lemma {:induction false} FromToLe(n: nat, width: nat)
    requires n < Capacity(width)
    ensures FromLe(ToLe(n, width)) == n
  {
    if width > 0 {
      var s := ToLe(n, width);
      assert s[1..] == ToLe(n / 0x100, width - 1);
      FromToLe(n / 0x100, width - 1);
    }
  }

  lemma LowestDigit(b: byte, rest: nat)
    ensures var n := b as nat + 0x100 * rest; (n % 0x100) as byte == b && n / 0x100 == rest
  {
  }

  lemma {:induction false} ToFromLe(s: seq<byte>)
    ensures ToLe(FromLe(s), |s|) == s
  {
    if s != [] {
      ToFromLe(s[1..]);
      LowestDigit(s[0], FromLe(s[1..]));
      assert s == [s[0]] + s[1..];
    }
  }

  /** The capacities the protocols use: 8, 16 and 32-bit fields. */
  lemma Capacities()
    ensures Capacity(1) == 0x100
    ensures Capacity(2) == 0x1_0000
    ensures Capacity(4) == 0x1_0000_0000
  {
    assert Capacity(0) == 1;
    assert Capacity(2) == 0x100 * Capacity(1);
    assert Capacity(3) == 0x100 * Capacity(2);
  }

  /** `n` copies of one byte. */
  function Fill(b: byte, n: nat): (s: seq<byte>)
    ensures |s| == n && forall i :: 0 <= i < n ==> s[i] == b
  {
    seq(n, _ => b)
  }

  /** The stream that a list of chunks spells out. */
  function Flatten(chunks: seq<seq<byte>>): seq<byte> {
    if chunks == [] then [] else chunks[0] + Flatten(chunks[1..])
  }

}
