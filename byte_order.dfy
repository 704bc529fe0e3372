/** Byte-order conversions used by minimal_tx.c: the 16-bit swap macros and the
    big-endian (network order) encoding of multi-byte header fields. */
module ByteOrder {

  type byte = x: int | 0 <= x < 0x100
  type u16 = x: int | 0 <= x < 0x1_0000
  type u32 = x: int | 0 <= x < 0x1_0000_0000

  /** 256 to the power n: the number of values n bytes can hold. */
  function Pow256(n: nat): (r: nat)
    ensures r >= 1
  {
    if n == 0 then 1 else 0x100 * Pow256(n - 1)
  }

  /** The n-byte network-order (big-endian) encoding of x, most significant byte
      first: what rte_cpu_to_be_N followed by a store leaves in memory. */
  function BeBytes(x: nat, n: nat): (r: seq<byte>)
    ensures |r| == n
  {
    if n == 0 then [] else BeBytes(x / 0x100, n - 1) + [x % 0x100]
  }

  /** The value of a network-order byte string, most significant byte first. */
  function BeValue(s: seq<byte>): (r: nat)
    ensures r < Pow256(|s|)
  {
    if s == [] then 0
    else
      var v := BeValue(s[..|s| - 1]);
      assert v <= Pow256(|s| - 1) - 1;
      v * 0x100 + s[|s| - 1]
  }

  /** Decoding an encoding gives back every value that fits in n bytes. */
  lemma {:induction false} BeValueOfBeBytes(x: nat, n: nat)
    requires x < Pow256(n)
    ensures BeValue(BeBytes(x, n)) == x
  {
    if n > 0 {
      var s := BeBytes(x, n);
      assert s[..n - 1] == BeBytes(x / 0x100, n - 1) && s[n - 1] == x % 0x100;
      assert x / 0x100 < Pow256(n - 1);
      BeValueOfBeBytes(x / 0x100, n - 1);
      assert BeValue(s) == (x / 0x100) * 0x100 + x % 0x100;
    }
  }

  /** Encoding the value of a byte string gives back the byte string. */
  lemma {:induction false} BeBytesOfBeValue(s: seq<byte>)
    ensures BeBytes(BeValue(s), |s|) == s
  {
    if s != [] {
      var n := |s|;
      var v := BeValue(s[..n - 1]);
      assert BeValue(s) / 0x100 == v && BeValue(s) % 0x100 == s[n - 1];
      BeBytesOfBeValue(s[..n - 1]);
      assert s == s[..n - 1] + [s[n - 1]];
    }
  }

  /** A 16-bit field in network order: high byte, then low byte. */
  function Be16(x: u16): (r: seq<byte>)
    ensures r == [x / 0x100, x % 0x100]
  {
    assert BeBytes(x / 0x100, 1) == [x / 0x100 % 0x100];
    BeBytes(x, 2)
  }

  /** A 32-bit field in network order, most significant byte first. */
  function Be32(x: u32): (r: seq<byte>)
    ensures r == [x / 0x100_0000, x / 0x1_0000 % 0x100, x / 0x100 % 0x100, x % 0x100]
  {
    var b1, b2, b3 := x / 0x100, x / 0x1_0000, x / 0x100_0000;
    assert b1 / 0x100 == b2 && b2 / 0x100 == b3;
    assert BeBytes(b3, 1) == [b3 % 0x100];
    assert BeBytes(b2, 2) == [b3 % 0x100, b2 % 0x100];
    assert BeBytes(b1, 3) == [b3 % 0x100, b2 % 0x100, b1 % 0x100];
    BeBytes(x, 4)
  }

  /** The 16-bit network-order word stored at s[off], s[off + 1]. */
  function BeWord(s: seq<byte>, off: nat): (r: u16)
    requires off + 2 <= |s|
    ensures Be16(r) == s[off..off + 2]
  {
    assert s[off..off + 2][..1] == [s[off]];
    (s[off] as int) * 0x100 + s[off + 1]
  }

  /** RTE_CPU_TO_BE_16 and RTE_BE_TO_CPU_16 on a little-endian host (the same
      expression for both directions): the two bytes of x exchanged. The
      (uint16_t) cast truncates nothing, since the two halves cannot overlap. */
  function Swap16(x: u16): (r: u16)
    ensures r / 0x100 == x % 0x100 && r % 0x100 == x / 0x100
  {
    (x % 0x100) * 0x100 + x / 0x100
  }

  /** Swap16 exchanges the network-order bytes, and only zero swaps to zero. */
  lemma Swap16SwapsBytes(x: u16)
    ensures Be16(Swap16(x)) == [Be16(x)[1], Be16(x)[0]]
    ensures Swap16(x) == 0 <==> x == 0
  {
  }

  /** Swapping twice gives back the original value, whichever direction comes
      first: RTE_BE_TO_CPU_16(RTE_CPU_TO_BE_16(x)) == x. */
  lemma Swap16Involutive(x: u16)
    ensures Swap16(Swap16(x)) == x
  {
  }

  /** Exchanging the bytes of x multiplies it by 256 modulo 0xFFFF, because
      256 * 256 == 0x10000 is one more than 0xFFFF. This is the fact behind
      the byte-order independence of the Internet checksum. */
  lemma Swap16Scales(x: u16)
    ensures 0x100 * x == Swap16(x) + 0xFFFF * (x / 0x100)
  {
  }
}
