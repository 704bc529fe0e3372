/** How minimal_tx.c touches header memory on a little-endian host, where
    RTE_CPU_TO_BE_16 swaps bytes: 16-bit fields are read and written in host
    order (low byte first), and rte_memcpy copies bytes. The checksum summed
    over these host-order words is shown to put the same bytes on the wire as
    the network-order computation of Ipv4Checksum (section 2(B) of RFC 1071). */
module HostOrder {
  import opened ByteOrder
  import opened Ipv4Checksum

  /** The bytes a little-endian host stores for the uint16_t v: low byte first. */
  function HostBytes16(v: u16): (r: seq<byte>)
    ensures |r| == 2 && r == [Be16(v)[1], Be16(v)[0]]
  {
    [v % 0x100, v / 0x100]
  }

  /** ptr16[i] on a little-endian host: the word at bytes 2i, 2i + 1 read low
      byte first, which is header word i with its bytes exchanged. */
  function HostWord(h: seq<byte>, i: nat): (r: u16)
    requires |h| == IPV4_HDR_LEN && i < 10
    ensures r % 0x100 == h[2 * i] && r / 0x100 == h[2 * i + 1]
  {
    h[2 * i] + (h[2 * i + 1] as int) * 0x100
  }

  lemma HostWordIsSwapped(h: seq<byte>)
    requires |h| == IPV4_HDR_LEN
    ensures forall i :: 0 <= i < 10 ==> HostWord(h, i) == Swap16(Word(h, i))
  {
    forall i | 0 <= i < 10
      ensures HostWord(h, i) == Swap16(Word(h, i))
    {
      DivMod256(Word(h, i), h[2 * i], h[2 * i + 1]);
    }
  }

  /** The accumulator as the C code adds it up on a little-endian host. */
  function HostRawSum(h: seq<byte>): (r: nat)
    requires |h| == IPV4_HDR_LEN
    ensures r <= 9 * 0xFFFF < 0x10_0000
  {
    HostWord(h, 0) + HostWord(h, 1) + HostWord(h, 2) + HostWord(h, 3) + HostWord(h, 4) +
    HostWord(h, 6) + HostWord(h, 7) + HostWord(h, 8) + HostWord(h, 9)
  }

  /** The checksum as the C code computes it on a little-endian host, as the
      uint16_t it assigns to hdr_checksum. */
  function HostChecksum(h: seq<byte>): (r: u16)
    requires |h| == IPV4_HDR_LEN
    ensures r != 0
    ensures Congruent(HostRawSum(h) + r, 0)
  {
    var s := HostRawSum(h);
    var f := Fold(s);
    var r := Finish(f);
    CongruentAdd(s, f, r);
    r
  }

  /** Every word of ws with its bytes exchanged. */
  function Swapped(ws: seq<u16>): (r: seq<u16>)
    ensures |r| == |ws| && forall i :: 0 <= i < |ws| ==> r[i] == Swap16(ws[i])
  {
    seq(|ws|, i requires 0 <= i < |ws| => Swap16(ws[i]))
  }

  /** The sum of the high bytes of the words of ws. */
  function HighBytes(ws: seq<u16>): (r: nat)
  {
    if ws == [] then 0 else HighBytes(ws[..|ws| - 1]) + ws[|ws| - 1] / 0x100
  }

  /** Exchanging the bytes of every word multiplies the plain sum by 256, up to
      a multiple of 0xFFFF. */
  lemma {:induction false} SwappedSumScales(ws: seq<u16>)
    ensures 0x100 * Sum(ws) == Sum(Swapped(ws)) + 0xFFFF * HighBytes(ws)
    ensures Sum(Swapped(ws)) == 0 <==> Sum(ws) == 0
  {
    if ws != [] {
      var n := |ws|;
      assert Swapped(ws)[..n - 1] == Swapped(ws[..n - 1]);
      SwappedSumScales(ws[..n - 1]);
      Swap16Scales(ws[n - 1]);
    }
  }

  /** The host-order accumulator is 256 times the network-order one, modulo
      0xFFFF, and is zero exactly when that one is. */
  lemma HostRawSumScales(h: seq<byte>)
    requires |h| == IPV4_HDR_LEN
    ensures Congruent(0x100 * RawSum(h), HostRawSum(h))
    ensures HostRawSum(h) == 0 <==> RawSum(h) == 0
  {
    var ws := [Word(h, 0), Word(h, 1), Word(h, 2), Word(h, 3), Word(h, 4),
               Word(h, 6), Word(h, 7), Word(h, 8), Word(h, 9)];
    var hs := [HostWord(h, 0), HostWord(h, 1), HostWord(h, 2), HostWord(h, 3), HostWord(h, 4),
               HostWord(h, 6), HostWord(h, 7), HostWord(h, 8), HostWord(h, 9)];
    HostWordIsSwapped(h);
    assert hs == Swapped(ws);
    SumOfNine(ws);
    SumOfNine(hs);
    SwappedSumScales(ws);
    MultipleIsCongruent(0x100 * RawSum(h), HostRawSum(h), HighBytes(ws));
  }

  /** Folding a sum 256 times as large (modulo 0xFFFF) gives the byte-swapped fold. */
  lemma SwapFold(s: u32, hs: u32)
    requires Congruent(0x100 * s, hs) && (hs == 0 <==> s == 0)
    ensures Fold(hs) == Swap16(Fold(s))
  {
    var f, g := Fold(s), Fold(hs);
    if s != 0 {
      // g and Swap16(f) are both nonzero and both congruent to 256 * s.
      var sf, q := Swap16(f), f / 0x100;
      Swap16Scales(f);
      Swap16SwapsBytes(f);
      assert 0x100 * (f as int) == sf + 0xFFFF * q && sf != 0;
      var k1 := (hs - g) / 0xFFFF;
      assert hs - g == 0xFFFF * k1;
      var k2 := (0x100 * s - hs) / 0xFFFF;
      assert 0x100 * s - hs == 0xFFFF * k2;
      var k3 := (s - f) / 0xFFFF;
      assert s - f == 0xFFFF * k3;
      MultipleIsCongruent(g, sf, q - k1 - k2 + 0x100 * k3);
      CongruentUnique(g, sf);
    }
  }

  /** Complementing, with the zero replacement, commutes with exchanging bytes. */
  lemma FinishSwap(f: u16)
    ensures Finish(Swap16(f)) == Swap16(Finish(f))
  {
    if f == 0xFFFF {
      assert Swap16(f) == 0xFFFF;
    } else {
      Swap16Involutive(f);
      assert Swap16(f) != 0xFFFF;
      assert Finish(f) == 0xFFFF - f;
      assert Finish(Swap16(f)) == 0xFFFF - Swap16(f);
      ComplementSwap(f);
    }
  }

  /** The 16-bit complement commutes with exchanging bytes. */
  lemma ComplementSwap(f: u16)
    ensures 0xFFFF - Swap16(f) == Swap16(0xFFFF - f)
  {
    DivMod256(0xFFFF - f, 0xFF - f / 0x100, 0xFF - f % 0x100);
  }

  lemma DivMod256(x: int, q: int, r: int)
    requires x == q * 0x100 + r && 0 <= r < 0x100
    ensures x / 0x100 == q && x % 0x100 == r
  {
  }

  /** Byte-order independence (section 2(B) of RFC 1071): the uint16_t the
      little-endian host stores in hdr_checksum lays down, byte for byte, the
      network-order checksum. */
  lemma HostChecksumStoresNetworkBytes(h: seq<byte>)
    requires |h| == IPV4_HDR_LEN
    ensures HostChecksum(h) == Swap16(HeaderChecksum(h))
    ensures HostBytes16(HostChecksum(h)) == Be16(HeaderChecksum(h))
  {
    HostRawSumScales(h);
    SwapFold(RawSum(h), HostRawSum(h));
    FinishSwap(Fold(RawSum(h)));
    StoreSwappedIsBe16(HeaderChecksum(h));
  }

  /** Converting with RTE_CPU_TO_BE_16 and then storing in host order leaves the
      value in network order. */
  lemma StoreSwappedIsBe16(x: u16)
    ensures HostBytes16(Swap16(x)) == Be16(x)
  {
  }

  /** A host-order store of the uint16_t v at a[off] (a field assignment). */
  method Store16(a: array<byte>, off: nat, v: u16)
    requires off + 2 <= a.Length
    modifies a
    ensures a[..] == old(a[..])[off := HostBytes16(v)[0]][off + 1 := HostBytes16(v)[1]]
  {
    a[off] := v % 0x100;
    a[off + 1] := v / 0x100;
  }

  /** A 32-bit field assignment of rte_cpu_to_be_32(x) at a[off]: whatever
      the host's byte order, the bytes of x land most significant first. */
  method StoreBe32(a: array<byte>, off: nat, x: u32)
    requires off + 4 <= a.Length
    modifies a
    ensures a[..] == old(a[..])[off := Be32(x)[0]][off + 1 := Be32(x)[1]]
                               [off + 2 := Be32(x)[2]][off + 3 := Be32(x)[3]]
  {
    var b := Be32(x);
    a[off], a[off + 1], a[off + 2], a[off + 3] := b[0], b[1], b[2], b[3];
  }

  /** rte_memcpy of the bytes src to a[off..]. */
  method CopyBytes(a: array<byte>, off: nat, src: seq<byte>)
    requires off + |src| <= a.Length
    modifies a
    ensures a[..] == old(a[..])[..off] + src + old(a[..])[off + |src|..]
  {
    forall i | off <= i < off + |src| {
      a[i] := src[i - off];
    }
    assert a[..] == old(a[..])[..off] + src + old(a[..])[off + |src|..];
  }
}
