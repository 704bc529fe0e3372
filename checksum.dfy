/** The IPv4 header checksum of setup_pkt_udp_ip_headers (minimal_tx.c), over a
    20-byte header in network order: the 16-bit ones'-complement sum of the
    header words (section 3.1 of RFC 791, RFC 1071), folded once with an
    end-around carry, complemented, with a zero result stored as 0xFFFF. */
module Ipv4Checksum {
  import opened ByteOrder

  const IPV4_HDR_LEN: nat := 20
  /** Index of the 16-bit word that holds hdr_checksum. */
  const CKSUM_WORD: nat := 5

  /** Two values are equal as ones'-complement numbers: congruent modulo 0xFFFF. */
  predicate Congruent(a: int, b: int)
  {
    (a - b) % 0xFFFF == 0
  }

  /** Header word i in network order (ptr16[i] on a big-endian host). */
  function Word(h: seq<byte>, i: nat): (w: u16)
    requires |h| == IPV4_HDR_LEN && i < 10
  {
    BeWord(h, 2 * i)
  }

  /** The ten header words. */
  function HeaderWords(h: seq<byte>): (ws: seq<u16>)
    requires |h| == IPV4_HDR_LEN
    ensures |ws| == 10 && forall i :: 0 <= i < 10 ==> ws[i] == Word(h, i)
  {
    [Word(h, 0), Word(h, 1), Word(h, 2), Word(h, 3), Word(h, 4),
     Word(h, 5), Word(h, 6), Word(h, 7), Word(h, 8), Word(h, 9)]
  }

  /** The accumulator after the nine additions: every word but the checksum
      word. Nine 16-bit words stay far below 2^32, so the uint32 never wraps. */
  function RawSum(h: seq<byte>): (r: nat)
    requires |h| == IPV4_HDR_LEN
    ensures r <= 9 * 0xFFFF < 0x10_0000
  {
    Word(h, 0) + Word(h, 1) + Word(h, 2) + Word(h, 3) + Word(h, 4) +
    Word(h, 6) + Word(h, 7) + Word(h, 8) + Word(h, 9)
  }

  /** The sum of all ten words, checksum word included: what a receiver adds up. */
  function FullSum(h: seq<byte>): (r: nat)
    requires |h| == IPV4_HDR_LEN
    ensures r == RawSum(h) + Word(h, CKSUM_WORD)
  {
    Word(h, 0) + Word(h, 1) + Word(h, 2) + Word(h, 3) + Word(h, 4) +
    Word(h, 5) + Word(h, 6) + Word(h, 7) + Word(h, 8) + Word(h, 9)
  }

  /** The single fold: high half plus low half, then 0xFFFF taken off once if
      that carried out of 16 bits. The result is the ones'-complement value of
      s in 16 bits, and it is zero only when s is. */
  function Fold(s: u32): (r: u16)
    ensures Congruent(s, r)
    ensures r == 0 <==> s == 0
  {
    var t := s / 0x1_0000 + s % 0x1_0000;
    assert s - t == 0xFFFF * (s / 0x1_0000);
    if t > 0xFFFF then t - 0xFFFF else t
  }

  /** The 16-bit complement of a folded sum, with a zero complement replaced by
      0xFFFF: the ones'-complement negation of f that is never zero. */
  function Finish(f: u16): (r: u16)
    ensures r != 0
    ensures Congruent(f + r, 0)
  {
    var c := 0xFFFF - f;  // (~f) & 0xFFFF, as f never exceeds 0xFFFF
    if c == 0 then 0xFFFF else c
  }

  /** The value setup_pkt_udp_ip_headers stores in hdr_checksum. */
  function HeaderChecksum(h: seq<byte>): (r: u16)
    requires |h| == IPV4_HDR_LEN
    ensures r != 0
    ensures Congruent(RawSum(h) + r, 0)
  {
    var s := RawSum(h);
    var f := Fold(s);
    var r := Finish(f);
    CongruentAdd(s, f, r);
    r
  }

  /** h with hdr_checksum (bytes 10 and 11) set to c in network order. */
  function WithChecksum(h: seq<byte>, c: u16): (r: seq<byte>)
    requires |h| == IPV4_HDR_LEN
    ensures |r| == IPV4_HDR_LEN && Word(r, CKSUM_WORD) == c
    ensures r[..10] == h[..10] && r[12..] == h[12..]
  {
    h[..10] + Be16(c) + h[12..]
  }

  /** Two headers that agree outside hdr_checksum differ only by the value
      stored there. */
  lemma SameOutsideChecksum(a: seq<byte>, b: seq<byte>)
    requires |a| == IPV4_HDR_LEN && |b| == IPV4_HDR_LEN
    requires forall i :: 0 <= i < IPV4_HDR_LEN && i != 10 && i != 11 ==> a[i] == b[i]
    ensures a == WithChecksum(b, Word(a, CKSUM_WORD))
  {
    var r := WithChecksum(b, Word(a, CKSUM_WORD));
    assert r[10..12] == a[10..12];
    assert forall i :: 0 <= i < IPV4_HDR_LEN ==> a[i] == r[i];
  }

  /** Writing the two bytes of a checksum in place is storing it. */
  lemma StoreChecksum(h: seq<byte>, c: u16)
    requires |h| == IPV4_HDR_LEN
    ensures h[10 := Be16(c)[0]][11 := Be16(c)[1]] == WithChecksum(h, c)
  {
    var a := h[10 := Be16(c)[0]][11 := Be16(c)[1]];
    SameOutsideChecksum(a, h);
  }

  /** Storing a checksum replaces whatever an earlier store put there. */
  lemma WithChecksumTwice(h: seq<byte>, c1: u16, c2: u16)
    requires |h| == IPV4_HDR_LEN
    ensures WithChecksum(WithChecksum(h, c1), c2) == WithChecksum(h, c2)
  {
  }

  /** A received header is accepted when its ten words, checksum included,
      fold to all ones. */
  predicate ChecksumValid(h: seq<byte>)
    requires |h| == IPV4_HDR_LEN
  {
    Fold(FullSum(h)) == 0xFFFF
  }

  lemma MultipleIsCongruent(a: int, b: int, k: int)
    requires a - b == 0xFFFF * k
    ensures Congruent(a, b)
  {
  }

  lemma CongruentSymmetric(a: int, b: int)
    requires Congruent(a, b)
    ensures Congruent(b, a)
  {
    var k := (a - b) / 0xFFFF;
    assert b - a == 0xFFFF * -k;
  }

  lemma CongruentAdd(a: int, b: int, r: int)
    requires Congruent(a, b) && Congruent(b + r, 0)
    ensures Congruent(a + r, 0)
  {
    var k1 := (a - b) / 0xFFFF;
    var k2 := (b + r) / 0xFFFF;
    assert a + r == 0xFFFF * (k1 + k2);
  }

  /** Two nonzero 16-bit values that are equal as ones'-complement numbers are
      the same value. */
  lemma CongruentUnique(a: int, b: int)
    requires 0 < a <= 0xFFFF && 0 < b <= 0xFFFF && Congruent(a, b)
    ensures a == b
  {
  }

  /** The fold of a nonzero sum is the one nonzero 16-bit value congruent to it. */
  lemma FoldByCongruence(s: u32, f: u16)
    requires s != 0 && f != 0 && Congruent(s, f)
    ensures Fold(s) == f
  {
    var k1 := (s - Fold(s)) / 0xFFFF;
    var k2 := (s - f) / 0xFFFF;
    assert s - Fold(s) == 0xFFFF * k1 && s - f == 0xFFFF * k2;
    assert Fold(s) - f == 0xFFFF * (k2 - k1);
    CongruentUnique(Fold(s), f);
  }

  /** Whatever hdr_checksum held before, the computed checksum is the same:
      the checksum word is skipped, not added. */
  lemma ChecksumIgnoresOldField(h: seq<byte>, c: u16)
    requires |h| == IPV4_HDR_LEN
    ensures RawSum(WithChecksum(h, c)) == RawSum(h)
    ensures HeaderChecksum(WithChecksum(h, c)) == HeaderChecksum(h)
  {
    var h' := WithChecksum(h, c);
    forall i | 0 <= i < 10 && i != CKSUM_WORD
      ensures Word(h', i) == Word(h, i)
    {
    }
  }

  /** Self-verification (section 3.1 of RFC 791): once the computed checksum is
      stored, the ten words of the header fold to 0xFFFF. */
  lemma {:induction false} SelfVerification(h: seq<byte>)
    requires |h| == IPV4_HDR_LEN
    ensures ChecksumValid(WithChecksum(h, HeaderChecksum(h)))
  {
    var c := HeaderChecksum(h);
    ChecksumIgnoresOldField(h, c);
    assert FullSum(WithChecksum(h, c)) == RawSum(h) + c;
    FoldOfNegatedSum(RawSum(h), c);
  }

  /** Adding a nonzero ones'-complement negation to a sum folds to all ones. */
  lemma FoldOfNegatedSum(s: nat, c: u16)
    requires s <= 9 * 0xFFFF && c != 0 && Congruent(s + c, 0)
    ensures Fold(s + c) == 0xFFFF
  {
    var k := (s + c) / 0xFFFF;
    assert s + c == 0xFFFF * k;
    MultipleIsCongruent(s + c, 0xFFFF, k - 1);
    FoldByCongruence(s + c, 0xFFFF);
  }

  // Reference definition: the Internet checksum as RFC 1071 describes it, one
  // end-around-carry addition at a time, against which the single fold of the
  // 32-bit accumulator is checked.

  /** Ones'-complement addition of two 16-bit values: a carry out of bit 15 is
      added back in at bit 0. */
  function OnesAdd(a: u16, b: u16): (r: u16)
    ensures Congruent(a + b, r)
    ensures r == 0 <==> a + b == 0
  {
    if a + b > 0xFFFF then a + b - 0xFFFF else a + b
  }

  /** Ones'-complement sum of a word sequence, added left to right. */
  function OnesSum(ws: seq<u16>): (r: u16)
  {
    if ws == [] then 0 else OnesAdd(OnesSum(ws[..|ws| - 1]), ws[|ws| - 1])
  }

  /** Plain integer sum of a word sequence. */
  function Sum(ws: seq<u16>): (r: nat)
  {
    if ws == [] then 0 else Sum(ws[..|ws| - 1]) + ws[|ws| - 1]
  }

  /** The RFC 1071 sum is the ones'-complement value of the plain sum, and it
      is zero exactly when every word is. */
  lemma {:induction false} OnesSumMatchesSum(ws: seq<u16>)
    ensures Congruent(Sum(ws), OnesSum(ws))
    ensures OnesSum(ws) == 0 <==> Sum(ws) == 0
  {
    if ws != [] {
      var init, last := ws[..|ws| - 1], ws[|ws| - 1];
      OnesSumMatchesSum(init);
      var a := OnesSum(init);
      var k1 := (Sum(init) - a) / 0xFFFF;
      var k2 := (a + last - OnesSum(ws)) / 0xFFFF;
      assert Sum(ws) - OnesSum(ws) == 0xFFFF * (k1 + k2);
    }
  }

  /** Folding the whole sum once, as the accumulator is folded, gives the same
      16-bit value as adding with an end-around carry after every word. */
  lemma FoldMatchesOnesSum(ws: seq<u16>)
    requires Sum(ws) < 0x1_0000_0000
    ensures Fold(Sum(ws)) == OnesSum(ws)
  {
    OnesSumMatchesSum(ws);
    var s := Sum(ws);
    if s != 0 {
      CongruentSymmetric(s, Fold(s));
      var k1 := (Fold(s) - s) / 0xFFFF;
      var k2 := (s - OnesSum(ws)) / 0xFFFF;
      assert Fold(s) - OnesSum(ws) == 0xFFFF * (k1 + k2);
      CongruentUnique(Fold(s), OnesSum(ws));
    }
  }

  lemma SumOfNine(ws: seq<u16>)
    requires |ws| == 9
    ensures Sum(ws) == ws[0] as int + ws[1] + ws[2] + ws[3] + ws[4] + ws[5] + ws[6] + ws[7] + ws[8]
  {
    assert Sum(ws[..0]) == 0;
    SumStep(ws, 0); SumStep(ws, 1); SumStep(ws, 2);
    assert Sum(ws[..3]) == ws[0] as int + ws[1] + ws[2];
    SumStep(ws, 3); SumStep(ws, 4); SumStep(ws, 5);
    assert Sum(ws[..6]) == ws[0] as int + ws[1] + ws[2] + ws[3] + ws[4] + ws[5];
    SumStep(ws, 6); SumStep(ws, 7); SumStep(ws, 8);
    assert ws[..9] == ws;
  }

  lemma SumStep(ws: seq<u16>, k: nat)
    requires k < |ws|
    ensures Sum(ws[..k + 1]) == Sum(ws[..k]) + ws[k]
  {
    assert ws[..k + 1][..k] == ws[..k];
  }

  /** The accumulator of setup_pkt_udp_ip_headers, folded once, is the RFC 1071
      ones'-complement sum of the header with its checksum word left out. */
  lemma FoldedRawSumIsOnesSum(h: seq<byte>)
    requires |h| == IPV4_HDR_LEN
    ensures Fold(RawSum(h)) == OnesSum(HeaderWords(h)[..CKSUM_WORD] + HeaderWords(h)[CKSUM_WORD + 1..])
  {
    var ws := HeaderWords(h)[..CKSUM_WORD] + HeaderWords(h)[CKSUM_WORD + 1..];
    SumOfNine(ws);
    FoldMatchesOnesSum(ws);
  }

  /** A header passes the receiver's check exactly when the RFC 1071 sum of
      all ten of its words is all ones. */
  lemma ChecksumValidIsOnesSum(h: seq<byte>)
    requires |h| == IPV4_HDR_LEN
    ensures ChecksumValid(h) <==> OnesSum(HeaderWords(h)) == 0xFFFF
  {
    var ws := HeaderWords(h);
    SumOfNine(ws[..9]);
    assert Sum(ws) == FullSum(h);
    FoldMatchesOnesSum(ws);
  }
}
