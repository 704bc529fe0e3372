/** The fixed UDP and IPv4 headers of minimal_tx.c and setup_pkt_udp_ip_headers,
    which fills them in. Header contents are given in network order. */
module Headers {
  import opened ByteOrder
  import opened Ipv4Checksum
  import opened HostOrder

  const UDP_HDR_LEN: nat := 8
  const UDP_SRC_PORT: u16 := 6666
  const UDP_DST_PORT: u16 := 6666
  /** 172.30.0.73 and 172.30.0.225; the shifted octets occupy disjoint bits, so
      the C code's bitwise or is a sum. */
  const IP_SRC_ADDR: u32 := 172 * 0x100_0000 + 30 * 0x1_0000 + 0 * 0x100 + 73
  const IP_DST_ADDR: u32 := 172 * 0x100_0000 + 30 * 0x1_0000 + 0 * 0x100 + 225
  const IP_DEFTTL: byte := 64
  const IP_VERSION: byte := 0x40
  const IP_HDRLEN: byte := 0x05
  const IP_VHL_DEF: byte := IP_VERSION + IP_HDRLEN
  const IPPROTO_UDP: byte := 17

  /** The UDP header: both ports 6666, datagram length pkt_data_len + 8 cut to
      16 bits, checksum disabled (zero). */
  function UdpHeader(pktDataLen: u16): (r: seq<byte>)
    ensures |r| == UDP_HDR_LEN
    ensures BeWord(r, 0) == UDP_SRC_PORT && BeWord(r, 2) == UDP_DST_PORT
    ensures BeWord(r, 4) == (pktDataLen + UDP_HDR_LEN) % 0x1_0000
    ensures r[6..8] == [0, 0]
  {
    Be16(UDP_SRC_PORT) + Be16(UDP_DST_PORT) + Be16((pktDataLen + UDP_HDR_LEN) % 0x1_0000) + Be16(0)
  }

  /** total_length: the UDP length cut to 16 bits, plus 20, cut to 16 bits
      again; the same as one cut of the whole sum. */
  function TotalLength(pktDataLen: u16): (r: u16)
    ensures r == (pktDataLen + UDP_HDR_LEN + IPV4_HDR_LEN) % 0x1_0000
  {
    ((pktDataLen + UDP_HDR_LEN) % 0x1_0000 + IPV4_HDR_LEN) % 0x1_0000
  }

  /** The two addresses in network order, octet by octet. */
  lemma AddressBytes()
    ensures Be32(IP_SRC_ADDR) == [172, 30, 0, 73]
    ensures Be32(IP_DST_ADDR) == [172, 30, 0, 225]
  {
  }

  /** The IPv4 header fields, with hdr_checksum still zero. */
  function Ipv4Fields(pktDataLen: u16): (r: seq<byte>)
    ensures |r| == IPV4_HDR_LEN
  {
    var len := Be16(TotalLength(pktDataLen));
    var src := Be32(IP_SRC_ADDR);
    var dst := Be32(IP_DST_ADDR);
    [IP_VHL_DEF, 0, len[0], len[1],   // version_ihl, type_of_service, total_length
     0, 0, 0, 0,                      // packet_id, fragment_offset
     IP_DEFTTL, IPPROTO_UDP, 0, 0,    // time_to_live, next_proto_id, hdr_checksum
     src[0], src[1], src[2], src[3],  // src_addr
     dst[0], dst[1], dst[2], dst[3]]  // dst_addr
  }

  /** The IPv4 header as setup_pkt_udp_ip_headers leaves it: the fields above
      with the checksum of those fields stored in hdr_checksum. */
  function Ipv4Header(pktDataLen: u16): (r: seq<byte>)
    ensures |r| == IPV4_HDR_LEN
    ensures r[..10] == Ipv4Fields(pktDataLen)[..10] && r[12..] == Ipv4Fields(pktDataLen)[12..]
  {
    var f := Ipv4Fields(pktDataLen);
    WithChecksum(f, HeaderChecksum(f))
  }

  /** The stored checksum is nonzero, is the checksum of the finished header
      itself, and makes the header validate on receipt. */
  lemma Ipv4HeaderChecksum(pktDataLen: u16)
    ensures var r := Ipv4Header(pktDataLen);
      Word(r, CKSUM_WORD) == HeaderChecksum(r) != 0 && ChecksumValid(r)
  {
    var f := Ipv4Fields(pktDataLen);
    ChecksumIgnoresOldField(f, HeaderChecksum(f));
    SelfVerification(f);
  }

  /** Field by field, in network order: version 4 with five 32-bit words of
      header, no type of service, total length pkt_data_len + 28 cut to 16
      bits, packet id 0, no fragmentation, TTL 64, protocol UDP, addresses
      172.30.0.73 and 172.30.0.225. */
  lemma Ipv4HeaderFields(pktDataLen: u16)
    ensures var r := Ipv4Header(pktDataLen);
      && r[0] == 0x45 && r[1] == 0
      && BeWord(r, 2) == TotalLength(pktDataLen)
      && BeWord(r, 4) == 0 && BeWord(r, 6) == 0
      && r[8] == 64 && r[9] == 17
      && r[12..16] == [172, 30, 0, 73] && r[16..20] == [172, 30, 0, 225]
  {
    var r, f := Ipv4Header(pktDataLen), Ipv4Fields(pktDataLen);
    SameFieldsAt(r, f);
    var t := TotalLength(pktDataLen);
    assert r[2] == t / 0x100 && r[3] == t % 0x100;
    AddressBytes();
    assert r[12..16] == [r[12], r[13], r[14], r[15]];
    assert r[16..20] == [r[16], r[17], r[18], r[19]];
  }

  /** A header whose bytes other than hdr_checksum are those of the fields
      above is those fields with its own checksum word stored. */
  lemma Ipv4FieldsWritten(a: seq<byte>, pktDataLen: u16)
    requires |a| == IPV4_HDR_LEN
    requires a[0] == IP_VHL_DEF && a[1] == 0
    requires a[2] == Be16(TotalLength(pktDataLen))[0] && a[3] == Be16(TotalLength(pktDataLen))[1]
    requires a[4] == 0 && a[5] == 0 && a[6] == 0 && a[7] == 0
    requires a[8] == IP_DEFTTL && a[9] == IPPROTO_UDP
    requires a[12] == Be32(IP_SRC_ADDR)[0] && a[13] == Be32(IP_SRC_ADDR)[1]
    requires a[14] == Be32(IP_SRC_ADDR)[2] && a[15] == Be32(IP_SRC_ADDR)[3]
    requires a[16] == Be32(IP_DST_ADDR)[0] && a[17] == Be32(IP_DST_ADDR)[1]
    requires a[18] == Be32(IP_DST_ADDR)[2] && a[19] == Be32(IP_DST_ADDR)[3]
    ensures a == WithChecksum(Ipv4Fields(pktDataLen), Word(a, CKSUM_WORD))
  {
    var f := Ipv4Fields(pktDataLen);
    forall i | 0 <= i < IPV4_HDR_LEN && i != 10 && i != 11
      ensures a[i] == f[i]
    {
    }
    SameOutsideChecksum(a, f);
  }

  lemma SameFieldsAt(r: seq<byte>, f: seq<byte>)
    requires |r| == IPV4_HDR_LEN && |f| == IPV4_HDR_LEN
    requires r[..10] == f[..10] && r[12..] == f[12..]
    ensures forall i :: 0 <= i < IPV4_HDR_LEN && i != 10 && i != 11 ==> r[i] == f[i]
  {
    forall i | 0 <= i < IPV4_HDR_LEN && i != 10 && i != 11
      ensures r[i] == f[i]
    {
      if i < 10 {
        assert r[i] == r[..10][i];
      } else {
        assert r[i] == r[12..][i - 12];
      }
    }
  }

  /** setup_pkt_udp_ip_headers as the C code runs on a little-endian host:
      16-bit fields converted with RTE_CPU_TO_BE_16 and assigned in host order,
      the checksum accumulated over host-order words, folded, complemented and
      assigned. Whatever the two headers held before, they end up holding the
      network-order headers above. The three steps are the three commented
      blocks of the C function. */
  method SetupPktUdpIpHeaders(ipHdr: array<byte>, udpHdr: array<byte>, pktDataLen: u16)
    requires ipHdr.Length == IPV4_HDR_LEN && udpHdr.Length == UDP_HDR_LEN
    modifies ipHdr, udpHdr
    ensures udpHdr[..] == UdpHeader(pktDataLen)
    ensures ipHdr[..] == Ipv4Header(pktDataLen)
  {
    var pktLen := InitUdpHeader(udpHdr, pktDataLen);
    ghost var udp := udpHdr[..];
    InitIpv4Fields(ipHdr, pktLen, pktDataLen);
    ghost var spec := Ipv4Fields(pktDataLen);
    ghost var fields := ipHdr[..];
    ChecksumIgnoresOldField(spec, Word(fields, CKSUM_WORD));
    ComputeIpv4Checksum(ipHdr);
    WithChecksumTwice(spec, Word(fields, CKSUM_WORD), HeaderChecksum(spec));
    assert udpHdr[..] == udp;
  }

  /** The UDP block: ports, datagram length and a zero checksum. Returns
      pkt_len, the datagram length cut to 16 bits. */
  method InitUdpHeader(udpHdr: array<byte>, pktDataLen: u16) returns (pktLen: u16)
    requires udpHdr.Length == UDP_HDR_LEN
    modifies udpHdr
    ensures pktLen == (pktDataLen + UDP_HDR_LEN) % 0x1_0000
    ensures udpHdr[..] == UdpHeader(pktDataLen)
  {
    pktLen := (pktDataLen + UDP_HDR_LEN) % 0x1_0000;
    Store16(udpHdr, 0, Swap16(UDP_SRC_PORT));
    Store16(udpHdr, 2, Swap16(UDP_DST_PORT));
    Store16(udpHdr, 4, Swap16(pktLen));
    Store16(udpHdr, 6, 0);
    StoreSwappedIsBe16(UDP_SRC_PORT);
    StoreSwappedIsBe16(UDP_DST_PORT);
    StoreSwappedIsBe16(pktLen);
  }

  /** The IPv4 block: every field but hdr_checksum, which keeps whatever it
      held. udpLen is pkt_len as the UDP block left it; total_length adds 20
      to it, cut to 16 bits. */
  method InitIpv4Fields(ipHdr: array<byte>, udpLen: u16, ghost pktDataLen: u16)
    requires ipHdr.Length == IPV4_HDR_LEN
    requires udpLen == (pktDataLen + UDP_HDR_LEN) % 0x1_0000
    modifies ipHdr
    ensures ipHdr[..] == WithChecksum(Ipv4Fields(pktDataLen), Word(old(ipHdr[..]), CKSUM_WORD))
  {
    ghost var before := ipHdr[..];
    var pktLen: u16 := (udpLen + IPV4_HDR_LEN) % 0x1_0000;
    ipHdr[0] := IP_VHL_DEF;
    ipHdr[1] := 0;
    Store16(ipHdr, 6, 0);
    ipHdr[8] := IP_DEFTTL;
    ipHdr[9] := IPPROTO_UDP;
    Store16(ipHdr, 4, 0);
    Store16(ipHdr, 2, Swap16(pktLen));
    StoreBe32(ipHdr, 12, IP_SRC_ADDR);
    StoreBe32(ipHdr, 16, IP_DST_ADDR);
    StoreSwappedIsBe16(pktLen);
    assert TotalLength(pktDataLen) == pktLen;
    assert ipHdr[10] == before[10] && ipHdr[11] == before[11];
    Ipv4FieldsWritten(ipHdr[..], pktDataLen);
  }

  /** The checksum block: nine host-order words added into a 32-bit
      accumulator (word 5 skipped), one fold with end-around carry, the 16-bit
      complement with zero replaced by 0xFFFF, assigned to hdr_checksum. */
  method ComputeIpv4Checksum(ipHdr: array<byte>)
    requires ipHdr.Length == IPV4_HDR_LEN
    modifies ipHdr
    ensures ipHdr[..] == WithChecksum(old(ipHdr[..]), HeaderChecksum(old(ipHdr[..])))
  {
    var ptr16 := ipHdr[..];  // the header read as 16-bit words, ptr16[i] == HostWord(ptr16, i)
    var ipCksum: u32 := 0;
    ipCksum := ipCksum + HostWord(ptr16, 0);
    ipCksum := ipCksum + HostWord(ptr16, 1);
    ipCksum := ipCksum + HostWord(ptr16, 2);
    ipCksum := ipCksum + HostWord(ptr16, 3);
    ipCksum := ipCksum + HostWord(ptr16, 4);
    ipCksum := ipCksum + HostWord(ptr16, 6);
    ipCksum := ipCksum + HostWord(ptr16, 7);
    ipCksum := ipCksum + HostWord(ptr16, 8);
    ipCksum := ipCksum + HostWord(ptr16, 9);
    assert ipCksum == HostRawSum(ptr16);

    // Reduce the 32-bit sum to 16 bits and complement it.
    ipCksum := ipCksum / 0x1_0000 + ipCksum % 0x1_0000;  // (x & 0xFFFF0000) >> 16 + (x & 0xFFFF)
    if ipCksum > 65535 {
      ipCksum := ipCksum - 65535;
    }
    assert ipCksum == Fold(HostRawSum(ptr16));
    ipCksum := 0xFFFF - ipCksum;  // (~x) & 0xFFFF, as x <= 0xFFFF here
    if ipCksum == 0 {
      ipCksum := 0xFFFF;
    }
    assert ipCksum == HostChecksum(ptr16);
    Store16(ipHdr, 10, ipCksum);
    HostChecksumStoresNetworkBytes(ptr16);
    StoreChecksum(ptr16, HeaderChecksum(ptr16));
  }
}
