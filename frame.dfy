/** The transmit side of minimal_tx.c: the payload length computed in main,
    the Ethernet header and frame layout that send_packet writes into a packet
    buffer, and the buffer's length fields. */
module Frame {
  import opened ByteOrder
  import opened Ipv4Checksum
  import opened HostOrder
  import opened Headers

  const TX_PACKET_LENGTH: nat := 862
  const ETHER_ADDR_LEN: nat := 6
  const ETHER_HDR_LEN: nat := 14
  /** The three headers together: Ethernet, IPv4, UDP. */
  const FRAME_HDRS_LEN: nat := ETHER_HDR_LEN + IPV4_HDR_LEN + UDP_HDR_LEN
  /** The destination MAC in the top six bytes of a 64-bit constant. */
  const DEST_MAC: nat := 0x0a38_caf6_f320_0000
  const ETHER_TYPE_IPV4: u16 := 0x0800

  /** pkt_data_len in main: the frame length less the three headers, cast to
      uint16_t. The headers and the payload fill the frame exactly. */
  function PktDataLen(): (r: u16)
    ensures FRAME_HDRS_LEN + r == TX_PACKET_LENGTH
    ensures r == 820
  {
    (TX_PACKET_LENGTH - (ETHER_HDR_LEN + IPV4_HDR_LEN + UDP_HDR_LEN)) % 0x1_0000
  }

  /** The destination address: DEST_MAC converted with rte_cpu_to_be_64, of
      which ether_addr_copy takes the first six bytes. */
  function DestMac(): (r: seq<byte>)
    ensures r == [0x0a, 0x38, 0xca, 0xf6, 0xf3, 0x20]
  {
    assert BeBytes(0x0a38, 2) == [0x0a, 0x38];
    assert BeBytes(0x0a38_caf6, 4) == [0x0a, 0x38, 0xca, 0xf6];
    assert BeBytes(0x0a38_caf6_f320, 6) == [0x0a, 0x38, 0xca, 0xf6, 0xf3, 0x20];
    assert BeBytes(DEST_MAC, 8) == [0x0a, 0x38, 0xca, 0xf6, 0xf3, 0x20, 0, 0];
    BeBytes(DEST_MAC, 8)[..ETHER_ADDR_LEN]
  }

  /** The Ethernet header: destination MAC, source MAC, ethertype IPv4. */
  function EtherHeader(srcMac: seq<byte>): (r: seq<byte>)
    requires |srcMac| == ETHER_ADDR_LEN
    ensures |r| == ETHER_HDR_LEN
    ensures r[..6] == DestMac() && r[6..12] == srcMac && BeWord(r, 12) == ETHER_TYPE_IPV4
  {
    DestMac() + srcMac + Be16(ETHER_TYPE_IPV4)
  }

  /** The first 42 bytes of a frame: the Ethernet header at offset 0, the IPv4
      header at offset 14, the UDP header at offset 34. */
  function FrameHeaders(srcMac: seq<byte>, ip: seq<byte>, udp: seq<byte>): (r: seq<byte>)
    requires |srcMac| == ETHER_ADDR_LEN && |ip| == IPV4_HDR_LEN && |udp| == UDP_HDR_LEN
    ensures |r| == FRAME_HDRS_LEN
    ensures r[..14] == EtherHeader(srcMac) && r[14..34] == ip && r[34..42] == udp
  {
    EtherHeader(srcMac) + ip + udp
  }

  /** Where the bytes of the three headers land in the frame. */
  lemma HeaderOffsets(srcMac: seq<byte>, ip: seq<byte>, udp: seq<byte>)
    requires |srcMac| == ETHER_ADDR_LEN && |ip| == IPV4_HDR_LEN && |udp| == UDP_HDR_LEN
    ensures var f := FrameHeaders(srcMac, ip, udp);
      && f[..6] == DestMac() && f[6..12] == srcMac && f[12..14] == [0x08, 0x00]
      && f[14..34] == ip && f[14] == ip[0] && f[23] == ip[9] && BeWord(f, 16) == BeWord(ip, 2)
      && BeWord(f, 34) == BeWord(udp, 0) && BeWord(f, 36) == BeWord(udp, 2)
      && BeWord(f, 38) == BeWord(udp, 4) && f[40..42] == udp[6..8]
  {
    var f := FrameHeaders(srcMac, ip, udp);
    assert f[..14] == EtherHeader(srcMac);
    assert f[..6] == f[..14][..6] && f[6..12] == f[..14][6..12] && f[12..14] == f[..14][12..14];
    assert f[14] == ip[0] && f[23] == ip[9];
    assert f[16] == ip[2] && f[17] == ip[3] && f[34] == udp[0] && f[35] == udp[1];
    assert f[36] == udp[2] && f[37] == udp[3] && f[38] == udp[4] && f[39] == udp[5];
    assert f[40..42] == udp[6..8];
  }

  /** The layout of a frame carrying pktDataLen payload bytes: destination
      0a:38:ca:f6:f3:20, the port's own MAC, ethertype IPv4; an IPv4 header
      whose checksum validates and whose total length is the IPv4 length of
      the datagram; a UDP header on ports 6666 whose length is the UDP length
      of the datagram, with no checksum. Both lengths are cut to 16 bits. */
  lemma FrameLayout(srcMac: seq<byte>, pktDataLen: u16)
    requires |srcMac| == ETHER_ADDR_LEN
    ensures var f := FrameHeaders(srcMac, Ipv4Header(pktDataLen), UdpHeader(pktDataLen));
      && f[..6] == [0x0a, 0x38, 0xca, 0xf6, 0xf3, 0x20] && f[6..12] == srcMac
      && f[12..14] == [0x08, 0x00]
      && f[14] == 0x45 && f[23] == 17
      && BeWord(f, 16) == TotalLength(pktDataLen)
      && ChecksumValid(f[14..34])
      && BeWord(f, 34) == 6666 && BeWord(f, 36) == 6666
      && BeWord(f, 38) == (pktDataLen + UDP_HDR_LEN) % 0x1_0000
      && f[40..42] == [0, 0]
  {
    HeaderOffsets(srcMac, Ipv4Header(pktDataLen), UdpHeader(pktDataLen));
    Ipv4HeaderFields(pktDataLen);
    Ipv4HeaderChecksum(pktDataLen);
  }

  /** The frame main sends fills exactly TX_PACKET_LENGTH bytes, and neither
      length field is cut: the IPv4 total length covers everything after the
      Ethernet header, the UDP length everything after the IPv4 header. */
  lemma ReferenceFrameLengths()
    ensures FRAME_HDRS_LEN + PktDataLen() == TX_PACKET_LENGTH
    ensures TotalLength(PktDataLen()) == TX_PACKET_LENGTH - ETHER_HDR_LEN
    ensures (PktDataLen() + UDP_HDR_LEN) % 0x1_0000 == TX_PACKET_LENGTH - ETHER_HDR_LEN - IPV4_HDR_LEN
  {
  }

  /** The local eth_hdr of send_packet: the destination MAC from DEST_MAC, the
      source MAC, and the ethertype converted with RTE_CPU_TO_BE_16. */
  method NewEtherHeader(srcMac: seq<byte>) returns (ethHdr: array<byte>)
    requires |srcMac| == ETHER_ADDR_LEN
    ensures fresh(ethHdr) && ethHdr[..] == EtherHeader(srcMac)
  {
    ethHdr := new byte[ETHER_HDR_LEN];
    ghost var e0 := ethHdr[..];
    CopyBytes(ethHdr, 0, DestMac());
    ghost var e1 := ethHdr[..];
    CopyBytes(ethHdr, ETHER_ADDR_LEN, srcMac);
    ghost var e2 := ethHdr[..];
    Store16(ethHdr, 2 * ETHER_ADDR_LEN, Swap16(ETHER_TYPE_IPV4));
    StoreSwappedIsBe16(ETHER_TYPE_IPV4);
    EtherHeaderWritten(e0, e1, e2, ethHdr[..], srcMac);
  }

  /** The two address copies and the ethertype store of NewEtherHeader, in
      that order, produce the Ethernet header. */
  lemma EtherHeaderWritten(e0: seq<byte>, e1: seq<byte>, e2: seq<byte>, e3: seq<byte>, srcMac: seq<byte>)
    requires |e0| == ETHER_HDR_LEN && |srcMac| == ETHER_ADDR_LEN
    requires e1 == e0[..0] + DestMac() + e0[ETHER_ADDR_LEN..]
    requires e2 == e1[..ETHER_ADDR_LEN] + srcMac + e1[2 * ETHER_ADDR_LEN..]
    requires e3 == e2[12 := Be16(ETHER_TYPE_IPV4)[0]][13 := Be16(ETHER_TYPE_IPV4)[1]]
    ensures e3 == EtherHeader(srcMac)
  {
    assert e2[..2 * ETHER_ADDR_LEN] == DestMac() + srcMac;
    assert e3 == e2[..2 * ETHER_ADDR_LEN] + Be16(ETHER_TYPE_IPV4);
  }

  /** Three copies to offsets 0, 14 and 34 put the three headers side by side
      at the front of the buffer and leave the rest alone. */
  lemma HeadersCopied(d0: seq<byte>, d1: seq<byte>, d2: seq<byte>, d3: seq<byte>,
                      eth: seq<byte>, ip: seq<byte>, udp: seq<byte>)
    requires |d0| >= FRAME_HDRS_LEN
    requires |eth| == ETHER_HDR_LEN && |ip| == IPV4_HDR_LEN && |udp| == UDP_HDR_LEN
    requires d1 == d0[..0] + eth + d0[ETHER_HDR_LEN..]
    requires d2 == d1[..ETHER_HDR_LEN] + ip + d1[ETHER_HDR_LEN + IPV4_HDR_LEN..]
    requires d3 == d2[..ETHER_HDR_LEN + IPV4_HDR_LEN] + udp + d2[FRAME_HDRS_LEN..]
    ensures d3[..FRAME_HDRS_LEN] == eth + ip + udp && d3[FRAME_HDRS_LEN..] == d0[FRAME_HDRS_LEN..]
  {
    assert d2[..ETHER_HDR_LEN + IPV4_HDR_LEN] == eth + ip;
    assert d2[FRAME_HDRS_LEN..] == d0[FRAME_HDRS_LEN..];
  }

  /** The IPv4 header fields of the frame main sends, in network order, with
      hdr_checksum still zero. */
  const MAIN_IP_FIELDS: seq<byte> :=
    [0x45, 0, 0x03, 0x50, 0, 0, 0, 0, 64, 17, 0, 0, 172, 30, 0, 73, 172, 30, 0, 225]

  lemma MainIpFields()
    ensures Ipv4Fields(PktDataLen()) == MAIN_IP_FIELDS
  {
    assert TotalLength(820) == 0x0350;
    AddressBytes();
  }

  /** The nine words 4500 0350 0000 0000 4011 ac1e 0049 ac1e 00e1. */
  lemma MainRawSum()
    ensures RawSum(MAIN_IP_FIELDS) == 0x1_e1c7
  {
    var h := MAIN_IP_FIELDS;
    assert Word(h, 0) == 0x4500 && Word(h, 1) == 0x0350 && Word(h, 2) == 0 && Word(h, 3) == 0;
    assert Word(h, 4) == 0x4011 && Word(h, 6) == 0xac1e && Word(h, 7) == 0x0049;
    assert Word(h, 8) == 0xac1e && Word(h, 9) == 0x00e1;
  }

  /** The checksum setup_pkt_udp_ip_headers stores for main's payload of 820
      bytes: 0x1_e1c7 folds to 0xe1c8, whose complement is 0x1e37. */
  lemma MainHeaderChecksum()
    ensures Word(Ipv4Header(PktDataLen()), CKSUM_WORD) == 0x1e37
  {
    MainIpFields();
    MainRawSum();
    FoldByCongruence(0x1_e1c7, 0xe1c8);
    assert HeaderChecksum(MAIN_IP_FIELDS) == 0x1e37;
    Ipv4HeaderChecksum(PktDataLen());
    ChecksumIgnoresOldField(MAIN_IP_FIELDS, 0x1e37);
  }

  /** The packet buffer (struct rte_mbuf) as send_packet uses it. */
  class Mbuf {
    /** The data room from the reset headroom on, where rte_pktmbuf_mtod points. */
    var data: array<byte>
    var dataLen: u16
    var pktLen: u32
    var nbSegs: u16
    var olFlags: nat

    /** A buffer with a data room of capacity bytes, as the pool hands it out. */
    constructor (capacity: nat)
      ensures fresh(data) && data.Length == capacity
      ensures dataLen == 0 && pktLen == 0 && nbSegs == 1 && olFlags == 0
    {
      data := new byte[capacity];
      dataLen, pktLen, nbSegs, olFlags := 0, 0, 1, 0;
    }
  }

  /** The program's global state: the two prebuilt headers and the port MAC. */
  class MinimalTx {
    var pktIpHdr: array<byte>
    var pktUdpHdr: array<byte>
    /** The port's own MAC, as rte_eth_macaddr_get reported it in port_init. */
    var myAddr: seq<byte>

    ghost predicate Valid()
      reads this
    {
      pktIpHdr.Length == IPV4_HDR_LEN && pktUdpHdr.Length == UDP_HDR_LEN &&
      |myAddr| == ETHER_ADDR_LEN
    }

    /** Zero-initialised headers, and the MAC of the initialised port. */
    constructor (portMac: seq<byte>)
      requires |portMac| == ETHER_ADDR_LEN
      ensures Valid() && fresh(pktIpHdr) && fresh(pktUdpHdr) && myAddr == portMac
      ensures pktIpHdr[..] == seq(IPV4_HDR_LEN, _ => 0) && pktUdpHdr[..] == seq(UDP_HDR_LEN, _ => 0)
    {
      pktIpHdr := new byte[IPV4_HDR_LEN](_ => 0);
      pktUdpHdr := new byte[UDP_HDR_LEN](_ => 0);
      myAddr := portMac;
    }

    /** send_packet up to the burst: sets data_len, builds the Ethernet
        header, copies the three headers to the front of the buffer, leaving
        the rest of it as it was, and then sets pkt_len, nb_segs and ol_flags. */
    method SendPacket(pkt: Mbuf)
      requires Valid() && pkt.data.Length >= TX_PACKET_LENGTH
      requires pkt.data != pktIpHdr && pkt.data != pktUdpHdr
      modifies pkt, pkt.data
      ensures pkt.data == old(pkt.data)
      ensures pkt.data[..FRAME_HDRS_LEN] == FrameHeaders(myAddr, pktIpHdr[..], pktUdpHdr[..])
      ensures pkt.data[FRAME_HDRS_LEN..] == old(pkt.data[FRAME_HDRS_LEN..])
      ensures pkt.dataLen == TX_PACKET_LENGTH && pkt.pktLen == TX_PACKET_LENGTH
      ensures pkt.nbSegs == 1 && pkt.olFlags == 0
    {
      pkt.dataLen := TX_PACKET_LENGTH;
      var ethHdr := NewEtherHeader(myAddr);

      ghost var d0 := pkt.data[..];
      CopyBytes(pkt.data, 0, ethHdr[..]);
      ghost var d1 := pkt.data[..];
      CopyBytes(pkt.data, ETHER_HDR_LEN, pktIpHdr[..]);
      ghost var d2 := pkt.data[..];
      CopyBytes(pkt.data, ETHER_HDR_LEN + IPV4_HDR_LEN, pktUdpHdr[..]);
      HeadersCopied(d0, d1, d2, pkt.data[..], ethHdr[..], pktIpHdr[..], pktUdpHdr[..]);

      pkt.nbSegs := 1;
      pkt.pktLen := pkt.dataLen;
      pkt.olFlags := 0;
    }
  }
}
