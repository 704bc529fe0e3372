# minimal_tx in Dafny

A model of the packet-building core of `minimal_tx.c`, a minimal DPDK program
that sends one Ethernet II / IPv4 / UDP frame of 862 bytes out of port 0.
The program works in four steps:

- `main` computes the payload length (862 less the 42 bytes of headers).
- `setup_pkt_udp_ip_headers` fills in a global UDP header and a global IPv4
  header.
- It then computes the IPv4 header checksum: nine 16-bit words go into a
  32-bit accumulator, which is folded once and complemented. A zero result
  is replaced by 0xFFFF.
- `send_packet` sets the buffer's data length to 862. It then builds an
  Ethernet header and copies the three headers to offsets 0, 14 and 34 of the
  buffer. Last, it sets the packet length, segment count and offload flags.

Modules:

- `ByteOrder` (`byte_order.dfy`) covers byte order:
  - the `RTE_CPU_TO_BE_16` / `RTE_BE_TO_CPU_16` swap;
  - network-order encoding (`BeBytes`, `Be16`, `Be32`) and decoding (`BeValue`, `BeWord`).
- `Ipv4Checksum` (`checksum.dfy`) is the checksum over a 20-byte header in
  network order:
  - the accumulator, the fold and the complement;
  - self-verification as defined in section 3.1 of RFC 791;
  - a reference definition that adds with an end-around carry after every word, as RFC 1071 does.
- `HostOrder` (`host_order.dfy`) covers how the C code touches memory on a
  little-endian host:
  - 16-bit fields are stored low byte first;
  - `ptr16[i]` reads a word with its bytes exchanged.

  It proves that the checksum summed and stored this way puts the network-order
  checksum on the wire (section 2(B) of RFC 1071).
- `Headers` (`headers.dfy`) holds the two headers as values, and
  `SetupPktUdpIpHeaders`, which writes them into arrays the way the C function
  does.
- `Frame` (`frame.dfy`) holds:
  - the payload length;
  - the Ethernet header and the frame layout;
  - the known checksum of the header `main` sends;
  - the packet buffer (`Mbuf`) and the program state (`MinimalTx`) with `SendPacket`.

Header contents are specified as byte sequences in network order. The methods
model the C code as it runs on a little-endian host: `RTE_CPU_TO_BE_16` swaps
the bytes, and a `uint16_t` assignment stores the low byte first. On a
big-endian host both the swap and the store are the identity. The bytes
written are then the same network-order bytes, so the specification functions
describe both hosts.

## Model

| member | source | states |
|---|---|---|
| ByteOrder.Swap16 | minimal_tx/minimal_tx.c:51-54 | the little-endian RTE_CPU_TO_BE_16 / RTE_BE_TO_CPU_16 puts the low byte of x in the high byte of the result and the high byte of x in the low byte |
| ByteOrder.Swap16SwapsBytes | minimal_tx/minimal_tx.c:51-54 | the little-endian RTE_CPU_TO_BE_16 / RTE_BE_TO_CPU_16 exchanges the two network-order bytes of its argument, and only 0 maps to 0 |
| ByteOrder.Swap16Involutive | minimal_tx/minimal_tx.c:51-54 | RTE_BE_TO_CPU_16(RTE_CPU_TO_BE_16(x)) == x for every 16-bit x (and the result is a 16-bit value by its type) |
| ByteOrder.Swap16Scales | minimal_tx/minimal_tx.c:51-54 | exchanging the bytes of x multiplies it by 256 modulo 0xFFFF |
| ByteOrder.BeValueOfBeBytes | minimal_tx/minimal_tx.c:92-94 | decoding the n-byte network-order encoding of any value below 256^n gives the value back |
| ByteOrder.BeBytesOfBeValue | minimal_tx/minimal_tx.c:92-94 | encoding the value of any byte string gives the byte string back |
| ByteOrder.Be16 | minimal_tx/minimal_tx.c:79-81 | the 2-byte network-order encoding is high byte, then low byte |
| ByteOrder.Be32 | minimal_tx/minimal_tx.c:93-94 | rte_cpu_to_be_32 followed by a store: the 4-byte network-order encoding, most significant byte first |
| ByteOrder.BeWord | minimal_tx/minimal_tx.c:97-103 | the 16-bit word read at an offset in network order is the value whose encoding is those two bytes |
| Ipv4Checksum.HeaderWords | minimal_tx/minimal_tx.c:97-103 | the ten words of a header, word i being bytes 2i and 2i+1 |
| Ipv4Checksum.RawSum | minimal_tx/minimal_tx.c:98-103 | the accumulator (words 0-4 and 6-9) stays below 2^20, so the uint32_t never wraps and one fold suffices |
| Ipv4Checksum.FullSum | minimal_tx/minimal_tx.c:96-103 | the receiver's sum of all ten words is the accumulator plus the checksum word |
| Ipv4Checksum.Fold | minimal_tx/minimal_tx.c:105-109 | the folded value is at most 65535, congruent to the 32-bit sum modulo 65535, and zero only when the sum is |
| Ipv4Checksum.Finish | minimal_tx/minimal_tx.c:110-112 | the complement with the zero replacement is never 0 and is the ones'-complement negation of the folded sum |
| Ipv4Checksum.HeaderChecksum | minimal_tx/minimal_tx.c:96-113 | the stored checksum is never 0 and adds to the accumulator to a multiple of 0xFFFF |
| Ipv4Checksum.WithChecksum | minimal_tx/minimal_tx.c:113 | storing c in hdr_checksum makes word 5 equal c and leaves bytes 0-9 and 12-19 as they were |
| Ipv4Checksum.SameOutsideChecksum | minimal_tx/minimal_tx.c:113 | two headers equal outside bytes 10-11 differ only by the checksum stored there |
| Ipv4Checksum.StoreChecksum | minimal_tx/minimal_tx.c:113 | writing the two network-order bytes of c at offsets 10 and 11 is storing c in hdr_checksum |
| Ipv4Checksum.WithChecksumTwice | minimal_tx/minimal_tx.c:113 | a second store of hdr_checksum replaces the first |
| Ipv4Checksum.ChecksumIgnoresOldField | minimal_tx/minimal_tx.c:98-103 | whatever hdr_checksum held before, the accumulator and the checksum are the same, because word 5 is skipped |
| Ipv4Checksum.SelfVerification | minimal_tx/minimal_tx.c:96-113 | once the computed checksum is stored, all ten words, checksum included, fold to 0xFFFF (section 3.1 of RFC 791) |
| Ipv4Checksum.FoldOfNegatedSum | minimal_tx/minimal_tx.c:105-112 | a sum plus its nonzero ones'-complement negation folds to 0xFFFF |
| Ipv4Checksum.FoldByCongruence | minimal_tx/minimal_tx.c:105-109 | the fold of a nonzero sum is the one nonzero 16-bit value congruent to it modulo 0xFFFF |
| Ipv4Checksum.OnesAdd | minimal_tx/minimal_tx.c:105-109 | reference: a 16-bit ones'-complement addition is congruent to the plain sum modulo 0xFFFF and is zero only for 0 + 0 |
| Ipv4Checksum.OnesSumMatchesSum | minimal_tx/minimal_tx.c:98-109 | the end-around-carry sum of any word sequence is congruent to its plain sum, and zero exactly when the plain sum is |
| Ipv4Checksum.FoldMatchesOnesSum | minimal_tx/minimal_tx.c:105-109 | for any sum below 2^32, the single fold gives the same value as the end-around-carry sum |
| Ipv4Checksum.FoldedRawSumIsOnesSum | minimal_tx/minimal_tx.c:98-109 | the folded accumulator is the RFC 1071 sum of the header without its checksum word |
| Ipv4Checksum.ChecksumValidIsOnesSum | minimal_tx/minimal_tx.c:96-113 | a header validates exactly when the RFC 1071 sum of its ten words is 0xFFFF |
| HostOrder.HostBytes16 | minimal_tx/minimal_tx.c:79-82 | a little-endian uint16_t store lays down the network-order bytes in reverse |
| HostOrder.HostWord | minimal_tx/minimal_tx.c:97-103 | a little-endian ptr16[i] read takes byte 2i as the low byte of the word and byte 2i+1 as the high byte |
| HostOrder.HostRawSum | minimal_tx/minimal_tx.c:98-103 | the accumulator as the host adds it stays below 2^20, so the uint32_t never wraps |
| HostOrder.HostChecksum | minimal_tx/minimal_tx.c:105-113 | the value the host assigns to hdr_checksum is never 0 and adds to the host-order accumulator to a multiple of 0xFFFF |
| HostOrder.HostWordIsSwapped | minimal_tx/minimal_tx.c:97-103 | on a little-endian host ptr16[i] is header word i with its bytes exchanged |
| HostOrder.SwappedSumScales | minimal_tx/minimal_tx.c:98-103 | byte-swapping every word multiplies the plain sum by 256 modulo 0xFFFF and keeps it zero exactly when it was |
| HostOrder.HostRawSumScales | minimal_tx/minimal_tx.c:98-103 | the host-order accumulator is 256 times the network-order one modulo 0xFFFF, and zero exactly when that one is |
| HostOrder.SwapFold | minimal_tx/minimal_tx.c:105-109 | folding a sum that is 256 times as large modulo 0xFFFF gives the byte-swapped fold |
| HostOrder.FinishSwap | minimal_tx/minimal_tx.c:110-112 | complementing with the zero replacement commutes with the byte swap |
| HostOrder.ComplementSwap | minimal_tx/minimal_tx.c:110 | the 16-bit complement commutes with the byte swap |
| HostOrder.HostChecksumStoresNetworkBytes | minimal_tx/minimal_tx.c:96-113 | the checksum computed from host-order words is the byte-swapped network-order checksum, and storing it lays down the network-order bytes (section 2(B) of RFC 1071) |
| HostOrder.StoreSwappedIsBe16 | minimal_tx/minimal_tx.c:79-81 | converting with RTE_CPU_TO_BE_16 and storing in host order leaves the value in network order |
| HostOrder.Store16 | minimal_tx/minimal_tx.c:79-82 | a uint16_t field assignment changes exactly the two bytes of the field, to the host-order bytes of the value |
| HostOrder.StoreBe32 | minimal_tx/minimal_tx.c:93-94 | the address assignment changes exactly the four bytes of the field, to the network-order bytes of the address |
| HostOrder.CopyBytes | minimal_tx/minimal_tx.c:138-144 | rte_memcpy puts src at the offset and leaves the bytes before and after it alone |
| Headers.UdpHeader | minimal_tx/minimal_tx.c:77-82 | UDP header: ports 6666 and 6666, datagram length pkt_data_len + 8 cut to 16 bits, checksum 0 |
| Headers.TotalLength | minimal_tx/minimal_tx.c:78-85 | the two 16-bit casts give the same as one cut of pkt_data_len + 28 |
| Headers.AddressBytes | minimal_tx/minimal_tx.c:36-37 | the addresses go on the wire as 172.30.0.73 and 172.30.0.225 |
| Headers.Ipv4Fields | minimal_tx/minimal_tx.c:86-94 | the field block fills a 20-byte header; the value of each field is stated by Headers.Ipv4HeaderFields |
| Headers.Ipv4Header | minimal_tx/minimal_tx.c:84-113 | the finished header keeps every field byte and differs only in hdr_checksum |
| Headers.Ipv4HeaderChecksum | minimal_tx/minimal_tx.c:96-113 | the stored checksum is nonzero and is the checksum of the finished header, and the finished header validates |
| Headers.Ipv4HeaderFields | minimal_tx/minimal_tx.c:84-94 | version_ihl 0x45, type of service 0, total length pkt_data_len + 28 cut to 16 bits, packet id 0, fragment offset 0, TTL 64, protocol 17, addresses 172.30.0.73 and 172.30.0.225 |
| Headers.Ipv4FieldsWritten | minimal_tx/minimal_tx.c:86-94 | any header with these bytes outside hdr_checksum is the fields with its own checksum word stored |
| Headers.SetupPktUdpIpHeaders | minimal_tx/minimal_tx.c:68-114 | whatever the two header buffers held, afterwards they hold exactly the UDP header and the finished IPv4 header |
| Headers.InitUdpHeader | minimal_tx/minimal_tx.c:77-82 | the UDP block leaves the UDP header in network order and returns pkt_len = pkt_data_len + 8 cut to 16 bits |
| Headers.InitIpv4Fields | minimal_tx/minimal_tx.c:84-94 | the IPv4 block writes every field but hdr_checksum, whose old value is stored back unchanged |
| Headers.ComputeIpv4Checksum | minimal_tx/minimal_tx.c:96-113 | the checksum block, run on host-order words, stores the network-order checksum of the header and changes nothing else |
| Frame.PktDataLen | minimal_tx/minimal_tx.c:237-239 | the headers and the payload fill the 862-byte frame exactly: the payload is 820 bytes |
| Frame.DestMac | minimal_tx/minimal_tx.c:132-133 | the first six bytes of rte_cpu_to_be_64(DEST_MAC) are 0a:38:ca:f6:f3:20 |
| Frame.EtherHeader | minimal_tx/minimal_tx.c:131-135 | the Ethernet header is the destination MAC, the source MAC and ethertype 0x0800 |
| Frame.FrameHeaders | minimal_tx/minimal_tx.c:137-144 | 42 bytes: the Ethernet header at 0, the IPv4 header at 14, the UDP header at 34 |
| Frame.HeaderOffsets | minimal_tx/minimal_tx.c:137-144 | where each header field lands in the frame |
| Frame.FrameLayout | minimal_tx/minimal_tx.c:131-144 | bytes 0-5 are 0a:38:ca:f6:f3:20, bytes 6-11 the port MAC, bytes 12-13 08 00, the IPv4 header validates and carries total length, version and protocol, the UDP header has ports 6666, its length and checksum 0 |
| Frame.ReferenceFrameLengths | minimal_tx/minimal_tx.c:237-239 | for main's payload neither length field is cut: total length 848, UDP length 828, frame 862 |
| Frame.MainIpFields | minimal_tx/minimal_tx.c:84-94 | the IPv4 fields main writes, byte by byte |
| Frame.MainRawSum | minimal_tx/minimal_tx.c:98-103 | main's accumulator is 0x1e1c7 |
| Frame.MainHeaderChecksum | minimal_tx/minimal_tx.c:96-113 | the checksum stored in the header main sends is 0x1e37 |
| Frame.NewEtherHeader | minimal_tx/minimal_tx.c:131-135 | the local eth_hdr holds the Ethernet header |
| Frame.EtherHeaderWritten | minimal_tx/minimal_tx.c:133-135 | the two address copies and the ethertype store together produce the Ethernet header |
| Frame.HeadersCopied | minimal_tx/minimal_tx.c:138-144 | the three copies put the headers side by side at the front of the buffer and leave the rest alone |
| Frame.Mbuf.constructor | minimal_tx/minimal_tx.c:126-128 | an allocated buffer of the given capacity, one segment |
| Frame.MinimalTx.constructor | minimal_tx/minimal_tx.c:62-64 | both header buffers hold only zero bytes, as the C statics do, and the MAC is the port's |
| Frame.MinimalTx.SendPacket | minimal_tx/minimal_tx.c:116-149 | the buffer's first 42 bytes become the three headers, the rest is untouched, data_len = pkt_len = 862, nb_segs = 1, ol_flags = 0 |

## Left out

- `port_init`, `rte_eal_init`, the mbuf pool, `rte_exit` / `rte_panic`, `rte_eth_tx_burst` and every `printf`. They are runtime and device calls into DPDK. The port's MAC is a constructor parameter of `MinimalTx`.
- `rte_mbuf_raw_alloc` and `rte_pktmbuf_reset_headroom`. `SendPacket` takes an allocated buffer whose data room starts at the reset headroom and holds at least 862 bytes. The NULL check at line 127 only prints and then uses the NULL pointer anyway, so that path is not modelled.
- The sequence in `main` (compute the length, call `setup_pkt_udp_ip_headers`, call `send_packet`) is not written as one method. `FrameLayout`, `ReferenceFrameLengths` and `MainHeaderChecksum` state what the frame holds for main's payload length.
- Host byte-order selection (`RTE_BYTE_ORDER`, lines 47-50). The methods fix a little-endian host. On a big-endian host the swap and the stores are identities, and the same network-order bytes result, which is what the specification functions state.
- HostOrder.StoreBe32: models `rte_cpu_to_be_32` and a `uint32_t` assignment together as storing the network-order bytes. It does not model a 32-bit swap followed by a host-order store.
- Headers.InitIpv4Fields: the payload length is passed as a ghost parameter besides pkt_len. It only ties the result to the specification and is not used to compute anything.
- The union type-punning for `dst_eth_addr` (lines 119-122, 132). `DestMac` takes the first six bytes of the big-endian encoding of DEST_MAC, which is what the union holds on either host.
- Later revisions of this program add command-line addresses, a send loop and statistics. `minimal_tx.c` as modelled has none of these, and sends exactly one packet with fixed addresses.
