// The bytes of each frame layout.
module PacketFrames {
  import opened Bytes
  import opened Checksum
  import opened PacketDefs

  function EthernetHeader(dst: Mac, src: Mac, etherType: word): seq<byte> {
    dst + src + Be16(etherType)
  }

  function Ipv4Fields(ends: Ends, protocol: byte, payloadLength: word, ttl: byte): seq<byte> {
    [0x45] + [0] + Be16((IPV4_MIN_HEADER_SIZE + payloadLength) % 0x1_0000) + Be16(0) + Be16(IP_FLAG_DF)
    + [ttl] + [protocol] + Be16(0) + ends.srcIp + ends.dstIp
  }

  function Ipv4Header(ends: Ends, protocol: byte, payloadLength: word, ttl: byte): seq<byte> {
    var fields := Ipv4Fields(ends, protocol, payloadLength, ttl);
    Overwrite(fields, 10, Be16(InternetChecksum(fields)))
  }

  function ArpMessage(operation: word, senderMac: Mac, senderIp: Ip4, targetMac: Mac, targetIp: Ip4): seq<byte> {
    Be16(1) + Be16(ETHERTYPE_IPV4) + [6] + [4] + Be16(operation) + senderMac + senderIp + targetMac + targetIp
  }

  function ArpRequest(srcMac: Mac, srcIp: Ip4, targetIp: Ip4): seq<byte> {
    EthernetHeader(BROADCAST_MAC, srcMac, ETHERTYPE_ARP) + ArpMessage(1, srcMac, srcIp, [0, 0, 0, 0, 0, 0], targetIp)
  }

  function ArpReply(ends: Ends): seq<byte> {
    EthernetHeader(ends.dstMac, ends.srcMac, ETHERTYPE_ARP)
    + ArpMessage(2, ends.srcMac, ends.srcIp, ends.dstMac, ends.dstIp)
  }

  function IcmpFields(identifier: word, sequence: word): seq<byte> {
    [ICMP_TYPE_ECHO_REQUEST] + [0] + Be16(0) + Be16(identifier) + Be16(sequence)
  }

  function UdpFields(srcPort: word, dstPort: word, length: word): seq<byte> {
    Be16(srcPort) + Be16(dstPort) + Be16(length) + Be16(0)
  }

  function TcpHeaderFields(t: TcpFields): seq<byte> {
    Be16(t.srcPort) + Be16(t.dstPort) + Be32(t.seqNum) + Be32(t.ackNum) + [0x50] + [t.flags]
    + Be16(t.window) + Be16(0) + Be16(0)
  }

  // Segment lengths are cast to UINT16.
  function SegmentLength(header: nat, dataLength: nat): word {
    (header + dataLength) % 0x1_0000
  }

  function IcmpSegment(identifier: word, sequence: word, data: seq<byte>): seq<byte> {
    var blank := IcmpFields(identifier, sequence) + data;
    Overwrite(blank, 2, Be16(InternetChecksum(blank[..SegmentLength(ICMP_HEADER_SIZE, |data|)])))
  }

  // A computed UDP checksum of 0 is stored as 0xFFFF.
  function UdpStored(c: word): word {
    if c == 0 then 0xFFFF else c
  }

  function UdpSegment(ends: Ends, srcPort: word, dstPort: word, data: seq<byte>): seq<byte> {
    var length := SegmentLength(UDP_HEADER_SIZE, |data|);
    var blank := UdpFields(srcPort, dstPort, length) + data;
    var pseudo := PseudoHeader(ends.srcIp, ends.dstIp, IP_PROTO_UDP, length);
    Overwrite(blank, 6, Be16(UdpStored(InternetChecksum(pseudo + blank[..length]))))
  }

  function TcpSegment(ends: Ends, t: TcpFields, data: seq<byte>): seq<byte> {
    var length := SegmentLength(TCP_MIN_HEADER_SIZE, |data|);
    var blank := TcpHeaderFields(t) + data;
    var pseudo := PseudoHeader(ends.srcIp, ends.dstIp, IP_PROTO_TCP, length);
    Overwrite(blank, 16, Be16(InternetChecksum(pseudo + blank[..length])))
  }

  function Ipv4Frame(ends: Ends, protocol: byte, length: word, segment: seq<byte>): seq<byte> {
    EthernetHeader(ends.dstMac, ends.srcMac, ETHERTYPE_IPV4) + Ipv4Header(ends, protocol, length, 64) + segment
  }

  function IcmpFrame(ends: Ends, identifier: word, sequence: word, data: seq<byte>): seq<byte> {
    Ipv4Frame(ends, IP_PROTO_ICMP, SegmentLength(ICMP_HEADER_SIZE, |data|), IcmpSegment(identifier, sequence, data))
  }

  function UdpFrame(ends: Ends, srcPort: word, dstPort: word, data: seq<byte>): seq<byte> {
    Ipv4Frame(ends, IP_PROTO_UDP, SegmentLength(UDP_HEADER_SIZE, |data|), UdpSegment(ends, srcPort, dstPort, data))
  }

  function TcpFrame(ends: Ends, t: TcpFields, data: seq<byte>): seq<byte> {
    Ipv4Frame(ends, IP_PROTO_TCP, SegmentLength(TCP_MIN_HEADER_SIZE, |data|), TcpSegment(ends, t, data))
  }
}
