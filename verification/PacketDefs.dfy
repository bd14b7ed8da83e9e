// Sizes, type codes and address types of the frame layouts.
module PacketDefs {
  import opened Bytes

  const ETHERNET_HEADER_SIZE := 14
  const ARP_HEADER_SIZE := 28
  const IPV4_MIN_HEADER_SIZE := 20
  const ICMP_HEADER_SIZE := 8
  const UDP_HEADER_SIZE := 8
  const TCP_MIN_HEADER_SIZE := 20

  const ETHERTYPE_IPV4: word := 0x0800
  const ETHERTYPE_ARP: word := 0x0806

  const IP_PROTO_ICMP: byte := 1
  const IP_PROTO_TCP: byte := 6
  const IP_PROTO_UDP: byte := 17
  const IP_FLAG_DF: word := 0x4000

  const ICMP_TYPE_ECHO_REQUEST: byte := 8

  type Mac = s: seq<byte> | |s| == 6 witness [0, 0, 0, 0, 0, 0]
  type Ip4 = s: seq<byte> | |s| == 4 witness [0, 0, 0, 0]

  const BROADCAST_MAC: Mac := [0xFF, 0xFF, 0xFF, 0xFF, 0xFF, 0xFF]

  // The two ends of a frame, as every IPv4 builder takes them.
  datatype Ends = Ends(srcMac: Mac, dstMac: Mac, srcIp: Ip4, dstIp: Ip4)

  datatype TcpFields = TcpFields(srcPort: word, dstPort: word, seqNum: dword, ackNum: dword, flags: byte, window: word)
}
