// Frames written field by field into a caller's byte buffer.
module PacketBuilder {
  import opened Bytes
  import opened Checksum
  import opened PacketDefs
  import opened PacketFrames
  import opened PacketParser
  import opened PacketProofs

  // Store one more field right after those already written from `start` on.
  method Put(buffer: array<byte>, at: nat, field: seq<byte>, ghost base: seq<byte>, ghost start: nat, ghost done: seq<byte>)
    requires at + |field| <= buffer.Length
    requires at == start + |done| && |base| == buffer.Length
    requires buffer[..] == Overwrite(base, start, done)
    modifies buffer
    ensures buffer[..] == Overwrite(base, start, done + field)
  {
    OverwriteAppend(base, start, done, field);
    CopyMem(buffer, at, field);
  }

  method BuildEthernetHeader(buffer: array<byte>, at: nat, dst: Mac, src: Mac, etherType: word) returns (n: nat)
    requires at + ETHERNET_HEADER_SIZE <= buffer.Length
    modifies buffer
    ensures n == 14
    ensures buffer[at..at + 6] == dst && buffer[at + 6..at + 12] == src
    ensures buffer[at + 12] as int * 0x100 + buffer[at + 13] == etherType
    ensures buffer[..] == Overwrite(old(buffer[..]), at, EthernetHeader(dst, src, etherType))
  {
    ghost var base := buffer[..];
    CopyMem(buffer, at, dst);
    Put(buffer, at + 6, src, base, at, dst);
    Put(buffer, at + 12, Be16(etherType), base, at, dst + src);
    n := ETHERNET_HEADER_SIZE;
    OverwriteIs(base, at, EthernetHeader(dst, src, etherType));
    EthernetIs(buffer[at..at + 14], dst, src, etherType);
    SubSlice(buffer[..], at, at + 14, 0, 6);
    SubSlice(buffer[..], at, at + 14, 6, 12);
    SubSlice(buffer[..], at, at + 14, 12, 14);
    Field16(buffer[..], at + 12, etherType);
  }

  method BuildIpv4Header(buffer: array<byte>, at: nat, ends: Ends, protocol: byte, payloadLength: word, ttl: byte)
    returns (n: nat)
    requires at + IPV4_MIN_HEADER_SIZE <= buffer.Length
    modifies buffer
    ensures n == 20
    ensures IsHeader(buffer[at..at + 20], ends, protocol, payloadLength, ttl)
    ensures buffer[..] == Overwrite(old(buffer[..]), at, Ipv4Header(ends, protocol, payloadLength, ttl))
  {
    ghost var base := buffer[..];
    ghost var fields := Ipv4Fields(ends, protocol, payloadLength, ttl);
    var total: word := (IPV4_MIN_HEADER_SIZE + payloadLength) % 0x1_0000;
    ghost var w := [0x45];
    CopyMem(buffer, at, [0x45]);
    Put(buffer, at + 1, [0], base, at, w);
    w := w + [0];
    Put(buffer, at + 2, Be16(total), base, at, w);
    w := w + Be16(total);
    Put(buffer, at + 4, Be16(0), base, at, w);
    w := w + Be16(0);
    Put(buffer, at + 6, Be16(IP_FLAG_DF), base, at, w);
    w := w + Be16(IP_FLAG_DF);
    Put(buffer, at + 8, [ttl], base, at, w);
    w := w + [ttl];
    Put(buffer, at + 9, [protocol], base, at, w);
    w := w + [protocol];
    Put(buffer, at + 10, Be16(0), base, at, w);
    w := w + Be16(0);
    Put(buffer, at + 12, ends.srcIp, base, at, w);
    w := w + ends.srcIp;
    Put(buffer, at + 16, ends.dstIp, base, at, w);
    w := w + ends.dstIp;
    assert w == fields;
    assert buffer[at..at + 20] == buffer[..][at..at + 20] == fields;
    var c := ComputeChecksum(buffer, at, IPV4_MIN_HEADER_SIZE);
    OverwriteInside(base, at, fields, 10, Be16(c));
    CopyMem(buffer, at + 10, Be16(c));
    n := IPV4_MIN_HEADER_SIZE;
    Ipv4HeaderBytes(ends, protocol, payloadLength, ttl);
    OverwriteIs(base, at, Ipv4Header(ends, protocol, payloadLength, ttl));
  }

  method BuildArpMessage(buffer: array<byte>, at: nat, operation: word, senderMac: Mac, senderIp: Ip4,
                         targetMac: Mac, targetIp: Ip4)
    requires at + ARP_HEADER_SIZE <= buffer.Length
    modifies buffer
    ensures buffer[..] == Overwrite(old(buffer[..]), at, ArpMessage(operation, senderMac, senderIp, targetMac, targetIp))
  {
    ghost var base := buffer[..];
    ghost var w := Be16(1);
    CopyMem(buffer, at, Be16(1));
    Put(buffer, at + 2, Be16(ETHERTYPE_IPV4), base, at, w);
    w := w + Be16(ETHERTYPE_IPV4);
    Put(buffer, at + 4, [6], base, at, w);
    w := w + [6];
    Put(buffer, at + 5, [4], base, at, w);
    w := w + [4];
    Put(buffer, at + 6, Be16(operation), base, at, w);
    w := w + Be16(operation);
    Put(buffer, at + 8, senderMac, base, at, w);
    w := w + senderMac;
    Put(buffer, at + 14, senderIp, base, at, w);
    w := w + senderIp;
    Put(buffer, at + 18, targetMac, base, at, w);
    w := w + targetMac;
    Put(buffer, at + 24, targetIp, base, at, w);
  }

  lemma WholeFrame(buffer: seq<byte>, base: seq<byte>, frame: seq<byte>)
    requires |frame| <= |base| && buffer == Overwrite(base, 0, frame)
    ensures buffer[..|frame|] == frame == frame + [] && buffer[|frame|..] == base[|frame|..]
  {
  }

  method BuildArpRequest(buffer: array<byte>, srcMac: Mac, srcIp: Ip4, targetIp: Ip4) returns (size: nat)
    requires ETHERNET_HEADER_SIZE + ARP_HEADER_SIZE <= buffer.Length
    modifies buffer
    ensures size == 42
    ensures ArpReceived(buffer[..42], BROADCAST_MAC, 1, srcMac, srcIp, [0, 0, 0, 0, 0, 0], targetIp)
    ensures buffer[..] == Overwrite(old(buffer[..]), 0, ArpRequest(srcMac, srcIp, targetIp))
  {
    ghost var base := buffer[..];
    var offset := BuildEthernetHeader(buffer, 0, BROADCAST_MAC, srcMac, ETHERTYPE_ARP);
    BuildArpMessage(buffer, offset, 1, srcMac, srcIp, [0, 0, 0, 0, 0, 0], targetIp);
    OverwriteAppend(base, 0, EthernetHeader(BROADCAST_MAC, srcMac, ETHERTYPE_ARP),
                    ArpMessage(1, srcMac, srcIp, [0, 0, 0, 0, 0, 0], targetIp));
    ArpRequestRoundTrip(srcMac, srcIp, targetIp, []);
    WholeFrame(buffer[..], base, ArpRequest(srcMac, srcIp, targetIp));
    size := offset + ARP_HEADER_SIZE;
  }

  method BuildArpReply(buffer: array<byte>, ends: Ends) returns (size: nat)
    requires ETHERNET_HEADER_SIZE + ARP_HEADER_SIZE <= buffer.Length
    modifies buffer
    ensures size == 42
    ensures ArpReceived(buffer[..42], ends.dstMac, 2, ends.srcMac, ends.srcIp, ends.dstMac, ends.dstIp)
    ensures buffer[..] == Overwrite(old(buffer[..]), 0, ArpReply(ends))
  {
    ghost var base := buffer[..];
    var offset := BuildEthernetHeader(buffer, 0, ends.dstMac, ends.srcMac, ETHERTYPE_ARP);
    BuildArpMessage(buffer, offset, 2, ends.srcMac, ends.srcIp, ends.dstMac, ends.dstIp);
    OverwriteAppend(base, 0, EthernetHeader(ends.dstMac, ends.srcMac, ETHERTYPE_ARP),
                    ArpMessage(2, ends.srcMac, ends.srcIp, ends.dstMac, ends.dstIp));
    ArpReplyRoundTrip(ends, []);
    WholeFrame(buffer[..], base, ArpReply(ends));
    size := offset + ARP_HEADER_SIZE;
  }

  // Ethernet and IPv4 headers of every IPv4 frame.
  method BuildHeaders(buffer: array<byte>, ends: Ends, protocol: byte, length: word) returns (offset: nat)
    requires 34 <= buffer.Length
    modifies buffer
    ensures offset == 34
    ensures buffer[..] == Overwrite(old(buffer[..]), 0, Ipv4Frame(ends, protocol, length, []))
  {
    ghost var base := buffer[..];
    offset := BuildEthernetHeader(buffer, 0, ends.dstMac, ends.srcMac, ETHERTYPE_IPV4);
    var n := BuildIpv4Header(buffer, offset, ends, protocol, length, 64);
    offset := offset + n;
    ghost var eth := EthernetHeader(ends.dstMac, ends.srcMac, ETHERTYPE_IPV4);
    ghost var ip := Ipv4Header(ends, protocol, length, 64);
    OverwriteAppend(base, 0, eth, ip);
    assert eth + ip == Ipv4Frame(ends, protocol, length, []);
  }

  // Copy the payload after the headers, unless there is none to copy: a NULL
  // pointer leaves the payload area as it was.
  method PutPayload(buffer: array<byte>, data: Option<seq<byte>>, dataLength: nat,
                    ghost base: seq<byte>, ghost head: seq<byte>, ghost fields: seq<byte>, at: nat)
    returns (ghost payload: seq<byte>)
    requires at + dataLength <= buffer.Length
    requires data.Some? ==> |data.value| == dataLength
    requires at == |head| + |fields| && |head| == 34 && |base| == buffer.Length
    requires buffer[..] == Overwrite(base, 0, head + fields)
    modifies buffer
    ensures payload == if data.Some? then data.value else base[at..at + dataLength]
    ensures Segment(buffer[..], base, head, fields + payload)
  {
    if data.Some? && dataLength > 0 {
      payload := data.value;
      Put(buffer, at, data.value, base, 0, head + fields);
      assert head + fields + payload == head + (fields + payload);
    } else {
      payload := base[at..at + dataLength];
      assert data.Some? ==> payload == data.value;
      assert Overwrite(base, 0, head + fields) == Overwrite(base, 0, head + (fields + payload));
    }
  }

  // The buffer holds the 34 header bytes, a segment, and its old contents.
  ghost predicate Segment(buffer: seq<byte>, base: seq<byte>, head: seq<byte>, segment: seq<byte>) {
    |head| == 34 && |head| + |segment| <= |base| && buffer == Overwrite(base, 0, head + segment)
  }

  lemma SegmentView(buffer: seq<byte>, base: seq<byte>, head: seq<byte>, segment: seq<byte>, length: nat)
    requires Segment(buffer, base, head, segment) && length <= |segment|
    ensures buffer[34..34 + length] == segment[..length]
  {
  }

  // Store the checksum of the segment that starts at byte 34.
  method PatchSegment(buffer: array<byte>, at: nat, c: word, ghost base: seq<byte>, ghost ends: Ends,
                      ghost protocol: byte, ghost length: word, ghost blank: seq<byte>)
    requires |base| == buffer.Length && at + 2 <= |blank| && 34 + |blank| <= |base|
    requires Segment(buffer[..], base, Ipv4Frame(ends, protocol, length, []), blank)
    modifies buffer
    ensures buffer[..] == Overwrite(base, 0, Ipv4Frame(ends, protocol, length, Overwrite(blank, at, Be16(c))))
  {
    ghost var head := Ipv4Frame(ends, protocol, length, []);
    OverwriteInside(base, 0, head + blank, 34 + at, Be16(c));
    assert Overwrite(head + blank, 34 + at, Be16(c)) == head + Overwrite(blank, at, Be16(c));
    assert head + Overwrite(blank, at, Be16(c)) == Ipv4Frame(ends, protocol, length, Overwrite(blank, at, Be16(c)));
    CopyMem(buffer, 34 + at, Be16(c));
  }

  method SegmentChecksum(buffer: array<byte>, ends: Ends, protocol: byte, length: word,
                         ghost base: seq<byte>, ghost head: seq<byte>, ghost blank: seq<byte>) returns (c: word)
    requires |base| == buffer.Length && length <= |blank|
    requires Segment(buffer[..], base, head, blank)
    ensures c == InternetChecksum(PseudoHeader(ends.srcIp, ends.dstIp, protocol, length) + blank[..length])
  {
    SegmentView(buffer[..], base, head, blank, length);
    assert buffer[34..34 + length] == buffer[..][34..34 + length];
    c := ComputePseudoChecksum(ends.srcIp, ends.dstIp, protocol, length, buffer, 34, length);
  }

  method PutIcmpHeader(buffer: array<byte>, at: nat, identifier: word, sequence: word, ghost base: seq<byte>, ghost head: seq<byte>)
    requires at + ICMP_HEADER_SIZE <= buffer.Length
    requires at == |head| && |base| == buffer.Length
    requires buffer[..] == Overwrite(base, 0, head)
    modifies buffer
    ensures buffer[..] == Overwrite(base, 0, head + IcmpFields(identifier, sequence))
  {
    ghost var w := head;
    Put(buffer, at, [ICMP_TYPE_ECHO_REQUEST], base, 0, w);
    w := w + [ICMP_TYPE_ECHO_REQUEST];
    Put(buffer, at + 1, [0], base, 0, w);
    w := w + [0];
    Put(buffer, at + 2, Be16(0), base, 0, w);
    w := w + Be16(0);
    Put(buffer, at + 4, Be16(identifier), base, 0, w);
    w := w + Be16(identifier);
    Put(buffer, at + 6, Be16(sequence), base, 0, w);
    w := w + Be16(sequence);
    assert w == head + IcmpFields(identifier, sequence);
  }

  method PutUdpHeader(buffer: array<byte>, at: nat, srcPort: word, dstPort: word, length: word, ghost base: seq<byte>, ghost head: seq<byte>)
    requires at + UDP_HEADER_SIZE <= buffer.Length
    requires at == |head| && |base| == buffer.Length
    requires buffer[..] == Overwrite(base, 0, head)
    modifies buffer
    ensures buffer[..] == Overwrite(base, 0, head + UdpFields(srcPort, dstPort, length))
  {
    ghost var w := head;
    Put(buffer, at, Be16(srcPort), base, 0, w);
    w := w + Be16(srcPort);
    Put(buffer, at + 2, Be16(dstPort), base, 0, w);
    w := w + Be16(dstPort);
    Put(buffer, at + 4, Be16(length), base, 0, w);
    w := w + Be16(length);
    Put(buffer, at + 6, Be16(0), base, 0, w);
    w := w + Be16(0);
    assert w == head + UdpFields(srcPort, dstPort, length);
  }

  method PutTcpHeader(buffer: array<byte>, at: nat, t: TcpFields, ghost base: seq<byte>, ghost head: seq<byte>)
    requires at + TCP_MIN_HEADER_SIZE <= buffer.Length
    requires at == |head| && |base| == buffer.Length
    requires buffer[..] == Overwrite(base, 0, head)
    modifies buffer
    ensures buffer[..] == Overwrite(base, 0, head + TcpHeaderFields(t))
  {
    ghost var w := head;
    Put(buffer, at, Be16(t.srcPort), base, 0, w);
    w := w + Be16(t.srcPort);
    Put(buffer, at + 2, Be16(t.dstPort), base, 0, w);
    w := w + Be16(t.dstPort);
    Put(buffer, at + 4, Be32(t.seqNum), base, 0, w);
    w := w + Be32(t.seqNum);
    Put(buffer, at + 8, Be32(t.ackNum), base, 0, w);
    w := w + Be32(t.ackNum);
    Put(buffer, at + 12, [0x50], base, 0, w);
    w := w + [0x50];
    Put(buffer, at + 13, [t.flags], base, 0, w);
    w := w + [t.flags];
    Put(buffer, at + 14, Be16(t.window), base, 0, w);
    w := w + Be16(t.window);
    Put(buffer, at + 16, Be16(0), base, 0, w);
    w := w + Be16(0);
    Put(buffer, at + 18, Be16(0), base, 0, w);
    w := w + Be16(0);
    assert w == head + TcpHeaderFields(t);
  }

  // Checksum the finished segment and store the result in its header.
  method SealIcmp(buffer: array<byte>, ends: Ends, identifier: word, sequence: word, length: word,
                  ghost base: seq<byte>, ghost payload: seq<byte>)
    requires |base| == buffer.Length && length == SegmentLength(ICMP_HEADER_SIZE, |payload|)
    requires Segment(buffer[..], base, Ipv4Frame(ends, IP_PROTO_ICMP, length, []), IcmpFields(identifier, sequence) + payload)
    modifies buffer
    ensures |IcmpFrame(ends, identifier, sequence, payload)| <= |base|
    ensures buffer[..] == Overwrite(base, 0, IcmpFrame(ends, identifier, sequence, payload))
  {
    ghost var blank := IcmpFields(identifier, sequence) + payload;
    SegmentView(buffer[..], base, Ipv4Frame(ends, IP_PROTO_ICMP, length, []), blank, length);
    assert buffer[34..34 + length] == buffer[..][34..34 + length];
    var c := ComputeChecksum(buffer, 34, length);
    PatchSegment(buffer, 2, c, base, ends, IP_PROTO_ICMP, length, blank);
  }

  method SealUdp(buffer: array<byte>, ends: Ends, srcPort: word, dstPort: word, length: word,
                 ghost base: seq<byte>, ghost payload: seq<byte>)
    requires |base| == buffer.Length && length == SegmentLength(UDP_HEADER_SIZE, |payload|)
    requires Segment(buffer[..], base, Ipv4Frame(ends, IP_PROTO_UDP, length, []), UdpFields(srcPort, dstPort, length) + payload)
    modifies buffer
    ensures |UdpFrame(ends, srcPort, dstPort, payload)| <= |base|
    ensures buffer[..] == Overwrite(base, 0, UdpFrame(ends, srcPort, dstPort, payload))
  {
    ghost var blank := UdpFields(srcPort, dstPort, length) + payload;
    var c := SegmentChecksum(buffer, ends, IP_PROTO_UDP, length, base, Ipv4Frame(ends, IP_PROTO_UDP, length, []), blank);
    if c == 0 {
      c := 0xFFFF;
    }
    PatchSegment(buffer, 6, c, base, ends, IP_PROTO_UDP, length, blank);
  }

  method SealTcp(buffer: array<byte>, ends: Ends, t: TcpFields, length: word, ghost base: seq<byte>, ghost payload: seq<byte>)
    requires |base| == buffer.Length && length == SegmentLength(TCP_MIN_HEADER_SIZE, |payload|)
    requires Segment(buffer[..], base, Ipv4Frame(ends, IP_PROTO_TCP, length, []), TcpHeaderFields(t) + payload)
    modifies buffer
    ensures |TcpFrame(ends, t, payload)| <= |base|
    ensures buffer[..] == Overwrite(base, 0, TcpFrame(ends, t, payload))
  {
    ghost var blank := TcpHeaderFields(t) + payload;
    var c := SegmentChecksum(buffer, ends, IP_PROTO_TCP, length, base, Ipv4Frame(ends, IP_PROTO_TCP, length, []), blank);
    PatchSegment(buffer, 16, c, base, ends, IP_PROTO_TCP, length, blank);
  }

  // A finished frame in the caller's buffer: the payload, what lies behind it,
  // and the frame by itself.
  lemma FrameWritten(buffer: seq<byte>, base: seq<byte>, frame: seq<byte>, at: nat, payload: seq<byte>, size: nat)
    requires |frame| == at + |payload| <= |base| && frame[at..] == payload && buffer == Overwrite(base, 0, frame)
    ensures buffer[at..at + |payload|] == payload && buffer[at + |payload|..] == base[at + |payload|..]
    ensures buffer[..|frame|] == frame && (size == |frame| ==> buffer[..size] == frame + [])
  {
    assert buffer[at..at + |payload|] == frame[at..];
  }

  lemma SegmentEnds(ends: Ends, protocol: byte, length: word, s: seq<byte>, header: nat, payload: seq<byte>)
    requires |s| == header + |payload| && s[header..] == payload
    ensures var frame := Ipv4Frame(ends, protocol, length, s);
            |frame| == 34 + header + |payload| && frame[34 + header..] == payload
  {
    var frame := Ipv4Frame(ends, protocol, length, s);
    FrameTail(ends, protocol, length, s);
    assert frame[34 + header..] == frame[34..][header..];
  }

  method BuildIcmpEchoRequest(buffer: array<byte>, ends: Ends, identifier: word, sequence: word,
                              data: Option<seq<byte>>, dataLength: nat) returns (size: nat)
    requires 42 + dataLength <= buffer.Length
    requires data.Some? ==> |data.value| == dataLength
    modifies buffer
    ensures size == 34 + (8 + dataLength) % 0x1_0000
    ensures buffer[42..42 + dataLength] == if data.Some? then data.value else old(buffer[42..42 + dataLength])
    ensures buffer[42 + dataLength..] == old(buffer[42 + dataLength..])
    ensures var payload := if data.Some? then data.value else old(buffer[42..42 + dataLength]);
            && buffer[..42 + dataLength] == IcmpFrame(ends, identifier, sequence, payload)
            && (dataLength <= 65507 ==> IcmpReceived(buffer[..size], ends, identifier, sequence, payload))
  {
    hide *;
    ghost var base := buffer[..];
    ghost var payload;
    size, payload := WriteIcmp(buffer, ends, identifier, sequence, data, dataLength);
    IcmpBuilt(base, buffer[..], ends, identifier, sequence, payload, size);
  }

  method WriteIcmp(buffer: array<byte>, ends: Ends, identifier: word, sequence: word, data: Option<seq<byte>>, dataLength: nat)
    returns (size: nat, ghost payload: seq<byte>)
    requires 42 + dataLength <= buffer.Length
    requires data.Some? ==> |data.value| == dataLength
    modifies buffer
    ensures size == 34 + (8 + dataLength) % 0x1_0000
    ensures payload == if data.Some? then data.value else old(buffer[42..42 + dataLength])
    ensures |IcmpFrame(ends, identifier, sequence, payload)| <= buffer.Length
    ensures buffer[..] == Overwrite(old(buffer[..]), 0, IcmpFrame(ends, identifier, sequence, payload))
  {
    hide Ipv4Frame, IcmpFrame, Overwrite;
    ghost var base := buffer[..];
    var length: word := (ICMP_HEADER_SIZE + dataLength) % 0x1_0000;
    var offset := BuildHeaders(buffer, ends, IP_PROTO_ICMP, length);
    ghost var head := Ipv4Frame(ends, IP_PROTO_ICMP, length, []);
    FrameTail(ends, IP_PROTO_ICMP, length, []);
    PutIcmpHeader(buffer, offset, identifier, sequence, base, head);
    payload := PutPayload(buffer, data, dataLength, base, head, IcmpFields(identifier, sequence), offset + ICMP_HEADER_SIZE);
    SealIcmp(buffer, ends, identifier, sequence, length, base, payload);
    size := offset + length;
  }

  // What a finished frame leaves in the buffer.
  lemma IcmpBuilt(before: seq<byte>, after: seq<byte>, ends: Ends, identifier: word, sequence: word, payload: seq<byte>, size: nat)
    requires |IcmpFrame(ends, identifier, sequence, payload)| <= |before|
    requires after == Overwrite(before, 0, IcmpFrame(ends, identifier, sequence, payload))
    requires size == 34 + (8 + |payload|) % 0x1_0000
    ensures |before| == |after| && 42 + |payload| <= |after| && (|payload| <= 65507 ==> size <= |after|)
    ensures after[..42 + |payload|] == IcmpFrame(ends, identifier, sequence, payload)
    ensures after[42..42 + |payload|] == payload && after[42 + |payload|..] == before[42 + |payload|..]
    ensures |payload| <= 65507 ==> IcmpReceived(after[..size], ends, identifier, sequence, payload)
  {
    hide *;
    IcmpFrameEnds(ends, identifier, sequence, payload);
    FrameWritten(after, before, IcmpFrame(ends, identifier, sequence, payload), 42, payload, size);
    if |payload| <= 65507 {
      IcmpReaches(after[..size], ends, identifier, sequence, payload, []);
    }
  }

  lemma IcmpFrameEnds(ends: Ends, identifier: word, sequence: word, payload: seq<byte>)
    ensures |IcmpFrame(ends, identifier, sequence, payload)| == 42 + |payload| && IcmpFrame(ends, identifier, sequence, payload)[42..] == payload
  {
    var s := IcmpSegment(identifier, sequence, payload);
    assert |s| == 8 + |payload| && s[8..] == payload;
    SegmentEnds(ends, IP_PROTO_ICMP, SegmentLength(8, |payload|), s, 8, payload);
  }

  method BuildUdpPacket(buffer: array<byte>, ends: Ends, srcPort: word, dstPort: word,
                        data: Option<seq<byte>>, dataLength: nat) returns (size: nat)
    requires 42 + dataLength <= buffer.Length
    requires data.Some? ==> |data.value| == dataLength
    modifies buffer
    ensures size == 34 + (8 + dataLength) % 0x1_0000
    ensures buffer[42..42 + dataLength] == if data.Some? then data.value else old(buffer[42..42 + dataLength])
    ensures buffer[42 + dataLength..] == old(buffer[42 + dataLength..])
    ensures var payload := if data.Some? then data.value else old(buffer[42..42 + dataLength]);
            && buffer[..42 + dataLength] == UdpFrame(ends, srcPort, dstPort, payload)
            && (dataLength <= 65507 ==> UdpReceived(buffer[..size], ends, srcPort, dstPort, payload))
  {
    hide *;
    ghost var base := buffer[..];
    ghost var payload;
    size, payload := WriteUdp(buffer, ends, srcPort, dstPort, data, dataLength);
    UdpBuilt(base, buffer[..], ends, srcPort, dstPort, payload, size);
  }

  method WriteUdp(buffer: array<byte>, ends: Ends, srcPort: word, dstPort: word, data: Option<seq<byte>>, dataLength: nat)
    returns (size: nat, ghost payload: seq<byte>)
    requires 42 + dataLength <= buffer.Length
    requires data.Some? ==> |data.value| == dataLength
    modifies buffer
    ensures size == 34 + (8 + dataLength) % 0x1_0000
    ensures payload == if data.Some? then data.value else old(buffer[42..42 + dataLength])
    ensures |UdpFrame(ends, srcPort, dstPort, payload)| <= buffer.Length
    ensures buffer[..] == Overwrite(old(buffer[..]), 0, UdpFrame(ends, srcPort, dstPort, payload))
  {
    hide Ipv4Frame, UdpFrame, Overwrite;
    ghost var base := buffer[..];
    var length: word := (UDP_HEADER_SIZE + dataLength) % 0x1_0000;
    var offset := BuildHeaders(buffer, ends, IP_PROTO_UDP, length);
    ghost var head := Ipv4Frame(ends, IP_PROTO_UDP, length, []);
    FrameTail(ends, IP_PROTO_UDP, length, []);
    payload := PutUdpSegment(buffer, offset, srcPort, dstPort, length, data, dataLength, base, head);
    SealUdp(buffer, ends, srcPort, dstPort, length, base, payload);
    size := offset + length;
  }

  // Header and payload, before the checksum.
  method PutUdpSegment(buffer: array<byte>, offset: nat, srcPort: word, dstPort: word, length: word,
                       data: Option<seq<byte>>, dataLength: nat, ghost base: seq<byte>, ghost head: seq<byte>)
    returns (ghost payload: seq<byte>)
    requires offset == 34 == |head| && 42 + dataLength <= buffer.Length == |base|
    requires data.Some? ==> |data.value| == dataLength
    requires buffer[..] == Overwrite(base, 0, head)
    modifies buffer
    ensures payload == if data.Some? then data.value else base[42..42 + dataLength]
    ensures Segment(buffer[..], base, head, UdpFields(srcPort, dstPort, length) + payload)
  {
    PutUdpHeader(buffer, offset, srcPort, dstPort, length, base, head);
    payload := PutPayload(buffer, data, dataLength, base, head, UdpFields(srcPort, dstPort, length), offset + UDP_HEADER_SIZE);
  }

  // What a finished frame leaves in the buffer.
  lemma UdpBuilt(before: seq<byte>, after: seq<byte>, ends: Ends, srcPort: word, dstPort: word, payload: seq<byte>, size: nat)
    requires |UdpFrame(ends, srcPort, dstPort, payload)| <= |before|
    requires after == Overwrite(before, 0, UdpFrame(ends, srcPort, dstPort, payload))
    requires size == 34 + (8 + |payload|) % 0x1_0000
    ensures |before| == |after| && 42 + |payload| <= |after| && (|payload| <= 65507 ==> size <= |after|)
    ensures after[..42 + |payload|] == UdpFrame(ends, srcPort, dstPort, payload)
    ensures after[42..42 + |payload|] == payload && after[42 + |payload|..] == before[42 + |payload|..]
    ensures |payload| <= 65507 ==> UdpReceived(after[..size], ends, srcPort, dstPort, payload)
  {
    hide *;
    UdpFrameEnds(ends, srcPort, dstPort, payload);
    FrameWritten(after, before, UdpFrame(ends, srcPort, dstPort, payload), 42, payload, size);
    if |payload| <= 65507 {
      UdpReaches(after[..size], ends, srcPort, dstPort, payload, []);
    }
  }

  lemma UdpFrameEnds(ends: Ends, srcPort: word, dstPort: word, payload: seq<byte>)
    ensures |UdpFrame(ends, srcPort, dstPort, payload)| == 42 + |payload| && UdpFrame(ends, srcPort, dstPort, payload)[42..] == payload
  {
    var s := UdpSegment(ends, srcPort, dstPort, payload);
    assert |s| == 8 + |payload| && s[8..] == payload;
    SegmentEnds(ends, IP_PROTO_UDP, SegmentLength(8, |payload|), s, 8, payload);
  }

  method BuildTcpPacket(buffer: array<byte>, ends: Ends, t: TcpFields, data: Option<seq<byte>>, dataLength: nat)
    returns (size: nat)
    requires 54 + dataLength <= buffer.Length
    requires data.Some? ==> |data.value| == dataLength
    modifies buffer
    ensures size == 34 + (20 + dataLength) % 0x1_0000
    ensures buffer[54..54 + dataLength] == if data.Some? then data.value else old(buffer[54..54 + dataLength])
    ensures buffer[54 + dataLength..] == old(buffer[54 + dataLength..])
    ensures var payload := if data.Some? then data.value else old(buffer[54..54 + dataLength]);
            && buffer[..54 + dataLength] == TcpFrame(ends, t, payload)
            && (dataLength <= 65495 ==> TcpReceived(buffer[..size], ends, t, payload))
  {
    hide *;
    ghost var base := buffer[..];
    ghost var payload;
    size, payload := WriteTcp(buffer, ends, t, data, dataLength);
    TcpBuilt(base, buffer[..], ends, t, payload, size);
  }

  method WriteTcp(buffer: array<byte>, ends: Ends, t: TcpFields, data: Option<seq<byte>>, dataLength: nat)
    returns (size: nat, ghost payload: seq<byte>)
    requires 54 + dataLength <= buffer.Length
    requires data.Some? ==> |data.value| == dataLength
    modifies buffer
    ensures size == 34 + (20 + dataLength) % 0x1_0000
    ensures payload == if data.Some? then data.value else old(buffer[54..54 + dataLength])
    ensures |TcpFrame(ends, t, payload)| <= buffer.Length
    ensures buffer[..] == Overwrite(old(buffer[..]), 0, TcpFrame(ends, t, payload))
  {
    hide Ipv4Frame, TcpFrame, Overwrite;
    ghost var base := buffer[..];
    var length: word := (TCP_MIN_HEADER_SIZE + dataLength) % 0x1_0000;
    var offset := BuildHeaders(buffer, ends, IP_PROTO_TCP, length);
    ghost var head := Ipv4Frame(ends, IP_PROTO_TCP, length, []);
    FrameTail(ends, IP_PROTO_TCP, length, []);
    PutTcpHeader(buffer, offset, t, base, head);
    payload := PutPayload(buffer, data, dataLength, base, head, TcpHeaderFields(t), offset + TCP_MIN_HEADER_SIZE);
    SealTcp(buffer, ends, t, length, base, payload);
    size := offset + length;
  }

  // What a finished frame leaves in the buffer.
  lemma TcpBuilt(before: seq<byte>, after: seq<byte>, ends: Ends, t: TcpFields, payload: seq<byte>, size: nat)
    requires |TcpFrame(ends, t, payload)| <= |before|
    requires after == Overwrite(before, 0, TcpFrame(ends, t, payload))
    requires size == 34 + (20 + |payload|) % 0x1_0000
    ensures |before| == |after| && 54 + |payload| <= |after| && (|payload| <= 65495 ==> size <= |after|)
    ensures after[..54 + |payload|] == TcpFrame(ends, t, payload)
    ensures after[54..54 + |payload|] == payload && after[54 + |payload|..] == before[54 + |payload|..]
    ensures |payload| <= 65495 ==> TcpReceived(after[..size], ends, t, payload)
  {
    hide *;
    TcpFrameEnds(ends, t, payload);
    FrameWritten(after, before, TcpFrame(ends, t, payload), 54, payload, size);
    if |payload| <= 65495 {
      TcpReaches(after[..size], ends, t, payload, []);
    }
  }

  lemma TcpFrameEnds(ends: Ends, t: TcpFields, payload: seq<byte>)
    ensures |TcpFrame(ends, t, payload)| == 54 + |payload| && TcpFrame(ends, t, payload)[54..] == payload
  {
    var s := TcpSegment(ends, t, payload);
    assert |s| == 20 + |payload| && s[20..] == payload;
    SegmentEnds(ends, IP_PROTO_TCP, SegmentLength(20, |payload|), s, 20, payload);
  }
}
