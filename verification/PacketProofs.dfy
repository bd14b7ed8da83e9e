// Parsing undoes building, the parsed layers tile the datagram, and damage
// to a datagram shows in the checksum flags.
module PacketProofs {
  import opened Bytes
  import opened Checksum
  import opened PacketDefs
  import opened PacketFrames
  import opened PacketParser

  // The payload bytes a parsed frame points to.
  ghost function Delivered(f: seq<byte>): seq<byte>
    requires Parsable(f)
  {
    PayloadInside(f);
    var p := Parse(f);
    if p.payload.At? then f[p.payload.offset..p.payload.offset + p.payloadLength] else []
  }

  // ---------------------------------------------------------------------
  // Layers tile the datagram
  // ---------------------------------------------------------------------

  lemma PayloadInside(f: seq<byte>)
    requires Parsable(f)
    ensures var p := Parse(f);
            p.payload.At? ==>
              && IsIpv4(f)
              && 34 <= p.payload.offset
              && p.payload.offset + p.payloadLength == 14 + U16(f, 16) <= |f|
  {
  }

  // At most one layer-4 (or ARP) header is reported; the headers reported and
  // the payload follow one another without gap or overlap from byte 0 to the
  // end of the IPv4 datagram.
  lemma LayersTile(f: seq<byte>)
    requires Parsable(f)
    ensures var p := Parse(f);
            && (p.valid <==> |f| >= 14) && (!p.valid ==> p == CLEARED)
            && (p.valid ==> p.etherType == f[12] as int * 0x100 + f[13])
            && (p.ethernet.At? ==> p.ethernet.offset == 0 && 14 <= |f|)
            && (p.arp.At? ==> p.ethernet.At? && p.arp.offset == 14 && 42 <= |f|)
            && (p.ipv4.At? ==> p.ethernet.At? && p.ipv4.offset == 14 && 34 <= |f|)
            && !(p.arp.At? && p.ipv4.At?)
            && (p.icmp.At? || p.tcp.At? || p.udp.At? || p.payload.At? ==>
                  p.ipv4.At? && 34 <= 14 + f[14] % 0x10 * 4 <= 14 + U16(f, 16) <= |f|)
            && !(p.icmp.At? && p.tcp.At?) && !(p.icmp.At? && p.udp.At?) && !(p.tcp.At? && p.udp.At?)
            && (p.icmp.At? ==> p.icmp.offset == 14 + f[14] % 0x10 * 4 && p.payload == At(p.icmp.offset + 8))
            && (p.udp.At? ==> p.udp.offset == 14 + f[14] % 0x10 * 4 && p.payload == At(p.udp.offset + 8))
            && (p.tcp.At? ==> p.tcp.offset == 14 + f[14] % 0x10 * 4 && p.tcp.offset + 20 <= 14 + U16(f, 16) &&
                              (p.payload.At? ==> p.payload.offset == p.tcp.offset + f[p.tcp.offset + 12] / 0x10 * 4))
            && (p.payload.At? ==> p.payload.offset + p.payloadLength == 14 + U16(f, 16))
            && (!p.payload.At? ==> p.payloadLength == 0)
            && (p.ipChecksumValid ==> p.ipv4.At?)
            && (p.l4ChecksumValid ==> p.icmp.At? || p.tcp.At? || p.udp.At?)
  {
    hide IpChecksumOk, ParseL4;
    if IsIpv4(f) {
      var h, end := 14 + HeaderLength(f[14]), 14 + U16(f, 16);
      if 34 <= h <= end <= |f| {
        ParseIs(f, h);
        var p := CLEARED.(ethernet := At(0), etherType := ETHERTYPE_IPV4, ipv4 := At(14), ipChecksumValid := IpChecksumOk(f[14..h]));
        SegmentTiles(p, f[23], f[26..30], f[30..34], h, f[h..end]);
        assert |f[h..end]| > 12 ==> f[h..end][12] == f[h + 12];
      }
    }
  }

  // What layer 4 adds to what was found so far.
  lemma SegmentTiles(p: Parsed, protocol: byte, src: Ip4, dst: Ip4, offset: nat, segment: seq<byte>)
    requires p.icmp == p.tcp == p.udp == p.payload == Null && p.payloadLength == 0 && !p.l4ChecksumValid
    ensures var q := ParseL4(p, protocol, src, dst, offset, segment);
            && q == p.(icmp := q.icmp, tcp := q.tcp, udp := q.udp, payload := q.payload, payloadLength := q.payloadLength,
                       l4ChecksumValid := q.l4ChecksumValid)
            && !(q.icmp.At? && q.tcp.At?) && !(q.icmp.At? && q.udp.At?) && !(q.tcp.At? && q.udp.At?)
            && (q.icmp.At? ==> q.icmp.offset == offset && q.payload == At(offset + 8))
            && (q.udp.At? ==> q.udp.offset == offset && q.payload == At(offset + 8))
            && (q.tcp.At? ==> q.tcp.offset == offset && |segment| >= 20 &&
                              (q.payload.At? ==> q.payload.offset == offset + TcpHeaderLength(segment[12])))
            && (q.payload.At? ==> q.payload.offset + q.payloadLength == offset + |segment|)
            && (!q.payload.At? ==> q.payloadLength == 0)
            && (q.l4ChecksumValid ==> q.icmp.At? || q.tcp.At? || q.udp.At?)
  {
    hide IcmpChecksumOk, TcpChecksumOk, UdpChecksumOk;
  }

  // A readable IPv4 datagram of this protocol with at least `least` bytes
  // behind its header.
  ghost predicate CarriesAtLeast(f: seq<byte>, protocol: byte, least: nat) {
    && |f| >= 34 && f[12] == 8 && f[13] == 0 && f[23] == protocol && f[14] % 0x10 >= 5
    && 14 + U16(f, 16) <= |f| && f[14] % 0x10 * 4 + least <= U16(f, 16)
  }

  // Exactly when each layer is reported, and where a payload of no known
  // protocol starts.
  lemma LayersReported(f: seq<byte>)
    requires Parsable(f)
    ensures var p := Parse(f);
            && (p.arp.At? <==> |f| >= 42 && f[12] == 8 && f[13] == 6)
            && (p.ipv4.At? <==> |f| >= 34 && f[12] == 8 && f[13] == 0)
            && (p.icmp.At? <==> CarriesAtLeast(f, 1, 8))
            && (p.tcp.At? <==> CarriesAtLeast(f, 6, 20))
            && (p.udp.At? <==> CarriesAtLeast(f, 17, 8))
            && (|f| >= 34 && CarriesAtLeast(f, f[23], 0) && f[23] !in {1, 6, 17} ==> p.payload == At(14 + f[14] % 0x10 * 4))
            && (p.tcp.At? ==> (p.payload.At? <==> 5 <= f[p.tcp.offset + 12] / 0x10 &&
                                                  f[14] % 0x10 * 4 + f[p.tcp.offset + 12] / 0x10 * 4 <= U16(f, 16)))
  {
    hide InternetChecksum;
    LayersTile(f);
  }

  // The last four bytes that both pseudo-headers start a segment with.
  function PseudoTail(protocol: byte, length: nat): seq<byte> {
    [0, protocol, length / 0x100 % 0x100, length % 0x100]
  }

  // When each checksum flag is up, for any frame. The pseudo-header is that of
  // RFC 768 and of section 3.1 of RFC 793.
  lemma FlagsReported(f: seq<byte>)
    requires Parsable(f)
    ensures var p := Parse(f);
            && (p.ipv4.At? ==>
                  (p.ipChecksumValid <==> f[14] % 0x10 >= 5 && InternetChecksum(f[14..14 + f[14] % 0x10 * 4]) == 0))
            && (p.icmp.At? || p.tcp.At? || p.udp.At? ==>
                  var segment := f[14 + f[14] % 0x10 * 4..14 + U16(f, 16)];
                  p.l4ChecksumValid <==>
                    if p.icmp.At? then InternetChecksum(segment) == 0
                    else if p.tcp.At? then InternetChecksum(f[26..34] + PseudoTail(6, |segment|) + segment) == 0
                    else (segment[6] == 0 && segment[7] == 0)
                         || InternetChecksum(f[26..34] + PseudoTail(17, |segment|) + segment) == 0)
  {
    LayersTile(f);
    LayersReported(f);
    HeaderFlag(f);
    if IsIpv4(f) {
      var h := 14 + HeaderLength(f[14]);
      if 34 <= h <= 14 + U16(f, 16) <= |f| {
        ParseIs(f, h);
        SegmentFlag(f, f[23], h, f[h..14 + U16(f, 16)]);
      }
    }
  }

  lemma SegmentFlag(f: seq<byte>, protocol: byte, h: nat, s: seq<byte>)
    requires 34 <= |f| && |s| < 0x1_0000
    ensures forall p: Parsed :: p.icmp == p.tcp == p.udp == Null ==>
              var q := ParseL4(p, protocol, f[26..30], f[30..34], h, s);
              && (q.icmp.At? ==> q.l4ChecksumValid == (InternetChecksum(s) == 0))
              && (q.tcp.At? ==> q.l4ChecksumValid == (InternetChecksum(f[26..34] + PseudoTail(6, |s|) + s) == 0))
              && (q.udp.At? ==>
                    |s| >= 8 && (q.l4ChecksumValid <==>
                      (s[6] == 0 && s[7] == 0) || InternetChecksum(f[26..34] + PseudoTail(17, |s|) + s) == 0))
  {
    PseudoIs(f, 6, |s|);
    PseudoIs(f, 17, |s|);
  }

  lemma PseudoIs(f: seq<byte>, protocol: byte, length: word)
    requires |f| >= 34
    ensures PseudoHeader(f[26..30], f[30..34], protocol, length) == f[26..34] + PseudoTail(protocol, length)
  {
    assert f[26..30] + f[30..34] == f[26..34];
  }

  // ---------------------------------------------------------------------
  // Round trips
  // ---------------------------------------------------------------------

  // The twenty bytes of a header that the builders write.
  ghost predicate IsHeader(h: seq<byte>, ends: Ends, protocol: byte, length: word, ttl: byte) {
    && |h| == 20
    && h[0..2] == [0x45, 0] && U16(h, 2) == (20 + length) % 0x1_0000 && h[4..8] == [0, 0, 0x40, 0]
    && h[8..10] == [ttl, protocol]
    && h[12..16] == ends.srcIp && h[16..20] == ends.dstIp
    && InternetChecksum(h) == 0
  }

  lemma Ipv4HeaderBytes(ends: Ends, protocol: byte, length: word, ttl: byte)
    ensures IsHeader(Ipv4Header(ends, protocol, length, ttl), ends, protocol, length, ttl)
  {
    var fields := Ipv4Fields(ends, protocol, length, ttl);
    Ipv4FieldBytes(ends, protocol, length, ttl, (20 + length) % 0x1_0000);
    var c := InternetChecksum(fields);
    FilledFieldValidates(fields, 10, c);
    var h := Ipv4Header(ends, protocol, length, ttl);
    assert h == Overwrite(fields, 10, Be16(c));
    OverwriteIs(fields, 10, Be16(c));
    SubSlice(fields, 0, 10, 0, 2);
    SubSlice(h, 0, 10, 0, 2);
    SubSlice(fields, 0, 10, 4, 8);
    SubSlice(h, 0, 10, 4, 8);
    SubSlice(fields, 0, 10, 8, 10);
    SubSlice(h, 0, 10, 8, 10);
    SubSlice(fields, 12, 20, 0, 4);
    SubSlice(h, 12, 20, 0, 4);
    SubSlice(fields, 12, 20, 4, 8);
    SubSlice(h, 12, 20, 4, 8);
  }

  lemma Ipv4FieldBytes(ends: Ends, protocol: byte, length: word, ttl: byte, total: word)
    requires total == (20 + length) % 0x1_0000
    ensures var h := Ipv4Fields(ends, protocol, length, ttl);
            && |h| == 20 && h[0..2] == [0x45, 0] && U16(h, 2) == total && h[4..8] == [0, 0, 0x40, 0] && h[8..10] == [ttl, protocol]
            && h[10] == 0 && h[11] == 0 && h[12..16] == ends.srcIp && h[16..20] == ends.dstIp
  {
    var h := Ipv4Fields(ends, protocol, length, ttl);
    var start := [0x45, 0] + (Be16(total) + ([0, 0, 0x40, 0] + ([ttl, protocol] + [0, 0])));
    assert Be16(0) == [0, 0] && Be16(IP_FLAG_DF) == [0x40, 0];
    assert h == start + (ends.srcIp + ends.dstIp);
    StartBytes(h, total, ttl, protocol, ends.srcIp, ends.dstIp);
  }

  lemma StartBytes(h: seq<byte>, total: word, ttl: byte, protocol: byte, src: Ip4, dst: Ip4)
    requires h == [0x45, 0] + (Be16(total) + ([0, 0, 0x40, 0] + ([ttl, protocol] + [0, 0]))) + (src + dst)
    ensures |h| == 20 && h[0..2] == [0x45, 0] && U16(h, 2) == total && h[4..8] == [0, 0, 0x40, 0] && h[8..10] == [ttl, protocol]
    ensures h[10] == 0 && h[11] == 0 && h[12..16] == src && h[16..20] == dst
  {
    assert h[2..4] == Be16(total);
    Field16(h, 2, total);
  }

  // A frame's own headers, as a receiver sees them.
  ghost predicate Addressed(f: seq<byte>, ends: Ends, protocol: byte, total: word)
    requires |f| >= 34
  {
    && f[0..6] == ends.dstMac && f[6..12] == ends.srcMac && f[12..14] == [8, 0]
    && f[14..16] == [0x45, 0] && U16(f, 16) == total && f[18..22] == [0, 0, 0x40, 0]
    && f[22..24] == [64, protocol]
    && f[26..30] == ends.srcIp && f[30..34] == ends.dstIp
  }

  // The frame `f` is an IPv4 datagram between `ends` holding `segment`,
  // perhaps followed by padding.
  ghost predicate Carries(f: seq<byte>, ends: Ends, protocol: byte, segment: seq<byte>) {
    && 34 + |segment| <= |f| && |segment| <= 65515
    && Addressed(f, ends, protocol, 20 + |segment|)
    && f[34..34 + |segment|] == segment
    && Parsable(f)
    && Parse(f) == ParseL4(Parsed(false, At(0), ETHERTYPE_IPV4, At(14), Null, Null, Null, Null, Null, 0, true, false),
                           protocol, ends.srcIp, ends.dstIp, 34, segment).(valid := true)
  }

  lemma FrameCarries(ends: Ends, protocol: byte, segment: seq<byte>, pad: seq<byte>)
    requires |segment| <= 65515
    ensures Carries(Ipv4Frame(ends, protocol, |segment|, segment) + pad, ends, protocol, segment)
  {
    Ipv4HeaderBytes(ends, protocol, |segment|, 64);
    var eth := EthernetHeader(ends.dstMac, ends.srcMac, ETHERTYPE_IPV4);
    var h := Ipv4Header(ends, protocol, |segment|, 64);
    HeaderView(eth, h, segment, pad);
    HeaderCarries(eth + h + segment + pad, ends, protocol, segment, h);
  }

  lemma HeaderView(eth: seq<byte>, h: seq<byte>, segment: seq<byte>, pad: seq<byte>)
    requires |eth| == 14 && |h| == 20
    ensures var f := eth + h + segment + pad;
            && 34 + |segment| <= |f| && f[..14] == eth && f[14..34] == h && f[34..34 + |segment|] == segment
  {
    assert eth + h + segment + pad == eth + (h + (segment + pad));
  }

  lemma HeaderCarries(f: seq<byte>, ends: Ends, protocol: byte, segment: seq<byte>, h: seq<byte>)
    requires |segment| <= 65515 && 34 + |segment| <= |f|
    requires f[..14] == EthernetHeader(ends.dstMac, ends.srcMac, ETHERTYPE_IPV4)
    requires f[14..34] == h && f[34..34 + |segment|] == segment
    requires IsHeader(h, ends, protocol, |segment|, 64)
    ensures Carries(f, ends, protocol, segment)
  {
    EthernetIs(f, ends.dstMac, ends.srcMac, ETHERTYPE_IPV4);
    HeaderAddressed(f, ends, protocol, |segment|, h);
    AddressedParse(f, ends, protocol, segment, h);
  }

  lemma EthernetIs(f: seq<byte>, dst: Mac, src: Mac, etherType: word)
    requires |f| >= 14 && f[..14] == EthernetHeader(dst, src, etherType)
    ensures f[0..6] == dst && f[6..12] == src && f[12..14] == Be16(etherType)
  {
    var eth := EthernetHeader(dst, src, etherType);
    assert eth[0..6] == dst && eth[6..12] == src && eth[12..14] == Be16(etherType);
    SubSlice(f, 0, 14, 0, 6);
    SubSlice(f, 0, 14, 6, 12);
    SubSlice(f, 0, 14, 12, 14);
  }

  lemma HeaderAddressed(f: seq<byte>, ends: Ends, protocol: byte, length: nat, h: seq<byte>)
    requires length <= 65515 && |f| >= 34 && f[14..34] == h && IsHeader(h, ends, protocol, length, 64)
    requires f[0..6] == ends.dstMac && f[6..12] == ends.srcMac && f[12..14] == [8, 0]
    ensures Addressed(f, ends, protocol, 20 + length)
  {
    SubSlice(f, 14, 34, 0, 2);
    SubSlice(f, 14, 34, 4, 8);
    SubSlice(f, 14, 34, 8, 10);
    SubSlice(f, 14, 34, 12, 16);
    SubSlice(f, 14, 34, 16, 20);
    assert f[16] == h[2] && f[17] == h[3];
  }

  lemma AddressedParse(f: seq<byte>, ends: Ends, protocol: byte, segment: seq<byte>, h: seq<byte>)
    requires |segment| <= 65515 && 34 + |segment| <= |f| && f[14..34] == h && f[34..34 + |segment|] == segment
    requires |h| == 20 && InternetChecksum(h) == 0 && Addressed(f, ends, protocol, 20 + |segment|)
    ensures Carries(f, ends, protocol, segment)
  {
    assert f[12] == f[12..14][0] && f[13] == f[12..14][1] && f[14] == f[14..16][0];
    assert f[23] == f[22..24][1];
  }

  // Fields of the segment, seen from the frame.
  lemma SegmentSlice(f: seq<byte>, segment: seq<byte>, k: nat, n: nat)
    requires k + n <= |segment| && 34 + |segment| <= |f| && f[34..34 + |segment|] == segment
    ensures f[34 + k..34 + k + n] == segment[k..k + n]
  {
    var view := f[34 + k..34 + k + n];
    assert forall j :: 0 <= j < n ==> view[j] == f[34..34 + |segment|][k + j];
    assert view == segment[k..k + n];
  }

  lemma PseudoPatch(ends: Ends, protocol: byte, length: word, blank: seq<byte>, at: nat, c: word)
    requires |blank| == length && at % 2 == 0 && at + 2 <= |blank| && blank[at] == 0 && blank[at + 1] == 0
    requires var sum := InternetChecksum(PseudoHeader(ends.srcIp, ends.dstIp, protocol, length) + blank);
             c == sum || (c == 0xFFFF && sum == 0)
    ensures PseudoOk(ends.srcIp, ends.dstIp, protocol, Overwrite(blank, at, Be16(c)))
  {
    var pseudo := PseudoHeader(ends.srcIp, ends.dstIp, protocol, length);
    FilledFieldValidates(pseudo + blank, 12 + at, c);
    assert Overwrite(pseudo + blank, 12 + at, Be16(c)) == pseudo + Overwrite(blank, at, Be16(c));
  }

  // The parts of a finished segment, checksum included.
  ghost predicate IcmpSealed(s: seq<byte>, identifier: word, sequence: word, data: seq<byte>) {
    && |s| == 8 + |data| && s[..2] == [8, 0] && U16(s, 4) == identifier && U16(s, 6) == sequence
    && s[8..] == data && IcmpChecksumOk(s)
  }

  ghost predicate UdpSealed(s: seq<byte>, ends: Ends, srcPort: word, dstPort: word, data: seq<byte>) {
    && |data| <= 65507
    && |s| == 8 + |data| && U16(s, 0) == srcPort && U16(s, 2) == dstPort && U16(s, 4) == 8 + |data| && U16(s, 6) != 0
    && s[8..] == data && PseudoOk(ends.srcIp, ends.dstIp, IP_PROTO_UDP, s)
  }

  // The TCP header fields at offset `at`, read as the numbers they stand for.
  ghost predicate TcpHeaderAt(s: seq<byte>, at: nat, t: TcpFields)
    requires at + 20 <= |s|
  {
    && U16(s, at) == t.srcPort && U16(s, at + 2) == t.dstPort
    && s[at + 4] as int * 0x100_0000 + s[at + 5] as int * 0x1_0000 + s[at + 6] as int * 0x100 + s[at + 7] == t.seqNum
    && s[at + 8] as int * 0x100_0000 + s[at + 9] as int * 0x1_0000 + s[at + 10] as int * 0x100 + s[at + 11] == t.ackNum
    && s[at + 12] == 0x50 && s[at + 13] == t.flags && U16(s, at + 14) == t.window && s[at + 18] == s[at + 19] == 0
  }

  ghost predicate TcpSealed(s: seq<byte>, ends: Ends, t: TcpFields, data: seq<byte>) {
    && |s| == 20 + |data| && TcpHeaderAt(s, 0, t)
    && s[20..] == data && PseudoOk(ends.srcIp, ends.dstIp, IP_PROTO_TCP, s)
  }

  lemma IcmpSegmentSealed(identifier: word, sequence: word, data: seq<byte>)
    requires |data| <= 65507
    ensures IcmpSealed(IcmpSegment(identifier, sequence, data), identifier, sequence, data)
  {
    var blank := IcmpFields(identifier, sequence) + data;
    assert blank[..8 + |data|] == blank;
    var c := InternetChecksum(blank);
    FilledFieldValidates(blank, 2, c);
    PatchedHeader(IcmpFields(identifier, sequence), 2, Be16(c), data);
    IcmpShape(IcmpSegment(identifier, sequence, data), identifier, sequence, Be16(c), data);
  }

  lemma IcmpShape(s: seq<byte>, identifier: word, sequence: word, c: seq<byte>, data: seq<byte>)
    requires |c| == 2 && s == IcmpFields(identifier, sequence)[..2] + (c + (IcmpFields(identifier, sequence)[4..] + data))
    ensures |s| == 8 + |data| && s[..2] == [8, 0] && U16(s, 4) == identifier && U16(s, 6) == sequence && s[8..] == data
  {
    assert s == [8, 0] + (c + (Be16(identifier) + (Be16(sequence) + data)));
    assert s[4..6] == Be16(identifier) && s[6..8] == Be16(sequence);
    Field16(s, 4, identifier);
    Field16(s, 6, sequence);
  }

  lemma UdpSegmentSealed(ends: Ends, srcPort: word, dstPort: word, data: seq<byte>)
    requires |data| <= 65507
    ensures UdpSealed(UdpSegment(ends, srcPort, dstPort, data), ends, srcPort, dstPort, data)
  {
    var length: word := 8 + |data|;
    var blank := UdpFields(srcPort, dstPort, length) + data;
    assert blank[..length] == blank;
    var c := UdpStored(InternetChecksum(PseudoHeader(ends.srcIp, ends.dstIp, IP_PROTO_UDP, length) + blank));
    PseudoPatch(ends, IP_PROTO_UDP, length, blank, 6, c);
    assert UdpSegment(ends, srcPort, dstPort, data) == Overwrite(blank, 6, Be16(c));
    PatchedHeader(UdpFields(srcPort, dstPort, length), 6, Be16(c), data);
    UdpShape(UdpSegment(ends, srcPort, dstPort, data), srcPort, dstPort, length, c, data);
  }

  lemma UdpShape(s: seq<byte>, srcPort: word, dstPort: word, length: word, c: word, data: seq<byte>)
    requires c != 0
    requires s == UdpFields(srcPort, dstPort, length)[..6] + (Be16(c) + (UdpFields(srcPort, dstPort, length)[8..] + data))
    ensures |s| == 8 + |data| && U16(s, 0) == srcPort && U16(s, 2) == dstPort && U16(s, 4) == length && U16(s, 6) != 0
    ensures s[8..] == data
  {
    assert s == Be16(srcPort) + (Be16(dstPort) + (Be16(length) + (Be16(c) + data)));
    assert s[0..2] == Be16(srcPort) && s[2..4] == Be16(dstPort) && s[4..6] == Be16(length) && s[6..8] == Be16(c);
    Field16(s, 0, srcPort);
    Field16(s, 2, dstPort);
    Field16(s, 4, length);
    Field16(s, 6, c);
  }

  lemma PatchedHeader(fields: seq<byte>, at: nat, b: seq<byte>, data: seq<byte>)
    requires at + |b| <= |fields|
    ensures Overwrite(fields + data, at, b) == fields[..at] + (b + (fields[at + |b|..] + data))
  {
  }

  lemma TcpSegmentSealed(ends: Ends, t: TcpFields, data: seq<byte>)
    requires |data| <= 65495
    ensures TcpSealed(TcpSegment(ends, t, data), ends, t, data)
  {
    var length: word := 20 + |data|;
    var blank := TcpHeaderFields(t) + data;
    assert blank[..length] == blank;
    var c := InternetChecksum(PseudoHeader(ends.srcIp, ends.dstIp, IP_PROTO_TCP, length) + blank);
    TcpFieldParts(t);
    PseudoPatch(ends, IP_PROTO_TCP, length, blank, 16, c);
    assert TcpSegment(ends, t, data) == Overwrite(blank, 16, Be16(c));
    PatchedHeader(TcpHeaderFields(t), 16, Be16(c), data);
    TcpShape(TcpSegment(ends, t, data), t, Be16(c), data);
  }

  lemma TcpFieldParts(t: TcpFields)
    ensures var f := TcpHeaderFields(t);
            && |f| == 20 && f[16..18] == Be16(0) && f[18..] == Be16(0)
            && f[..16] == Be16(t.srcPort) + (Be16(t.dstPort) + (Be32(t.seqNum) + (Be32(t.ackNum) + ([0x50, t.flags] + Be16(t.window)))))
  {
    var first := Be16(t.srcPort) + (Be16(t.dstPort) + (Be32(t.seqNum) + (Be32(t.ackNum) + ([0x50, t.flags] + Be16(t.window)))));
    assert TcpHeaderFields(t) == first + (Be16(0) + Be16(0));
  }

  lemma TcpShape(s: seq<byte>, t: TcpFields, c: seq<byte>, data: seq<byte>)
    requires |c| == 2 && s == TcpHeaderFields(t)[..16] + (c + (TcpHeaderFields(t)[18..] + data))
    ensures |s| == 20 + |data| && TcpHeaderAt(s, 0, t) && s[20..] == data
  {
    TcpFieldParts(t);
    var last := [0x50, t.flags] + Be16(t.window);
    var rest := c + ([0, 0] + data);
    assert s == Be16(t.srcPort) + (Be16(t.dstPort) + (Be32(t.seqNum) + (Be32(t.ackNum) + (last + rest))));
    TcpNumbers(s, t, last + rest);
    assert s[20..] == data && s[18..20] == [0, 0];
    assert s[12..16] == last && last[2..4] == Be16(t.window);
    SubSlice(s, 12, 16, 2, 4);
    Field16(s, 14, t.window);
    assert s[12] == last[0] && s[13] == last[1];
    assert s[18] == s[18..20][0] && s[19] == s[18..20][1];
  }

  lemma TcpNumbers(s: seq<byte>, t: TcpFields, rest: seq<byte>)
    requires s == Be16(t.srcPort) + (Be16(t.dstPort) + (Be32(t.seqNum) + (Be32(t.ackNum) + rest)))
    ensures |s| == 12 + |rest| && U16(s, 0) == t.srcPort && U16(s, 2) == t.dstPort
    ensures s[4] as int * 0x100_0000 + s[5] as int * 0x1_0000 + s[6] as int * 0x100 + s[7] == t.seqNum
    ensures s[8] as int * 0x100_0000 + s[9] as int * 0x1_0000 + s[10] as int * 0x100 + s[11] == t.ackNum
  {
    assert s[0..2] == Be16(t.srcPort) && s[2..4] == Be16(t.dstPort) && s[4..8] == Be32(t.seqNum) && s[8..12] == Be32(t.ackNum);
    Field16(s, 0, t.srcPort);
    Field16(s, 2, t.dstPort);
    Field32(s, 4, t.seqNum);
    Field32(s, 8, t.ackNum);
  }

  // What a receiver finds in a frame that the ICMP builder made: the layers,
  // both checksums good, every header field and the payload.
  ghost predicate IcmpReceived(f: seq<byte>, ends: Ends, identifier: word, sequence: word, data: seq<byte>) {
    && 42 + |data| <= |f| && |data| <= 65507 && Parsable(f)
    && Parse(f) == Parsed(true, At(0), ETHERTYPE_IPV4, At(14), Null, At(34), Null, Null, At(42), |data|, true, true)
    && Addressed(f, ends, 1, 28 + |data|)
    && f[34..36] == [8, 0] && U16(f, 38) == identifier && U16(f, 40) == sequence
    && f[42..42 + |data|] == data
  }

  ghost predicate UdpReceived(f: seq<byte>, ends: Ends, srcPort: word, dstPort: word, data: seq<byte>) {
    && 42 + |data| <= |f| && |data| <= 65507 && Parsable(f)
    && Parse(f) == Parsed(true, At(0), ETHERTYPE_IPV4, At(14), Null, Null, Null, At(34), At(42), |data|, true, true)
    && Addressed(f, ends, 17, 28 + |data|)
    && U16(f, 34) == srcPort && U16(f, 36) == dstPort && U16(f, 38) == 8 + |data| && U16(f, 40) != 0
    && f[42..42 + |data|] == data
  }

  ghost predicate TcpReceived(f: seq<byte>, ends: Ends, t: TcpFields, data: seq<byte>) {
    && 54 + |data| <= |f| && |data| <= 65495 && Parsable(f)
    && Parse(f) == Parsed(true, At(0), ETHERTYPE_IPV4, At(14), Null, Null, At(34), Null, At(54), |data|, true, true)
    && Addressed(f, ends, 6, 40 + |data|)
    && TcpHeaderAt(f, 34, t)
    && f[54..54 + |data|] == data
  }

  // Fields of the segment, seen from the frame.
  lemma SegmentWord(f: seq<byte>, segment: seq<byte>, k: nat)
    requires k + 2 <= |segment| && 34 + |segment| <= |f| && f[34..34 + |segment|] == segment
    ensures U16(f, 34 + k) == U16(segment, k)
  {
    SegmentSlice(f, segment, k, 2);
    assert f[34 + k] == f[34 + k..34 + k + 2][0] && f[34 + k + 1] == f[34 + k..34 + k + 2][1];
    assert segment[k] == segment[k..k + 2][0] && segment[k + 1] == segment[k..k + 2][1];
  }

  lemma IcmpView(f: seq<byte>, ends: Ends, s: seq<byte>, identifier: word, sequence: word, data: seq<byte>)
    requires Carries(f, ends, 1, s) && IcmpSealed(s, identifier, sequence, data)
    ensures IcmpReceived(f, ends, identifier, sequence, data)
  {
    SegmentSlice(f, s, 8, |data|);
    SegmentSlice(f, s, 0, 2);
    SegmentWord(f, s, 4);
    SegmentWord(f, s, 6);
  }

  lemma UdpView(f: seq<byte>, ends: Ends, s: seq<byte>, srcPort: word, dstPort: word, data: seq<byte>)
    requires Carries(f, ends, 17, s) && UdpSealed(s, ends, srcPort, dstPort, data)
    ensures UdpReceived(f, ends, srcPort, dstPort, data)
  {
    SegmentSlice(f, s, 8, |data|);
    SegmentWord(f, s, 0);
    SegmentWord(f, s, 2);
    SegmentWord(f, s, 4);
    SegmentWord(f, s, 6);
  }

  lemma TcpView(f: seq<byte>, ends: Ends, s: seq<byte>, t: TcpFields, data: seq<byte>)
    requires Carries(f, ends, 6, s) && TcpSealed(s, ends, t, data)
    ensures TcpReceived(f, ends, t, data)
  {
    SegmentSlice(f, s, 20, |data|);
    TcpHeaderSeen(f, s, t);
  }

  lemma TcpHeaderSeen(f: seq<byte>, s: seq<byte>, t: TcpFields)
    requires 20 <= |s| && 34 + |s| <= |f| && f[34..34 + |s|] == s && TcpHeaderAt(s, 0, t)
    ensures TcpHeaderAt(f, 34, t)
  {
    forall k | 0 <= k < 20 ensures f[34 + k] == s[k] {
      assert f[34..34 + |s|][k] == f[34 + k];
    }
  }

  lemma IcmpArrives(f: seq<byte>, ends: Ends, identifier: word, sequence: word, data: seq<byte>, pad: seq<byte>, s: seq<byte>)
    requires |data| <= 65507 && IcmpSealed(s, identifier, sequence, data)
    requires f == Ipv4Frame(ends, IP_PROTO_ICMP, 8 + |data|, s) + pad
    ensures IcmpReceived(f, ends, identifier, sequence, data)
  {
    FrameCarries(ends, IP_PROTO_ICMP, s, pad);
    IcmpView(f, ends, s, identifier, sequence, data);
  }

  lemma UdpArrives(f: seq<byte>, ends: Ends, srcPort: word, dstPort: word, data: seq<byte>, pad: seq<byte>, s: seq<byte>)
    requires UdpSealed(s, ends, srcPort, dstPort, data)
    requires f == Ipv4Frame(ends, IP_PROTO_UDP, 8 + |data|, s) + pad
    ensures UdpReceived(f, ends, srcPort, dstPort, data)
  {
    FrameCarries(ends, IP_PROTO_UDP, s, pad);
    UdpView(f, ends, s, srcPort, dstPort, data);
  }

  lemma TcpArrives(f: seq<byte>, ends: Ends, t: TcpFields, data: seq<byte>, pad: seq<byte>, s: seq<byte>)
    requires |data| <= 65495 && TcpSealed(s, ends, t, data)
    requires f == Ipv4Frame(ends, IP_PROTO_TCP, 20 + |data|, s) + pad
    ensures TcpReceived(f, ends, t, data)
  {
    FrameCarries(ends, IP_PROTO_TCP, s, pad);
    TcpView(f, ends, s, t, data);
  }

  // Within the 16-bit lengths nothing is lost to the cast.
  lemma LengthKept(header: nat, n: nat)
    requires header + n < 0x1_0000
    ensures SegmentLength(header, n) == header + n
  {
  }

  lemma IcmpRoundTrip(ends: Ends, identifier: word, sequence: word, data: seq<byte>, pad: seq<byte>)
    requires |data| <= 65507
    ensures IcmpReceived(IcmpFrame(ends, identifier, sequence, data) + pad, ends, identifier, sequence, data)
  {
    IcmpReaches(IcmpFrame(ends, identifier, sequence, data) + pad, ends, identifier, sequence, data, pad);
  }

  lemma IcmpReaches(f: seq<byte>, ends: Ends, identifier: word, sequence: word, data: seq<byte>, pad: seq<byte>)
    requires |data| <= 65507 && f == IcmpFrame(ends, identifier, sequence, data) + pad
    ensures IcmpReceived(f, ends, identifier, sequence, data)
  {
    IcmpSegmentSealed(identifier, sequence, data);
    LengthKept(8, |data|);
    IcmpArrives(f, ends, identifier, sequence, data, pad, IcmpSegment(identifier, sequence, data));
  }

  lemma UdpRoundTrip(ends: Ends, srcPort: word, dstPort: word, data: seq<byte>, pad: seq<byte>)
    requires |data| <= 65507
    ensures UdpReceived(UdpFrame(ends, srcPort, dstPort, data) + pad, ends, srcPort, dstPort, data)
  {
    UdpReaches(UdpFrame(ends, srcPort, dstPort, data) + pad, ends, srcPort, dstPort, data, pad);
  }

  lemma UdpReaches(f: seq<byte>, ends: Ends, srcPort: word, dstPort: word, data: seq<byte>, pad: seq<byte>)
    requires |data| <= 65507 && f == UdpFrame(ends, srcPort, dstPort, data) + pad
    ensures UdpReceived(f, ends, srcPort, dstPort, data)
  {
    UdpSegmentSealed(ends, srcPort, dstPort, data);
    LengthKept(8, |data|);
    UdpArrives(f, ends, srcPort, dstPort, data, pad, UdpSegment(ends, srcPort, dstPort, data));
  }

  lemma TcpRoundTrip(ends: Ends, t: TcpFields, data: seq<byte>, pad: seq<byte>)
    requires |data| <= 65495
    ensures TcpReceived(TcpFrame(ends, t, data) + pad, ends, t, data)
  {
    TcpReaches(TcpFrame(ends, t, data) + pad, ends, t, data, pad);
  }

  lemma TcpReaches(f: seq<byte>, ends: Ends, t: TcpFields, data: seq<byte>, pad: seq<byte>)
    requires |data| <= 65495 && f == TcpFrame(ends, t, data) + pad
    ensures TcpReceived(f, ends, t, data)
  {
    TcpSegmentSealed(ends, t, data);
    LengthKept(20, |data|);
    TcpArrives(f, ends, t, data, pad, TcpSegment(ends, t, data));
  }

  // ---------------------------------------------------------------------
  // How far the round trip reaches
  // ---------------------------------------------------------------------

  // Segment and datagram lengths are 16 bits wide, so a payload longer than
  // this is never delivered whole, whatever the builder is given.
  lemma DeliveredFits(f: seq<byte>)
    requires Parsable(f) && IsIpv4(f)
    ensures f[23] == IP_PROTO_ICMP || f[23] == IP_PROTO_UDP ==> |Delivered(f)| <= 65507
    ensures f[23] == IP_PROTO_TCP ==> |Delivered(f)| <= 65495
  {
    LayersTile(f);
  }

  lemma FrameStart(ends: Ends, protocol: byte, length: word, segment: seq<byte>, n: nat, pad: seq<byte>)
    requires n <= |segment|
    ensures |Ipv4Frame(ends, protocol, length, segment)| == 34 + |segment|
    ensures var f := Ipv4Frame(ends, protocol, length, segment)[..34 + n] + pad; IsIpv4(f) && f[23] == protocol
  {
    var h := Ipv4Header(ends, protocol, length, 64);
    assert h[9] == protocol;
    var eth := EthernetHeader(ends.dstMac, ends.srcMac, ETHERTYPE_IPV4);
    var f := Ipv4Frame(ends, protocol, length, segment)[..34 + n] + pad;
    assert f == eth + (h + (segment[..n] + pad));
    assert f[14..34] == h;
    assert f[23] == f[14..34][9];
  }

  // What is sent of a frame: the builders return 34 plus the 16-bit length.
  function Sent(frame: seq<byte>, header: nat, dataLength: nat): seq<byte>
    requires 34 + header + dataLength == |frame|
  {
    frame[..34 + SegmentLength(header, dataLength)]
  }

  lemma SentWhole(frame: seq<byte>, header: nat, dataLength: nat)
    requires 34 + header + dataLength == |frame| && header + dataLength < 0x1_0000
    ensures Sent(frame, header, dataLength) == frame
  {
  }

  // A payload beyond the 16-bit lengths does not come back.
  lemma OversizeLost(ends: Ends, protocol: byte, header: nat, s: seq<byte>, data: seq<byte>, pad: seq<byte>)
    requires |s| == header + |data|
    requires if protocol == IP_PROTO_TCP then |data| > 65495 else |data| > 65507 && protocol in {IP_PROTO_ICMP, IP_PROTO_UDP}
    ensures var n := SegmentLength(header, |data|);
            |Ipv4Frame(ends, protocol, n, s)| == 34 + header + |data| &&
            var f := Sent(Ipv4Frame(ends, protocol, n, s), header, |data|) + pad;
            !(Parsable(f) && Delivered(f) == data)
  {
    var n := SegmentLength(header, |data|);
    FrameStart(ends, protocol, n, s, n, pad);
    var f := Ipv4Frame(ends, protocol, n, s)[..34 + n] + pad;
    if Parsable(f) {
      DeliveredFits(f);
    }
  }

  // The round trip holds for exactly the payloads that fit an IPv4 datagram.
  lemma IcmpRoundTripExact(ends: Ends, identifier: word, sequence: word, data: seq<byte>, pad: seq<byte>)
    ensures |IcmpFrame(ends, identifier, sequence, data)| == 42 + |data|
    ensures var f := Sent(IcmpFrame(ends, identifier, sequence, data), 8, |data|) + pad;
            (Parsable(f) && Delivered(f) == data) <==> |data| <= 65507
  {
    var frame := IcmpFrame(ends, identifier, sequence, data);
    FrameStart(ends, IP_PROTO_ICMP, SegmentLength(8, |data|), IcmpSegment(identifier, sequence, data), 0, []);
    if |data| <= 65507 {
      SentWhole(frame, 8, |data|);
      IcmpRoundTrip(ends, identifier, sequence, data, pad);
    } else {
      OversizeLost(ends, IP_PROTO_ICMP, 8, IcmpSegment(identifier, sequence, data), data, pad);
    }
  }

  lemma UdpRoundTripExact(ends: Ends, srcPort: word, dstPort: word, data: seq<byte>, pad: seq<byte>)
    ensures |UdpFrame(ends, srcPort, dstPort, data)| == 42 + |data|
    ensures var f := Sent(UdpFrame(ends, srcPort, dstPort, data), 8, |data|) + pad;
            (Parsable(f) && Delivered(f) == data) <==> |data| <= 65507
  {
    var frame := UdpFrame(ends, srcPort, dstPort, data);
    FrameStart(ends, IP_PROTO_UDP, SegmentLength(8, |data|), UdpSegment(ends, srcPort, dstPort, data), 0, []);
    if |data| <= 65507 {
      SentWhole(frame, 8, |data|);
      UdpRoundTrip(ends, srcPort, dstPort, data, pad);
    } else {
      OversizeLost(ends, IP_PROTO_UDP, 8, UdpSegment(ends, srcPort, dstPort, data), data, pad);
    }
  }

  lemma TcpRoundTripExact(ends: Ends, t: TcpFields, data: seq<byte>, pad: seq<byte>)
    ensures |TcpFrame(ends, t, data)| == 54 + |data|
    ensures var f := Sent(TcpFrame(ends, t, data), 20, |data|) + pad;
            (Parsable(f) && Delivered(f) == data) <==> |data| <= 65495
  {
    var frame := TcpFrame(ends, t, data);
    FrameStart(ends, IP_PROTO_TCP, SegmentLength(20, |data|), TcpSegment(ends, t, data), 0, []);
    if |data| <= 65495 {
      SentWhole(frame, 20, |data|);
      TcpRoundTrip(ends, t, data, pad);
    } else {
      OversizeLost(ends, IP_PROTO_TCP, 20, TcpSegment(ends, t, data), data, pad);
    }
  }

  ghost predicate ArpReceived(f: seq<byte>, dstMac: Mac, operation: word, senderMac: Mac, senderIp: Ip4, targetMac: Mac, targetIp: Ip4) {
    && 42 <= |f| && Parsable(f)
    && Parse(f) == Parsed(true, At(0), ETHERTYPE_ARP, Null, At(14), Null, Null, Null, Null, 0, false, false)
    && f[0..6] == dstMac && f[6..12] == senderMac && f[12..14] == [8, 6]
    && f[14..20] == [0, 1, 8, 0, 6, 4] && U16(f, 20) == operation
    && f[22..28] == senderMac && f[28..32] == senderIp && f[32..38] == targetMac && f[38..42] == targetIp
  }

  lemma ArpView(f: seq<byte>, dstMac: Mac, operation: word, senderMac: Mac, senderIp: Ip4, targetMac: Mac, targetIp: Ip4, pad: seq<byte>)
    requires f == EthernetHeader(dstMac, senderMac, ETHERTYPE_ARP) + ArpMessage(operation, senderMac, senderIp, targetMac, targetIp) + pad
    ensures ArpReceived(f, dstMac, operation, senderMac, senderIp, targetMac, targetIp)
  {
    var head := Be16(1) + Be16(ETHERTYPE_IPV4) + [6] + [4] + Be16(operation);
    var eth := EthernetHeader(dstMac, senderMac, ETHERTYPE_ARP);
    assert head == [0, 1, 8, 0, 6, 4] + Be16(operation);
    assert f == eth + ([0, 1, 8, 0, 6, 4] + (Be16(operation) + (senderMac + (senderIp + (targetMac + (targetIp + pad))))));
    assert f[..14] == eth && f[14..20] == [0, 1, 8, 0, 6, 4] && f[20..22] == Be16(operation);
    assert f[22..28] == senderMac && f[28..32] == senderIp && f[32..38] == targetMac && f[38..42] == targetIp;
    EthernetIs(f, dstMac, senderMac, ETHERTYPE_ARP);
    Field16(f, 20, operation);
    assert f[12] == f[12..14][0] && f[13] == f[12..14][1];
  }

  lemma ArpRequestRoundTrip(srcMac: Mac, srcIp: Ip4, targetIp: Ip4, pad: seq<byte>)
    ensures ArpReceived(ArpRequest(srcMac, srcIp, targetIp) + pad, BROADCAST_MAC, 1, srcMac, srcIp, [0, 0, 0, 0, 0, 0], targetIp)
  {
    ArpView(ArpRequest(srcMac, srcIp, targetIp) + pad, BROADCAST_MAC, 1, srcMac, srcIp, [0, 0, 0, 0, 0, 0], targetIp, pad);
  }

  lemma ArpReplyRoundTrip(ends: Ends, pad: seq<byte>)
    ensures ArpReceived(ArpReply(ends) + pad, ends.dstMac, 2, ends.srcMac, ends.srcIp, ends.dstMac, ends.dstIp)
  {
    ArpView(ArpReply(ends) + pad, ends.dstMac, 2, ends.srcMac, ends.srcIp, ends.dstMac, ends.dstIp, pad);
  }

  // ---------------------------------------------------------------------
  // Damage shows
  // ---------------------------------------------------------------------

  lemma UpdateSlice(f: seq<byte>, i: nat, b: byte, lo: nat, hi: nat)
    requires i < |f| && lo <= hi <= |f|
    ensures f[i := b][lo..hi] == if lo <= i < hi then f[lo..hi][i - lo := b] else f[lo..hi]
  {
  }

  lemma PseudoDamage(src: Ip4, dst: Ip4, protocol: byte, s: seq<byte>, k: nat, b: byte)
    requires k < |s| && b != s[k]
    requires PseudoOk(src, dst, protocol, s)
    ensures !PseudoOk(src, dst, protocol, s[k := b])
  {
    var pseudo := PseudoHeader(src, dst, protocol, |s| % 0x1_0000);
    OneByteDetected(pseudo + s, 12 + k, b);
    assert (pseudo + s)[12 + k := b] == pseudo + s[k := b];
  }

  // A byte changed behind the IPv4 header leaves the parse as it was, except
  // for what layer 4 makes of the changed segment.
  lemma SegmentDamage(f: seq<byte>, i: nat, b: byte) returns (p: Parsed, h: nat, s: seq<byte>)
    requires Parsable(f) && IsIpv4(f)
    requires 34 <= 14 + HeaderLength(f[14]) <= i < 14 + U16(f, 16) <= |f|
    ensures h == 14 + HeaderLength(f[14]) && s == f[h..14 + U16(f, 16)]
    ensures Parse(f) == ParseL4(p, f[23], f[26..30], f[30..34], h, s).(valid := true)
    ensures Parsable(f[i := b])
    ensures Parse(f[i := b]) == ParseL4(p, f[23], f[26..30], f[30..34], h, s[i - h := b]).(valid := true)
  {
    hide IpChecksumOk, ParseL4;
    h := 14 + HeaderLength(f[14]);
    s := f[h..14 + U16(f, 16)];
    p := CLEARED.(ethernet := At(0), etherType := ETHERTYPE_IPV4, ipv4 := At(14), ipChecksumValid := IpChecksumOk(f[14..h]));
    UpdateSlice(f, i, b, 14, h);
    UpdateSlice(f, i, b, 26, 30);
    UpdateSlice(f, i, b, 30, 34);
    UpdateSlice(f, i, b, h, 14 + U16(f, 16));
    var g := f[i := b];
    assert g[12] == f[12] && g[13] == f[13] && g[14] == f[14] && g[16] == f[16] && g[17] == f[17] && g[23] == f[23];
    ParseIs(f, h);
    ParseIs(g, h);
  }

  // The parse of a readable IPv4 datagram.
  lemma ParseIs(f: seq<byte>, h: nat)
    requires IsIpv4(f) && h == 14 + HeaderLength(f[14]) && 34 <= h <= 14 + U16(f, 16) <= |f|
    ensures Parsable(f)
    ensures Parse(f) ==
            ParseL4(CLEARED.(ethernet := At(0), etherType := ETHERTYPE_IPV4, ipv4 := At(14), ipChecksumValid := IpChecksumOk(f[14..h])),
                    f[23], f[26..30], f[30..34], h, f[h..14 + U16(f, 16)]).(valid := true)
  {
    hide IpChecksumOk, ParseL4;
  }

  // Any one byte of a well-checksummed ICMP message changed in transit: the
  // frame still parses to the same layers, but its checksum flag drops.
  lemma IcmpDamage(f: seq<byte>, i: nat, b: byte)
    requires Parsable(f) && Parse(f).icmp.At? && Parse(f).l4ChecksumValid
    requires Parse(f).icmp.offset <= i < 14 + U16(f, 16) && i < |f| && b != f[i]
    ensures Parsable(f[i := b]) && Parse(f[i := b]) == Parse(f).(l4ChecksumValid := false)
  {
    hide InternetChecksum;
    LayersTile(f);
    var p, h, s := SegmentDamage(f, i, b);
    OneByteDetected(s, i - h, b);
  }

  lemma TcpDamage(f: seq<byte>, i: nat, b: byte)
    requires Parsable(f) && Parse(f).tcp.At? && Parse(f).l4ChecksumValid
    requires Parse(f).tcp.offset <= i < 14 + U16(f, 16) && i < |f| && b != f[i]
    ensures Parsable(f[i := b])
    ensures Parse(f[i := b]).tcp == Parse(f).tcp && !Parse(f[i := b]).l4ChecksumValid
  {
    hide InternetChecksum;
    LayersTile(f);
    var p, h, s := SegmentDamage(f, i, b);
    PseudoDamage(f[26..30], f[30..34], IP_PROTO_TCP, s, i - h, b);
  }

  // For UDP one kind of damage passes: the one that turns the stored checksum
  // into 0, which the receiver takes for "no checksum".
  lemma UdpDamage(f: seq<byte>, i: nat, b: byte)
    requires Parsable(f) && Parse(f).udp.At? && Parse(f).l4ChecksumValid
    requires Parse(f).udp.offset <= i < 14 + U16(f, 16) && i < |f| && b != f[i]
    requires U16(f, Parse(f).udp.offset + 6) != 0
    ensures Parsable(f[i := b])
    ensures Parse(f[i := b]) == Parse(f).(l4ChecksumValid := U16(f[i := b], Parse(f).udp.offset + 6) == 0)
  {
    hide InternetChecksum;
    LayersTile(f);
    var p, h, s := SegmentDamage(f, i, b);
    assert f[h + 6] == s[6] && f[h + 7] == s[7];
    assert f[i := b][h + 6] == s[i - h := b][6] && f[i := b][h + 7] == s[i - h := b][7];
    PseudoDamage(f[26..30], f[30..34], IP_PROTO_UDP, s, i - h, b);
  }

  // The addresses are summed too, so one changed byte of them drops the flag
  // of a TCP segment, and of a UDP datagram that stores a checksum.
  lemma AddressDamage(f: seq<byte>, i: nat, b: byte)
    requires Parsable(f) && Parse(f).l4ChecksumValid && 26 <= i < 34 && i < |f| && b != f[i]
    requires Parse(f).tcp.At? || (Parse(f).udp.At? && U16(f, Parse(f).udp.offset + 6) != 0)
    ensures Parsable(f[i := b])
    ensures Parse(f[i := b]) == Parse(f).(ipChecksumValid := Parse(f[i := b]).ipChecksumValid, l4ChecksumValid := false)
  {
    hide InternetChecksum;
    LayersTile(f);
    var p, p', h, s := AddressChanged(f, i, b);
    ChangedFlag(f, f[i := b], p, p', h, s, i, b);
  }

  lemma ChangedFlag(f: seq<byte>, g: seq<byte>, p: Parsed, p': Parsed, h: nat, s: seq<byte>, i: nat, b: byte)
    requires 26 <= i < 34 <= |f| && |s| < 0x1_0000 && b != f[i] && h + |s| <= |f| && s == f[h..h + |s|]
    requires g == f[i := b] && g[26..34] == f[26..34][i - 26 := b]
    requires p' == p.(ipChecksumValid := p'.ipChecksumValid) && p.tcp == p.udp == Null && !p.l4ChecksumValid
    requires var q := ParseL4(p, f[23], f[26..30], f[30..34], h, s);
             q.l4ChecksumValid && (q.tcp.At? || (q.udp.At? && U16(f, h + 6) != 0))
    ensures var q, q' := ParseL4(p, f[23], f[26..30], f[30..34], h, s), ParseL4(p', f[23], g[26..30], g[30..34], h, s);
            q' == q.(ipChecksumValid := q'.ipChecksumValid, l4ChecksumValid := false)
  {
    hide InternetChecksum;
    AddressSummed(f, g, f[23], s, i, b);
    assert |s| >= 8 ==> f[h + 6] == s[6] && f[h + 7] == s[7];
    SameLayers(p, p', f[23], h, s, f[26..30], f[30..34], g[26..30], g[30..34]);
  }

  // The parse of a datagram whose addresses change, up to layer 4.
  lemma AddressChanged(f: seq<byte>, i: nat, b: byte) returns (p: Parsed, p': Parsed, h: nat, s: seq<byte>)
    requires Parsable(f) && IsIpv4(f) && 34 <= 14 + HeaderLength(f[14]) <= 14 + U16(f, 16) <= |f|
    requires 26 <= i < 34 && b != f[i]
    ensures h == 14 + HeaderLength(f[14]) && s == f[h..14 + U16(f, 16)]
    ensures p' == p.(ipChecksumValid := p'.ipChecksumValid) && p.tcp == p.udp == Null && !p.l4ChecksumValid
    ensures Parse(f) == ParseL4(p, f[23], f[26..30], f[30..34], h, s).(valid := true)
    ensures var g := f[i := b];
            && g[26..34] == f[26..34][i - 26 := b] && Parsable(g)
            && Parse(g) == ParseL4(p', f[23], g[26..30], g[30..34], h, s).(valid := true)
  {
    hide IpChecksumOk, ParseL4;
    h := 14 + HeaderLength(f[14]);
    var end := 14 + U16(f, 16);
    s := f[h..end];
    var g := f[i := b];
    AddressBytes(f, g, i, b, h, end);
    p := CLEARED.(ethernet := At(0), etherType := ETHERTYPE_IPV4, ipv4 := At(14), ipChecksumValid := IpChecksumOk(f[14..h]));
    p' := p.(ipChecksumValid := IpChecksumOk(g[14..h]));
    ParseIs(f, h);
    ParseIs(g, h);
  }

  lemma AddressBytes(f: seq<byte>, g: seq<byte>, i: nat, b: byte, h: nat, end: nat)
    requires 26 <= i < 34 <= h <= end <= |f| && g == f[i := b]
    ensures |g| == |f| && U16(g, 12) == U16(f, 12) && g[14] == f[14] && U16(g, 16) == U16(f, 16) && g[23] == f[23]
    ensures g[26..34] == f[26..34][i - 26 := b] && g[h..end] == f[h..end]
  {
    UpdateSlice(f, i, b, h, end);
    UpdateSlice(f, i, b, 26, 34);
  }

  // Layer 4 depends on the addresses in its flag alone.
  lemma SameLayers(p: Parsed, p': Parsed, protocol: byte, h: nat, s: seq<byte>, src: Ip4, dst: Ip4, src': Ip4, dst': Ip4)
    requires p' == p.(ipChecksumValid := p'.ipChecksumValid) && p.tcp == p.udp == Null && !p.l4ChecksumValid
    requires var q := ParseL4(p, protocol, src, dst, h, s);
             q.l4ChecksumValid && (q.tcp.At? || (q.udp.At? && U16(s, 6) != 0))
    requires PseudoOk(src, dst, protocol, s) ==> !PseudoOk(src', dst', protocol, s)
    ensures var q, q' := ParseL4(p, protocol, src, dst, h, s), ParseL4(p', protocol, src', dst', h, s);
            q' == q.(ipChecksumValid := q'.ipChecksumValid, l4ChecksumValid := false)
  {
  }

  lemma AddressSummed(f: seq<byte>, g: seq<byte>, protocol: byte, s: seq<byte>, i: nat, b: byte)
    requires 26 <= i < 34 <= |f| && |s| < 0x1_0000 && b != f[i]
    requires g == f[i := b] && g[26..34] == f[26..34][i - 26 := b]
    ensures PseudoOk(f[26..30], f[30..34], protocol, s) ==> !PseudoOk(g[26..30], g[30..34], protocol, s)
  {
    PseudoIs(f, protocol, |s|);
    PseudoIs(g, protocol, |s|);
    var tail := PseudoTail(protocol, |s|) + s;
    var all := f[26..34] + PseudoTail(protocol, |s|) + s;
    assert all == f[26..34] + tail && all[i - 26] == f[i];
    assert all[i - 26 := b] == g[26..34] + PseudoTail(protocol, |s|) + s;
    if PseudoOk(f[26..30], f[30..34], protocol, s) {
      OneByteDetected(all, i - 26, b);
    }
  }

  // The IPv4 header is as long as its own first byte says, so a change there
  // also changes what is summed: by how much, in words.
  function LengthShift(f: seq<byte>, from: nat, to: nat): int
    requires 14 + from <= |f| && 14 + to <= |f|
  {
    if from <= to then WordSum(f[14 + from..14 + to]) else 0 - WordSum(f[14 + to..14 + from]) as int
  }

  // One byte of a good IPv4 header changed: the flag drops, unless the byte is
  // the first one and the words that the new length takes in, or leaves out,
  // make up for the change.
  lemma Ipv4HeaderDamage(f: seq<byte>, i: nat, b: byte)
    requires Parsable(f) && Parse(f).ipChecksumValid
    requires 14 <= i < 14 + HeaderLength(f[14]) && i < |f| && b != f[i]
    requires Parsable(f[i := b])
    ensures Parse(f[i := b]).ipv4.At?
    ensures Parse(f[i := b]).ipChecksumValid <==>
              && i == 14 && HeaderLength(b) >= 20
              && ((b - f[14]) * 0x100 + LengthShift(f, HeaderLength(f[14]), HeaderLength(b))) % 0xFFFF == 0
  {
    HeaderFlag(f);
    HeaderFlag(f[i := b]);
    if i == 14 {
      LengthDamage(f, b);
    } else {
      var h := HeaderLength(f[14]);
      UpdateSlice(f, i, b, 14, 14 + h);
      OneByteDetected(f[14..14 + h], i - 14, b);
    }
  }

  lemma HeaderFlag(f: seq<byte>)
    requires Parsable(f)
    ensures Parse(f).ipv4.At? <==> IsIpv4(f)
    ensures IsIpv4(f) ==> Parse(f).ipChecksumValid == IpChecksumOk(f[14..14 + HeaderLength(f[14])])
    ensures !IsIpv4(f) ==> !Parse(f).ipChecksumValid
  {
  }

  lemma LengthDamage(f: seq<byte>, b: byte)
    requires IsIpv4(f) && 14 + HeaderLength(f[14]) <= |f| && 14 + HeaderLength(b) <= |f|
    requires IpChecksumOk(f[14..14 + HeaderLength(f[14])])
    ensures IpChecksumOk(f[14 := b][14..14 + HeaderLength(b)]) <==>
              && HeaderLength(b) >= 20
              && ((b - f[14]) * 0x100 + LengthShift(f, HeaderLength(f[14]), HeaderLength(b))) % 0xFFFF == 0
  {
    var h, h' := HeaderLength(f[14]), HeaderLength(b);
    var old_, new_ := f[14..14 + h], f[14 := b][14..14 + h'];
    ShortValid(old_);
    ShortValid(new_);
    if h' >= 20 {
      LengthSum(f, b, h, h');
      PositiveSum(new_);
      MultipleShift(WordSum(old_), (b - f[14]) * 0x100 + LengthShift(f, h, h'));
    }
  }

  lemma ShortValid(s: seq<byte>)
    requires |s| <= 131074
    ensures InternetChecksum(s) == 0 <==> PositiveMultiple(WordSum(s))
  {
    ValidIff(s);
    ShortAccumulates(s);
  }

  lemma PositiveSum(s: seq<byte>)
    requires |s| > 0 && s[0] > 0
    ensures WordSum(s) > 0
  {
    WordSumZero(s);
  }

  lemma MultipleShift(sum: nat, d: int)
    requires sum % 0xFFFF == 0
    ensures (sum + d) % 0xFFFF == 0 <==> d % 0xFFFF == 0
  {
    var q := sum / 0xFFFF;
    assert sum == q * 0xFFFF;
    SameRemainder(d, q);
  }

  lemma LengthSum(f: seq<byte>, b: byte, h: nat, h': nat)
    requires h % 2 == 0 && h' % 2 == 0 && h >= 20 && h' >= 20 && 14 + h <= |f| && 14 + h' <= |f|
    ensures WordSum(f[14 := b][14..14 + h']) == WordSum(f[14..14 + h]) + (b - f[14]) * 0x100 + LengthShift(f, h, h')
  {
    UpdateSlice(f, 14, b, 14, 14 + h');
    WordSumUpdate(f[14..14 + h'], 0, b);
    if h <= h' {
      assert f[14..14 + h'] == f[14..14 + h] + f[14 + h..14 + h'];
      WordSumConcat(f[14..14 + h], f[14 + h..14 + h']);
    } else {
      assert f[14..14 + h] == f[14..14 + h'] + f[14 + h'..14 + h];
      WordSumConcat(f[14..14 + h'], f[14 + h'..14 + h]);
    }
  }

  // A datagram whose header stays valid with one bit of its length flipped:
  // 5 words become 7.
  lemma OneBitMayPass()
    ensures exists f ::
              && Parsable(f) && Parse(f).ipChecksumValid && f[14] == 0x45
              && Parsable(f[14 := 0x47]) && Parse(f[14 := 0x47]).ipChecksumValid
  {
    var header, rest := BitFlipBytes();
    var f := HeaderFrame(header, rest);
    BitFlipPasses(f);
  }

  lemma BitFlipPasses(f: seq<byte>)
    requires |f| == 42 && f[14] == 0x45 && IsIpv4(f) && Parsable(f) && IsIpv4(f[14 := 0x47]) && Parsable(f[14 := 0x47])
    requires WordSum(f[14..34]) == 0xFFFF && WordSum(f[34..42]) == 0xFDFF
    ensures Parse(f).ipChecksumValid && Parse(f[14 := 0x47]).ipChecksumValid
  {
    ShortValid(f[14..34]);
    HeaderFlag(f);
    HeaderFlag(f[14 := 0x47]);
    LengthDamage(f, 0x47);
  }

  lemma BitFlipBytes() returns (header: seq<byte>, rest: seq<byte>)
    ensures |header| == 20 && header[0] == 0x45 && header[2] == 0 && header[3] == 28 && WordSum(header) == 0xFFFF
    ensures |rest| == 8 && WordSum(rest) == 0xFDFF
  {
    header := FirstBytes();
    rest := [0xFD, 0xFF, 0, 0, 0, 0, 0, 0];
    EightByteSum(rest);
  }

  lemma FirstBytes() returns (header: seq<byte>)
    ensures |header| == 20 && header[0] == 0x45 && header[2] == 0 && header[3] == 28 && WordSum(header) == 0xFFFF
  {
    var a: seq<byte> := [0x45, 0, 0, 28, 0, 0, 0, 0];
    var b: seq<byte> := [0, 0x11, 0xBA, 0xD2, 0, 0, 0, 0];
    var c: seq<byte> := [0, 0, 0, 0];
    header := a + (b + c);
    EightByteSum(a);
    EightByteSum(b);
    FourByteSum(c);
    WordSumConcat(a, b + c);
    WordSumConcat(b, c);
  }

  lemma HeaderFrame(header: seq<byte>, rest: seq<byte>) returns (f: seq<byte>)
    requires |header| == 20 && |rest| == 8
    requires header[0] == 0x45 && header[2] == 0 && header[3] == 28
    ensures |f| == 42 && f[14] == 0x45 && f[14..34] == header && f[34..42] == rest
    ensures IsIpv4(f) && Parsable(f) && IsIpv4(f[14 := 0x47]) && Parsable(f[14 := 0x47])
  {
    var eth := EthernetHeader(BROADCAST_MAC, BROADCAST_MAC, ETHERTYPE_IPV4);
    f := eth + header + rest;
    assert f == eth + (header + rest);
    assert f[14..34] == header && f[34..42] == rest;
    assert f[12] == eth[12] && f[13] == eth[13] && f[14] == header[0] && f[16] == header[2] && f[17] == header[3];
  }

  // ---------------------------------------------------------------------
  // Damage that passes for UDP
  // ---------------------------------------------------------------------

  // A good datagram that stores the checksum 0x0100: with that one byte turned
  // to 0 it still counts as good.
  lemma UdpDamageMayPass()
    ensures exists f ::
              && Parsable(f) && Parse(f).udp == At(34) && Parse(f).l4ChecksumValid && f[40] == 1 && f[41] == 0
              && Parsable(f[40 := 0]) && Parse(f[40 := 0]).udp == At(34) && Parse(f[40 := 0]).l4ChecksumValid
  {
    var zero: Ip4 := [0, 0, 0, 0];
    var ends := Ends([0, 0, 0, 0, 0, 0], [0, 0, 0, 0, 0, 0], zero, zero);
    var f := UdpFrame(ends, 0xFEDE, 0, []);
    UdpRoundTrip(ends, 0xFEDE, 0, [], []);
    assert f + [] == f;
    StoredChecksum(ends);
    LayersTile(f);
    UdpDamage(f, 40, 0);
  }

  lemma StoredChecksum(ends: Ends)
    requires ends.srcIp == [0, 0, 0, 0] && ends.dstIp == [0, 0, 0, 0]
    ensures var f := UdpFrame(ends, 0xFEDE, 0, []); |f| == 42 && f[40] == 1 && f[41] == 0
  {
    var fields := UdpFields(0xFEDE, 0, 8);
    var pseudo := PseudoHeader(ends.srcIp, ends.dstIp, IP_PROTO_UDP, 8);
    var blank := fields + [];
    assert blank[..8] == blank == fields;
    PseudoHeaderSum(ends.srcIp, ends.dstIp, IP_PROTO_UDP, 8);
    WordSumConcat(pseudo, fields);
    EightByteSum(fields);
    assert WordSum(pseudo + fields) == 0xFEFF;
    assert InternetChecksum(pseudo + fields) == 0x0100;
    var s := UdpSegment(ends, 0xFEDE, 0, []);
    assert s == Overwrite(blank, 6, Be16(0x0100));
    assert |s| == 8 && s[6] == 1 && s[7] == 0;
    FrameStart(ends, IP_PROTO_UDP, 8, s, 0, []);
    FrameTail(ends, IP_PROTO_UDP, 8, s);
  }

  lemma FrameTail(ends: Ends, protocol: byte, length: word, s: seq<byte>)
    ensures |Ipv4Frame(ends, protocol, length, s)| == 34 + |s| && Ipv4Frame(ends, protocol, length, s)[34..] == s
  {
  }

  lemma EightByteSum(s: seq<byte>)
    requires |s| == 8
    ensures WordSum(s) == U16(s, 0) + U16(s, 2) + U16(s, 4) + U16(s, 6)
  {
    var a, b := s[..4], s[4..];
    assert s == a + b;
    WordSumConcat(a, b);
    FourByteSum(a);
    FourByteSum(b);
  }
}
