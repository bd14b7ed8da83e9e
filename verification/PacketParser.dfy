// Parsing of a received frame into layers that point back into its buffer.
module PacketParser {
  import opened Bytes
  import opened Checksum
  import opened PacketDefs

  // A pointer into the frame buffer.
  datatype Ptr = Null | At(offset: nat)

  datatype Status = Success | InvalidParameter | BufferTooSmall

  // The HasXxx flag of a layer is TRUE exactly when the layer's pointer has
  // been set, so the pointer stands for both.
  datatype Parsed = Parsed(
    valid: bool, ethernet: Ptr, etherType: word, ipv4: Ptr, arp: Ptr,
    icmp: Ptr, tcp: Ptr, udp: Ptr, payload: Ptr, payloadLength: nat,
    ipChecksumValid: bool, l4ChecksumValid: bool)

  const CLEARED := Parsed(false, Null, 0, Null, Null, Null, Null, Null, Null, 0, false, false)

  // The structure the caller passes in to be filled.
  class ParsedPacket {
    var valid: bool
    var ethernet: Ptr
    var etherType: word
    var ipv4: Ptr
    var arp: Ptr
    var icmp: Ptr
    var tcp: Ptr
    var udp: Ptr
    var payload: Ptr
    var payloadLength: nat
    var ipChecksumValid: bool
    var l4ChecksumValid: bool

    function Snapshot(): Parsed
      reads this
    {
      Parsed(valid, ethernet, etherType, ipv4, arp, icmp, tcp, udp, payload, payloadLength, ipChecksumValid, l4ChecksumValid)
    }

    // ZeroMem over the whole structure.
    method Clear()
      modifies this
      ensures Snapshot() == CLEARED
    {
      valid, ethernet, etherType, ipv4, arp := false, Null, 0, Null, Null;
      icmp, tcp, udp, payload, payloadLength := Null, Null, Null, Null, 0;
      ipChecksumValid, l4ChecksumValid := false, false;
    }
  }

  // ---------------------------------------------------------------------
  // What a frame parses to
  // ---------------------------------------------------------------------

  function HeaderLength(versionIhl: byte): nat {
    versionIhl % 0x10 * 4
  }

  function TcpHeaderLength(dataOffset: byte): nat {
    dataOffset / 0x10 * 4
  }

  ghost predicate IsIpv4(f: seq<byte>) {
    |f| >= 34 && U16(f, 12) == ETHERTYPE_IPV4
  }

  // What the parser leaves to its caller: the IPv4 header lies in the buffer
  // and TotalLength covers it.
  ghost predicate Parsable(f: seq<byte>) {
    IsIpv4(f) ==>
      && 14 + HeaderLength(f[14]) <= |f|
      && (HeaderLength(f[14]) >= 20 && 14 + U16(f, 16) <= |f| ==> HeaderLength(f[14]) <= U16(f, 16))
  }

  ghost predicate IpChecksumOk(header: seq<byte>) {
    |header| >= IPV4_MIN_HEADER_SIZE && InternetChecksum(header) == 0
  }

  ghost predicate IcmpChecksumOk(segment: seq<byte>) {
    |segment| >= ICMP_HEADER_SIZE && InternetChecksum(segment) == 0
  }

  ghost predicate PseudoOk(src: Ip4, dst: Ip4, protocol: byte, segment: seq<byte>) {
    InternetChecksum(PseudoHeader(src, dst, protocol, |segment| % 0x1_0000) + segment) == 0
  }

  ghost predicate TcpChecksumOk(src: Ip4, dst: Ip4, segment: seq<byte>) {
    |segment| >= TCP_MIN_HEADER_SIZE && PseudoOk(src, dst, IP_PROTO_TCP, segment)
  }

  // A stored UDP checksum of 0 means that none was computed.
  ghost predicate UdpChecksumOk(src: Ip4, dst: Ip4, segment: seq<byte>) {
    |segment| >= UDP_HEADER_SIZE && (U16(segment, 6) == 0 || PseudoOk(src, dst, IP_PROTO_UDP, segment))
  }

  ghost function Parse(f: seq<byte>): Parsed
    requires Parsable(f)
  {
    if |f| < 14 then CLEARED
    else
      var p := CLEARED.(ethernet := At(0), etherType := U16(f, 12));
      var q := if p.etherType == ETHERTYPE_ARP && |f| >= 42 then p.(arp := At(14))
               else if IsIpv4(f) then ParseIpv4(p, f)
               else p;
      q.(valid := true)
  }

  ghost function ParseIpv4(p: Parsed, f: seq<byte>): Parsed
    requires IsIpv4(f) && Parsable(f)
  {
    var headerLength := HeaderLength(f[14]);
    var q := p.(ipv4 := At(14), ipChecksumValid := IpChecksumOk(f[14..14 + headerLength]));
    if headerLength < 20 || 14 + U16(f, 16) > |f| then q
    else ParseL4(q, f[23], f[26..30], f[30..34], 14 + headerLength, f[14 + headerLength..14 + U16(f, 16)])
  }

  // Layer 4: `segment` starts at `offset` of the frame.
  ghost function ParseL4(p: Parsed, protocol: byte, src: Ip4, dst: Ip4, offset: nat, segment: seq<byte>): Parsed {
    if protocol == IP_PROTO_ICMP then
      if |segment| < 8 then p
      else p.(icmp := At(offset), l4ChecksumValid := IcmpChecksumOk(segment),
              payload := At(offset + 8), payloadLength := |segment| - 8)
    else if protocol == IP_PROTO_TCP then
      if |segment| < 20 then p
      else
        var q := p.(tcp := At(offset), l4ChecksumValid := TcpChecksumOk(src, dst, segment));
        var n := TcpHeaderLength(segment[12]);
        if 20 <= n <= |segment| then q.(payload := At(offset + n), payloadLength := |segment| - n) else q
    else if protocol == IP_PROTO_UDP then
      if |segment| < 8 then p
      else p.(udp := At(offset), l4ChecksumValid := UdpChecksumOk(src, dst, segment),
              payload := At(offset + 8), payloadLength := |segment| - 8)
    else
      p.(payload := At(offset), payloadLength := |segment|)
  }

  // ---------------------------------------------------------------------
  // The routines
  // ---------------------------------------------------------------------

  method ValidateIpChecksum(buffer: array<byte>, ip: nat) returns (ok: bool)
    requires ip < buffer.Length
    requires ip + HeaderLength(buffer[ip]) <= buffer.Length
    ensures ok == IpChecksumOk(buffer[ip..ip + HeaderLength(buffer[ip])])
  {
    var headerLength := HeaderLength(buffer[ip]);
    if headerLength < IPV4_MIN_HEADER_SIZE {
      return false;
    }
    var result := ComputeChecksum(buffer, ip, headerLength);
    ok := result == 0;
  }

  method ValidateIcmpChecksum(buffer: array<byte>, icmp: nat, length: nat) returns (ok: bool)
    requires icmp + length <= buffer.Length
    ensures ok == IcmpChecksumOk(buffer[icmp..icmp + length])
  {
    if length < ICMP_HEADER_SIZE {
      return false;
    }
    var result := ComputeChecksum(buffer, icmp, length);
    ok := result == 0;
  }

  method ValidateTcpChecksum(buffer: array<byte>, ip: nat, tcp: nat, length: nat) returns (ok: bool)
    requires ip + 20 <= buffer.Length && tcp + length <= buffer.Length
    ensures ok == TcpChecksumOk(buffer[ip + 12..ip + 16], buffer[ip + 16..ip + 20], buffer[tcp..tcp + length])
  {
    if length < TCP_MIN_HEADER_SIZE {
      return false;
    }
    var result := ComputePseudoChecksum(buffer[ip + 12..ip + 16], buffer[ip + 16..ip + 20], IP_PROTO_TCP,
                                        length % 0x1_0000, buffer, tcp, length);
    ok := result == 0;
  }

  method ValidateUdpChecksum(buffer: array<byte>, ip: nat, udp: nat, length: nat) returns (ok: bool)
    requires ip + 20 <= buffer.Length && udp + length <= buffer.Length
    ensures ok == UdpChecksumOk(buffer[ip + 12..ip + 16], buffer[ip + 16..ip + 20], buffer[udp..udp + length])
  {
    if length < UDP_HEADER_SIZE {
      return false;
    }
    if buffer[udp + 6] == 0 && buffer[udp + 7] == 0 {
      return true;
    }
    var result := ComputePseudoChecksum(buffer[ip + 12..ip + 16], buffer[ip + 16..ip + 20], IP_PROTO_UDP,
                                        length % 0x1_0000, buffer, udp, length);
    ok := result == 0;
  }

  method ParsePacket(buffer: array?<byte>, length: nat, parsed: ParsedPacket?) returns (status: Status)
    requires buffer != null ==> length <= buffer.Length && Parsable(buffer[..length])
    modifies parsed
    ensures status == InvalidParameter <==> buffer == null || parsed == null
    ensures buffer != null && parsed != null ==>
              && status == (if length < 14 then BufferTooSmall else Success)
              && parsed.Snapshot() == Parse(buffer[..length])
  {
    if buffer == null || parsed == null {
      return InvalidParameter;
    }
    ghost var f := buffer[..length];
    parsed.Clear();
    if length < ETHERNET_HEADER_SIZE {
      return BufferTooSmall;
    }
    parsed.ethernet := At(0);
    parsed.etherType := buffer[12] as int * 0x100 + buffer[13];
    var offset := ETHERNET_HEADER_SIZE;

    if parsed.etherType == ETHERTYPE_ARP {
      if length < offset + ARP_HEADER_SIZE {
        parsed.valid := true;
        return Success;
      }
      parsed.arp := At(offset);
      parsed.valid := true;
      return Success;
    }
    if parsed.etherType != ETHERTYPE_IPV4 {
      parsed.valid := true;
      return Success;
    }
    if length < offset + IPV4_MIN_HEADER_SIZE {
      parsed.valid := true;
      return Success;
    }
    FillIpv4(buffer, length, parsed);
    parsed.valid := true;
    status := Success;
  }

  lemma SameSlice(memory: seq<byte>, length: nat, lo: nat, hi: nat)
    requires lo <= hi <= length <= |memory|
    ensures memory[..length][lo..hi] == memory[lo..hi]
  {
  }

  // The IPv4 header itself.
  method FillHeader(buffer: array<byte>, length: nat, parsed: ParsedPacket)
    requires length <= buffer.Length && IsIpv4(buffer[..length]) && Parsable(buffer[..length])
    modifies parsed
    ensures parsed.Snapshot() == old(parsed.Snapshot()).(
              ipv4 := At(14), ipChecksumValid := IpChecksumOk(buffer[..length][14..14 + HeaderLength(buffer[14])]))
  {
    SameSlice(buffer[..], length, 14, 14 + HeaderLength(buffer[14]));
    parsed.ipv4 := At(ETHERNET_HEADER_SIZE);
    var ipOk := ValidateIpChecksum(buffer, ETHERNET_HEADER_SIZE);
    parsed.ipChecksumValid := ipOk;
  }

  lemma CarriedIs(p: Parsed, memory: seq<byte>, length: nat)
    requires length <= |memory| && IsIpv4(memory[..length]) && Parsable(memory[..length])
    requires HeaderLength(memory[14]) >= 20 && 14 + U16(memory, 16) <= length
    ensures var f, h, total := memory[..length], HeaderLength(memory[14]), U16(memory, 16);
            && h <= total && 14 + h <= length
            && ParseIpv4(p, f) ==
               ParseL4(p.(ipv4 := At(14), ipChecksumValid := IpChecksumOk(f[14..14 + h])),
                       memory[23], memory[26..30], memory[30..34], 14 + h, memory[14 + h..14 + total])
  {
    var f := memory[..length];
    assert f[14] == memory[14] && U16(f, 16) == U16(memory, 16) && f[23] == memory[23];
    SameSlice(memory, length, 26, 30);
    SameSlice(memory, length, 30, 34);
    SameSlice(memory, length, 14 + HeaderLength(memory[14]), 14 + U16(memory, 16));
  }

  // A header that is too short, or a TotalLength that runs past the frame.
  ghost predicate Unreadable(memory: seq<byte>, length: nat)
    requires 34 <= |memory|
  {
    HeaderLength(memory[14]) < 20 || 14 + U16(memory, 16) > length
  }

  lemma HeaderOnlyIs(p: Parsed, memory: seq<byte>, length: nat)
    requires length <= |memory| && IsIpv4(memory[..length]) && Parsable(memory[..length]) && Unreadable(memory, length)
    ensures ParseIpv4(p, memory[..length]) ==
            p.(ipv4 := At(14), ipChecksumValid := IpChecksumOk(memory[..length][14..14 + HeaderLength(memory[14])]))
  {
    var f := memory[..length];
    assert f[14] == memory[14] && U16(f, 16) == U16(memory, 16);
  }

  // The IPv4 header and what it carries; leaves early on an unreadable one.
  method FillIpv4(buffer: array<byte>, length: nat, parsed: ParsedPacket)
    requires length <= buffer.Length && IsIpv4(buffer[..length]) && Parsable(buffer[..length])
    modifies parsed
    ensures parsed.Snapshot() == ParseIpv4(old(parsed.Snapshot()), buffer[..length])
  {
    hide InternetChecksum;
    ghost var memory := buffer[..];
    assert memory[..length] == buffer[..length];
    var offset := ETHERNET_HEADER_SIZE;
    var headerLength := HeaderLength(buffer[offset]);
    var totalLength := buffer[offset + 2] as int * 0x100 + buffer[offset + 3];
    FillHeader(buffer, length, parsed);
    if headerLength < IPV4_MIN_HEADER_SIZE || offset + totalLength > length {
      HeaderOnlyIs(old(parsed.Snapshot()), memory, length);
      return;
    }
    CarriedIs(old(parsed.Snapshot()), memory, length);
    assert buffer[..] == memory;
    DispatchL4(buffer, offset + headerLength, totalLength - headerLength, parsed);
  }

  // The TCP case of the switch below.
  method FillTcp(buffer: array<byte>, offset: nat, length: nat, parsed: ParsedPacket)
    requires 34 <= buffer.Length && offset + length <= buffer.Length
    modifies parsed
    ensures parsed.Snapshot() ==
            ParseL4(old(parsed.Snapshot()), IP_PROTO_TCP, buffer[26..30], buffer[30..34], offset, buffer[offset..offset + length])
  {
    if length < TCP_MIN_HEADER_SIZE {
      return;
    }
    parsed.tcp := At(offset);
    var ok := ValidateTcpChecksum(buffer, 14, offset, length);
    parsed.l4ChecksumValid := ok;
    var n := TcpHeaderLength(buffer[offset + 12]);
    if TCP_MIN_HEADER_SIZE <= n && n <= length {
      parsed.payload := At(offset + n);
      parsed.payloadLength := length - n;
    }
  }

  // The switch on the IP protocol number.
  method DispatchL4(buffer: array<byte>, offset: nat, length: nat, parsed: ParsedPacket)
    requires 34 <= buffer.Length && offset + length <= buffer.Length
    modifies parsed
    ensures parsed.Snapshot() ==
            ParseL4(old(parsed.Snapshot()), buffer[23], buffer[26..30], buffer[30..34], offset, buffer[offset..offset + length])
  {
    var protocol := buffer[23];
    if protocol == IP_PROTO_ICMP {
      if length >= ICMP_HEADER_SIZE {
        parsed.icmp := At(offset);
        var ok := ValidateIcmpChecksum(buffer, offset, length);
        parsed.l4ChecksumValid := ok;
        parsed.payload := At(offset + ICMP_HEADER_SIZE);
        parsed.payloadLength := length - ICMP_HEADER_SIZE;
      }
    } else if protocol == IP_PROTO_TCP {
      FillTcp(buffer, offset, length, parsed);
    } else if protocol == IP_PROTO_UDP {
      if length >= UDP_HEADER_SIZE {
        parsed.udp := At(offset);
        var ok := ValidateUdpChecksum(buffer, 14, offset, length);
        parsed.l4ChecksumValid := ok;
        parsed.payload := At(offset + UDP_HEADER_SIZE);
        parsed.payloadLength := length - UDP_HEADER_SIZE;
      }
    } else {
      parsed.payload := At(offset);
      parsed.payloadLength := length;
    }
  }
}
