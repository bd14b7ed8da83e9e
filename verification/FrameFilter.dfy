// The control channel's own receive path: raw frames are polled from the
// network card and filtered down to the companion's datagrams.
module FrameFilter {
  import opened Bytes
  import opened Checksum
  import opened PacketDefs
  import opened PacketFrames
  import opened PacketParser
  import opened PacketProofs

  const RX_BUFFER_SIZE := 1600

  // One poll of the card: nothing (or an error), or a frame of `size` bytes at
  // the start of the receive buffer, with the length of its media header.
  // Behind the frame the buffer holds what earlier frames left there.
  datatype Poll = NoFrame | Frame(buffer: seq<byte>, size: nat, headerSize: nat)

  // What the card may return: the frame fits the buffer, and so do the fixed
  // IPv4 fields behind the media header, which are read before any length is
  // compared.
  predicate Sane(p: Poll) {
    p.Frame? ==> |p.buffer| == RX_BUFFER_SIZE && p.size <= RX_BUFFER_SIZE && p.headerSize + 16 <= RX_BUFFER_SIZE
  }

  datatype Outcome = Received | TimedOut | BadParameter

  // The payload of a companion datagram, if the frame in `b` holds one.
  function Match(b: seq<byte>, size: nat, headerSize: nat, companion: Ip4, port: word): Option<seq<byte>>
    requires size <= |b| && headerSize + 16 <= |b|
  {
    if size < 42 || headerSize < 14 || b[12] != 0x08 || b[13] != 0x00 then None
    else if b[headerSize] / 0x10 != 4 || b[headerSize + 9] != IP_PROTO_UDP
            || b[headerSize + 12..headerSize + 16] != companion then None
    else
      var udp := headerSize + HeaderLength(b[headerSize]);
      if size < udp + 8 || U16(b, udp + 2) != port then None
      else
        var n := (U16(b, udp + 4) + 0x1_0000 - 8) % 0x1_0000;
        if n > 0 && udp + 8 + n <= size then Some(b[udp + 8..udp + 8 + n]) else None
  }

  function MatchPoll(p: Poll, companion: Ip4, port: word): Option<seq<byte>>
    requires Sane(p)
  {
    if p.NoFrame? then None else Match(p.buffer, p.size, p.headerSize, companion, port)
  }

  function Idle(polls: seq<Poll>): nat {
    if |polls| == 0 then 0 else Idle(polls[..|polls| - 1]) + (if polls[|polls| - 1].NoFrame? then 1 else 0)
  }

  // Poll `k` is the first to match and comes before time runs out: every
  // empty poll costs 2 ms, a frame costs none.
  ghost predicate Hit(polls: seq<Poll>, k: nat, companion: Ip4, port: word, timeoutMs: nat)
    requires forall p :: p in polls ==> Sane(p)
  {
    && k < |polls|
    && MatchPoll(polls[k], companion, port).Some?
    && (forall j :: 0 <= j < k ==> MatchPoll(polls[j], companion, port).None?)
    && 2 * |EmptyPolls(polls, k)| < timeoutMs
  }

  // The empty ones of the first `k` polls.
  ghost function EmptyPolls(polls: seq<Poll>, k: nat): set<int>
    requires k <= |polls|
  {
    set j | 0 <= j < k && polls[j] == NoFrame
  }

  lemma {:induction false} IdleCounts(polls: seq<Poll>, k: nat)
    requires k <= |polls|
    ensures Idle(polls[..k]) == |EmptyPolls(polls, k)|
  {
    if k == 0 {
      assert EmptyPolls(polls, 0) == {};
    } else {
      IdleCounts(polls, k - 1);
      assert polls[..k][..k - 1] == polls[..k - 1];
      OneMorePoll(polls, k - 1);
    }
  }

  lemma OneMorePoll(polls: seq<Poll>, k: nat)
    requires k < |polls|
    ensures |EmptyPolls(polls, k + 1)| == |EmptyPolls(polls, k)| + (if polls[k] == NoFrame then 1 else 0)
  {
    var before := EmptyPolls(polls, k);
    assert EmptyPolls(polls, k + 1) == if polls[k] == NoFrame then before + {k} else before;
  }

  // The payload, cut to fit, and a NUL; nothing else is touched.
  ghost predicate Filled(after: seq<byte>, before: seq<byte>, payload: seq<byte>, size: nat)
    requires 0 < size <= |before| == |after|
  {
    var n := if |payload| < size then |payload| else size - 1;
    after[..n] == payload[..n] && after[n] == 0 && after[n + 1..] == before[n + 1..]
  }

  method Deliver(response: array<byte>, size: nat, payload: seq<byte>)
    requires 0 < size <= response.Length
    modifies response
    ensures Filled(response[..], old(response[..]), payload, size)
  {
    var copyLen := |payload|;
    if copyLen >= size - 1 {
      copyLen := size - 1;
    }
    CopyMem(response, 0, payload[..copyLen]);
    CopyMem(response, copyLen, [0]);
  }

  // The polls after the recorded ones find nothing.
  method ReceiveResponse(polls: seq<Poll>, companion: Ip4, port: word, response: array<byte>, responseSize: nat, timeoutMs: nat)
    returns (outcome: Outcome, ghost taken: nat)
    requires forall p :: p in polls ==> Sane(p)
    requires responseSize <= response.Length
    modifies response
    ensures outcome == BadParameter <==> responseSize == 0
    ensures outcome == BadParameter ==> response[..] == old(response[..])
    ensures outcome == Received ==>
              && Hit(polls, taken, companion, port, timeoutMs)
              && var payload := MatchPoll(polls[taken], companion, port).value;
                 var n := if |payload| < responseSize then |payload| else responseSize - 1;
              response[..n] == payload[..n] && response[n] == 0 && response[n + 1..] == old(response[n + 1..])
    ensures outcome == TimedOut ==>
              && (forall k: nat :: !Hit(polls, k, companion, port, timeoutMs))
              && response[0] == 0 && response[1..] == old(response[1..])
  {
    taken := 0;
    if responseSize == 0 {
      return BadParameter, taken;
    }
    ghost var before := response[..];
    response[0] := 0;
    assert response[1..] == before[1..];
    var elapsedMs := 0;
    var next := 0;
    while elapsedMs < timeoutMs
      invariant next <= |polls|
      invariant elapsedMs >= 2 * Idle(polls[..next])
      invariant next < |polls| ==> elapsedMs == 2 * Idle(polls[..next])
      invariant forall j :: 0 <= j < next ==> MatchPoll(polls[j], companion, port).None?
      invariant response[0] == 0 && response[1..] == before[1..]
      decreases if elapsedMs < timeoutMs then timeoutMs - elapsedMs else 0, |polls| - next
    {
      var poll := if next < |polls| then polls[next] else NoFrame;
      assert Sane(poll);
      taken := next;
      if next < |polls| {
        assert polls[..next + 1][..next] == polls[..next];
        next := next + 1;
      }
      if poll.NoFrame? {
        elapsedMs := elapsedMs + 2;
        continue;
      }
      var m := Match(poll.buffer, poll.size, poll.headerSize, companion, port);
      if m.Some? {
        IdleCounts(polls, taken);
        DeliverAfter(response, responseSize, m.value, before);
        return Received, taken;
      }
    }
    outcome := TimedOut;
    forall k: nat ensures !Hit(polls, k, companion, port, timeoutMs) {
      if next <= k < |polls| {
        IdleMonotone(polls, next, k);
        IdleCounts(polls, k);
      }
    }
  }

  // The same once the buffer has been emptied.
  method DeliverAfter(response: array<byte>, size: nat, payload: seq<byte>, ghost before: seq<byte>)
    requires 0 < size <= response.Length == |before| && response[1..] == before[1..]
    modifies response
    ensures Filled(response[..], before, payload, size)
  {
    ghost var emptied := response[..];
    Deliver(response, size, payload);
    ghost var n := if |payload| < size then |payload| else size - 1;
    SubSlice(emptied, 1, |emptied|, n, |emptied| - 1);
    SubSlice(before, 1, |before|, n, |before| - 1);
  }

  lemma {:induction false} IdleMonotone(polls: seq<Poll>, a: nat, b: nat)
    requires a <= b <= |polls|
    ensures Idle(polls[..a]) <= Idle(polls[..b])
    decreases b
  {
    if a < b {
      assert polls[..b][..b - 1] == polls[..b - 1];
      IdleMonotone(polls, a, b - 1);
    }
  }

  // ---------------------------------------------------------------------
  // Agreement with the packet parser
  // ---------------------------------------------------------------------

  // An Ethernet frame by itself.
  function FrameMatch(f: seq<byte>, companion: Ip4, port: word): Option<seq<byte>> {
    if |f| < 42 then None else Match(f, |f|, ETHERNET_HEADER_SIZE, companion, port)
  }

  // With the 14-byte header of Ethernet only the frame itself matters, not
  // what else is in the receive buffer.
  lemma OnlyFrameMatters(b: seq<byte>, size: nat, companion: Ip4, port: word)
    requires 42 <= |b| && size <= |b|
    ensures Match(b, size, ETHERNET_HEADER_SIZE, companion, port) == FrameMatch(b[..size], companion, port)
  {
    var f := b[..size];
    if size >= 42 {
      assert f[26..30] == b[26..30];
      var udp := 14 + HeaderLength(b[14]);
      var n := if size < udp + 8 then 0 else (U16(b, udp + 4) + 0x1_0000 - 8) % 0x1_0000;
      if udp + 8 + n <= size {
        assert f[udp + 8..udp + 8 + n] == b[udp + 8..udp + 8 + n];
      }
    }
  }

  // Of the UDP frames anyone builds, trailing padding or not, exactly those
  // from the companion to this port with a payload get through, and with the
  // payload that the packet parser reports.
  lemma BuiltFramesMatch(ends: Ends, srcPort: word, dstPort: word, data: seq<byte>, pad: seq<byte>, companion: Ip4, port: word)
    requires |data| <= 65507
    ensures var f := UdpFrame(ends, srcPort, dstPort, data) + pad;
            && UdpReceived(f, ends, srcPort, dstPort, data)
            && FrameMatch(f, companion, port) ==
               if ends.srcIp == companion && dstPort == port && |data| > 0 then Some(data) else None
  {
    UdpRoundTrip(ends, srcPort, dstPort, data, pad);
    ReceivedMatches(UdpFrame(ends, srcPort, dstPort, data) + pad, ends, srcPort, dstPort, data, companion, port);
  }

  lemma ReceivedMatches(f: seq<byte>, ends: Ends, srcPort: word, dstPort: word, data: seq<byte>, companion: Ip4, port: word)
    requires UdpReceived(f, ends, srcPort, dstPort, data)
    ensures FrameMatch(f, companion, port) ==
            if ends.srcIp == companion && dstPort == port && |data| > 0 then Some(data) else None
  {
    hide InternetChecksum;
    AddressedBytes(f, ends, 28 + |data|);
  }

  lemma AddressedBytes(f: seq<byte>, ends: Ends, total: word)
    requires |f| >= 34 && Addressed(f, ends, 17, total)
    ensures f[12] == 8 && f[13] == 0 && f[14] == 0x45 && f[23] == 17 && f[26..30] == ends.srcIp
  {
    assert f[12] == f[12..14][0] && f[13] == f[12..14][1] && f[14] == f[14..16][0] && f[23] == f[22..24][1];
  }

  // Any other media header is passed over: behind it the filter looks for what
  // it looks for behind that of Ethernet.
  lemma MediaHeaderSkipped(b: seq<byte>, size: nat, headerSize: nat, companion: Ip4, port: word)
    requires size <= |b| && headerSize + 16 <= |b| && headerSize >= ETHERNET_HEADER_SIZE && b[headerSize] % 0x10 >= 5
    ensures Match(b, size, headerSize, companion, port) ==
            if size < headerSize then None else FrameMatch(b[..14] + b[headerSize..size], companion, port)
  {
    if size >= headerSize + 28 {
      SkippedMatch(b, b[..14] + b[headerSize..size], size, headerSize, HeaderLength(b[headerSize]) + 8, companion, port);
    }
  }

  lemma SkippedMatch(b: seq<byte>, f: seq<byte>, size: nat, headerSize: nat, skip: nat, companion: Ip4, port: word)
    requires headerSize + 28 <= size <= |b| && headerSize >= ETHERNET_HEADER_SIZE && f == b[..14] + b[headerSize..size]
    requires skip == HeaderLength(b[headerSize]) + 8 >= 28
    ensures Match(b, size, headerSize, companion, port) == FrameMatch(f, companion, port)
  {
    hide U16, HeaderLength;
    assert f[12] == b[12] && f[13] == b[13] && f[14] == b[headerSize] && f[23] == b[headerSize + 9];
    SameFrameSlice(b, f, headerSize, size, 12, 16);
    if size >= headerSize + skip {
      SameFrameWord(b, f, headerSize, size, skip - 6);
      SameFrameWord(b, f, headerSize, size, skip - 4);
      var n := (U16(b, headerSize + skip - 4) + 0x1_0000 - 8) % 0x1_0000;
      if headerSize + skip + n <= size {
        SameFrameSlice(b, f, headerSize, size, skip, skip + n);
      }
    }
  }

  lemma SameFrameSlice(b: seq<byte>, f: seq<byte>, headerSize: nat, size: nat, lo: nat, hi: nat)
    requires 14 <= headerSize <= size <= |b| && f == b[..14] + b[headerSize..size] && lo <= hi <= size - headerSize
    ensures f[14 + lo..14 + hi] == b[headerSize + lo..headerSize + hi]
  {
    var x, y := f[14 + lo..14 + hi], b[headerSize + lo..headerSize + hi];
    forall i | 0 <= i < hi - lo ensures x[i] == y[i] {
      assert f[14 + lo + i] == b[headerSize + lo + i];
    }
  }

  lemma SameFrameWord(b: seq<byte>, f: seq<byte>, headerSize: nat, size: nat, k: nat)
    requires 14 <= headerSize <= size <= |b| && f == b[..14] + b[headerSize..size] && k + 2 <= size - headerSize
    ensures U16(f, 14 + k) == U16(b, headerSize + k)
  {
    assert f[14 + k] == b[headerSize + k] && f[14 + k + 1] == b[headerSize + k + 1];
  }

  // None is shorter.
  lemma ShortMediaHeader(b: seq<byte>, size: nat, headerSize: nat, companion: Ip4, port: word)
    requires size <= |b| && headerSize + 16 <= |b| && headerSize < 14
    ensures Match(b, size, headerSize, companion, port) == None
  {
  }

  // The UDP datagram in a frame, from its ports on.
  function UdpAt(f: seq<byte>): nat
    requires |f| >= 42
  {
    14 + HeaderLength(f[14])
  }

  // Of the frames that the filter takes, the packet parser finds a UDP layer
  // in exactly those whose IPv4 header has at least 20 bytes and whose
  // TotalLength lies in the frame and leaves room for the UDP header.
  lemma AcceptedParses(f: seq<byte>, companion: Ip4, port: word)
    requires Parsable(f) && FrameMatch(f, companion, port).Some?
    ensures Parse(f).udp.At? <==>
            && HeaderLength(f[14]) >= 20
            && 14 + U16(f, 16) <= |f| && HeaderLength(f[14]) + 8 <= U16(f, 16)
  {
    LayersReported(f);
  }

  // Of the UDP layers that the parser finds, from the companion to this port,
  // the filter takes exactly those of IP version 4 whose UDP length, less 8,
  // is not 0 and stays within the frame. (A length below 8 wraps around.)
  lemma ParsedAccepted(f: seq<byte>, companion: Ip4, port: word)
    requires Parsable(f) && Parse(f).udp.At?
    requires f[26..30] == companion && U16(f, Parse(f).udp.offset + 2) == port
    ensures var udp := Parse(f).udp.offset;
            var n := (U16(f, udp + 4) + 0x1_0000 - 8) % 0x1_0000;
            FrameMatch(f, companion, port).Some? <==> f[14] / 0x10 == 4 && 0 < n <= |f| - udp - 8
  {
    LayersTile(f);
    LayersReported(f);
  }

  // Both sides find the same payload in a frame that the filter takes exactly
  // when the header is long enough, TotalLength lies in the frame, and the UDP
  // length is what TotalLength leaves for UDP.
  lemma MatchVersusParse(f: seq<byte>, companion: Ip4, port: word)
    requires |f| <= RX_BUFFER_SIZE && Parsable(f) && FrameMatch(f, companion, port).Some?
    ensures Parse(f).udp.At? && FrameMatch(f, companion, port).value == Delivered(f) <==>
            && HeaderLength(f[14]) >= 20 && 14 + U16(f, 16) <= |f|
            && U16(f, UdpAt(f) + 4) == U16(f, 16) - HeaderLength(f[14])
  {
    hide ParseL4, IpChecksumOk, U16;
    AcceptedParses(f, companion, port);
    var udp := UdpAt(f);
    var x := FrameMatch(f, companion, port).value;
    var n := U16(f, udp + 4) - 8;
    assert n > 0 && x == f[udp + 8..udp + 8 + n];
    if Parse(f).udp.At? {
      LayersTile(f);
      LayersReported(f);
      assert Delivered(f) == f[udp + 8..14 + U16(f, 16)];
      assert |x| == n && |Delivered(f)| == 14 + U16(f, 16) - udp - 8;
    }
  }

  // What the two sides make of a frame with zero addresses and ports.
  ghost predicate OnlyFiltered(f: seq<byte>) {
    && |f| <= RX_BUFFER_SIZE && Parsable(f) && Parse(f).udp == Null
    && FrameMatch(f, [0, 0, 0, 0], 0).Some?
  }

  ghost predicate OnlyParsed(f: seq<byte>) {
    && 42 <= |f| <= RX_BUFFER_SIZE && Parsable(f) && Parse(f).udp.At?
    && f[26..30] == [0, 0, 0, 0] && U16(f, Parse(f).udp.offset + 2) == 0
    && FrameMatch(f, [0, 0, 0, 0], 0) == None
  }

  // Each kind of frame that only the filter takes: a header of 0 words, so
  // that the ports overlap it; a TotalLength past the end of the frame; one
  // that leaves no room for the UDP header.
  lemma MatchIsMoreLenient()
    ensures exists f :: OnlyFiltered(f) && HeaderLength(f[14]) < 20
    ensures exists f :: OnlyFiltered(f) && HeaderLength(f[14]) >= 20 && 14 + U16(f, 16) > |f|
    ensures exists f :: OnlyFiltered(f) && HeaderLength(f[14]) >= 20 && 14 + U16(f, 16) <= |f|
                        && U16(f, 16) < HeaderLength(f[14]) + 8
  {
    var short: seq<byte> := seq(42, _ => 0)[12 := 8][14 := 0x40][19 := 9][23 := IP_PROTO_UDP];
    assert short[26..30] == [0, 0, 0, 0];
    assert OnlyFiltered(short);
    var long := Datagram(43, 0x45, 0x100, 9);
    AcceptedParses(long, [0, 0, 0, 0], 0);
    assert OnlyFiltered(long);
    var tight := Datagram(43, 0x45, 20, 9);
    AcceptedParses(tight, [0, 0, 0, 0], 0);
    assert OnlyFiltered(tight);
  }

  // Such a frame with a header of 5 words.
  lemma Datagram(size: nat, first: byte, total: word, length: word) returns (f: seq<byte>)
    requires 42 <= size <= RX_BUFFER_SIZE && HeaderLength(first) == 20
    ensures |f| == size && IsIpv4(f) && f[14] == first && f[23] == IP_PROTO_UDP
    ensures U16(f, 16) == total && U16(f, 36) == 0 && U16(f, 38) == length && f[26..30] == [0, 0, 0, 0]
  {
    f := seq(size, _ => 0)[12 := 8][14 := first][16 := total / 0x100][17 := total % 0x100][23 := IP_PROTO_UDP]
         [38 := length / 0x100][39 := length % 0x100];
    assert f[26..30] == [0, 0, 0, 0];
  }

  // Each kind of datagram that only the parser takes: an IP version other than
  // 4; a UDP length of 8; one that runs past the frame.
  lemma ParseIsMoreLenient()
    ensures exists f :: OnlyParsed(f) && f[14] / 0x10 != 4
    ensures exists f :: OnlyParsed(f) && f[14] / 0x10 == 4 && U16(f, UdpAt(f) + 4) == 8
    ensures exists f :: OnlyParsed(f) && f[14] / 0x10 == 4 && U16(f, UdpAt(f) + 4) > |f|
  {
    var version := Datagram(43, 0x65, 29, 9);
    IsOnlyParsed(version);
    var empty := Datagram(42, 0x45, 28, 8);
    IsOnlyParsed(empty);
    var past := Datagram(43, 0x45, 29, 0x100);
    IsOnlyParsed(past);
  }

  lemma IsOnlyParsed(f: seq<byte>)
    requires 42 <= |f| <= RX_BUFFER_SIZE && IsIpv4(f) && f[23] == IP_PROTO_UDP && HeaderLength(f[14]) == 20
    requires 28 <= U16(f, 16) <= |f| - 14 && U16(f, 36) == 0 && f[26..30] == [0, 0, 0, 0]
    requires f[14] / 0x10 != 4 || U16(f, 38) == 8 || U16(f, 38) > |f|
    ensures OnlyParsed(f)
  {
    LayersReported(f);
    LayersTile(f);
    ParsedAccepted(f, [0, 0, 0, 0], 0);
  }
}
