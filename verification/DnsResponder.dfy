// The companion's name server: one question in, one answer out.
module DnsResponder {
  import opened Bytes
  import opened DnsNames

  type Quad = s: seq<byte> | |s| == 4 witness [0, 0, 0, 0]

  const TYPE_A: word := 1
  const TYPE_PTR: word := 12
  const CLASS_IN: word := 1
  const FLAGS_ANSWER: word := 0x8400     // response, authoritative
  const FLAGS_NXDOMAIN: word := 0x8403
  const TTL: dword := 300
  const ANSWER_NAME: seq<byte> := [0xC0, 0x0C]   // pointer to the question

  datatype Reply = Silent | Answer(bytes: seq<byte>) | Failure

  // ---------------------------------------------------------------------
  // Text helpers
  // ---------------------------------------------------------------------

  function LowerChar(c: char): char {
    if 'A' <= c <= 'Z' then (c as int + 32) as char else c
  }

  function Lower(s: string): string {
    seq(|s|, i requires 0 <= i < |s| => LowerChar(s[i]))
  }

  function StripDots(s: string): string {
    if s != [] && s[|s| - 1] == '.' then StripDots(s[..|s| - 1]) else s
  }

  predicate EndsWith(s: string, suffix: string) {
    |suffix| <= |s| && s[|s| - |suffix|..] == suffix
  }

  predicate Contains(s: string, part: string) {
    exists i :: 0 <= i <= |s| - |part| && At(s, i, part)
  }

  predicate At(s: string, i: nat, part: string) {
    i + |part| <= |s| && s[i..i + |part|] == part
  }

  function Replace(s: string, from: char, to: char): string {
    seq(|s|, i requires 0 <= i < |s| => if s[i] == from then to else s[i])
  }

  function Digit(d: nat): char
    requires d < 10
  {
    ('0' as int + d) as char
  }

  function Decimal(b: byte): string {
    if b < 10 then [Digit(b)]
    else if b < 100 then [Digit(b / 10), Digit(b % 10)]
    else [Digit(b / 100), Digit(b / 10 % 10), Digit(b % 10)]
  }

  function Dotted(q: Quad): string {
    Join([Decimal(q[0]), Decimal(q[1]), Decimal(q[2]), Decimal(q[3])])
  }

  // ---------------------------------------------------------------------
  // Records
  // ---------------------------------------------------------------------

  // The static records, in the order they are searched. All of them hold the
  // companion's own address.
  function Hosts(domain: string): seq<string> {
    [Host(COMPANION, domain), Host("test", domain), Host("www", domain), domain]
  }

  const COMPANION := "companion"

  function Host(first: string, domain: string): string {
    first + ("." + domain)
  }

  // records.get(name), or else the first record whose name is a suffix.
  method FindAddress(domain: string, localIp: Quad, name: string) returns (ip: Option<Quad>)
    ensures ip == if EndsWith(name, domain) then Some(localIp) else None
  {
    var hosts := Hosts(domain);
    if name in hosts {
      HostsEnd(domain);
      return Some(localIp);
    }
    var k := 0;
    while k < |hosts|
      invariant k <= |hosts|
      invariant forall j :: 0 <= j < k ==> !EndsWith(name, hosts[j])
    {
      if EndsWith(name, hosts[k]) {
        HostsEnd(domain);
        SuffixOfSuffix(name, hosts[k], domain);
        return Some(localIp);
      }
      k := k + 1;
    }
    assert !EndsWith(name, hosts[3]);
    ip := None;
  }

  lemma HostsEnd(domain: string)
    ensures forall k :: 0 <= k < 4 ==> EndsWith(Hosts(domain)[k], domain)
  {
    HostEnds(COMPANION, domain);
    HostEnds("test", domain);
    HostEnds("www", domain);
  }

  lemma HostEnds(first: string, domain: string)
    ensures EndsWith(Host(first, domain), domain)
  {
    assert Host(first, domain)[|first| + 1..] == domain;
  }

  lemma SuffixOfSuffix(a: string, b: string, c: string)
    requires EndsWith(a, b) && EndsWith(b, c)
    ensures EndsWith(a, c)
  {
    assert a[|a| - |c|..] == a[|a| - |b|..][|b| - |c|..];
  }

  // ---------------------------------------------------------------------
  // Answers
  // ---------------------------------------------------------------------

  function Header(id: seq<byte>, flags: word, answers: word): seq<byte> {
    id + Be16(flags) + Be16(1) + Be16(answers) + Be16(0) + Be16(0)
  }

  function NxDomain(id: seq<byte>, question: seq<byte>): seq<byte> {
    Header(id, FLAGS_NXDOMAIN, 0) + question
  }

  // One resource record that names the question.
  function WithRecord(id: seq<byte>, question: seq<byte>, rtype: word, rdata: seq<byte>): seq<byte>
    requires |rdata| < 0x1_0000
  {
    Header(id, FLAGS_ANSWER, 1) + question
    + ANSWER_NAME + Be16(rtype) + Be16(CLASS_IN) + Be32(TTL) + Be16(|rdata|) + rdata
  }

  // An answer carries the id and the question that were asked.
  ghost predicate Echoes(reply: Reply, id: seq<byte>, question: seq<byte>) {
    reply.Answer? ==>
      |reply.bytes| >= 12 + |question| && reply.bytes[..2] == id && reply.bytes[12..12 + |question|] == question
  }

  lemma DenialEchoes(id: seq<byte>, question: seq<byte>)
    requires |id| == 2
    ensures Echoes(Answer(NxDomain(id, question)), id, question)
  {
    BehindHeader(id, Be16(FLAGS_NXDOMAIN) + Be16(1) + Be16(0) + Be16(0) + Be16(0), question, []);
  }

  lemma RecordEchoes(id: seq<byte>, question: seq<byte>, rtype: word, rdata: seq<byte>)
    requires |id| == 2 && |rdata| < 0x1_0000
    ensures Echoes(Answer(WithRecord(id, question, rtype, rdata)), id, question)
  {
    var counts := Be16(FLAGS_ANSWER) + Be16(1) + Be16(1) + Be16(0) + Be16(0);
    var record := ANSWER_NAME + Be16(rtype) + Be16(CLASS_IN) + Be32(TTL) + Be16(|rdata|) + rdata;
    assert WithRecord(id, question, rtype, rdata) == (id + counts) + (question + record);
    BehindHeader(id, counts, question, record);
  }

  lemma BehindHeader(id: seq<byte>, counts: seq<byte>, question: seq<byte>, rest: seq<byte>)
    requires |id| == 2 && |counts| == 10
    ensures var r := (id + counts) + (question + rest);
            |r| >= 12 + |question| && r[..2] == id && r[12..12 + |question|] == question
  {
  }

  // The name made up for an address that is not known.
  function HostLabel(ip: string): string {
    "host-" + Replace(ip, '.', '-')
  }

  // The host name given for an address; only the companion's own is known.
  function HostFor(domain: string, localIp: Quad, ip: string): string {
    if Dotted(localIp) == ip then Host(COMPANION, domain) else Host(HostLabel(ip), domain)
  }

  // The address an in-addr.arpa name stands for.
  function ReverseAddress(qname: string): Option<string> {
    var parts := Split(StripDots(Lower(qname)));
    if |parts| >= 4 && Contains(qname, "in-addr") then Some(Join([parts[3], parts[2], parts[1], parts[0]])) else None
  }

  function AReply(domain: string, localIp: Quad, id: seq<byte>, question: seq<byte>, qname: string): Reply {
    if EndsWith(StripDots(Lower(qname)), domain) then Answer(WithRecord(id, question, TYPE_A, localIp))
    else Answer(NxDomain(id, question))
  }

  function PtrReply(domain: string, localIp: Quad, id: seq<byte>, question: seq<byte>, qname: string): Reply {
    var ip := ReverseAddress(qname);
    if ip == None then Answer(NxDomain(id, question))
    else
      var labels := Split(HostFor(domain, localIp, ip.value));
      if AllEncodable(labels) && |EncodeLabels(labels)| < 0x1_0000 then
        Answer(WithRecord(id, question, TYPE_PTR, EncodeLabels(labels)))
      else Failure
  }

  // The answer to a datagram; Failure stands for a raised exception.
  function ReplyTo(domain: string, localIp: Quad, data: seq<byte>, depth: nat): Reply {
    if |data| < 12 || U16(data, 4) == 0 then Silent
    else
      var q := DecodeFrom(data, 12, [], depth);
      if q.Raises? then Failure
      else if q.next + 4 > |data| then Silent
      else
        var id, question := data[..2], data[12..q.next + 4];
        var qtype := U16(data, q.next);
        if qtype == TYPE_A then AReply(domain, localIp, id, question, q.name)
        else if qtype == TYPE_PTR then PtrReply(domain, localIp, id, question, q.name)
        else Answer(NxDomain(id, question))
  }

  class DnsManager {
    const domain: string
    const localIp: Quad
    var queryCount: nat

    constructor (domain: string, localIp: Quad)
      ensures this.domain == domain && this.localIp == localIp && queryCount == 0
    {
      this.domain, this.localIp, queryCount := domain, localIp, 0;
    }

    // One turn of the server loop: too short a datagram is not even counted.
    method Serve(data: seq<byte>, depth: nat) returns (reply: Reply)
      modifies this
      ensures queryCount == old(queryCount) + (if |data| < 12 then 0 else 1)
      ensures reply == ReplyTo(domain, localIp, data, depth)
    {
      if |data| < 12 {
        return Silent;
      }
      queryCount := queryCount + 1;
      reply := HandleQuery(data, depth);
    }

    // Silence for a datagram without a question, or with one cut short behind
    // its name; failure where the name cannot be decoded.
    method HandleQuery(data: seq<byte>, depth: nat) returns (reply: Reply)
      ensures |data| < 12 || data[4] == data[5] == 0 ==> reply == Silent
      ensures |data| >= 12 && (data[4] != 0 || data[5] != 0) ==>
                match DecodeFrom(data, 12, [], depth)
                case Raises => reply == Failure
                case Name(_, next) =>
                  && (reply == Silent <==> next + 4 > |data|)
                  && (next + 4 <= |data| ==> Echoes(reply, data[..2], data[12..next + 4]))
      ensures reply == ReplyTo(domain, localIp, data, depth)
    {
      if |data| < 12 {
        return Silent;
      }
      var id := data[..2];
      if U16(data, 4) == 0 {
        return Silent;
      }
      var q := DecodeName(data, 12, depth);
      if q.Raises? {
        return Failure;
      }
      var offset := q.next;
      if offset + 4 > |data| {
        return Silent;
      }
      var qtype := U16(data, offset);
      if qtype == TYPE_A {
        reply := BuildAResponse(id, data[12..offset + 4], q.name);
      } else if qtype == TYPE_PTR {
        reply := BuildPtrResponse(id, data[12..offset + 4], q.name);
      } else {
        DenialEchoes(id, data[12..offset + 4]);
        reply := Answer(NxDomain(id, data[12..offset + 4]));
      }
    }

    method BuildAResponse(id: seq<byte>, question: seq<byte>, qname: string) returns (reply: Reply)
      requires |id| == 2
      ensures Echoes(reply, id, question)
      ensures reply == AReply(domain, localIp, id, question, qname)
    {
      DenialEchoes(id, question);
      var ip := FindAddress(domain, localIp, StripDots(Lower(qname)));
      if ip == None {
        return Answer(NxDomain(id, question));
      }
      RecordEchoes(id, question, TYPE_A, ip.value);
      reply := Answer(WithRecord(id, question, TYPE_A, ip.value));
    }

    method BuildPtrResponse(id: seq<byte>, question: seq<byte>, qname: string) returns (reply: Reply)
      requires |id| == 2
      ensures Echoes(reply, id, question)
      ensures reply == PtrReply(domain, localIp, id, question, qname)
    {
      DenialEchoes(id, question);
      var parts := Split(StripDots(Lower(qname)));
      if |parts| < 4 || !Contains(qname, "in-addr") {
        return Answer(NxDomain(id, question));
      }
      var ip := Join([parts[3], parts[2], parts[1], parts[0]]);
      // The search over the records stops at the first, they all hold localIp.
      var host := if Dotted(localIp) == ip then Hosts(domain)[0] else Host(HostLabel(ip), domain);
      var rdata := EncodeName(host);
      if rdata == None || |rdata.value| >= 0x1_0000 {
        return Failure;
      }
      RecordEchoes(id, question, TYPE_PTR, rdata.value);
      reply := Answer(WithRecord(id, question, TYPE_PTR, rdata.value));
    }
  }
}
