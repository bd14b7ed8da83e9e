// Answers of the name server decode back to what was asked and chosen.
module DnsProofs {
  import opened Bytes
  import opened DnsNames
  import opened DnsResponder
  import opened AddressText

  // A question in uncompressed form; `tail` is its type and class.
  ghost function Question(labels: seq<string>, qtype: word, qclass: word): seq<byte>
    requires AllEncodable(labels)
  {
    EncodeLabels(labels) + (Be16(qtype) + Be16(qclass))
  }

  ghost function Query(header: seq<byte>, labels: seq<string>, qtype: word, qclass: word, extra: seq<byte>): seq<byte>
    requires AllEncodable(labels)
  {
    header + Question(labels, qtype, qclass) + extra
  }

  ghost predicate Good(labels: seq<string>) {
    |labels| > 0 && AllEncodable(labels) && Readable(labels) && AllDotFree(labels)
  }

  // A DNS header with at least one question.
  ghost predicate Asks(header: seq<byte>) {
    |header| == 12 && U16(header, 4) != 0
  }

  lemma QueryParts(header: seq<byte>, labels: seq<string>, qtype: word, qclass: word, extra: seq<byte>, depth: nat)
    requires Asks(header) && Good(labels)
    ensures var data := Query(header, labels, qtype, qclass, extra);
            var q := Question(labels, qtype, qclass);
            && |data| >= 12 + |q| && U16(data, 4) != 0 && data[0..2] == header[0..2]
            && DecodeFrom(data, 12, [], depth) == Name(Join(labels), 12 + |q| - 4)
            && data[12..12 + |q|] == q && U16(data, 12 + |q| - 4) == qtype
  {
    var e := EncodeLabels(labels);
    var tail := Be16(qtype) + Be16(qclass);
    var data := Query(header, labels, qtype, qclass, extra);
    assert data == header + (e + (tail + extra));
    assert Lies(data, 12, e);
    DecodeLabels(data, 12, labels, [], depth);
    assert [] + labels == labels;
    assert data[12 + |e|..12 + |e| + 2] == Be16(qtype);
    Field16(data, 12 + |e|, qtype);
    assert data[12..12 + |e| + 4] == e + tail;
    assert data[4] == header[4] && data[5] == header[5];
  }

  // What a client finds in a positive answer: its own id and question, one
  // authoritative record whose name decodes to the name asked for.
  ghost predicate Answers(r: seq<byte>, id: seq<byte>, question: seq<byte>, name: string, rtype: word, rdata: seq<byte>, depth: nat)
    requires |rdata| < 0x1_0000
  {
    var at := 12 + |question|;
    && |r| == at + 12 + |rdata|
    && r[0..2] == id
    && r[2..12] == [0x84, 0, 0, 1, 0, 1, 0, 0, 0, 0]
    && r[12..at] == question
    && DecodeFrom(r, at, [], depth) == Name(name, at + 2)
    && U16(r, at + 2) == rtype && r[at + 4..at + 10] == [0, 1, 0, 0, 1, 0x2C] && U16(r, at + 10) == |rdata|
    && r[at + 12..] == rdata
  }

  // A negative answer: id and question again, RCODE 3 and no record.
  ghost predicate Denies(r: seq<byte>, id: seq<byte>, question: seq<byte>) {
    && |r| == 12 + |question|
    && r[0..2] == id && r[2..12] == [0x84, 3, 0, 1, 0, 0, 0, 0, 0, 0] && r[12..] == question
  }

  lemma NxDomainDenies(id: seq<byte>, question: seq<byte>)
    requires |id| == 2
    ensures Denies(NxDomain(id, question), id, question)
  {
    assert Header(id, FLAGS_NXDOMAIN, 0) == id + [0x84, 3, 0, 1, 0, 0, 0, 0, 0, 0];
    assert NxDomain(id, question) == id + ([0x84, 3, 0, 1, 0, 0, 0, 0, 0, 0] + question);
  }

  lemma PointerToQuestion(r: seq<byte>, at: nat, labels: seq<string>, depth: nat)
    requires Good(labels) && Lies(r, 12, EncodeLabels(labels)) && Lies(r, at, ANSWER_NAME) && depth > 0
    ensures DecodeFrom(r, at, [], depth) == Name(Join(labels), at + 2)
  {
    DecodeLabels(r, 12, labels, [], depth - 1);
    assert [] + labels == labels;
    AnswerNameFollowed(r, at, depth);
    assert [] + [Join(labels)] == [Join(labels)];
  }

  lemma AnswerNameFollowed(r: seq<byte>, at: nat, depth: nat)
    requires Lies(r, at, ANSWER_NAME) && depth > 0
    ensures var inner := DecodeFrom(r, 12, [], depth - 1);
            DecodeFrom(r, at, [], depth) == if inner.Raises? then Raises else Name(Join([] + [inner.name]), at + 2)
  {
    assert ANSWER_NAME[0] == r[at + 0] && ANSWER_NAME[1] == r[at + 1];
    assert U16(r, at) % 0x4000 == 12;
  }

  lemma RecordAnswers(id: seq<byte>, labels: seq<string>, qtype: word, qclass: word, rtype: word, rdata: seq<byte>, depth: nat)
    requires |id| == 2 && Good(labels) && |rdata| < 0x1_0000 && depth > 0
    ensures var q := Question(labels, qtype, qclass);
            Answers(WithRecord(id, q, rtype, rdata), id, q, Join(labels), rtype, rdata, depth)
  {
    var q := Question(labels, qtype, qclass);
    var r := WithRecord(id, q, rtype, rdata);
    RecordParts(id, q, rtype, rdata);
    SliceLies(r, 12, q);
    SliceLies(r, 12 + |q|, ANSWER_NAME);
    LiesParts(r, 12, EncodeLabels(labels), Be16(qtype) + Be16(qclass));
    PointerToQuestion(r, 12 + |q|, labels, depth);
  }

  lemma RecordParts(id: seq<byte>, q: seq<byte>, rtype: word, rdata: seq<byte>)
    requires |id| == 2 && |rdata| < 0x1_0000
    ensures var r := WithRecord(id, q, rtype, rdata);
            var at := 12 + |q|;
            && |r| == at + 12 + |rdata| && r[0..2] == id
            && r[2..12] == [0x84, 0, 0, 1, 0, 1, 0, 0, 0, 0]
            && r[12..at] == q && r[at..at + 2] == ANSWER_NAME
            && U16(r, at + 2) == rtype && r[at + 4..at + 10] == [0, 1, 0, 0, 1, 0x2C] && U16(r, at + 10) == |rdata|
            && r[at + 12..] == rdata
  {
    var counts, fixed := [0x84, 0, 0, 1, 0, 1, 0, 0, 0, 0], [0, 1, 0, 0, 1, 0x2C];
    var r := WithRecord(id, q, rtype, rdata);
    assert Header(id, FLAGS_ANSWER, 1) == id + counts;
    assert Be16(CLASS_IN) + Be32(TTL) == fixed;
    assert r == (id + counts) + (q + (ANSWER_NAME + (Be16(rtype) + ((Be16(CLASS_IN) + Be32(TTL)) + (Be16(|rdata|) + rdata)))));
    RecordSlices(r, id, counts, q, rtype, fixed, |rdata|, rdata);
  }

  lemma RecordSlices(r: seq<byte>, id: seq<byte>, counts: seq<byte>, q: seq<byte>, rtype: word, fixed: seq<byte>, n: word, rdata: seq<byte>)
    requires |id| == 2 && |counts| == 10 && |fixed| == 6
    requires r == (id + counts) + (q + (ANSWER_NAME + (Be16(rtype) + (fixed + (Be16(n) + rdata)))))
    ensures var at := 12 + |q|;
            && |r| == at + 12 + |rdata| && r[0..2] == id && r[2..12] == counts && r[12..at] == q && r[at..at + 2] == ANSWER_NAME
            && U16(r, at + 2) == rtype && r[at + 4..at + 10] == fixed && U16(r, at + 10) == n && r[at + 12..] == rdata
  {
    var at := 12 + |q|;
    assert r[at + 2..at + 4] == Be16(rtype) && r[at + 10..at + 12] == Be16(n);
    Field16(r, at + 2, rtype);
    Field16(r, at + 10, n);
  }

  // ---------------------------------------------------------------------
  // A queries
  // ---------------------------------------------------------------------

  // Every A query with an uncompressed name is answered: with the companion's
  // address if the name ends in the domain, with NXDOMAIN otherwise.
  lemma AQueryAnswered(domain: string, localIp: Quad, header: seq<byte>, labels: seq<string>, qclass: word, extra: seq<byte>, depth: nat)
    requires Asks(header) && Good(labels) && depth > 0
    ensures var q := Question(labels, 1, qclass);
            var reply := ReplyTo(domain, localIp, Query(header, labels, 1, qclass, extra), depth);
            && reply.Answer?
            && if EndsWith(StripDots(Lower(Join(labels))), domain) then
                 Answers(reply.bytes, header[0..2], q, Join(labels), 1, localIp, depth)
               else Denies(reply.bytes, header[0..2], q)
  {
    QueryParts(header, labels, TYPE_A, qclass, extra, depth);
    RecordAnswers(header[0..2], labels, TYPE_A, qclass, TYPE_A, localIp, depth);
    NxDomainDenies(header[0..2], Question(labels, TYPE_A, qclass));
  }

  // Every other type but PTR: NXDOMAIN.
  lemma OtherTypesDenied(domain: string, localIp: Quad, header: seq<byte>, labels: seq<string>, qtype: word, qclass: word,
                         extra: seq<byte>, depth: nat)
    requires Asks(header) && Good(labels) && qtype != 1 && qtype != 12
    ensures var reply := ReplyTo(domain, localIp, Query(header, labels, qtype, qclass, extra), depth);
            reply.Answer? && Denies(reply.bytes, header[0..2], Question(labels, qtype, qclass))
  {
    QueryParts(header, labels, qtype, qclass, extra, depth);
    NxDomainDenies(header[0..2], Question(labels, qtype, qclass));
  }

  // ---------------------------------------------------------------------
  // Broken queries
  // ---------------------------------------------------------------------

  // Cut short anywhere, a query gets no answer.
  lemma CutQuerySilent(domain: string, localIp: Quad, header: seq<byte>, labels: seq<string>, qtype: word, qclass: word, n: nat, depth: nat)
    requires Asks(header) && Good(labels) && n < |header + Question(labels, qtype, qclass)|
    ensures ReplyTo(domain, localIp, (header + Question(labels, qtype, qclass))[..n], depth) == Silent
  {
    var e := EncodeLabels(labels);
    var tail := Be16(qtype) + Be16(qclass);
    var data := (header + Question(labels, qtype, qclass))[..n];
    if n >= 12 {
      assert data[4] == header[4] && data[5] == header[5];
      if n < 12 + |e| {
        assert data[12..] == e[..n - 12];
        DecodeCutShort(data, 12, labels, [], depth);
      } else {
        assert data == header + (e + tail[..n - 12 - |e|]);
        assert Lies(data, 12, e);
        DecodeLabels(data, 12, labels, [], depth);
      }
    }
  }

  // A name that points to itself makes the handler raise.
  lemma SelfPointerFails(domain: string, localIp: Quad, header: seq<byte>, extra: seq<byte>, depth: nat)
    requires Asks(header)
    ensures ReplyTo(domain, localIp, header + ([0xC0, 12] + extra), depth) == Failure
  {
    var data := header + ([0xC0, 12] + extra);
    assert data[4] == header[4] && data[5] == header[5];
    assert data[12..14] == [0xC0, 12] == Be16(0xC00C);
    SelfPointerRaises(data, 12, [], depth);
  }

  // ---------------------------------------------------------------------
  // PTR queries
  // ---------------------------------------------------------------------

  // What a name is read as for the reverse search: its labels lowered.
  function LowerAll(labels: seq<string>): seq<string> {
    seq(|labels|, i requires 0 <= i < |labels| => Lower(labels[i]))
  }

  lemma {:induction false} LowerJoin(labels: seq<string>)
    ensures Lower(Join(labels)) == Join(LowerAll(labels))
  {
    if |labels| > 1 {
      LowerJoin(labels[1..]);
      assert LowerAll(labels)[1..] == LowerAll(labels[1..]);
      LowerConcat(labels[0], Join(labels[1..]));
    }
  }

  lemma LowerConcat(a: string, b: string)
    ensures Lower(a + "." + b) == Lower(a) + "." + Lower(b)
  {
    var low := Lower(a + "." + b);
    assert forall i :: 0 <= i < |b| ==> (a + "." + b)[|a| + 1 + i] == b[i];
    assert low == Lower(a) + "." + Lower(b);
  }

  lemma LowerGood(labels: seq<string>)
    requires Good(labels)
    ensures Good(LowerAll(labels))
  {
    forall k | 0 <= k < |labels|
      ensures Encodable(LowerAll(labels)[k]) && 1 <= |LowerAll(labels)[k]| < 0xC0 && DotFree(LowerAll(labels)[k])
    {
      LowerLabel(labels[k]);
    }
  }

  lemma LowerLabel(lbl: string)
    requires IsAscii(lbl) && DotFree(lbl)
    ensures IsAscii(Lower(lbl)) && DotFree(Lower(lbl)) && |Lower(lbl)| == |lbl|
  {
    forall i | 0 <= i < |lbl| ensures Lower(lbl)[i] as int < 0x80 && Lower(lbl)[i] != '.' {
      assert Lower(lbl)[i] == LowerChar(lbl[i]);
    }
  }

  lemma StripNothing(s: string)
    requires s != [] && s[|s| - 1] != '.'
    ensures StripDots(s) == s
  {
  }

  // The text searched for is that of the first four labels, backwards.
  function Backwards(labels: seq<string>): string
    requires |labels| >= 4
  {
    Join([Lower(labels[3]), Lower(labels[2]), Lower(labels[1]), Lower(labels[0])])
  }

  lemma ReverseOf(labels: seq<string>)
    requires Good(labels)
    ensures ReverseAddress(Join(labels)) ==
            if |labels| >= 4 && Contains(Join(labels), "in-addr") then Some(Backwards(labels)) else None
  {
    var low := LowerAll(labels);
    LowerJoin(labels);
    LowerGood(labels);
    LastNotDot(low);
    StripNothing(Join(low));
    SplitJoin(low);
  }

  lemma BackwardsText(labels: seq<string>)
    requires Good(labels) && |labels| >= 4
    ensures IsAscii(Backwards(labels))
    ensures |Backwards(labels)| == |labels[0]| + |labels[1]| + |labels[2]| + |labels[3]| + 3
  {
    LowerLabel(labels[0]);
    LowerLabel(labels[1]);
    LowerLabel(labels[2]);
    LowerLabel(labels[3]);
    JoinFourText(Lower(labels[3]), Lower(labels[2]), Lower(labels[1]), Lower(labels[0]));
  }

  lemma JoinFourText(a: string, b: string, c: string, d: string)
    requires IsAscii(a) && IsAscii(b) && IsAscii(c) && IsAscii(d)
    ensures IsAscii(Join([a, b, c, d])) && |Join([a, b, c, d])| == |a| + |b| + |c| + |d| + 3
  {
    JoinFour(a, b, c, d);
    AsciiDot(c, d);
    AsciiDot(b, c + "." + d);
    AsciiDot(a, b + "." + (c + "." + d));
  }

  lemma AsciiDot(a: string, b: string)
    requires IsAscii(a) && IsAscii(b)
    ensures IsAscii(a + "." + b) && |a + "." + b| == |a| + |b| + 1
  {
    var s := a + "." + b;
    forall i | 0 <= i < |s| ensures s[i] as int < 0x80 {
      if i > |a| {
        assert s[i] == b[i - |a| - 1];
      }
    }
  }

  lemma JoinFour(a: string, b: string, c: string, d: string)
    ensures Join([a, b, c, d]) == a + "." + (b + "." + (c + "." + d))
  {
    assert [c, d][1..] == [d];
    assert Join([c, d]) == c + "." + d;
    assert [b, c, d][1..] == [c, d];
    assert Join([b, c, d]) == b + "." + (c + "." + d);
    assert [a, b, c, d][1..] == [b, c, d];
  }

  // The made-up label is 5 characters longer than the text of the address.
  lemma HostLabelText(ip: string)
    requires IsAscii(ip)
    ensures IsAscii(HostLabel(ip)) && DotFree(HostLabel(ip)) && |HostLabel(ip)| == 5 + |ip|
    ensures HostLabel(ip)[0] == 'h' && forall i :: 0 <= i < |ip| ==> HostLabel(ip)[5 + i] == if ip[i] == '.' then '-' else ip[i]
  {
    var lbl := HostLabel(ip);
    var tail := Replace(ip, '.', '-');
    forall i | 0 <= i < |lbl| ensures lbl[i] as int < 0x80 && lbl[i] != '.' {
      if i >= 5 {
        assert lbl[i] == tail[i - 5];
      } else {
        assert lbl[i] == "host-"[i];
      }
    }
  }

  // When the first label is short enough for its length byte, and when it can
  // be told from a pointer.
  lemma HostEncodes(first: string, domain: string)
    requires IsAscii(first) && DotFree(first) && first != []
    ensures Split(Host(first, domain)) == [first] + Split(domain)
    ensures AllEncodable(Split(Host(first, domain))) <==> |first| < 0x100 && AllEncodable(Split(domain))
    ensures Readable(Split(Host(first, domain))) <==> |first| < 0xC0 && Readable(Split(domain))
  {
    HostSplit(first, domain, "." + domain);
    ConsEncodes(first, Split(domain), Split(Host(first, domain)));
  }

  lemma ConsEncodes(first: string, rest: seq<string>, labels: seq<string>)
    requires labels == [first] + rest
    ensures AllEncodable(labels) <==> Encodable(first) && AllEncodable(rest)
    ensures Readable(labels) <==> 1 <= |first| < 0xC0 && Readable(rest)
  {
    assert labels[0] == first && forall k :: 0 <= k < |rest| ==> labels[k + 1] == rest[k];
  }

  // The first label of the host name given for an address.
  function Leading(localIp: Quad, ip: string): string {
    if Dotted(localIp) == ip then COMPANION else HostLabel(ip)
  }

  lemma LeadingText(localIp: Quad, domain: string, ip: string)
    requires IsAscii(ip)
    ensures HostFor(domain, localIp, ip) == Host(Leading(localIp, ip), domain)
    ensures IsAscii(Leading(localIp, ip)) && DotFree(Leading(localIp, ip)) && Leading(localIp, ip) != []
    ensures |Leading(localIp, ip)| < 0x100 <==> ip == Dotted(localIp) || |ip| <= 250
    ensures |Leading(localIp, ip)| < 0xC0 <==> ip == Dotted(localIp) || |ip| <= 186
  {
    HostLabelText(ip);
    assert |COMPANION| == 9 && IsAscii(COMPANION) && DotFree(COMPANION);
  }

  // Every PTR query for a reversed address, whatever the domain. The address
  // goes into one label, so its text decides: with at most 250 characters, or
  // if it is the companion's own, the query is answered, and otherwise the
  // server raises. The host name decodes back up to 186 characters.
  lemma PtrQueryAnswered(domain: string, localIp: Quad, header: seq<byte>, labels: seq<string>, qclass: word, extra: seq<byte>, depth: nat)
    requires Asks(header) && Good(labels) && depth > 0
    requires |labels| >= 4 && Contains(Join(labels), "in-addr")
    ensures var q := Question(labels, 12, qclass);
            var ip := Backwards(labels);
            var host := HostFor(domain, localIp, ip);
            var reply := ReplyTo(domain, localIp, Query(header, labels, 12, qclass, extra), depth);
            && (reply.Answer? <==>
                  AllEncodable(Split(domain)) && (ip == Dotted(localIp) || |ip| <= 250) && |host| + 2 < 0x1_0000)
            && (!reply.Answer? ==> reply == Failure)
            && (reply.Answer? ==>
                  && AllEncodable(Split(host)) && |EncodeLabels(Split(host))| < 0x1_0000
                  && Answers(reply.bytes, header[0..2], q, Join(labels), 12, EncodeLabels(Split(host)), depth)
                  && (DecodeFrom(reply.bytes, 24 + |q|, [], depth) == Name(host, |reply.bytes|) <==>
                        Readable(Split(domain)) && (ip == Dotted(localIp) || |ip| <= 186)))
  {
    var ip := Backwards(labels);
    var host := HostFor(domain, localIp, ip);
    QueryParts(header, labels, TYPE_PTR, qclass, extra, depth);
    ReverseOf(labels);
    BackwardsText(labels);
    LeadingText(localIp, domain, ip);
    HostEncodes(Leading(localIp, ip), domain);
    if AllEncodable(Split(host)) {
      HostLength(host);
      if |host| + 2 < 0x1_0000 {
        HostAnswered(header[0..2], labels, qclass, host, depth);
      }
    }
  }

  lemma HostLength(host: string)
    requires AllEncodable(Split(host))
    ensures |EncodeLabels(Split(host))| == |host| + 2
  {
    JoinSplit(host);
    EncodedLength(Split(host));
  }

  lemma HostAnswered(id: seq<byte>, labels: seq<string>, qclass: word, host: string, depth: nat)
    requires |id| == 2 && Good(labels) && depth > 0
    requires AllEncodable(Split(host)) && |EncodeLabels(Split(host))| < 0x1_0000
    ensures var q := Question(labels, TYPE_PTR, qclass);
            var rdata := EncodeLabels(Split(host));
            var r := WithRecord(id, q, TYPE_PTR, rdata);
            && Answers(r, id, q, Join(labels), TYPE_PTR, rdata, depth)
            && (DecodeFrom(r, 24 + |q|, [], depth) == Name(host, |r|) <==> Readable(Split(host)))
  {
    var rdata := EncodeLabels(Split(host));
    RecordAnswers(id, labels, TYPE_PTR, qclass, TYPE_PTR, rdata, depth);
    var r := WithRecord(id, Question(labels, TYPE_PTR, qclass), TYPE_PTR, rdata);
    var n := |r| - |rdata|;
    assert r == r[..n] + rdata + [];
    NameRoundTrip(r[..n], host, [], depth);
  }

  // A question within the limits of RFC 1035 on which the server raises.
  lemma LongReverseNameFails(domain: string, localIp: Quad, header: seq<byte>, qclass: word, extra: seq<byte>, depth: nat)
    requires Asks(header) && depth > 0
    ensures exists labels ::
              && Good(labels) && (forall k :: 0 <= k < |labels| ==> |labels[k]| <= 63) && |Join(labels)| <= 253
              && ReplyTo(domain, localIp, Query(header, labels, 12, qclass, extra), depth) == Failure
  {
    var first := "in-addr" + seq(56, _ => 'a');
    var labels := [first, seq(63, _ => 'a'), seq(63, _ => 'a'), seq(61, _ => 'a')];
    forall k | 0 <= k < 4 ensures Plain(labels[k]) {
      LongLabelPlain(labels[k], first);
    }
    PlainLabels(labels);
    JoinFour(labels[0], labels[1], labels[2], labels[3]);
    assert Join(labels)[..7] == "in-addr";
    assert At(Join(labels), 0, "in-addr");
    BackwardsText(labels);
    DottedText(localIp);
    PtrQueryAnswered(domain, localIp, header, labels, qclass, extra, depth);
  }

  lemma LongLabelPlain(lbl: string, first: string)
    requires first == "in-addr" + seq(56, _ => 'a')
    requires lbl == first || (1 <= |lbl| <= 63 && forall i :: 0 <= i < |lbl| ==> lbl[i] == 'a')
    ensures Plain(lbl)
  {
    if lbl == first {
      forall i | 0 <= i < |lbl| ensures '-' == lbl[i] || '0' <= lbl[i] <= '9' || 'a' <= lbl[i] <= 'z' {
        if i < 7 {
          assert lbl[i] == "in-addr"[i];
        }
      }
    }
  }

  // A name of fewer than four labels, or one without "in-addr" in it.
  lemma PtrElsewhere(domain: string, localIp: Quad, header: seq<byte>, labels: seq<string>, qclass: word, extra: seq<byte>, depth: nat)
    requires Asks(header) && Good(labels)
    requires |labels| < 4 || !Contains(Join(labels), "in-addr")
    ensures var reply := ReplyTo(domain, localIp, Query(header, labels, 12, qclass, extra), depth);
            reply.Answer? && Denies(reply.bytes, header[0..2], Question(labels, 12, qclass))
  {
    QueryParts(header, labels, TYPE_PTR, qclass, extra, depth);
    ReverseOf(labels);
    NxDomainDenies(header[0..2], Question(labels, TYPE_PTR, qclass));
  }

  // ---------------------------------------------------------------------
  // The companion's own address, there and back
  // ---------------------------------------------------------------------

  // d.c.b.a.in-addr.arpa
  function ReverseLabels(q: Quad): seq<string> {
    [Decimal(q[3]), Decimal(q[2]), Decimal(q[1]), Decimal(q[0]), "in-addr", "arpa"]
  }

  lemma DecimalText(b: byte)
    ensures var t := Decimal(b); 1 <= |t| <= 3 && forall i :: 0 <= i < |t| ==> '0' <= t[i] <= '9'
  {
  }

  // Decimal digits and lower-case letters are what names here are made of.
  ghost predicate Plain(t: string) {
    1 <= |t| < 0xC0 && forall i :: 0 <= i < |t| ==> '-' == t[i] || '0' <= t[i] <= '9' || 'a' <= t[i] <= 'z'
  }

  lemma PlainLabels(labels: seq<string>)
    requires |labels| > 0 && forall k :: 0 <= k < |labels| ==> Plain(labels[k])
    ensures Good(labels)
  {
    forall k | 0 <= k < |labels| ensures Encodable(labels[k]) && 1 <= |labels[k]| < 0xC0 && DotFree(labels[k]) {
      assert Plain(labels[k]);
    }
  }

  lemma ReversePlain(q: Quad)
    ensures forall k :: 0 <= k < 6 ==> Plain(ReverseLabels(q)[k])
  {
    DecimalText(q[0]);
    DecimalText(q[1]);
    DecimalText(q[2]);
    DecimalText(q[3]);
  }

  lemma HasInAddr(labels: seq<string>)
    requires |labels| == 6 && labels[4] == "in-addr"
    ensures Contains(Join(labels), "in-addr")
  {
    var tail := Join(labels[4..]);
    assert labels[4..][0] == "in-addr" && |labels[4..]| == 2;
    assert tail[..7] == "in-addr";
    JoinTail(labels, 4);
    var s := Join(labels);
    var at := |s| - |tail|;
    assert s[at..at + 7] == s[at..][..7];
    assert At(s, at, "in-addr");
  }

  lemma {:induction false} JoinTail(labels: seq<string>, k: nat)
    requires k < |labels|
    ensures EndsWith(Join(labels), Join(labels[k..]))
  {
    if k == 0 {
      assert labels[0..] == labels;
    } else {
      JoinTail(labels[1..], k - 1);
      assert labels[1..][k - 1..] == labels[k..];
      var s := Join(labels);
      assert s[|labels[0]| + 1..] == Join(labels[1..]);
      assert EndsWith(s, Join(labels[1..]));
      SuffixOfSuffix(s, Join(labels[1..]), Join(labels[k..]));
    }
  }

  lemma DomainEnd(domain: string, labels: seq<string>)
    requires Good(labels) && Join(labels) == domain
    ensures |domain| > 0 && domain[|domain| - 1] != '.'
  {
    LastNotDot(labels);
  }

  lemma HostSplit(first: string, domain: string, tail: string)
    requires DotFree(first) && tail == "." + domain
    ensures Split(first + tail) == [first] + Split(domain)
  {
    assert tail[1..] == domain;
    SplitPrefix(first, tail);
  }

  lemma {:induction false} LastNotDot(labels: seq<string>)
    requires Good(labels)
    ensures Join(labels) != [] && Join(labels)[|Join(labels)| - 1] != '.'
  {
    assert DotFree(labels[0]);
    if |labels| > 1 {
      assert Good(labels[1..]);
      LastNotDot(labels[1..]);
      var rest := Join(labels[1..]);
      var s := labels[0] + "." + rest;
      assert s[|s| - 1] == rest[|rest| - 1];
    }
  }

  // A host of the domain is found by an A query exactly when the configured
  // domain is all lower case: queries are lowered, records are not.
  lemma HostFound(first: string, domain: string)
    requires |domain| > 0 && domain[|domain| - 1] != '.'
    ensures EndsWith(StripDots(Lower(Host(first, domain))), domain) <==> Lower(domain) == domain
  {
    var s := Host(first, domain);
    var low := Lower(s);
    assert low[|first| + 1..] == Lower(domain);
    assert s[|s| - 1] == domain[|domain| - 1];
    assert StripDots(low) == low;
  }

  // The first four labels of a reverse name read, backwards, as an address.
  ghost predicate Names(labels: seq<string>, address: Quad) {
    |labels| >= 4 && Spell([labels[3], labels[2], labels[1], labels[0]], address)
  }

  // Every address has such a name, its usual one.
  lemma ReverseNameGood(q: Quad)
    ensures var labels := ReverseLabels(q); Good(labels) && Names(labels, q) && Contains(Join(labels), "in-addr")
  {
    DecimalParts(q);
    ReversePlain(q);
    PlainLabels(ReverseLabels(q));
    HasInAddr(ReverseLabels(q));
  }

  // The text such a name is read back to reads as the address.
  lemma ReverseAddressIs(labels: seq<string>, q: Quad)
    requires Good(labels) && Names(labels, q) && Contains(Join(labels), "in-addr")
    ensures var ip := ReverseAddress(Join(labels)); ip.Some? && Spell(Split(ip.value), q)
  {
    ReverseOf(labels);
    NamesBackwards(labels, q);
    DottedReads(q);
  }

  // The labels are the decimal texts of the bytes.
  lemma NamesBackwards(labels: seq<string>, address: Quad)
    requires Names(labels, address)
    ensures Backwards(labels) == Dotted(address)
  {
    var parts := [labels[3], labels[2], labels[1], labels[0]];
    SpellIsDotted(parts, address);
    DigitsLow(parts[0]);
    DigitsLow(parts[1]);
    DigitsLow(parts[2]);
    DigitsLow(parts[3]);
  }

  lemma DigitsLow(t: string)
    requires Digits(t)
    ensures Lower(t) == t
  {
  }

  // The name for an address: the companion's own, or one made of its parts.
  function NameFor(domain: string, localIp: Quad, labels: seq<string>, address: Quad): string
    requires |labels| >= 4
  {
    (if address == localIp then "companion"
     else "host-" + labels[3] + "-" + labels[2] + "-" + labels[1] + "-" + labels[0]) + "." + domain
  }

  lemma HostIsName(domain: string, localIp: Quad, labels: seq<string>, address: Quad)
    requires Names(labels, address)
    ensures HostFor(domain, localIp, Dotted(address)) == NameFor(domain, localIp, labels, address)
  {
    DottedInjective(localIp, address);
    NamesBackwards(labels, address);
    if address != localIp {
      var parts := [labels[3], labels[2], labels[1], labels[0]];
      assert forall k :: 0 <= k < 4 ==> Canonical(parts[k]);
      SpellIsDotted(parts, address);
      Dashes(labels[3], labels[2], labels[1], labels[0]);
      FirstThenDomain("host-", labels, domain);
    } else {
      assert Host(COMPANION, domain) == "companion" + "." + domain;
    }
  }

  lemma FirstThenDomain(first: string, labels: seq<string>, domain: string)
    requires |labels| >= 4
    ensures var dashed := labels[3] + "-" + (labels[2] + "-" + (labels[1] + "-" + labels[0]));
            Host(first + dashed, domain) == first + labels[3] + "-" + labels[2] + "-" + labels[1] + "-" + labels[0] + "." + domain
  {
  }

  lemma Dashes(a: string, b: string, c: string, d: string)
    requires Digits(a) && Digits(b) && Digits(c) && Digits(d)
    ensures Replace(Join([a, b, c, d]), '.', '-') == a + "-" + (b + "-" + (c + "-" + d))
  {
    JoinFour(a, b, c, d);
    Dash(c, d, d);
    Dash(b, c + "." + d, c + "-" + d);
    Dash(a, b + "." + (c + "." + d), b + "-" + (c + "-" + d));
  }

  lemma Dash(a: string, rest: string, dashed: string)
    requires Digits(a) && (Replace(rest, '.', '-') == dashed || (rest == dashed && Digits(rest)))
    ensures Replace(a + "." + rest, '.', '-') == a + "-" + dashed
  {
    var s := a + "." + rest;
    var r := Replace(s, '.', '-');
    forall i | 0 <= i < |s| ensures r[i] == (a + "-" + dashed)[i] {
      if i > |a| {
        assert s[i] == rest[i - |a| - 1];
        assert (Digits(rest) && rest == dashed) || dashed[i - |a| - 1] == Replace(rest, '.', '-')[i - |a| - 1];
      }
    }
  }

  // PTR for any address, then A for the name that came back: every address has
  // its name, and every such name stands for the companion. The question is
  // any whose first four labels read, backwards, as the address.
  lemma AddressRoundTrip(domain: string, localIp: Quad, address: Quad, labels: seq<string>, h1: seq<byte>, h2: seq<byte>, qclass: word,
                         extra: seq<byte>, depth: nat)
    requires Asks(h1) && Asks(h2) && Good(Split(domain)) && |domain| < 0xFF00 && depth > 0
    requires Good(labels) && Names(labels, address) && Contains(Join(labels), "in-addr")
    ensures var host := NameFor(domain, localIp, labels, address);
            var q1 := Question(labels, 12, qclass);
            var r1 := ReplyTo(domain, localIp, Query(h1, labels, 12, qclass, extra), depth);
            && r1.Answer?
            && DecodeFrom(r1.bytes, 24 + |q1|, [], depth) == Name(host, |r1.bytes|)
            && Good(Split(host))
            && var q2 := Question(Split(host), 1, qclass);
               var r2 := ReplyTo(domain, localIp, Query(h2, Split(host), 1, qclass, extra), depth);
            && r2.Answer?
            && if Lower(domain) == domain then Answers(r2.bytes, h2[0..2], q2, host, 1, localIp, depth)
               else Denies(r2.bytes, h2[0..2], q2)
  {
    var host := HostFor(domain, localIp, Dotted(address));
    HostIsName(domain, localIp, labels, address);
    AddressNamed(domain, localIp, address, labels, h1, qclass, extra, depth);
    JoinSplit(host);
    AQueryAnswered(domain, localIp, h2, Split(host), qclass, extra, depth);
    JoinSplit(domain);
    DomainEnd(domain, Split(domain));
    HostFound(Leading(localIp, Dotted(address)), domain);
  }

  // The PTR query for any address is answered, and its host name decodes.
  lemma AddressNamed(domain: string, localIp: Quad, address: Quad, labels: seq<string>, header: seq<byte>, qclass: word,
                     extra: seq<byte>, depth: nat)
    requires Asks(header) && Good(Split(domain)) && |domain| < 0xFF00 && depth > 0
    requires Good(labels) && Names(labels, address) && Contains(Join(labels), "in-addr")
    ensures Named(domain, localIp, labels, Dotted(address), header, qclass, extra, depth)
  {
    NamesBackwards(labels, address);
    DottedText(address);
    ShortNamed(domain, localIp, labels, Dotted(address), header, qclass, extra, depth);
  }

  ghost predicate Named(domain: string, localIp: Quad, labels: seq<string>, ip: string, header: seq<byte>, qclass: word, extra: seq<byte>,
                        depth: nat)
    requires AllEncodable(labels)
  {
    var host := HostFor(domain, localIp, ip);
    var r := ReplyTo(domain, localIp, Query(header, labels, 12, qclass, extra), depth);
    && r.Answer? && DecodeFrom(r.bytes, 24 + |Question(labels, 12, qclass)|, [], depth) == Name(host, |r.bytes|)
    && Good(Split(host)) && host == Host(Leading(localIp, ip), domain)
  }

  lemma ShortNamed(domain: string, localIp: Quad, labels: seq<string>, ip: string, header: seq<byte>, qclass: word, extra: seq<byte>,
                   depth: nat)
    requires Asks(header) && Good(Split(domain)) && |domain| < 0xFF00 && depth > 0
    requires Good(labels) && |labels| >= 4 && Contains(Join(labels), "in-addr") && ip == Backwards(labels)
    requires |ip| <= 15 && IsAscii(ip)
    ensures Named(domain, localIp, labels, ip, header, qclass, extra, depth)
  {
    HostGood(domain, localIp, ip);
    PtrQueryAnswered(domain, localIp, header, labels, qclass, extra, depth);
  }

  lemma HostGood(domain: string, localIp: Quad, ip: string)
    requires Good(Split(domain)) && IsAscii(ip) && |ip| <= 15
    ensures var host := HostFor(domain, localIp, ip);
            Good(Split(host)) && host == Host(Leading(localIp, ip), domain) && |host| <= |domain| + 21
  {
    LeadingText(localIp, domain, ip);
    HostEncodes(Leading(localIp, ip), domain);
    JoinSplit(HostFor(domain, localIp, ip));
    HostLabelText(ip);
  }

  lemma DottedText(q: Quad)
    ensures |Dotted(q)| <= 15 && IsAscii(Dotted(q))
  {
    JoinFour(Decimal(q[0]), Decimal(q[1]), Decimal(q[2]), Decimal(q[3]));
    DecimalText(q[0]);
    DecimalText(q[1]);
    DecimalText(q[2]);
    DecimalText(q[3]);
  }

  // PTR for the companion's own address, then A for the name it returned. The
  // name is the companion's own for no other address.
  lemma OwnAddressRoundTrip(domain: string, localIp: Quad, labels: seq<string>, h1: seq<byte>, h2: seq<byte>, qclass: word,
                            extra: seq<byte>, depth: nat)
    requires Asks(h1) && Asks(h2) && Good(Split(domain)) && |domain| < 0xFF00 && depth > 0
    requires Good(labels) && Names(labels, localIp) && Contains(Join(labels), "in-addr")
    ensures var host := "companion" + "." + domain;
            var q1 := Question(labels, 12, qclass);
            var r1 := ReplyTo(domain, localIp, Query(h1, labels, 12, qclass, extra), depth);
            && r1.Answer?
            && DecodeFrom(r1.bytes, 24 + |q1|, [], depth) == Name(host, |r1.bytes|)
            && Good(Split(host))
            && var q2 := Question(Split(host), 1, qclass);
               var r2 := ReplyTo(domain, localIp, Query(h2, Split(host), 1, qclass, extra), depth);
            && r2.Answer?
            && if Lower(domain) == domain then Answers(r2.bytes, h2[0..2], q2, host, 1, localIp, depth)
               else Denies(r2.bytes, h2[0..2], q2)
  {
    AddressRoundTrip(domain, localIp, localIp, labels, h1, h2, qclass, extra, depth);
  }
}
