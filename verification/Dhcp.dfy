// The companion's built-in DHCP server: the option walk over a request and
// the reply it builds (RFC 2132, sections 2, 3 and 9.6).
module Dhcp {
  import opened Bytes

  type Quad = s: seq<byte> | |s| == 4 witness [0, 0, 0, 0]

  const OPTIONS_START := 240
  const MESSAGE_TYPE: byte := 53
  const END: byte := 0xFF
  const COOKIE: seq<byte> := [0x63, 0x82, 0x53, 0x63]

  // ---------------------------------------------------------------------
  // Option lists
  // ---------------------------------------------------------------------

  datatype Opt = Pad | Opt(code: byte, value: seq<byte>)

  ghost predicate WellFormed(o: Opt) {
    o.Opt? ==> 0 < o.code < END && |o.value| < 0x100
  }

  ghost predicate AllWellFormed(os: seq<Opt>) {
    forall k :: 0 <= k < |os| ==> WellFormed(os[k])
  }

  ghost function EncodeOption(o: Opt): seq<byte>
    requires WellFormed(o)
  {
    if o.Pad? then [0] else [o.code, |o.value|] + o.value
  }

  ghost function EncodeOptions(os: seq<Opt>): seq<byte>
    requires AllWellFormed(os)
  {
    if |os| == 0 then [] else EncodeOption(os[0]) + EncodeOptions(os[1..])
  }

  // The value of the first one-byte option 53, or 0.
  ghost function FirstType(os: seq<Opt>): byte {
    if |os| == 0 then 0
    else if os[0].Opt? && os[0].code == MESSAGE_TYPE && |os[0].value| == 1 then os[0].value[0]
    else FirstType(os[1..])
  }

  lemma {:induction false} FirstTypeIsFirst(os: seq<Opt>, k: nat)
    requires k < |os| && os[k].Opt? && os[k].code == MESSAGE_TYPE && |os[k].value| == 1
    requires forall j :: 0 <= j < k ==> !(os[j].Opt? && os[j].code == MESSAGE_TYPE && |os[j].value| == 1)
    ensures FirstType(os) == os[k].value[0]
  {
    if k > 0 {
      FirstTypeIsFirst(os[1..], k - 1);
    }
  }

  lemma {:induction false} FirstTypeNone(os: seq<Opt>)
    requires forall j :: 0 <= j < |os| ==> !(os[j].Opt? && os[j].code == MESSAGE_TYPE && |os[j].value| == 1)
    ensures FirstType(os) == 0
  {
    if os != [] {
      FirstTypeNone(os[1..]);
    }
  }

  // ---------------------------------------------------------------------
  // The walk
  // ---------------------------------------------------------------------

  // What the walk returns from offset `i` on, for any bytes at all.
  function Walk(data: seq<byte>, i: nat): byte
    decreases |data| - i
  {
    if i + 2 >= |data| || data[i] == END then 0
    else if data[i] == 0 then Walk(data, i + 1)
    else if data[i] == MESSAGE_TYPE && data[i + 1] == 1 then data[i + 2]
    else Walk(data, i + 2 + data[i + 1])
  }

  method GetMessageType(data: seq<byte>) returns (t: byte)
    ensures t == Walk(data, OPTIONS_START)
  {
    var i: nat := OPTIONS_START;
    while i < |data| - 2
      invariant Walk(data, OPTIONS_START) == Walk(data, i)
      decreases |data| - i
    {
      var opt := data[i];
      if opt == END {
        break;
      }
      if opt == 0 {
        i := i + 1;
        continue;
      }
      var length := data[i + 1];
      if opt == MESSAGE_TYPE && length == 1 {
        return data[i + 2];
      }
      i := i + 2 + length;
    }
    t := 0;
  }

  ghost predicate EndsList(tail: seq<byte>) {
    tail == [] || tail[0] == END
  }

  // The bytes from `i` on are these.
  ghost predicate Rest(data: seq<byte>, i: nat, rest: seq<byte>) {
    Lies(data, i, rest) && i + |rest| == |data|
  }

  lemma OneOption(data: seq<byte>, i: nat, o: Opt, rest: seq<byte>)
    requires WellFormed(o) && Rest(data, i, EncodeOption(o) + rest)
    ensures Rest(data, i + |EncodeOption(o)|, rest)
    ensures if o.Opt? && o.code == MESSAGE_TYPE && |o.value| == 1 then Walk(data, i) == o.value[0]
            else Walk(data, i) == Walk(data, i + |EncodeOption(o)|)
  {
    var e := EncodeOption(o);
    LiesParts(data, i, e, rest);
    assert e[0] == data[i + 0];
    if o.Opt? {
      assert e[1] == data[i + 1] == |o.value|;
      if |o.value| > 0 {
        assert e[2] == data[i + 2] == o.value[0];
      }
    }
  }

  lemma TailWellFormed(os: seq<Opt>)
    requires AllWellFormed(os) && |os| > 0
    ensures WellFormed(os[0]) && AllWellFormed(os[1..])
  {
  }

  lemma {:induction false} WalkList(data: seq<byte>, i: nat, os: seq<Opt>, tail: seq<byte>)
    requires AllWellFormed(os) && EndsList(tail) && Rest(data, i, EncodeOptions(os) + tail)
    ensures Walk(data, i) == FirstType(os)
    decreases |os|
  {
    if |os| == 0 {
      assert EncodeOptions(os) + tail == tail;
      ListEnds(data, i, tail);
    } else {
      var rest := EncodeOptions(os[1..]) + tail;
      TailWellFormed(os);
      Regroup(EncodeOption(os[0]), EncodeOptions(os[1..]), tail);
      OneOption(data, i, os[0], rest);
      WalkList(data, i + |EncodeOption(os[0])|, os[1..], tail);
    }
  }

  lemma ListEnds(data: seq<byte>, i: nat, tail: seq<byte>)
    requires EndsList(tail) && Rest(data, i, tail)
    ensures Walk(data, i) == 0
  {
    assert |tail| > 0 ==> tail[0] == data[i + 0];
  }

  // On every well-formed message, with or without END and whatever follows it.
  lemma WalkFindsType(header: seq<byte>, os: seq<Opt>, tail: seq<byte>)
    requires |header| == OPTIONS_START && AllWellFormed(os) && EndsList(tail)
    ensures Walk(header + EncodeOptions(os) + tail, OPTIONS_START) == FirstType(os)
  {
    var data := header + EncodeOptions(os) + tail;
    assert data == header + (EncodeOptions(os) + tail);
    assert Rest(data, OPTIONS_START, EncodeOptions(os) + tail);
    WalkList(data, OPTIONS_START, os, tail);
  }

  // ---------------------------------------------------------------------
  // How a client looks an option up
  // ---------------------------------------------------------------------

  // The value of the first option of this code from offset `i` on (section 2
  // of RFC 2132).
  function Lookup(data: seq<byte>, i: nat, code: byte): Option<seq<byte>>
    decreases |data| - i
  {
    if i >= |data| || data[i] == END then None
    else if data[i] == 0 then Lookup(data, i + 1, code)
    else if i + 2 > |data| || i + 2 + data[i + 1] > |data| then None
    else if data[i] == code then Some(data[i + 2..i + 2 + data[i + 1]])
    else Lookup(data, i + 2 + data[i + 1], code)
  }

  ghost function FirstOption(os: seq<Opt>, code: byte): Option<seq<byte>> {
    if |os| == 0 then None
    else if os[0].Opt? && os[0].code == code then Some(os[0].value)
    else FirstOption(os[1..], code)
  }

  lemma OptionSeen(data: seq<byte>, i: nat, o: Opt, rest: seq<byte>, code: byte)
    requires WellFormed(o) && Rest(data, i, EncodeOption(o) + rest) && 0 < code < END
    ensures Rest(data, i + |EncodeOption(o)|, rest)
    ensures Lookup(data, i, code) ==
            if o.Opt? && o.code == code then Some(o.value) else Lookup(data, i + |EncodeOption(o)|, code)
  {
    var e := EncodeOption(o);
    LiesParts(data, i, e, rest);
    assert e[0] == data[i + 0];
    if o.Opt? {
      assert e[1] == data[i + 1];
      LiesParts(data, i, [o.code, |o.value|], o.value);
      LiesSlice(data, i + 2, o.value);
    }
  }

  // On every well-formed list it is the first option of that code.
  lemma {:induction false} LookupList(data: seq<byte>, i: nat, os: seq<Opt>, tail: seq<byte>, code: byte)
    requires AllWellFormed(os) && EndsList(tail) && Rest(data, i, EncodeOptions(os) + tail) && 0 < code < END
    ensures Lookup(data, i, code) == FirstOption(os, code)
    decreases |os|
  {
    if |os| == 0 {
      assert EncodeOptions(os) + tail == tail;
      assert |tail| > 0 ==> tail[0] == data[i + 0];
    } else {
      var rest := EncodeOptions(os[1..]) + tail;
      TailWellFormed(os);
      Regroup(EncodeOption(os[0]), EncodeOptions(os[1..]), tail);
      OptionSeen(data, i, os[0], rest, code);
      LookupList(data, i + |EncodeOption(os[0])|, os[1..], tail, code);
    }
  }

  // ---------------------------------------------------------------------
  // The reply
  // ---------------------------------------------------------------------

  function Zeros(n: nat): seq<byte> {
    seq(n, _ => 0)
  }

  // The fixed part: only these fields are not zero.
  ghost function ReplyHeader(request: seq<byte>, offerIp: Quad, localIp: Quad): seq<byte>
    requires |request| >= 34
  {
    [2, 1, 6, 0] + request[4..8] + Zeros(8) + offerIp + localIp + Zeros(4) + request[28..34] + Zeros(202) + COOKIE
  }

  // Message type, server, lease time, subnet mask, router, name server.
  ghost function ReplyOptions(localIp: Quad, leaseTime: dword, msgType: byte): seq<byte> {
    [MESSAGE_TYPE, 1, msgType] + ([54, 4] + localIp) + ([51, 4] + Be32(leaseTime)) + [1, 4, 255, 255, 255, 0]
    + ([3, 4] + localIp) + ([6, 4] + localIp) + [END]
  }

  ghost function ReplyMessage(request: seq<byte>, offerIp: Quad, localIp: Quad, leaseTime: dword, msgType: byte): seq<byte>
    requires |request| >= 34
  {
    ReplyHeader(request, offerIp, localIp) + ReplyOptions(localIp, leaseTime, msgType) + Zeros(26)
  }

  // ---------------------------------------------------------------------
  // What a client reads
  // ---------------------------------------------------------------------

  // A BOOTREPLY for the client's own transaction and hardware address that
  // offers the chosen address; all other fixed fields are zero.
  ghost predicate FieldsShown(r: seq<byte>, request: seq<byte>, offerIp: Quad, localIp: Quad)
    requires |request| >= 34
  {
    && |r| == 300
    && r[0..4] == [2, 1, 6, 0] && r[4..8] == request[4..8] && r[8..16] == Zeros(8)
    && r[16..20] == offerIp && r[20..24] == localIp && r[24..28] == Zeros(4)
    && r[28..34] == request[28..34] && r[34..236] == Zeros(202) && r[236..240] == [0x63, 0x82, 0x53, 0x63]
  }

  // Looking an option up gives the server, the lease time as a number, the
  // mask, the router and the name server.
  ghost predicate OptionsShown(r: seq<byte>, localIp: Quad, leaseTime: dword, msgType: byte) {
    && Lookup(r, 240, 53) == Some([msgType])
    && Lookup(r, 240, 54) == Some(localIp)
    && (match Lookup(r, 240, 51)
        case Some(t) => |t| == 4 && t[0] as int * 0x100_0000 + t[1] as int * 0x1_0000 + t[2] as int * 0x100 + t[3] == leaseTime
        case None => false)
    && Lookup(r, 240, 1) == Some([255, 255, 255, 0])
    && Lookup(r, 240, 3) == Some(localIp) && Lookup(r, 240, 6) == Some(localIp)
  }

  // The walk of the server's own kind finds the message type again.
  lemma ReplyReadsBack(request: seq<byte>, offerIp: Quad, localIp: Quad, leaseTime: dword, msgType: byte)
    requires |request| >= 34
    ensures var r := ReplyMessage(request, offerIp, localIp, leaseTime, msgType);
            && FieldsShown(r, request, offerIp, localIp) && OptionsShown(r, localIp, leaseTime, msgType)
            && Walk(r, OPTIONS_START) == msgType
  {
    var header := ReplyHeader(request, offerIp, localIp);
    var options := ReplyOptions(localIp, leaseTime, msgType);
    HeaderFields(request, offerIp, localIp, header, options + Zeros(26));
    assert header + options + Zeros(26) == header + (options + Zeros(26));
    TypeFirst(header, options + Zeros(26), msgType);
    OptionsLookUp(header, localIp, leaseTime, msgType);
  }

  lemma HeaderFields(request: seq<byte>, offerIp: Quad, localIp: Quad, header: seq<byte>, rest: seq<byte>)
    requires |request| >= 34 && header == ReplyHeader(request, offerIp, localIp) && |rest| == 60
    ensures |header| == OPTIONS_START && FieldsShown(header + rest, request, offerIp, localIp)
  {
    assert header + rest == [2, 1, 6, 0] + (request[4..8] + (Zeros(8) + (offerIp + (localIp + (Zeros(4) + (request[28..34]
                            + (Zeros(202) + (COOKIE + rest))))))));
  }

  lemma ConsOption(o: Opt, os: seq<Opt>, code: byte)
    requires WellFormed(o) && AllWellFormed(os)
    ensures AllWellFormed([o] + os) && EncodeOptions([o] + os) == EncodeOption(o) + EncodeOptions(os)
    ensures FirstOption([o] + os, code) == if o.Opt? && o.code == code then Some(o.value) else FirstOption(os, code)
  {
    assert ([o] + os)[1..] == os;
  }

  // Six options, one after the other.
  ghost function Six(a: Opt, b: Opt, c: Opt, d: Opt, e: Opt, f: Opt): seq<Opt> {
    [a] + ([b] + ([c] + ([d] + ([e] + ([f] + [])))))
  }

  ghost predicate Codes(a: Opt, b: Opt, c: Opt, d: Opt, e: Opt, f: Opt) {
    && a.Opt? && b.Opt? && c.Opt? && d.Opt? && e.Opt? && f.Opt?
    && WellFormed(a) && WellFormed(b) && WellFormed(c) && WellFormed(d) && WellFormed(e) && WellFormed(f)
  }

  lemma {:induction false} SixEncoded(a: Opt, b: Opt, c: Opt, d: Opt, e: Opt, f: Opt, code: byte)
    requires Codes(a, b, c, d, e, f)
    ensures AllWellFormed(Six(a, b, c, d, e, f))
    ensures EncodeOptions(Six(a, b, c, d, e, f)) ==
            EncodeOption(a) + (EncodeOption(b) + (EncodeOption(c) + (EncodeOption(d) + (EncodeOption(e) + EncodeOption(f)))))
    ensures FirstOption(Six(a, b, c, d, e, f), code) ==
            if a.code == code then Some(a.value) else if b.code == code then Some(b.value) else if c.code == code then Some(c.value)
            else if d.code == code then Some(d.value) else if e.code == code then Some(e.value) else if f.code == code then Some(f.value)
            else None
  {
    var none: seq<Opt> := [];
    ConsOption(f, none, code);
    ConsOption(e, [f] + none, code);
    ConsOption(d, [e] + ([f] + none), code);
    ConsOption(c, [d] + ([e] + ([f] + none)), code);
    ConsOption(b, [c] + ([d] + ([e] + ([f] + none))), code);
    ConsOption(a, [b] + ([c] + ([d] + ([e] + ([f] + none)))), code);
    assert EncodeOption(f) + [] == EncodeOption(f);
  }

  // The reply's options as a list.
  ghost function OptionList(localIp: Quad, leaseTime: dword, msgType: byte): seq<Opt> {
    Six(Opt(53, [msgType]), Opt(54, localIp), Opt(51, Be32(leaseTime)), Opt(1, [255, 255, 255, 0]), Opt(3, localIp), Opt(6, localIp))
  }

  lemma ListEncoded(localIp: Quad, leaseTime: dword, msgType: byte, code: byte)
    ensures AllWellFormed(OptionList(localIp, leaseTime, msgType))
    ensures EncodeOptions(OptionList(localIp, leaseTime, msgType)) + [END] == ReplyOptions(localIp, leaseTime, msgType)
    ensures FirstOption(OptionList(localIp, leaseTime, msgType), code) ==
            if code == 53 then Some([msgType]) else if code == 51 then Some(Be32(leaseTime)) else if code == 1 then Some([255, 255, 255, 0])
            else if code in {54, 3, 6} then Some(localIp) else None
  {
    hide EncodeOptions, FirstOption;
    var a, b, c := Opt(53, [msgType]), Opt(54, localIp), Opt(51, Be32(leaseTime));
    var d, e, f := Opt(1, [255, 255, 255, 0]), Opt(3, localIp), Opt(6, localIp);
    SixEncoded(a, b, c, d, e, f, code);
    assert EncodeOption(a) == [MESSAGE_TYPE, 1, msgType] && EncodeOption(d) == [1, 4, 255, 255, 255, 0];
    Flat(EncodeOption(a), EncodeOption(b), EncodeOption(c), EncodeOption(d), EncodeOption(e), EncodeOption(f), [END]);
  }

  lemma Flat(a: seq<byte>, b: seq<byte>, c: seq<byte>, d: seq<byte>, e: seq<byte>, f: seq<byte>, end: seq<byte>)
    ensures a + (b + (c + (d + (e + f)))) + end == a + b + c + d + e + f + end
  {
  }

  lemma OptionFound(header: seq<byte>, localIp: Quad, leaseTime: dword, msgType: byte, code: byte)
    requires |header| == OPTIONS_START && 0 < code < END
    ensures Lookup(header + ReplyOptions(localIp, leaseTime, msgType) + Zeros(26), OPTIONS_START, code) ==
            if code == 53 then Some([msgType]) else if code == 51 then Some(Be32(leaseTime)) else if code == 1 then Some([255, 255, 255, 0])
            else if code in {54, 3, 6} then Some(localIp) else None
  {
    var os := OptionList(localIp, leaseTime, msgType);
    var tail := [END] + Zeros(26);
    var r := header + ReplyOptions(localIp, leaseTime, msgType) + Zeros(26);
    ListEncoded(localIp, leaseTime, msgType, code);
    assert r == header + (EncodeOptions(os) + tail);
    assert Rest(r, OPTIONS_START, EncodeOptions(os) + tail);
    LookupList(r, OPTIONS_START, os, tail, code);
  }

  lemma OptionsLookUp(header: seq<byte>, localIp: Quad, leaseTime: dword, msgType: byte)
    requires |header| == OPTIONS_START
    ensures OptionsShown(header + ReplyOptions(localIp, leaseTime, msgType) + Zeros(26), localIp, leaseTime, msgType)
  {
    OptionFound(header, localIp, leaseTime, msgType, 53);
    OptionFound(header, localIp, leaseTime, msgType, 54);
    OptionFound(header, localIp, leaseTime, msgType, 51);
    OptionFound(header, localIp, leaseTime, msgType, 1);
    OptionFound(header, localIp, leaseTime, msgType, 3);
    OptionFound(header, localIp, leaseTime, msgType, 6);
    Field32(Be32(leaseTime), 0, leaseTime);
  }

  lemma TypeFirst(header: seq<byte>, rest: seq<byte>, msgType: byte)
    requires |header| == OPTIONS_START && |rest| >= 3 && rest[..3] == [MESSAGE_TYPE, 1, msgType]
    ensures Walk(header + rest, OPTIONS_START) == msgType
  {
    var r := header + rest;
    assert r[240] == rest[..3][0] && r[241] == rest[..3][1] && r[242] == rest[..3][2];
  }

  // ---------------------------------------------------------------------
  // Writing it
  // ---------------------------------------------------------------------

  // A slice assignment behind everything assigned so far; the rest is zero.
  method Lay(resp: array<byte>, at: nat, field: seq<byte>, ghost done: seq<byte>)
    requires |done| <= at && at + |field| <= resp.Length
    requires resp[..] == done + Zeros(resp.Length - |done|)
    modifies resp
    ensures resp[..] == done + Zeros(at - |done|) + field + Zeros(resp.Length - at - |field|)
  {
    CopyMem(resp, at, field);
  }

  method BuildResponse(request: seq<byte>, offerIp: Quad, localIp: Quad, leaseTime: dword, msgType: byte) returns (resp: array<byte>)
    requires |request| >= 34
    ensures fresh(resp)
    ensures FieldsShown(resp[..], request, offerIp, localIp) && OptionsShown(resp[..], localIp, leaseTime, msgType)
    ensures resp[..] == ReplyMessage(request, offerIp, localIp, leaseTime, msgType)
  {
    resp := new byte[300](_ => 0);
    FillHeader(resp, request, offerIp, localIp);
    FillOptions(resp, localIp, leaseTime, msgType, ReplyHeader(request, offerIp, localIp));
    ReplyReadsBack(request, offerIp, localIp, leaseTime, msgType);
  }

  method FillHeader(resp: array<byte>, request: seq<byte>, offerIp: Quad, localIp: Quad)
    requires resp.Length == 300 && resp[..] == Zeros(300)
    requires |request| >= 34
    modifies resp
    ensures resp[..] == ReplyHeader(request, offerIp, localIp) + Zeros(60)
  {
    ghost var done: seq<byte> := [];
    Lay(resp, 0, [2, 1, 6, 0], done);
    done := [2, 1, 6, 0];
    assert [] + Zeros(0) + [2, 1, 6, 0] == done;
    Lay(resp, 4, request[4..8], done);
    done := done + request[4..8];
    assert done == [2, 1, 6, 0] + Zeros(0) + request[4..8];
    Lay(resp, 16, offerIp, done);
    done := done + Zeros(8) + offerIp;
    Lay(resp, 20, localIp, done);
    assert done + Zeros(0) == done;
    done := done + localIp;
    Lay(resp, 28, request[28..34], done);
    done := done + Zeros(4) + request[28..34];
    Lay(resp, 236, COOKIE, done);
  }

  // One option right behind those already written.
  method AddOption(resp: array<byte>, at: nat, option: seq<byte>, ghost head: seq<byte>, ghost done: seq<byte>) returns (next: nat)
    requires at == |head| + |done| && at + |option| <= resp.Length
    requires resp[..] == head + done + Zeros(resp.Length - at)
    modifies resp
    ensures next == at + |option| && resp[..] == head + (done + option) + Zeros(resp.Length - next)
  {
    Lay(resp, at, option, head + done);
    next := at + |option|;
    assert head + done + Zeros(0) + option == head + (done + option);
  }

  method FillOptions(resp: array<byte>, localIp: Quad, leaseTime: dword, msgType: byte, ghost head: seq<byte>)
    requires resp.Length == 300 && |head| == OPTIONS_START && resp[..] == head + Zeros(60)
    modifies resp
    ensures resp[..] == head + ReplyOptions(localIp, leaseTime, msgType) + Zeros(26)
  {
    ghost var w: seq<byte> := [];
    assert head + w == head;
    var i := AddOption(resp, OPTIONS_START, [MESSAGE_TYPE, 1, msgType], head, w);
    w := [MESSAGE_TYPE, 1, msgType];
    assert [] + w == w;
    i := AddOption(resp, i, [54, 4] + localIp, head, w);
    w := w + ([54, 4] + localIp);
    i := AddOption(resp, i, [51, 4] + Be32(leaseTime), head, w);
    w := w + ([51, 4] + Be32(leaseTime));
    i := AddOption(resp, i, [1, 4, 255, 255, 255, 0], head, w);
    w := w + [1, 4, 255, 255, 255, 0];
    i := AddOption(resp, i, [3, 4] + localIp, head, w);
    w := w + ([3, 4] + localIp);
    i := AddOption(resp, i, [6, 4] + localIp, head, w);
    w := w + ([6, 4] + localIp);
    i := AddOption(resp, i, [END], head, w);
  }
}
