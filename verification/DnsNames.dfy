// Domain names as DNS messages carry them (sections 3.1 and 4.1.4 of
// RFC 1035) and as the companion's name server reads and writes them.
module DnsNames {
  import opened Bytes

  // ---------------------------------------------------------------------
  // Text
  // ---------------------------------------------------------------------

  function Split(s: string): (r: seq<string>)
    ensures |r| >= 1
  {
    if s == [] then [[]]
    else if s[0] == '.' then [[]] + Split(s[1..])
    else var r := Split(s[1..]); [[s[0]] + r[0]] + r[1..]
  }

  function Join(labels: seq<string>): string {
    if |labels| == 0 then "" else if |labels| == 1 then labels[0] else labels[0] + "." + Join(labels[1..])
  }

  ghost predicate DotFree(lbl: string) {
    forall i :: 0 <= i < |lbl| ==> lbl[i] != '.'
  }

  ghost predicate AllDotFree(labels: seq<string>) {
    forall k :: 0 <= k < |labels| ==> DotFree(labels[k])
  }

  lemma {:induction false} SplitPrefix(lbl: string, s: string)
    requires DotFree(lbl) && (s == [] || s[0] == '.')
    ensures Split(lbl + s) == [lbl] + (if s == [] then [] else Split(s[1..]))
  {
    if lbl == [] {
      assert lbl + s == s;
    } else {
      assert (lbl + s)[1..] == lbl[1..] + s;
      SplitPrefix(lbl[1..], s);
      assert (lbl + s)[0] == lbl[0] != '.';
      assert [lbl[0]] + lbl[1..] == lbl;
    }
  }

  lemma {:induction false} SplitJoin(labels: seq<string>)
    requires |labels| > 0 && AllDotFree(labels)
    ensures Split(Join(labels)) == labels
  {
    if |labels| == 1 {
      SplitPrefix(labels[0], []);
      assert labels[0] + [] == labels[0];
    } else {
      SplitJoin(labels[1..]);
      var s := "." + Join(labels[1..]);
      assert Join(labels) == labels[0] + s;
      assert s[1..] == Join(labels[1..]);
      SplitPrefix(labels[0], s);
    }
  }

  lemma {:induction false} JoinSplit(s: string)
    ensures Join(Split(s)) == s && AllDotFree(Split(s))
  {
    if s != [] {
      JoinSplit(s[1..]);
      var r := Split(s[1..]);
      if s[0] == '.' {
        assert ([[]] + r)[1..] == r;
      } else {
        assert DotFree(r[0]);
        assert ([[s[0]] + r[0]] + r[1..])[1..] == r[1..];
      }
    }
  }

  // bytes.decode("ascii", errors="replace")
  function Ascii(b: seq<byte>): string {
    seq(|b|, i requires 0 <= i < |b| => if b[i] < 0x80 then b[i] as char else '\U{FFFD}')
  }

  predicate IsAscii(s: string) {
    forall i :: 0 <= i < |s| ==> s[i] as int < 0x80
  }

  function ToBytes(s: string): seq<byte>
    requires IsAscii(s)
  {
    seq(|s|, i requires 0 <= i < |s| => s[i] as int)
  }

  lemma AsciiRoundTrip(s: string)
    requires IsAscii(s)
    ensures Ascii(ToBytes(s)) == s
  {
  }

  // ---------------------------------------------------------------------
  // Encoding
  // ---------------------------------------------------------------------

  // The labels bytes([len]) and encode("ascii") accept.
  predicate Encodable(lbl: string) {
    |lbl| < 0x100 && IsAscii(lbl)
  }

  predicate AllEncodable(labels: seq<string>) {
    forall k :: 0 <= k < |labels| ==> Encodable(labels[k])
  }

  function EncodeLabels(labels: seq<string>): seq<byte>
    requires AllEncodable(labels)
  {
    if labels == [] then [0] else [|labels[0]|] + ToBytes(labels[0]) + EncodeLabels(labels[1..])
  }

  // None where the source raises ValueError or UnicodeEncodeError.
  method EncodeName(name: string) returns (r: Option<seq<byte>>)
    ensures r == if AllEncodable(Split(name)) then Some(EncodeLabels(Split(name))) else None
  {
    var labels := Split(name);
    var result: seq<byte> := [];
    var k := 0;
    assert labels[0..] == labels;
    while k < |labels|
      invariant k <= |labels|
      invariant forall j :: 0 <= j < k ==> Encodable(labels[j])
      invariant EncodedSoFar(labels, k, result)
    {
      var lbl := labels[k];
      if |lbl| >= 0x100 || !IsAscii(lbl) {
        return None;
      }
      EncodeStep(labels, k, result);
      result := result + [|lbl|] + ToBytes(lbl);
      k := k + 1;
    }
    assert labels[k..] == [];
    r := Some(result + [0]);
  }

  // `result` holds the first `k` labels.
  ghost predicate EncodedSoFar(labels: seq<string>, k: nat, result: seq<byte>)
    requires k <= |labels|
  {
    AllEncodable(labels) ==> AllEncodable(labels[k..]) && EncodeLabels(labels) == result + EncodeLabels(labels[k..])
  }

  lemma EncodeStep(labels: seq<string>, k: nat, result: seq<byte>)
    requires k < |labels| && Encodable(labels[k]) && EncodedSoFar(labels, k, result)
    ensures EncodedSoFar(labels, k + 1, result + [|labels[k]|] + ToBytes(labels[k]))
  {
    if AllEncodable(labels) {
      var left := labels[k..];
      assert left[1..] == labels[k + 1..] && left[0] == labels[k];
      FirstLabel(left);
      var head, rest := [|labels[k]|] + ToBytes(labels[k]), EncodeLabels(left[1..]);
      Regroup(result, head, rest);
      Regroup(result, [|labels[k]|], ToBytes(labels[k]));
    }
  }

  // ---------------------------------------------------------------------
  // Decoding
  // ---------------------------------------------------------------------

  // Raises: struct.error on a pointer cut short, or RecursionError when the
  // pointers nest deeper than the interpreter's `depth` remaining frames.
  datatype Decoded = Name(name: string, next: nat) | Raises

  function Min(a: nat, b: nat): nat {
    if a <= b then a else b
  }

  // The loop from `offset` on, `labels` being those read before it.
  function DecodeFrom(data: seq<byte>, offset: nat, labels: seq<string>, depth: nat): (r: Decoded)
    ensures r.Name? ==> r.next >= offset
    decreases depth, |data| - offset
  {
    if offset >= |data| then Name(Join(labels), offset)
    else if data[offset] == 0 then Name(Join(labels), offset + 1)
    else if data[offset] >= 0xC0 then
      if offset + 2 > |data| || depth == 0 then Raises
      else
        var inner := DecodeFrom(data, U16(data, offset) % 0x4000, [], depth - 1);
        if inner.Raises? then Raises else Name(Join(labels + [inner.name]), offset + 2)
    else
      var end := offset + 1 + data[offset];
      DecodeFrom(data, end, labels + [Ascii(data[offset + 1..Min(end, |data|)])], depth)
  }

  lemma LabelRead(data: seq<byte>, offset: nat, labels: seq<string>, depth: nat)
    requires offset < |data| && 0 < data[offset] < 0xC0
    ensures var end := offset + 1 + data[offset];
            DecodeFrom(data, offset, labels, depth) ==
            DecodeFrom(data, end, labels + [Ascii(data[offset + 1..Min(end, |data|)])], depth)
  {
  }

  lemma NameEnds(data: seq<byte>, offset: nat, labels: seq<string>, depth: nat)
    ensures offset >= |data| ==> DecodeFrom(data, offset, labels, depth) == Name(Join(labels), offset)
    ensures offset < |data| && data[offset] == 0 ==> DecodeFrom(data, offset, labels, depth) == Name(Join(labels), offset + 1)
  {
  }

  method DecodeName(data: seq<byte>, start: nat, depth: nat) returns (r: Decoded)
    ensures r == DecodeFrom(data, start, [], depth)
    decreases depth, 1
  {
    hide Join, Ascii, DecodeFrom;
    var labels: seq<string> := [];
    var offset := start;
    while offset < |data|
      invariant DecodeFrom(data, start, [], depth) == DecodeFrom(data, offset, labels, depth)
      decreases |data| - offset
    {
      var length := data[offset];
      NameEnds(data, offset, labels, depth);
      if length == 0 {
        offset := offset + 1;
        return Name(Join(labels), offset);
      }
      if length >= 0xC0 {
        r := FollowPointer(data, offset, labels, depth);
        return;
      }
      LabelRead(data, offset, labels, depth);
      offset := offset + 1;
      labels := labels + [Ascii(data[offset..Min(offset + length, |data|)])];
      offset := offset + length;
    }
    NameEnds(data, offset, labels, depth);
    r := Name(Join(labels), offset);
  }

  // The pointer case, which ends the loop.
  method FollowPointer(data: seq<byte>, offset: nat, labels: seq<string>, depth: nat) returns (r: Decoded)
    requires offset < |data| && data[offset] >= 0xC0
    ensures r == DecodeFrom(data, offset, labels, depth)
    decreases depth, 0
  {
    if offset + 2 > |data| || depth == 0 {
      return Raises;
    }
    var inner := DecodeName(data, U16(data, offset) % 0x4000, depth - 1);
    if inner.Raises? {
      return Raises;
    }
    r := Name(Join(labels + [inner.name]), offset + 2);
  }

  // ---------------------------------------------------------------------
  // Round trip
  // ---------------------------------------------------------------------

  // What the decoder reads back: neither the terminator nor a pointer.
  ghost predicate Readable(labels: seq<string>) {
    forall k :: 0 <= k < |labels| ==> 1 <= |labels[k]| < 0xC0
  }

  // The length byte and the text of one label.
  lemma LabelLies(data: seq<byte>, at: nat, lbl: string, rest: seq<byte>)
    requires Encodable(lbl) && Lies(data, at, [|lbl|] + ToBytes(lbl) + rest)
    ensures at + 1 + |lbl| <= |data| && data[at] == |lbl| && Ascii(data[at + 1..at + 1 + |lbl|]) == lbl
    ensures Lies(data, at + 1 + |lbl|, rest)
  {
    LiesParts(data, at, [|lbl|] + ToBytes(lbl), rest);
    LiesParts(data, at, [|lbl|], ToBytes(lbl));
    LiesSlice(data, at + 1, ToBytes(lbl));
    assert [|lbl|][0] == data[at + 0];
    AsciiRoundTrip(lbl);
  }

  lemma OneLabel(data: seq<byte>, at: nat, lbl: string, acc: seq<string>, depth: nat, rest: seq<byte>)
    requires Encodable(lbl) && 1 <= |lbl| < 0xC0
    requires Lies(data, at, [|lbl|] + ToBytes(lbl) + rest)
    ensures DecodeFrom(data, at, acc, depth) == DecodeFrom(data, at + 1 + |lbl|, acc + [lbl], depth)
    ensures Lies(data, at + 1 + |lbl|, rest)
  {
    LabelLies(data, at, lbl, rest);
  }

  lemma Terminator(data: seq<byte>, at: nat, acc: seq<string>, depth: nat)
    requires Lies(data, at, [0])
    ensures DecodeFrom(data, at, acc, depth) == Name(Join(acc), at + 1)
  {
    assert [0][0] == data[at + 0];
  }

  lemma FirstLabel(labels: seq<string>)
    requires AllEncodable(labels) && labels != []
    ensures Encodable(labels[0]) && AllEncodable(labels[1..])
    ensures Readable(labels) <==> 1 <= |labels[0]| < 0xC0 && Readable(labels[1..])
    ensures EncodeLabels(labels) == [|labels[0]|] + ToBytes(labels[0]) + EncodeLabels(labels[1..])
    ensures |EncodeLabels(labels)| == 1 + |labels[0]| + |EncodeLabels(labels[1..])| && |EncodeLabels(labels[1..])| >= 1
  {
    assert forall k :: 0 < k < |labels| ==> labels[k] == labels[1..][k - 1];
  }

  lemma {:induction false} DecodeLabels(data: seq<byte>, at: nat, labels: seq<string>, acc: seq<string>, depth: nat)
    requires AllEncodable(labels) && Readable(labels)
    requires Lies(data, at, EncodeLabels(labels))
    ensures DecodeFrom(data, at, acc, depth) == Name(Join(acc + labels), at + |EncodeLabels(labels)|)
    decreases |labels|
  {
    MoveFirst(acc, labels);
    if |labels| == 0 {
      Terminator(data, at, acc, depth);
    } else {
      FirstDecodes(data, at, labels, acc, depth);
      DecodeLabels(data, at + 1 + |labels[0]|, labels[1..], acc + [labels[0]], depth);
    }
  }

  lemma FirstDecodes(data: seq<byte>, at: nat, labels: seq<string>, acc: seq<string>, depth: nat)
    requires AllEncodable(labels) && Readable(labels) && |labels| > 0
    requires Lies(data, at, EncodeLabels(labels))
    ensures AllEncodable(labels[1..]) && Readable(labels[1..])
    ensures |EncodeLabels(labels)| == 1 + |labels[0]| + |EncodeLabels(labels[1..])|
    ensures DecodeFrom(data, at, acc, depth) == DecodeFrom(data, at + 1 + |labels[0]|, acc + [labels[0]], depth)
    ensures Lies(data, at + 1 + |labels[0]|, EncodeLabels(labels[1..]))
  {
    FirstLabel(labels);
    OneLabel(data, at, labels[0], acc, depth, EncodeLabels(labels[1..]));
  }

  // A label that is empty or 192 bytes and longer ends the decoding early,
  // if it does not raise.
  lemma {:induction false} DecodeStopsShort(data: seq<byte>, at: nat, labels: seq<string>, acc: seq<string>, depth: nat)
    requires AllEncodable(labels) && !Readable(labels)
    requires Lies(data, at, EncodeLabels(labels))
    ensures DecodeFrom(data, at, acc, depth).Raises? || DecodeFrom(data, at, acc, depth).next < at + |EncodeLabels(labels)|
    decreases |labels|
  {
    hide DecodeFrom;
    FirstLabel(labels);
    var rest := EncodeLabels(labels[1..]);
    if 1 <= |labels[0]| < 0xC0 {
      OneLabel(data, at, labels[0], acc, depth, rest);
      DecodeStopsShort(data, at + 1 + |labels[0]|, labels[1..], acc + [labels[0]], depth);
    } else {
      BadLabel(data, at, labels[0], acc, depth, rest);
    }
  }

  lemma BadLabel(data: seq<byte>, at: nat, lbl: string, acc: seq<string>, depth: nat, rest: seq<byte>)
    requires Encodable(lbl) && !(1 <= |lbl| < 0xC0) && |rest| > 0
    requires Lies(data, at, [|lbl|] + ToBytes(lbl) + rest)
    ensures DecodeFrom(data, at, acc, depth).Raises? || DecodeFrom(data, at, acc, depth).next < at + 1 + |lbl| + |rest|
  {
    LabelLies(data, at, lbl, rest);
  }

  // Decoding undoes encoding, at any offset of any message, exactly for the
  // names whose labels have 1 to 191 bytes (RFC 1035 stops at 63).
  lemma NameRoundTrip(pre: seq<byte>, name: string, post: seq<byte>, depth: nat)
    requires AllEncodable(Split(name))
    ensures var e := EncodeLabels(Split(name));
            DecodeFrom(pre + e + post, |pre|, [], depth) == Name(name, |pre| + |e|) <==> Readable(Split(name))
  {
    var e := EncodeLabels(Split(name));
    var data := pre + e + post;
    JoinSplit(name);
    assert Lies(data, |pre|, e);
    if Readable(Split(name)) {
      DecodeLabels(data, |pre|, Split(name), [], depth);
      assert [] + Split(name) == Split(name);
    } else {
      DecodeStopsShort(data, |pre|, Split(name), [], depth);
    }
  }

  // A message that ends inside a name: it is read as far as it goes, and the
  // place behind it is at or behind the end.
  lemma {:induction false} DecodeCutShort(data: seq<byte>, at: nat, labels: seq<string>, acc: seq<string>, depth: nat)
    requires AllEncodable(labels) && Readable(labels)
    requires at <= |data| < at + |EncodeLabels(labels)| && data[at..] == EncodeLabels(labels)[..|data| - at]
    ensures var r := DecodeFrom(data, at, acc, depth); r.Name? && r.next >= |data|
    decreases |labels|
  {
    if |data| > at {
      FirstLabel(labels);
      var e := EncodeLabels(labels);
      var n := 1 + |labels[0]|;
      assert data[at] == data[at..][0] == e[0];
      if |data| >= at + n {
        CutTail(data, at, n, e, EncodeLabels(labels[1..]));
        DecodeCutShort(data, at + n, labels[1..], acc + [Ascii(data[at + 1..at + n])], depth);
      }
    }
  }

  lemma CutTail(data: seq<byte>, at: nat, n: nat, e: seq<byte>, rest: seq<byte>)
    requires at + n <= |data| < at + |e| && data[at..] == e[..|data| - at]
    requires |e| == n + |rest| && e[n..] == rest
    ensures data[at + n..] == rest[..|data| - at - n]
  {
    assert data[at + n..] == data[at..][n..];
    assert e[..|data| - at][n..] == e[n..][..|data| - at - n];
  }

  // A pointer to itself runs out of calls, however many there are.
  lemma {:induction false} SelfPointerRaises(data: seq<byte>, at: nat, labels: seq<string>, depth: nat)
    requires at < 0x4000 && at + 2 <= |data| && data[at..at + 2] == Be16(0xC000 + at)
    ensures DecodeFrom(data, at, labels, depth) == Raises
    decreases depth
  {
    Field16(data, at, 0xC000 + at);
    if depth > 0 {
      SelfPointerRaises(data, at, [], depth - 1);
    }
  }

  lemma {:induction false} EncodedLength(labels: seq<string>)
    requires AllEncodable(labels) && |labels| > 0
    ensures |EncodeLabels(labels)| == |Join(labels)| + 2
  {
    if |labels| == 1 {
      assert |EncodeLabels(labels[1..])| == 1;
    } else {
      EncodedLength(labels[1..]);
    }
  }

  // ---------------------------------------------------------------------
  // Compression
  // ---------------------------------------------------------------------

  function Target(data: seq<byte>, offset: nat): nat
    requires offset + 2 <= |data|
  {
    U16(data, offset) % 0x4000
  }

  // Full expansion: from `offset`, inside a name that began at `start`, the
  // message spells `labels`. Every pointer goes to a name, perhaps the root,
  // strictly before the start of the name that holds it.
  ghost predicate Expands(data: seq<byte>, start: nat, offset: nat, labels: seq<string>)
    decreases start, |data| - offset
  {
    && offset < |data|
    && if data[offset] == 0 then labels == []
       else if data[offset] >= 0xC0 then
         && offset + 2 <= |data| && Target(data, offset) < start
         && Expands(data, Target(data, offset), Target(data, offset), labels)
       else
         var end := offset + 1 + data[offset];
         && end <= |data| && labels != []
         && Spelled(labels[0], data, offset + 1, data[offset]) && Expands(data, start, end, labels[1..])
  }

  // The label of `n` bytes at `at`; what is not ASCII reads as U+FFFD.
  ghost predicate Spelled(lbl: string, data: seq<byte>, at: nat, n: nat)
    requires at + n <= |data|
  {
    |lbl| == n && forall k :: 0 <= k < n ==> lbl[k] == if data[at + k] < 0x80 then data[at + k] as char else '\U{FFFD}'
  }

  lemma SpelledIs(lbl: string, data: seq<byte>, at: nat, n: nat)
    requires at + n <= |data| && Spelled(lbl, data, at, n)
    ensures lbl == Ascii(data[at..at + n])
  {
  }

  // The pointers on the way to the end of the name.
  ghost function Hops(data: seq<byte>, start: nat, offset: nat): nat
    decreases start, |data| - offset
  {
    if offset >= |data| || data[offset] == 0 then 0
    else if data[offset] >= 0xC0 then
      if offset + 2 <= |data| && Target(data, offset) < start then
        1 + Hops(data, Target(data, offset), Target(data, offset))
      else 0
    else Hops(data, start, offset + 1 + data[offset])
  }

  // Pointers that go strictly backwards are fewer than the bytes before them.
  lemma {:induction false} HopsBounded(data: seq<byte>, start: nat, offset: nat)
    ensures Hops(data, start, offset) <= start
    decreases start, |data| - offset
  {
    if offset < |data| && data[offset] != 0 {
      if data[offset] >= 0xC0 {
        if offset + 2 <= |data| && Target(data, offset) < start {
          HopsBounded(data, Target(data, offset), Target(data, offset));
        }
      } else {
        HopsBounded(data, start, offset + 1 + data[offset]);
      }
    }
  }

  // The way ends in a pointer to the root.
  ghost predicate EndsAtRoot(data: seq<byte>, start: nat, offset: nat)
    decreases start, |data| - offset
  {
    && offset < |data| && data[offset] != 0
    && if data[offset] >= 0xC0 then
         && offset + 2 <= |data| && Target(data, offset) < start && Target(data, offset) < |data|
         && (data[Target(data, offset)] == 0 || EndsAtRoot(data, Target(data, offset), Target(data, offset)))
       else EndsAtRoot(data, start, offset + 1 + data[offset])
  }

  // The byte behind the name: behind its terminator or its pointer.
  ghost function Behind(data: seq<byte>, offset: nat): nat
    decreases |data| - offset
  {
    if offset >= |data| then offset
    else if data[offset] == 0 then offset + 1
    else if data[offset] >= 0xC0 then offset + 2
    else Behind(data, offset + 1 + data[offset])
  }

  // The text of a name; `rooted` when it ends in a pointer to the root.
  function TextOf(labels: seq<string>, rooted: bool): string {
    if rooted && labels != [] then Join(labels) + "." else Join(labels)
  }

  lemma {:induction false} JoinNested(acc: seq<string>, labels: seq<string>, rooted: bool)
    requires labels == [] ==> rooted
    ensures Join(acc + [TextOf(labels, rooted)]) == TextOf(acc + labels, rooted)
  {
    var inner := TextOf(labels, rooted);
    if |acc| == 0 {
      assert acc + [inner] == [inner] && acc + labels == labels;
    } else {
      JoinNested(acc[1..], labels, rooted);
      assert (acc + [inner])[1..] == acc[1..] + [inner];
      assert (acc + labels)[1..] == acc[1..] + labels;
      JoinFirst(acc, [inner]);
      NestedFirst(acc, labels, rooted);
    }
  }

  lemma JoinFirst(acc: seq<string>, more: seq<string>)
    requires |acc| > 0 && |more| > 0
    ensures Join(acc + more) == acc[0] + "." + Join(acc[1..] + more)
  {
    var all := acc + more;
    assert |all| > 1 && all[0] == acc[0];
    assert all[1..] == acc[1..] + more;
  }

  lemma NestedFirst(acc: seq<string>, labels: seq<string>, rooted: bool)
    requires |acc| > 0 && (labels == [] ==> rooted)
    ensures TextOf(acc + labels, rooted) == acc[0] + "." + TextOf(acc[1..] + labels, rooted)
  {
    var rest := acc[1..] + labels;
    assert (acc + labels)[1..] == rest && (acc + labels)[0] == acc[0];
    if |rest| > 0 {
      assert Join(acc + labels) == acc[0] + "." + Join(rest);
      assert acc[0] + "." + Join(rest) + "." == acc[0] + "." + (Join(rest) + ".");
    }
  }

  // A pointer that spells no label leads to the root.
  lemma {:induction false} EmptyIsRoot(data: seq<byte>, start: nat, offset: nat)
    requires Expands(data, start, offset, []) && data[offset] != 0
    ensures EndsAtRoot(data, start, offset)
    decreases start
  {
    var target := Target(data, offset);
    if data[target] != 0 {
      EmptyIsRoot(data, target, target);
    }
  }

  // Decoding such a name needs one nested call for each pointer on its way.
  // With fewer left it raises; otherwise it yields the full expansion, with a
  // dot behind it exactly when there is a label and the way ends in a pointer
  // to the root.
  lemma {:induction false} DecodeExpands(data: seq<byte>, start: nat, offset: nat, acc: seq<string>, labels: seq<string>, depth: nat)
    requires Expands(data, start, offset, labels)
    ensures DecodeFrom(data, offset, acc, depth) ==
            if depth < Hops(data, start, offset) then Raises
            else Name(TextOf(acc + labels, EndsAtRoot(data, start, offset)), Behind(data, offset))
    decreases start, |data| - offset
  {
    if data[offset] == 0 {
      assert acc + labels == acc;
    } else if data[offset] >= 0xC0 {
      if depth > 0 {
        PointerExpands(data, start, offset, acc, labels, depth);
      }
    } else {
      var end := offset + 1 + data[offset];
      SpelledIs(labels[0], data, offset + 1, data[offset]);
      DecodeExpands(data, start, end, acc + [labels[0]], labels[1..], depth);
      assert acc + [labels[0]] + labels[1..] == acc + labels;
    }
  }

  lemma {:induction false} PointerExpands(data: seq<byte>, start: nat, offset: nat, acc: seq<string>, labels: seq<string>, depth: nat)
    requires Expands(data, start, offset, labels) && data[offset] >= 0xC0 && depth > 0
    ensures DecodeFrom(data, offset, acc, depth) ==
            if depth < Hops(data, start, offset) then Raises
            else Name(TextOf(acc + labels, EndsAtRoot(data, start, offset)), offset + 2)
    decreases start, 0
  {
    var target := Target(data, offset);
    var rooted := EndsAtRoot(data, start, offset);
    DecodeExpands(data, target, target, [], labels, depth - 1);
    assert [] + labels == labels;
    if |labels| == 0 {
      EmptyIsRoot(data, start, offset);
    }
    TargetText(data, start, offset, labels);
    JoinNested(acc, labels, rooted);
  }

  // The target's own text is that of the rest of the name.
  lemma TargetText(data: seq<byte>, start: nat, offset: nat, labels: seq<string>)
    requires Expands(data, start, offset, labels) && data[offset] >= 0xC0
    ensures var target := Target(data, offset);
            TextOf(labels, EndsAtRoot(data, target, target)) == TextOf(labels, EndsAtRoot(data, start, offset))
  {
    var target := Target(data, offset);
    if data[target] == 0 {
      assert labels == [];
    }
  }

  lemma DecodeIsExpansion(data: seq<byte>, start: nat, labels: seq<string>, depth: nat)
    requires Expands(data, start, start, labels)
    ensures DecodeFrom(data, start, [], depth) ==
            if depth < Hops(data, start, start) then Raises
            else Name(TextOf(labels, EndsAtRoot(data, start, start)), Behind(data, start))
  {
    DecodeExpands(data, start, start, [], labels, depth);
    assert [] + labels == labels;
  }

  lemma PointerToRoot(data: seq<byte>, at: nat, acc: seq<string>, target: nat, depth: nat)
    requires target < 0x4000 && target < |data| && data[target] == 0 && depth > 0 && acc != []
    requires Lies(data, at, Be16(0xC000 + target))
    ensures DecodeFrom(data, at, acc, depth) == Name(Join(acc) + ".", at + 2)
  {
    LiesSlice(data, at, Be16(0xC000 + target));
    Field16(data, at, 0xC000 + target);
    JoinEmpty(acc);
  }

  // The encoded labels without their terminator.
  function Prefix(labels: seq<string>): seq<byte>
    requires AllEncodable(labels)
  {
    EncodeLabels(labels)[..|EncodeLabels(labels)| - 1]
  }

  lemma PrefixParts(labels: seq<string>, tail: seq<byte>)
    requires AllEncodable(labels) && |labels| > 0
    ensures AllEncodable(labels[1..]) && Prefix(labels) + tail == [|labels[0]|] + ToBytes(labels[0]) + (Prefix(labels[1..]) + tail)
  {
    FirstLabel(labels);
    var head, rest := [|labels[0]|] + ToBytes(labels[0]), EncodeLabels(labels[1..]);
    assert (head + rest)[..|head| + |rest| - 1] == head + rest[..|rest| - 1];
    assert head + rest[..|rest| - 1] + tail == head + (rest[..|rest| - 1] + tail);
  }

  // A pointer to the root, which is a valid name, leaves a dot at the end.
  lemma {:induction false} RootPointer(data: seq<byte>, at: nat, labels: seq<string>, acc: seq<string>, target: nat, depth: nat)
    requires AllEncodable(labels) && Readable(labels) && acc + labels != []
    requires target < 0x4000 && target < |data| && data[target] == 0 && depth > 0
    requires Lies(data, at, Prefix(labels) + Be16(0xC000 + target))
    ensures DecodeFrom(data, at, acc, depth) == Name(Join(acc + labels) + ".", at + |EncodeLabels(labels)| + 1)
    decreases |labels|
  {
    hide DecodeFrom, Join;
    var pointer := Be16(0xC000 + target);
    if |labels| == 0 {
      assert Prefix(labels) + pointer == pointer;
      assert acc + labels == acc;
      PointerToRoot(data, at, acc, target, depth);
    } else {
      FirstLabel(labels);
      PrefixParts(labels, pointer);
      OneLabel(data, at, labels[0], acc, depth, Prefix(labels[1..]) + pointer);
      assert acc + [labels[0]] + labels[1..] == acc + labels;
      RootPointer(data, at + 1 + |labels[0]|, labels[1..], acc + [labels[0]], target, depth);
    }
  }

  lemma {:induction false} JoinEmpty(acc: seq<string>)
    requires acc != []
    ensures Join(acc + [""]) == Join(acc) + "."
  {
    if |acc| > 1 {
      JoinEmpty(acc[1..]);
      assert (acc + [""])[1..] == acc[1..] + [""];
    } else {
      assert (acc + [""])[1..] == [""];
    }
  }
}
