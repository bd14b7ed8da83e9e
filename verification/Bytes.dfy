// Octets, 16-bit words and big-endian fields shared by the frame, table and
// message codecs. The C sources store network fields with HTONS on a
// little-endian machine; the bytes that reach memory are the big-endian ones
// that `Be16` and `Be32` spell out.
module Bytes {
  type byte = x: int | 0 <= x < 0x100
  type word = x: int | 0 <= x < 0x1_0000
  type dword = x: int | 0 <= x < 0x1_0000_0000

  datatype Option<+T> = None | Some(value: T)

  function Be16(w: word): seq<byte> {
    [w / 0x100, w % 0x100]
  }

  function Be32(d: dword): seq<byte> {
    [d / 0x100_0000, d / 0x1_0000 % 0x100, d / 0x100 % 0x100, d % 0x100]
  }

  function U16(s: seq<byte>, i: nat): word
    requires i + 2 <= |s|
  {
    s[i] as int * 0x100 + s[i + 1]
  }

  lemma Field16(s: seq<byte>, i: nat, w: word)
    requires i + 2 <= |s| && s[i..i + 2] == Be16(w)
    ensures U16(s, i) == w
  {
    assert s[i] == s[i..i + 2][0] && s[i + 1] == s[i..i + 2][1];
  }

  lemma Field32(s: seq<byte>, i: nat, d: dword)
    requires i + 4 <= |s| && s[i..i + 4] == Be32(d)
    ensures s[i] as int * 0x100_0000 + s[i + 1] as int * 0x1_0000 + s[i + 2] as int * 0x100 + s[i + 3] == d
  {
    var view := s[i..i + 4];
    assert s[i] == view[0] && s[i + 1] == view[1] && s[i + 2] == view[2] && s[i + 3] == view[3];
    ByteSum(d);
  }

  lemma ByteSum(d: dword)
    ensures d / 0x100_0000 * 0x100_0000 + d / 0x1_0000 % 0x100 * 0x1_0000 + d / 0x100 % 0x100 * 0x100 + d % 0x100 == d
  {
    var high, low := d / 0x1_0000, d % 0x1_0000;
    assert d == high * 0x1_0000 + low;
    HighByte(high, low, d);
    LowBytes(high, low, d);
  }

  lemma HighByte(high: nat, low: nat, d: nat)
    requires low < 0x1_0000 && d == high * 0x1_0000 + low
    ensures d / 0x100_0000 == high / 0x100
  {
  }

  lemma LowBytes(high: nat, low: nat, d: nat)
    requires low < 0x1_0000 && d == high * 0x1_0000 + low
    ensures d / 0x100 % 0x100 == low / 0x100 && d % 0x100 == low % 0x100
  {
    var q, r := low / 0x100, low % 0x100;
    assert d == (high * 0x100 + q) * 0x100 + r;
    assert d / 0x100 == high * 0x100 + q;
  }

  lemma SubSlice<T>(s: seq<T>, a: nat, b: nat, c: nat, d: nat)
    requires a <= b <= |s| && c <= d <= b - a
    ensures s[a..b][c..d] == s[a + c..a + d]
  {
    var x, y := s[a..b][c..d], s[a + c..a + d];
    forall i | 0 <= i < |x| ensures x[i] == y[i] {
      assert x[i] == s[a..b][c + i];
    }
  }

  lemma Regroup<T>(a: seq<T>, b: seq<T>, c: seq<T>)
    ensures a + (b + c) == a + b + c
  {
  }

  lemma MoveFirst<T>(done: seq<T>, left: seq<T>)
    ensures |left| == 0 ==> done + left == done
    ensures |left| > 0 ==> done + [left[0]] + left[1..] == done + left
  {
  }

  // `bytes` lie at offset `at` of `data`.
  ghost predicate Lies(data: seq<byte>, at: nat, bytes: seq<byte>) {
    at + |bytes| <= |data| && forall k :: 0 <= k < |bytes| ==> bytes[k] == data[at + k]
  }

  lemma LiesParts(data: seq<byte>, at: nat, a: seq<byte>, b: seq<byte>)
    requires Lies(data, at, a + b)
    ensures Lies(data, at, a) && Lies(data, at + |a|, b)
  {
    var ab := a + b;
    assert forall k :: 0 <= k < |a| ==> a[k] == ab[k];
    forall k | 0 <= k < |b| ensures b[k] == data[at + |a| + k] {
      assert b[k] == ab[|a| + k];
    }
  }

  lemma LiesSlice(data: seq<byte>, at: nat, bytes: seq<byte>)
    requires Lies(data, at, bytes)
    ensures data[at..at + |bytes|] == bytes
  {
  }

  lemma SliceLies(data: seq<byte>, at: nat, bytes: seq<byte>)
    requires at + |bytes| <= |data| && data[at..at + |bytes|] == bytes
    ensures Lies(data, at, bytes)
  {
    var view := data[at..at + |bytes|];
    assert forall k :: 0 <= k < |bytes| ==> view[k] == data[at + k];
  }

  // The memory `s` after `b` has been copied to offset `at`.
  function Overwrite(s: seq<byte>, at: nat, b: seq<byte>): (r: seq<byte>)
    requires at + |b| <= |s|
    ensures |r| == |s|
  {
    s[..at] + b + s[at + |b|..]
  }

  lemma OverwriteIs(s: seq<byte>, at: nat, b: seq<byte>)
    requires at + |b| <= |s|
    ensures var r := Overwrite(s, at, b);
            && r[at..at + |b|] == b && r[..at] == s[..at] && r[at + |b|..] == s[at + |b|..]
            && (forall i :: 0 <= i < at || at + |b| <= i < |s| ==> r[i] == s[i])
  {
  }

  lemma OverwriteAppend(s: seq<byte>, at: nat, a: seq<byte>, b: seq<byte>)
    requires at + |a| + |b| <= |s|
    ensures Overwrite(Overwrite(s, at, a), at + |a|, b) == Overwrite(s, at, a + b)
  {
  }

  // Later writes inside an already written area replace just their own bytes.
  lemma OverwriteInside(s: seq<byte>, at: nat, a: seq<byte>, k: nat, b: seq<byte>)
    requires at + |a| <= |s| && k + |b| <= |a|
    ensures Overwrite(Overwrite(s, at, a), at + k, b) == Overwrite(s, at, Overwrite(a, k, b))
  {
  }

  // CopyMem into a byte buffer.
  method CopyMem(buffer: array<byte>, at: nat, data: seq<byte>)
    requires at + |data| <= buffer.Length
    modifies buffer
    ensures buffer[..] == Overwrite(old(buffer[..]), at, data)
  {
    forall i | 0 <= i < |data| {
      buffer[at + i] := data[i];
    }
  }
}
