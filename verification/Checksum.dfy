// The Internet checksum as the packet builder computes it: 16-bit words are
// added into a 32-bit accumulator and the carries are folded in afterwards.
// The reference is the word-by-word end-around-carry sum of section 1 of
// RFC 1071.
module Checksum {
  import opened Bytes

  const ACC := 0x1_0000_0000

  // ---------------------------------------------------------------------
  // What the accumulator holds, and the value returned
  // ---------------------------------------------------------------------

  // Unbounded sum of the big-endian words; an odd last byte is padded with 0.
  function WordSum(s: seq<byte>): nat {
    if |s| == 0 then 0
    else if |s| == 1 then s[0] * 0x100
    else s[0] * 0x100 + s[1] + WordSum(s[2..])
  }

  function Fold(sum: nat): word
    decreases sum
  {
    if sum < 0x1_0000 then sum else Fold(sum % 0x1_0000 + sum / 0x1_0000)
  }

  // The accumulator is a UINT32, so it holds the sum modulo 2^32.
  function InternetChecksum(s: seq<byte>): word {
    0xFFFF - Fold(WordSum(s) % ACC)
  }

  // ---------------------------------------------------------------------
  // RFC 1071, section 1
  // ---------------------------------------------------------------------

  function Words(s: seq<byte>): seq<word> {
    if |s| == 0 then []
    else if |s| == 1 then [s[0] as int * 0x100]
    else [U16(s, 0)] + Words(s[2..])
  }

  // One's complement addition: a carry out of bit 15 comes back in at bit 0.
  function OnesAdd(a: word, b: word): word {
    if a + b < 0x1_0000 then a + b else a + b - 0xFFFF
  }

  function OnesSum(ws: seq<word>): word {
    if |ws| == 0 then 0 else OnesAdd(OnesSum(ws[..|ws| - 1]), ws[|ws| - 1])
  }

  function Rfc1071(s: seq<byte>): word {
    0xFFFF - OnesSum(Words(s))
  }

  // ---------------------------------------------------------------------
  // Folding: the residue modulo 65535, with 0 kept apart from 0xFFFF
  // ---------------------------------------------------------------------

  function Residue(sum: nat): word {
    if sum == 0 then 0 else (sum - 1) % 0xFFFF + 1
  }

  lemma {:induction false} FoldIsResidue(sum: nat)
    ensures Fold(sum) == Residue(sum)
    decreases sum
  {
    if sum >= 0x1_0000 {
      FoldStep(sum);
      FoldIsResidue(sum % 0x1_0000 + sum / 0x1_0000);
    }
  }

  // 2^16 is 1 modulo 65535.
  lemma FoldStep(sum: nat)
    requires sum >= 0x1_0000
    ensures sum % 0x1_0000 + sum / 0x1_0000 < sum
    ensures Residue(sum % 0x1_0000 + sum / 0x1_0000) == Residue(sum)
  {
    var q, r := sum / 0x1_0000, sum % 0x1_0000;
    assert sum == q * 0x1_0000 + r;
    SameRemainder(r + q - 1, q);
    assert sum - 1 == (r + q - 1) + q * 0xFFFF;
  }

  lemma SameRemainder(m: int, k: int)
    ensures (m + k * 0xFFFF) % 0xFFFF == m % 0xFFFF
  {
  }

  lemma {:induction false} OnesSumIsResidue(ws: seq<word>)
    ensures OnesSum(ws) == Residue(Total(ws))
  {
    if |ws| > 0 {
      OnesSumIsResidue(ws[..|ws| - 1]);
      TotalSnoc(ws[..|ws| - 1], ws[|ws| - 1]);
      assert ws == ws[..|ws| - 1] + [ws[|ws| - 1]];
      ResidueStep(Total(ws[..|ws| - 1]), ws[|ws| - 1]);
    }
  }

  lemma ResidueStep(sum: nat, w: word)
    ensures OnesAdd(Residue(sum), w) == Residue(sum + w)
  {
    if sum > 0 {
      var q := (sum - 1) / 0xFFFF;
      var r := Residue(sum) + w - 1;
      assert sum + w - 1 == q * 0xFFFF + r;
      assert (q * 0xFFFF + r) % 0xFFFF == r % 0xFFFF;
    }
  }

  function Total(ws: seq<word>): nat {
    if |ws| == 0 then 0 else ws[0] + Total(ws[1..])
  }

  lemma TotalSnoc(ws: seq<word>, w: word)
    ensures Total(ws + [w]) == Total(ws) + w
  {
    if |ws| > 0 {
      assert (ws + [w])[1..] == ws[1..] + [w];
    }
  }

  lemma WordSumIsTotal(s: seq<byte>)
    ensures WordSum(s) == Total(Words(s)) && |Words(s)| == (|s| + 1) / 2
  {
  }

  lemma WordSumBound(s: seq<byte>)
    ensures WordSum(s) <= 0xFFFF * ((|s| + 1) / 2)
  {
  }

  // No byte string of up to 131074 bytes overflows the 32-bit accumulator.
  lemma AccumulatorFits(s: seq<byte>)
    requires |s| <= 131074
    ensures WordSum(s) < ACC
  {
    WordSumBound(s);
  }

  // Each lost carry out of bit 31 takes 2^32, which is 1 modulo 65535, so the
  // residue comes out right only when 65535 carries go together and something
  // is left to sum.
  lemma LostCarriesShow(wrapped: nat, k: nat)
    requires k > 0
    ensures Residue(wrapped + k * ACC) == Residue(wrapped) <==> wrapped > 0 && k % 0xFFFF == 0
  {
    var m := wrapped + k;
    assert wrapped + k * ACC - 1 == (m - 1) + (k * 0x1_0001) * 0xFFFF;
    SameRemainder(m - 1, k * 0x1_0001);
    if wrapped > 0 {
      ShiftedRemainder(wrapped - 1, k);
    }
  }

  lemma ShiftedRemainder(m: nat, k: nat)
    ensures (m + k) % 0xFFFF == m % 0xFFFF <==> k % 0xFFFF == 0
  {
    var q, r := k / 0xFFFF, k % 0xFFFF;
    assert m + k == (m + r) + q * 0xFFFF;
    SameRemainder(m + r, q);
    SmallShift(m, r);
  }

  lemma SmallShift(m: nat, r: nat)
    requires r < 0xFFFF
    ensures (m + r) % 0xFFFF == m % 0xFFFF <==> r == 0
  {
    var q, x := m / 0xFFFF, m % 0xFFFF;
    assert m + r == (x + r) + q * 0xFFFF;
    SameRemainder(x + r, q);
  }

  // Nothing is lost, or nothing that shows.
  predicate CarriesKept(sum: nat) {
    sum < ACC || (sum % ACC > 0 && sum / ACC % 0xFFFF == 0)
  }

  lemma WrapShows(sum: nat)
    ensures Residue(sum % ACC) == Residue(sum) <==> CarriesKept(sum)
  {
    if sum >= ACC {
      var wrapped, k := sum % ACC, sum / ACC;
      assert sum == wrapped + k * ACC;
      LostCarriesShow(wrapped, k);
    }
  }

  // The deferred-carry checksum is the RFC's exactly when the unbounded sum
  // fits the accumulator or overflows it by a multiple of 65535 carries.
  lemma DeferredCarriesAgree(s: seq<byte>)
    ensures InternetChecksum(s) == Rfc1071(s) <==> CarriesKept(WordSum(s))
  {
    FoldIsResidue(WordSum(s) % ACC);
    WordSumIsTotal(s);
    OnesSumIsResidue(Words(s));
    WrapShows(WordSum(s));
  }

  lemma Rfc1071Agreement(s: seq<byte>)
    requires |s| <= 131074
    ensures InternetChecksum(s) == Rfc1071(s)
  {
    AccumulatorFits(s);
    DeferredCarriesAgree(s);
  }

  lemma {:induction false} WordSumOfOnes(n: nat)
    ensures WordSum(seq(n, _ => 0xFF)) == 0xFFFF * (n / 2) + 0xFF00 * (n % 2)
  {
    if n >= 2 {
      WordSumOfOnes(n - 2);
      assert seq(n, _ => 0xFF)[2..] == seq(n - 2, _ => 0xFF);
    }
  }

  // The bound of 131074 bytes is tight: one byte more and the value differs.
  lemma AccumulatorBoundIsTight()
    ensures exists s: seq<byte> :: |s| == 131075 && InternetChecksum(s) != Rfc1071(s)
  {
    var s: seq<byte> := seq(131075, _ => 0xFF);
    WordSumOfOnes(131075);
    DeferredCarriesAgree(s);
  }

  // ---------------------------------------------------------------------
  // Sums of concatenations and updates
  // ---------------------------------------------------------------------

  lemma {:induction false} WordSumConcat(a: seq<byte>, b: seq<byte>)
    requires |a| % 2 == 0
    ensures WordSum(a + b) == WordSum(a) + WordSum(b)
  {
    if |a| == 0 {
      assert a + b == b;
    } else {
      WordSumConcat(a[2..], b);
      assert (a + b)[2..] == a[2..] + b;
    }
  }

  lemma {:induction false} WordSumZero(s: seq<byte>)
    ensures WordSum(s) == 0 <==> forall i :: 0 <= i < |s| ==> s[i] == 0
  {
    if |s| >= 2 {
      WordSumZero(s[2..]);
      assert forall i :: 2 <= i < |s| ==> s[i] == s[2..][i - 2];
    }
  }

  lemma {:induction false} WordSumUpdate(s: seq<byte>, i: nat, b: byte)
    requires i < |s|
    ensures WordSum(s[i := b]) == WordSum(s) + (if i % 2 == 0 then (b - s[i]) * 0x100 else b - s[i])
  {
    if i >= 2 {
      WordSumUpdate(s[2..], i - 2, b);
      assert s[i := b][2..] == s[2..][i - 2 := b];
    } else if |s| >= 2 {
      assert s[i := b][2..] == s[2..];
    }
  }

  // ---------------------------------------------------------------------
  // When a buffer validates
  // ---------------------------------------------------------------------

  // What is in the accumulator when the carries are folded.
  function Accumulated(s: seq<byte>): nat {
    WordSum(s) % ACC
  }

  lemma ChecksumIsResidue(s: seq<byte>)
    ensures InternetChecksum(s) == 0xFFFF - Residue(Accumulated(s))
  {
    FoldIsResidue(Accumulated(s));
  }

  lemma ShortAccumulates(s: seq<byte>)
    requires |s| <= 131074
    ensures Accumulated(s) == WordSum(s)
  {
    AccumulatorFits(s);
    assert WordSum(s) % ACC == WordSum(s);
  }

  lemma ResidueEnds(sum: nat)
    ensures Residue(sum) == 0xFFFF <==> sum > 0 && sum % 0xFFFF == 0
    ensures Residue(sum) == 0 <==> sum == 0
  {
    if sum > 0 {
      var q, r := (sum - 1) / 0xFFFF, (sum - 1) % 0xFFFF;
      assert sum == q * 0xFFFF + (r + 1);
      assert (q * 0xFFFF + (r + 1)) % 0xFFFF == (r + 1) % 0xFFFF;
    }
  }

  predicate PositiveMultiple(sum: nat) {
    sum > 0 && sum % 0xFFFF == 0
  }

  lemma ValidIff(s: seq<byte>)
    ensures InternetChecksum(s) == 0 <==> PositiveMultiple(Accumulated(s))
  {
    ChecksumIsResidue(s);
    ResidueEnds(Accumulated(s));
  }

  // 0xFFFF is returned exactly when nothing is left in the accumulator: for
  // a buffer of up to 131074 bytes, when it is all zero.
  lemma OnesOnlyForZeros(s: seq<byte>)
    ensures InternetChecksum(s) == 0xFFFF <==> Accumulated(s) == 0
    ensures |s| <= 131074 ==> (InternetChecksum(s) == 0xFFFF <==> forall i :: 0 <= i < |s| ==> s[i] == 0)
  {
    ChecksumIsResidue(s);
    ResidueEnds(Accumulated(s));
    if |s| <= 131074 {
      ShortAccumulates(s);
      WordSumZero(s);
    }
  }

  // Storing the checksum in a zeroed, aligned field makes the buffer validate.
  // A computed 0 may be stored as 0xFFFF, as UDP requires, while that does not
  // overflow the accumulator, hence in every buffer of up to 131074 bytes.
  lemma FilledFieldValidates(s: seq<byte>, at: nat, c: word)
    requires at % 2 == 0 && at + 2 <= |s|
    requires s[at] == 0 && s[at + 1] == 0
    requires c == InternetChecksum(s) || (c == 0xFFFF && InternetChecksum(s) == 0)
    ensures InternetChecksum(Overwrite(s, at, Be16(c))) == 0 <==>
            c == InternetChecksum(s) || Accumulated(s) + 0xFFFF < ACC
    ensures |s| <= 131074 ==> InternetChecksum(Overwrite(s, at, Be16(c))) == 0
  {
    var t := Overwrite(s, at, Be16(c));
    PatchSum(s, at, c);
    ChecksumIsResidue(s);
    AccumulatorShift(WordSum(s), c);
    FilledSum(Accumulated(s), c);
    ValidIff(t);
    if |s| <= 131074 {
      AccumulatorFits(t);
      ShortAccumulates(s);
    }
  }

  lemma FilledSum(sum: nat, c: word)
    requires sum < ACC
    requires c == 0xFFFF - Residue(sum) || (c == 0xFFFF && Residue(sum) == 0xFFFF)
    ensures PositiveMultiple((sum + c) % ACC) <==> c == 0xFFFF - Residue(sum) || sum + 0xFFFF < ACC
  {
    ComplementCancels(sum, c);
    ResidueEnds(sum);
    if sum + c >= ACC {
      assert (sum + c) % ACC == sum + c - ACC < 0xFFFF;
      NextMultiple(sum + c);
    } else {
      assert (sum + c) % ACC == sum + c;
    }
  }

  // The largest value of the accumulator is a multiple of 65535, so a multiple
  // behind it is at least 65535 further on.
  lemma NextMultiple(sum: nat)
    requires sum % 0xFFFF == 0 && sum >= ACC
    ensures sum >= ACC - 1 + 0xFFFF
  {
    assert ACC - 1 == 0x1_0001 * 0xFFFF;
    var q := sum / 0xFFFF;
    assert sum == q * 0xFFFF;
  }

  // Adding to the unbounded sum is adding to what is in the accumulator.
  lemma AccumulatorShift(sum: nat, d: int)
    requires sum % ACC + d >= 0
    ensures sum + d >= 0 && (sum + d) % ACC == (sum % ACC + d) % ACC
  {
    var q, r := sum / ACC, sum % ACC;
    assert sum == q * ACC + r;
    assert sum + d == q * ACC + (r + d);
  }

  lemma PatchSum(s: seq<byte>, at: nat, c: word)
    requires at % 2 == 0 && at + 2 <= |s| && s[at] == 0 && s[at + 1] == 0
    ensures WordSum(Overwrite(s, at, Be16(c))) == WordSum(s) + c
  {
    PatchIsUpdates(s, at, c);
    var hi, lo := PairUpdate(s, at, c / 0x100, c % 0x100);
  }

  lemma PatchIsUpdates(s: seq<byte>, at: nat, c: word)
    requires at + 2 <= |s|
    ensures Overwrite(s, at, Be16(c)) == s[at := c / 0x100][at + 1 := c % 0x100]
  {
  }

  lemma ComplementCancels(sum: nat, c: word)
    requires c == 0xFFFF - Residue(sum) || (c == 0xFFFF && Residue(sum) == 0xFFFF)
    ensures sum + c > 0 && (sum + c) % 0xFFFF == 0
  {
    if sum > 0 {
      var q, r := (sum - 1) / 0xFFFF, (sum - 1) % 0xFFFF;
      assert sum + (0xFFFF - Residue(sum)) == (q + 1) * 0xFFFF;
    }
  }

  // ---------------------------------------------------------------------
  // Error detection
  // ---------------------------------------------------------------------

  // A change of at most 65535 to a positive multiple, in the accumulator.
  lemma ShiftedMultiple(sum: nat, hi: int, lo: int)
    requires sum < ACC && PositiveMultiple(sum)
    requires -0xFF <= hi <= 0xFF && -0xFF <= lo <= 0xFF
    ensures sum + hi * 0x100 + lo >= 0
    ensures PositiveMultiple((sum + hi * 0x100 + lo) % ACC) <==>
              || (hi == lo == 0)
              || (hi == lo == 0xFF && sum + 0xFFFF < ACC)
              || (hi == lo == -0xFF && sum > 0xFFFF)
  {
    var d := hi * 0x100 + lo;
    AtLeastOne(sum);
    MultipleOnlyIfAllOnes(hi, lo, sum);
    if sum + d >= ACC {
      assert (sum + d) % ACC == sum + d - ACC < 0xFFFF;
    } else {
      assert (sum + d) % ACC == sum + d;
    }
  }

  lemma AtLeastOne(sum: nat)
    requires PositiveMultiple(sum)
    ensures sum >= 0xFFFF
  {
  }

  // A valid buffer with one byte changed, hence with any one bit flipped,
  // no longer validates.
  lemma OneByteDetected(s: seq<byte>, i: nat, b: byte)
    requires i < |s| && b != s[i]
    requires InternetChecksum(s) == 0
    ensures InternetChecksum(s[i := b]) != 0
  {
    var hi, lo := if i % 2 == 0 then b - s[i] else 0, if i % 2 == 0 then 0 else b - s[i];
    WordSumUpdate(s, i, b);
    ValidIff(s);
    ValidIff(s[i := b]);
    ShiftedMultiple(Accumulated(s), hi, lo);
    AccumulatorShift(WordSum(s), hi * 0x100 + lo);
  }

  // Two adjacent bytes changed, aligned to a word or not: the change goes
  // unnoticed exactly when it swaps 00 00 with FF FF and the accumulator
  // neither overflows nor runs empty.
  lemma TwoBytesDetected(s: seq<byte>, i: nat, b: byte, c: byte)
    requires i + 1 < |s|
    requires b != s[i] || c != s[i + 1]
    requires InternetChecksum(s) == 0
    ensures var t := s[i := b][i + 1 := c];
            InternetChecksum(t) == 0 <==>
              (s[i] == s[i + 1] == 0 && b == c == 0xFF && Accumulated(s) + 0xFFFF < ACC) ||
              (s[i] == s[i + 1] == 0xFF && b == c == 0 && Accumulated(s) > 0xFFFF)
  {
    var t := s[i := b][i + 1 := c];
    var hi, lo := PairUpdate(s, i, b, c);
    ValidIff(s);
    ValidIff(t);
    ShiftedMultiple(Accumulated(s), hi, lo);
    AccumulatorShift(WordSum(s), hi * 0x100 + lo);
  }

  // Up to 131074 bytes it never overflows, and it runs empty only when the
  // buffer is then all zero.
  lemma TwoBytesDetectedShort(s: seq<byte>, i: nat, b: byte, c: byte)
    requires |s| <= 131074 && i + 1 < |s|
    requires b != s[i] || c != s[i + 1]
    requires InternetChecksum(s) == 0
    ensures var t := s[i := b][i + 1 := c];
            InternetChecksum(t) == 0 <==>
              (s[i] == s[i + 1] == 0 && b == c == 0xFF) ||
              (s[i] == s[i + 1] == 0xFF && b == c == 0 && exists k :: 0 <= k < |t| && t[k] != 0)
  {
    var t := s[i := b][i + 1 := c];
    var hi, lo := PairUpdate(s, i, b, c);
    TwoBytesDetected(s, i, b, c);
    ShortAccumulates(s);
    AccumulatorFits(t);
    ValidIff(s);
    AtLeastOne(Accumulated(s));
    WordSumZero(t);
  }

  lemma PairUpdate(s: seq<byte>, i: nat, b: byte, c: byte) returns (hi: int, lo: int)
    requires i + 1 < |s|
    ensures WordSum(s[i := b][i + 1 := c]) == WordSum(s) + hi * 0x100 + lo
    ensures if i % 2 == 0 then hi == b - s[i] && lo == c - s[i + 1] else hi == c - s[i + 1] && lo == b - s[i]
  {
    WordSumUpdate(s, i, b);
    WordSumUpdate(s[i := b], i + 1, c);
    assert s[i := b][i + 1] == s[i + 1];
    if i % 2 == 0 {
      hi, lo := b - s[i], c - s[i + 1];
    } else {
      hi, lo := c - s[i + 1], b - s[i];
    }
  }

  lemma MultipleOnlyIfAllOnes(hi: int, lo: int, sum: nat)
    requires -0xFF <= hi <= 0xFF && -0xFF <= lo <= 0xFF
    requires sum % 0xFFFF == 0
    ensures (sum + hi * 0x100 + lo) % 0xFFFF == 0 <==>
            (hi == lo == 0) || (hi == lo == 0xFF) || (hi == lo == -0xFF)
  {
    var d := hi * 0x100 + lo;
    var q := sum / 0xFFFF;
    assert sum == q * 0xFFFF;
    assert (q * 0xFFFF + d) % 0xFFFF == d % 0xFFFF;
    assert d % 0xFFFF == 0 <==> d == 0 || d == 0xFFFF || d == -0xFFFF;
  }

  lemma {:induction false} TotalPermutes(a: seq<word>, b: seq<word>)
    requires multiset(a) == multiset(b)
    ensures Total(a) == Total(b)
  {
    if |a| == 0 {
      assert |multiset(b)| == 0;
    } else {
      var k := SameElement(a, b);
      TotalPermutes(a[1..], b[..k] + b[k + 1..]);
      TotalTakesOut(b, k);
    }
  }

  lemma SameElement(a: seq<word>, b: seq<word>) returns (k: nat)
    requires multiset(a) == multiset(b) && |a| > 0
    ensures k < |b| && b[k] == a[0]
    ensures multiset(a[1..]) == multiset(b[..k] + b[k + 1..])
  {
    assert a[0] in multiset(b);
    k :| 0 <= k < |b| && b[k] == a[0];
    assert b == b[..k] + [b[k]] + b[k + 1..];
    assert a == [a[0]] + a[1..];
    assert multiset(a[1..]) == multiset(a) - multiset{a[0]};
    assert multiset(b[..k] + b[k + 1..]) == multiset(b) - multiset{b[k]};
  }

  lemma {:induction false} TotalTakesOut(b: seq<word>, k: nat)
    requires k < |b|
    ensures Total(b) == b[k] + Total(b[..k] + b[k + 1..])
  {
    if k == 0 {
      assert b[..k] + b[k + 1..] == b[1..];
    } else {
      TotalTakesOut(b[1..], k - 1);
      assert (b[..k] + b[k + 1..])[1..] == b[1..][..k - 1] + b[1..][k..];
    }
  }

  // Reordering aligned words never changes the checksum.
  lemma WordOrderIrrelevant(s: seq<byte>, t: seq<byte>)
    requires multiset(Words(s)) == multiset(Words(t))
    ensures InternetChecksum(s) == InternetChecksum(t)
  {
    WordSumIsTotal(s);
    WordSumIsTotal(t);
    TotalPermutes(Words(s), Words(t));
  }

  // ---------------------------------------------------------------------
  // The routines
  // ---------------------------------------------------------------------

  // `sum` after adding the words of data[start..start + length].
  method AddWords(data: array<byte>, start: nat, length: nat, sum0: dword) returns (sum: dword)
    requires start + length <= data.Length
    ensures sum == (sum0 + WordSum(data[start..start + length])) % ACC
  {
    ghost var d := data[start..start + length];
    sum := sum0;
    var index := 0;
    while index + 1 < length
      invariant index <= length && index % 2 == 0
      invariant sum == (sum0 + WordSum(d[..index])) % ACC
    {
      ghost var before := sum0 + WordSum(d[..index]);
      var pair := data[start + index] as int * 0x100 + data[start + index + 1];
      AddPair(d, index);
      Reduce(before, pair);
      assert before + pair == sum0 + WordSum(d[..index + 2]);
      sum := (sum + pair) % ACC;
      index := index + 2;
    }
    if index < length {
      ghost var before := sum0 + WordSum(d[..index]);
      var last := data[start + index] as int * 0x100;
      AddLast(d, index);
      Reduce(before, last);
      assert before + last == sum0 + WordSum(d);
      sum := (sum + last) % ACC;
    } else {
      assert d[..index] == d;
    }
  }

  lemma AddPair(d: seq<byte>, index: nat)
    requires index % 2 == 0 && index + 2 <= |d|
    ensures WordSum(d[..index + 2]) == WordSum(d[..index]) + (d[index] as int * 0x100 + d[index + 1])
  {
    var pair := [d[index], d[index + 1]];
    assert |pair[2..]| == 0;
    WordSumConcat(d[..index], pair);
    assert d[..index + 2] == d[..index] + pair;
  }

  lemma AddLast(d: seq<byte>, index: nat)
    requires index % 2 == 0 && |d| == index + 1
    ensures WordSum(d) == WordSum(d[..index]) + d[index] as int * 0x100
  {
    WordSumConcat(d[..index], [d[index]]);
    assert d == d[..index] + [d[index]];
  }

  lemma Reduce(a: nat, b: nat)
    ensures (a % ACC + b) % ACC == (a + b) % ACC
  {
    assert a + b == a % ACC + b + a / ACC * ACC;
  }

  method FoldCarries(sum0: dword) returns (sum: word)
    ensures sum == Fold(sum0)
  {
    var s: dword := sum0;
    while s / 0x1_0000 != 0
      invariant Fold(s) == Fold(sum0)
      decreases s
    {
      s := s % 0x1_0000 + s / 0x1_0000;
    }
    sum := s;
  }

  method ComputeChecksum(data: array<byte>, start: nat, length: nat) returns (c: word)
    requires start + length <= data.Length
    ensures c == InternetChecksum(data[start..start + length])
  {
    var sum := AddWords(data, start, length, 0);
    var folded := FoldCarries(sum);
    c := 0xFFFF - folded;
  }

  // The 12 bytes that RFC 768 and section 3.1 of RFC 793 put before a segment.
  function PseudoHeader(src: seq<byte>, dst: seq<byte>, protocol: byte, length: word): seq<byte> {
    src + dst + [0, protocol] + Be16(length)
  }

  // The pseudo-header is never laid out in memory, yet the value is that of
  // the plain checksum over pseudo-header and segment, odd lengths included.
  method ComputePseudoChecksum(src: seq<byte>, dst: seq<byte>, protocol: byte, length: word,
                        data: array<byte>, start: nat, dataLength: nat) returns (c: word)
    requires |src| == 4 && |dst| == 4 && start + dataLength <= data.Length
    ensures c == InternetChecksum(src + dst + [0, protocol, length / 0x100, length % 0x100] + data[start..start + dataLength])
    ensures c == InternetChecksum(PseudoHeader(src, dst, protocol, length) + data[start..start + dataLength])
  {
    var sum: int := 0;
    sum := sum + U16(src, 0);
    sum := sum + U16(src, 2);
    sum := sum + U16(dst, 0);
    sum := sum + U16(dst, 2);
    sum := sum + protocol;
    sum := sum + length;
    ghost var header := PseudoHeader(src, dst, protocol, length);
    assert header == src + dst + [0, protocol, length / 0x100, length % 0x100];
    PseudoHeaderSum(src, dst, protocol, length);
    WordSumConcat(header, data[start..start + dataLength]);
    var total := AddWords(data, start, dataLength, sum);
    var folded := FoldCarries(total);
    c := 0xFFFF - folded;
  }

  lemma PseudoHeaderSum(src: seq<byte>, dst: seq<byte>, protocol: byte, length: word)
    requires |src| == 4 && |dst| == 4
    ensures WordSum(PseudoHeader(src, dst, protocol, length)) ==
            U16(src, 0) + U16(src, 2) + U16(dst, 0) + U16(dst, 2) + protocol + length
  {
    WordSumConcat(src, dst + [0, protocol] + Be16(length));
    WordSumConcat(dst, [0, protocol] + Be16(length));
    assert PseudoHeader(src, dst, protocol, length) == src + (dst + [0, protocol] + Be16(length));
    assert dst + [0, protocol] + Be16(length) == dst + ([0, protocol] + Be16(length));
    FourByteSum(src);
    FourByteSum(dst);
    FourByteSum([0, protocol] + Be16(length));
  }

  lemma FourByteSum(s: seq<byte>)
    requires |s| == 4
    ensures WordSum(s) == U16(s, 0) + U16(s, 2)
  {
    assert |s[2..][2..]| == 0;
    assert WordSum(s[2..]) == U16(s, 2);
  }
}
