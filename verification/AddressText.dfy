// The text of an IPv4 address, read back: decimal numbers without leading
// zeros between dots.
module AddressText {
  import opened Bytes
  import opened DnsNames
  import opened DnsResponder

  // ---------------------------------------------------------------------
  // Decimal numbers
  // ---------------------------------------------------------------------

  ghost predicate Digits(t: string) {
    forall i :: 0 <= i < |t| ==> '0' <= t[i] <= '9'
  }

  // The number that decimal text stands for.
  ghost function Read(t: string): nat
    requires Digits(t)
  {
    if t == [] then 0 else 10 * Read(t[..|t| - 1]) + (t[|t| - 1] as int - '0' as int)
  }

  // Without a leading zero.
  ghost predicate Canonical(t: string) {
    t != [] && Digits(t) && (|t| > 1 ==> t[0] != '0')
  }

  lemma ReadSnoc(t: string, d: nat)
    requires Digits(t) && d < 10
    ensures Digits(t + [Digit(d)]) && Read(t + [Digit(d)]) == 10 * Read(t) + d
  {
    assert (t + [Digit(d)])[..|t|] == t;
  }

  lemma OneDigit(x: nat)
    requires x < 10
    ensures Digits([Digit(x)]) && Read([Digit(x)]) == x
  {
    ReadSnoc([], x);
    assert [] + [Digit(x)] == [Digit(x)];
  }

  lemma TwoDigits(x: nat, y: nat)
    requires x < 10 && y < 10
    ensures Digits([Digit(x), Digit(y)]) && Read([Digit(x), Digit(y)]) == 10 * x + y
  {
    OneDigit(x);
    ReadSnoc([Digit(x)], y);
    assert [Digit(x)] + [Digit(y)] == [Digit(x), Digit(y)];
  }

  lemma ThreeDigits(x: nat, y: nat, z: nat)
    requires x < 10 && y < 10 && z < 10
    ensures Digits([Digit(x), Digit(y), Digit(z)]) && Read([Digit(x), Digit(y), Digit(z)]) == 10 * (10 * x + y) + z
  {
    TwoDigits(x, y);
    ReadSnoc([Digit(x), Digit(y)], z);
    assert [Digit(x), Digit(y)] + [Digit(z)] == [Digit(x), Digit(y), Digit(z)];
  }

  lemma DigitsOf(b: byte)
    ensures b / 10 < 10 ==> 10 * (b / 10) + b % 10 == b
    ensures b / 100 < 10 && 10 * (10 * (b / 100) + b / 10 % 10) + b % 10 == b
  {
  }

  // str(b) is the number's text.
  lemma DecimalReads(b: byte)
    ensures Canonical(Decimal(b)) && Read(Decimal(b)) == b
  {
    DigitsOf(b);
    if b < 10 {
      OneDigit(b);
    } else if b < 100 {
      TwoDigits(b / 10, b % 10);
    } else {
      ThreeDigits(b / 100, b / 10 % 10, b % 10);
    }
  }

  lemma {:induction false} CanonicalPositive(t: string)
    requires Digits(t) && t != [] && t[0] != '0'
    ensures Read(t) > 0
  {
    if |t| > 1 {
      CanonicalPositive(t[..|t| - 1]);
    }
  }

  // A number has one such text only.
  lemma {:induction false} CanonicalUnique(s: string, t: string)
    requires Canonical(s) && Canonical(t) && Read(s) == Read(t)
    ensures s == t
    decreases |s|
  {
    var s', t' := s[..|s| - 1], t[..|t| - 1];
    var m, n := s[|s| - 1] as int - '0' as int, t[|t| - 1] as int - '0' as int;
    SameDigits(Read(s'), Read(t'), m, n);
    if |s| > 1 {
      CanonicalPositive(s');
    }
    if |t| > 1 {
      CanonicalPositive(t');
    }
    if |s| > 1 && |t| > 1 {
      CanonicalUnique(s', t');
    }
    assert s == s' + [s[|s| - 1]] && t == t' + [t[|t| - 1]];
  }

  lemma SameDigits(a: nat, b: nat, m: int, n: int)
    requires 0 <= m < 10 && 0 <= n < 10 && 10 * a + m == 10 * b + n
    ensures a == b && m == n
  {
  }

  // ---------------------------------------------------------------------
  // Addresses
  // ---------------------------------------------------------------------

  // These parts, in this order, are the bytes of an address.
  ghost predicate Spell(parts: seq<string>, q: Quad) {
    |parts| == 4 && forall k :: 0 <= k < 4 ==> Canonical(parts[k]) && Read(parts[k]) == q[k]
  }

  lemma DecimalParts(q: Quad)
    ensures Spell([Decimal(q[0]), Decimal(q[1]), Decimal(q[2]), Decimal(q[3])], q)
  {
    DecimalReads(q[0]);
    DecimalReads(q[1]);
    DecimalReads(q[2]);
    DecimalReads(q[3]);
  }

  // The four parts of the dotted text read as the address.
  lemma DottedReads(q: Quad)
    ensures Spell(Split(Dotted(q)), q)
  {
    var parts := [Decimal(q[0]), Decimal(q[1]), Decimal(q[2]), Decimal(q[3])];
    DecimalParts(q);
    forall k | 0 <= k < 4 ensures DotFree(parts[k]) {
      assert Canonical(parts[k]);
    }
    SplitJoin(parts);
  }

  // No two addresses share a text.
  lemma DottedInjective(p: Quad, q: Quad)
    ensures Dotted(p) == Dotted(q) <==> p == q
  {
    DottedReads(p);
    DottedReads(q);
    if Dotted(p) == Dotted(q) {
      assert forall k :: 0 <= k < 4 ==> p[k] == Read(Split(Dotted(p))[k]) == q[k];
      assert p == q;
    }
  }

  // And no text but the dotted one reads as the address.
  lemma SpellIsDotted(parts: seq<string>, q: Quad)
    requires Spell(parts, q)
    ensures Join(parts) == Dotted(q)
  {
    var own := [Decimal(q[0]), Decimal(q[1]), Decimal(q[2]), Decimal(q[3])];
    DecimalParts(q);
    forall k | 0 <= k < 4 ensures parts[k] == own[k] {
      CanonicalUnique(parts[k], own[k]);
    }
    assert parts == own;
  }

  // ---------------------------------------------------------------------
  // Text helpers
  // ---------------------------------------------------------------------

  // Only the 26 capitals change.
  lemma LowerAt(s: string, i: nat)
    requires i < |s|
    ensures |Lower(s)| == |s|
    ensures Lower(s)[i] == if 'A' <= s[i] <= 'Z' then "abcdefghijklmnopqrstuvwxyz"[s[i] as int - 65] else s[i]
  {
  }

  // Dots at the end go, however many, and nothing else does.
  lemma {:induction false} DotsStripped(s: string, n: nat)
    requires s != [] ==> s[|s| - 1] != '.'
    ensures StripDots(s + seq(n, _ => '.')) == s
  {
    var t := s + seq(n, _ => '.');
    if n > 0 {
      assert t[..|t| - 1] == s + seq(n - 1, _ => '.');
      DotsStripped(s, n - 1);
    } else {
      assert t == s;
    }
  }

  // A part of a text stands somewhere between what is before and behind it.
  lemma ContainsIff(s: string, part: string)
    ensures Contains(s, part) <==> exists before, behind :: s == before + part + behind
  {
    if Contains(s, part) {
      var i :| 0 <= i <= |s| - |part| && At(s, i, part);
      assert s == s[..i] + part + s[i + |part|..];
    }
    if before, behind :| s == before + part + behind {
      assert s[|before|..|before| + |part|] == part;
      assert At(s, |before|, part);
    }
  }
}
