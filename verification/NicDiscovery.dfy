// The last step of NIC discovery: several firmware handles can stand for one
// card. For each MAC address only the richest handle stays; the table is
// compacted in place and renumbered.
module NicDiscovery {
  import opened Bytes

  // The HasXxx flags of an entry.
  datatype Stack = Stack(mnp: bool, arp: bool, ip4: bool, ip6: bool, tcp4: bool, udp4: bool, dhcp4: bool, dns4: bool,
                         http: bool, tls: bool)

  datatype Nic = Nic(handle: Option<nat>, mac: seq<byte>, index: nat, stack: Stack)

  function One(b: bool): nat {
    if b then 1 else 0
  }

  function Protocols(n: Nic): nat {
    var s := n.stack;
    One(s.mnp) + One(s.arp) + One(s.ip4) + One(s.ip6) + One(s.tcp4) + One(s.udp4) + One(s.dhcp4) + One(s.dns4)
    + One(s.http) + One(s.tls)
  }

  // The ten flags, each by itself.
  function Flags(s: Stack): seq<bool> {
    [s.mnp, s.arp, s.ip4, s.ip6, s.tcp4, s.udp4, s.dhcp4, s.dns4, s.http, s.tls]
  }

  // Protocols counts those that are set.
  lemma ProtocolsIsCount(n: Nic)
    ensures Protocols(n) == |set i | 0 <= i < 10 && Flags(n.stack)[i]|
  {
    var flags := Flags(n.stack);
    CountSet(flags, |flags|);
    assert SetOnes(flags, |flags|) == set i | 0 <= i < 10 && flags[i];
    CountTen(flags, |flags|);
  }

  function Count(flags: seq<bool>, k: nat): nat
    requires k <= |flags|
  {
    if k == 0 then 0 else Count(flags, k - 1) + One(flags[k - 1])
  }

  ghost function SetOnes(flags: seq<bool>, k: nat): set<int>
    requires k <= |flags|
  {
    set i | 0 <= i < k && flags[i]
  }

  lemma {:induction false} CountSet(flags: seq<bool>, k: nat)
    requires k <= |flags|
    ensures Count(flags, k) == |SetOnes(flags, k)|
  {
    if k == 0 {
      assert SetOnes(flags, 0) == {};
    } else {
      CountSet(flags, k - 1);
      var before := SetOnes(flags, k - 1);
      assert SetOnes(flags, k) == if flags[k - 1] then before + {k - 1} else before;
    }
  }

  lemma {:induction false} CountTwo(flags: seq<bool>, k: nat)
    requires k + 2 <= |flags|
    ensures Count(flags, k + 2) == Count(flags, k) + One(flags[k]) + One(flags[k + 1])
  {
    assert Count(flags, k + 1) == Count(flags, k) + One(flags[k]);
  }

  lemma {:induction false} CountTen(flags: seq<bool>, n: nat)
    requires |flags| == n == 10
    ensures Count(flags, n) == One(flags[0]) + One(flags[1]) + One(flags[2]) + One(flags[3]) + One(flags[4])
                               + One(flags[5]) + One(flags[6]) + One(flags[7]) + One(flags[8]) + One(flags[9])
  {
    CountTwo(flags, n - 2);
    CountTwo(flags, n - 4);
    CountTwo(flags, n - 6);
    CountTwo(flags, n - 8);
    CountTwo(flags, n - 10);
    assert Count(flags, n - 10) == 0;
  }

  predicate Live(n: Nic) {
    n.handle.Some?
  }

  // Entry `j` is preferred to entry `i` of the same card: more protocols, or
  // as many and earlier in the table.
  ghost predicate Beats(s: seq<Nic>, j: nat, i: nat)
    requires i < |s|
  {
    && j < |s| && j != i && Live(s[j]) && s[j].mac == s[i].mac
    && (Protocols(s[j]) > Protocols(s[i]) || (Protocols(s[j]) == Protocols(s[i]) && j < i))
  }

  ghost predicate Kept(s: seq<Nic>, i: nat)
    requires i < |s|
  {
    Live(s[i]) && forall j :: 0 <= j < |s| ==> !Beats(s, j, i)
  }

  lemma {:induction false} BestExists(s: seq<Nic>, k: nat) returns (b: nat)
    requires k < |s| && Live(s[k])
    ensures b < |s| && Kept(s, b) && s[b].mac == s[k].mac
    decreases 10 - Protocols(s[k]), k
  {
    if Kept(s, k) {
      b := k;
    } else {
      var j :| 0 <= j < |s| && Beats(s, j, k);
      b := BestExists(s, j);
    }
  }

  lemma BestIsUnique(s: seq<Nic>, i: nat, j: nat)
    requires i < |s| && j < |s| && Kept(s, i) && Kept(s, j) && s[i].mac == s[j].mac
    ensures i == j
  {
    assert i != j ==> Beats(s, i, j) || Beats(s, j, i);
  }

  // ---------------------------------------------------------------------
  // Marking
  // ---------------------------------------------------------------------

  ghost function Mark(s: seq<Nic>): seq<Nic> {
    seq(|s|, i requires 0 <= i < |s| => if Kept(s, i) then s[i] else s[i].(handle := None))
  }

  // The table while entries are being dropped from `s`.
  ghost predicate Dropping(s: seq<Nic>, t: seq<Nic>) {
    && |t| == |s|
    && (forall k :: 0 <= k < |s| ==> t[k] == s[k] || t[k] == s[k].(handle := None))
    && (forall k :: 0 <= k < |s| && Live(s[k]) && !Live(t[k]) ==> exists j :: 0 <= j < |s| && Beats(s, j, k))
  }

  // Entry `i` has been compared with all later entries before `to`.
  ghost predicate Settled(t: seq<Nic>, i: nat, to: nat) {
    i < |t| && Live(t[i]) ==> forall j :: i < j < to && j < |t| && t[j].mac == t[i].mac ==> !Live(t[j])
  }

  lemma DroppingDone(s: seq<Nic>, t: seq<Nic>)
    requires Dropping(s, t) && forall i :: 0 <= i < |s| ==> Settled(t, i, |s|)
    ensures t == Mark(s)
  {
    forall k | 0 <= k < |s| ensures t[k] == Mark(s)[k] {
      if Live(s[k]) {
        var b := BestExists(s, k);
        assert Live(t[b]);
        assert Settled(t, b, |s|) && Settled(t, k, |s|);
        if Live(t[k]) {
          assert b == k;
        } else {
          assert !Kept(s, k);
        }
      }
    }
  }

  method MarkDuplicates(nics: array<Nic>, count: nat)
    requires count <= nics.Length
    modifies nics
    ensures nics[..count] == Mark(old(nics[..count])) && nics[count..] == old(nics[count..])
  {
    ghost var s := nics[..count];
    var i := 0;
    while i < count
      invariant i <= count
      invariant Dropping(s, nics[..count]) && nics[count..] == old(nics[count..])
      invariant forall k :: 0 <= k < i ==> Settled(nics[..count], k, count)
    {
      CompareWithLater(nics, count, i, s);
      i := i + 1;
    }
    DroppingDone(s, nics[..count]);
  }

  function Without(t: seq<Nic>, k: nat): seq<Nic>
    requires k < |t|
  {
    t[k := t[k].(handle := None)]
  }

  lemma DropKeeps(s: seq<Nic>, t: seq<Nic>, k: nat)
    requires Dropping(s, t) && k < |s| && exists j :: 0 <= j < |s| && Beats(s, j, k)
    ensures Dropping(s, Without(t, k))
  {
    var u := Without(t, k);
    assert forall m :: 0 <= m < |s| && m != k ==> u[m] == t[m];
  }

  lemma DropSettles(t: seq<Nic>, k: nat, i: nat, to: nat)
    requires k < |t| && Settled(t, i, to)
    ensures Settled(Without(t, k), i, to)
  {
  }

  // Nics[k].Handle = NULL
  method Drop(nics: array<Nic>, count: nat, k: nat, ghost s: seq<Nic>, ghost settled: nat, ghost i: nat, ghost to: nat)
    requires k < count <= nics.Length
    requires Dropping(s, nics[..count]) && exists j :: 0 <= j < |s| && Beats(s, j, k)
    requires forall m :: 0 <= m < settled ==> Settled(nics[..count], m, count)
    requires Settled(nics[..count], i, to)
    modifies nics
    ensures nics[..count] == Without(old(nics[..count]), k) && nics[count..] == old(nics[count..])
    ensures Dropping(s, nics[..count])
    ensures forall m :: 0 <= m < settled ==> Settled(nics[..count], m, count)
    ensures Settled(nics[..count], i, to)
  {
    ghost var t := nics[..count];
    DropKeeps(s, t, k);
    DropSettles(t, k, i, to);
    forall m | 0 <= m < settled ensures Settled(Without(t, k), m, count) {
      DropSettles(t, k, m, count);
    }
    nics[k] := nics[k].(handle := None);
    assert nics[..count] == Without(t, k);
  }

  // The inner loop: entry `i` against those behind it, until it is dropped.
  method CompareWithLater(nics: array<Nic>, count: nat, i: nat, ghost s: seq<Nic>)
    requires i < count <= nics.Length
    requires Dropping(s, nics[..count])
    requires forall k :: 0 <= k < i ==> Settled(nics[..count], k, count)
    modifies nics
    ensures Dropping(s, nics[..count]) && nics[count..] == old(nics[count..])
    ensures forall k :: 0 <= k <= i ==> Settled(nics[..count], k, count)
  {
    if nics[i].handle == None {
      return;
    }
    var j := i + 1;
    while j < count
      invariant i < j <= count && Live(nics[i])
      invariant Dropping(s, nics[..count]) && nics[count..] == old(nics[count..])
      invariant forall k :: 0 <= k < i ==> Settled(nics[..count], k, count)
      invariant Settled(nics[..count], i, j)
    {
      if nics[j].handle != None && nics[i].mac == nics[j].mac {
        SameEntries(s, nics[..count], i, j);
        if Protocols(nics[j]) > Protocols(nics[i]) {
          Drop(nics, count, i, s, i, i, j);
          return;
        } else {
          Drop(nics, count, j, s, i, i, j);
        }
      }
      SettledNext(nics[..count], i, j);
      j := j + 1;
    }
  }

  lemma SameEntries(s: seq<Nic>, t: seq<Nic>, i: nat, j: nat)
    requires Dropping(s, t) && i < j < |s| && Live(t[i]) && Live(t[j]) && t[i].mac == t[j].mac
    ensures s[i] == t[i] && s[j] == t[j]
    ensures if Protocols(t[j]) > Protocols(t[i]) then Beats(s, j, i) else Beats(s, i, j)
  {
  }

  lemma SettledNext(t: seq<Nic>, i: nat, j: nat)
    requires i < j < |t| && Settled(t, i, j) && (t[i].mac == t[j].mac ==> !Live(t[j]))
    ensures Settled(t, i, j + 1)
  {
  }

  // ---------------------------------------------------------------------
  // Compacting
  // ---------------------------------------------------------------------

  function Compact(s: seq<Nic>): seq<Nic> {
    if s == [] then []
    else
      var front := Compact(s[..|s| - 1]);
      var last := s[|s| - 1];
      if Live(last) then front + [last.(index := |front|)] else front
  }

  // Move entry `from` down to `to` and number it.
  method Keep(nics: array<Nic>, to: nat, from: nat)
    requires to <= from < nics.Length
    modifies nics
    ensures nics[..to + 1] == old(nics[..to]) + [old(nics[from]).(index := to)]
    ensures forall k :: to < k < nics.Length ==> nics[k] == old(nics[k])
  {
    if to != from {
      nics[to] := nics[from];
    }
    nics[to] := nics[to].(index := to);
  }

  method CompactTable(nics: array<Nic>, count: nat) returns (finalCount: nat)
    requires count <= nics.Length
    modifies nics
    ensures finalCount <= count && nics[..finalCount] == Compact(old(nics[..count]))
  {
    ghost var s := nics[..count];
    finalCount := 0;
    var i := 0;
    while i < count
      invariant finalCount <= i <= count
      invariant nics[..finalCount] == Compact(s[..i])
      invariant forall k :: i <= k < count ==> nics[k] == s[k]
    {
      assert s[..i + 1][..i] == s[..i];
      if nics[i].handle != None {
        Keep(nics, finalCount, i);
        finalCount := finalCount + 1;
      }
      i := i + 1;
    }
    assert s[..i] == s;
  }

  // ---------------------------------------------------------------------
  // The whole block
  // ---------------------------------------------------------------------

  ghost function Survivors(s: seq<Nic>): seq<Nic> {
    Compact(Mark(s))
  }

  method Deduplicate(nics: array<Nic>, count: nat) returns (finalCount: nat, found: bool)
    requires count <= nics.Length
    modifies nics
    ensures finalCount <= count && nics[..finalCount] == Survivors(old(nics[..count]))
    ensures found <==> finalCount > 0
  {
    MarkDuplicates(nics, count);
    finalCount := CompactTable(nics, count);
    found := finalCount > 0;
  }

  // The positions of the kept entries, in table order.
  ghost function KeptPositions(s: seq<Nic>, n: nat): seq<nat>
    requires n <= |s|
  {
    if n == 0 then [] else KeptPositions(s, n - 1) + (if Kept(s, n - 1) then [n - 1] else [])
  }

  lemma {:induction false} PositionsOrdered(s: seq<Nic>, n: nat)
    requires n <= |s|
    ensures var p := KeptPositions(s, n);
            && (forall a :: 0 <= a < |p| ==> p[a] < n && Kept(s, p[a]))
            && (forall a, b :: 0 <= a < b < |p| ==> p[a] < p[b])
            && (forall k :: 0 <= k < n && Kept(s, k) ==> k in p)
  {
    if n > 0 {
      PositionsOrdered(s, n - 1);
    }
  }

  lemma {:induction false} CompactPositions(s: seq<Nic>, n: nat)
    requires n <= |s|
    ensures var p := KeptPositions(s, n);
            var r := Compact(Mark(s)[..n]);
            |r| == |p| && forall a :: 0 <= a < |p| ==> p[a] < |s| && r[a] == s[p[a]].(index := a)
  {
    if n > 0 {
      CompactPositions(s, n - 1);
      assert Mark(s)[..n][..n - 1] == Mark(s)[..n - 1];
    }
  }

  // `p` lists the positions of the kept entries, all of them, in order.
  ghost predicate Covers(s: seq<Nic>, p: seq<nat>) {
    && (forall a :: 0 <= a < |p| ==> p[a] < |s| && Kept(s, p[a]))
    && (forall a, b :: 0 <= a < b < |p| ==> p[a] < p[b])
    && (forall k :: 0 <= k < |s| && Kept(s, k) ==> k in p)
  }

  // `r` holds the entries of `s` at the positions `p`, renumbered.
  ghost predicate Picks(s: seq<Nic>, p: seq<nat>, r: seq<Nic>) {
    |r| == |p| && forall a :: 0 <= a < |p| ==> p[a] < |s| && r[a] == s[p[a]].(index := a)
  }

  lemma SurvivorMacsDiffer(s: seq<Nic>, p: seq<nat>, r: seq<Nic>, a: nat, b: nat)
    requires Covers(s, p) && Picks(s, p, r) && a < b < |p|
    ensures p[a] < p[b] && r[a].mac != r[b].mac
  {
    assert r[a].mac == s[p[a]].mac && r[b].mac == s[p[b]].mac;
    if s[p[a]].mac == s[p[b]].mac {
      BestIsUnique(s, p[a], p[b]);
    }
  }

  lemma EveryCardStays(s: seq<Nic>, p: seq<nat>, r: seq<Nic>, k: nat) returns (a: nat)
    requires Covers(s, p) && Picks(s, p, r) && k < |s| && Live(s[k])
    ensures a < |r| && r[a].mac == s[k].mac
  {
    var b := BestExists(s, k);
    assert b in p;
    a :| 0 <= a < |p| && p[a] == b;
    assert r[a].mac == s[p[a]].mac;
  }

  // One entry for each card.
  ghost predicate OneEach(s: seq<Nic>, r: seq<Nic>) {
    && (forall a, b :: 0 <= a < b < |r| ==> r[a].mac != r[b].mac)
    && (forall k :: 0 <= k < |s| && Live(s[k]) ==> exists a :: 0 <= a < |r| && r[a].mac == s[k].mac)
  }

  lemma PicksOneEach(s: seq<Nic>, p: seq<nat>, r: seq<Nic>)
    requires Covers(s, p) && Picks(s, p, r)
    ensures OneEach(s, r)
  {
    forall a, b | 0 <= a < b < |r| ensures r[a].mac != r[b].mac {
      SurvivorMacsDiffer(s, p, r, a, b);
    }
    forall k | 0 <= k < |s| && Live(s[k]) ensures exists a :: 0 <= a < |r| && r[a].mac == s[k].mac {
      var a := EveryCardStays(s, p, r, k);
    }
  }

  // No live entry of the same card has more protocols than a survivor, and none
  // before it has as many.
  ghost predicate Richest(s: seq<Nic>, p: seq<nat>, r: seq<Nic>)
    requires |p| == |r|
  {
    forall a, j :: 0 <= a < |r| && 0 <= j < |s| && s[j].handle.Some? && s[j].mac == r[a].mac ==>
      Protocols(s[j]) < Protocols(r[a]) || (Protocols(s[j]) == Protocols(r[a]) && p[a] <= j)
  }

  lemma PicksRichest(s: seq<Nic>, p: seq<nat>, r: seq<Nic>)
    requires Covers(s, p) && Picks(s, p, r)
    ensures Richest(s, p, r)
  {
    forall a, j | 0 <= a < |r| && 0 <= j < |s| && s[j].handle.Some? && s[j].mac == r[a].mac
      ensures Protocols(s[j]) < Protocols(r[a]) || (Protocols(s[j]) == Protocols(r[a]) && p[a] <= j)
    {
      assert Kept(s, p[a]) && r[a] == s[p[a]].(index := a);
      assert !Beats(s, j, p[a]);
    }
  }

  // The survivors are the kept entries in their old order, each numbered by
  // its new position; there is exactly one for every MAC address present, the
  // earliest of the richest.
  lemma OnePerCard(s: seq<Nic>)
    ensures Covers(s, KeptPositions(s, |s|))
    ensures Picks(s, KeptPositions(s, |s|), Survivors(s))
    ensures OneEach(s, Survivors(s)) && Richest(s, KeptPositions(s, |s|), Survivors(s))
  {
    PositionsOrdered(s, |s|);
    CompactPositions(s, |s|);
    assert Mark(s)[..|s|] == Mark(s);
    PicksOneEach(s, KeptPositions(s, |s|), Survivors(s));
    PicksRichest(s, KeptPositions(s, |s|), Survivors(s));
  }
}
