// Statistics and history of the periodic echo probes.
module ProbeStats {
  import opened Bytes
  import Ring

  const PROBE_HISTORY_SIZE := 12
  const STATUS_PASS: dword := 1
  const UINT32 := 0x1_0000_0000
  const UINT64 := 0x1_0000_0000_0000_0000

  datatype Entry = Entry(seqId: dword, status: dword, rttUs: dword)

  // ---------------------------------------------------------------------
  // What the counters mean
  // ---------------------------------------------------------------------

  // The round-trip times of the probes that passed, in order.
  function Passed(log: seq<Entry>): seq<dword> {
    if log == [] then []
    else Passed(log[..|log| - 1]) + (if log[|log| - 1].status == STATUS_PASS then [log[|log| - 1].rttUs] else [])
  }

  function Sum(rtts: seq<dword>): nat {
    if rtts == [] then 0 else Sum(rtts[..|rtts| - 1]) + rtts[|rtts| - 1]
  }

  // 0xFFFFFFFF while there is none.
  function Least(rtts: seq<dword>): dword {
    if rtts == [] then 0xFFFF_FFFF
    else if rtts[|rtts| - 1] < Least(rtts[..|rtts| - 1]) then rtts[|rtts| - 1] else Least(rtts[..|rtts| - 1])
  }

  function Greatest(rtts: seq<dword>): dword {
    if rtts == [] then 0
    else if rtts[|rtts| - 1] > Greatest(rtts[..|rtts| - 1]) then rtts[|rtts| - 1] else Greatest(rtts[..|rtts| - 1])
  }

  // Status 1 is a pass; what is done to one entry after the other.
  lemma {:induction false} PassedConcat(a: seq<Entry>, b: seq<Entry>)
    ensures Passed(a + b) == Passed(a) + Passed(b)
    ensures |b| == 1 ==> Passed(b) == if b[0].status == 1 then [b[0].rttUs] else []
  {
    if b == [] {
      assert a + b == a;
    } else {
      var front := b[..|b| - 1];
      PassedConcat(a, front);
      assert (a + b)[..|a + b| - 1] == a + front;
    }
  }

  lemma {:induction false} SumConcat(a: seq<dword>, b: seq<dword>)
    ensures Sum(a + b) == Sum(a) + Sum(b)
    ensures |b| == 1 ==> Sum(b) == b[0]
  {
    if b == [] {
      assert a + b == a;
    } else {
      var front := b[..|b| - 1];
      SumConcat(a, front);
      assert (a + b)[..|a + b| - 1] == a + front;
    }
  }

  lemma {:induction false} LeastIsMinimum(rtts: seq<dword>)
    requires rtts != []
    ensures Least(rtts) in rtts && forall i :: 0 <= i < |rtts| ==> Least(rtts) <= rtts[i]
  {
    var front, last := rtts[..|rtts| - 1], rtts[|rtts| - 1];
    assert rtts == front + [last];
    if front != [] {
      LeastIsMinimum(front);
    } else {
      assert Least(rtts) == last;
    }
  }

  lemma {:induction false} GreatestIsMaximum(rtts: seq<dword>)
    requires rtts != []
    ensures Greatest(rtts) in rtts && forall i :: 0 <= i < |rtts| ==> rtts[i] <= Greatest(rtts)
  {
    var front, last := rtts[..|rtts| - 1], rtts[|rtts| - 1];
    assert rtts == front + [last];
    if front != [] {
      GreatestIsMaximum(front);
    } else {
      assert Greatest(rtts) == last;
    }
  }

  lemma {:induction false} PassedLength(log: seq<Entry>)
    ensures |Passed(log)| <= |log|
  {
    if log != [] {
      PassedLength(log[..|log| - 1]);
    }
  }

  // The probes that did not pass.
  function Lost(log: seq<Entry>): nat {
    PassedLength(log);
    |log| - |Passed(log)|
  }

  lemma Increment(n: nat)
    ensures (n % UINT32 + 1) % UINT32 == (n + 1) % UINT32
  {
  }

  lemma AtMost(n: nat)
    ensures n % UINT32 <= n
  {
  }

  lemma Below(n: nat)
    requires n < UINT32
    ensures n % UINT32 == n
  {
  }

  lemma SumModulo(a: nat, b: nat)
    ensures (a + b % UINT32) % UINT32 == (a + b) % UINT32
  {
    assert a + b == a + b % UINT32 + b / UINT32 * UINT32;
  }

  lemma {:induction false} SumBound(rtts: seq<dword>)
    ensures Sum(rtts) <= 0xFFFF_FFFF * |rtts|
  {
    if rtts != [] {
      SumBound(rtts[..|rtts| - 1]);
    }
  }

  function Average(rtts: seq<dword>): nat {
    if rtts == [] then 0 else Sum(rtts) / |rtts|
  }

  // The truncated average fits 32 bits, so the cast loses nothing.
  lemma AverageFits(rtts: seq<dword>)
    requires rtts != []
    ensures Average(rtts) <= 0xFFFF_FFFF
  {
    SumBound(rtts);
    QuotientBound(Sum(rtts), |rtts|, 0xFFFF_FFFF);
  }

  lemma {:induction false} NegativeProduct(d: int, n: nat)
    requires n > 0
    ensures d < 0 ==> d * n < 0
    decreases n
  {
    if n > 1 {
      NegativeProduct(d, n - 1);
      assert d * n == d * (n - 1) + d;
    }
  }

  lemma QuotientBound(a: nat, n: nat, b: nat)
    requires n > 0 && a <= b * n
    ensures a / n <= b
  {
    assert a == a / n * n + a % n;
    NegativeProduct(b - a / n, n);
    assert (b - a / n) * n == b * n - a / n * n;
  }

  // One more round-trip time.
  lemma OneMore(rtts: seq<dword>, r: dword)
    requires |rtts| < 0xFFFF_FFFF
    ensures Sum(rtts + [r]) == Sum(rtts) + r < UINT64
    ensures Least(rtts + [r]) == if r < Least(rtts) || |rtts| == 0 then r else Least(rtts)
    ensures Greatest(rtts + [r]) == if r > Greatest(rtts) then r else Greatest(rtts)
    ensures Average(rtts + [r]) == (Sum(rtts) + r) / (|rtts| + 1) <= 0xFFFF_FFFF
  {
    assert (rtts + [r])[..|rtts|] == rtts;
    SumBound(rtts + [r]);
    AverageFits(rtts + [r]);
  }

  // ---------------------------------------------------------------------
  // The statistics object
  // ---------------------------------------------------------------------

  class Stats {
    var sent: dword
    var received: dword
    var lost: dword
    var rttMinUs: dword
    var rttMaxUs: dword
    var rttAvgUs: dword
    var rttLastUs: dword
    var rttTotalUs: nat      // UINT64
    var nextSeqId: dword
    var history: array<Entry>
    var historyHead: nat
    // Every probe recorded, oldest first.
    ghost var log: seq<Entry>

    // The round-trip fields are those of exactly these times.
    ghost predicate Timing(rtts: seq<dword>)
      reads `received, `rttMinUs, `rttMaxUs, `rttAvgUs, `rttLastUs, `rttTotalUs
    {
      && received == |rtts| && rttTotalUs == Sum(rtts)
      && rttMinUs == Least(rtts) && rttMaxUs == Greatest(rtts) && rttAvgUs == Average(rtts)
      && rttLastUs == (if rtts == [] then 0 else rtts[|rtts| - 1])
    }

    // The 32-bit counters wrap; exact until then.
    ghost predicate Counters(log: seq<Entry>)
      reads this
    {
      Timing(Passed(log)) && Tallied(|log|, Lost(log))
    }

    ghost predicate Tallied(probes: nat, losses: nat)
      reads `sent, `lost, `nextSeqId
    {
      sent == probes % UINT32 && lost == losses % UINT32 && nextSeqId == (probes + 1) % UINT32
    }

    ghost predicate HistoryKept()
      reads this, history
    {
      && historyHead == |log| % PROBE_HISTORY_SIZE
      && history.Length == PROBE_HISTORY_SIZE && Ring.Stored(history[..], log)
      && forall k :: 0 <= k < |log| ==> log[k].seqId == (k + 1) % UINT32
    }

    ghost predicate Valid()
      reads this, history
    {
      Counters(log) && HistoryKept()
    }

    constructor ()
      ensures Valid() && fresh(history) && log == []
    {
      history := new Entry[PROBE_HISTORY_SIZE](_ => Entry(0, 0, 0));
      sent, received, lost, rttMinUs, rttMaxUs, rttAvgUs, rttLastUs, rttTotalUs := 0, 0, 0, 0xFFFF_FFFF, 0, 0, 0, 0;
      nextSeqId, historyHead, log := 1, 0, [];
    }

    // Any probe but one: after 2^32 - 1 passes another would wrap Received to
    // 0, and the average divides by it.
    method RecordResult(status: dword, rttUs: dword)
      requires Valid() && (status == STATUS_PASS ==> received < 0xFFFF_FFFF)
      modifies this, history
      ensures Valid() && history == old(history)
      ensures log == old(log) + [Entry((|old(log)| + 1) % 0x1_0000_0000, status, rttUs)]
    {
      ghost var before := log;
      Remember(status, rttUs);
      Tally(status, rttUs, before);
    }

    // The counters.
    method Tally(status: dword, rttUs: dword, ghost before: seq<Entry>)
      requires Counters(before) && (status == STATUS_PASS ==> received < 0xFFFF_FFFF)
      modifies this`sent, this`received, this`lost, this`nextSeqId
      modifies this`rttMinUs, this`rttMaxUs, this`rttAvgUs, this`rttLastUs, this`rttTotalUs
      ensures Counters(before + [Entry(old(nextSeqId), status, rttUs)])
    {
      ghost var probe := Entry(nextSeqId, status, rttUs);
      PassedSnoc(before, probe);
      CountProbe(|before|, Lost(before));
      if status == STATUS_PASS {
        RecordTime(rttUs, Passed(before));
        assert Tallied(|before + [probe]|, Lost(before + [probe]));
      } else {
        CountLoss(|before| + 1, Lost(before));
      }
    }

    method CountProbe(ghost probes: nat, ghost losses: nat)
      requires Tallied(probes, losses)
      modifies this`sent, this`nextSeqId
      ensures Tallied(probes + 1, losses)
    {
      Increment(probes);
      Increment(probes + 1);
      nextSeqId := (nextSeqId + 1) % UINT32;
      sent := (sent + 1) % UINT32;
    }

    method CountLoss(ghost probes: nat, ghost losses: nat)
      requires Tallied(probes, losses)
      modifies this`lost
      ensures Tallied(probes, losses + 1)
    {
      Increment(losses);
      lost := (lost + 1) % UINT32;
    }

    // The ring buffer part.
    method Remember(status: dword, rttUs: dword)
      requires HistoryKept() && nextSeqId == (|log| + 1) % UINT32
      modifies this`historyHead, this`log, history
      ensures HistoryKept() && log == old(log) + [Entry(nextSeqId, status, rttUs)]
    {
      Ring.StoreNext(history[..], log, Entry(nextSeqId, status, rttUs));
      Ring.NextSlot(|log|, PROBE_HISTORY_SIZE);
      history[historyHead] := Entry(nextSeqId, status, rttUs);
      historyHead := (historyHead + 1) % PROBE_HISTORY_SIZE;
      log := log + [Entry(nextSeqId, status, rttUs)];
    }

    // Sent is what was received and lost, and over fewer than 2^32 probes all
    // counters are exact; then NextSeqId is one more than Sent, or wraps to 0.
    lemma CountersAddUp()
      requires Valid()
      ensures sent == (received + lost) % 0x1_0000_0000
      ensures |log| < 0x1_0000_0000 ==> sent == |log| == received + lost && nextSeqId == (sent + 1) % 0x1_0000_0000
    {
      SumModulo(|Passed(log)|, Lost(log));
      if |log| < UINT32 {
        Below(|log|);
        Below(Lost(log));
      }
    }

    // What the round-trip fields hold.
    lemma TimesMean()
      requires Valid()
      ensures received == |Passed(log)|
      ensures Passed(log) == [] ==> rttMinUs == 0xFFFF_FFFF && rttMaxUs == rttAvgUs == rttLastUs == 0
      ensures Passed(log) != [] ==>
                var t := Passed(log);
                && rttMinUs in t && rttMaxUs in t && (forall i :: 0 <= i < |t| ==> rttMinUs <= t[i] <= rttMaxUs)
                && rttLastUs == t[|t| - 1] && rttAvgUs == Sum(t) / |t|
    {
      if Passed(log) != [] {
        LeastIsMinimum(Passed(log));
        GreatestIsMaximum(Passed(log));
      }
    }

    // The PASS branch.
    method RecordTime(rttUs: dword, ghost rtts: seq<dword>)
      requires Timing(rtts) && |rtts| < 0xFFFF_FFFF
      modifies this`received, this`rttMinUs, this`rttMaxUs, this`rttAvgUs, this`rttLastUs, this`rttTotalUs
      ensures Timing(rtts + [rttUs])
    {
      OneMore(rtts, rttUs);
      NoWrap(rttTotalUs + rttUs);
      received := received + 1;
      rttLastUs := rttUs;
      rttTotalUs := (rttTotalUs + rttUs) % UINT64;
      assert rttTotalUs / received == Average(rtts + [rttUs]);
      rttAvgUs := rttTotalUs / received;
      if rttUs < rttMinUs || received == 1 {
        rttMinUs := rttUs;
      }
      if rttUs > rttMaxUs {
        rttMaxUs := rttUs;
      }
    }

    // The probe page reads the `i`-th newest result, for every one it shows.
    method Newest(i: nat) returns (entry: Entry)
      requires Valid() && i < sent && i < 12
      ensures entry == log[|log| - 1 - i]
    {
      AtMost(|log|);
      var index := ReaderIndex(historyHead, i);
      ReaderIndexIs(|log|, i);
      RingHolds(i);
      entry := history[index];
    }

    lemma RingHolds(i: nat)
      requires HistoryKept() && i < |log| && i < PROBE_HISTORY_SIZE
      ensures history[(|log| - 1 - i) % PROBE_HISTORY_SIZE] == log[|log| - 1 - i]
    {
      Ring.Fetch(history[..], log, |log| - 1 - i);
    }
  }

  lemma PassedSnoc(log: seq<Entry>, e: Entry)
    ensures Passed(log + [e]) == if e.status == STATUS_PASS then Passed(log) + [e.rttUs] else Passed(log)
    ensures Lost(log + [e]) == if e.status == STATUS_PASS then Lost(log) else Lost(log) + 1
  {
    assert (log + [e])[..|log|] == log;
  }

  // UINTN arithmetic: HistoryHead - 1 - I may wrap below zero.
  function ReaderIndex(head: nat, i: nat): nat
    requires head < PROBE_HISTORY_SIZE && i < PROBE_HISTORY_SIZE
  {
    if head == 0 then PROBE_HISTORY_SIZE - 1 - i
    else ((head - 1 - i) % UINT64 + PROBE_HISTORY_SIZE) % UINT64 % PROBE_HISTORY_SIZE
  }

  lemma ReaderIndexIs(n: nat, i: nat)
    requires i < n && i < PROBE_HISTORY_SIZE
    ensures ReaderIndex(n % PROBE_HISTORY_SIZE, i) == (n - 1 - i) % PROBE_HISTORY_SIZE
  {
    var q, r := n / PROBE_HISTORY_SIZE, n % PROBE_HISTORY_SIZE;
    assert n == q * PROBE_HISTORY_SIZE + r;
    if r - 1 - i < 0 {
      assert n - 1 - i == (q - 1) * PROBE_HISTORY_SIZE + (r - 1 - i + PROBE_HISTORY_SIZE);
      Ring.SlotIs(n - 1 - i, PROBE_HISTORY_SIZE, q - 1, r - 1 - i + PROBE_HISTORY_SIZE);
      if r > 0 {
        WrapsBelowZero(r - 1 - i);
      }
    } else {
      assert n - 1 - i == q * PROBE_HISTORY_SIZE + (r - 1 - i);
      Ring.SlotIs(n - 1 - i, PROBE_HISTORY_SIZE, q, r - 1 - i);
      StaysAbove(r - 1 - i);
    }
  }

  lemma NoWrap(total: nat)
    requires total < UINT64
    ensures total % UINT64 == total
  {
  }

  lemma WrapsBelowZero(d: int)
    requires -PROBE_HISTORY_SIZE <= d < 0
    ensures (d % UINT64 + PROBE_HISTORY_SIZE) % UINT64 % PROBE_HISTORY_SIZE == d + PROBE_HISTORY_SIZE
  {
    assert d % UINT64 == d + UINT64;
    assert (d + UINT64 + PROBE_HISTORY_SIZE) % UINT64 == d + PROBE_HISTORY_SIZE;
  }

  lemma StaysAbove(d: nat)
    requires d < PROBE_HISTORY_SIZE
    ensures (d % UINT64 + PROBE_HISTORY_SIZE) % UINT64 % PROBE_HISTORY_SIZE == d
  {
    NoWrap(d);
    NoWrap(d + PROBE_HISTORY_SIZE);
    Ring.SlotIs(d + PROBE_HISTORY_SIZE, PROBE_HISTORY_SIZE, 1, d);
  }
}
