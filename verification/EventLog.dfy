// The circular event log.
module EventLog {
  import opened Bytes
  import Ring

  datatype Entry = Entry(level: nat, timestamp: nat, message: string)

  const LOG_MAX_ENTRIES := 128
  const BLANK := Entry(0, 0, "")

  function Min(a: nat, b: nat): nat {
    if a <= b then a else b
  }

  class Log {
    var entries: array<Entry>
    var head: nat
    var count: nat
    // Everything added since the last clear, oldest first.
    ghost var added: seq<Entry>

    ghost predicate Valid()
      reads this, entries
    {
      && count == Min(|added|, LOG_MAX_ENTRIES)
      && head == |added| % LOG_MAX_ENTRIES
      && entries.Length == LOG_MAX_ENTRIES && Ring.Stored(entries[..], added)
    }

    constructor ()
      ensures Valid() && fresh(entries) && added == []
    {
      entries := new Entry[LOG_MAX_ENTRIES](_ => BLANK);
      head, count, added := 0, 0, [];
    }

    method Add(level: nat, timestamp: nat, message: string)
      requires Valid()
      modifies this, entries
      ensures Valid() && entries == old(entries)
      ensures added == old(added) + [Entry(level, timestamp, message)]
    {
      Ring.StoreNext(entries[..], added, Entry(level, timestamp, message));
      Ring.NextSlot(|added|, LOG_MAX_ENTRIES);
      entries[head] := Entry(level, timestamp, message);
      added := added + [Entry(level, timestamp, message)];
      head := (head + 1) % LOG_MAX_ENTRIES;
      if count < LOG_MAX_ENTRIES {
        count := count + 1;
      }
    }

    method Clear()
      requires Valid()
      modifies this
      ensures Valid() && entries == old(entries) && added == []
    {
      head, count, added := 0, 0, [];
    }

    // Entry `index` of the last 128 added, oldest first; None past the end.
    method GetEntry(index: nat) returns (entry: Option<Entry>)
      requires Valid()
      ensures var kept := if |added| <= 128 then added else added[|added| - 128..];
              entry == if index < |kept| then Some(kept[index]) else None
    {
      if index >= count {
        return None;
      }
      var pos := (head + LOG_MAX_ENTRIES - count + index) % LOG_MAX_ENTRIES;
      SlotOf(|added|, count, index);
      RingHolds(|added| - count + index);
      entry := Some(entries[pos]);
    }

    lemma RingHolds(k: nat)
      requires Valid() && k < |added| && |added| - LOG_MAX_ENTRIES <= k
      ensures entries[k % LOG_MAX_ENTRIES] == added[k]
    {
      Ring.Fetch(entries[..], added, k);
    }
  }

  // The slot arithmetic of LogGetEntry finds the entry's own slot.
  lemma SlotOf(n: nat, count: nat, index: nat)
    requires count == Min(n, LOG_MAX_ENTRIES) && index < count
    ensures (n % LOG_MAX_ENTRIES + LOG_MAX_ENTRIES - count + index) % LOG_MAX_ENTRIES == (n - count + index) % LOG_MAX_ENTRIES
  {
    var q, r, d := n / LOG_MAX_ENTRIES, n % LOG_MAX_ENTRIES, n - count + index;
    var turns, slot := d / LOG_MAX_ENTRIES, d % LOG_MAX_ENTRIES;
    assert n == LOG_MAX_ENTRIES * q + r && d == LOG_MAX_ENTRIES * turns + slot;
    Ring.SlotIs(r + LOG_MAX_ENTRIES - count + index, LOG_MAX_ENTRIES, turns + 1 - q, slot);
  }
}
