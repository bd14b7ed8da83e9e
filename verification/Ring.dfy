// A ring buffer that holds the newest entries of an unbounded sequence: entry
// `k` lies in slot `k` modulo the size of the ring.
module Ring {

  ghost predicate Stored<T>(slots: seq<T>, added: seq<T>) {
    |slots| > 0 &&
    forall k :: 0 <= k < |added| && |added| - |slots| <= k ==> slots[k % |slots|] == added[k]
  }

  lemma Fetch<T>(slots: seq<T>, added: seq<T>, k: nat)
    requires Stored(slots, added) && k < |added| && |added| - |slots| <= k
    ensures slots[k % |slots|] == added[k]
  {
  }

  // Writing the next slot keeps it so.
  lemma StoreNext<T>(slots: seq<T>, added: seq<T>, e: T)
    requires Stored(slots, added)
    ensures Stored(slots[|added| % |slots| := e], added + [e])
  {
    var n, size := |added|, |slots|;
    var slots', added' := slots[n % size := e], added + [e];
    forall k | 0 <= k < n + 1 && n + 1 - size <= k ensures slots'[k % size] == added'[k] {
      if k < n {
        DifferentSlots(k, n, size);
      }
    }
  }

  // Less than one turn of the ring apart, two entries have different slots.
  lemma DifferentSlots(k: nat, n: nat, size: nat)
    requires size > 0 && n - size < k < n
    ensures k % size != n % size
  {
    var a, b := k / size, n / size;
    assert k == size * a + k % size && n == size * b + n % size;
    if k % size == n % size {
      assert n - k == size * (b - a);
      NoMultiple(size, b - a, n - k);
      assert false;
    }
  }

  lemma NoMultiple(size: nat, turns: int, d: nat)
    requires 0 < d < size
    ensures d != size * turns
  {
    if turns >= 1 {
      assert size * turns == size + size * (turns - 1);
      assert size * (turns - 1) >= 0;
    } else {
      assert size * turns <= 0;
    }
  }

  // The head moves on to the next slot.
  lemma NextSlot(n: nat, size: nat)
    requires size > 0
    ensures (n % size + 1) % size == (n + 1) % size
  {
    var q, r := n / size, n % size;
    assert n == size * q + r;
    if r + 1 < size {
      SlotIs(n + 1, size, q, r + 1);
      SlotIs(r + 1, size, 0, r + 1);
    } else {
      assert n + 1 == size * (q + 1) + 0;
      SlotIs(n + 1, size, q + 1, 0);
      SlotIs(r + 1, size, 1, 0);
    }
  }

  lemma SlotIs(m: int, size: nat, q: int, r: nat)
    requires m == size * q + r && r < size
    ensures m % size == r
  {
    var q', r' := m / size, m % size;
    assert m == size * q' + r';
    assert size * (q - q') == r' - r;
    if r' > r {
      NoMultiple(size, q - q', r' - r);
    } else if r > r' {
      assert size * (q' - q) == r - r';
      NoMultiple(size, q' - q, r - r');
    }
  }
}
