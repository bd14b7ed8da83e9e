// Path MTU discovery: a binary search over ICMP payload sizes.
module MtuSearch {

  const MIN_PAYLOAD := 8
  const MAX_PAYLOAD := 1472
  const OVERHEAD := 28   // IPv4 and ICMP headers
  const MAX_PROBES := 11

  // What one ping comes to: a transmit error or timeout, an echo reply, or
  // some other ICMP message.
  datatype Ping = Fails | Echo | OtherReply

  datatype Verdict = Pass | Warn | Fail

  class TestResult {
    var packetsSent: nat
    var packetsReceived: nat
    var status: Verdict
  }

  function Pow2(n: nat): nat {
    if n == 0 then 1 else 2 * Pow2(n - 1)
  }

  // The path echoes exactly the payloads of up to `limit` bytes.
  ghost predicate EchoesUpTo(ping: (nat, nat) -> Ping, limit: nat) {
    forall number: nat, size: nat :: ping(number, size) == Echo <==> size <= limit
  }

  // Some probe of the run (numbers 101 and up) with this size had that end.
  ghost predicate Echoed(ping: (nat, nat) -> Ping, size: nat) {
    exists number: nat :: 100 < number <= 100 + MAX_PROBES && ping(number, size) == Echo
  }

  ghost predicate Missed(ping: (nat, nat) -> Ping, size: nat) {
    exists number: nat :: 100 < number <= 100 + MAX_PROBES && ping(number, size) != Echo
  }

  // `ping` is any path, even one that changes its mind between probes.
  method Discover(ping: (nat, nat) -> Ping, result: TestResult) returns (largestOk: nat)
    modifies result
    // At most 11 probes.
    ensures 1 <= result.packetsSent - old(result.packetsSent) <= 11
    ensures 0 <= result.packetsReceived - old(result.packetsReceived) <= result.packetsSent - old(result.packetsSent)
    // The result is a size that was echoed, and the next size up, unless out of range, was not.
    ensures largestOk == 0 || (8 <= largestOk <= 1472 && Echoed(ping, largestOk))
    ensures largestOk == 0 ==> Missed(ping, 8)
    ensures 0 < largestOk < 1472 ==> Missed(ping, largestOk + 1)
    // On a path with a fixed limit it is that limit, within the range searched.
    ensures forall limit: nat :: EchoesUpTo(ping, limit) ==>
              largestOk == if limit < 8 then 0 else if limit < 1472 then limit else 1472
    ensures result.status == if largestOk == 0 then Fail else if 28 + largestOk >= 1500 then Pass else Warn
  {
    var lo, hi := MIN_PAYLOAD, MAX_PAYLOAD;
    largestOk := 0;
    var number := 100;
    assert Pow2(MAX_PROBES) == 2048;
    while lo <= hi
      invariant MIN_PAYLOAD <= lo <= hi + 1 <= MAX_PAYLOAD + 1
      invariant 100 <= number <= 100 + MAX_PROBES
      invariant hi + 1 - lo < Pow2(100 + MAX_PROBES - number)
      invariant lo <= hi || number > 100
      invariant result.packetsSent == old(result.packetsSent) + (number - 100)
      invariant 0 <= result.packetsReceived - old(result.packetsReceived) <= number - 100
      invariant if lo == MIN_PAYLOAD then largestOk == 0 else largestOk == lo - 1 && Echoed(ping, largestOk)
      invariant hi < MAX_PAYLOAD ==> Missed(ping, hi + 1)
      decreases hi + 1 - lo
    {
      var mid := (lo + hi) / 2;
      result.packetsSent := result.packetsSent + 1;
      number := number + 1;
      var outcome := ping(number, mid);
      if outcome == Echo {
        result.packetsReceived := result.packetsReceived + 1;
        largestOk := mid;
        lo := mid + 1;
      } else {
        if outcome != Fails {
          result.packetsReceived := result.packetsReceived + 1;
        }
        if mid == 0 {
          break;
        }
        hi := mid - 1;
      }
    }
    if largestOk > 0 {
      var pathMtu := OVERHEAD + largestOk;
      result.status := if pathMtu >= 1500 then Pass else Warn;
    } else {
      result.status := Fail;
    }
  }
}
