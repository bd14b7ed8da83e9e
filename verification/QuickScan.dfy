// The quick scan over five OSI layers (L1 to L4 and L7), its two drivers and
// the diagnosis drawn from the layer results.
module QuickScan {
  import opened Bytes

  const LAYERS := 5
  const TESTS_PER_LAYER := 2

  // Test status codes.
  const PASS := 0
  const FAIL := 1
  const WARN := 3
  const ERROR := 4

  datatype Status = NotTested | Passed | Warned | Failed

  datatype Layer = Layer(status: Status, run: nat, passed: nat, failed: nat, warned: nat, skipped: nat)

  const EMPTY := Layer(NotTested, 0, 0, 0, 0, 0)

  datatype Diagnosis =
    | NoLink | NoFrames | BadIpConfig | NoRouting | NoTransport | NoServices
    | AllHealthy | Warnings(layers: nat) | SomeSkipped

  // How test `j` of layer `i` comes out; None if the registry lacks it.
  type Outcomes = (nat, nat) -> Option<nat>

  // ---------------------------------------------------------------------
  // Layer results
  // ---------------------------------------------------------------------

  function StatusOf(l: Layer): Status {
    if l.run == 0 then NotTested
    else if l.failed > 0 then Failed
    else if l.warned > 0 then Warned
    else if l.passed > 0 then Passed
    else NotTested
  }

  function Count(l: Layer, outcome: Option<nat>): Layer {
    if outcome == None then l
    else
      var m := l.(run := l.run + 1);
      if outcome.value == PASS then m.(passed := m.passed + 1)
      else if outcome.value == FAIL || outcome.value == ERROR then m.(failed := m.failed + 1)
      else if outcome.value == WARN then m.(warned := m.warned + 1)
      else m.(skipped := m.skipped + 1)
  }

  function CountAll(outcomes: Outcomes, i: nat, n: nat): Layer {
    if n == 0 then EMPTY else Count(CountAll(outcomes, i, n - 1), outcomes(i, n - 1))
  }

  function Tested(outcomes: Outcomes, i: nat): Layer {
    var l := CountAll(outcomes, i, TESTS_PER_LAYER);
    l.(status := StatusOf(l))
  }

  const SKIPPED := EMPTY.(skipped := TESTS_PER_LAYER)

  // L2, L3 and L4 are skipped when the layer below failed.
  function LayerResult(outcomes: Outcomes, i: nat): Layer {
    if 1 <= i <= 3 && LayerResult(outcomes, i - 1).status == Failed then SKIPPED else Tested(outcomes, i)
  }

  function Results(outcomes: Outcomes): seq<Layer> {
    [LayerResult(outcomes, 0), LayerResult(outcomes, 1), LayerResult(outcomes, 2), LayerResult(outcomes, 3),
     LayerResult(outcomes, 4)]
  }

  // ---------------------------------------------------------------------
  // Diagnosis
  // ---------------------------------------------------------------------

  function Lowest(layers: seq<Layer>, i: nat): nat
    decreases |layers| - i
  {
    if i >= |layers| || layers[i].status == Failed then i else Lowest(layers, i + 1)
  }

  function WarnedLayers(layers: seq<Layer>): nat {
    if layers == [] then 0
    else WarnedLayers(layers[..|layers| - 1]) + (if layers[|layers| - 1].status == Warned then 1 else 0)
  }

  // What the diagnosis should be: it names the lowest layer that failed, or
  // else reports health, warnings or skipped tests.
  function Expected(layers: seq<Layer>): Diagnosis
    requires |layers| == LAYERS
  {
    var k := Lowest(layers, 0);
    if k == 0 then NoLink
    else if k == 1 then NoFrames
    else if k == 2 then if layers[2].passed == 0 then BadIpConfig else NoRouting
    else if k == 3 then NoTransport
    else if k == 4 then NoServices
    else if forall i :: 0 <= i < LAYERS ==> layers[i].status == Passed then AllHealthy
    else if WarnedLayers(layers) > 0 then Warnings(WarnedLayers(layers))
    else SomeSkipped
  }

  lemma {:induction false} LowestIs(layers: seq<Layer>, i: nat)
    requires i <= |layers|
    ensures var k := Lowest(layers, i);
            && i <= k <= |layers| && (forall j :: i <= j < k ==> layers[j].status != Failed)
            && (k < |layers| ==> layers[k].status == Failed)
    decreases |layers| - i
  {
    if i < |layers| && layers[i].status != Failed {
      LowestIs(layers, i + 1);
    }
  }

  // When each diagnosis is given.
  ghost predicate Diagnosed(layers: seq<Layer>, d: Diagnosis)
    requires |layers| == LAYERS
  {
    var warned := set i | 0 <= i < 5 && layers[i].status == Warned;
    && (d == NoLink <==> FirstFailed(layers, 0))
    && (d == NoFrames <==> FirstFailed(layers, 1))
    && (d == BadIpConfig <==> FirstFailed(layers, 2) && layers[2].passed == 0)
    && (d == NoRouting <==> FirstFailed(layers, 2) && layers[2].passed > 0)
    && (d == NoTransport <==> FirstFailed(layers, 3))
    && (d == NoServices <==> FirstFailed(layers, 4))
    && (d == AllHealthy <==> forall i :: 0 <= i < 5 ==> layers[i].status == Passed)
    && (d.Warnings? <==> NoneFailed(layers) && warned != {})
    && (d.Warnings? ==> d.layers == |warned|)
    && (d == SomeSkipped <==> NoneFailed(layers) && warned == {} && exists i :: 0 <= i < 5 && layers[i].status == NotTested)
  }

  // Layer `k` failed and none below it did.
  ghost predicate FirstFailed(layers: seq<Layer>, k: nat)
    requires k < |layers|
  {
    layers[k].status == Failed && forall i :: 0 <= i < k ==> layers[i].status != Failed
  }

  ghost predicate NoneFailed(layers: seq<Layer>) {
    forall i :: 0 <= i < |layers| ==> layers[i].status != Failed
  }

  lemma ExpectedIsDiagnosed(layers: seq<Layer>)
    requires |layers| == LAYERS
    ensures Diagnosed(layers, Expected(layers))
  {
    LowestIs(layers, 0);
    WarnedCount(layers, LAYERS);
    assert layers[..LAYERS] == layers;
    var warned := WarnedSet(layers, LAYERS);
    assert warned == set i | 0 <= i < 5 && layers[i].status == Warned;
    if warned != {} {
      var i :| i in warned;
      assert layers[i].status == Warned;
    } else if i :| 0 <= i < LAYERS && layers[i].status != Passed && NoneFailed(layers) {
      assert i in warned || layers[i].status == NotTested;
    }
  }

  ghost function WarnedSet(layers: seq<Layer>, k: nat): set<int>
    requires k <= |layers|
  {
    set i | 0 <= i < k && layers[i].status == Warned
  }

  lemma {:induction false} WarnedCount(layers: seq<Layer>, k: nat)
    requires k <= |layers|
    ensures WarnedLayers(layers[..k]) == |WarnedSet(layers, k)|
  {
    if k > 0 {
      WarnedCount(layers, k - 1);
      assert layers[..k][..k - 1] == layers[..k - 1];
      var before := WarnedSet(layers, k - 1);
      assert WarnedSet(layers, k) == if layers[k - 1].status == Warned then before + {k - 1} else before;
    }
  }

  lemma AreResults(layers: seq<Layer>, outcomes: Outcomes)
    requires |layers| == LAYERS && forall k :: 0 <= k < LAYERS ==> layers[k] == LayerResult(outcomes, k)
    ensures layers == Results(outcomes)
  {
    assert layers == [layers[0], layers[1], layers[2], layers[3], layers[4]];
  }

  class ScanResult {
    var layers: seq<Layer>
    var diagnosis: Diagnosis

    constructor ()
      ensures layers == seq(LAYERS, _ => EMPTY)
    {
      layers, diagnosis := seq(LAYERS, _ => EMPTY), SomeSkipped;
    }

    // The decision tree, branch by branch.
    method ApplyDiagnosis()
      requires |layers| == LAYERS
      modifies this`diagnosis
      ensures Diagnosed(layers, diagnosis)
      ensures diagnosis == Expected(layers)
    {
      ExpectedIsDiagnosed(layers);
      LowestIs(layers, 0);
      var l1, l2, l3, l4, l7 := layers[0].status, layers[1].status, layers[2].status, layers[3].status, layers[4].status;
      if l1 == Failed {
        diagnosis := NoLink;
      } else if l1 != Failed && l2 == Failed {
        diagnosis := NoFrames;
      } else if l2 != Failed && l3 == Failed {
        if layers[2].passed == 0 {
          diagnosis := BadIpConfig;
        } else {
          diagnosis := NoRouting;
        }
      } else if l3 != Failed && l4 == Failed {
        diagnosis := NoTransport;
      } else if l4 != Failed && l7 == Failed {
        diagnosis := NoServices;
      } else if l1 == Passed && l2 == Passed && l3 == Passed && l4 == Passed && l7 == Passed {
        diagnosis := AllHealthy;
      } else {
        var warnCount := 0;
        for i := 0 to LAYERS
          invariant warnCount == WarnedLayers(layers[..i])
        {
          assert layers[..i + 1][..i] == layers[..i];
          if layers[i].status == Warned {
            warnCount := warnCount + 1;
          }
        }
        assert layers[..LAYERS] == layers;
        diagnosis := if warnCount > 0 then Warnings(warnCount) else SomeSkipped;
      }
    }

    // Run the tests of one layer and count how they end.
    method RunLayerTests(outcomes: Outcomes, i: nat)
      requires |layers| == LAYERS && i < LAYERS && layers[i] == EMPTY
      modifies this`layers
      ensures layers == old(layers)[i := CountAll(outcomes, i, TESTS_PER_LAYER)]
    {
      for j := 0 to TESTS_PER_LAYER
        invariant layers == old(layers)[i := CountAll(outcomes, i, j)]
      {
        var outcome := outcomes(i, j);
        if outcome == None {
          continue;
        }
        var l := layers[i].(run := layers[i].run + 1);
        if outcome.value == PASS {
          l := l.(passed := l.passed + 1);
        } else if outcome.value == FAIL || outcome.value == ERROR {
          l := l.(failed := l.failed + 1);
        } else if outcome.value == WARN {
          l := l.(warned := l.warned + 1);
        } else {
          l := l.(skipped := l.skipped + 1);
        }
        layers := layers[i := l];
      }
    }

    method SetStatus(i: nat)
      requires |layers| == LAYERS && i < LAYERS
      modifies this`layers
      ensures layers == old(layers)[i := old(layers[i]).(status := StatusOf(old(layers[i])))]
    {
      layers := layers[i := layers[i].(status := StatusOf(layers[i]))];
    }

    // A dependent layer of the scan with a screen: run it unless the one
    // below failed; its status is derived from the counters either way.
    method RunDependent(outcomes: Outcomes, i: nat)
      requires |layers| == LAYERS && 1 <= i <= 3 && layers[i] == EMPTY
      requires layers[i - 1] == LayerResult(outcomes, i - 1)
      modifies this`layers
      ensures layers == old(layers)[i := LayerResult(outcomes, i)]
    {
      if layers[i - 1].status != Failed {
        RunLayerTests(outcomes, i);
      } else {
        layers := layers[i := layers[i].(skipped := TESTS_PER_LAYER)];
      }
      SetStatus(i);
    }

    // QuickScanRun: the layers one after the other, written out.
    method ScanWithScreen(outcomes: Outcomes)
      requires layers == seq(LAYERS, _ => EMPTY)
      modifies this
      ensures layers == Results(outcomes) && Diagnosed(layers, diagnosis) && diagnosis == Expected(Results(outcomes))
    {
      RunAlways(outcomes, 0);
      RunDependent(outcomes, 1);
      RunDependent(outcomes, 2);
      RunDependent(outcomes, 3);
      RunAlways(outcomes, 4);
      AreResults(layers, outcomes);
      ApplyDiagnosis();
    }

    // L1 and L7.
    method RunAlways(outcomes: Outcomes, i: nat)
      requires |layers| == LAYERS && (i == 0 || i == 4) && layers[i] == EMPTY
      modifies this`layers
      ensures layers == old(layers)[i := LayerResult(outcomes, i)]
    {
      RunLayerTests(outcomes, i);
      SetStatus(i);
    }

    // QuickScanGetDiagnosis: one loop over the layers, without a screen.
    method ScanSilently(outcomes: Outcomes)
      requires layers == seq(LAYERS, _ => EMPTY)
      modifies this
      ensures layers == Results(outcomes) && Diagnosed(layers, diagnosis) && diagnosis == Expected(Results(outcomes))
    {
      for i := 0 to LAYERS
        invariant |layers| == LAYERS
        invariant forall k :: 0 <= k < i ==> layers[k] == LayerResult(outcomes, k)
        invariant forall k :: i <= k < LAYERS ==> layers[k] == EMPTY
      {
        SkipOrRun(outcomes, i);
      }
      AreResults(layers, outcomes);
      ApplyDiagnosis();
    }

    // One turn of that loop.
    method SkipOrRun(outcomes: Outcomes, i: nat)
      requires |layers| == LAYERS && i < LAYERS && layers[i] == EMPTY
      requires i > 0 ==> layers[i - 1] == LayerResult(outcomes, i - 1)
      modifies this`layers
      ensures layers == old(layers)[i := LayerResult(outcomes, i)]
    {
      if i > 0 && i < 4 && layers[i - 1].status == Failed {
        layers := layers[i := layers[i].(skipped := TESTS_PER_LAYER, status := NotTested)];
        return;
      }
      RunLayerTests(outcomes, i);
      SetStatus(i);
    }
  }

  // ---------------------------------------------------------------------
  // What the results say
  // ---------------------------------------------------------------------

  // L2, L3 and L4 are skipped exactly when the layer below failed and tested
  // otherwise, so no two adjacent ones of L1 to L4 fail; L1 and L7 are always
  // tested.
  lemma NoAdjacentFailures(outcomes: Outcomes, i: nat)
    requires i < 3
    ensures Results(outcomes)[i + 1] ==
            if Results(outcomes)[i].status == Failed then Layer(NotTested, 0, 0, 0, 0, 2) else Tested(outcomes, i + 1)
    ensures !(Results(outcomes)[i].status == Failed && Results(outcomes)[i + 1].status == Failed)
    ensures Results(outcomes)[i + 1] == SKIPPED <==> Results(outcomes)[i].status == Failed
    ensures Results(outcomes)[0] == Tested(outcomes, 0) && Results(outcomes)[4] == Tested(outcomes, 4)
  {
    hide CountAll, Tested;
    assert Results(outcomes)[i] == LayerResult(outcomes, i);
    assert Results(outcomes)[i + 1] == LayerResult(outcomes, i + 1);
    SkippedIffBelowFailed(outcomes, i + 1);
  }

  lemma SkippedIffBelowFailed(outcomes: Outcomes, i: nat)
    requires 1 <= i <= 3
    ensures LayerResult(outcomes, i) == SKIPPED <==> LayerResult(outcomes, i - 1).status == Failed
  {
    TestedIsNotSkipped(outcomes, i);
  }

  lemma TestedIsNotSkipped(outcomes: Outcomes, i: nat)
    ensures Tested(outcomes, i) != SKIPPED
  {
    assert CountAll(outcomes, i, 1) == Count(EMPTY, outcomes(i, 0));
    assert CountAll(outcomes, i, 2) == Count(CountAll(outcomes, i, 1), outcomes(i, 1));
  }

  // The layer that a failure diagnosis names.
  function Blamed(d: Diagnosis): Option<nat> {
    match d
    case NoLink => Some(0)
    case NoFrames => Some(1)
    case BadIpConfig => Some(2)
    case NoRouting => Some(2)
    case NoTransport => Some(3)
    case NoServices => Some(4)
    case _ => None
  }

  // Layer `k` is blamed exactly when it failed and none below it did; nothing
  // is blamed exactly when nothing failed.
  lemma BlamesLowestFailure(layers: seq<Layer>, k: nat)
    requires |layers| == LAYERS && k < LAYERS
    ensures Blamed(Expected(layers)) == Some(k) <==>
            layers[k].status == Failed && forall j :: 0 <= j < k ==> layers[j].status != Failed
    ensures Blamed(Expected(layers)) == None <==> forall j :: 0 <= j < LAYERS ==> layers[j].status != Failed
  {
    LowestIs(layers, 0);
  }

  function One(b: bool): nat {
    if b then 1 else 0
  }

  // The counters of a layer count its tests by how they ended: 0 is a pass, 1
  // and 4 are failures, 3 is a warning, anything else a skip.
  lemma CountsMean(outcomes: Outcomes, i: nat)
    ensures var l, a, b := Tested(outcomes, i), outcomes(i, 0), outcomes(i, 1);
            && l.run == One(a.Some?) + One(b.Some?)
            && l.passed == One(a == Some(0)) + One(b == Some(0))
            && l.failed == One(a in {Some(1), Some(4)}) + One(b in {Some(1), Some(4)})
            && l.warned == One(a == Some(3)) + One(b == Some(3))
            && l.passed + l.failed + l.warned + l.skipped == l.run
  {
    assert CountAll(outcomes, i, 1) == Count(EMPTY, outcomes(i, 0));
    assert CountAll(outcomes, i, 2) == Count(CountAll(outcomes, i, 1), outcomes(i, 1));
  }

  // A layer with a failed test is Failed, whatever else happened in it; one
  // is Passed only if a test passed and none failed or warned.
  lemma StatusMeaning(outcomes: Outcomes, i: nat)
    ensures var l, a, b := Tested(outcomes, i), outcomes(i, 0), outcomes(i, 1);
            && (l.status == Failed <==> a in {Some(1), Some(4)} || b in {Some(1), Some(4)})
            && (l.status == Warned <==> l.status != Failed && (a == Some(3) || b == Some(3)))
            && (l.status == Passed <==> l.status != Failed && l.status != Warned && (a == Some(0) || b == Some(0)))
  {
    assert CountAll(outcomes, i, 1) == Count(EMPTY, outcomes(i, 0));
    assert CountAll(outcomes, i, 2) == Count(CountAll(outcomes, i, 1), outcomes(i, 1));
  }
}
