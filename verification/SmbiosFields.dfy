// The formatted areas of a memory device (type 17) and of a processor (type 4)
// as sections 7.18 and 7.5 of DMTF DSP0134 lay them out, written from records
// of named fields.
module SmbiosFields {
  import opened Bytes

  // ---------------------------------------------------------------------
  // Strings
  // ---------------------------------------------------------------------

  // The string set of a structure holds the texts that are not empty, in the
  // order of the fields that name them.
  function Present(texts: seq<seq<byte>>): seq<seq<byte>> {
    if texts == [] then []
    else Present(texts[..|texts| - 1]) + (if texts[|texts| - 1] == [] then [] else [texts[|texts| - 1]])
  }

  // The string number of text `k`: 0 for none, or else its place in the set.
  function NumberOf(texts: seq<seq<byte>>, k: nat): (r: nat)
    requires k < |texts|
    ensures r <= k + 1
  {
    PresentFits(texts[..k + 1]);
    if texts[k] == [] then 0 else |Present(texts[..k + 1])|
  }

  lemma {:induction false} PresentFits(texts: seq<seq<byte>>)
    ensures |Present(texts)| <= |texts|
  {
    if texts != [] {
      PresentFits(texts[..|texts| - 1]);
    }
  }

  lemma {:induction false} PresentText(texts: seq<seq<byte>>, k: nat)
    requires k < |texts|
    ensures if texts[k] == [] then NumberOf(texts, k) == 0
            else 1 <= NumberOf(texts, k) <= |Present(texts)| && Present(texts)[NumberOf(texts, k) - 1] == texts[k]
    decreases |texts|
  {
    var front := texts[..|texts| - 1];
    if k < |front| {
      PresentText(front, k);
      assert front[..k + 1] == texts[..k + 1];
    } else {
      assert texts[..k + 1] == texts;
    }
  }

  // Strings hold no NUL.
  ghost predicate NoNul(text: seq<byte>) {
    forall i :: 0 <= i < |text| ==> text[i] != 0
  }

  lemma {:induction false} PresentAre(texts: seq<seq<byte>>, k: nat)
    requires forall i :: 0 <= i < |texts| ==> NoNul(texts[i])
    requires k < |Present(texts)|
    ensures |Present(texts)[k]| > 0 && NoNul(Present(texts)[k])
    decreases |texts|
  {
    if |texts| > 0 && k < |Present(texts[..|texts| - 1])| {
      PresentAre(texts[..|texts| - 1], k);
    }
  }

  // At most the first `n` bytes.
  function First(text: seq<byte>, n: nat): seq<byte> {
    if |text| <= n then text else text[..n]
  }

  // ---------------------------------------------------------------------
  // Memory devices
  // ---------------------------------------------------------------------

  datatype MemoryDevice = MemoryDevice(
    handle: word, arrayHandle: word, errorHandle: word, totalWidth: word, dataWidth: word,
    sizeMB: nat, formFactor: byte, deviceSet: byte,
    locator: seq<byte>, bankLocator: seq<byte>,
    memoryType: byte, typeDetail: word, speed: word,
    manufacturer: seq<byte>, serialNumber: seq<byte>, assetTag: seq<byte>, partNumber: seq<byte>,
    attributes: byte, configuredSpeed: word,
    rest: seq<byte>)   // fields of later versions

  function DeviceTexts(d: MemoryDevice): seq<seq<byte>> {
    [d.locator, d.bankLocator, d.manufacturer, d.serialNumber, d.assetTag, d.partNumber]
  }

  // Lengths are bytes, sizes have 31 bits.
  ghost predicate DeviceFits(d: MemoryDevice) {
    && d.sizeMB < 0x8000_0000 && |d.rest| <= 221
    && forall k :: 0 <= k < 6 ==> NoNul(DeviceTexts(d)[k])
  }

  // The size fields of a memory device of `mb` megabytes: the Extended Size
  // field serves from 32 GB - 1 MB on.
  function SizeFields(mb: nat): (word, dword)
    requires mb < 0x8000_0000
  {
    if mb < 0x7FFF then (mb, 0) else (0x7FFF, mb)
  }

  function Lo(w: word): byte { w % 0x100 }
  function Hi(w: word): byte { w / 0x100 }

  // From offset 04h on.
  function DeviceBody(d: MemoryDevice): seq<byte>
    requires d.sizeMB < 0x8000_0000
  {
    var t := DeviceTexts(d);
    var (size, extended) := SizeFields(d.sizeMB);
    [Lo(d.arrayHandle), Hi(d.arrayHandle), Lo(d.errorHandle), Hi(d.errorHandle),
     Lo(d.totalWidth), Hi(d.totalWidth), Lo(d.dataWidth), Hi(d.dataWidth)]
    + ([Lo(size), Hi(size), d.formFactor, d.deviceSet,                                            // 0Ch
        NumberOf(t, 0), NumberOf(t, 1), d.memoryType, Lo(d.typeDetail), Hi(d.typeDetail)]         // 10h
       + ([Lo(d.speed), Hi(d.speed),                                                              // 15h
           NumberOf(t, 2), NumberOf(t, 3), NumberOf(t, 4), NumberOf(t, 5), d.attributes]          // 17h
          + ([Lo(extended % 0x1_0000), Hi(extended % 0x1_0000), Lo(extended / 0x1_0000), Hi(extended / 0x1_0000),   // 1Ch
              Lo(d.configuredSpeed), Hi(d.configuredSpeed)]                                       // 20h
             + d.rest)))
  }

  // Where a reader finds them, counted from 04h.
  lemma DeviceBytes(d: MemoryDevice)
    requires d.sizeMB < 0x8000_0000
    ensures var b := DeviceBody(d);
            var t := DeviceTexts(d);
            var (size, extended) := SizeFields(d.sizeMB);
            && |b| == 30 + |d.rest|
            && b[8] == Lo(size) && b[9] == Hi(size) && b[10] == d.formFactor && b[12] == NumberOf(t, 0) && b[14] == d.memoryType
            && b[17] == Lo(d.speed) && b[18] == Hi(d.speed)
            && b[19] == NumberOf(t, 2) && b[20] == NumberOf(t, 3) && b[22] == NumberOf(t, 5)
            && b[24] == Lo(extended % 0x1_0000) && b[25] == Hi(extended % 0x1_0000)
            && b[26] == Lo(extended / 0x1_0000) && b[27] == Hi(extended / 0x1_0000)
            && b[28] == Lo(d.configuredSpeed) && b[29] == Hi(d.configuredSpeed)
  {
  }

  // ---------------------------------------------------------------------
  // Processors
  // ---------------------------------------------------------------------

  datatype Processor = Processor(
    handle: word, socket: seq<byte>, processorType: byte, family: byte, manufacturer: seq<byte>, id: seq<byte>,
    version: seq<byte>, voltage: byte, externalClock: word, maxSpeed: word, currentSpeed: word,
    status: byte, upgrade: byte, l1Handle: word, l2Handle: word, l3Handle: word,
    serialNumber: seq<byte>, assetTag: seq<byte>, partNumber: seq<byte>,
    coreCount: byte, coreEnabled: byte, threadCount: byte,
    rest: seq<byte>)

  function ProcessorTexts(p: Processor): seq<seq<byte>> {
    [p.socket, p.manufacturer, p.version, p.serialNumber, p.assetTag, p.partNumber]
  }

  ghost predicate ProcessorFits(p: Processor) {
    && |p.id| == 8 && |p.rest| <= 217
    && forall k :: 0 <= k < 6 ==> NoNul(ProcessorTexts(p)[k])
  }

  function ProcessorBody(p: Processor): seq<byte> {
    var t := ProcessorTexts(p);
    [NumberOf(t, 0), p.processorType, p.family, NumberOf(t, 1)]
    + (p.id                                                                                       // 08h
       + ([NumberOf(t, 2), p.voltage, Lo(p.externalClock), Hi(p.externalClock),                   // 10h
           Lo(p.maxSpeed), Hi(p.maxSpeed), Lo(p.currentSpeed), Hi(p.currentSpeed)]                // 14h
          + ([p.status, p.upgrade, Lo(p.l1Handle), Hi(p.l1Handle), Lo(p.l2Handle), Hi(p.l2Handle),
              Lo(p.l3Handle), Hi(p.l3Handle)]                                                     // 18h
             + ([NumberOf(t, 3), NumberOf(t, 4), NumberOf(t, 5),                                  // 20h
                 p.coreCount, p.coreEnabled, p.threadCount]                                       // 23h
                + p.rest))))
  }

  lemma ProcessorBytes(p: Processor)
    requires |p.id| == 8
    ensures var b := ProcessorBody(p);
            var t := ProcessorTexts(p);
            && |b| == 34 + |p.rest|
            && b[0] == NumberOf(t, 0) && b[12] == NumberOf(t, 2)
            && b[16] == Lo(p.maxSpeed) && b[17] == Hi(p.maxSpeed) && b[18] == Lo(p.currentSpeed) && b[19] == Hi(p.currentSpeed)
            && b[31] == p.coreCount && b[33] == p.threadCount
  {
  }
}
