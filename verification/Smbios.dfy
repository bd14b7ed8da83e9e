// The SMBIOS structure table: length-prefixed structures, each followed by a
// set of NUL-terminated strings that ends in a second NUL (section 6.1.3 of
// DMTF DSP0134).
module Smbios {
  import opened Bytes
  import opened SmbiosFields

  // ---------------------------------------------------------------------
  // Structures and their encoding
  // ---------------------------------------------------------------------

  datatype Structure = Structure(kind: byte, handle: word, body: seq<byte>, strings: seq<seq<byte>>)

  const END_OF_TABLE: byte := 127
  const PROCESSOR: byte := 4
  const MEMORY_DEVICE: byte := 17

  ghost predicate IsString(t: seq<byte>) {
    |t| > 0 && forall i :: 0 <= i < |t| ==> t[i] != 0
  }

  ghost predicate WellFormed(s: Structure) {
    && |s.body| + 4 < 0x100
    && forall k :: 0 <= k < |s.strings| ==> IsString(s.strings[k])
  }

  function StringList(ss: seq<seq<byte>>): seq<byte> {
    if ss == [] then [0] else ss[0] + [0] + StringList(ss[1..])
  }

  function StringSet(ss: seq<seq<byte>>): seq<byte> {
    if ss == [] then [0, 0] else StringList(ss)
  }

  function Encode(s: Structure): seq<byte>
    requires |s.body| + 4 < 0x100
  {
    Header(s) + s.body + StringSet(s.strings)
  }

  function Header(s: Structure): (r: seq<byte>)
    requires |s.body| + 4 < 0x100
    ensures |r| == 4
  {
    [s.kind, |s.body| + 4, s.handle % 0x100, s.handle / 0x100]
  }

  // Structure `s` lies at offset `at` of the memory.
  ghost predicate Holds(mem: seq<byte>, at: nat, s: Structure) {
    WellFormed(s) && at + |Encode(s)| <= |mem| && mem[at..at + |Encode(s)|] == Encode(s)
  }

  // The string that a 1-based string number names; empty when there is none.
  function StringOf(s: Structure, number: nat): seq<byte> {
    TextOf(s.strings, number)
  }

  function TextOf(ss: seq<seq<byte>>, number: nat): seq<byte> {
    if 1 <= number <= |ss| then ss[number - 1] else []
  }

  // ---------------------------------------------------------------------
  // Layout facts
  // ---------------------------------------------------------------------

  ghost predicate DoubleNul(b: seq<byte>, i: int) {
    0 <= i && i + 1 < |b| && b[i] == 0 && b[i + 1] == 0
  }

  lemma {:induction false} ListEndsOnce(ss: seq<seq<byte>>)
    requires forall k :: 0 <= k < |ss| ==> IsString(ss[k])
    ensures |StringList(ss)| >= 1 && (ss != [] ==> |StringList(ss)| >= 2 && StringList(ss)[0] != 0)
    ensures forall i :: DoubleNul(StringList(ss), i) <==> ss != [] && i == |StringList(ss)| - 2
  {
    if ss != [] {
      ListEndsOnce(ss[1..]);
      var rest := StringList(ss[1..]);
      var all := StringList(ss);
      var n := |ss[0]| + 1;
      assert all == ss[0] + [0] + rest;
      assert IsString(ss[0]);
      forall i ensures DoubleNul(all, i) <==> i == |all| - 2 {
        if i >= n {
          assert DoubleNul(all, i) <==> DoubleNul(rest, i - n);
        } else if i == n - 1 {
          assert all[n] == rest[0];
        }
      }
    }
  }

  // The only double NUL of a string set is its end.
  lemma SetEndsOnce(ss: seq<seq<byte>>)
    requires forall k :: 0 <= k < |ss| ==> IsString(ss[k])
    ensures |StringSet(ss)| >= 2
    ensures forall i :: DoubleNul(StringSet(ss), i) <==> i == |StringSet(ss)| - 2
  {
    if ss != [] {
      ListEndsOnce(ss);
    }
  }

  // Byte offset of string `k` (0-based) in its set.
  function StringStart(ss: seq<seq<byte>>, k: nat): nat
    requires k <= |ss|
  {
    if k == 0 then 0 else |ss[0]| + 1 + StringStart(ss[1..], k - 1)
  }

  lemma {:induction false} StringStartNext(ss: seq<seq<byte>>, k: nat)
    requires k < |ss|
    ensures StringStart(ss, k + 1) == StringStart(ss, k) + |ss[k]| + 1
  {
    if k > 0 {
      StringStartNext(ss[1..], k - 1);
    }
  }

  lemma HeldBytes(mem: seq<byte>, at: nat, s: Structure)
    requires Holds(mem, at, s)
    ensures |Encode(s)| == 4 + |s.body| + |StringSet(s.strings)|
    ensures mem[at] == s.kind && mem[at + 1] == |s.body| + 4
    ensures mem[at + 4..at + 4 + |s.body|] == s.body
    ensures mem[at + 4 + |s.body|..at + |Encode(s)|] == StringSet(s.strings)
  {
    EncodeParts(s);
    HeldLies(mem, at, s);
    ThreeParts(mem, at, Header(s), s.body, StringSet(s.strings));
    assert Header(s)[0] == mem[at + 0] && Header(s)[1] == mem[at + 1];
  }

  lemma EncodeParts(s: Structure)
    requires |s.body| + 4 < 0x100
    ensures Encode(s) == Header(s) + s.body + StringSet(s.strings)
    ensures |Encode(s)| == 4 + |s.body| + |StringSet(s.strings)|
    ensures Header(s)[0] == s.kind && Header(s)[1] == |s.body| + 4
  {
  }

  lemma HeldLies(mem: seq<byte>, at: nat, s: Structure)
    requires Holds(mem, at, s)
    ensures Lies(mem, at, Encode(s))
  {
    SliceLies(mem, at, Encode(s));
  }

  lemma ThreeParts(mem: seq<byte>, at: nat, head: seq<byte>, body: seq<byte>, set_: seq<byte>)
    requires Lies(mem, at, head + body + set_)
    ensures Lies(mem, at, head)
    ensures mem[at + |head|..at + |head| + |body|] == body
    ensures mem[at + |head| + |body|..at + |head| + |body| + |set_|] == set_
  {
    LiesParts(mem, at, head + body, set_);
    LiesParts(mem, at, head, body);
    LiesSlice(mem, at + |head|, body);
    LiesSlice(mem, at + |head| + |body|, set_);
  }

  // ---------------------------------------------------------------------
  // Reading
  // ---------------------------------------------------------------------

  // Skip to the double NUL and past it. The memory must hold one.
  method GetNext(mem: seq<byte>, current: nat) returns (next: nat)
    requires current + 1 < |mem|
    requires exists e: nat :: current + mem[current + 1] <= e && DoubleNul(mem, e)
    ensures current + mem[current + 1] + 2 <= next <= |mem| && DoubleNul(mem, next - 2)
    ensures forall i :: current + mem[current + 1] <= i < next - 2 ==> !DoubleNul(mem, i)
  {
    ghost var end: nat :| current + mem[current + 1] <= end && DoubleNul(mem, end);
    var p: nat := current + mem[current + 1];
    while !(mem[p] == 0 && mem[p + 1] == 0)
      invariant current + mem[current + 1] <= p <= end
      invariant forall i :: current + mem[current + 1] <= i < p ==> !DoubleNul(mem, i)
      decreases end - p
    {
      assert !DoubleNul(mem, p);
      p := p + 1;
    }
    next := p + 2;
  }

  // On an encoded structure the scan lands on the byte right behind it.
  lemma NextIsBehind(mem: seq<byte>, at: nat, s: Structure)
    requires Holds(mem, at, s)
    ensures at + 1 < |mem| && at + mem[at + 1] + 2 <= at + |Encode(s)| && DoubleNul(mem, at + |Encode(s)| - 2)
    ensures forall i :: at + mem[at + 1] <= i < at + |Encode(s)| - 2 ==> !DoubleNul(mem, i)
  {
    HeldBytes(mem, at, s);
    SetEndsOnce(s.strings);
    var base := at + 4 + |s.body|;
    var set_ := StringSet(s.strings);
    assert forall j :: 0 <= j < |set_| ==> set_[j] == mem[base + j];
    forall i | base <= i < at + |Encode(s)| - 1 ensures DoubleNul(mem, i) <==> DoubleNul(set_, i - base) {
      assert mem[i] == set_[i - base] && mem[i + 1] == set_[i + 1 - base];
    }
  }

  // The bytes from an offset up to its NUL.
  ghost predicate CString(mem: seq<byte>, at: nat, text: seq<byte>) {
    && at + |text| < |mem| && mem[at + |text|] == 0
    && forall i :: 0 <= i < |text| ==> text[i] != 0 && mem[at + i] == text[i]
  }

  // In a list of strings that lies at `base`, string `k` (0-based) starts
  // where StringStart says; behind the last one stands the closing NUL.
  lemma {:induction false} StringAt(mem: seq<byte>, base: nat, ss: seq<seq<byte>>, k: nat, text: seq<byte>)
    requires forall i :: 0 <= i < |ss| ==> IsString(ss[i])
    requires Lies(mem, base, StringList(ss))
    requires k <= |ss| && text == if k < |ss| then ss[k] else []
    ensures CString(mem, base + StringStart(ss, k), text)
    decreases |ss|
  {
    if |ss| > 0 {
      LiesParts(mem, base, ss[0] + [0], StringList(ss[1..]));
      if k > 0 {
        StringAt(mem, base + |ss[0]| + 1, ss[1..], k - 1, text);
      } else {
        FirstString(mem, base, ss[0]);
      }
    } else {
      assert [0][0] == mem[base + 0];
    }
  }

  lemma FirstString(mem: seq<byte>, base: nat, text: seq<byte>)
    requires IsString(text) && Lies(mem, base, text + [0])
    ensures CString(mem, base, text)
  {
    LiesParts(mem, base, text, [0]);
    assert [0][0] == mem[base + |text| + 0];
  }

  // A string set lies at `base`.
  ghost predicate SetLies(mem: seq<byte>, base: nat, ss: seq<seq<byte>>) {
    (forall i :: 0 <= i < |ss| ==> IsString(ss[i])) && Lies(mem, base, StringSet(ss))
  }

  lemma HeldSet(mem: seq<byte>, header: nat, s: Structure)
    requires Holds(mem, header, s)
    ensures header + 1 < |mem| && SetLies(mem, header + mem[header + 1], s.strings)
  {
    HeldBytes(mem, header, s);
    SliceLies(mem, header + 4 + |s.body|, StringSet(s.strings));
  }

  // The scan for string number `index` stands at `p`.
  ghost predicate Scan(mem: seq<byte>, base: nat, ss: seq<seq<byte>>, index: nat, p: nat) {
    && 1 <= index && (index == 1 || index <= |ss|)
    && p == base + StringStart(ss, index - 1)
    && CString(mem, p, TextOf(ss, index))
  }

  lemma ScanStarts(mem: seq<byte>, base: nat, ss: seq<seq<byte>>)
    requires SetLies(mem, base, ss)
    ensures Scan(mem, base, ss, 1, base)
  {
    if |ss| == 0 {
      EmptySetEnds(mem, base, ss);
    } else {
      StringAt(mem, base, ss, 0, ss[0]);
    }
  }

  // One string on, a NUL says that there is no further string.
  lemma ScanGoesOn(mem: seq<byte>, base: nat, ss: seq<seq<byte>>, index: nat, p: nat)
    requires SetLies(mem, base, ss) && Scan(mem, base, ss, index, p)
    ensures var p' := p + |TextOf(ss, index)| + 1;
            && p' < |mem|
            && (mem[p'] == 0 <==> index >= |ss|)
            && (index < |ss| ==> Scan(mem, base, ss, index + 1, p'))
  {
    if |ss| == 0 {
      EmptySetEnds(mem, base, ss);
    } else {
      NextString(mem, base, ss, index, p + |ss[index - 1]| + 1, TextOf(ss, index + 1));
    }
  }

  // The empty set is two NULs.
  lemma EmptySetEnds(mem: seq<byte>, base: nat, ss: seq<seq<byte>>)
    requires SetLies(mem, base, ss) && |ss| == 0
    ensures base + 1 < |mem| && mem[base] == 0 && mem[base + 1] == 0
  {
    var set_ := StringSet(ss);
    assert set_[0] == mem[base + 0] && set_[1] == mem[base + 1];
  }

  // Behind string `index` stands the next one, or the closing NUL.
  lemma NextString(mem: seq<byte>, base: nat, ss: seq<seq<byte>>, index: nat, p: nat, text: seq<byte>)
    requires SetLies(mem, base, ss) && 1 <= index <= |ss|
    requires p == base + StringStart(ss, index - 1) + |ss[index - 1]| + 1
    requires text == if index < |ss| then ss[index] else []
    ensures p < |mem| && CString(mem, p, text) && p == base + StringStart(ss, index)
    ensures mem[p] == 0 <==> index == |ss|
  {
    StringStartNext(ss, index - 1);
    StringAt(mem, base, ss, index, text);
    if index < |ss| {
      FirstNotNul(mem, p, text);
    }
  }

  lemma FirstNotNul(mem: seq<byte>, p: nat, text: seq<byte>)
    requires CString(mem, p, text) && IsString(text)
    ensures mem[p] != 0
  {
    assert mem[p] == text[0];
  }

  // Past the NUL of the string at `at`.
  method SkipString(mem: seq<byte>, at: nat, ghost text: seq<byte>) returns (p: nat)
    requires CString(mem, at, text)
    ensures p == at + |text| + 1
  {
    p := at;
    forall j | at <= j < at + |text| ensures mem[j] != 0 {
      assert text[j - at] == mem[at + (j - at)];
    }
    while mem[p] != 0
      invariant at <= p <= at + |text|
      decreases at + |text| - p
    {
      p := p + 1;
    }
    p := p + 1;
  }

  // The pointer to string `number`, or None for the empty literal.
  method GetString(mem: seq<byte>, header: nat, number: byte, ghost s: Structure) returns (ptr: Option<nat>)
    requires Holds(mem, header, s)
    ensures ptr.None? ==> StringOf(s, number) == []
    ensures ptr.Some? ==> CString(mem, ptr.value, StringOf(s, number))
  {
    if number == 0 {
      return None;
    }
    HeldSet(mem, header, s);
    ptr := FindString(mem, header + mem[header + 1], number, s.strings);
  }

  // Its scan over the string set at `base`.
  method FindString(mem: seq<byte>, base: nat, number: byte, ghost ss: seq<seq<byte>>) returns (ptr: Option<nat>)
    requires SetLies(mem, base, ss) && number > 0
    ensures ptr.None? ==> TextOf(ss, number) == []
    ensures ptr.Some? ==> CString(mem, ptr.value, TextOf(ss, number))
  {
    ScanStarts(mem, base, ss);
    var p := base;
    var index := 1;
    while index < number
      invariant 1 <= index <= number
      invariant Scan(mem, base, ss, index, p)
    {
      p := NextText(mem, base, p, index, ss);
      if mem[p] == 0 {
        return None;
      }
      index := index + 1;
    }
    ptr := Some(p);
  }

  method NextText(mem: seq<byte>, base: nat, at: nat, ghost index: nat, ghost ss: seq<seq<byte>>) returns (p: nat)
    requires SetLies(mem, base, ss) && Scan(mem, base, ss, index, at)
    ensures p < |mem| && (mem[p] == 0 ==> index >= |ss|)
    ensures mem[p] != 0 ==> Scan(mem, base, ss, index + 1, p)
  {
    ScanGoesOn(mem, base, ss, index, at);
    p := SkipString(mem, at, TextOf(ss, index));
  }

  function Cut(text: seq<byte>, size: nat): seq<byte>
    requires size > 0
  {
    if |text| >= size then text[..size - 1] else text
  }

  // Copy a string into a field of `size` bytes, NUL included; the field is
  // represented by the string it then holds.
  method CopyString(size: nat, mem: seq<byte>, header: nat, number: byte, ghost s: Structure) returns (field: seq<byte>)
    requires size > 0 && Holds(mem, header, s)
    ensures field == Cut(StringOf(s, number), size)
  {
    var src := GetString(mem, header, number, s);
    if src == None {
      return [];
    }
    var end := SkipString(mem, src.value, StringOf(s, number));
    var length := end - src.value - 1;
    assert mem[src.value..src.value + length] == StringOf(s, number);
    if length >= size {
      length := size - 1;
    }
    field := mem[src.value..src.value + length];
  }

  // ---------------------------------------------------------------------
  // The records
  // ---------------------------------------------------------------------

  datatype Cpu = Cpu(name: seq<byte>, socket: seq<byte>, maxSpeed: word, currentSpeed: word, cores: byte, threads: byte)

  datatype Slot = Slot(index: nat, locator: seq<byte>, manufacturer: seq<byte>, partNumber: seq<byte>, serialNumber: seq<byte>,
                       sizeMB: dword, speed: word, configuredSpeed: word, memoryType: byte, formFactor: byte)

  const MAX_SLOTS := 32

  // Size in MB: 0 absent, 0xFFFF unknown, 0x7FFF see the extended size, bit 15
  // set for a value in KB.
  function SizeMB(size: word, extended: dword): dword {
    if size == 0 || size == 0xFFFF then 0
    else if size == 0x7FFF then extended % 0x8000_0000
    else if size >= 0x8000 then size % 0x8000 / 1024
    else size
  }

  lemma SizeReadsBack(mb: nat, kb: nat)
    requires mb < 0x8000_0000 && kb < 0x7FFF
    ensures SizeMB(SizeFields(mb).0, SizeFields(mb).1) == mb
    ensures SizeMB(0x8000 + kb, 0) == kb / 1024 && SizeMB(0xFFFF, 0) == 0
  {
  }

  // A byte of the formatted area, by its offset in DSP0134 (header included).
  function Field8(s: Structure, offset: nat): byte {
    if 4 <= offset < 4 + |s.body| then s.body[offset - 4] else 0
  }

  function Field16(s: Structure, offset: nat): word {
    Field8(s, offset) as int + Field8(s, offset + 1) as int * 0x100
  }

  function Field32(s: Structure, offset: nat): dword {
    Field16(s, offset) as int + Field16(s, offset + 2) as int * 0x1_0000
  }

  function CpuOf(s: Structure): Cpu {
    Cpu(Cut(StringOf(s, Field8(s, 16)), 128), Cut(StringOf(s, Field8(s, 4)), 32),
        Field16(s, 20), Field16(s, 22), Field8(s, 35), Field8(s, 37))
  }

  function SlotOf(s: Structure, index: nat): Slot {
    Slot(index, Cut(StringOf(s, Field8(s, 16)), 32), Cut(StringOf(s, Field8(s, 23)), 32), Cut(StringOf(s, Field8(s, 26)), 32),
         Cut(StringOf(s, Field8(s, 24)), 32), SizeMB(Field16(s, 12), Field32(s, 28)),
         Field16(s, 21), Field16(s, 32), Field8(s, 18), Field8(s, 14))
  }

  // ---------------------------------------------------------------------
  // Records written out and read back
  // ---------------------------------------------------------------------

  function DeviceStructure(d: MemoryDevice): Structure
    requires d.sizeMB < 0x8000_0000
  {
    Structure(17, d.handle, DeviceBody(d), Present(DeviceTexts(d)))
  }

  function ProcessorStructure(p: Processor): Structure {
    Structure(4, p.handle, ProcessorBody(p), Present(ProcessorTexts(p)))
  }

  // A slot shows a device: every text, cut to its field, and every number.
  ghost predicate ShowsDevice(slot: Slot, index: nat, d: MemoryDevice) {
    && slot.index == index
    && slot.locator == First(d.locator, 31) && slot.manufacturer == First(d.manufacturer, 31)
    && slot.partNumber == First(d.partNumber, 31) && slot.serialNumber == First(d.serialNumber, 31)
    && slot.sizeMB == d.sizeMB && slot.speed == d.speed && slot.configuredSpeed == d.configuredSpeed
    && slot.memoryType == d.memoryType && slot.formFactor == d.formFactor
  }

  ghost predicate ShowsProcessor(cpu: Cpu, p: Processor) {
    && cpu.name == First(p.version, 127) && cpu.socket == First(p.socket, 31)
    && cpu.maxSpeed == p.maxSpeed && cpu.currentSpeed == p.currentSpeed
    && cpu.cores == p.coreCount && cpu.threads == p.threadCount
  }

  lemma PresentWellFormed(texts: seq<seq<byte>>)
    requires forall k :: 0 <= k < |texts| ==> NoNul(texts[k])
    ensures forall k :: 0 <= k < |Present(texts)| ==> IsString(Present(texts)[k])
  {
    forall k | 0 <= k < |Present(texts)| ensures IsString(Present(texts)[k]) {
      PresentAre(texts, k);
    }
  }

  lemma TextShown(s: Structure, texts: seq<seq<byte>>, k: nat, number: byte, size: nat)
    requires k < |texts| && s.strings == Present(texts) && number == NumberOf(texts, k) && size > 0
    ensures Cut(StringOf(s, number), size) == First(texts[k], size - 1)
  {
    PresentText(texts, k);
    CutIsFirst(texts[k], size);
    assert StringOf(s, number) == texts[k];
  }

  lemma CutIsFirst(text: seq<byte>, size: nat)
    requires size > 0
    ensures Cut(text, size) == First(text, size - 1)
  {
  }

  lemma WordShown(s: Structure, offset: nat, w: word)
    requires Field8(s, offset) == Lo(w) && Field8(s, offset + 1) == Hi(w)
    ensures Field16(s, offset) == w
  {
  }

  lemma DwordShown(s: Structure, offset: nat, d: dword)
    requires Field8(s, offset) == Lo(d % 0x1_0000) && Field8(s, offset + 1) == Hi(d % 0x1_0000)
    requires Field8(s, offset + 2) == Lo(d / 0x1_0000) && Field8(s, offset + 3) == Hi(d / 0x1_0000)
    ensures Field32(s, offset) == d
  {
    WordShown(s, offset, d % 0x1_0000);
    WordShown(s, offset + 2, d / 0x1_0000);
  }

  // Each byte of a device structure that is read.
  lemma DeviceFieldBytes(d: MemoryDevice)
    requires d.sizeMB < 0x8000_0000
    ensures var s := DeviceStructure(d);
            var t := DeviceTexts(d);
            && Field8(s, 14) == d.formFactor && Field8(s, 16) == NumberOf(t, 0) && Field8(s, 18) == d.memoryType
            && Field8(s, 23) == NumberOf(t, 2) && Field8(s, 24) == NumberOf(t, 3) && Field8(s, 26) == NumberOf(t, 5)
            && Field16(s, 12) == SizeFields(d.sizeMB).0 && Field32(s, 28) == SizeFields(d.sizeMB).1
            && Field16(s, 21) == d.speed && Field16(s, 32) == d.configuredSpeed
  {
    var s := DeviceStructure(d);
    DeviceBytes(d);
    WordShown(s, 12, SizeFields(d.sizeMB).0);
    DwordShown(s, 28, SizeFields(d.sizeMB).1);
    WordShown(s, 21, d.speed);
    WordShown(s, 32, d.configuredSpeed);
  }

  lemma DeviceShown(d: MemoryDevice, index: nat)
    requires DeviceFits(d)
    ensures ShowsDevice(SlotOf(DeviceStructure(d), index), index, d)
    ensures WellFormed(DeviceStructure(d)) && |DeviceBody(d)| + 4 >= DEVICE_END
  {
    var s := DeviceStructure(d);
    var t := DeviceTexts(d);
    DeviceFieldBytes(d);
    DeviceBytes(d);
    PresentWellFormed(t);
    TextShown(s, t, 0, Field8(s, 16), 32);
    TextShown(s, t, 2, Field8(s, 23), 32);
    TextShown(s, t, 3, Field8(s, 24), 32);
    TextShown(s, t, 5, Field8(s, 26), 32);
    SizeReadsBack(d.sizeMB, 0);
  }

  lemma ProcessorFieldBytes(p: Processor)
    requires |p.id| == 8
    ensures var s := ProcessorStructure(p);
            var t := ProcessorTexts(p);
            && Field8(s, 4) == NumberOf(t, 0) && Field8(s, 16) == NumberOf(t, 2)
            && Field8(s, 35) == p.coreCount && Field8(s, 37) == p.threadCount
            && Field16(s, 20) == p.maxSpeed && Field16(s, 22) == p.currentSpeed
  {
    var s := ProcessorStructure(p);
    ProcessorBytes(p);
    WordShown(s, 20, p.maxSpeed);
    WordShown(s, 22, p.currentSpeed);
  }

  lemma ProcessorShown(p: Processor)
    requires ProcessorFits(p)
    ensures ShowsProcessor(CpuOf(ProcessorStructure(p)), p)
    ensures WellFormed(ProcessorStructure(p)) && |ProcessorBody(p)| + 4 >= PROCESSOR_END
  {
    var s := ProcessorStructure(p);
    var t := ProcessorTexts(p);
    ProcessorFieldBytes(p);
    ProcessorBytes(p);
    PresentWellFormed(t);
    TextShown(s, t, 0, Field8(s, 4), 32);
    TextShown(s, t, 2, Field8(s, 16), 128);
  }

  // ---------------------------------------------------------------------
  // Structures shorter than the fields read
  // ---------------------------------------------------------------------

  // One past the last field that is read of each type.
  const PROCESSOR_END := 38
  const DEVICE_END := 34

  // The structure as the parser sees it. It looks at the fields whatever
  // Length says, so behind a short formatted area it sees the string set.
  function Seen(mem: seq<byte>, at: nat, s: Structure): Structure {
    if at + PROCESSOR_END <= |mem| then s.(body := mem[at + 4..at + PROCESSOR_END])
    else if at + DEVICE_END <= |mem| then s.(body := mem[at + 4..at + DEVICE_END])
    else s
  }

  lemma SeenField(mem: seq<byte>, at: nat, s: Structure, offset: nat)
    requires Holds(mem, at, s) && 4 <= offset < 4 + |s.body|
    requires offset < DEVICE_END || at + PROCESSOR_END <= |mem|
    requires offset < PROCESSOR_END
    ensures Field8(Seen(mem, at, s), offset) == Field8(s, offset)
  {
    HeldBytes(mem, at, s);
    var held := mem[at + 4..at + 4 + |s.body|];
    assert held[offset - 4] == mem[at + offset];
  }

  // Two structures have the same strings and the same fields before `end`.
  ghost predicate SameFields(a: Structure, b: Structure, end: nat) {
    a.strings == b.strings && forall offset :: 4 <= offset < end ==> Field8(a, offset) == Field8(b, offset)
  }

  lemma SameField16(a: Structure, b: Structure, end: nat, offset: nat)
    requires SameFields(a, b, end) && 4 <= offset && offset + 2 <= end
    ensures Field16(a, offset) == Field16(b, offset)
  {
  }

  lemma SameCpu(a: Structure, b: Structure)
    requires SameFields(a, b, PROCESSOR_END)
    ensures CpuOf(a) == CpuOf(b)
  {
    SameField16(a, b, PROCESSOR_END, 20);
    SameField16(a, b, PROCESSOR_END, 22);
  }

  lemma SameSize(a: Structure, b: Structure)
    requires SameFields(a, b, DEVICE_END)
    ensures SizeMB(Field16(a, 12), Field32(a, 28)) == SizeMB(Field16(b, 12), Field32(b, 28))
  {
    SameField16(a, b, DEVICE_END, 12);
    SameField16(a, b, DEVICE_END, 28);
    SameField16(a, b, DEVICE_END, 30);
  }

  lemma SameSlot(a: Structure, b: Structure, index: nat)
    requires SameFields(a, b, DEVICE_END)
    ensures SlotOf(a, index) == SlotOf(b, index)
  {
    SameSize(a, b);
    SameField16(a, b, DEVICE_END, 21);
    SameField16(a, b, DEVICE_END, 32);
  }

  // A structure that holds all the fields is seen as it is.
  lemma SeenIsOwn(mem: seq<byte>, at: nat, s: Structure, end: nat)
    requires Holds(mem, at, s) && |s.body| + 4 >= end && (end == PROCESSOR_END || end == DEVICE_END)
    ensures at + end <= |mem| && SameFields(Seen(mem, at, s), s, end)
  {
    HeldBytes(mem, at, s);
    forall offset | 4 <= offset < end ensures Field8(Seen(mem, at, s), offset) == Field8(s, offset) {
      SeenField(mem, at, s, offset);
    }
  }

  lemma SeenIsOwnProcessor(mem: seq<byte>, at: nat, s: Structure)
    requires Holds(mem, at, s) && |s.body| + 4 >= PROCESSOR_END
    ensures at + PROCESSOR_END <= |mem| && CpuOf(Seen(mem, at, s)) == CpuOf(s)
  {
    SeenIsOwn(mem, at, s, PROCESSOR_END);
    SameCpu(Seen(mem, at, s), s);
  }

  lemma SeenIsOwnDevice(mem: seq<byte>, at: nat, s: Structure, index: nat)
    requires Holds(mem, at, s) && |s.body| + 4 >= DEVICE_END
    ensures at + DEVICE_END <= |mem| && SlotOf(Seen(mem, at, s), index) == SlotOf(s, index)
  {
    SeenIsOwn(mem, at, s, DEVICE_END);
    SameSlot(Seen(mem, at, s), s, index);
  }

  // Whatever its strings are and wherever it lies, the record read of such a
  // structure is that of its own fields.
  ghost predicate ProcessorReadsOwn(handle: word, body: seq<byte>) {
    forall strings, mem, at: nat ::
      Holds(mem, at, Structure(PROCESSOR, handle, body, strings)) && at + PROCESSOR_END <= |mem| ==>
        var s := Structure(PROCESSOR, handle, body, strings); CpuOf(Seen(mem, at, s)) == CpuOf(s)
  }

  ghost predicate DeviceReadsOwn(handle: word, body: seq<byte>) {
    forall strings, mem, at: nat ::
      Holds(mem, at, Structure(MEMORY_DEVICE, handle, body, strings)) && at + DEVICE_END <= |mem| ==>
        var s := Structure(MEMORY_DEVICE, handle, body, strings); SlotOf(Seen(mem, at, s), 0) == SlotOf(s, 0)
  }

  // A short structure with one string of forty bytes, in memory.
  function Short(kind: byte, handle: word, body: seq<byte>): Structure {
    Structure(kind, handle, body, [seq(40, _ => 1)])
  }

  lemma ShortSees(kind: byte, handle: word, body: seq<byte>, offset: nat)
    requires 4 + |body| <= offset < PROCESSOR_END
    ensures var s := Short(kind, handle, body);
            && Holds(Encode(s), 0, s) && PROCESSOR_END <= |Encode(s)|
            && Field8(Seen(Encode(s), 0, s), offset) == 1 && Field8(s, offset) == 0
  {
    var s := Short(kind, handle, body);
    var text: seq<byte> := seq(40, _ => 1);
    assert StringList(s.strings) == text + [0] + [0] by {
      assert s.strings[1..] == [];
    }
    var head := Header(s) + body;
    var mem := Encode(s);
    assert mem == head + (text + [0] + [0]);
    assert mem[0..|mem|] == mem;
    assert mem[offset] == text[offset - |head|];
  }

  // The record is that of the structure's own fields, for all string sets,
  // exactly when its Length reaches the last field read.
  lemma ProcessorOwnIffLong(handle: word, body: seq<byte>)
    requires |body| + 4 < 0x100
    ensures ProcessorReadsOwn(handle, body) <==> |body| + 4 >= PROCESSOR_END
  {
    if |body| + 4 < PROCESSOR_END {
      var s := Short(PROCESSOR, handle, body);
      ShortSees(PROCESSOR, handle, body, 37);
      assert CpuOf(Seen(Encode(s), 0, s)).threads != CpuOf(s).threads;
      assert Holds(Encode(s), 0, Structure(PROCESSOR, handle, body, s.strings));
    } else {
      forall strings, mem, at: nat | Holds(mem, at, Structure(PROCESSOR, handle, body, strings))
        ensures CpuOf(Seen(mem, at, Structure(PROCESSOR, handle, body, strings))) == CpuOf(Structure(PROCESSOR, handle, body, strings))
      {
        SeenIsOwnProcessor(mem, at, Structure(PROCESSOR, handle, body, strings));
      }
    }
  }

  lemma DeviceOwnIffLong(handle: word, body: seq<byte>)
    requires |body| + 4 < 0x100
    ensures DeviceReadsOwn(handle, body) <==> |body| + 4 >= DEVICE_END
  {
    if |body| + 4 < DEVICE_END {
      var s := Short(MEMORY_DEVICE, handle, body);
      ShortSees(MEMORY_DEVICE, handle, body, 33);
      assert SlotOf(Seen(Encode(s), 0, s), 0).configuredSpeed != SlotOf(s, 0).configuredSpeed;
      assert Holds(Encode(s), 0, Structure(MEMORY_DEVICE, handle, body, s.strings));
    } else {
      forall strings, mem, at: nat | Holds(mem, at, Structure(MEMORY_DEVICE, handle, body, strings))
        ensures SlotOf(Seen(mem, at, Structure(MEMORY_DEVICE, handle, body, strings)), 0)
                == SlotOf(Structure(MEMORY_DEVICE, handle, body, strings), 0)
      {
        SeenIsOwnDevice(mem, at, Structure(MEMORY_DEVICE, handle, body, strings), 0);
      }
    }
  }

  // ---------------------------------------------------------------------
  // The walk
  // ---------------------------------------------------------------------

  ghost predicate AllWellFormed(table: seq<Structure>) {
    forall i :: 0 <= i < |table| ==> WellFormed(table[i])
  }

  ghost function EncodeTable(table: seq<Structure>): seq<byte>
    requires AllWellFormed(table)
  {
    if table == [] then [] else Encode(table[0]) + EncodeTable(table[1..])
  }

  ghost predicate TableAt(mem: seq<byte>, at: nat, table: seq<Structure>) {
    && AllWellFormed(table)
    && at + |EncodeTable(table)| <= |mem| && mem[at..at + |EncodeTable(table)|] == EncodeTable(table)
  }

  // The structures a walk from `at` dispatches on.
  ghost function Visited(table: seq<Structure>, at: nat, end: nat): (r: seq<Structure>)
    requires AllWellFormed(table)
    ensures |r| <= |table|
  {
    if table == [] || at >= end || table[0].kind == END_OF_TABLE then []
    else [table[0]] + Visited(table[1..], at + |Encode(table[0])|, end)
  }

  // The table ends no later than its bytes do: the walk is stopped by `end` or
  // by an end-of-table structure, not by running out of structures.
  ghost predicate Stops(table: seq<Structure>, at: nat, end: nat)
    requires AllWellFormed(table)
  {
    at >= end || (table != [] && (table[0].kind == END_OF_TABLE || Stops(table[1..], at + |Encode(table[0])|, end)))
  }

  // Byte offset of structure `n`.
  ghost function StructureStart(table: seq<Structure>, n: nat): nat
    requires n <= |table| && AllWellFormed(table)
  {
    if n == 0 then 0 else |Encode(table[0])| + StructureStart(table[1..], n - 1)
  }

  lemma {:induction false} VisitedPrefix(table: seq<Structure>, at: nat, end: nat)
    requires AllWellFormed(table)
    ensures |Visited(table, at, end)| <= |table| && Visited(table, at, end) == table[..|Visited(table, at, end)|]
    decreases |table|
  {
    if |table| > 0 && at < end && table[0].kind != END_OF_TABLE {
      VisitedPrefix(table[1..], at + |Encode(table[0])|, end);
    }
  }

  lemma {:induction false} VisitedBefore(table: seq<Structure>, at: nat, end: nat, i: nat)
    requires AllWellFormed(table) && i < |Visited(table, at, end)|
    ensures i < |table| && table[i].kind != END_OF_TABLE && at + StructureStart(table, i) < end
    decreases i
  {
    if i > 0 {
      VisitedBefore(table[1..], at + |Encode(table[0])|, end, i - 1);
      StartNext(table, i);
    }
  }

  lemma {:induction false} VisitedStops(table: seq<Structure>, at: nat, end: nat, n: nat)
    requires AllWellFormed(table) && n == |Visited(table, at, end)| < |table|
    ensures table[n].kind == END_OF_TABLE || at + StructureStart(table, n) >= end
    decreases n
  {
    if n > 0 {
      VisitedStops(table[1..], at + |Encode(table[0])|, end, n - 1);
      StartNext(table, n);
    }
  }

  lemma StartNext(table: seq<Structure>, n: nat)
    requires 0 < n <= |table| && AllWellFormed(table)
    ensures AllWellFormed(table[1..])
    ensures StructureStart(table, n) == |Encode(table[0])| + StructureStart(table[1..], n - 1)
  {
  }

  // Visited are exactly the structures before the first type 127 or the first
  // one that starts at or behind the table end.
  lemma VisitedExactly(table: seq<Structure>, at: nat, end: nat)
    requires AllWellFormed(table)
    ensures var n := |Visited(table, at, end)|;
            && n <= |table| && Visited(table, at, end) == table[..n]
            && (forall i :: 0 <= i < n ==> table[i].kind != 127 && at + StructureStart(table, i) < end)
            && (n < |table| ==> table[n].kind == 127 || at + StructureStart(table, n) >= end)
  {
    var n := |Visited(table, at, end)|;
    VisitedPrefix(table, at, end);
    forall i | 0 <= i < n ensures table[i].kind != 127 && at + StructureStart(table, i) < end {
      VisitedBefore(table, at, end, i);
    }
    if n < |table| {
      VisitedStops(table, at, end, n);
    }
  }

  lemma TableParts(mem: seq<byte>, at: nat, table: seq<Structure>)
    requires TableAt(mem, at, table) && table != []
    ensures Holds(mem, at, table[0]) && TableAt(mem, at + |Encode(table[0])|, table[1..])
  {
    var e := EncodeTable(table);
    var n := |Encode(table[0])|;
    assert e == Encode(table[0]) + EncodeTable(table[1..]);
    assert mem[at..at + n] == mem[at..at + |e|][..n];
    assert mem[at + n..at + |e|] == mem[at..at + |e|][n..];
  }

  // ---------------------------------------------------------------------
  // The records after a walk
  // ---------------------------------------------------------------------

  datatype Records = Records(firstCpu: bool, cpu: Cpu, slots: seq<Slot>, populatedSlots: nat, totalMemoryMB: dword)

  const NO_RECORDS := Records(true, Cpu([], [], 0, 0, 0, 0), [], 0, 0)

  function WithCpu(r: Records, cpu: Cpu): Records {
    if r.firstCpu then r.(firstCpu := false, cpu := cpu) else r
  }

  function WithSlot(r: Records, slot: Slot): Records {
    if |r.slots| >= MAX_SLOTS then r
    else
      var q := r.(slots := r.slots + [slot]);
      if slot.sizeMB > 0 then
        q.(populatedSlots := r.populatedSlots + 1, totalMemoryMB := (r.totalMemoryMB + slot.sizeMB) % 0x1_0000_0000)
      else q
  }

  function Visit(r: Records, s: Structure): Records {
    if s.kind == PROCESSOR then WithCpu(r, CpuOf(s))
    else if s.kind == MEMORY_DEVICE then WithSlot(r, SlotOf(s, |r.slots|))
    else r
  }

  function VisitAll(run: seq<Structure>): Records {
    if run == [] then NO_RECORDS else Visit(VisitAll(run[..|run| - 1]), run[|run| - 1])
  }

  // The same, one structure at a time from the front.
  function VisitFrom(r: Records, run: seq<Structure>): Records
    decreases |run|
  {
    if run == [] then r else VisitFrom(Visit(r, run[0]), run[1..])
  }

  lemma VisitAllSnoc(run: seq<Structure>, s: Structure)
    ensures VisitAll(run + [s]) == Visit(VisitAll(run), s)
  {
    assert (run + [s])[..|run|] == run;
  }

  lemma {:induction false} VisitFromAll(r: Records, run: seq<Structure>, more: seq<Structure>)
    requires r == VisitAll(run)
    ensures VisitFrom(r, more) == VisitAll(run + more)
    decreases |more|
  {
    if |more| == 0 {
      assert run + more == run;
    } else {
      VisitAllSnoc(run, more[0]);
      assert run + [more[0]] + more[1..] == run + more;
      VisitFromAll(Visit(r, more[0]), run + [more[0]], more[1..]);
    }
  }

  function OfKind(run: seq<Structure>, kind: byte): seq<Structure> {
    if run == [] then []
    else OfKind(run[..|run| - 1], kind) + (if run[|run| - 1].kind == kind then [run[|run| - 1]] else [])
  }

  function SumMB(slots: seq<Slot>): nat {
    if slots == [] then 0 else SumMB(slots[..|slots| - 1]) + slots[|slots| - 1].sizeMB
  }

  function Populated(slots: seq<Slot>): nat {
    if slots == [] then 0 else Populated(slots[..|slots| - 1]) + (if slots[|slots| - 1].sizeMB > 0 then 1 else 0)
  }

  // The CPU record is that of the first processor visited.
  lemma {:induction false} CpuIsFirstProcessor(run: seq<Structure>)
    ensures var cpus := OfKind(run, PROCESSOR);
            var r := VisitAll(run);
            r.firstCpu == (cpus == []) && r.cpu == if cpus == [] then NO_RECORDS.cpu else CpuOf(cpus[0])
  {
    if run != [] {
      CpuIsFirstProcessor(run[..|run| - 1]);
    }
  }

  // The slots are the first 32 memory devices visited, numbered in order.
  lemma {:induction false} SlotsAreFirst32(run: seq<Structure>)
    ensures var devices := OfKind(run, MEMORY_DEVICE);
            var slots := VisitAll(run).slots;
            && |slots| == (if |devices| < MAX_SLOTS then |devices| else MAX_SLOTS)
            && forall i :: 0 <= i < |slots| ==> slots[i] == SlotOf(devices[i], i)
  {
    if run != [] {
      var front := run[..|run| - 1];
      var s := run[|run| - 1];
      SlotsAreFirst32(front);
      var r := VisitAll(front);
      assert VisitAll(run).slots == if s.kind == MEMORY_DEVICE && |r.slots| < MAX_SLOTS then r.slots + [SlotOf(s, |r.slots|)] else r.slots;
    }
  }

  lemma CountersSnoc(slots: seq<Slot>, slot: Slot)
    ensures Populated(slots + [slot]) == Populated(slots) + (if slot.sizeMB > 0 then 1 else 0)
    ensures SumMB(slots + [slot]) == SumMB(slots) + slot.sizeMB
  {
    assert (slots + [slot])[..|slots|] == slots;
  }

  lemma SumWraps(sum: nat, more: nat)
    ensures (sum % 0x1_0000_0000 + more) % 0x1_0000_0000 == (sum + more) % 0x1_0000_0000
  {
    assert sum + more == sum % 0x1_0000_0000 + more + sum / 0x1_0000_0000 * 0x1_0000_0000;
  }

  lemma {:induction false} WithSlotCounts(r: Records, slot: Slot)
    requires r.populatedSlots == Populated(r.slots) && r.totalMemoryMB == SumMB(r.slots) % 0x1_0000_0000
    ensures var q := WithSlot(r, slot);
            q.populatedSlots == Populated(q.slots) && q.totalMemoryMB == SumMB(q.slots) % 0x1_0000_0000
  {
    if |r.slots| < MAX_SLOTS {
      CountersSnoc(r.slots, slot);
      var sum := SumMB(r.slots);
      SumWraps(sum, slot.sizeMB);
      assert slot.sizeMB == 0 ==> SumMB(r.slots + [slot]) == sum;
    }
  }

  // The counters agree with the slots; the total is kept in 32 bits.
  lemma {:induction false} CountersMatchSlots(run: seq<Structure>)
    ensures var r := VisitAll(run);
            r.populatedSlots == Populated(r.slots) && r.totalMemoryMB == SumMB(r.slots) % 0x1_0000_0000
  {
    if run != [] {
      var r := VisitAll(run[..|run| - 1]);
      CountersMatchSlots(run[..|run| - 1]);
      WithSlotCounts(r, SlotOf(run[|run| - 1], |r.slots|));
    }
  }

  // ---------------------------------------------------------------------
  // The parser object
  // ---------------------------------------------------------------------

  // The bytes where the fields are looked for.
  method ReadBody(mem: seq<byte>, at: nat, end: nat, ghost s: Structure) returns (body: seq<byte>)
    requires at + end <= |mem| && (end == PROCESSOR_END || end == DEVICE_END)
    ensures |body| == end
    ensures forall i :: 4 <= i < end ==> body[i] == Field8(Seen(mem, at, s), i)
  {
    body := mem[at..at + end];
    ghost var seen := Seen(mem, at, s).body;
    assert forall i :: 4 <= i < end ==> body[i] == mem[at + i] == seen[i - 4];
  }

  function Le16(b: seq<byte>, i: nat): word
    requires i + 2 <= |b|
  {
    b[i] as int + b[i + 1] as int * 0x100
  }

  method ReadCpu(mem: seq<byte>, at: nat, ghost s: Structure) returns (cpu: Cpu)
    requires Holds(mem, at, s) && at + PROCESSOR_END <= |mem|
    ensures cpu == CpuOf(Seen(mem, at, s))
  {
    var b := ReadBody(mem, at, PROCESSOR_END, s);
    var name := CopyString(128, mem, at, b[16], s);
    var socket := CopyString(32, mem, at, b[4], s);
    cpu := Cpu(name, socket, Le16(b, 20), Le16(b, 22), b[35], b[37]);
  }

  method ReadSlot(mem: seq<byte>, at: nat, index: nat, ghost s: Structure) returns (slot: Slot)
    requires Holds(mem, at, s) && at + DEVICE_END <= |mem|
    ensures slot == SlotOf(Seen(mem, at, s), index)
  {
    var b := ReadBody(mem, at, DEVICE_END, s);
    var locator := CopyString(32, mem, at, b[16], s);
    var manufacturer := CopyString(32, mem, at, b[23], s);
    var partNumber := CopyString(32, mem, at, b[26], s);
    var serialNumber := CopyString(32, mem, at, b[24], s);
    var extended: dword := Le16(b, 28) as int + Le16(b, 30) as int * 0x1_0000;
    slot := Slot(index, locator, manufacturer, partNumber, serialNumber, SizeMB(Le16(b, 12), extended),
                 Le16(b, 21), Le16(b, 32), b[18], b[14]);
    NumbersRead(b, Seen(mem, at, s));
  }

  // The numeric fields of a memory device, as read and as defined.
  lemma NumbersRead(b: seq<byte>, s: Structure)
    requires |b| == DEVICE_END && forall i :: 4 <= i < DEVICE_END ==> b[i] == Field8(s, i)
    ensures Le16(b, 12) == Field16(s, 12) && Le16(b, 21) == Field16(s, 21) && Le16(b, 32) == Field16(s, 32)
    ensures Le16(b, 28) as int + Le16(b, 30) as int * 0x1_0000 == Field32(s, 28)
  {
  }

  // The fields that a visit reads lie in memory: those of the first processor
  // and of a memory device for which there is still a slot.
  ghost predicate Reaches(mem: seq<byte>, at: nat, s: Structure, r: Records) {
    && (s.kind == PROCESSOR && r.firstCpu ==> at + PROCESSOR_END <= |mem|)
    && (s.kind == MEMORY_DEVICE && |r.slots| < MAX_SLOTS ==> at + DEVICE_END <= |mem|)
  }

  // The structures visited, as the parser sees them.
  ghost function SeenRun(mem: seq<byte>, table: seq<Structure>, at: nat, end: nat): seq<Structure>
    requires AllWellFormed(table)
  {
    if table == [] || at >= end || table[0].kind == END_OF_TABLE then []
    else [Seen(mem, at, table[0])] + SeenRun(mem, table[1..], at + |Encode(table[0])|, end)
  }

  lemma {:induction false} SeenLength(mem: seq<byte>, table: seq<Structure>, at: nat, end: nat)
    requires AllWellFormed(table)
    ensures |SeenRun(mem, table, at, end)| == |Visited(table, at, end)| <= |table|
    decreases |table|
  {
    if |table| > 0 && at < end && table[0].kind != END_OF_TABLE {
      SeenLength(mem, table[1..], at + |Encode(table[0])|, end);
    }
  }

  lemma SeenExactly(mem: seq<byte>, table: seq<Structure>, at: nat, end: nat, i: nat)
    requires AllWellFormed(table) && i < |SeenRun(mem, table, at, end)|
    ensures i < |table| && SeenRun(mem, table, at, end)[i] == Seen(mem, at + StructureStart(table, i), table[i])
  {
    SeenLength(mem, table, at, end);
    SeenAt(mem, table, at, end, i, at + StructureStart(table, i));
  }

  lemma {:induction false} SeenAt(mem: seq<byte>, table: seq<Structure>, at: nat, end: nat, i: nat, start: nat)
    requires AllWellFormed(table) && i < |SeenRun(mem, table, at, end)| && i < |table|
    requires start == at + StructureStart(table, i)
    ensures SeenRun(mem, table, at, end)[i] == Seen(mem, start, table[i])
    decreases i
  {
    if i > 0 {
      var next, rest := at + |Encode(table[0])|, table[1..];
      StartNext(table, i);
      SeenAt(mem, rest, next, end, i - 1, start);
      assert SeenRun(mem, table, at, end)[i] == SeenRun(mem, rest, next, end)[i - 1];
    }
  }

  ghost predicate RunReaches(mem: seq<byte>, table: seq<Structure>, at: nat, end: nat, r: Records)
    requires AllWellFormed(table)
  {
    table == [] || at >= end || table[0].kind == END_OF_TABLE ||
    (Reaches(mem, at, table[0], r) &&
     RunReaches(mem, table[1..], at + |Encode(table[0])|, end, Visit(r, Seen(mem, at, table[0]))))
  }

  ghost predicate Long(s: Structure) {
    && (s.kind == PROCESSOR ==> |s.body| + 4 >= PROCESSOR_END)
    && (s.kind == MEMORY_DEVICE ==> |s.body| + 4 >= DEVICE_END)
  }

  // Every structure visited holds all the fields that are read.
  ghost predicate AllLong(run: seq<Structure>) {
    forall i :: 0 <= i < |run| ==> Long(run[i])
  }

  lemma LongVisit(mem: seq<byte>, at: nat, s: Structure, r: Records)
    requires Holds(mem, at, s) && Long(s)
    ensures Reaches(mem, at, s, r) && Visit(r, Seen(mem, at, s)) == Visit(r, s)
  {
    if s.kind == PROCESSOR {
      SeenIsOwnProcessor(mem, at, s);
    } else if s.kind == MEMORY_DEVICE {
      SeenIsOwnDevice(mem, at, s, |r.slots|);
    }
  }

  // Then nothing outside the table is read, and the records are those of the
  // structures' own fields.
  lemma {:induction false} LongRun(mem: seq<byte>, table: seq<Structure>, at: nat, end: nat, r: Records)
    requires TableAt(mem, at, table) && AllLong(Visited(table, at, end))
    ensures RunReaches(mem, table, at, end, r)
    ensures VisitFrom(r, SeenRun(mem, table, at, end)) == VisitFrom(r, Visited(table, at, end))
    decreases |table|
  {
    if table != [] && at < end && table[0].kind != END_OF_TABLE {
      TableParts(mem, at, table);
      var next := at + |Encode(table[0])|;
      var rest, seen := Visited(table[1..], next, end), SeenRun(mem, table[1..], next, end);
      assert Visited(table, at, end)[0] == table[0];
      assert forall i :: 0 <= i < |rest| ==> rest[i] == Visited(table, at, end)[i + 1];
      LongVisit(mem, at, table[0], r);
      LongRun(mem, table[1..], next, end, Visit(r, table[0]));
      VisitFromFirst(r, table[0], rest);
      VisitFromFirst(r, Seen(mem, at, table[0]), seen);
    }
  }

  lemma VisitFromFirst(r: Records, s: Structure, rest: seq<Structure>)
    ensures VisitFrom(r, [s] + rest) == VisitFrom(Visit(r, s), rest)
  {
    assert ([s] + rest)[1..] == rest;
  }

  // A table of structures that are all long enough: the records of its own
  // fields.
  lemma LongTable(mem: seq<byte>, table: seq<Structure>, start: nat, end: nat)
    requires TableAt(mem, start, table) && AllLong(Visited(table, start, end))
    ensures RunReaches(mem, table, start, end, NO_RECORDS)
    ensures VisitAll(SeenRun(mem, table, start, end)) == VisitAll(Visited(table, start, end))
  {
    LongRun(mem, table, start, end, NO_RECORDS);
    var own, seen := Visited(table, start, end), SeenRun(mem, table, start, end);
    VisitFromAll(NO_RECORDS, [], own);
    VisitFromAll(NO_RECORDS, [], seen);
    assert [] + own == own && [] + seen == seen;
  }

  // ---------------------------------------------------------------------
  // Tables of records
  // ---------------------------------------------------------------------

  datatype Item = OneDevice(device: MemoryDevice) | OneProcessor(processor: Processor) | Another(structure: Structure)

  ghost predicate ItemFits(item: Item) {
    match item
    case OneDevice(d) => DeviceFits(d)
    case OneProcessor(p) => ProcessorFits(p)
    case Another(s) => WellFormed(s) && s.kind != 4 && s.kind != 17
  }

  ghost function StructureOf(item: Item): Structure
    requires ItemFits(item)
  {
    match item
    case OneDevice(d) => DeviceStructure(d)
    case OneProcessor(p) => ProcessorStructure(p)
    case Another(s) => s
  }

  // The table that these items make.
  ghost predicate Lists(table: seq<Structure>, items: seq<Item>) {
    |table| == |items| && forall k :: 0 <= k < |items| ==> ItemFits(items[k]) && table[k] == StructureOf(items[k])
  }

  function Devices(items: seq<Item>): seq<MemoryDevice> {
    if items == [] then []
    else Devices(items[..|items| - 1]) + (if items[|items| - 1].OneDevice? then [items[|items| - 1].device] else [])
  }

  function Processors(items: seq<Item>): seq<Processor> {
    if items == [] then []
    else Processors(items[..|items| - 1]) + (if items[|items| - 1].OneProcessor? then [items[|items| - 1].processor] else [])
  }

  // The records show the first 32 devices and the first processor.
  ghost predicate RecordsShow(r: Records, items: seq<Item>) {
    var devices, processors := Devices(items), Processors(items);
    && |r.slots| == (if |devices| < 32 then |devices| else 32)
    && (forall i :: 0 <= i < |r.slots| ==> ShowsDevice(r.slots[i], i, devices[i]))
    && (r.firstCpu <==> |processors| == 0)
    && (|processors| > 0 ==> ShowsProcessor(r.cpu, processors[0]))
  }

  lemma FrontListed(table: seq<Structure>, items: seq<Item>, n: nat)
    requires Lists(table, items) && n <= |items|
    ensures Lists(table[..n], items[..n])
  {
  }

  lemma ItemKind(item: Item)
    requires ItemFits(item)
    ensures WellFormed(StructureOf(item)) && Long(StructureOf(item))
    ensures StructureOf(item).kind == MEMORY_DEVICE <==> item.OneDevice?
    ensures StructureOf(item).kind == PROCESSOR <==> item.OneProcessor?
  {
    match item
    case OneDevice(d) => DeviceShown(d, 0);
    case OneProcessor(p) => ProcessorShown(p);
    case Another(_) =>
  }

  lemma {:induction false} ListedDevices(run: seq<Structure>, items: seq<Item>)
    requires Lists(run, items)
    ensures var all := OfKind(run, MEMORY_DEVICE);
            |all| == |Devices(items)| &&
            forall i :: 0 <= i < |all| ==> DeviceFits(Devices(items)[i]) && all[i] == DeviceStructure(Devices(items)[i])
    decreases |run|
  {
    if |run| > 0 {
      var n := |run| - 1;
      FrontListed(run, items, n);
      ListedDevices(run[..n], items[..n]);
      ItemKind(items[n]);
    }
  }

  lemma {:induction false} ListedProcessors(run: seq<Structure>, items: seq<Item>)
    requires Lists(run, items)
    ensures var all := OfKind(run, PROCESSOR);
            |all| == |Processors(items)| &&
            forall i :: 0 <= i < |all| ==> ProcessorFits(Processors(items)[i]) && all[i] == ProcessorStructure(Processors(items)[i])
    decreases |run|
  {
    if |run| > 0 {
      var n := |run| - 1;
      FrontListed(run, items, n);
      ListedProcessors(run[..n], items[..n]);
      ItemKind(items[n]);
    }
  }

  lemma ListedShown(run: seq<Structure>, items: seq<Item>)
    requires Lists(run, items)
    ensures RecordsShow(VisitAll(run), items)
  {
    var r := VisitAll(run);
    SlotsAreFirst32(run);
    ListedDevices(run, items);
    forall i | 0 <= i < |r.slots| ensures ShowsDevice(r.slots[i], i, Devices(items)[i]) {
      DeviceShown(Devices(items)[i], i);
    }
    CpuIsFirstProcessor(run);
    ListedProcessors(run, items);
    if |Processors(items)| > 0 {
      ProcessorShown(Processors(items)[0]);
    }
  }

  // A walk over a table written from records gives every field of them back,
  // wherever the table lies and whatever stops the walk, and reads nothing
  // outside the table.
  lemma TableReadsBack(mem: seq<byte>, table: seq<Structure>, items: seq<Item>, start: nat, end: nat)
    requires TableAt(mem, start, table) && Lists(table, items)
    ensures RunReaches(mem, table, start, end, NO_RECORDS)
    ensures RecordsShow(VisitAll(SeenRun(mem, table, start, end)), items[..|Visited(table, start, end)|])
  {
    var n := |Visited(table, start, end)|;
    VisitedPrefix(table, start, end);
    FrontListed(table, items, n);
    forall i | 0 <= i < n ensures Long(table[..n][i]) {
      ItemKind(items[i]);
    }
    LongTable(mem, table, start, end);
    ListedShown(table[..n], items[..n]);
  }

  lemma SlotShows(mem: seq<byte>, at: nat, s: Structure, index: nat)
    requires Holds(mem, at, s)
    ensures forall d :: DeviceFits(d) && s == DeviceStructure(d) ==> ShowsDevice(SlotOf(Seen(mem, at, s), index), index, d)
  {
    forall d | DeviceFits(d) && s == DeviceStructure(d) ensures ShowsDevice(SlotOf(Seen(mem, at, s), index), index, d) {
      DeviceShown(d, index);
      SeenIsOwnDevice(mem, at, s, index);
    }
  }

  class SmbiosTables {
    var parsed: bool
    var firstCpu: bool
    var cpu: Cpu
    var slots: seq<Slot>
    var populatedSlots: nat
    var totalMemoryMB: dword

    function Snapshot(): Records
      reads this
    {
      Records(firstCpu, cpu, slots, populatedSlots, totalMemoryMB)
    }

    constructor ()
      ensures !parsed && Snapshot() == NO_RECORDS
    {
      parsed, firstCpu, cpu, slots, populatedSlots, totalMemoryMB := false, true, NO_RECORDS.cpu, [], 0, 0;
    }

    // Only the first processor is recorded.
    method ParseType4(mem: seq<byte>, at: nat, ghost s: Structure)
      requires Holds(mem, at, s) && (firstCpu ==> at + PROCESSOR_END <= |mem|)
      modifies this`firstCpu, this`cpu
      ensures !firstCpu && (!old(firstCpu) ==> cpu == old(cpu))
      ensures forall p :: ProcessorFits(p) && s == ProcessorStructure(p) && old(firstCpu) ==> ShowsProcessor(cpu, p)
      ensures Snapshot() == WithCpu(old(Snapshot()), CpuOf(Seen(mem, at, s)))
    {
      if !firstCpu {
        return;
      }
      firstCpu := false;
      cpu := ReadCpu(mem, at, s);
      forall p | ProcessorFits(p) && s == ProcessorStructure(p) ensures ShowsProcessor(cpu, p) {
        ProcessorShown(p);
        SeenIsOwnProcessor(mem, at, s);
      }
    }

    method ParseType17(mem: seq<byte>, at: nat, ghost s: Structure)
      requires Holds(mem, at, s) && (|slots| < MAX_SLOTS ==> at + DEVICE_END <= |mem|)
      modifies this`slots, this`populatedSlots, this`totalMemoryMB
      ensures |old(slots)| >= 32 ==> Snapshot() == old(Snapshot())
      ensures |old(slots)| < 32 ==>
                && |slots| == |old(slots)| + 1 && slots[..|old(slots)|] == old(slots)
                && (forall d :: DeviceFits(d) && s == DeviceStructure(d) ==> ShowsDevice(slots[|old(slots)|], |old(slots)|, d))
                && var mb := slots[|old(slots)|].sizeMB;
                   if mb == 0 then populatedSlots == old(populatedSlots) && totalMemoryMB == old(totalMemoryMB)
                   else populatedSlots == old(populatedSlots) + 1 && totalMemoryMB == (old(totalMemoryMB) + mb) % 0x1_0000_0000
      ensures Snapshot() == WithSlot(old(Snapshot()), SlotOf(Seen(mem, at, s), |old(slots)|))
    {
      if |slots| >= MAX_SLOTS {
        return;
      }
      var slot := ReadSlot(mem, at, |slots|, s);
      SlotShows(mem, at, s, |slots|);
      AddSlot(slot);
    }

    method AddSlot(slot: Slot)
      requires |slots| < MAX_SLOTS
      modifies this`slots, this`populatedSlots, this`totalMemoryMB
      ensures slots == old(slots) + [slot]
      ensures populatedSlots == old(populatedSlots) + (if slot.sizeMB > 0 then 1 else 0)
      ensures totalMemoryMB == (if slot.sizeMB > 0 then (old(totalMemoryMB) + slot.sizeMB) % 0x1_0000_0000 else old(totalMemoryMB))
      ensures Snapshot() == WithSlot(old(Snapshot()), slot)
    {
      slots := slots + [slot];
      if slot.sizeMB > 0 {
        populatedSlots := populatedSlots + 1;
        totalMemoryMB := (totalMemoryMB + slot.sizeMB) % 0x1_0000_0000;
      }
    }

    // The switch on the structure type.
    method Dispatch(mem: seq<byte>, at: nat, ghost s: Structure)
      requires Holds(mem, at, s) && Reaches(mem, at, s, Snapshot())
      modifies this
      ensures Snapshot() == Visit(old(Snapshot()), Seen(mem, at, s)) && parsed == old(parsed)
    {
      HeldBytes(mem, at, s);
      if mem[at] == PROCESSOR {
        ParseType4(mem, at, s);
      } else if mem[at] == MEMORY_DEVICE {
        ParseType17(mem, at, s);
      }
    }

    // The records are those of the structures visited, as they are seen. A
    // second call finds the tables parsed and does nothing.
    method ParseTables(mem: seq<byte>, start: nat, end: nat, ghost table: seq<Structure>)
      requires TableAt(mem, start, table) && Stops(table, start, end)
      requires !parsed ==> Snapshot() == NO_RECORDS && RunReaches(mem, table, start, end, NO_RECORDS)
      modifies this
      ensures parsed
      ensures old(parsed) ==> Snapshot() == old(Snapshot())
      ensures !old(parsed) ==> Snapshot() == VisitAll(SeenRun(mem, table, start, end))
      ensures !old(parsed) ==>
                forall items :: Lists(table, items) ==> RecordsShow(Snapshot(), items[..|Visited(table, start, end)|])
    {
      if parsed {
        return;
      }
      var current: nat := start;
      ghost var left := table;
      ghost var run := SeenRun(mem, table, start, end);
      HeadType(mem, current, left, end);
      while current < end && mem[current] != END_OF_TABLE
        invariant TableAt(mem, current, left) && Stops(left, current, end)
        invariant RunReaches(mem, left, current, end, Snapshot())
        invariant VisitFrom(Snapshot(), SeenRun(mem, left, current, end)) == VisitFrom(NO_RECORDS, run)
        invariant current < end ==> current < |mem| && left != [] && mem[current] == left[0].kind
        decreases |left|
      {
        current := Advance(mem, current, left, end);
        left := left[1..];
      }
      VisitFromAll(NO_RECORDS, [], run);
      assert [] + run == run;
      parsed := true;
      forall items | Lists(table, items) ensures RecordsShow(Snapshot(), items[..|Visited(table, start, end)|]) {
        TableReadsBack(mem, table, items, start, end);
      }
    }

    // One turn of the loop: dispatch on the structure at hand and move on.
    method Advance(mem: seq<byte>, at: nat, ghost left: seq<Structure>, end: nat) returns (next: nat)
      requires left != [] && TableAt(mem, at, left) && Stops(left, at, end)
      requires at < end && left[0].kind != END_OF_TABLE
      requires RunReaches(mem, left, at, end, Snapshot())
      modifies this
      ensures parsed == old(parsed)
      ensures TableAt(mem, next, left[1..]) && Stops(left[1..], next, end)
      ensures RunReaches(mem, left[1..], next, end, Snapshot())
      ensures VisitFrom(Snapshot(), SeenRun(mem, left[1..], next, end))
              == VisitFrom(old(Snapshot()), SeenRun(mem, left, at, end))
      ensures next < end ==> next < |mem| && left[1..] != [] && mem[next] == left[1..][0].kind
    {
      TableParts(mem, at, left);
      RunParts(mem, left, at, end, Snapshot());
      Dispatch(mem, at, left[0]);
      next := Step(mem, at, left[0]);
      HeadType(mem, next, left[1..], end);
    }
  }

  lemma RunParts(mem: seq<byte>, left: seq<Structure>, at: nat, end: nat, r: Records)
    requires AllWellFormed(left) && left != [] && at < end && left[0].kind != END_OF_TABLE
    requires RunReaches(mem, left, at, end, r)
    ensures var next := at + |Encode(left[0])|;
            var r' := Visit(r, Seen(mem, at, left[0]));
            && Reaches(mem, at, left[0], r) && RunReaches(mem, left[1..], next, end, r')
            && VisitFrom(r, SeenRun(mem, left, at, end)) == VisitFrom(r', SeenRun(mem, left[1..], next, end))
  {
    VisitFromFirst(r, Seen(mem, at, left[0]), SeenRun(mem, left[1..], at + |Encode(left[0])|, end));
  }

  // SmbiosGetNext from the start of a structure lands on the byte behind it.
  method Step(mem: seq<byte>, at: nat, ghost s: Structure) returns (next: nat)
    requires Holds(mem, at, s)
    ensures next == at + |Encode(s)|
  {
    NextIsBehind(mem, at, s);
    next := GetNext(mem, at);
  }

  lemma HeadType(mem: seq<byte>, at: nat, table: seq<Structure>, end: nat)
    requires TableAt(mem, at, table) && Stops(table, at, end)
    ensures at < end ==> at < |mem| && table != [] && mem[at] == table[0].kind
  {
    if at < end {
      TableParts(mem, at, table);
      HeldBytes(mem, at, table[0]);
    }
  }
}
