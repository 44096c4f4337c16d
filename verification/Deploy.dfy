// Writing a deployment into a PLC data block (src/deploy.rs:395-443) and seeing it again
// through a monitor (src/report/monitor.rs:298-312).
module Deploy {
  import opened Prelude
  import opened Codecs
  import opened Fields
  import opened BlockCodec
  import opened BlockRoundTrip
  import opened Monitors

  datatype Deployment = Deployment(
    fillStationId: Option<string>, dbNumber: nat, offset: nat, length: nat,
    contentType: string, content: Json)

  /** The station's address if one is named, the monitor's otherwise. */
  function ResolveTarget(d: Deployment, stations: map<string, (string, nat)>,
                         monitorAddress: Option<(string, nat)>): Result<(string, nat)> {
    match d.fillStationId
    case Some(id) =>
      if id in stations then Ok(stations[id]) else Err("FillStation " + id + " not found")
    case None =>
      match monitorAddress
      case Some(address) => Ok(address)
      case None => Err("Cannot resolve PLC IP/port for deploy")
  }

  /** End of the slice to write; a length of 0 means everything from the offset on. */
  function WindowEnd(d: Deployment, encoded: seq<Byte>): nat {
    if d.length > 0 then Min(d.offset + d.length, |encoded|) else |encoded|
  }

  /** The bytes to write and where: the driver takes the offset modulo 65536. */
  function Window(d: Deployment, encoded: seq<Byte>): Outcome<(nat, seq<Byte>)> {
    if d.offset > WindowEnd(d, encoded) then Panic
    else Done((d.offset % 0x1_0000, encoded[d.offset..WindowEnd(d, encoded)]))
  }

  function PlannedWrite(foreign: Foreign, d: Deployment, cache: map<string, BlockDefinition>)
    : Outcome<(nat, seq<Byte>)>
  {
    match EncodeContent(foreign, d.content, d.contentType, cache)
    case Done(encoded) => Window(d, encoded)
    case Failed(e) => Failed(e)
    case Panic => Panic
  }

  /** A data block of the PLC takes a write that fits and refuses any other. */
  function WriteDb(memory: seq<Byte>, offset: nat, data: seq<Byte>): Option<seq<Byte>> {
    if offset + |data| > |memory| then None
    else Some(memory[..offset] + data + memory[offset + |data|..])
  }

  function ReadDb(memory: seq<Byte>, offset: nat, size: nat): Option<seq<Byte>> {
    if offset + size > |memory| then None else Some(memory[offset..offset + size])
  }

  /** The block a monitor builds from the memory, if its read succeeds and its offset does not
      panic: the read's offset and size are cut to sixteen bits. */
  function ObservedBlock(m: Monitor, memory: seq<Byte>): Option<seq<Byte>> {
    if !OffsetInBlock(m) then None
    else
      match ReadDb(memory, m.offset % 0x1_0000, (m.blockSize - m.offset) % 0x1_0000)
      case Some(data) => Some(FullBlock(m, data))
      case None => None
  }

  function Deployed(foreign: Foreign, d: Deployment, cache: map<string, BlockDefinition>,
                    target: Result<(string, nat)>, memory: seq<Byte>): (Outcome<()>, seq<Byte>) {
    if target.Err? then (Failed(target.message), memory)
    else
      match PlannedWrite(foreign, d, cache)
      case Failed(e) => (Failed(e), memory)
      case Panic => (Panic, memory)
      case Done((at, data)) =>
        match WriteDb(memory, at, data)
        case Some(after) => (Done(()), after)
        case None => (Failed("S7 write failed"), memory)
  }

  /** `plc` is the data block of the resolved PLC. */
  method DeployTo(foreign: Foreign, d: Deployment, cache: map<string, BlockDefinition>,
                  stations: map<string, (string, nat)>, monitorAddress: Option<(string, nat)>,
                  plc: array<Byte>)
    returns (r: Outcome<()>)
    modifies plc
    ensures (r, plc[..]) == Deployed(foreign, d, cache, ResolveTarget(d, stations, monitorAddress), old(plc[..]))
  {
    hide EncodeContent;
    var target := ResolveTarget(d, stations, monitorAddress);
    if target.Err? {
      return Failed(target.message);
    }
    var encoded := Encode(foreign, d.content, d.contentType, cache);
    match encoded {
      case Failed(e) =>
        return Failed(e);
      case Panic =>
        return Panic;
      case Done(bytes) =>
        var end := if d.length > 0 then Min(d.offset + d.length, |bytes|) else |bytes|;
        if d.offset > end {
          return Panic;
        }
        var toWrite := bytes[d.offset..end];
        var at := d.offset % 0x1_0000;
        if at + |toWrite| > plc.Length {
          return Failed("S7 write failed");
        }
        CopyFromSlice(plc, at, toWrite);
        return Done(());
    }
  }

  // ----- deploy, then observe -----

  /** A field that lies inside both the bytes written and the bytes observed. */
  predicate InBothWindows(f: Field, d: Deployment, size: nat, m: Monitor) {
    && d.offset <= f.offset
    && ExtentEnd(f) <= (if d.length > 0 then Min(d.offset + d.length, size) else size)
    && m.offset <= f.offset && ExtentEnd(f) <= m.blockSize
  }

  /** Offset and size of the monitor's read fit the driver's sixteen bits. */
  predicate ReadsInPlace(m: Monitor) {
    m.offset < 0x1_0000 && m.blockSize - m.offset < 0x1_0000
  }

  /** The memory after a deployment that succeeded with an encoding of the definition. */
  ghost predicate Written(foreign: Foreign, d: Deployment, def: BlockDefinition, content: Content,
                          memory: seq<Byte>, after: seq<Byte>) {
    var r := EncodeObject(foreign, def, content);
    && r.Done? && |r.value| == def.blockSize
    && d.offset <= WindowEnd(d, r.value)
    && WriteDb(memory, d.offset % 0x1_0000, r.value[d.offset..WindowEnd(d, r.value)]) == Some(after)
  }

  lemma DeployedIsWritten(foreign: Foreign, d: Deployment, cache: map<string, BlockDefinition>,
                          target: Result<(string, nat)>, memory: seq<Byte>)
    requires Deployed(foreign, d, cache, target, memory).0.Done?
    ensures d.content.JObject? && d.contentType in cache
    ensures Written(foreign, d, cache[d.contentType], d.content.fields, memory,
                    Deployed(foreign, d, cache, target, memory).1)
  {
    hide EncodeObject;
    EncodedSize(foreign, cache[d.contentType], d.content.fields);
  }

  /** Where a deployment's bytes are afterwards, for every offset: byte j of the window is at
      the offset modulo 65536 plus j, and all other bytes of the data block are unchanged. */
  lemma DeployedBytesLandModulo64K(foreign: Foreign, d: Deployment, cache: map<string, BlockDefinition>,
                                   target: Result<(string, nat)>, memory: seq<Byte>)
    requires Deployed(foreign, d, cache, target, memory).0.Done?
    ensures d.content.JObject? && d.contentType in cache
    ensures var after := Deployed(foreign, d, cache, target, memory).1;
            var r := EncodeObject(foreign, cache[d.contentType], d.content.fields);
            r.Done? && d.offset <= |r.value| && |after| == |memory| &&
            var at := d.offset % 0x1_0000;
            var size := if d.length > 0 then Min(d.length, |r.value| - d.offset) else |r.value| - d.offset;
            && at + size <= |memory|
            && forall b :: 0 <= b < |memory| ==>
                 after[b] == if at <= b < at + size then r.value[d.offset + b - at] else memory[b]
  {
    hide Deployed, EncodeObject;
    DeployedIsWritten(foreign, d, cache, target, memory);
  }

  lemma FullBlockHoldsTheRead(m: Monitor, data: seq<Byte>, b: nat)
    requires OffsetInBlock(m) && |data| == m.blockSize - m.offset && m.offset <= b < m.blockSize
    ensures FullBlock(m, data)[b] == data[b - m.offset]
  {
  }

  /** When a deployment succeeds, panics or fails: it succeeds if the target is known, the
      content is an object of a known type that encodes, the offset lies in the encoding and
      the bytes fit the data block; it panics if encoding does or the offset lies beyond the
      encoding; and unless it succeeds the data block is as it was. */
  lemma DeploysExactlyWhen(foreign: Foreign, d: Deployment, cache: map<string, BlockDefinition>,
                           target: Result<(string, nat)>, memory: seq<Byte>)
    ensures var (r, after) := Deployed(foreign, d, cache, target, memory);
            var known := target.Ok? && d.content.JObject? && d.contentType in cache;
            && (!known ==> r.Failed?)
            && (known ==>
                var size := cache[d.contentType].blockSize;
                var encoded := EncodeObject(foreign, cache[d.contentType], d.content.fields);
                var rest := size - d.offset;
                && (r == Panic <==> encoded == Panic || d.offset > size)
                && (r.Done? <==> encoded.Done? && d.offset <= size
                                 && d.offset % 0x1_0000 + (if d.length > 0 then Min(d.length, rest) else rest)
                                    <= |memory|))
            && (!r.Done? ==> after == memory)
  {
    hide EncodeObject;
    if d.content.JObject? && d.contentType in cache {
      EncodingNeverFails(foreign, cache[d.contentType], d.content.fields);
    }
  }

  lemma EncodingNeverFails(foreign: Foreign, def: BlockDefinition, content: Content)
    ensures var r := EncodeObject(foreign, def, content); r == Panic || (r.Done? && |r.value| == def.blockSize)
  {
    EncodePanicsExactlyWhen(Zeros(def.blockSize), AllSlots(foreign, FieldsOf(def), content));
  }

  lemma ObservedByte(encoded: seq<Byte>, d: Deployment, m: Monitor, memory: seq<Byte>, after: seq<Byte>, b: nat)
    requires d.offset < 0x1_0000 && ReadsInPlace(m) && ObservedBlock(m, after).Some?
    requires d.offset <= WindowEnd(d, encoded)
    requires WriteDb(memory, d.offset, encoded[d.offset..WindowEnd(d, encoded)]) == Some(after)
    requires d.offset <= b < WindowEnd(d, encoded) && m.offset <= b < m.blockSize
    ensures |ObservedBlock(m, after).value| == m.blockSize
    ensures ObservedBlock(m, after).value[b] == encoded[b]
  {
    var data := ReadDb(after, m.offset, m.blockSize - m.offset).value;
    FullBlockHoldsTheRead(m, data, b);
    var written := encoded[d.offset..WindowEnd(d, encoded)];
    assert after == memory[..d.offset] + written + memory[d.offset + |written|..];
    hide FullBlock, WindowEnd, WriteDb;
    assert after[b] == (memory[..d.offset] + written)[b] == written[b - d.offset];
  }

  lemma ObservedSlice(encoded: seq<Byte>, d: Deployment, m: Monitor, memory: seq<Byte>, after: seq<Byte>,
                      low: nat, high: nat)
    requires d.offset < 0x1_0000 && ReadsInPlace(m) && ObservedBlock(m, after).Some?
    requires d.offset <= WindowEnd(d, encoded)
    requires WriteDb(memory, d.offset, encoded[d.offset..WindowEnd(d, encoded)]) == Some(after)
    requires d.offset <= low <= high <= WindowEnd(d, encoded) && m.offset <= low && high <= m.blockSize
    ensures |ObservedBlock(m, after).value| == m.blockSize
    ensures ObservedBlock(m, after).value[low..high] == encoded[low..high]
  {
    assert |ObservedBlock(m, after).value| == m.blockSize;
    forall b | low <= b < high ensures ObservedBlock(m, after).value[b] == encoded[b] {
      ObservedByte(encoded, d, m, memory, after, b);
    }
  }

  lemma ObservedElement(foreign: Foreign, d: Deployment, def: BlockDefinition, content: Content,
                        memory: seq<Byte>, after: seq<Byte>, m: Monitor, k: nat, i: nat)
    requires Written(foreign, d, def, content, memory, after) && d.offset < 0x1_0000
    requires ReadsInPlace(m) && ObservedBlock(m, after).Some?
    requires Isolated(foreign, FieldsOf(def), def.blockSize, content, k)
    requires i < FieldsOf(def)[k].count && FieldsOf(def)[k].codec.Some?
    requires InBothWindows(FieldsOf(def)[k], d, def.blockSize, m)
    ensures var f := FieldsOf(def)[k];
            ElementAt(f, ObservedBlock(m, after).value, i, ElementBytes(foreign, f, content, i))
  {
    hide EncodeObject, ElementBytes, PropertySlots, Disjoint, FieldsOf, ObservedBlock, WriteDb, ElementStart;
    var f := FieldsOf(def)[k];
    var start := ElementStart(f, i);
    EncodedElement(foreign, def, content, k, i);
    ElementsStayInTheExtent(f, i);
    ObservedSlice(EncodeObject(foreign, def, content).value, d, m, memory, after, start, start + f.width);
  }

  lemma ElementsStayInTheExtent(f: Field, i: nat)
    requires i < f.count
    ensures f.offset <= ElementStart(f, i) && ElementStart(f, i) + f.width <= ExtentEnd(f)
  {
    MultiplesAreOrdered(0, i, f.width);
    MultiplesAreOrdered(i, f.count, f.width);
  }

  /** Once a deployment succeeded, any monitor reading the data block sees, for every isolated
      field inside both windows, the normalised deployed value, also after the trip through
      the hexadecimal text; PLC bytes outside the written window keep their values. Nothing is
      asked of the other fields. The offsets must be those the driver addresses. */
  lemma DeployThenObserve(foreign: Foreign, d: Deployment, cache: map<string, BlockDefinition>,
                          target: Result<(string, nat)>, m: Monitor, memory: seq<Byte>, k: nat)
    requires Deployed(foreign, d, cache, target, memory).0.Done?
    requires d.offset < 0x1_0000 && ReadsInPlace(m)
    requires ObservedBlock(m, Deployed(foreign, d, cache, target, memory).1).Some?
    ensures d.content.JObject? && d.contentType in cache
    ensures var def, content := cache[d.contentType], d.content.fields;
            var after := Deployed(foreign, d, cache, target, memory).1;
            var block := ObservedBlock(m, after).value;
            var end := if d.length > 0 then Min(d.offset + d.length, def.blockSize) else def.blockSize;
            && |after| == |memory|
            && (forall b :: 0 <= b < |memory| && !(d.offset <= b < end) ==> after[b] == memory[b])
            && Unhex(Hex(block)) == Some(block)
            && (Isolated(foreign, FieldsOf(def), def.blockSize, content, k)
                && InBothWindows(FieldsOf(def)[k], d, def.blockSize, m) ==>
                Shows(DecodeProperties(foreign, FieldsOf(def), block), FieldsOf(def)[k],
                      ExpectedProperty(foreign, FieldsOf(def)[k], content)))
  {
    hide EncodeObject, Deployed, ObservedBlock, FieldsOf, Hex, Unhex, Isolated, InBothWindows, Shows, Written;
    DeployedIsWritten(foreign, d, cache, target, memory);
    DeployedBytesLandModulo64K(foreign, d, cache, target, memory);
    var after := Deployed(foreign, d, cache, target, memory).1;
    EncodedSize(foreign, cache[d.contentType], d.content.fields);
    UnhexHex(ObservedBlock(m, after).value);
    ObservedField(foreign, d, cache[d.contentType], d.content.fields, memory, after, m, k);
  }

  lemma ObservedField(foreign: Foreign, d: Deployment, def: BlockDefinition, content: Content,
                      memory: seq<Byte>, after: seq<Byte>, m: Monitor, k: nat)
    requires Written(foreign, d, def, content, memory, after) && d.offset < 0x1_0000
    requires ReadsInPlace(m) && ObservedBlock(m, after).Some?
    ensures Isolated(foreign, FieldsOf(def), def.blockSize, content, k)
            && InBothWindows(FieldsOf(def)[k], d, def.blockSize, m) ==>
            Shows(DecodeProperties(foreign, FieldsOf(def), ObservedBlock(m, after).value), FieldsOf(def)[k],
                  ExpectedProperty(foreign, FieldsOf(def)[k], content))
  {
    hide Written, ElementAt, ElementBytes, DecodeProperties, ExpectedProperty, FieldsOf, Shows, ObservedBlock,
         PropertySlots, Disjoint, ExtentEnd;
    var fs := FieldsOf(def);
    var block := ObservedBlock(m, after).value;
    if Isolated(foreign, fs, def.blockSize, content, k) && InBothWindows(fs[k], d, def.blockSize, m) {
      if fs[k].codec.Some? {
        forall i | 0 <= i < fs[k].count ensures ElementAt(fs[k], block, i, ElementBytes(foreign, fs[k], content, i)) {
          ObservedElement(foreign, d, def, content, memory, after, m, k, i);
        }
      }
      IsolatedFieldDecodes(foreign, fs, def.blockSize, content, k, block);
    }
  }
}
