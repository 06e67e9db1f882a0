/** Descriptors for the raw data behind a measurement, and windowed reads of that data
    (core/attestation/pcr_data.h, pcr_read_measurement_data_bytes and the type switch of
    pcr_get_measurement_data_internal). */
module MeasuredData {
  import opened Bytes
  import opened Wrappers

  /** A flash device: its cells, and whether its reads can be relied on. */
  datatype FlashDevice = FlashDevice(cell: nat -> byte, reliable: bool)

  /** A data callback that honours its contract: it serves windows of `content` or fails. */
  datatype DataSource = DataSource(content: seq<byte>, canHash: bool, reliable: bool)

  datatype Data =
    | Value1(value1: byte)
    | Value2(value2: nat)
    | Value4(value4: nat)
    | Value8(value8: nat)
    | Memory(buffer: Option<seq<byte>>, length: size_t)
    | Flash(device: FlashDevice, addr: uint32, flashLength: size_t)
    | Callback(source: DataSource)

  /** What a caller can hand over as a descriptor, including what is refused. */
  datatype Descriptor =
    | Usable(data: Data)
    | FlashWithoutDevice
    | CallbackWithoutGetter
    | UnknownType

  /** A memory buffer really has its length, and a flash region lies in the 32-bit address space of its device. */
  predicate InBounds(d: Data) {
    match d
    case Memory(buffer, length) => buffer.Some? ==> |buffer.value| == length
    case Flash(_, addr, length) => addr + length <= 0x1_0000_0000
    case _ => true
  }

  /** What a descriptor's owner must also provide: a buffer when its length is not zero, a flash region that is not
      empty, a callback total that fits in 32 bits. */
  predicate WellFormed(d: Data) {
    && InBounds(d)
    && match d
       case Memory(buffer, length) => buffer.None? ==> length == 0
       case Flash(_, _, length) => 0 < length
       case Callback(source) => |source.content| < 0x1_0000_0000
       case _ => true
  }

  predicate Reliable(d: Data) {
    match d
    case Flash(device, _, _) => device.reliable
    case Callback(source) => source.reliable
    case _ => true
  }

  /** Only flash and callbacks can fail, and only by their own fault. */
  lemma ReliableMeans(d: Data)
    ensures !d.Flash? && !d.Callback? ==> Reliable(d)
    ensures d.Flash? ==> (Reliable(d) <==> d.device.reliable)
    ensures d.Callback? ==> (Reliable(d) <==> d.source.reliable)
  {
  }

  function FlashCells(device: FlashDevice, addr: nat, n: nat): (s: seq<byte>)
    ensures |s| == n
    ensures forall i :: 0 <= i < n ==> s[i] == device.cell(addr + i)
  {
    seq<byte>(n, i requires 0 <= i < n => device.cell(addr + i))
  }

  /** The raw bytes that were measured. */
  function Content(d: Data): (s: seq<byte>)
  {
    match d
    case Value1(v) => [v]
    case Value2(v) => LE16(v)
    case Value4(v) => LE32(v)
    case Value8(v) => LE64(v)
    case Memory(buffer, _) => if buffer.Some? then buffer.value else []
    case Flash(device, addr, length) => FlashCells(device, addr, length)
    case Callback(source) => source.content
  }

  /** pcr_read_measurement_data_bytes; None is a null pointer. */
  method ReadBytes(data: Option<seq<byte>>, dataLen: size_t, offset: size_t,
                   buffer: array<byte>, pos: nat, length: size_t) returns (bytesRead: size_t)
    requires data.Some? ==> |data.value| == dataLen
    requires pos + length <= buffer.Length
    modifies buffer
    ensures data.Some? ==> bytesRead == |Window(data.value, offset, length)|
    ensures data.Some? ==> buffer[..] == Splice(old(buffer[..]), pos, Window(data.value, offset, length))
    ensures data.None? ==> bytesRead == 0 && buffer[..] == old(buffer[..])
  {
    if data.None? || dataLen == 0 || length == 0 || offset > SizeSub(dataLen, 1) {
      if data.Some? {
        assert Window(data.value, offset, length) == [];
        SpliceNothing(buffer[..], pos);
      }
      return 0;
    }
    bytesRead := if SizeSub(dataLen, offset) > length then length else SizeSub(dataLen, offset);
    assert data.value[offset..offset + bytesRead] == Window(data.value, offset, length);
    CopyInto(buffer, pos, data.value[offset..offset + bytesRead]);
  }

  /** A device read: all n bytes, or a failure that may leave anything in the destination. */
  method FlashRead(device: FlashDevice, addr: nat, buffer: array<byte>, pos: nat, n: nat) returns (ok: bool)
    requires pos + n <= buffer.Length
    modifies buffer
    ensures ok ==> buffer[..] == Splice(old(buffer[..]), pos, FlashCells(device, addr, n))
    ensures OutsideUnchanged(old(buffer[..]), buffer[..], pos, n)
    ensures device.reliable ==> ok
  {
    var fault: bool := *;
    ok := device.reliable || !fault;
    var noise: seq<byte> := *;
    var got := if ok || |noise| != n then FlashCells(device, addr, n) else noise;
    CopyInto(buffer, pos, got);
    SpliceStaysInside(old(buffer[..]), pos, got, n);
  }

  /** The callback's contract (core/attestation/pcr_data.h:27-40). */
  method InvokeCallback(source: DataSource, offset: size_t, buffer: array<byte>, pos: nat, length: size_t)
    returns (bytesRead: Option<nat>, total: nat)
    requires pos + length <= buffer.Length
    modifies buffer
    ensures bytesRead.Some? ==> bytesRead.value == |Window(source.content, offset, length)| && total == |source.content|
    ensures bytesRead.Some? ==> buffer[..] == Splice(old(buffer[..]), pos, Window(source.content, offset, length))
    ensures OutsideUnchanged(old(buffer[..]), buffer[..], pos, length)
    ensures source.reliable ==> bytesRead.Some?
  {
    var w := Window(source.content, offset, length);
    CopyInto(buffer, pos, w);
    SpliceStaysInside(old(buffer[..]), pos, w, length);
    bytesRead, total := Some(|w|), |source.content|;
    var fault: bool := *;
    if !source.reliable && fault {
      bytesRead, total := None, *;
    }
  }

  /** Number of bytes the flash branch asks the device for, with C's unsigned arithmetic. */
  function FlashTransfer(flashLength: size_t, offset: size_t, length: size_t): (n: size_t) {
    if offset > SizeSub(flashLength, 1) then 0
    else if SizeSub(flashLength, offset) > length then length
    else SizeSub(flashLength, offset)
  }

  /** The flash branch transfers exactly the requested window of the region, for every window, if and
      only if the region is not empty: an empty one makes length - 1 wrap, so the guard never fires. */
  lemma FlashTransferExact(flashLength: size_t)
    ensures (forall offset: size_t, length: size_t ::
               FlashTransfer(flashLength, offset, length)
               == if offset >= flashLength then 0 else Min(length, flashLength - offset))
            <==> flashLength != 0
  {
    if flashLength == 0 {
      assert FlashTransfer(0, 1, 1) == 1;
    }
  }

  /** What the flash branch reads: the address is computed in a size_t and passed on as 32 bits. */
  function FlashWindow(device: FlashDevice, addr: uint32, flashLength: size_t, offset: size_t, length: size_t)
    : (w: seq<byte>)
    ensures |w| == FlashTransfer(flashLength, offset, length)
  {
    FlashCells(device, SizeAdd(addr, offset) % 0x1_0000_0000, FlashTransfer(flashLength, offset, length))
  }

  lemma FlashWindowIsWindow(device: FlashDevice, addr: uint32, flashLength: size_t, offset: size_t, length: size_t)
    requires 0 < flashLength && addr + flashLength <= 0x1_0000_0000
    ensures FlashWindow(device, addr, flashLength, offset, length)
            == Window(FlashCells(device, addr, flashLength), offset, length)
  {
    if offset < flashLength {
      assert SizeAdd(addr, offset) % 0x1_0000_0000 == addr + offset;
    }
  }

  method ReadFlash(device: FlashDevice, addr: uint32, flashLength: size_t, offset: size_t,
                   buffer: array<byte>, pos: nat, length: size_t)
    returns (bytesRead: Option<nat>, total: size_t)
    requires pos + length <= buffer.Length
    modifies buffer
    ensures bytesRead.Some? ==>
              var w := FlashWindow(device, addr, flashLength, offset, length);
              bytesRead.value == |w| <= length && buffer[..] == Splice(old(buffer[..]), pos, w)
    ensures total == flashLength
    ensures OutsideUnchanged(old(buffer[..]), buffer[..], pos, length)
    ensures device.reliable ==> bytesRead.Some?
  {
    var readAddr := SizeAdd(addr, offset);
    total := flashLength;
    if offset > SizeSub(flashLength, 1) {
      SpliceNothing(buffer[..], pos);
      assert FlashWindow(device, addr, flashLength, offset, length) == [];
      bytesRead := Some(0);
    } else {
      var n := FlashTransfer(flashLength, offset, length);
      var ok := FlashRead(device, readAddr % 0x1_0000_0000, buffer, pos, n);
      bytesRead := if ok then Some(n) else None;
    }
  }

  /** What was measured, said without the content: integers by their value in their width, least significant byte first,
      memory and callbacks by their bytes, flash by its cells. */
  ghost predicate Measures(d: Data, s: seq<byte>) {
    match d
    case Value1(v) => |s| == 1 && s[0] == v
    case Value2(v) => |s| == 2 && FromLE16(s) == v % 0x1_0000
    case Value4(v) => |s| == 4 && FromLE32(s) == v % 0x1_0000_0000
    case Value8(v) => |s| == 8 && FromLE64(s) == v % 0x1_0000_0000_0000_0000
    case Memory(buffer, _) => s == if buffer.Some? then buffer.value else []
    case Flash(device, addr, length) => |s| == length && forall i :: 0 <= i < length ==> s[i] == device.cell(addr + i)
    case Callback(source) => s == source.content
  }

  /** The content is those bytes, and no others are. */
  lemma ContentMeasures(d: Data, s: seq<byte>)
    ensures Measures(d, s) <==> s == Content(d)
  {
    hide LE16, LE32, LE64, FromLE16, FromLE32, FromLE64;
    match d
    case Value2(v) =>
      LE16RoundTrip(v);
      if Measures(d, s) { FromLE16Injective(s, LE16(v)); }
    case Value4(v) =>
      LE32RoundTrip(v);
      if Measures(d, s) { FromLE32Injective(s, LE32(v)); }
    case Value8(v) =>
      LE64RoundTrip(v);
      if Measures(d, s) { FromLE64Injective(s, LE64(v)); }
    case _ =>
  }

  /** What the type switch reads, and the total it reports, for any descriptor. */
  function DataWindow(d: Data, offset: size_t, length: size_t): (w: seq<byte>)
    ensures |w| <= length
  {
    match d
    case Flash(device, addr, flashLength) => FlashWindow(device, addr, flashLength, offset, length)
    case _ => Window(Content(d), offset, length)
  }

  function DataTotal(d: Data): size_t {
    match d
    case Memory(_, length) => length
    case Flash(_, _, length) => length
    case Callback(source) => |source.content| % 0x1_0000_0000
    case _ => |Content(d)|
  }

  lemma WellFormedReads(d: Data, offset: size_t, length: size_t)
    requires WellFormed(d)
    ensures DataWindow(d, offset, length) == Window(Content(d), offset, length) && DataTotal(d) == |Content(d)|
  {
    if d.Flash? {
      FlashWindowIsWindow(d.device, d.addr, d.flashLength, offset, length);
    }
  }

  /** Every window of the data is read exactly and the total is its length, if and only if the descriptor is
      well-formed. */
  lemma ReadsAreExact(d: Data)
    requires InBounds(d)
    ensures (forall offset: size_t, length: size_t ::
               DataWindow(d, offset, length) == Window(Content(d), offset, length))
            && DataTotal(d) == |Content(d)|
            <==> WellFormed(d)
  {
    if WellFormed(d) {
      forall offset: size_t, length: size_t
        ensures DataWindow(d, offset, length) == Window(Content(d), offset, length)
      {
        WellFormedReads(d, offset, length);
      }
      WellFormedReads(d, 0, 0);
    } else if d.Flash? {
      assert |DataWindow(d, 1, 1)| == 1 && |Window(Content(d), 1, 1)| == 0;
    }
  }

  /** The type switch: the window of the raw data, and the length of all of it. */
  method ReadContent(d: Data, offset: size_t, buffer: array<byte>, pos: nat, length: size_t)
    returns (bytesRead: Option<nat>, total: size_t)
    requires InBounds(d) && pos + length <= buffer.Length
    modifies buffer
    ensures bytesRead.Some? ==>
              var w := DataWindow(d, offset, length);
              bytesRead.value == |w| && buffer[..] == Splice(old(buffer[..]), pos, w)
    ensures bytesRead.Some? ==> total == DataTotal(d)
    ensures OutsideUnchanged(old(buffer[..]), buffer[..], pos, length)
    ensures Reliable(d) ==> bytesRead.Some?
  {
    match d {
      case Flash(device, addr, flashLength) =>
        bytesRead, total := ReadFlash(device, addr, flashLength, offset, buffer, pos, length);
      case Callback(source) =>
        bytesRead, total := ReadCallback(source, offset, buffer, pos, length);
      case Memory(memory, memoryLength) =>
        var n := ReadBytes(memory, memoryLength, offset, buffer, pos, length);
        if memory.None? {
          SpliceNothing(buffer[..], pos);
        }
        SpliceStaysInside(old(buffer[..]), pos, Window(Content(d), offset, length), length);
        bytesRead, total := Some(n), memoryLength;
      case Value1(v) =>
        bytesRead, total := ReadValue([v], offset, buffer, pos, length);
      case Value2(v) =>
        bytesRead, total := ReadValue(LE16(v), offset, buffer, pos, length);
      case Value4(v) =>
        bytesRead, total := ReadValue(LE32(v), offset, buffer, pos, length);
      case Value8(v) =>
        bytesRead, total := ReadValue(LE64(v), offset, buffer, pos, length);
    }
  }

  method ReadValue(value: seq<byte>, offset: size_t, buffer: array<byte>, pos: nat, length: size_t)
    returns (bytesRead: Option<nat>, total: size_t)
    requires |value| <= 8 && pos + length <= buffer.Length
    modifies buffer
    ensures bytesRead == Some(|Window(value, offset, length)|) && total == |value|
    ensures buffer[..] == Splice(old(buffer[..]), pos, Window(value, offset, length))
    ensures OutsideUnchanged(old(buffer[..]), buffer[..], pos, length)
  {
    var n := ReadBytes(Some(value), |value|, offset, buffer, pos, length);
    SpliceStaysInside(old(buffer[..]), pos, Window(value, offset, length), length);
    bytesRead, total := Some(n), |value|;
  }

  method ReadCallback(source: DataSource, offset: size_t, buffer: array<byte>, pos: nat, length: size_t)
    returns (bytesRead: Option<nat>, total: size_t)
    requires pos + length <= buffer.Length
    modifies buffer
    ensures bytesRead.Some? ==>
              var w := Window(source.content, offset, length);
              bytesRead.value == |w| && buffer[..] == Splice(old(buffer[..]), pos, w)
    ensures bytesRead.Some? ==> total == |source.content| % 0x1_0000_0000
    ensures OutsideUnchanged(old(buffer[..]), buffer[..], pos, length)
    ensures source.reliable ==> bytesRead.Some?
  {
    var dataLen;
    bytesRead, dataLen := InvokeCallback(source, offset, buffer, pos, length);
    // the callback reports its total through a 32-bit integer
    total := dataLen % 0x1_0000_0000;
  }
}
