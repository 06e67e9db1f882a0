/** A PCR bank as the firmware keeps it: measurements updated in place, folded into the PCR value by a
    fallible hash engine, and served through windowed reads (core/attestation/pcr.c). */
module Pcrs {
  import opened Bytes
  import opened Wrappers
  import opened HashEngines
  import opened MeasuredData
  import opened PcrBanks
  import opened TcgLog

  class Pcr {
    const algo: HashAlg
    const isExplicit: bool
    var list: seq<Measurement>

    function View(): Bank
      reads this
    {
      Bank(algo, isExplicit, list)
    }

    ghost predicate Valid()
      reads this
    {
      ValidBank(View())
    }

    /** pcr_init: a PCR configured with no measurements holds one explicit value. */
    constructor (numMeasurements: byte, algo: HashAlg)
      requires algo == Sha256 || algo == Sha384 || algo == Sha512
      ensures Valid() && this.algo == algo && isExplicit == (numMeasurements == 0)
      ensures NumMeasurements(View()) == numMeasurements
      ensures forall i :: 0 <= i < |list| ==> list[i] == FreshMeasurement(algo)
    {
      this.algo, isExplicit := algo, numMeasurements == 0;
      list := seq(if numMeasurements == 0 then 1 else numMeasurements, _ => FreshMeasurement(algo));
    }

    // Updates

    /** pcr_update_digest_common. */
    method UpdateDigestCommon(index: nat, digest: seq<byte>, config: MeasurementConfig, version: byte)
      returns (error: Option<PcrError>)
      requires Valid()
      modifies this
      ensures Valid()
      ensures (View(), error) == StoreDigest(old(View()), index, digest, config, version)
    {
      if |digest| != HashLength(algo) {
        return Some(IncorrectDigestLength);
      }
      if index >= |list| {
        return Some(InvalidIndex);
      }
      var isConstant := list[index].config.constant;
      error := None;
      if !isConstant {
        list := list[index := list[index].(digest := digest, config := config, version := version)];
      } else {
        error := Some(ConstantMeasurement);
      }
    }

    method UpdateDigest(index: nat, digest: seq<byte>, constant: bool) returns (error: Option<PcrError>)
      requires Valid()
      modifies this
      ensures Valid()
      ensures forall h: HashFunction ::
                (View(), error) == Apply(h, old(View()), Op.UpdateDigest(index, digest, constant))
    {
      error := UpdateDigestCommon(index, digest, MeasurementConfig(false, false, constant), 0);
    }

    /** pcr_update_buffer_common.  The digest is computed before the index is checked, so an index outside
        the bank may hash any event type before it is rejected. */
    method UpdateBuffer(hash: HashEngine, index: nat, buf: seq<byte>, includeEvent: bool, version: Option<byte>,
                        constant: bool) returns (error: Option<PcrError>)
      requires Valid() && hash.active == None
      modifies this, hash
      ensures Valid() && hash.active == None
      ensures exists works :: (View(), error)
                == Apply(hash.H, old(View()), Op.UpdateBuffer(index, buf, includeEvent, version, constant, works))
      ensures hash.reliable ==>
                (View(), error)
                == Apply(hash.H, old(View()), Op.UpdateBuffer(index, buf, includeEvent, version, constant, true))
    {
      hide Apply, StoreDigest, EventPrefix, EventPieces, Concat;
      ghost var was := View();
      UpdateBufferCases(hash.H, was, index, buf, includeEvent, version, constant);
      if !includeEvent && version.None? && buf == [] {
        return Some(InvalidArgument);
      }
      var eventType: uint32 := *;
      if index < |list| {
        eventType := list[index].eventType;
      }
      var config := MeasurementConfig(includeEvent, version.Some?, constant);
      var v := if version.Some? then version.value else 0;
      var digest := HashPieces(hash, algo, EventPieces(config, eventType, v) + [buf]);
      if digest.None? {
        return Some(HashFailure);
      }
      PiecesConcat(config, eventType, v, buf);
      if index >= |list| {
        StoreIgnoresDigestOutside(was, index, digest.value, hash.H(algo, HashedBytes(was, index, buf, config, v)),
                                  config, v);
      }
      error := UpdateDigestCommon(index, digest.value, config, v);
    }

    /** pcr_invalidate_measurement. */
    method Invalidate(index: nat) returns (error: Option<PcrError>)
      requires Valid()
      modifies this
      ensures Valid()
      ensures forall h: HashFunction :: (View(), error) == Apply(h, old(View()), Op.Invalidate(index))
    {
      if index >= |list| {
        return Some(InvalidIndex);
      }
      if list[index].config.constant {
        return Some(ConstantMeasurement);
      }
      list := list[index := list[index].(digest := Zeros(HashLength(algo)))];
      error := None;
    }

    method SetEventType(index: nat, eventType: uint32) returns (error: Option<PcrError>)
      requires Valid()
      modifies this
      ensures Valid()
      ensures forall h: HashFunction :: (View(), error) == Apply(h, old(View()), Op.SetEventType(index, eventType))
    {
      if index >= |list| {
        return Some(InvalidIndex);
      }
      list := list[index := list[index].(eventType := eventType)];
      error := None;
    }

    method SetMeasurementData(index: nat, data: Option<Descriptor>) returns (error: Option<PcrError>)
      requires Valid() && (data.Some? && data.value.Usable? ==> WellFormed(data.value.data))
      modifies this
      ensures Valid()
      ensures forall h: HashFunction :: (View(), error) == Apply(h, old(View()), Op.SetData(index, data))
    {
      if index >= |list| {
        return Some(InvalidIndex);
      }
      var stored := None;
      if data.Some? {
        match data.value {
          case FlashWithoutDevice => return Some(InvalidFlashDevice);
          case CallbackWithoutGetter => return Some(InvalidCallback);
          case UnknownType => return Some(InvalidDataType);
          case Usable(d) => stored := Some(d);
        }
      }
      list := list[index := list[index].(data := stored)];
      error := None;
    }

    // The PCR value

    /** pcr_compute: refresh every extended value and report the last one.  `room` is the size of the output
        buffer, if there is one. */
    method Compute(hash: HashEngine, room: Option<size_t>) returns (value: Result<seq<byte>, PcrError>)
      requires Valid() && hash.active == None
      modifies this, hash
      ensures Valid() && hash.active == None
      ensures room.Some? && room.value < HashLength(algo) ==>
                value == Err(SmallOutputBuffer) && View() == old(View())
      ensures room.None? || room.value >= HashLength(algo) ==>
                exists n :: (View(), if value.Ok? then None else Some(value.error))
                         == Apply(hash.H, old(View()), Op.Compute(n))
      ensures value.Ok? ==> View() == Refreshed(hash.H, old(View()))
      ensures value.Ok? && room.Some? ==> value.value == PcrValue(hash.H, old(View()))
      ensures hash.reliable && (room.None? || room.value >= HashLength(algo)) ==> value.Ok?
    {
      if room.Some? && room.value < HashLength(algo) {
        return Err(SmallOutputBuffer);
      }
      if isExplicit {
        assert (View(), None) == Apply(hash.H, old(View()), Op.Compute(0));
        return Ok(list[0].digest);
      }
      var extended, last := ExtendAll(hash);
      assert (View(), if extended == |list| then None else Some(HashFailure))
          == Apply(hash.H, old(View()), Op.Compute(extended));
      value := if extended == |list| then Ok(last) else Err(HashFailure);
    }

    /** The extension loop: how many measurements were extended before the engine failed, and the last value. */
    method ExtendAll(hash: HashEngine) returns (i: nat, prev: seq<byte>)
      requires Valid() && !isExplicit && hash.active == None
      modifies this, hash
      ensures Valid() && hash.active == None
      ensures i <= |old(list)| && list == RefreshedList(hash.H, algo, old(list), i)
      ensures i == |list| ==> prev == Chain(hash.H, algo, Digests(old(list)))
      ensures hash.reliable ==> i == |list|
    {
      ghost var was := View();
      ghost var digests := Digests(list);
      prev := Zeros(HashLength(algo));
      i := 0;
      assert list == RefreshedList(hash.H, algo, was.list, 0);
      while i < |list|
        invariant 0 <= i <= |list| == |was.list|
        invariant hash.active == None
        invariant prev == Chain(hash.H, algo, digests[..i])
        invariant list == RefreshedList(hash.H, algo, was.list, i)
      {
        var extended := HashPieces(hash, algo, [prev, list[i].digest]);
        if extended.None? {
          break;
        }
        ConcatTwo(prev, list[i].digest);
        ExtendOne(hash.H, algo, was.list, i);
        prev := extended.value;
        list := list[i := list[i].(extended := prev)];
        i := i + 1;
      }
      assert digests[..|list|] == digests;
      RefreshedValid(hash.H, was, i);
    }

    // Raw data

    /** pcr_hash_measurement_data: the stored digest when the algorithm is the PCR's own, and otherwise the hash
        of exactly the bytes a full data read returns. */
    method HashMeasurementData(index: nat, hash: HashEngine, hashType: HashAlg, room: size_t)
      returns (value: Result<seq<byte>, PcrError>)
      requires Valid() && hash.active == None
      modifies hash
      ensures hash.active == None
      ensures value.Ok? ==> index < |list| && |value.value| == HashLength(hashType) <= room
      ensures value.Ok? && hashType == algo ==> value.value == list[index].digest
      ensures value.Ok? && hashType != algo ==>
                list[index].data.Some? && value.value == hash.H(hashType, EventData(list[index]))
      ensures value == Err(MeasuredDataNotAvailable) ==>
                index < |list| && list[index].data == None && hashType != algo
      ensures hash.reliable && index < |list| && hashType != UnknownHash && HashLength(hashType) <= room
              && (hashType == algo
                  || (list[index].data.Some? && Reliable(list[index].data.value)
                      && (list[index].data.value.Callback? ==> list[index].data.value.source.canHash)))
              ==> value.Ok?
      ensures index >= |list| ==> value == Err(InvalidIndex)
      ensures value == Err(NoHashCallback) ==>
                index < |list| && list[index].data.Some? && list[index].data.value.Callback?
                && !list[index].data.value.source.canHash
    {
      if index >= |list| {
        return Err(InvalidIndex);
      }
      if hashType == UnknownHash {
        return Err(PcrError.UnsupportedAlgo);
      }
      if room < HashLength(hashType) {
        return Err(SmallOutputBuffer);
      }
      var m := list[index];
      if hashType == algo {
        return Ok(m.digest);
      }
      if m.data.None? {
        return Err(MeasuredDataNotAvailable);
      }
      var ok := hash.Start(hashType);
      if !ok {
        return Err(HashFailure);
      }
      var error := HashEventData(hash, m);
      assert [] + EventData(m) == EventData(m);
      if error == None {
        var digest := hash.Finish();
        if digest.Some? {
          return Ok(digest.value);
        }
        error := Some(HashFailure);
      }
      hash.Cancel();
      value := Err(error.value);
    }

    /** pcr_get_measurement_data_internal. */
    method ReadMeasurementData(index: nat, offset: size_t, buffer: array<byte>, pos: nat, length: size_t)
      returns (bytes: Result<nat, PcrError>, total: size_t)
      requires Valid()
      requires pos + length <= buffer.Length
      modifies buffer
      ensures index >= |list| ==> bytes == Err(InvalidIndex) && buffer[..] == old(buffer[..])
      ensures bytes.Ok? ==> index < |list|
      ensures bytes.Ok? ==>
                var w := Window(EventData(list[index]), offset, length);
                bytes.value == |w| && buffer[..] == Splice(old(buffer[..]), pos, w)
      ensures bytes.Ok? ==> total == Truncate(|EventData(list[index])|)
      ensures OutsideUnchanged(old(buffer[..]), buffer[..], pos, length)
      ensures index < |list| && (list[index].data.Some? ==> Reliable(list[index].data.value)) ==> bytes.Ok?
    {
      if index >= |list| {
        SpliceNothing(buffer[..], pos);
        return Err(InvalidIndex), 0;
      }
      total := 0;
      if list[index].data.None? {
        SpliceNothing(buffer[..], pos);
        return Ok(0), 0;
      }
      var n;
      n, total := ReadEventData(list[index], offset, buffer, pos, length);
      bytes := if n.Some? then Ok(n.value) else Err(DeviceFailure);
    }

    // The TCG log

    /** pcr_get_tcg_log: the requested window of this PCR's part of the log.  The total is only meaningful when
        nothing was read; the offset may wrap, but only when the output is already full. */
    method GetTcgLog(pcrNum: nat, offset: size_t, buffer: array<byte>, pos: nat, length: size_t)
      returns (bytes: Result<nat, PcrError>, totalLen: size_t)
      requires Valid()
      requires pos + length <= buffer.Length
      modifies buffer
      ensures bytes.Ok? ==>
                var w := Window(BankLog(pcrNum, View()), offset, length);
                bytes.value == |w| && buffer[..] == Splice(old(buffer[..]), pos, w)
      ensures bytes == Ok(0) && length > 0 ==> totalLen == |BankLog(pcrNum, View())|
      ensures OutsideUnchanged(old(buffer[..]), buffer[..], pos, length)
      ensures (forall i :: 0 <= i < |list| && list[i].data.Some? ==> Reliable(list[i].data.value)) ==> bytes.Ok?
    {
      hide Window, Splice, OutsideUnchanged, EntryWithData, Reliable;
      ghost var was := buffer[..];
      SpliceNothing(was, pos);
      totalLen := 0;
      if isExplicit {
        SpliceStaysInside(was, pos, [], length);
        WindowOfNothing(offset, length);
        return Ok(0), 0;
      }
      var off, len, num, i := offset, length, 0, 0;
      WindowOfNothing(offset, length);
      while i < |list| && len > 0
        invariant 0 <= i <= |list|
        invariant num == |Window(Entries(pcrNum, algo, list, i), offset, length)| && len == length - num
        invariant buffer[..] == Splice(was, pos, Window(Entries(pcrNum, algo, list, i), offset, length))
        invariant len > 0 ==> off == Past(offset, |Entries(pcrNum, algo, list, i)|)
        invariant num == 0 && length > 0 ==> totalLen == |Entries(pcrNum, algo, list, i)|
      {
        ghost var done := Entries(pcrNum, algo, list, i);
        ghost var one := EntryWithData(pcrNum, algo, list[i]);
        ghost var before := buffer[..];
        var n, total;
        n, off, total := LogOneEntry(pcrNum, i, off, buffer, pos + num, len, totalLen);
        OutsideAfterSplice(was, pos, Window(done, offset, length), buffer[..], length);
        if n.None? {
          return Err(DeviceFailure), 0;
        }
        WindowsJoin(was, pos, done, one, offset, length);
        assert Entries(pcrNum, algo, list, i + 1) == done + one;
        totalLen := total;
        num, len := num + n.value, len - n.value;
        i := i + 1;
      }
      ghost var seen := Entries(pcrNum, algo, list, i);
      SpliceStaysInside(was, pos, Window(seen, offset, length), length);
      if i < |list| {
        EntriesPrefix(pcrNum, algo, list, i, |list|);
        WindowFull(seen, BankLog(pcrNum, View()), offset, length);
      }
      bytes := Ok(num);
    }

    /** The body of the loop: one entry and its event data.  The entry is written after the data, once the size of
        the data is known. */
    method LogOneEntry(pcrNum: nat, i: nat, offset: size_t, buffer: array<byte>, pos: nat, length: size_t,
                       total: size_t)
      returns (bytes: Option<nat>, offset': size_t, total': size_t)
      requires Valid() && i < |list| && length > 0
      requires pos + length <= buffer.Length
      modifies buffer
      ensures bytes.Some? ==>
                var w := Window(EntryWithData(pcrNum, algo, list[i]), offset, length);
                bytes.value == |w| && buffer[..] == Splice(old(buffer[..]), pos, w)
      ensures bytes.Some? && bytes.value < length ==> offset' == Past(offset, |EntryWithData(pcrNum, algo, list[i])|)
      ensures bytes == Some(0) && total + |EntryWithData(pcrNum, algo, list[i])| < SIZE_MOD ==>
                total' == total + |EntryWithData(pcrNum, algo, list[i])|
      ensures OutsideUnchanged(old(buffer[..]), buffer[..], pos, length)
      ensures (list[i].data.Some? ==> Reliable(list[i].data.value)) ==> bytes.Some?
    {
      hide Window, Splice, OutsideUnchanged, Entry, EventData, Reliable, Truncate, ValidBank, LE32;
      ghost var was := buffer[..];
      ghost var m := list[i];
      DigestFits(View(), i);
      ghost var entry := Entry(pcrNum, algo, m, |EventData(m)|);
      var entryTotalLen := EntryLength(algo);
      var entryLen, entryOffset := 0, 0;
      offset', total' := offset, SizeAdd(total, entryTotalLen);
      if offset >= entryTotalLen {
        offset' := SizeSub(offset, entryTotalLen);
      } else {
        entryLen := Min(entryTotalLen - offset, length);
        entryOffset := offset;
        offset' := 0;
      }
      ghost var w1 := Window(entry, offset, length);
      ghost var w2 := Window(EventData(m), offset', length - entryLen);
      var status, eventSize := ReadMeasurementData(i, offset', buffer, pos + entryLen, length - entryLen);
      InsideLarger(was, buffer[..], pos + entryLen, length - entryLen, pos, length);
      if status.Err? {
        return None, 0, 0;
      }
      ghost var withData := buffer[..];
      if entryLen > 0 {
        LE32Truncates(|EventData(m)|);
        EntryOfSize(pcrNum, algo, m, eventSize, |EventData(m)|);
        WindowSlice(entry, offset, length);
        CopyInto(buffer, pos, Entry(pcrNum, algo, list[i], eventSize)[entryOffset..entryOffset + entryLen]);
      }
      assert |w1| == entryLen;
      if entryLen == 0 {
        SpliceNothing(withData, pos);
        EmptySeq(w1);
      }
      assert buffer[..] == Splice(Splice(was, pos + |w1|, w2), pos, w1);
      SpliceDeferred(was, pos, w1, w2);
      WindowAppend(entry, EventData(m), offset, length);
      SpliceStaysInside(was, pos, w1 + w2, length);
      total' := SizeAdd(total', eventSize);
      bytes := Some(entryLen + status.value);
      if status.value > 0 {
        offset' := 0;
      } else {
        offset' := SizeSub(offset', eventSize);
      }
    }
  }

  /** A descriptor whose data can be hashed: its source works and has a hash callback where one is needed. */
  predicate Hashable(d: Data) {
    Reliable(d) && (d.Callback? ==> d.source.canHash)
  }

  /** Absorb the prefixes and then the raw data of a measurement. */
  method HashEventData(hash: HashEngine, m: Measurement) returns (error: Option<PcrError>)
    requires hash.active.Some? && m.data.Some? && WellFormed(m.data.value)
    modifies hash
    ensures hash.active == old(hash.active)
    ensures error == None ==> hash.absorbed == old(hash.absorbed) + EventData(m)
    ensures error == None || error == Some(HashFailure) || error == Some(DeviceFailure) || error == Some(NoHashCallback)
    ensures error == Some(NoHashCallback) ==> m.data.value.Callback? && !m.data.value.source.canHash
    ensures hash.reliable && Hashable(m.data.value) ==> error == None
  {
    hide Content, LE32;
    var ok := true;
    if m.config.event {
      ok := hash.Update(LE32(m.eventType));
    }
    if ok && m.config.version {
      ok := hash.Update([m.version]);
    }
    if !ok {
      return Some(HashFailure);
    }
    assert hash.absorbed == old(hash.absorbed) + EventPrefix(m.config, m.eventType, m.version);
    error := HashContent(hash, m.data.value);
  }

  /** The type switch.  Reading flash or running the callback may fail as well as the engine. */
  method HashContent(hash: HashEngine, d: Data) returns (error: Option<PcrError>)
    requires hash.active.Some? && WellFormed(d)
    modifies hash
    ensures hash.active == old(hash.active)
    ensures error == None ==> hash.absorbed == old(hash.absorbed) + Content(d)
    ensures error == None || error == Some(HashFailure) || error == Some(DeviceFailure) || error == Some(NoHashCallback)
    ensures error == Some(NoHashCallback) <==> d.Callback? && !d.source.canHash
    ensures hash.reliable && Hashable(d) ==> error == None
  {
    match d {
      case Flash(device, addr, length) =>
        error := HashFlash(hash, device, addr, length);
      case Callback(source) =>
        if !source.canHash {
          return Some(NoHashCallback);
        }
        var fault: bool := *;
        if !source.reliable && fault {
          return Some(DeviceFailure);
        }
        error := HashBytes(hash, source.content);
      case Memory(buffer, _) =>
        error := HashBytes(hash, if buffer.Some? then buffer.value else []);
      case Value1(v) => error := HashBytes(hash, [v]);
      case Value2(v) => error := HashBytes(hash, LE16(v));
      case Value4(v) => error := HashBytes(hash, LE32(v));
      case Value8(v) => error := HashBytes(hash, LE64(v));
    }
  }

  method HashBytes(hash: HashEngine, bytes: seq<byte>) returns (error: Option<PcrError>)
    requires hash.active.Some?
    modifies hash
    ensures hash.active == old(hash.active)
    ensures error == None ==> hash.absorbed == old(hash.absorbed) + bytes
    ensures error == None || error == Some(HashFailure)
    ensures hash.reliable ==> error == None
  {
    var ok := hash.Update(bytes);
    error := if ok then None else Some(HashFailure);
  }

  const FLASH_VERIFICATION_BLOCK: nat := 256

  /** flash_hash_update_contents: block by block through a local buffer, with a 32-bit address. */
  method HashFlash(hash: HashEngine, device: FlashDevice, addr: uint32, length: size_t)
    returns (error: Option<PcrError>)
    requires hash.active.Some? && addr + length <= 0x1_0000_0000
    modifies hash
    ensures hash.active == old(hash.active)
    ensures error == None ==> hash.absorbed == old(hash.absorbed) + FlashCells(device, addr, length)
    ensures error == None || error == Some(DeviceFailure) || error == Some(HashFailure)
    ensures hash.reliable && device.reliable ==> error == None
  {
    hide FlashCells;
    var data := new byte[FLASH_VERIFICATION_BLOCK];
    var current, remaining := addr, length;
    NoCells(device, addr);
    assert hash.absorbed + [] == hash.absorbed;
    error := None;
    while remaining > 0
      invariant 0 <= remaining <= length
      invariant remaining > 0 ==> current == addr + (length - remaining)
      invariant error == None
      invariant hash.active == old(hash.active)
      invariant hash.absorbed == old(hash.absorbed) + FlashCells(device, addr, length - remaining)
    {
      var next := if remaining < FLASH_VERIFICATION_BLOCK then remaining else FLASH_VERIFICATION_BLOCK;
      MoreCells(device, addr, length - remaining, next);
      error := HashBlock(hash, device, current, data, next);
      if error != None {
        return;
      }
      remaining := remaining - next;
      current := (current + next) % 0x1_0000_0000;
    }
  }

  method HashBlock(hash: HashEngine, device: FlashDevice, addr: nat, data: array<byte>, n: nat)
    returns (error: Option<PcrError>)
    requires hash.active.Some? && n <= data.Length
    modifies hash, data
    ensures hash.active == old(hash.active)
    ensures error == None ==> hash.absorbed == old(hash.absorbed) + FlashCells(device, addr, n)
    ensures error == None || error == Some(DeviceFailure) || error == Some(HashFailure)
    ensures hash.reliable && device.reliable ==> error == None
  {
    hide Splice, OutsideUnchanged;
    SpliceFront(data[..], FlashCells(device, addr, n));
    var ok := FlashRead(device, addr, data, 0, n);
    if !ok {
      return Some(DeviceFailure);
    }
    assert data[..n] == data[..][..n];
    ok := hash.Update(data[..n]);
    error := if ok then None else Some(HashFailure);
  }

  lemma NoCells(device: FlashDevice, addr: nat)
    ensures FlashCells(device, addr, 0) == []
  {
  }

  lemma MoreCells(device: FlashDevice, addr: nat, m: nat, n: nat)
    ensures FlashCells(device, addr, m) + FlashCells(device, addr + m, n) == FlashCells(device, addr, m + n)
  {
  }

  /** One optional prefix of the measured data: what is left of the window after it. */
  method ReadPrefix(present: bool, prefix: seq<byte>, offset: size_t, buffer: array<byte>, pos: nat, length: size_t)
    returns (offset': size_t, length': size_t, n: nat)
    requires 1 <= |prefix| <= 4
    requires pos + length <= buffer.Length
    modifies buffer
    ensures var p := if present then prefix else [];
            var w := Window(p, offset, length);
            && n == |w| && length' == length - n && offset' == Past(offset, |p|)
            && buffer[..] == Splice(old(buffer[..]), pos, w)
  {
    offset', length', n := offset, length, 0;
    if present {
      if offset < |prefix| {
        n := ReadBytes(Some(prefix), |prefix|, offset, buffer, pos, length);
        offset' := 0;
        length' := SizeSub(length, n);
      } else {
        assert Window(prefix, offset, length) == [];
        SpliceNothing(buffer[..], pos);
        offset' := SizeSub(offset, |prefix|);
      }
    } else {
      SpliceNothing(buffer[..], pos);
    }
  }

  /** The event type and version, as far as they were hashed in front of the data. */
  method ReadPrefixes(m: Measurement, offset: size_t, buffer: array<byte>, pos: nat, length: size_t)
    returns (offset': size_t, length': size_t, n: nat, total: size_t)
    requires pos + length <= buffer.Length
    modifies buffer
    ensures var p := EventPrefix(m.config, m.eventType, m.version);
            var w := Window(p, offset, length);
            && n == |w| && length' == length - n && offset' == Past(offset, |p|) && total == |p|
            && buffer[..] == Splice(old(buffer[..]), pos, w)
  {
    hide Window, Splice, LE32;
    ghost var was := buffer[..];
    var offset1, length1, n1 := ReadPrefix(m.config.event, LE32(m.eventType), offset, buffer, pos, length);
    total := if m.config.event then 4 else 0;
    var n2;
    offset', length', n2 := ReadPrefix(m.config.version, [m.version], offset1, buffer, pos + n1, length1);
    total := total + if m.config.version then 1 else 0;
    n := n1 + n2;
    WindowsJoin(was, pos, if m.config.event then LE32(m.eventType) else [],
                if m.config.version then [m.version] else [], offset, length);
  }

  /** The prefixes and then the raw data, for a measurement that has a descriptor. */
  method ReadEventData(m: Measurement, offset: size_t, buffer: array<byte>, pos: nat, length: size_t)
    returns (bytes: Option<nat>, total: size_t)
    requires m.data.Some? && WellFormed(m.data.value)
    requires pos + length <= buffer.Length
    modifies buffer
    ensures bytes.Some? ==>
              var w := Window(EventData(m), offset, length);
              bytes.value == |w| && buffer[..] == Splice(old(buffer[..]), pos, w)
    ensures bytes.Some? ==> total == Truncate(|EventData(m)|)
    ensures OutsideUnchanged(old(buffer[..]), buffer[..], pos, length)
    ensures Reliable(m.data.value) ==> bytes.Some?
  {
    hide Window, Splice, EventPrefix, Content, DataWindow, DataTotal, Reliable, OutsideUnchanged, Truncate, SizeAdd;
    ghost var was := buffer[..];
    var offset1, length1, n1, prefixLen := ReadPrefixes(m, offset, buffer, pos, length);
    var n2, dataLen := ReadContent(m.data.value, offset1, buffer, pos + n1, length1);
    WellFormedReads(m.data.value, offset1, length1);
    total := SizeAdd(prefixLen, dataLen);
    SizeAddTruncates(prefixLen, dataLen);
    bytes := if n2.Some? then Some(n1 + n2.value) else None;

    ghost var prefix := EventPrefix(m.config, m.eventType, m.version);
    OutsideAfterSplice(was, pos, Window(prefix, offset, length), buffer[..], length);
    WindowsJoin(was, pos, prefix, Content(m.data.value), offset, length);
  }

  lemma UpdateBufferCases(h: HashFunction, b: Bank, index: nat, buf: seq<byte>, includeEvent: bool,
                          version: Option<byte>, constant: bool)
    ensures var config := MeasurementConfig(includeEvent, version.Some?, constant);
            var v := if version.Some? then version.value else 0;
            && Apply(h, b, Op.UpdateBuffer(index, buf, includeEvent, version, constant, true))
               == (if !includeEvent && version.None? && buf == [] then (b, Some(InvalidArgument))
                   else StoreDigest(b, index, h(b.algo, HashedBytes(b, index, buf, config, v)), config, v))
            && Apply(h, b, Op.UpdateBuffer(index, buf, includeEvent, version, constant, false))
               == (if !includeEvent && version.None? && buf == [] then (b, Some(InvalidArgument))
                   else (b, Some(HashFailure)))
  {
  }

  /** Outside the bank, which digest was computed does not matter. */
  lemma StoreIgnoresDigestOutside(b: Bank, index: nat, d: seq<byte>, d': seq<byte>, config: MeasurementConfig, v: byte)
    requires index >= |b.list| && |d| == |d'|
    ensures StoreDigest(b, index, d, config, v) == StoreDigest(b, index, d', config, v)
  {
  }

  /** Hash a sequence of buffers, cancelling on the first failure. */
  method HashPieces(hash: HashEngine, algo: HashAlg, pieces: seq<seq<byte>>) returns (digest: Option<seq<byte>>)
    modifies hash
    ensures hash.active == None
    ensures digest.Some? ==> digest.value == hash.H(algo, Concat(pieces))
    ensures hash.reliable && algo != UnknownHash ==> digest.Some?
  {
    var ok := hash.Start(algo);
    if !ok {
      return None;
    }
    for i := 0 to |pieces|
      invariant hash.active == Some(algo)
      invariant hash.absorbed == Concat(pieces[..i])
    {
      ok := hash.Update(pieces[i]);
      if !ok {
        hash.Cancel();
        return None;
      }
      assert pieces[..i + 1][..i] == pieces[..i];
    }
    assert pieces[..|pieces|] == pieces;
    digest := hash.Finish();
    if digest.None? {
      hash.Cancel();
    }
  }

  lemma ExtendOne(h: HashFunction, algo: HashAlg, list: seq<Measurement>, i: nat)
    requires i < |list|
    ensures var digests := Digests(list);
            var next := h(algo, Chain(h, algo, digests[..i]) + list[i].digest);
            && next == Chain(h, algo, digests[..i + 1])
            && RefreshedList(h, algo, list, i)[i := RefreshedList(h, algo, list, i)[i].(extended := next)]
               == RefreshedList(h, algo, list, i + 1)
  {
    var digests := Digests(list);
    assert digests[..i + 1][..i] == digests[..i];
  }

  lemma ConcatTwo(a: seq<byte>, b: seq<byte>)
    ensures Concat([a, b]) == a + b
  {
    assert [a, b][..1] == [a];
    assert [a][..0] == [];
    assert Concat([a]) == [] + a;
  }

  function EventPieces(config: MeasurementConfig, eventType: uint32, version: byte): seq<seq<byte>> {
    (if config.event then [LE32(eventType)] else []) + (if config.version then [[version]] else [])
  }

  lemma PiecesConcat(config: MeasurementConfig, eventType: uint32, version: byte, buf: seq<byte>)
    ensures Concat(EventPieces(config, eventType, version) + [buf]) == EventPrefix(config, eventType, version) + buf
  {
    ConcatSnoc(EventPieces(config, eventType, version), buf);
    var e: seq<seq<byte>> := if config.event then [LE32(eventType)] else [];
    if config.event {
      ConcatSnoc([], LE32(eventType));
      assert [] + [LE32(eventType)] == e;
    }
    if config.version {
      ConcatSnoc(e, [version]);
    } else {
      assert EventPieces(config, eventType, version) == e;
    }
  }

  lemma RefreshedValid(h: HashFunction, b: Bank, n: nat)
    requires ValidBank(b) && n <= |b.list|
    ensures ValidBank(b.(list := RefreshedList(h, b.algo, b.list, n)))
  {
  }

  lemma WindowOfNothing(offset: nat, length: nat)
    ensures Window<byte>([], offset, length) == []
  {
  }

  lemma DigestFits(b: Bank, i: nat)
    requires ValidBank(b) && i < |b.list|
    ensures |b.list[i].digest| == HashLength(b.algo)
  {
  }

  lemma EmptySeq(s: seq<byte>)
    requires |s| == 0
    ensures s == []
  {
  }

  /** Once a prefix has filled the output, the rest of the log does not matter. */
  lemma WindowFull(a: seq<byte>, s: seq<byte>, offset: nat, length: nat)
    requires a <= s && |Window(a, offset, length)| == length
    ensures Window(s, offset, length) == Window(a, offset, length)
  {
    WindowAppend(a, s[|a|..], offset, length);
    assert a + s[|a|..] == s;
  }

  lemma WindowSlice(s: seq<byte>, offset: nat, length: nat)
    requires offset < |s|
    ensures Window(s, offset, length) == s[offset..offset + Min(|s| - offset, length)]
  {
  }

  lemma {:induction false} EntriesPrefix(pcrNum: nat, algo: HashAlg, list: seq<Measurement>, i: nat, n: nat)
    requires i <= n <= |list| && DigestsFit(algo, list)
    ensures Entries(pcrNum, algo, list, i) <= Entries(pcrNum, algo, list, n)
    decreases n
  {
    hide EntryWithData;
    if i < n {
      EntriesPrefix(pcrNum, algo, list, i, n - 1);
    }
  }

  lemma EntryOfSize(pcrNum: nat, algo: HashAlg, m: Measurement, a: nat, b: nat)
    requires |m.digest| == HashLength(algo) && LE32(a) == LE32(b)
    ensures Entry(pcrNum, algo, m, a) == Entry(pcrNum, algo, m, b)
  {
  }

  /** Two consecutive windowed writes amount to one window of the concatenation. */
  lemma WindowsJoin(was: seq<byte>, pos: nat, a: seq<byte>, b: seq<byte>, offset: nat, length: nat)
    requires pos + length <= |was|
    ensures var w1 := Window(a, offset, length);
            var w2 := Window(b, Past(offset, |a|), length - |w1|);
            && Window(a + b, offset, length) == w1 + w2
            && Splice(Splice(was, pos, w1), pos + |w1|, w2) == Splice(was, pos, w1 + w2)
  {
    hide Window, Splice;
    var w1 := Window(a, offset, length);
    WindowAppend(a, b, offset, length);
    SpliceAppend(was, pos, w1, Window(b, Past(offset, |a|), length - |w1|));
  }
}
