/** All PCRs of the device, and windowed reads of the two logs over them (core/attestation/pcr_store.c). */
module PcrStores {
  import opened Bytes
  import opened Wrappers
  import opened HashEngines
  import opened MeasuredData
  import opened PcrBanks
  import opened TcgLog
  import opened AttestationLog
  import opened Pcrs

  /** buffer_copy (core/common/buffer_util.c): one piece of a windowed output, and what is left of the window. */
  method BufferCopy(src: seq<byte>, offset: size_t, length: size_t, buffer: array<byte>, pos: nat)
    returns (bytes: nat, offset': size_t, length': size_t)
    requires |src| < SIZE_MOD && pos + length <= buffer.Length
    modifies buffer
    ensures var w := Window(src, offset, length);
            bytes == |w| && length' == length - bytes && buffer[..] == Splice(old(buffer[..]), pos, w)
    ensures offset' == Past(offset, |src|)
  {
    bytes, offset', length' := 0, offset, length;
    if |src| == 0 || offset >= |src| {
      SpliceNothing(buffer[..], pos);
      if |src| != 0 {
        offset' := SizeSub(offset, |src|);
      }
      return;
    }
    bytes := Min(SizeSub(|src|, offset), length);
    CopyInto(buffer, pos, src[offset..offset + bytes]);
    offset', length' := 0, SizeSub(length, bytes);
  }

  class PcrStore {
    const pcrs: seq<Pcr>

    ghost function Banks(): (b: seq<Bank>)
      reads this, pcrs
      ensures |b| == |pcrs|
    {
      BanksOf(pcrs)
    }

    ghost predicate Valid()
      reads this, pcrs
    {
      && ValidBanks(Banks())
      && forall i, j :: 0 <= i < j < |pcrs| ==> pcrs[i] != pcrs[j]
    }

    constructor (pcrs: seq<Pcr>)
      requires 1 <= |pcrs| <= 255
      requires forall i :: 0 <= i < |pcrs| ==> pcrs[i].Valid()
      requires forall i, j :: 0 <= i < j < |pcrs| ==> pcrs[i] != pcrs[j]
      ensures Valid() && this.pcrs == pcrs
    {
      this.pcrs := pcrs;
    }

    // Numbering

    /** pcr_store_get_measurement_type. */
    method GetMeasurementType(sequentialId: size_t) returns (r: Result<nat, PcrError>)
      requires Valid()
      ensures sequentialId < |Slots(Banks())| ==> r == Ok(Pack(Slots(Banks())[sequentialId]))
      ensures sequentialId >= |Slots(Banks())| ==> r == Err(InvalidSequentialId)
    {
      var pcrIndex, id, valid := 0, sequentialId, false;
      var measurementIndex := 0;
      ghost var banks := Banks();
      while !valid && pcrIndex < |pcrs|
        invariant 0 <= pcrIndex <= |pcrs|
        invariant id == sequentialId - |SlotsUpTo(banks, pcrIndex)|
        invariant valid ==> pcrIndex < |pcrs| && id == measurementIndex < NumMeasurements(banks[pcrIndex])
        decreases |pcrs| - pcrIndex, !valid
      {
        var n := NumMeasurements(pcrs[pcrIndex].View());
        if n == 0 {
          pcrIndex := pcrIndex + 1;
        } else if id >= n {
          id := SizeSub(id, n);
          pcrIndex := pcrIndex + 1;
        } else {
          measurementIndex := id;
          valid := true;
        }
      }
      if !valid {
        return Err(InvalidSequentialId);
      }
      SlotAt(banks, pcrIndex, measurementIndex);
      r := Ok(pcrIndex * 256 + measurementIndex);
    }

    /** pcr_store_get_num_total_measurements. */
    method GetNumTotalMeasurements() returns (n: nat)
      requires Valid()
      ensures n == |Slots(Banks())|
    {
      n := 0;
      for i := 0 to |pcrs|
        invariant n == |SlotsUpTo(Banks(), i)|
      {
        n := n + NumMeasurements(pcrs[i].View());
      }
    }

    /** pcr_store_get_attestation_log_size. */
    method GetAttestationLogSize() returns (size: size_t)
      requires Valid()
      ensures forall h: HashFunction :: size == |FullAttestationLog(h, Banks())|
    {
      hide FullAttestationLog, LogEntryLength;
      ghost var banks := Banks();
      size := 0;
      for i := 0 to |pcrs|
        invariant size == LogSize(banks, i)
      {
        LogSizeFits(banks, i + 1);
        size := size + NumMeasurements(pcrs[i].View()) * LogEntryLength(pcrs[i].algo);
      }
      forall h: HashFunction ensures size == |FullAttestationLog(h, banks)| {
        FullLogSize(h, banks);
      }
    }

    /** pcr_store_get_pcr_digest_length. */
    method GetPcrDigestLength(pcrNum: byte) returns (r: Result<nat, PcrError>)
      requires Valid()
      ensures pcrNum < |pcrs| ==> r == Ok(HashLength(Banks()[pcrNum].algo))
      ensures pcrNum >= |pcrs| ==> r == Err(InvalidPcr)
    {
      if pcrNum >= |pcrs| {
        return Err(InvalidPcr);
      }
      r := Ok(HashLength(pcrs[pcrNum].algo));
    }

    /** pcr_store_compute_pcr with an output buffer of `room` bytes. */
    method ComputePcr(hash: HashEngine, pcrNum: byte, room: size_t) returns (r: Result<seq<byte>, PcrError>)
      requires Valid() && hash.active == None
      modifies pcrs, hash
      ensures Valid() && hash.active == None
      ensures forall p :: 0 <= p < |pcrs| ==> SameButExtended(old(Banks())[p], Banks()[p])
      ensures pcrNum >= |pcrs| ==> r == Err(InvalidPcr)
      ensures r.Ok? ==> pcrNum < |pcrs| && r.value == PcrValue(hash.H, old(Banks())[pcrNum])
      ensures hash.reliable && pcrNum < |pcrs| && room >= HashLength(Banks()[pcrNum].algo) ==> r.Ok?
    {
      hide SameButExtended, Apply, Refreshed, ValidBank, PcrValue;
      ghost var banks := Banks();
      SameAsItself(banks);
      if pcrNum >= |pcrs| {
        return Err(InvalidPcr);
      }
      assert pcrs[pcrNum].View() == banks[pcrNum] && ValidBank(banks[pcrNum]);
      r := pcrs[pcrNum].Compute(hash, Some(room));
      ghost var now := BanksOf(pcrs);
      assert forall q :: 0 <= q < |pcrs| && q != pcrNum ==> now[q] == banks[q];
      if room >= HashLength(pcrs[pcrNum].algo) {
        ghost var n :| (now[pcrNum], if r.Ok? then None else Some(r.error))
                    == Apply(hash.H, banks[pcrNum], Op.Compute(n));
        ComputeKeeps(hash.H, banks[pcrNum], n);
      }
    }

    // The TCG log

    /** pcr_store_get_tcg_log: exactly the requested window of the whole log. */
    method GetTcgLog(offset: size_t, buffer: array<byte>, length: size_t) returns (bytes: Result<nat, PcrError>)
      requires Valid() && length <= buffer.Length
      modifies buffer
      ensures bytes.Ok? ==>
                var w := Window(FullLog(Banks()), offset, length);
                bytes.value == |w| && buffer[..] == Splice(old(buffer[..]), 0, w)
      ensures OutsideUnchanged(old(buffer[..]), buffer[..], 0, length)
      ensures (forall i, k :: 0 <= i < |pcrs| && 0 <= k < |pcrs[i].list| && pcrs[i].list[k].data.Some? ==>
                 Reliable(pcrs[i].list[k].data.value)) ==> bytes.Ok?
    {
      hide Window, Splice, SpecIdHeader, SpecIdStructure, OutsideUnchanged, ValidBank, FullLog, Algorithms, LogHeader;
      ghost var was := buffer[..];
      ghost var banks := Banks();
      var algos := CollectAlgorithms();
      AlgorithmsBounded(banks);
      var headerLength := 41 - 12 + 4 * |algos|;
      var structure := LogHeader(algos);

      var v1Length, off, len := BufferCopy(SpecIdHeader(headerLength), offset, length, buffer, 0);
      var num := v1Length;
      WindowsJoin(was, 0, SpecIdHeader(headerLength), SpecIdStructure(algos), offset, length);
      v1Length, off, len := BufferCopy(structure[..headerLength], off, len, buffer, num);
      num := num + v1Length;
      assert SpecIdEvent(banks) == SpecIdHeader(headerLength) + SpecIdStructure(algos);
      bytes := AppendBanks(offset, off, buffer, num, length, was);
    }

    /** One PCR's part of the log after what is already there.  When it produces nothing, its whole length is
        skipped; the offset never wraps then. */
    method AppendBank(i: nat, offset: size_t, off: size_t, buffer: array<byte>, num: nat, length: size_t,
                      ghost was: seq<byte>, ghost done: seq<byte>)
      returns (bytes: Result<nat, PcrError>, off': size_t)
      requires Valid() && i < |pcrs| && num < length <= buffer.Length == |was|
      requires num == |Window(done, offset, length)| && off == Past(offset, |done|)
      requires buffer[..] == Splice(was, 0, Window(done, offset, length))
      modifies buffer
      ensures bytes.Ok? ==>
                var w := Window(done + BankLog(i, Banks()[i]), offset, length);
                num + bytes.value == |w| && buffer[..] == Splice(was, 0, w)
      ensures bytes.Ok? && num + bytes.value < length ==> off' == Past(offset, |done + BankLog(i, Banks()[i])|)
      ensures OutsideUnchanged(was, buffer[..], 0, length)
      ensures (forall k :: 0 <= k < |pcrs[i].list| && pcrs[i].list[k].data.Some? ==>
                 Reliable(pcrs[i].list[k].data.value)) ==> bytes.Ok?
    {
      hide Window, Splice, OutsideUnchanged, BankLog;
      assert pcrs[i].Valid() && pcrs[i].View() == Banks()[i];
      var measurementLength;
      bytes, measurementLength := pcrs[i].GetTcgLog(i, off, buffer, num, length - num);
      OutsideAfterSplice(was, 0, Window(done, offset, length), buffer[..], length);
      WindowsJoin(was, 0, done, BankLog(i, Banks()[i]), offset, length);
      off' := if bytes == Ok(0) then SizeSub(off, measurementLength) else 0;
    }

    /** The loop over the PCRs, once the Spec ID event is in place. */
    method AppendBanks(offset: size_t, off0: size_t, buffer: array<byte>, num0: nat, length: size_t,
                       ghost was: seq<byte>)
      returns (bytes: Result<nat, PcrError>)
      requires Valid() && length <= buffer.Length == |was|
      requires num0 == |Window(SpecIdEvent(Banks()), offset, length)|
      requires buffer[..] == Splice(was, 0, Window(SpecIdEvent(Banks()), offset, length))
      requires num0 < length ==> off0 == Past(offset, |SpecIdEvent(Banks())|)
      modifies buffer
      ensures bytes.Ok? ==>
                var w := Window(FullLog(Banks()), offset, length);
                bytes.value == |w| && buffer[..] == Splice(was, 0, w)
      ensures OutsideUnchanged(was, buffer[..], 0, length)
      ensures (forall i, k :: 0 <= i < |pcrs| && 0 <= k < |pcrs[i].list| && pcrs[i].list[k].data.Some? ==>
                 Reliable(pcrs[i].list[k].data.value)) ==> bytes.Ok?
    {
      hide Window, Splice, SpecIdEvent, OutsideUnchanged, ValidBank, BankLog;
      ghost var banks := Banks();
      ghost var spec := SpecIdEvent(banks);
      var off, num, i := off0, num0, 0;
      assert spec + BankLogs(banks, 0) == spec;
      while i < |pcrs| && num < length
        invariant 0 <= i <= |pcrs|
        invariant num == |Window(spec + BankLogs(banks, i), offset, length)|
        invariant buffer[..] == Splice(was, 0, Window(spec + BankLogs(banks, i), offset, length))
        invariant num < length ==> off == Past(offset, |spec + BankLogs(banks, i)|)
      {
        var n;
        n, off := AppendBank(i, offset, off, buffer, num, length, was, spec + BankLogs(banks, i));
        if n.Err? {
          return n;
        }
        assert spec + BankLogs(banks, i) + BankLog(i, banks[i]) == spec + BankLogs(banks, i + 1);
        num := num + n.value;
        i := i + 1;
      }
      ghost var seen := spec + BankLogs(banks, i);
      SpliceStaysInside(was, 0, Window(seen, offset, length), length);
      if i < |pcrs| {
        BankLogsPrefix(banks, i, |banks|);
        WindowFull(seen, FullLog(banks), offset, length);
      }
      bytes := Ok(num);
    }

    // The attestation log

    /** pcr_store_get_attestation_log: every PCR the window reaches is recomputed, and the output is exactly the
        requested window of the whole log. */
    method GetAttestationLog(hash: HashEngine, offset: size_t, buffer: array<byte>, length: size_t)
      returns (bytes: Result<nat, PcrError>)
      requires Valid() && hash.active == None && length <= buffer.Length
      modifies buffer, pcrs, hash
      ensures Valid() && hash.active == None
      ensures bytes.Ok? ==>
                var w := Window(FullAttestationLog(hash.H, old(Banks())), offset, length);
                bytes.value == |w| && buffer[..] == Splice(old(buffer[..]), 0, w)
      ensures forall p :: 0 <= p < |pcrs| ==> SameButExtended(old(Banks())[p], Banks()[p])
      ensures OutsideUnchanged(old(buffer[..]), buffer[..], 0, length)
      ensures hash.reliable ==> bytes.Ok?
    {
      hide Window, Splice, OutsideUnchanged, ValidBank, LogUpTo, SlotsUpTo, SameButExtended, Refreshed, RefreshedAll,
           Apply;
      ghost var was := buffer[..];
      ghost var banks := Banks();
      ghost var target := RefreshedAll(hash.H, banks);
      RefreshedAllValid(hash.H, banks);
      LogStart(target, offset, length);
      SpliceNothing(was, 0);
      assert forall q :: 0 <= q < |pcrs| ==> SameButExtended(banks[q], banks[q]) by {
        SameAsItself(banks);
      }
      var off, num, p := offset, 0, 0;
      var entryId: nat := 0;
      while p < |pcrs| && num < length
        invariant 0 <= p <= |pcrs|
        invariant hash.active == None
        invariant forall q :: 0 <= q < |pcrs| ==> pcrs[q].View() == if q < p then target[q] else banks[q]
        invariant entryId <= |Slots(target)|
        invariant num == |Window(LogUpTo(target, entryId), offset, length)|
        invariant buffer[..] == Splice(was, 0, Window(LogUpTo(target, entryId), offset, length))
        invariant num < length ==> entryId == |SlotsUpTo(target, p)| && off == Past(offset, |LogUpTo(target, entryId)|)
      {
        assert pcrs[p].View() == banks[p] && ValidBank(banks[p]);
        if NumMeasurements(pcrs[p].View()) == 0 {
          ExplicitHasNoSlots(hash.H, banks, p);
          p := p + 1;
          continue;
        }
        var value := pcrs[p].Compute(hash, None);
        if value.Err? {
          SpliceStaysInside(was, 0, Window(LogUpTo(target, entryId), offset, length), length);
          FailedCompute(hash.H, banks, p, BanksOf(pcrs), value.error);
          return Err(value.error);
        }
        ComputeKeepsShape(hash.H, banks[p]);
        off, num, entryId := LogOneBank(target, p, offset, off, buffer, num, length, entryId, was);
        p := p + 1;
      }
      SpliceStaysInside(was, 0, Window(LogUpTo(target, entryId), offset, length), length);
      LogEnd(target, entryId, offset, length);
      AllRefreshed(hash.H, banks, p, BanksOf(pcrs));
      bytes := Ok(num);
    }

    /** The loop over one PCR's measurements; the entry number counts on from PCR to PCR. */
    method LogOneBank(ghost target: seq<Bank>, p: nat, offset: size_t, off0: size_t, buffer: array<byte>, num0: nat,
                      length: size_t, entryId0: nat, ghost was: seq<byte>)
      returns (off: size_t, num: nat, entryId: nat)
      requires ValidBanks(target) && |target| == |pcrs| && p < |pcrs|
      requires pcrs[p].View() == target[p] && !target[p].isExplicit
      requires length <= buffer.Length == |was| && num0 < length
      requires entryId0 == |SlotsUpTo(target, p)| <= |Slots(target)|
      requires num0 == |Window(LogUpTo(target, entryId0), offset, length)|
      requires buffer[..] == Splice(was, 0, Window(LogUpTo(target, entryId0), offset, length))
      requires off0 == Past(offset, |LogUpTo(target, entryId0)|)
      modifies buffer
      ensures entryId <= |Slots(target)|
      ensures num == |Window(LogUpTo(target, entryId), offset, length)|
      ensures buffer[..] == Splice(was, 0, Window(LogUpTo(target, entryId), offset, length))
      ensures num < length ==>
                entryId == |SlotsUpTo(target, p + 1)| && off == Past(offset, |LogUpTo(target, entryId)|)
    {
      hide Window, Splice, LogEntry, LogEntryLength, EntryOf;
      ghost var b := target[p];
      off, num, entryId := off0, num0, entryId0;
      var i := 0;
      while i < NumMeasurements(pcrs[p].View()) && num < length
        invariant 0 <= i <= |b.list|
        invariant entryId == entryId0 + i <= |Slots(target)|
        invariant num == |Window(LogUpTo(target, entryId), offset, length)|
        invariant buffer[..] == Splice(was, 0, Window(LogUpTo(target, entryId), offset, length))
        invariant num < length ==> off == Past(offset, |LogUpTo(target, entryId)|)
      {
        EntryAt(target, p, i);
        EntryLengthFits(b.algo);
        var entry := LogEntry(entryId, Slot(p, i), pcrs[p].algo, pcrs[p].list[i]);
        WindowsJoin(was, 0, LogUpTo(target, entryId), entry, offset, length);
        assert LogUpTo(target, entryId + 1) == LogUpTo(target, entryId) + entry;
        var entryBytes, rest;
        entryBytes, off, rest := BufferCopy(entry, off, length - num, buffer, num);
        num := num + entryBytes;
        entryId := entryId + 1;
        i := i + 1;
      }
      assert |SlotsUpTo(target, p + 1)| == |SlotsUpTo(target, p)| + |b.list|;
    }

    /** The loop that collects each algorithm the first time it is seen. */
    method CollectAlgorithms() returns (algos: seq<HashAlg>)
      requires Valid()
      ensures algos == Algorithms(Banks())
    {
      ghost var banks := Banks();
      var added: set<HashAlg> := {};
      algos := [];
      for i := 0 to |pcrs|
        invariant algos == Algorithms(banks[..i])
        invariant added == set a | a in algos
      {
        assert banks[..i + 1][..i] == banks[..i];
        if pcrs[i].algo !in added {
          algos := algos + [pcrs[i].algo];
          added := added + {pcrs[i].algo};
        }
      }
      assert banks[..|pcrs|] == banks;
    }
  }

  /** What reading the attestation log may do to a bank: bring extended values up to date, and nothing else. */
  ghost predicate SameButExtended(b: Bank, b': Bank) {
    && b'.algo == b.algo && b'.isExplicit == b.isExplicit && |b'.list| == |b.list|
    && forall i :: 0 <= i < |b.list| ==> b'.list[i] == b.list[i].(extended := b'.list[i].extended)
  }

  ghost function BanksOf(pcrs: seq<Pcr>): (b: seq<Bank>)
    reads pcrs
    ensures |b| == |pcrs|
    ensures forall i :: 0 <= i < |b| ==> b[i] == pcrs[i].View()
  {
    seq(|pcrs|, i requires 0 <= i < |pcrs| reads pcrs => pcrs[i].View())
  }

  /** The zero-filled header structure: room for three algorithms, of which only those in use are filled in. */
  function LogHeader(algos: seq<HashAlg>): (s: seq<byte>)
    requires |algos| <= 3
    ensures |s| == 41
    ensures s[..29 + 4 * |algos|] == SpecIdStructure(algos)
  {
    var s := SIGNATURE + LE32(1) + [0, 2, 0, 1] + LE32(|algos|)
             + AlgorithmDescriptors(algos) + Zeros(12 - 4 * |algos|) + [0];
    HeaderPrefix(SIGNATURE + LE32(1) + [0, 2, 0, 1] + LE32(|algos|) + AlgorithmDescriptors(algos), 12 - 4 * |algos|);
    s
  }

  /** Whether the next byte is an unused algorithm or the vendor size, it is zero. */
  lemma HeaderPrefix(s: seq<byte>, n: nat)
    ensures (s + Zeros(n) + [0])[..|s| + 1] == s + [0]
  {
  }

  lemma EntryLengthFits(algo: HashAlg)
    ensures LogEntryLength(algo) < SIZE_MOD
  {
  }

  lemma LogStart(target: seq<Bank>, offset: nat, length: nat)
    requires ValidBanks(target)
    ensures LogUpTo(target, 0) == [] && SlotsUpTo(target, 0) == []
    ensures Window(LogUpTo(target, 0), offset, length) == []
  {
  }

  lemma LogEnd(target: seq<Bank>, k: nat, offset: nat, length: nat)
    requires ValidBanks(target) && k <= |Slots(target)|
    requires k == |Slots(target)| || |Window(LogUpTo(target, k), offset, length)| == length
    ensures Window(LogUpTo(target, |Slots(target)|), offset, length) == Window(LogUpTo(target, k), offset, length)
  {
    if k < |Slots(target)| {
      LogUpToPrefix(target, k, |Slots(target)|);
      WindowFull(LogUpTo(target, k), LogUpTo(target, |Slots(target)|), offset, length);
    }
  }

  lemma ExplicitHasNoSlots(h: HashFunction, banks: seq<Bank>, p: nat)
    requires p < |banks| && ValidBank(banks[p]) && NumMeasurements(banks[p]) == 0
    ensures Refreshed(h, banks[p]) == banks[p]
    ensures SlotsUpTo(RefreshedAll(h, banks), p + 1) == SlotsUpTo(RefreshedAll(h, banks), p)
  {
  }

  lemma SameAsItself(banks: seq<Bank>)
    ensures forall q :: 0 <= q < |banks| ==> SameButExtended(banks[q], banks[q])
  {
  }

  lemma ComputeKeeps(h: HashFunction, b: Bank, n: nat)
    requires ValidBank(b)
    ensures SameButExtended(b, Apply(h, b, Op.Compute(n)).0) && ValidBank(Apply(h, b, Op.Compute(n)).0)
  {
  }

  lemma ComputeKeepsShape(h: HashFunction, b: Bank)
    requires ValidBank(b)
    ensures Refreshed(h, b).isExplicit == b.isExplicit
    ensures SameButExtended(b, Refreshed(h, b)) && ValidBank(Refreshed(h, b))
  {
  }

  lemma FailedCompute(h: HashFunction, banks: seq<Bank>, p: nat, now: seq<Bank>, e: PcrError)
    requires ValidBanks(banks) && |now| == |banks| && p < |banks|
    requires forall q :: 0 <= q < |banks| && q != p ==> now[q] == if q < p then RefreshedAll(h, banks)[q] else banks[q]
    requires exists n :: (now[p], Some(e)) == Apply(h, banks[p], Op.Compute(n))
    ensures ValidBanks(now)
    ensures forall q :: 0 <= q < |banks| ==> SameButExtended(banks[q], now[q])
  {
    hide Apply, SameButExtended, ValidBank, Refreshed;
    var n :| (now[p], Some(e)) == Apply(h, banks[p], Op.Compute(n));
    assert ValidBank(banks[p]);
    ComputeKeeps(h, banks[p], n);
    PartlyRefreshed(h, banks, p, now);
  }

  lemma PartlyRefreshed(h: HashFunction, banks: seq<Bank>, p: nat, now: seq<Bank>)
    requires ValidBanks(banks) && |now| == |banks| && p < |banks|
    requires forall q :: 0 <= q < |banks| && q != p ==> now[q] == if q < p then Refreshed(h, banks[q]) else banks[q]
    requires SameButExtended(banks[p], now[p]) && ValidBank(now[p])
    ensures ValidBanks(now)
    ensures forall q :: 0 <= q < |banks| ==> SameButExtended(banks[q], now[q])
  {
    forall q | 0 <= q < |banks| ensures SameButExtended(banks[q], now[q]) && ValidBank(now[q]) {
      ComputeKeepsShape(h, banks[q]);
    }
  }

  lemma AllRefreshed(h: HashFunction, banks: seq<Bank>, p: nat, now: seq<Bank>)
    requires ValidBanks(banks) && |now| == |banks|
    requires forall q :: 0 <= q < |banks| ==> now[q] == if q < p then Refreshed(h, banks[q]) else banks[q]
    ensures ValidBanks(now)
    ensures forall q :: 0 <= q < |banks| ==> SameButExtended(banks[q], now[q])
  {
    forall q | 0 <= q < |banks| ensures SameButExtended(banks[q], now[q]) && ValidBank(now[q]) {
      ComputeKeepsShape(h, banks[q]);
    }
  }

  lemma {:induction false} BankLogsPrefix(banks: seq<Bank>, i: nat, n: nat)
    requires ValidBanks(banks) && i <= n <= |banks|
    ensures BankLogs(banks, i) <= BankLogs(banks, n)
    decreases n
  {
    hide BankLog;
    if i < n {
      BankLogsPrefix(banks, i, n - 1);
    }
  }
}
