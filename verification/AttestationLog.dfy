/** The attestation log as one byte string, and the sequential numbering of measurements it is ordered by
    (core/attestation/pcr_store.c). */
module AttestationLog {
  import opened Bytes
  import opened Wrappers
  import opened HashEngines
  import opened PcrBanks
  import opened TcgLog

  /** Where a measurement lives: its PCR and its index there. */
  datatype Slot = Slot(pcr: nat, index: nat)

  /** PCR_MEASUREMENT. */
  function Pack(s: Slot): nat { s.pcr * 256 + s.index }

  /** PCR_STORE_PCR_INDEX and PCR_STORE_MEASUREMENT_INDEX. */
  function Unpack(x: nat): Slot { Slot(x / 256 % 256, x % 256) }

  function BankSlots(p: nat, n: nat): (s: seq<Slot>)
    ensures |s| == n
    ensures forall i :: 0 <= i < n ==> s[i] == Slot(p, i)
  {
    seq(n, i requires 0 <= i < n => Slot(p, i))
  }

  /** The slots of the first n banks in order; explicit banks have none. */
  ghost function SlotsUpTo(banks: seq<Bank>, n: nat): seq<Slot>
    requires n <= |banks|
  {
    if n == 0 then [] else SlotsUpTo(banks, n - 1) + BankSlots(n - 1, NumMeasurements(banks[n - 1]))
  }

  ghost function Slots(banks: seq<Bank>): seq<Slot> {
    SlotsUpTo(banks, |banks|)
  }

  lemma {:induction false} SlotsPrefix(banks: seq<Bank>, m: nat, n: nat)
    requires m <= n <= |banks|
    ensures SlotsUpTo(banks, m) <= SlotsUpTo(banks, n)
    decreases n
  {
    if m < n {
      SlotsPrefix(banks, m, n - 1);
    }
  }

  /** Measurement i of bank p is number (all measurements before bank p) + i. */
  lemma SlotAt(banks: seq<Bank>, p: nat, i: nat)
    requires p < |banks| && i < NumMeasurements(banks[p])
    ensures |SlotsUpTo(banks, p)| + i < |Slots(banks)|
    ensures Slots(banks)[|SlotsUpTo(banks, p)| + i] == Slot(p, i)
  {
    SlotsPrefix(banks, p + 1, |banks|);
    var k := |SlotsUpTo(banks, p)| + i;
    assert SlotsUpTo(banks, p + 1)[k] == Slot(p, i);
  }

  predicate Before(a: Slot, b: Slot) {
    a.pcr < b.pcr || (a.pcr == b.pcr && a.index < b.index)
  }

  predicate IsMeasurement(banks: seq<Bank>, s: Slot) {
    s.pcr < |banks| && s.index < NumMeasurements(banks[s.pcr])
  }

  lemma {:induction false} SlotsUpToAre(banks: seq<Bank>, n: nat)
    requires n <= |banks|
    ensures forall k :: 0 <= k < |SlotsUpTo(banks, n)| ==>
              IsMeasurement(banks, SlotsUpTo(banks, n)[k]) && SlotsUpTo(banks, n)[k].pcr < n
    ensures forall j, k :: 0 <= j < k < |SlotsUpTo(banks, n)| ==>
              Before(SlotsUpTo(banks, n)[j], SlotsUpTo(banks, n)[k])
    decreases n
  {
    if n > 0 {
      SlotsUpToAre(banks, n - 1);
    }
  }

  /** Sequential numbers and measurements of non-explicit PCRs correspond one to one, in order. */
  lemma SlotsAreABijection(banks: seq<Bank>)
    ensures forall k :: 0 <= k < |Slots(banks)| ==> IsMeasurement(banks, Slots(banks)[k])
    ensures forall j, k :: 0 <= j < k < |Slots(banks)| ==> Before(Slots(banks)[j], Slots(banks)[k])
    ensures forall s: Slot :: IsMeasurement(banks, s) ==> exists k :: 0 <= k < |Slots(banks)| && Slots(banks)[k] == s
  {
    SlotsUpToAre(banks, |banks|);
    forall s: Slot | IsMeasurement(banks, s)
      ensures exists k :: 0 <= k < |Slots(banks)| && Slots(banks)[k] == s
    {
      SlotAt(banks, s.pcr, s.index);
    }
  }

  /** The packing macros undo each other on every measurement, and packing keeps the order. */
  lemma PackingAgrees(banks: seq<Bank>, s: Slot, t: Slot)
    requires ValidBanks(banks) && IsMeasurement(banks, s) && IsMeasurement(banks, t)
    ensures Pack(s) < 0x1_0000 && Unpack(Pack(s)) == s
    ensures Before(s, t) <==> Pack(s) < Pack(t)
  {
    hide Unpack;
    assert ValidBank(banks[s.pcr]) && ValidBank(banks[t.pcr]);
    UnpackUndoesPack(s);
  }

  lemma UnpackUndoesPack(s: Slot)
    requires s.pcr < 256 && s.index < 256
    ensures Pack(s) < 0x1_0000 && Unpack(Pack(s)) == s
  {
    assert (s.pcr * 256 + s.index) / 256 == s.pcr;
  }

  // Entries

  const LOGGING_MAGIC_START: byte := 0xCB

  function LogEntryLength(algo: HashAlg): nat { 7 + 14 + HashLength(algo) + 4 + HashLength(algo) }

  function LogEntry(id: nat, s: Slot, algo: HashAlg, m: Measurement): (e: seq<byte>)
    requires |m.digest| == HashLength(algo) == |m.extended|
    ensures |e| == LogEntryLength(algo)
  {
    [LOGGING_MAGIC_START] + LE16(LogEntryLength(algo)) + LE32(id)
    + LE32(m.eventType) + LE32(Pack(s)) + LE32(1) + LE16(AlgId(algo))
    + m.digest + LE32(HashLength(algo)) + m.extended
  }

  /** Entry k: number k, for the k-th measurement. */
  ghost function EntryOf(banks: seq<Bank>, k: nat): seq<byte>
    requires ValidBanks(banks) && k < |Slots(banks)|
  {
    SlotsAreABijection(banks);
    var s := Slots(banks)[k];
    LogEntry(k, s, banks[s.pcr].algo, banks[s.pcr].list[s.index])
  }

  /** The first n entries for banks whose extended values are current. */
  ghost function LogUpTo(banks: seq<Bank>, n: nat): seq<byte>
    requires ValidBanks(banks) && n <= |Slots(banks)|
  {
    if n == 0 then [] else LogUpTo(banks, n - 1) + EntryOf(banks, n - 1)
  }

  function RefreshedAll(h: HashFunction, banks: seq<Bank>): (r: seq<Bank>)
    ensures |r| == |banks|
    ensures forall i :: 0 <= i < |banks| ==> r[i] == Refreshed(h, banks[i])
  {
    seq(|banks|, i requires 0 <= i < |banks| => Refreshed(h, banks[i]))
  }

  lemma RefreshedAllValid(h: HashFunction, banks: seq<Bank>)
    requires ValidBanks(banks)
    ensures ValidBanks(RefreshedAll(h, banks))
  {
    forall i | 0 <= i < |banks| ensures ValidBank(RefreshedAll(h, banks)[i]) {
      RefreshedKeepsValid(h, banks[i]);
    }
  }

  /** The whole attestation log: every PCR is recomputed first. */
  ghost function FullAttestationLog(h: HashFunction, banks: seq<Bank>): seq<byte>
    requires ValidBanks(banks)
  {
    RefreshedAllValid(h, banks);
    LogUpTo(RefreshedAll(h, banks), |Slots(RefreshedAll(h, banks))|)
  }

  lemma {:induction false} LogUpToPrefix(banks: seq<Bank>, m: nat, n: nat)
    requires ValidBanks(banks) && m <= n <= |Slots(banks)|
    ensures LogUpTo(banks, m) <= LogUpTo(banks, n)
    decreases n
  {
    hide EntryOf;
    if m < n {
      LogUpToPrefix(banks, m, n - 1);
    }
  }

  lemma {:induction false} RefreshKeepsSlots(h: HashFunction, banks: seq<Bank>, n: nat)
    requires n <= |banks|
    ensures SlotsUpTo(RefreshedAll(h, banks), n) == SlotsUpTo(banks, n)
    decreases n
  {
    if n > 0 {
      RefreshKeepsSlots(h, banks, n - 1);
    }
  }

  /** The entry of measurement i of bank p. */
  lemma EntryAt(banks: seq<Bank>, p: nat, i: nat)
    requires ValidBanks(banks) && p < |banks| && i < NumMeasurements(banks[p])
    ensures ValidBank(banks[p])
    ensures |SlotsUpTo(banks, p)| + i < |Slots(banks)|
    ensures EntryOf(banks, |SlotsUpTo(banks, p)| + i)
            == LogEntry(|SlotsUpTo(banks, p)| + i, Slot(p, i), banks[p].algo, banks[p].list[i])
    ensures |EntryOf(banks, |SlotsUpTo(banks, p)| + i)| == LogEntryLength(banks[p].algo)
  {
    hide LogEntry, LogEntryLength;
    SlotAt(banks, p, i);
  }

  // Size

  /** pcr_store_get_attestation_log_size for the first n banks. */
  function LogSize(banks: seq<Bank>, n: nat): nat
    requires n <= |banks|
  {
    if n == 0 then 0
    else LogSize(banks, n - 1) + NumMeasurements(banks[n - 1]) * LogEntryLength(banks[n - 1].algo)
  }

  lemma {:induction false} LogUpToSize(banks: seq<Bank>, n: nat, i: nat)
    requires ValidBanks(banks) && n <= |banks|
    requires i == 0 || (n < |banks| && i <= NumMeasurements(banks[n]))
    ensures |SlotsUpTo(banks, n)| + i <= |Slots(banks)|
    ensures |LogUpTo(banks, |SlotsUpTo(banks, n)| + i)|
            == LogSize(banks, n) + (if i == 0 then 0 else i * LogEntryLength(banks[n].algo))
    decreases n, i
  {
    hide EntryOf, LogEntryLength, ValidBank;
    SlotsPrefix(banks, n, |banks|);
    if i > 0 {
      EntryAt(banks, n, i - 1);
      LogUpToSize(banks, n, i - 1);
      assert i * LogEntryLength(banks[n].algo)
          == (i - 1) * LogEntryLength(banks[n].algo) + LogEntryLength(banks[n].algo);
    } else if n > 0 {
      LogUpToSize(banks, n - 1, NumMeasurements(banks[n - 1]));
    }
  }

  /** The reported size is the length of the log. */
  lemma FullLogSize(h: HashFunction, banks: seq<Bank>)
    requires ValidBanks(banks)
    ensures |FullAttestationLog(h, banks)| == LogSize(banks, |banks|)
  {
    hide LogUpTo, LogSize, SlotsUpTo, ValidBank, Refreshed, RefreshedAll;
    var r := RefreshedAll(h, banks);
    RefreshedAllValid(h, banks);
    LogUpToSize(r, |r|, 0);
    RefreshKeepsSize(h, banks, |banks|);
  }

  lemma {:induction false} RefreshKeepsSize(h: HashFunction, banks: seq<Bank>, n: nat)
    requires n <= |banks|
    ensures LogSize(RefreshedAll(h, banks), n) == LogSize(banks, n)
    decreases n
  {
    if n > 0 {
      RefreshKeepsSize(h, banks, n - 1);
    }
  }

  /** The size never leaves the range of a C int: at most 255 PCRs of 255 measurements. */
  lemma {:induction false} LogSizeFits(banks: seq<Bank>, n: nat)
    requires ValidBanks(banks) && n <= |banks|
    ensures LogSize(banks, n) <= n * (255 * 153) < 0x7f00_0000
    decreases n
  {
    if n > 0 {
      LogSizeFits(banks, n - 1);
      var b := banks[n - 1];
      assert ValidBank(b);
      assert LogEntryLength(b.algo) <= 153;
      assert NumMeasurements(b) * LogEntryLength(b.algo) <= 255 * 153 by {
        MulMonotone(NumMeasurements(b), 255, LogEntryLength(b.algo), 153);
      }
    }
  }

  // What the digests in the log prove

  /** Replaying the digests a log reports for one PCR, from zeros. */
  function Replay(h: HashFunction, algo: HashAlg, list: seq<Measurement>, i: nat): seq<byte>
    requires i <= |list|
  {
    if i == 0 then Zeros(HashLength(algo)) else h(algo, Replay(h, algo, list, i - 1) + list[i - 1].digest)
  }

  lemma {:induction false} ReplayIsChain(h: HashFunction, algo: HashAlg, list: seq<Measurement>, i: nat)
    requires i <= |list|
    ensures Replay(h, algo, list, i) == Chain(h, algo, Digests(list)[..i])
    decreases i
  {
    if i > 0 {
      ReplayIsChain(h, algo, list, i - 1);
      assert Digests(list)[..i][..i - 1] == Digests(list)[..i - 1];
    }
  }

  /** In every attestation log, replaying one PCR's digests gives each entry's extended value in turn, and the
      last of them is what pcr_compute reports for that PCR. */
  lemma LogReplays(h: HashFunction, banks: seq<Bank>, p: nat, i: nat)
    requires ValidBanks(banks) && p < |banks| && i < NumMeasurements(banks[p])
    ensures var logged := RefreshedAll(h, banks)[p];
            && |logged.list| == |banks[p].list|
            && logged.list[i].extended == Replay(h, logged.algo, logged.list, i + 1)
            && logged.list[i].digest == banks[p].list[i].digest
            && logged.list[i].eventType == banks[p].list[i].eventType
            && PcrValue(h, banks[p]) == logged.list[|logged.list| - 1].extended
  {
    var b := banks[p];
    var logged := RefreshedAll(h, banks)[p];
    assert logged == Refreshed(h, b);
    ReplayIsChain(h, b.algo, logged.list, i + 1);
    assert Digests(logged.list) == Digests(b.list);
    assert Digests(b.list)[..|b.list|] == Digests(b.list);
  }

  /** The fields of an entry, found at their fixed offsets. */
  lemma EntryFields(id: nat, s: Slot, algo: HashAlg, m: Measurement)
    requires |m.digest| == HashLength(algo) == |m.extended|
    ensures var e := LogEntry(id, s, algo, m);
            var n := HashLength(algo);
            && e[3..7] == LE32(id) && e[11..15] == LE32(Pack(s)) && e[21..21 + n] == m.digest
            && e[25 + n..25 + 2 * n] == m.extended
  {
    hide LE32, LE16;
  }

  /** The bytes of the log between the lengths of its first k and k + 1 entries are entry k. */
  lemma EntryInLog(h: HashFunction, banks: seq<Bank>, target: seq<Bank>, k: nat)
    requires ValidBanks(banks) && target == RefreshedAll(h, banks) && ValidBanks(target) && k < |Slots(target)|
    ensures |LogUpTo(target, k)| <= |LogUpTo(target, k + 1)| <= |FullAttestationLog(h, banks)|
    ensures FullAttestationLog(h, banks)[|LogUpTo(target, k)|..|LogUpTo(target, k + 1)|] == EntryOf(target, k)
  {
    hide EntryOf, RefreshedAll, ValidBank;
    LogUpToPrefix(target, k + 1, |Slots(target)|);
    assert LogUpTo(target, k + 1) == LogUpTo(target, k) + EntryOf(target, k);
  }
}
