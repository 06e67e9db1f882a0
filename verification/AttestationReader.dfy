/** Reading an attestation log back from nothing but its bytes, and replaying it as a verifier would
    (core/attestation/pcr_store.c, core/attestation/pcr_store.h). */
module AttestationReader {
  import opened Bytes
  import opened Wrappers
  import opened HashEngines
  import opened PcrBanks
  import opened TcgLog
  import opened AttestationLog

  /** One entry as it is read. */
  datatype Logged = Logged(id: nat, eventType: nat, measurementType: nat, algId: nat, digest: seq<byte>,
                           extended: seq<byte>)

  /** Read one entry by its own length and algorithm fields: the entry and what follows it. */
  function ParseEntry(s: seq<byte>): (r: Option<(Logged, seq<byte>)>)
    ensures r.Some? ==> |r.value.1| < |s|
  {
    if |s| < 21 || s[0] != 0xCB || FromLE32(s[15..19]) != 1 then None
    else
      var length, algId := FromLE16(s[1..3]), FromLE16(s[19..21]);
      match DigestLength(algId)
      case None => None
      case Some(n) =>
        if length != 25 + 2 * n || |s| < length || FromLE32(s[21 + n..25 + n]) != n then None
        else
          Some((Logged(FromLE32(s[3..7]), FromLE32(s[7..11]), FromLE32(s[11..15]), algId, s[21..21 + n],
                       s[25 + n..length]),
                s[length..]))
  }

  function ParseLog(s: seq<byte>): Option<seq<Logged>>
    decreases |s|
  {
    if s == [] then Some([])
    else
      match ParseEntry(s)
      case None => None
      case Some((entry, rest)) =>
        match ParseLog(rest)
        case None => None
        case Some(entries) => Some([entry] + entries)
  }

  // What is read is what was logged

  function LoggedOf(id: nat, s: Slot, algo: HashAlg, m: Measurement): Logged {
    Logged(id, m.eventType, Pack(s), AlgId(algo), m.digest, m.extended)
  }

  lemma EntryPieces(id: nat, s: Slot, algo: HashAlg, m: Measurement, rest: seq<byte>)
    requires |m.digest| == HashLength(algo) == |m.extended|
    ensures var e, n := LogEntry(id, s, algo, m) + rest, HashLength(algo);
            && |e| == 25 + 2 * n + |rest| && e[0] == 0xCB && e[1..3] == LE16(25 + 2 * n)
            && e[3..7] == LE32(id) && e[7..11] == LE32(m.eventType) && e[11..15] == LE32(Pack(s))
            && e[15..19] == LE32(1) && e[19..21] == LE16(AlgId(algo)) && e[21..21 + n] == m.digest
            && e[21 + n..25 + n] == LE32(n) && e[25 + n..25 + 2 * n] == m.extended && e[25 + 2 * n..] == rest
  {
    hide LE32, LE16, Pack;
  }

  lemma ParseWrittenEntry(id: nat, s: Slot, algo: HashAlg, m: Measurement, rest: seq<byte>)
    requires algo == Sha256 || algo == Sha384 || algo == Sha512
    requires |m.digest| == HashLength(algo) == |m.extended| && id < 0x1_0000_0000 && Pack(s) < 0x1_0000_0000
    ensures ParseEntry(LogEntry(id, s, algo, m) + rest) == Some((LoggedOf(id, s, algo, m), rest))
  {
    hide LE32, LE16, FromLE32, FromLE16, Pack, LogEntry;
    EntryPieces(id, s, algo, m, rest);
    LE16RoundTrip(25 + 2 * HashLength(algo));
    LE32RoundTrip(id);
    LE32RoundTrip(m.eventType);
    LE32RoundTrip(Pack(s));
    LE32RoundTrip(1);
    LE16RoundTrip(AlgId(algo));
    LE32RoundTrip(HashLength(algo));
  }

  ghost function LoggedAt(banks: seq<Bank>, k: nat): Logged
    requires ValidBanks(banks) && k < |Slots(banks)|
  {
    SlotsAreABijection(banks);
    var s := Slots(banks)[k];
    LoggedOf(k, s, banks[s.pcr].algo, banks[s.pcr].list[s.index])
  }

  ghost function AllLogged(banks: seq<Bank>, n: nat): (es: seq<Logged>)
    requires ValidBanks(banks) && n <= |Slots(banks)|
    ensures |es| == n && forall k :: 0 <= k < n ==> es[k] == LoggedAt(banks, k)
  {
    if n == 0 then [] else AllLogged(banks, n - 1) + [LoggedAt(banks, n - 1)]
  }

  lemma {:induction false} SlotsBound(banks: seq<Bank>, n: nat)
    requires ValidBanks(banks) && n <= |banks|
    ensures |SlotsUpTo(banks, n)| <= 255 * n
    decreases n
  {
    if n > 0 {
      SlotsBound(banks, n - 1);
      assert ValidBank(banks[n - 1]);
    }
  }

  lemma ParseEntryOf(banks: seq<Bank>, k: nat, rest: seq<byte>)
    requires ValidBanks(banks) && k < |Slots(banks)|
    ensures ParseEntry(EntryOf(banks, k) + rest) == Some((LoggedAt(banks, k), rest))
  {
    hide ParseEntry, LogEntry, ValidMeasurement;
    SlotsAreABijection(banks);
    SlotsBound(banks, |banks|);
    var s := Slots(banks)[k];
    var b := banks[s.pcr];
    assert ValidBank(b) && ValidMeasurement(b.algo, b.list[s.index]);
    PackingAgrees(banks, s, s);
    DigestsFitMeasurement(b.algo, b.list[s.index]);
    ParseWrittenEntry(k, s, b.algo, b.list[s.index], rest);
  }

  lemma DigestsFitMeasurement(algo: HashAlg, m: Measurement)
    requires ValidMeasurement(algo, m)
    ensures |m.digest| == HashLength(algo) == |m.extended|
  {
  }

  lemma ParseLogStep(s: seq<byte>, entry: Logged, rest: seq<byte>, entries: seq<Logged>)
    requires ParseEntry(s) == Some((entry, rest)) && ParseLog(rest) == Some(entries)
    ensures ParseLog(s) == Some([entry] + entries)
  {
  }

  lemma {:induction false} ParseUpTo(banks: seq<Bank>, n: nat, rest: seq<byte>, entries: seq<Logged>)
    requires ValidBanks(banks) && n <= |Slots(banks)| && ParseLog(rest) == Some(entries)
    ensures ParseLog(LogUpTo(banks, n) + rest) == Some(AllLogged(banks, n) + entries)
    decreases n
  {
    hide ParseLog, ParseEntry, EntryOf, LoggedAt, ValidBanks;
    if n == 0 {
      assert LogUpTo(banks, 0) + rest == rest && AllLogged(banks, 0) + entries == entries;
    } else {
      var e := EntryOf(banks, n - 1);
      ParseEntryOf(banks, n - 1, rest);
      ParseLogStep(e + rest, LoggedAt(banks, n - 1), rest, entries);
      ParseUpTo(banks, n - 1, e + rest, [LoggedAt(banks, n - 1)] + entries);
      assert LogUpTo(banks, n) + rest == LogUpTo(banks, n - 1) + (e + rest);
      assert AllLogged(banks, n - 1) + ([LoggedAt(banks, n - 1)] + entries) == AllLogged(banks, n) + entries;
    }
  }

  // Replay

  function PcrOf(e: Logged): nat { e.measurementType / 256 }

  function AlgOf(e: Logged): HashAlg {
    if e.algId == 0x0B then Sha256 else if e.algId == 0x0C then Sha384
    else if e.algId == 0x0D then Sha512 else UnknownHash
  }

  /** Folding the digests of PCR p among the first n entries, each H(previous + digest), from zeros. */
  function Fold(h: HashFunction, algo: HashAlg, es: seq<Logged>, p: nat, n: nat): seq<byte>
    requires n <= |es|
  {
    if n == 0 then Zeros(HashLength(algo))
    else if PcrOf(es[n - 1]) == p then h(algo, Fold(h, algo, es, p, n - 1) + es[n - 1].digest)
    else Fold(h, algo, es, p, n - 1)
  }

  /** The entries of a PCR are the ones from its first number on. */
  lemma SlotNumber(banks: seq<Bank>, k: nat, p: nat)
    requires k < |Slots(banks)| && p < |banks|
    ensures var first := |SlotsUpTo(banks, p)|;
            && (Slots(banks)[k].pcr == p <==> first <= k < first + NumMeasurements(banks[p]))
            && (Slots(banks)[k].pcr == p ==> Slots(banks)[k] == Slot(p, k - first))
  {
    hide SlotsUpTo;
    SlotsAreABijection(banks);
    var first, s := |SlotsUpTo(banks, p)|, Slots(banks)[k];
    if first <= k < first + NumMeasurements(banks[p]) {
      SlotAt(banks, p, k - first);
    }
    if s.pcr == p {
      assert IsMeasurement(banks, s);
      SlotAt(banks, p, s.index);
      assert Slots(banks)[first + s.index] == s;
    }
  }

  /** Where folding the first n entries for PCR p has got to. */
  function Reached(first: nat, count: nat, n: nat): nat {
    if n <= first then 0 else Min(n - first, count)
  }

  lemma {:induction false} FoldIsReplay(h: HashFunction, banks: seq<Bank>, es: seq<Logged>, p: nat, n: nat)
    requires ValidBanks(banks) && p < |banks| && n <= |Slots(banks)|
    requires es == AllLogged(banks, |Slots(banks)|)
    ensures var i := Reached(|SlotsUpTo(banks, p)|, NumMeasurements(banks[p]), n);
            i <= |banks[p].list| && Fold(h, banks[p].algo, es, p, n) == Replay(h, banks[p].algo, banks[p].list, i)
    decreases n
  {
    hide SlotsUpTo, AllLogged, ValidBank;
    if n > 0 {
      FoldIsReplay(h, banks, es, p, n - 1);
      SlotNumber(banks, n - 1, p);
      LoggedPcr(banks, n - 1);
    }
  }

  lemma LoggedPcr(banks: seq<Bank>, k: nat)
    requires ValidBanks(banks) && k < |Slots(banks)|
    ensures var s, e := Slots(banks)[k], LoggedAt(banks, k);
            && s.pcr < |banks| && s.index < NumMeasurements(banks[s.pcr]) <= |banks[s.pcr].list|
            && PcrOf(e) == s.pcr && AlgOf(e) == banks[s.pcr].algo && e.id == k && e.measurementType == Pack(s)
            && e.digest == banks[s.pcr].list[s.index].digest && e.extended == banks[s.pcr].list[s.index].extended
            && e.eventType == banks[s.pcr].list[s.index].eventType
  {
    hide SlotsUpTo;
    SlotsAreABijection(banks);
    var s := Slots(banks)[k];
    assert IsMeasurement(banks, s) && ValidBank(banks[s.pcr]);
    PackingAgrees(banks, s, s);
  }

  /** Entry k, read back: its number is k, its types, algorithm and digest are those of the k-th measurement, and its
      extended value is what folding the digests read for its PCR up to it gives. */
  ghost predicate Replays(h: HashFunction, banks: seq<Bank>, es: seq<Logged>, k: nat)
    requires k < |es| == |Slots(banks)|
  {
    var s, e := Slots(banks)[k], es[k];
    && IsMeasurement(banks, s) && s.index < |banks[s.pcr].list|
    && e.id == k && e.measurementType == Pack(s) && e.digest == banks[s.pcr].list[s.index].digest
    && e.eventType == banks[s.pcr].list[s.index].eventType && AlgOf(e) == banks[s.pcr].algo
    && e.extended == Fold(h, AlgOf(e), es, PcrOf(e), k + 1)
  }

  /** What is read from the log of these banks. */
  ghost function ReadBack(h: HashFunction, banks: seq<Bank>): (es: seq<Logged>)
    requires ValidBanks(banks)
    ensures |es| == |Slots(banks)|
  {
    RefreshedAllValid(h, banks);
    RefreshKeepsSlots(h, banks, |banks|);
    AllLogged(RefreshedAll(h, banks), |Slots(banks)|)
  }

  /** A verifier that knows only the bytes of the log reads every measurement back, finds each extended value by
      replaying the digests it read, and ends at the value of each PCR. */
  lemma {:induction false} ReadLogReplays(h: HashFunction, banks: seq<Bank>) returns (es: seq<Logged>)
    requires ValidBanks(banks)
    ensures ParseLog(FullAttestationLog(h, banks)) == Some(es) && |es| == |Slots(banks)|
    ensures forall k :: 0 <= k < |es| ==> Replays(h, banks, es, k)
    ensures forall p :: 0 <= p < |banks| && !banks[p].isExplicit ==>
              |banks[p].list| > 0 && Fold(h, banks[p].algo, es, p, |es|) == PcrValue(h, banks[p])
  {
    hide Replays, ParseLog, Fold, SlotsUpTo, ValidBank, PcrValue, AllLogged, LogUpTo, Refreshed;
    var target := RefreshedAll(h, banks);
    RefreshedAllValid(h, banks);
    RefreshKeepsSlots(h, banks, |banks|);
    es := ReadBack(h, banks);
    ParseNothing();
    ParseUpTo(target, |es|, [], []);
    assert LogUpTo(target, |es|) + [] == LogUpTo(target, |es|) && es + [] == es;
    forall k | 0 <= k < |es| ensures Replays(h, banks, es, k) {
      EntryReplays(h, banks, k);
    }
    forall p | 0 <= p < |banks| && !banks[p].isExplicit
      ensures |banks[p].list| > 0 && Fold(h, banks[p].algo, es, p, |es|) == PcrValue(h, banks[p])
    {
      PcrReplays(h, banks, p);
    }
  }

  lemma ParseNothing()
    ensures ParseLog([]) == Some([])
  {
  }

  lemma EntryReplays(h: HashFunction, banks: seq<Bank>, k: nat)
    requires ValidBanks(banks) && k < |Slots(banks)|
    ensures Replays(h, banks, ReadBack(h, banks), k)
  {
    hide Fold, Replay, SlotsUpTo, ValidBank, AllLogged, LoggedAt, AlgOf, PcrOf, PcrValue, Refreshed, RefreshedAll,
         Slots;
    var target := RefreshedAll(h, banks);
    RefreshedAllValid(h, banks);
    SameSlots(h, banks);
    var s := Slots(banks)[k];
    LoggedPcr(target, k);
    SameShape(h, banks, s.pcr);
    SlotNumber(target, k, s.pcr);
    LogReplays(h, banks, s.pcr, s.index);
    FoldIsReplay(h, target, ReadBack(h, banks), s.pcr, k + 1);
  }

  lemma PcrReplays(h: HashFunction, banks: seq<Bank>, p: nat)
    requires ValidBanks(banks) && p < |banks| && !banks[p].isExplicit
    ensures |banks[p].list| > 0
    ensures Fold(h, banks[p].algo, ReadBack(h, banks), p, |Slots(banks)|) == PcrValue(h, banks[p])
  {
    hide Fold, Replay, SlotsUpTo, AllLogged, LoggedAt, AlgOf, PcrOf, PcrValue, Refreshed, RefreshedAll, Slots;
    var target := RefreshedAll(h, banks);
    RefreshedAllValid(h, banks);
    SameSlots(h, banks);
    SameShape(h, banks, p);
    var n := NumMeasurements(banks[p]);
    LogReplays(h, banks, p, n - 1);
    SlotAt(target, p, n - 1);
    FoldIsReplay(h, target, ReadBack(h, banks), p, |Slots(banks)|);
  }

  lemma SameSlots(h: HashFunction, banks: seq<Bank>)
    ensures Slots(RefreshedAll(h, banks)) == Slots(banks)
  {
    RefreshKeepsSlots(h, banks, |banks|);
  }

  lemma SameShape(h: HashFunction, banks: seq<Bank>, p: nat)
    requires ValidBanks(banks) && p < |banks|
    ensures var b := RefreshedAll(h, banks)[p];
            && b.algo == banks[p].algo && NumMeasurements(b) == NumMeasurements(banks[p])
            && 1 <= |b.list| == |banks[p].list|
  {
    assert ValidBank(banks[p]);
  }
}
