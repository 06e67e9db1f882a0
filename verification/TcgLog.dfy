/** The TCG formatted log as one byte string, built from the bank values alone, and a reader for it.
    Layouts follow the TCG PC Client Platform Firmware Profile 1.05: section 10.2.2 for
    TCG_PCR_EVENT2 and section 10.4.5.1 for the Spec ID event. */
module TcgLog {
  import opened Bytes
  import opened Wrappers
  import opened HashEngines
  import opened MeasuredData
  import opened PcrBanks

  function AlgId(algo: HashAlg): nat {
    match algo
    case Sha384 => 0x0C
    case Sha512 => 0x0D
    case _ => 0x0B
  }

  /** Length of the fixed part of an entry: header, digest and event size. */
  function EntryLength(algo: HashAlg): nat { 14 + HashLength(algo) + 4 }

  /** TCG_PCR_EVENT2 up to and including the event size. */
  function Entry(pcrNum: nat, algo: HashAlg, m: Measurement, eventSize: nat): (s: seq<byte>)
    requires |m.digest| == HashLength(algo)
    ensures |s| == EntryLength(algo)
  {
    LE32(pcrNum) + LE32(m.eventType) + LE32(1) + LE16(AlgId(algo)) + m.digest + LE32(eventSize)
  }

  /** One measurement's part of the log. */
  function EntryWithData(pcrNum: nat, algo: HashAlg, m: Measurement): seq<byte>
    requires |m.digest| == HashLength(algo)
  {
    Entry(pcrNum, algo, m, |EventData(m)|) + EventData(m)
  }

  ghost predicate DigestsFit(algo: HashAlg, list: seq<Measurement>) {
    forall i :: 0 <= i < |list| ==> |list[i].digest| == HashLength(algo)
  }

  /** The entries of the first n measurements. */
  ghost function Entries(pcrNum: nat, algo: HashAlg, list: seq<Measurement>, n: nat): seq<byte>
    requires n <= |list| && DigestsFit(algo, list)
  {
    if n == 0 then [] else Entries(pcrNum, algo, list, n - 1) + EntryWithData(pcrNum, algo, list[n - 1])
  }

  /** One PCR's part of the log; an explicit PCR has none. */
  ghost function BankLog(pcrNum: nat, b: Bank): seq<byte>
    requires ValidBank(b)
  {
    if b.isExplicit then [] else Entries(pcrNum, b.algo, b.list, |b.list|)
  }

  ghost predicate ValidBanks(banks: seq<Bank>) {
    && 1 <= |banks| <= 255
    && forall i :: 0 <= i < |banks| ==> ValidBank(banks[i])
  }

  // The Spec ID event

  /** The algorithms of all banks, explicit ones too, in order of first use. */
  function Algorithms(banks: seq<Bank>): (a: seq<HashAlg>)
  {
    if banks == [] then []
    else
      var before := Algorithms(banks[..|banks| - 1]);
      var algo := banks[|banks| - 1].algo;
      if algo in before then before else before + [algo]
  }

  function AlgorithmDescriptors(algos: seq<HashAlg>): (s: seq<byte>)
    ensures |s| == 4 * |algos|
  {
    if algos == [] then []
    else
      var last := algos[|algos| - 1];
      AlgorithmDescriptors(algos[..|algos| - 1]) + LE16(AlgId(last)) + LE16(HashLength(last))
  }

  /** "Spec ID Event03" and its terminator. */
  const SIGNATURE: seq<byte> :=
    [0x53, 0x70, 0x65, 0x63, 0x20, 0x49, 0x44, 0x20, 0x45, 0x76, 0x65, 0x6E, 0x74, 0x30, 0x33, 0x00]

  /** The Spec ID event structure: server platform class, version 2.0 errata 0, 32-bit integers, the
      algorithms in use, and no vendor information. */
  function SpecIdStructure(algos: seq<HashAlg>): (s: seq<byte>)
    ensures |s| == 29 + 4 * |algos|
  {
    SIGNATURE + LE32(1) + [0, 2, 0, 1] + LE32(|algos|) + AlgorithmDescriptors(algos) + [0]
  }

  /** The SHA-1 style event header around it: PCR 0, EV_NO_ACTION, a zero digest. */
  function SpecIdHeader(eventSize: nat): (s: seq<byte>)
    ensures |s| == 32
  {
    LE32(0) + LE32(3) + Zeros(20) + LE32(eventSize)
  }

  function SpecIdEvent(banks: seq<Bank>): seq<byte> {
    var algos := Algorithms(banks);
    SpecIdHeader(29 + 4 * |algos|) + SpecIdStructure(algos)
  }

  ghost function BankLogs(banks: seq<Bank>, n: nat): seq<byte>
    requires ValidBanks(banks) && n <= |banks|
  {
    if n == 0 then [] else BankLogs(banks, n - 1) + BankLog(n - 1, banks[n - 1])
  }

  /** The whole log. */
  ghost function FullLog(banks: seq<Bank>): seq<byte>
    requires ValidBanks(banks)
  {
    SpecIdEvent(banks) + BankLogs(banks, |banks|)
  }

  /** The algorithm list has no repeats, lists exactly the algorithms in use, and is ordered by first use. */
  lemma {:induction false} AlgorithmsAreFirstUses(banks: seq<Bank>)
    ensures forall i, j :: 0 <= i < j < |Algorithms(banks)| ==> Algorithms(banks)[i] != Algorithms(banks)[j]
    ensures forall a :: a in Algorithms(banks) <==> exists k :: 0 <= k < |banks| && banks[k].algo == a
    ensures forall n :: 0 <= n <= |banks| ==> Algorithms(banks[..n]) <= Algorithms(banks)
    decreases |banks|
  {
    if banks != [] {
      var init := banks[..|banks| - 1];
      AlgorithmsAreFirstUses(init);
      var last := banks[|banks| - 1];
      assert forall k :: 0 <= k < |init| ==> init[k] == banks[k];
      forall n | 0 <= n <= |banks| ensures Algorithms(banks[..n]) <= Algorithms(banks) {
        if n < |banks| {
          assert init[..n] == banks[..n];
        } else {
          assert banks[..n] == banks;
        }
      }
      forall a ensures a in Algorithms(banks) <==> exists k :: 0 <= k < |banks| && banks[k].algo == a {
        if a in Algorithms(banks) {
          if a in Algorithms(init) {
            var k :| 0 <= k < |init| && init[k].algo == a;
            assert banks[k].algo == a;
          } else {
            assert banks[|banks| - 1].algo == a;
          }
        }
        if k :| 0 <= k < |banks| && banks[k].algo == a {
          if k < |init| {
            assert init[k].algo == a;
          }
        }
      }
    }
  }

  /** At most three algorithms can appear, so the fixed-size list in the C structure suffices. */
  lemma AlgorithmsBounded(banks: seq<Bank>)
    requires forall i :: 0 <= i < |banks| ==> ValidBank(banks[i])
    ensures |Algorithms(banks)| <= 3
    ensures forall i :: 0 <= i < |Algorithms(banks)| ==>
              Algorithms(banks)[i] == Sha256 || Algorithms(banks)[i] == Sha384 || Algorithms(banks)[i] == Sha512
  {
    AlgorithmsAreFirstUses(banks);
    var a := Algorithms(banks);
    forall i | 0 <= i < |a| ensures a[i] == Sha256 || a[i] == Sha384 || a[i] == Sha512 {
      assert a[i] in a;
      var k :| 0 <= k < |banks| && banks[k].algo == a[i];
      assert ValidBank(banks[k]);
    }
    DistinctFit(a, {Sha256, Sha384, Sha512});
  }

  lemma {:induction false} DistinctFit(a: seq<HashAlg>, s: set<HashAlg>)
    requires forall i, j :: 0 <= i < j < |a| ==> a[i] != a[j]
    requires forall i :: 0 <= i < |a| ==> a[i] in s
    ensures |a| <= |s|
    decreases |a|
  {
    if a != [] {
      var last := a[|a| - 1];
      DistinctFit(a[..|a| - 1], s - {last});
    }
  }

  // Reading the log back

  datatype Event = Event(pcrIndex: nat, eventType: nat, algId: nat, digest: seq<byte>, data: seq<byte>)

  function DigestLength(algId: nat): Option<nat> {
    if algId == 0x0B then Some(32) else if algId == 0x0C then Some(48)
    else if algId == 0x0D then Some(64) else None
  }

  /** Read one TCG_PCR_EVENT2, knowing nothing but the bytes: the event and what follows it. */
  function ParseEvent(s: seq<byte>): (r: Option<(Event, seq<byte>)>)
    ensures r.Some? ==> |r.value.1| < |s|
  {
    if |s| < 14 || FromLE32(s[8..12]) != 1 then None
    else
      var algId := FromLE16(s[12..14]);
      var len := DigestLength(algId);
      if len.None? || |s| < 18 + len.value then None
      else
        var size := FromLE32(s[14 + len.value..18 + len.value]);
        if |s| < 18 + len.value + size then None
        else
          Some((Event(FromLE32(s[..4]), FromLE32(s[4..8]), algId, s[14..14 + len.value],
                      s[18 + len.value..18 + len.value + size]),
                s[18 + len.value + size..]))
  }

  function ParseEvents(s: seq<byte>): Option<seq<Event>>
    decreases |s|
  {
    if s == [] then Some([])
    else
      match ParseEvent(s)
      case None => None
      case Some((event, rest)) =>
        match ParseEvents(rest)
        case None => None
        case Some(events) => Some([event] + events)
  }

  function EventOf(pcrNum: nat, algo: HashAlg, m: Measurement): Event {
    Event(pcrNum, m.eventType, AlgId(algo), m.digest, EventData(m))
  }

  /** Fields laid end to end are found again by their offsets. */
  lemma ParseFields(index: seq<byte>, eventType: seq<byte>, count: seq<byte>, algId: seq<byte>, digest: seq<byte>,
                    size: seq<byte>, data: seq<byte>, rest: seq<byte>)
    requires |index| == 4 && |eventType| == 4 && |count| == 4 && |algId| == 2 && |size| == 4
    requires FromLE32(count) == 1 && DigestLength(FromLE16(algId)) == Some(|digest|) && FromLE32(size) == |data|
    ensures ParseEvent(index + eventType + count + algId + digest + size + data + rest)
            == Some((Event(FromLE32(index), FromLE32(eventType), FromLE16(algId), digest, data), rest))
  {
    var s := index + eventType + count + algId + digest + size + data + rest;
    var n := |digest|;
    assert s[..4] == index;
    assert s[4..8] == eventType;
    assert s[8..12] == count;
    assert s[12..14] == algId;
    assert s[14..14 + n] == digest;
    assert s[14 + n..18 + n] == size;
    assert s[18 + n..18 + n + |data|] == data;
    assert s[18 + n + |data|..] == rest;
  }

  lemma ParseEntry(pcrNum: nat, algo: HashAlg, m: Measurement, rest: seq<byte>)
    requires algo == Sha256 || algo == Sha384 || algo == Sha512
    requires |m.digest| == HashLength(algo) && pcrNum < 256 && |EventData(m)| < 0x1_0000_0000
    ensures ParseEvent(EntryWithData(pcrNum, algo, m) + rest) == Some((EventOf(pcrNum, algo, m), rest))
  {
    hide ParseEvent, LE32, LE16, FromLE32, FromLE16;
    var data := EventData(m);
    LE32RoundTrip(pcrNum);
    LE32RoundTrip(m.eventType);
    LE32RoundTrip(1);
    LE16RoundTrip(AlgId(algo));
    LE32RoundTrip(|data|);
    ParseFields(LE32(pcrNum), LE32(m.eventType), LE32(1), LE16(AlgId(algo)), m.digest, LE32(|data|), data, rest);
    assert EntryWithData(pcrNum, algo, m) + rest
        == LE32(pcrNum) + LE32(m.eventType) + LE32(1) + LE16(AlgId(algo)) + m.digest + LE32(|data|) + data + rest;
  }

  lemma ParseEventsStep(s: seq<byte>, event: Event, rest: seq<byte>, events: seq<Event>)
    requires s != [] && ParseEvent(s) == Some((event, rest)) && ParseEvents(rest) == Some(events)
    ensures ParseEvents(s) == Some([event] + events)
  {
  }

  /** The events of a bank, in order. */
  ghost function BankEvents(pcrNum: nat, b: Bank): seq<Event> {
    if b.isExplicit then []
    else seq(|b.list|, i requires 0 <= i < |b.list| => EventOf(pcrNum, b.algo, b.list[i]))
  }

  ghost function AllEvents(banks: seq<Bank>, from: nat): seq<Event>
    requires from <= |banks|
    decreases |banks| - from
  {
    if from == |banks| then [] else BankEvents(from, banks[from]) + AllEvents(banks, from + 1)
  }

  ghost predicate DataFits(b: Bank) {
    forall i :: 0 <= i < |b.list| ==> |EventData(b.list[i])| < 0x1_0000_0000
  }

  lemma {:induction false} ParseBank(pcrNum: nat, b: Bank, n: nat, rest: seq<byte>, events: seq<Event>)
    requires ValidBank(b) && DataFits(b) && pcrNum < 256 && n <= |b.list| && !b.isExplicit
    requires ParseEvents(rest) == Some(events)
    ensures ParseEvents(Entries(pcrNum, b.algo, b.list, n) + rest) == Some(BankEvents(pcrNum, b)[..n] + events)
    decreases n
  {
    hide ParseEvent, EntryWithData, EventOf, EventData;
    if n == 0 {
      assert Entries(pcrNum, b.algo, b.list, 0) + rest == rest;
      assert BankEvents(pcrNum, b)[..0] + events == events;
    } else {
      var m := b.list[n - 1];
      var one := EntryWithData(pcrNum, b.algo, m);
      var event := EventOf(pcrNum, b.algo, m);
      ParseEntry(pcrNum, b.algo, m, rest);
      ParseEventsStep(one + rest, event, rest, events);
      ParseBank(pcrNum, b, n - 1, one + rest, [event] + events);
      assert Entries(pcrNum, b.algo, b.list, n) + rest == Entries(pcrNum, b.algo, b.list, n - 1) + (one + rest);
      assert BankEvents(pcrNum, b)[..n - 1] + ([event] + events) == BankEvents(pcrNum, b)[..n] + events;
    }
  }

  lemma ParseWholeBank(pcrNum: nat, b: Bank, rest: seq<byte>, events: seq<Event>)
    requires ValidBank(b) && DataFits(b) && pcrNum < 256
    requires ParseEvents(rest) == Some(events)
    ensures ParseEvents(BankLog(pcrNum, b) + rest) == Some(BankEvents(pcrNum, b) + events)
  {
    hide ParseEvent, ParseEvents;
    if b.isExplicit {
      assert BankLog(pcrNum, b) + rest == rest;
      assert BankEvents(pcrNum, b) + events == events;
    } else {
      ParseBank(pcrNum, b, |b.list|, rest, events);
      assert BankEvents(pcrNum, b)[..|b.list|] == BankEvents(pcrNum, b);
    }
  }

  /** The fixed fields of a Spec ID event: PCR 0, EV_NO_ACTION, a zero SHA-1 digest, the signature, the server platform
      class, version 2.0 errata 0 and 32-bit integers. */
  predicate StartsSpecId(s: seq<byte>) {
    && |s| >= 61 && FromLE32(s[0..4]) == 0 && FromLE32(s[4..8]) == 3
    && s[8..28] == [0, 0, 0, 0, 0, 0, 0, 0, 0, 0, 0, 0, 0, 0, 0, 0, 0, 0, 0, 0]
    && s[32..48] == [0x53, 0x70, 0x65, 0x63, 0x20, 0x49, 0x44, 0x20, 0x45, 0x76, 0x65, 0x6E, 0x74, 0x30, 0x33, 0]
    && FromLE32(s[48..52]) == 1 && s[52..56] == [0, 2, 0, 1]
  }

  /** The identifier and digest size of each algorithm. */
  function AlgorithmPairs(s: seq<byte>, count: nat): (pairs: seq<(nat, nat)>)
    requires |s| >= 4 * count
    ensures |pairs| == count
  {
    seq(count, i requires 0 <= i < count => (FromLE16(s[4 * i..4 * i + 2]), FromLE16(s[4 * i + 2..4 * i + 4])))
  }

  /** Read a Spec ID event, knowing nothing but the bytes: its algorithms, and what follows it by its own size field. */
  function ParseSpecId(s: seq<byte>): Option<(seq<(nat, nat)>, seq<byte>)> {
    if !StartsSpecId(s) then None
    else
      var size, count := FromLE32(s[28..32]), FromLE32(s[56..60]);
      if size != 29 + 4 * count || |s| < 32 + size || s[31 + size] != 0 then None
      else Some((AlgorithmPairs(s[60..60 + 4 * count], count), s[32 + size..]))
  }

  lemma {:induction false} DescriptorAt(algos: seq<HashAlg>, i: nat)
    requires i < |algos|
    ensures var d := AlgorithmDescriptors(algos);
            d[4 * i..4 * i + 2] == LE16(AlgId(algos[i])) && d[4 * i + 2..4 * i + 4] == LE16(HashLength(algos[i]))
    decreases |algos|
  {
    hide LE16;
    var n := |algos|;
    var before := AlgorithmDescriptors(algos[..n - 1]);
    var d := AlgorithmDescriptors(algos);
    if i < n - 1 {
      DescriptorAt(algos[..n - 1], i);
      assert d[4 * i..4 * i + 2] == before[4 * i..4 * i + 2] && d[4 * i + 2..4 * i + 4] == before[4 * i + 2..4 * i + 4];
    }
  }

  lemma SpecIdPieces(algos: seq<HashAlg>, rest: seq<byte>)
    ensures var n := |algos|;
            var s := SpecIdHeader(29 + 4 * n) + SpecIdStructure(algos) + rest;
            && |s| == 61 + 4 * n + |rest| && s[0..4] == LE32(0) && s[4..8] == LE32(3) && s[8..28] == Zeros(20)
            && s[28..32] == LE32(29 + 4 * n) && s[32..48] == SIGNATURE && s[48..52] == LE32(1)
            && s[52..56] == [0, 2, 0, 1] && s[56..60] == LE32(n) && s[60..60 + 4 * n] == AlgorithmDescriptors(algos)
            && s[60 + 4 * n] == 0 && s[61 + 4 * n..] == rest
  {
    hide LE32;
  }

  /** The algorithms that the event names: known ones, with the digest sizes of the banks' algorithms in that order. */
  predicate Names(pairs: seq<(nat, nat)>, algos: seq<HashAlg>) {
    && |pairs| == |algos|
    && forall i :: 0 <= i < |pairs| ==>
         DigestLength(pairs[i].0) == Some(pairs[i].1) && pairs[i].1 == HashLength(algos[i])
  }

  lemma {:induction false} PairsName(algos: seq<HashAlg>)
    requires forall i :: 0 <= i < |algos| ==> algos[i] == Sha256 || algos[i] == Sha384 || algos[i] == Sha512
    ensures Names(AlgorithmPairs(AlgorithmDescriptors(algos), |algos|), algos)
  {
    hide LE16, FromLE16, AlgorithmDescriptors;
    forall i | 0 <= i < |algos|
      ensures var p := AlgorithmPairs(AlgorithmDescriptors(algos), |algos|)[i];
              p.0 == AlgId(algos[i]) && p.1 == HashLength(algos[i])
    {
      DescriptorAt(algos, i);
      LE16RoundTrip(AlgId(algos[i]));
      LE16RoundTrip(HashLength(algos[i]));
    }
  }

  lemma {:induction false} SpecIdReadsBack(algos: seq<HashAlg>, rest: seq<byte>)
    requires |algos| <= 3
    ensures ParseSpecId(SpecIdHeader(29 + 4 * |algos|) + SpecIdStructure(algos) + rest)
            == Some((AlgorithmPairs(AlgorithmDescriptors(algos), |algos|), rest))
  {
    hide LE32, FromLE32, SpecIdHeader, SpecIdStructure, AlgorithmDescriptors, AlgorithmPairs;
    var n := |algos|;
    SpecIdPieces(algos, rest);
    LE32RoundTrip(0);
    LE32RoundTrip(3);
    LE32RoundTrip(1);
    LE32RoundTrip(n);
    LE32RoundTrip(29 + 4 * n);
    assert Zeros(20) == [0, 0, 0, 0, 0, 0, 0, 0, 0, 0, 0, 0, 0, 0, 0, 0, 0, 0, 0, 0];
  }

  lemma {:induction false} SpecIdOfBanks(banks: seq<Bank>, rest: seq<byte>)
    requires ValidBanks(banks)
    ensures var r := ParseSpecId(SpecIdEvent(banks) + rest);
            r.Some? && Names(r.value.0, Algorithms(banks)) && r.value.1 == rest
  {
    hide ParseSpecId, SpecIdHeader, SpecIdStructure, Names, ValidBank, Algorithms, AlgorithmPairs;
    AlgorithmsBounded(banks);
    PairsName(Algorithms(banks));
    SpecIdReadsBack(Algorithms(banks), rest);
  }

  /** Read a whole log: the algorithms of its Spec ID event and the events after it. */
  function ParseTcgLog(s: seq<byte>): Option<(seq<(nat, nat)>, seq<Event>)> {
    match ParseSpecId(s)
    case None => None
    case Some((pairs, rest)) =>
      match ParseEvents(rest)
      case None => None
      case Some(events) => Some((pairs, events))
  }

  /** Reading the log's bytes gives back the algorithms in use, in order of first use, and every measurement of every
      non-explicit PCR in order, with its index, type, algorithm, digest and raw event data: the log loses nothing.
      It holds whenever each event fits the format's 32-bit size field. */
  lemma {:induction false} LogReadsBack(banks: seq<Bank>)
    requires ValidBanks(banks)
    requires forall i, k :: 0 <= i < |banks| && 0 <= k < |banks[i].list| ==>
               |EventData(banks[i].list[k])| < 0x1_0000_0000
    ensures var r := ParseTcgLog(FullLog(banks));
            r.Some? && Names(r.value.0, Algorithms(banks)) && r.value.1 == AllEvents(banks, 0)
  {
    hide ParseSpecId, ParseEvents, SpecIdEvent, Names, Algorithms, EventData, ValidBank, BankEvents, BankLog;
    assert forall i :: 0 <= i < |banks| ==> DataFits(banks[i]);
    var logs := BankLogs(banks, |banks|);
    SpecIdOfBanks(banks, logs);
    ParseNoEvents();
    ParseBanks(banks, |banks|, []);
    assert logs + [] == logs;
  }

  lemma ParseNoEvents()
    ensures ParseEvents([]) == Some([])
  {
  }

  lemma {:induction false} ParseBanks(banks: seq<Bank>, n: nat, rest: seq<byte>)
    requires ValidBanks(banks) && n <= |banks|
    requires forall i :: 0 <= i < |banks| ==> DataFits(banks[i])
    requires ParseEvents(rest) == Some(AllEvents(banks, n))
    ensures ParseEvents(BankLogs(banks, n) + rest) == Some(AllEvents(banks, 0))
    decreases n
  {
    hide ParseEvent, BankLog, BankEvents;
    if n == 0 {
      assert BankLogs(banks, 0) + rest == rest;
    } else {
      var b := banks[n - 1];
      var log := BankLog(n - 1, b);
      ParseWholeBank(n - 1, b, rest, AllEvents(banks, n));
      ParseBanks(banks, n - 1, log + rest);
      assert BankLogs(banks, n) + rest == BankLogs(banks, n - 1) + (log + rest);
    }
  }
}
