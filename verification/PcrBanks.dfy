/** The value of one PCR bank, the operations that change it, and what every run of them keeps
    (core/attestation/pcr.c). */
module PcrBanks {
  import opened Bytes
  import opened Wrappers
  import opened HashEngines
  import opened MeasuredData

  datatype PcrError =
    | InvalidArgument | InvalidPcr | InvalidIndex | InvalidValueType | InvalidSequentialId
    | UnsupportedAlgo | IncorrectDigestLength | ConstantMeasurement | SmallOutputBuffer
    | MeasuredDataNotAvailable | NoHashCallback | HashFailure | DeviceFailure
    | InvalidFlashDevice | InvalidCallback | InvalidDataType

  /** measurement_config: what was hashed in front of the data, and whether it may change again. */
  datatype MeasurementConfig = MeasurementConfig(event: bool, version: bool, constant: bool)

  datatype Measurement = Measurement(
    digest: seq<byte>,
    extended: seq<byte>,
    data: Option<Data>,
    eventType: uint32,
    version: byte,
    config: MeasurementConfig,
    dmtfType: nat,
    notTcb: bool)

  datatype Bank = Bank(algo: HashAlg, isExplicit: bool, list: seq<Measurement>)

  predicate ValidMeasurement(algo: HashAlg, m: Measurement) {
    && |m.digest| == HashLength(algo)
    && |m.extended| == HashLength(algo)
    && (m.data.Some? ==> WellFormed(m.data.value))
  }

  /** What pcr_init establishes: SHA-1 is never supported, and the count is an 8-bit number. */
  predicate ValidBank(b: Bank) {
    && (b.algo == Sha256 || b.algo == Sha384 || b.algo == Sha512)
    && 1 <= |b.list| <= 255
    && (b.isExplicit ==> |b.list| == 1)
    && forall i :: 0 <= i < |b.list| ==> ValidMeasurement(b.algo, b.list[i])
  }

  const FRESH_CONFIG := MeasurementConfig(false, false, false)

  function FreshMeasurement(algo: HashAlg): Measurement {
    Measurement(Zeros(HashLength(algo)), Zeros(HashLength(algo)), None, 0, 0, FRESH_CONFIG, 0, false)
  }

  /** pcr_get_num_measurements. */
  function NumMeasurements(b: Bank): nat {
    if b.isExplicit then 0 else |b.list|
  }

  // The bytes behind a measurement

  /** The prefix that was hashed in front of the data. */
  function EventPrefix(config: MeasurementConfig, eventType: uint32, version: byte): (s: seq<byte>)
    ensures |s| <= 5
  {
    (if config.event then LE32(eventType) else []) + (if config.version then [version] else [])
  }

  /** event || version || data: everything that was measured, or nothing without a descriptor. */
  function EventData(m: Measurement): seq<byte> {
    if m.data.None? then []
    else EventPrefix(m.config, m.eventType, m.version) + Content(m.data.value)
  }

  // The hash chain

  /** The PCR after extending zeros with each digest in turn. */
  function Chain(h: HashFunction, algo: HashAlg, digests: seq<seq<byte>>): (v: seq<byte>)
    ensures |v| == HashLength(algo)
  {
    if digests == [] then Zeros(HashLength(algo))
    else h(algo, Chain(h, algo, digests[..|digests| - 1]) + digests[|digests| - 1])
  }

  function Digests(list: seq<Measurement>): (d: seq<seq<byte>>)
    ensures |d| == |list|
    ensures forall i :: 0 <= i < |d| ==> d[i] == list[i].digest
  {
    seq(|list|, i requires 0 <= i < |list| => list[i].digest)
  }

  function PcrValue(h: HashFunction, b: Bank): seq<byte>
    requires |b.list| > 0
  {
    if b.isExplicit then b.list[0].digest else Chain(h, b.algo, Digests(b.list))
  }

  /** The first n measurements with their extended values brought up to date. */
  function RefreshedList(h: HashFunction, algo: HashAlg, list: seq<Measurement>, n: nat): (r: seq<Measurement>)
    requires n <= |list|
    ensures |r| == |list|
    ensures forall i :: 0 <= i < n ==> r[i] == list[i].(extended := Chain(h, algo, Digests(list)[..i + 1]))
    ensures forall i :: n <= i < |list| ==> r[i] == list[i]
  {
    seq(|list|, i requires 0 <= i < |list| =>
      if i < n then list[i].(extended := Chain(h, algo, Digests(list)[..i + 1])) else list[i])
  }

  /** A bank after a complete pcr_compute. */
  function Refreshed(h: HashFunction, b: Bank): Bank {
    if b.isExplicit then b else b.(list := RefreshedList(h, b.algo, b.list, |b.list|))
  }

  lemma RefreshedKeepsValid(h: HashFunction, b: Bank)
    requires ValidBank(b)
    ensures ValidBank(Refreshed(h, b))
    ensures Digests(Refreshed(h, b).list) == Digests(b.list)
    ensures PcrValue(h, Refreshed(h, b)) == PcrValue(h, b)
    ensures Refreshed(h, Refreshed(h, b)) == Refreshed(h, b)
  {
    var r := Refreshed(h, b);
    assert Digests(r.list) == Digests(b.list);
    assert Refreshed(h, r).list == r.list;
  }

  // Operations

  datatype Op =
    | UpdateDigest(index: nat, digest: seq<byte>, constant: bool)
    | UpdateBuffer(index: nat, buf: seq<byte>, includeEvent: bool, version: Option<byte>, constant: bool,
                   engineWorks: bool)
    | Invalidate(index: nat)
    | Compute(extended: nat)  // how many measurements were extended before the engine failed, if it did
    | SetEventType(index: nat, eventType: uint32)
    | SetDmtfType(index: nat, dmtfType: nat, notTcb: bool)
    | SetData(index: nat, data: Option<Descriptor>)

  /** pcr_update_digest_common. */
  function StoreDigest(b: Bank, index: nat, digest: seq<byte>, config: MeasurementConfig, version: byte)
    : (Bank, Option<PcrError>)
  {
    if |digest| != HashLength(b.algo) then (b, Some(IncorrectDigestLength))
    else if index >= |b.list| then (b, Some(InvalidIndex))
    else if b.list[index].config.constant then (b, Some(ConstantMeasurement))
    else
      (b.(list := b.list[index := b.list[index].(digest := digest, config := config, version := version)]), None)
  }

  /** The bytes pcr_update_buffer_common hashes.  An index outside the bank has no event type. */
  function HashedBytes(b: Bank, index: nat, buf: seq<byte>, config: MeasurementConfig, version: byte): seq<byte> {
    EventPrefix(config, if index < |b.list| then b.list[index].eventType else 0, version) + buf
  }

  /** Why pcr_set_measurement_data refuses a descriptor, if it does. */
  function RefusedData(data: Option<Descriptor>): Option<PcrError> {
    match data
    case Some(FlashWithoutDevice) => Some(InvalidFlashDevice)
    case Some(CallbackWithoutGetter) => Some(InvalidCallback)
    case Some(UnknownType) => Some(InvalidDataType)
    case _ => None
  }

  function StoredData(data: Option<Descriptor>): Option<Data> {
    if data.Some? && data.value.Usable? then Some(data.value.data) else None
  }

  /** One operation on a bank, and its error if it fails. */
  function Apply(h: HashFunction, b: Bank, op: Op): (Bank, Option<PcrError>) {
    match op
    case UpdateDigest(index, digest, constant) =>
      StoreDigest(b, index, digest, MeasurementConfig(false, false, constant), 0)
    case UpdateBuffer(index, buf, includeEvent, version, constant, engineWorks) =>
      if !includeEvent && version.None? && buf == [] then (b, Some(InvalidArgument))
      else if !engineWorks then (b, Some(HashFailure))
      else
        var config := MeasurementConfig(includeEvent, version.Some?, constant);
        var v := if version.Some? then version.value else 0;
        StoreDigest(b, index, h(b.algo, HashedBytes(b, index, buf, config, v)), config, v)
    case Invalidate(index) =>
      if index >= |b.list| then (b, Some(InvalidIndex))
      else if b.list[index].config.constant then (b, Some(ConstantMeasurement))
      else (b.(list := b.list[index := b.list[index].(digest := Zeros(HashLength(b.algo)))]), None)
    case Compute(extended) =>
      if b.isExplicit then (b, None)
      else if extended < |b.list| then
        (b.(list := RefreshedList(h, b.algo, b.list, extended)), Some(HashFailure))
      else (Refreshed(h, b), None)
    case SetEventType(index, eventType) =>
      if index >= |b.list| then (b, Some(InvalidIndex))
      else (b.(list := b.list[index := b.list[index].(eventType := eventType)]), None)
    case SetDmtfType(index, dmtfType, notTcb) =>
      if index >= |b.list| then (b, Some(InvalidIndex))
      else if dmtfType >= 5 then (b, Some(InvalidValueType))
      else (b.(list := b.list[index := b.list[index].(dmtfType := dmtfType, notTcb := notTcb)]), None)
    case SetData(index, data) =>
      if index >= |b.list| then (b, Some(InvalidIndex))
      else if RefusedData(data).Some? then (b, RefusedData(data))
      else (b.(list := b.list[index := b.list[index].(data := StoredData(data))]), None)
  }

  // What an operation does, field by field

  /** What success stores in the measurement it is about. */
  ghost predicate Stored(h: HashFunction, algo: HashAlg, op: Op, m: Measurement, m': Measurement) {
    match op
    case UpdateDigest(_, digest, constant) =>
      m' == m.(digest := digest, config := MeasurementConfig(false, false, constant), version := 0)
    case UpdateBuffer(_, buf, includeEvent, version, constant, _) =>
      && m'.digest == h(algo, (if includeEvent then LE32(m.eventType) else [])
                              + ((if version.Some? then [version.value] else []) + buf))
      && m'.config.event == includeEvent && m'.config.version == version.Some? && m'.config.constant == constant
      && m'.version == (if version.Some? then version.value else 0)
      && m' == m.(digest := m'.digest, config := m'.config, version := m'.version)
    case Invalidate(_) =>
      && m' == m.(digest := m'.digest) && |m'.digest| == HashLength(algo)
      && forall j :: 0 <= j < |m'.digest| ==> m'.digest[j] == 0
    case SetEventType(_, eventType) => m' == m.(eventType := eventType)
    case SetDmtfType(_, dmtfType, notTcb) => m' == m.(dmtfType := dmtfType, notTcb := notTcb)
    case SetData(_, data) =>
      && m' == m.(data := m'.data)
      && (m'.data == None <==> data == None)
      && (m'.data.Some? ==> data == Some(Usable(m'.data.value)))
    case Compute(_) => m' == m.(extended := m'.extended)
  }

  /** A successful operation stores exactly that in the measurement it names, and changes nothing else. */
  lemma SuccessStores(h: HashFunction, b: Bank, op: Op)
    requires Apply(h, b, op).1 == None && !op.Compute?
    ensures var b' := Apply(h, b, op).0;
            && op.index < |b.list| == |b'.list| && b'.algo == b.algo && b'.isExplicit == b.isExplicit
            && Stored(h, b.algo, op, b.list[op.index], b'.list[op.index])
            && forall k :: 0 <= k < |b.list| && k != op.index ==> b'.list[k] == b.list[k]
  {
    hide LE32;
    if op.UpdateBuffer? {
      var e: seq<byte> := if op.includeEvent then LE32(b.list[op.index].eventType) else [];
      var v: seq<byte> := if op.version.Some? then [op.version.value] else [];
      assert e + v + op.buf == e + (v + op.buf);
    }
  }

  /** Why an operation fails: the first reason that applies. */
  lemma FailureMeans(h: HashFunction, b: Bank, op: Op)
    ensures var e := Apply(h, b, op).1;
            match op
            case UpdateDigest(index, digest, _) =>
              && (e == Some(IncorrectDigestLength) <==> |digest| != HashLength(b.algo))
              && (e == Some(InvalidIndex) <==> |digest| == HashLength(b.algo) && index >= |b.list|)
              && (e == None <==> |digest| == HashLength(b.algo) && index < |b.list| && !b.list[index].config.constant)
              && (e.Some? ==> e.value in {IncorrectDigestLength, InvalidIndex, ConstantMeasurement})
            case UpdateBuffer(index, buf, includeEvent, version, _, works) =>
              && (e == Some(InvalidArgument) <==> buf == [] && !includeEvent && version == None)
              && (e == Some(HashFailure) <==> !works && !(buf == [] && !includeEvent && version == None))
              && (e == None ==> works && index < |b.list| && !b.list[index].config.constant)
              && (works && (buf != [] || includeEvent || version.Some?) ==>
                    && (e == Some(InvalidIndex) <==> index >= |b.list|)
                    && (e == Some(ConstantMeasurement) <==> index < |b.list| && b.list[index].config.constant))
            case Invalidate(index) =>
              && (e == Some(InvalidIndex) <==> index >= |b.list|)
              && (e == Some(ConstantMeasurement) <==> index < |b.list| && b.list[index].config.constant)
              && (e == None <==> index < |b.list| && !b.list[index].config.constant)
            case Compute(extended) =>
              && (e == Some(HashFailure) <==> !b.isExplicit && extended < |b.list|)
              && (e == None <==> b.isExplicit || extended >= |b.list|)
            case SetEventType(index, _) =>
              e == if index < |b.list| then None else Some(InvalidIndex)
            case SetDmtfType(index, dmtfType, _) =>
              e == if index >= |b.list| then Some(InvalidIndex)
                   else if dmtfType < 5 then None else Some(InvalidValueType)
            case SetData(index, data) =>
              && (e == Some(InvalidIndex) <==> index >= |b.list|)
              && (index < |b.list| ==>
                    && (e == Some(InvalidFlashDevice) <==> data == Some(FlashWithoutDevice))
                    && (e == Some(InvalidCallback) <==> data == Some(CallbackWithoutGetter))
                    && (e == Some(InvalidDataType) <==> data == Some(UnknownType))
                    && (e == None <==> data == None || data.value.Usable?))
  {
  }

  // Runs

  function Run(h: HashFunction, b: Bank, ops: seq<Op>): Bank
    decreases |ops|
  {
    if ops == [] then b else Run(h, Apply(h, b, ops[0]).0, ops[1..])
  }

  /** The protected part of a measurement: its digest, flags and version. */
  function Sealed(m: Measurement): (seq<byte>, MeasurementConfig, byte) {
    (m.digest, m.config, m.version)
  }

  predicate IsConstUpdate(op: Op) {
    (op.UpdateDigest? || op.UpdateBuffer?) && op.constant
  }

  lemma SuccessfulConstUpdateFreezes(h: HashFunction, b: Bank, op: Op)
    requires IsConstUpdate(op) && Apply(h, b, op).1 == None
    ensures op.index < |Apply(h, b, op).0.list|
    ensures Apply(h, b, op).0.list[op.index].config.constant
  {
  }

  lemma StepKeepsFrozen(h: HashFunction, b: Bank, op: Op, k: nat)
    requires k < |b.list| && b.list[k].config.constant
    ensures |Apply(h, b, op).0.list| == |b.list|
    ensures Sealed(Apply(h, b, op).0.list[k]) == Sealed(b.list[k])
  {
  }

  lemma {:induction false} RunKeepsFrozen(h: HashFunction, b: Bank, ops: seq<Op>, k: nat)
    requires k < |b.list| && b.list[k].config.constant
    ensures |Run(h, b, ops).list| == |b.list|
    ensures Sealed(Run(h, b, ops).list[k]) == Sealed(b.list[k])
    decreases |ops|
  {
    if ops != [] {
      StepKeepsFrozen(h, b, ops[0], k);
      RunKeepsFrozen(h, Apply(h, b, ops[0]).0, ops[1..], k);
    }
  }

  /** Over every run: once a const update of a measurement succeeds, its digest, flags and version
      never change again, whatever operations come before and after. */
  lemma ConstUpdateIsForever(h: HashFunction, b: Bank, before: seq<Op>, op: Op, after: seq<Op>)
    requires IsConstUpdate(op) && Apply(h, Run(h, b, before), op).1 == None
    ensures var updated := Apply(h, Run(h, b, before), op).0;
            var now := Run(h, b, before + [op] + after);
            && op.index < |updated.list| == |now.list|
            && Sealed(now.list[op.index]) == Sealed(updated.list[op.index])
  {
    var mid := Run(h, b, before);
    SuccessfulConstUpdateFreezes(h, mid, op);
    RunKeepsFrozen(h, Apply(h, mid, op).0, after, op.index);
    RunAppend(h, b, before + [op], after);
    RunAppend(h, b, before, [op]);
    assert Run(h, mid, [op]) == Apply(h, mid, op).0;
  }

  lemma {:induction false} RunAppend(h: HashFunction, b: Bank, xs: seq<Op>, ys: seq<Op>)
    ensures Run(h, b, xs + ys) == Run(h, Run(h, b, xs), ys)
    decreases |xs|
  {
    if xs == [] {
      assert xs + ys == ys;
    } else {
      assert (xs + ys)[1..] == xs[1..] + ys;
      RunAppend(h, Apply(h, b, xs[0]).0, xs[1..], ys);
    }
  }

  /** An operation that fails leaves the digest, flags and version of every measurement alone. */
  lemma FailureChangesNothingSealed(h: HashFunction, b: Bank, op: Op)
    requires Apply(h, b, op).1.Some?
    ensures |Apply(h, b, op).0.list| == |b.list|
    ensures forall k :: 0 <= k < |b.list| ==> Sealed(Apply(h, b, op).0.list[k]) == Sealed(b.list[k])
    ensures !op.Compute? ==> Apply(h, b, op).0 == b
  {
  }

  /** Every change of a sealed part is the successful update or invalidation of that very measurement. */
  lemma OnlyTheTargetChanges(h: HashFunction, b: Bank, op: Op, k: nat)
    requires k < |b.list| && k < |Apply(h, b, op).0.list|
    requires Sealed(Apply(h, b, op).0.list[k]) != Sealed(b.list[k])
    ensures op.UpdateDigest? || op.UpdateBuffer? || op.Invalidate?
    ensures op.index == k && Apply(h, b, op).1 == None && !b.list[k].config.constant
  {
  }

  /** A successful buffer update of data that the measurement's descriptor also describes makes the
      stored digest the hash of exactly the event data that the log will carry. */
  lemma UpdateMatchesLoggedData(h: HashFunction, b: Bank, op: Op)
    requires op.UpdateBuffer? && Apply(h, b, op).1 == None
    requires op.index < |b.list| && b.list[op.index].data.Some? && Content(b.list[op.index].data.value) == op.buf
    ensures op.index < |Apply(h, b, op).0.list|
    ensures var m := Apply(h, b, op).0.list[op.index];
            m.digest == h(b.algo, EventData(m))
  {
  }

  // What a freeze does not cover

  /** The operations that change the logged event data of a frozen measurement k: a new event type where it is part
      of that data, and a descriptor of other data. */
  predicate ChangesEventData(m: Measurement, op: Op, k: nat) {
    match op
    case SetEventType(index, eventType) =>
      index == k && m.data.Some? && m.config.event && eventType != m.eventType
    case SetData(index, data) =>
      && index == k && RefusedData(data) == None
      && var d := StoredData(data);
         if m.data.Some? && d.Some? then Content(d.value) != Content(m.data.value)
         else if d.Some? then !Unlogged(m.config, d.value)
         else m.data.Some? && !Unlogged(m.config, m.data.value)
    case _ => false
  }

  /** Nothing is logged for the data, not even a prefix. */
  predicate Unlogged(config: MeasurementConfig, d: Data) {
    !config.event && !config.version && Content(d) == []
  }

  lemma NewEventTypeShows(m: Measurement, eventType: uint32)
    ensures EventData(m.(eventType := eventType)) != EventData(m)
            <==> m.data.Some? && m.config.event && eventType != m.eventType
  {
    hide Content, LE32;
    LE32RoundTrip(eventType);
    LE32RoundTrip(m.eventType);
    if m.data.Some? && m.config.event {
      assert EventData(m)[..4] == LE32(m.eventType);
      assert EventData(m.(eventType := eventType))[..4] == LE32(eventType);
    }
  }

  lemma NewDataShows(m: Measurement, d: Option<Data>)
    ensures EventData(m.(data := d)) != EventData(m)
            <==> if m.data.Some? && d.Some? then Content(d.value) != Content(m.data.value)
                 else if d.Some? then !Unlogged(m.config, d.value)
                 else m.data.Some? && !Unlogged(m.config, m.data.value)
  {
    hide Content, LE32;
    if m.data.Some? && d.Some? {
      var p := EventPrefix(m.config, m.eventType, m.version);
      assert (p + Content(m.data.value))[|p|..] == Content(m.data.value);
      assert (p + Content(d.value))[|p|..] == Content(d.value);
    }
  }

  /** One operation changes the logged event data of a frozen measurement if and only if it is one of those. */
  lemma FrozenEventDataChanges(h: HashFunction, b: Bank, op: Op, k: nat)
    requires k < |b.list| && b.list[k].config.constant
    ensures |Apply(h, b, op).0.list| == |b.list|
    ensures EventData(Apply(h, b, op).0.list[k]) != EventData(b.list[k]) <==> ChangesEventData(b.list[k], op, k)
  {
    hide Content, EventPrefix, Unlogged;
    StepKeepsFrozen(h, b, op, k);
    if op.SetEventType? {
      NewEventTypeShows(b.list[k], op.eventType);
    } else if op.SetData? {
      NewDataShows(b.list[k], StoredData(op.data));
    }
  }

  /** No operation of the run changes the logged event data of measurement k. */
  predicate Quiet(h: HashFunction, b: Bank, ops: seq<Op>, k: nat)
    decreases |ops|
  {
    ops == []
    || (k < |b.list| && !ChangesEventData(b.list[k], ops[0], k) && Quiet(h, Apply(h, b, ops[0]).0, ops[1..], k))
  }

  lemma {:induction false} QuietKeepsEventData(h: HashFunction, b: Bank, ops: seq<Op>, k: nat)
    requires k < |b.list| && b.list[k].config.constant && Quiet(h, b, ops, k)
    ensures k < |Run(h, b, ops).list| && EventData(Run(h, b, ops).list[k]) == EventData(b.list[k])
    ensures Run(h, b, ops).algo == b.algo
    decreases |ops|
  {
    hide EventData, ChangesEventData;
    if ops != [] {
      FrozenEventDataChanges(h, b, ops[0], k);
      StepKeepsFrozen(h, b, ops[0], k);
      QuietKeepsEventData(h, Apply(h, b, ops[0]).0, ops[1..], k);
    }
  }

  /** After a constant update from the described data, the digest stays the hash of the logged event data along every
      run without one of those operations. */
  lemma FrozenDigestMatchesLog(h: HashFunction, b: Bank, op: Op, after: seq<Op>)
    requires op.UpdateBuffer? && op.constant && Apply(h, b, op).1 == None
    requires op.index < |b.list| && b.list[op.index].data.Some? && Content(b.list[op.index].data.value) == op.buf
    requires Quiet(h, Apply(h, b, op).0, after, op.index)
    ensures var now := Run(h, Apply(h, b, op).0, after);
            op.index < |now.list| && now.list[op.index].digest == h(b.algo, EventData(now.list[op.index]))
  {
    hide EventData, Quiet, Run;
    var frozen := Apply(h, b, op).0;
    UpdateMatchesLoggedData(h, b, op);
    SuccessfulConstUpdateFreezes(h, b, op);
    QuietKeepsEventData(h, frozen, after, op.index);
    RunKeepsFrozen(h, frozen, after, op.index);
  }

  /** Both kinds of operation do succeed on a frozen measurement, and leave its digest the hash of other data. */
  lemma FrozenEventDataCanChange(h: HashFunction)
    ensures var d := Value1(7);
            var b := Bank(Sha256, false, [FreshMeasurement(Sha256).(data := Some(d))]);
            var (frozen, error) := Apply(h, b, UpdateBuffer(0, Content(d), true, None, true, true));
            && error == None && |frozen.list| == 1 && frozen.list[0].config.constant
            && frozen.list[0].digest == h(Sha256, EventData(frozen.list[0]))
            && LosesEventData(h, frozen, SetEventType(0, 1))
            && LosesEventData(h, frozen, SetData(0, Some(Usable(Value1(8)))))
  {
    hide LE32;
    var d := Value1(7);
    var b := Bank(Sha256, false, [FreshMeasurement(Sha256).(data := Some(d))]);
    var frozen := Apply(h, b, UpdateBuffer(0, Content(d), true, None, true, true)).0;
    FrozenEventDataChanges(h, frozen, SetEventType(0, 1), 0);
    assert Content(Value1(8))[0] != Content(d)[0];
    FrozenEventDataChanges(h, frozen, SetData(0, Some(Usable(Value1(8)))), 0);
  }

  predicate LosesEventData(h: HashFunction, b: Bank, op: Op) {
    var (later, error) := Apply(h, b, op);
    && error == None && |later.list| == |b.list| == 1
    && later.list[0].digest == b.list[0].digest && EventData(later.list[0]) != EventData(b.list[0])
  }
}
