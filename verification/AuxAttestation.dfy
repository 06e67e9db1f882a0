/** Unsealing: the HMAC gate, the sealing policy against the PCRs and the key that is only derived past both
    (aux_attestation_unseal in core/attestation/aux_attestation.c). */
module AuxAttestation {
  import opened Bytes
  import opened Wrappers
  import opened HashEngines
  import opened PcrBanks
  import opened TcgLog
  import opened AttestationLog
  import opened PcrStores

  datatype UnsealError =
    | InvalidArgument | UnsupportedKeyLength | UnsupportedHmac | BufferTooSmall | BadSeedParam | UnknownSeed
    | SeedFailure | KdfFailure | HmacFailure | HmacMismatch | PcrLengthMismatch | PcrMismatch
    | PcrFailure(pcr: PcrError)

  const KEY_256BIT: nat := 32
  const SEALING_LENGTH: nat := 64

  /** The key derivation and HMAC functions behind fallible engines; they are otherwise arbitrary. */
  datatype Crypto = Crypto(kdf: (seq<byte>, string) -> seq<byte>, hmac: (seq<byte>, seq<byte>) -> seq<byte>,
                           reliable: bool)

  // The policy

  predicate AllZero(s: seq<byte>) {
    forall j :: 0 <= j < |s| ==> s[j] == 0
  }

  /** A sealing entry is satisfied when it is all zeros, or is the PCR's current value behind zeros.  A PCR the
      device lacks can only be bypassed. */
  ghost predicate EntryMatches(h: HashFunction, banks: seq<Bank>, p: nat, sealing: seq<byte>)
    requires ValidBanks(banks) && |sealing| == SEALING_LENGTH
  {
    || AllZero(sealing)
    || (p < |banks| && PolicyValue(h, banks[p]) == sealing)
  }

  ghost function PolicyValue(h: HashFunction, b: Bank): (v: seq<byte>)
    requires ValidBank(b)
    ensures |v| == SEALING_LENGTH
  {
    PcrValueLength(h, b);
    Zeros(SEALING_LENGTH - HashLength(b.algo)) + PcrValue(h, b)
  }

  lemma PcrValueLength(h: HashFunction, b: Bank)
    requires ValidBank(b)
    ensures |b.list| > 0 && |PcrValue(h, b)| == HashLength(b.algo) <= SEALING_LENGTH
  {
  }

  predicate ValidSealing(sealing: seq<seq<byte>>) {
    forall i :: 0 <= i < |sealing| ==> |sealing[i]| == SEALING_LENGTH
  }

  /** Entry i is checked against the PCR whose 8-bit number is i. */
  ghost predicate PolicyHolds(h: HashFunction, banks: seq<Bank>, sealing: seq<seq<byte>>)
    requires ValidBanks(banks) && ValidSealing(sealing)
  {
    forall i :: 0 <= i < |sealing| ==> EntryMatches(h, banks, i % 256, sealing[i])
  }

  /** The policy as it is meant: entry i is checked against PCR i. */
  ghost predicate PolicyByPcr(h: HashFunction, banks: seq<Bank>, sealing: seq<seq<byte>>)
    requires ValidBanks(banks) && ValidSealing(sealing)
  {
    forall i :: 0 <= i < |sealing| ==> EntryMatches(h, banks, i, sealing[i])
  }

  /** The two are the same for every policy of n entries if and only if n is at most 256, as the protocol's five are. */
  lemma PolicyIsByPcr(n: nat)
    ensures (forall h: HashFunction, banks: seq<Bank>, sealing: seq<seq<byte>> ::
               ValidBanks(banks) && ValidSealing(sealing) && |sealing| == n ==>
                 (PolicyHolds(h, banks, sealing) <==> PolicyByPcr(h, banks, sealing)))
            <==> n <= 256
  {
    hide PolicyHolds, PolicyByPcr, ValidBanks, ValidSealing;
    if n <= 256 {
      forall h: HashFunction, banks: seq<Bank>, sealing: seq<seq<byte>>
        | ValidBanks(banks) && ValidSealing(sealing) && |sealing| == n
        ensures PolicyHolds(h, banks, sealing) <==> PolicyByPcr(h, banks, sealing)
      {
        ShortPolicy(h, banks, sealing);
      }
    } else {
      var h: HashFunction := (a: HashAlg, s: seq<byte>) => Zeros(HashLength(a));
      var banks, sealing := LongPolicy(h, n);
      assert !(PolicyHolds(h, banks, sealing) <==> PolicyByPcr(h, banks, sealing));
    }
  }

  lemma ShortPolicy(h: HashFunction, banks: seq<Bank>, sealing: seq<seq<byte>>)
    requires ValidBanks(banks) && ValidSealing(sealing) && |sealing| <= 256
    ensures PolicyHolds(h, banks, sealing) <==> PolicyByPcr(h, banks, sealing)
  {
    hide EntryMatches;
    assert forall i :: 0 <= i < |sealing| ==> i % 256 == i;
    if PolicyByPcr(h, banks, sealing) {
      forall i | 0 <= i < |sealing| ensures EntryMatches(h, banks, i % 256, sealing[i]) {
        assert EntryMatches(h, banks, i, sealing[i]);
      }
    }
    if PolicyHolds(h, banks, sealing) {
      forall i | 0 <= i < |sealing| ensures EntryMatches(h, banks, i, sealing[i]) {
        assert EntryMatches(h, banks, i % 256, sealing[i]);
      }
    }
  }

  /** A device with one PCR: entry 256 asks for the value of PCR 0 and passes, although there is no PCR 256. */
  lemma LongPolicy(h: HashFunction, n: nat) returns (banks: seq<Bank>, sealing: seq<seq<byte>>)
    requires n > 256
    ensures ValidBanks(banks) && ValidSealing(sealing) && |sealing| == n
    ensures PolicyHolds(h, banks, sealing) && !PolicyByPcr(h, banks, sealing)
  {
    var m := FreshMeasurement(Sha256).(digest := seq(HashLength(Sha256), _ => 1));
    banks := [Bank(Sha256, true, [m])];
    assert ValidBank(banks[0]);
    var value := PolicyValue(h, banks[0]);
    sealing := seq(n, _ => Zeros(SEALING_LENGTH));
    sealing := sealing[256 := value];
    assert forall i :: 0 <= i < n && i != 256 ==> sealing[i] == Zeros(SEALING_LENGTH);
    assert value[SEALING_LENGTH - 1] == 1;
    forall i | 0 <= i < n ensures EntryMatches(h, banks, i % 256, sealing[i]) {
      assert i != 256 ==> AllZero(sealing[i]);
    }
    assert !EntryMatches(h, banks, 256, sealing[256]);
  }

  lemma SamePolicyValue(h: HashFunction, b: Bank, b': Bank)
    requires ValidBank(b) && ValidBank(b') && SameButExtended(b, b')
    ensures PolicyValue(h, b') == PolicyValue(h, b)
    ensures PcrValue(h, b') == PcrValue(h, b)
  {
    assert Digests(b'.list) == Digests(b.list);
  }

  // One entry

  /** The scan for a non-zero byte: whether the entry is bypassed, or fails because a byte is set in the part that a
      shorter digest does not use. */
  method ScanEntry(sealing: seq<byte>, pcrLength: nat) returns (bypass: bool, tooLong: bool)
    requires |sealing| == SEALING_LENGTH && pcrLength <= SEALING_LENGTH
    ensures tooLong <==> !AllZero(sealing[..SEALING_LENGTH - pcrLength])
    ensures !tooLong ==> (bypass <==> AllZero(sealing))
  {
    var j := 0;
    bypass, tooLong := true, false;
    while bypass && j < SEALING_LENGTH
      invariant 0 <= j <= SEALING_LENGTH
      invariant bypass ==> AllZero(sealing[..j])
      invariant !bypass ==> 0 < j && sealing[j - 1] != 0 && AllZero(sealing[..j - 1])
      invariant !bypass ==> j - 1 >= SEALING_LENGTH - pcrLength
      decreases SEALING_LENGTH - j
    {
      if sealing[j] != 0 {
        if j < SEALING_LENGTH - pcrLength {
          assert sealing[..SEALING_LENGTH - pcrLength][j] != 0;
          return false, true;
        }
        bypass := false;
      }
      j := j + 1;
    }
    if bypass {
      assert sealing[..j] == sealing;
    } else {
      ghost var k := j - 1;
      assert forall i :: 0 <= i < SEALING_LENGTH - pcrLength ==>
          sealing[..SEALING_LENGTH - pcrLength][i] == sealing[..k][i];
    }
  }

  lemma SplitEntry(sealing: seq<byte>, value: seq<byte>)
    requires |sealing| == SEALING_LENGTH && |value| <= SEALING_LENGTH
    ensures var n := SEALING_LENGTH - |value|;
            Zeros(n) + value == sealing <==> AllZero(sealing[..n]) && sealing[n..] == value
  {
    var n := SEALING_LENGTH - |value|;
    if AllZero(sealing[..n]) && sealing[n..] == value {
      assert sealing == sealing[..n] + sealing[n..];
      assert sealing[..n] == Zeros(n);
    }
    if Zeros(n) + value == sealing {
      assert sealing[..n] == Zeros(n) && sealing[n..] == value;
    }
  }

  /** One round of the policy loop. */
  method CheckEntry(store: PcrStore, hash: HashEngine, i: nat, sealing: seq<byte>) returns (error: Option<UnsealError>)
    requires store.Valid() && hash.active == None && |sealing| == SEALING_LENGTH
    modifies store.pcrs, hash
    ensures store.Valid() && hash.active == None
    ensures forall p :: 0 <= p < |store.pcrs| ==> SameButExtended(old(store.Banks())[p], store.Banks()[p])
    ensures error == None ==> EntryMatches(hash.H, old(store.Banks()), i % 256, sealing)
    ensures hash.reliable && EntryMatches(hash.H, old(store.Banks()), i % 256, sealing) ==> error == None
    ensures error.Some? ==> error.value.PcrLengthMismatch? || error.value.PcrMismatch? || error.value.PcrFailure?
    ensures i % 256 >= |store.pcrs| && !AllZero(sealing) ==> error == Some(PcrFailure(InvalidPcr))
    ensures error == Some(PcrLengthMismatch)
            <==> i % 256 < |store.pcrs| && !AllZero(sealing[..64 - HashLength(store.pcrs[i % 256].algo)])
    ensures error == Some(PcrMismatch) ==> i % 256 < |store.pcrs| && !AllZero(sealing)
    ensures hash.reliable && i % 256 < |store.pcrs| ==> !error.Some? || !error.value.PcrFailure?
  {
    hide SameButExtended, PcrValue, ValidBank, AllZero;
    ghost var banks := store.Banks();
    SameAsItself(banks);
    var p: byte := i % 256;
    var length := store.GetPcrDigestLength(p);
    var pcrLength := if length.Ok? then length.value else SEALING_LENGTH;
    if length.Ok? {
      PcrValueLength(hash.H, banks[p]);
      SplitEntry(sealing, PcrValue(hash.H, banks[p]));
    }
    var bypass, tooLong := ScanEntry(sealing, pcrLength);
    ZeroPrefix(sealing, SEALING_LENGTH - pcrLength);
    if tooLong {
      return Some(PcrLengthMismatch);
    }
    if bypass {
      return None;
    }
    var value := store.ComputePcr(hash, p, 64);
    if value.Err? {
      return Some(PcrFailure(value.error));
    }
    if value.value != sealing[SEALING_LENGTH - pcrLength..] {
      return Some(PcrMismatch);
    }
    error := None;
  }

  lemma ZeroPrefix(s: seq<byte>, n: nat)
    requires n <= |s|
    ensures AllZero(s) ==> AllZero(s[..n])
    ensures n == 0 ==> AllZero(s[..n])
  {
  }

  /** The policy loop. */
  method CheckPolicy(store: PcrStore, hash: HashEngine, sealing: seq<seq<byte>>) returns (error: Option<UnsealError>)
    requires store.Valid() && hash.active == None && ValidSealing(sealing)
    modifies store.pcrs, hash
    ensures store.Valid() && hash.active == None
    ensures forall p :: 0 <= p < |store.pcrs| ==> SameButExtended(old(store.Banks())[p], store.Banks()[p])
    ensures error == None ==> PolicyHolds(hash.H, old(store.Banks()), sealing)
    ensures hash.reliable && PolicyHolds(hash.H, old(store.Banks()), sealing) ==> error == None
    ensures error.Some? ==> error.value.PcrLengthMismatch? || error.value.PcrMismatch? || error.value.PcrFailure?
  {
    hide SameButExtended, EntryMatches, ValidBank;
    ghost var banks := store.Banks();
    SameAsItself(banks);
    for i := 0 to |sealing|
      invariant store.Valid() && hash.active == None
      invariant forall p :: 0 <= p < |store.pcrs| ==> SameButExtended(banks[p], store.Banks()[p])
      invariant forall k :: 0 <= k < i ==> EntryMatches(hash.H, banks, k % 256, sealing[k])
    {
      ghost var before := store.Banks();
      SameEntry(hash.H, banks, before, i % 256, sealing[i]);
      error := CheckEntry(store, hash, i, sealing[i]);
      SameTransitive(banks, before, store.Banks());
      if error.Some? {
        return;
      }
    }
    error := None;
  }

  lemma SameEntry(h: HashFunction, banks: seq<Bank>, now: seq<Bank>, p: nat, sealing: seq<byte>)
    requires ValidBanks(banks) && ValidBanks(now) && |banks| == |now| && |sealing| == SEALING_LENGTH
    requires forall q :: 0 <= q < |banks| ==> SameButExtended(banks[q], now[q])
    ensures EntryMatches(h, now, p, sealing) <==> EntryMatches(h, banks, p, sealing)
  {
    hide SameButExtended, PolicyValue, AllZero;
    if p < |banks| {
      SamePolicyValue(h, banks[p], now[p]);
    }
  }

  lemma SameTransitive(a: seq<Bank>, b: seq<Bank>, c: seq<Bank>)
    requires |a| == |b| == |c|
    requires forall q :: 0 <= q < |a| ==> SameButExtended(a[q], b[q])
    requires forall q :: 0 <= q < |a| ==> SameButExtended(b[q], c[q])
    ensures forall q :: 0 <= q < |a| ==> SameButExtended(a[q], c[q])
  {
    forall q | 0 <= q < |a| ensures SameButExtended(a[q], c[q]) {
      assert SameButExtended(a[q], b[q]) && SameButExtended(b[q], c[q]);
    }
  }

  // The whole operation

  /** The HMAC over ciphertext and sealing under the key derived for signing. */
  function PayloadHmac(crypto: Crypto, secret: seq<byte>, ciphertext: seq<byte>, sealing: seq<seq<byte>>): seq<byte> {
    crypto.hmac(crypto.kdf(secret, "signing key"), ciphertext + Concat(sealing))
  }

  method DeriveKey(crypto: Crypto, secret: seq<byte>, purpose: string) returns (key: Option<seq<byte>>)
    ensures key.Some? ==> key.value == crypto.kdf(secret, purpose)
    ensures crypto.reliable ==> key.Some?
  {
    var fault: bool := *;
    key := if crypto.reliable || !fault then Some(crypto.kdf(secret, purpose)) else None;
  }

  method ComputeHmac(crypto: Crypto, key: seq<byte>, data: seq<byte>) returns (mac: Option<seq<byte>>)
    ensures mac.Some? ==> mac.value == crypto.hmac(key, data)
    ensures crypto.reliable ==> mac.Some?
  {
    var fault: bool := *;
    mac := if crypto.reliable || !fault then Some(crypto.hmac(key, data)) else None;
  }

  /** Whether a seed type and parameter are ones that can be used, and the error if not. */
  function SeedError(seedType: nat, seedParam: nat): Option<UnsealError> {
    match seedType
    case 0 => if seedParam == 1 || seedParam == 2 then None else Some(BadSeedParam)
    case 1 => if seedParam == 0 || seedParam == 1 then None else Some(BadSeedParam)
    case _ => Some(UnknownSeed)
  }

  datatype Request = Request(
    seed: seq<byte>, seedType: nat, seedParam: nat, hmac: seq<byte>, ciphertext: seq<byte>, sealing: seq<seq<byte>>)

  /** What is rejected before any cryptography. */
  function ArgumentError(q: Request, keyLength: nat, hmacIsSha256: bool, room: nat): Option<UnsealError> {
    if q.seed == [] || q.ciphertext == [] || q.sealing == [] then Some(UnsealError.InvalidArgument)
    else if keyLength != KEY_256BIT then Some(UnsupportedKeyLength)
    else if !hmacIsSha256 then Some(UnsupportedHmac)
    else if room < KEY_256BIT then Some(BufferTooSmall)
    else SeedError(q.seedType, q.seedParam)
  }

  /** What can be unsealed, said outright: a 256-bit key under a SHA-256 HMAC, with an RSA seed in OAEP padding or an
      ECDH seed, raw or hashed. */
  predicate Acceptable(q: Request, keyLength: nat, hmacIsSha256: bool, room: nat) {
    && q.seed != [] && q.ciphertext != [] && q.sealing != [] && keyLength == 32 && hmacIsSha256 && room >= 32
    && ((q.seedType == 0 && q.seedParam in {1, 2}) || (q.seedType == 1 && q.seedParam in {0, 1}))
  }

  /** Nothing else is accepted, and each refusal has its own error: the first that applies. */
  lemma ArgumentErrorMeans(q: Request, keyLength: nat, hmacIsSha256: bool, room: nat)
    ensures var e := ArgumentError(q, keyLength, hmacIsSha256, room);
            var present := q.seed != [] && q.ciphertext != [] && q.sealing != [];
            && (e == None <==> Acceptable(q, keyLength, hmacIsSha256, room))
            && (e == Some(UnsealError.InvalidArgument) <==> !present)
            && (e == Some(UnsupportedKeyLength) <==> present && keyLength != 32)
            && (e == Some(UnsupportedHmac) <==> present && keyLength == 32 && !hmacIsSha256)
            && (e == Some(BufferTooSmall) <==> present && keyLength == 32 && hmacIsSha256 && room < 32)
            && (e == Some(UnknownSeed) <==>
                  present && keyLength == 32 && hmacIsSha256 && room >= 32 && q.seedType > 1)
            && (e == Some(BadSeedParam) <==>
                  present && keyLength == 32 && hmacIsSha256 && room >= 32
                  && ((q.seedType == 0 && q.seedParam !in {1, 2}) || (q.seedType == 1 && q.seedParam > 1)))
  {
  }

  /** aux_attestation_unseal.  `secret` is what decrypting the seed or the key agreement gave, or None if that
      failed. */
  method Unseal(store: PcrStore, hash: HashEngine, crypto: Crypto, q: Request, secret: Option<seq<byte>>,
                keyLength: nat, hmacIsSha256: bool, room: nat)
    returns (key: Result<seq<byte>, UnsealError>)
    requires store.Valid() && hash.active == None && ValidSealing(q.sealing)
    modifies store.pcrs, hash
    ensures store.Valid() && hash.active == None
    ensures forall p :: 0 <= p < |store.pcrs| ==> SameButExtended(old(store.Banks())[p], store.Banks()[p])
    ensures key.Ok? ==>
              && Acceptable(q, keyLength, hmacIsSha256, room) && secret.Some?
              && q.hmac == PayloadHmac(crypto, secret.value, q.ciphertext, q.sealing)
              && PolicyHolds(hash.H, old(store.Banks()), q.sealing)
              && key.value == crypto.kdf(secret.value, "encryption key")
    ensures hash.reliable && crypto.reliable && secret.Some?
            && Acceptable(q, keyLength, hmacIsSha256, room)
            && q.hmac == PayloadHmac(crypto, secret.value, q.ciphertext, q.sealing)
            && PolicyHolds(hash.H, old(store.Banks()), q.sealing)
            ==> key.Ok?
    ensures ArgumentError(q, keyLength, hmacIsSha256, room).Some? ==>
              key == Err(ArgumentError(q, keyLength, hmacIsSha256, room).value)
    ensures key == Err(HmacMismatch) ==>
              secret.Some? && q.hmac != PayloadHmac(crypto, secret.value, q.ciphertext, q.sealing)
  {
    hide SameButExtended, ValidBank, PolicyHolds;
    ghost var banks := store.Banks();
    SameAsItself(banks);
    if q.seed == [] || q.ciphertext == [] || q.sealing == [] {
      return Err(UnsealError.InvalidArgument);
    }
    if keyLength != KEY_256BIT {
      return Err(UnsupportedKeyLength);
    }
    if !hmacIsSha256 {
      return Err(UnsupportedHmac);
    }
    if room < KEY_256BIT {
      return Err(BufferTooSmall);
    }
    var bad := SeedError(q.seedType, q.seedParam);
    if bad.Some? {
      return Err(bad.value);
    }
    if secret.None? {
      return Err(SeedFailure);
    }
    var signingKey := DeriveKey(crypto, secret.value, "signing key");
    if signingKey.None? {
      return Err(KdfFailure);
    }
    var payloadHmac := ComputeHmac(crypto, signingKey.value, q.ciphertext + Concat(q.sealing));
    if payloadHmac.None? {
      return Err(HmacFailure);
    }
    if q.hmac != payloadHmac.value {
      return Err(HmacMismatch);
    }
    var error := CheckPolicy(store, hash, q.sealing);
    if error.Some? {
      key := Err(error.value);
      return;
    }
    var encryptionKey := DeriveKey(crypto, secret.value, "encryption key");
    key := if encryptionKey.Some? then Ok(encryptionKey.value) else Err(KdfFailure);
  }
}
