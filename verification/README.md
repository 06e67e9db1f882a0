# Measurement logs, DER codecs, unsealing and message transport of a Cerberus root of trust

A Dafny model of five connected parts of the firmware, with proofs.

- **Measurements** (`MeasuredData`, `PcrBanks`, `Pcrs`, `TcgLog`, `AttestationLog`, `AttestationReader`, `PcrStores`). PCR
  banks hold measurements that are updated, invalidated or frozen, folded into a hash chain, and served as two logs through
  reads of a window (`offset`, `length`). The specification builds each whole log as a sequence; every windowed read is proved to
  be exactly the requested slice of it, through all of the `size_t` arithmetic, which wraps explicitly at a symbolic word
  size.
- **DER** (`Der`, `Asn1Util`, `EccDer`, `EcdsaSignature`, `EccKeys`). Encoders and decoders for ECC keys, ECDSA signatures
  and 64-bit integers, against sections 8.3.2 and 10.1 of ITU-T X.690.
- **Unsealing** (`UnsealRequest`, `AuxAttestation`, `CmdBackground`, `BackgroundHandlers`). From the length checks on the
  request, through the HMAC and the PCR policy, to the state machine that hands the key out.
- **Transport** (`CmdChannel`, `CmdMessages`). Packets of several callers on one channel, as interleaved steps; the
  overflow flag; protocol headers pushed and popped.
- **Base64** (`Base64`), against section 4 of RFC 4648.

`Bytes` holds the algebra the others share: `Window` (what a read must return), `Splice` (what a buffer must then hold),
little-endian fields and wrapping sizes. `HashEngines` is the hash: one uninterpreted function per algorithm behind an
engine whose calls may fail. State that the firmware updates in place is a class; each of its methods is tied to a
function on values, and the properties are proved of those functions. "Reliable" in a contract means that no engine,
flash read or callback fails; without it the contract still says what success implies.

A C `int` that is either a byte count or an error is a `Result`, so counts are taken to stay below the range of error
codes. Real engines, clocks, the secret behind an unseal seed and the notification of the event task are parameters or
nondeterministic choices.

## Where the code does not do what is said of it

Each has its exact condition, proved for all inputs.

- Messages can interleave on a channel although the comment at `core/cmd_interface/cmd_channel.c:147-150` excludes it: the
  lock is released while the bus is busy. A call can be interrupted if and only if it sleeps
  (`CmdChannel.InterruptedExactlyAsleep`), and then by any waiting message as a whole (`CmdChannel.SleeperIsInterrupted`).
- An error means that a message is incomplete, except for empty messages, any of which can expire
  (`CmdChannel.EveryRun`, `CmdChannel.EmptyMessageCanExpire`).
- A freeze does not cover the event type and the data descriptor, so a frozen digest can stop being the hash of the logged
  event data. `PcrBanks.FrozenEventDataChanges` says exactly when; along every other run the digest stays that hash
  (`PcrBanks.FrozenDigestMatchesLog`).
- After the padding zero of a P256 or P384 private key the remaining length is one too large. The decoder's answer depends
  on the byte after the buffer exactly for padded keys whose outer length ends one byte before the curve name does
  (`EccKeys.DecodingStaysInside`, `EccKeys.UnderstatedDepends`); keys that are merely truncated are rejected
  (`EccKeys.TruncatedIsRejected`).
- The sign of a 64-bit INTEGER is looked at even when it has no contents, which depends on the byte after the buffer
  exactly when the buffer ends there (`Asn1Util.DecodingStaysInside`).
- The ECDSA encoder's output is a DER signature if and only if lengths fit their octets (`EcdsaSignature.EncodesDerExactly`),
  which they do for all keys if and only if they have at most 124 bytes (`EcdsaSignature.FitsUpTo124`).
- The declared maximum signature length for 66 byte values is exceeded exactly by values that are `EcdsaSignature.TooLong`;
  those of P521, whose first byte is at most one, never are (`EcdsaSignature.MaxLengthHolds`).
- The seventh check of the unseal request compares the ciphertext pointer where the HMAC pointer is meant. The accepted
  messages are still exactly those of the grammar (`UnsealRequest.CheckIsTheGrammar`).
- The coordinates of a public key with an odd number of coordinate bytes are accepted, the last byte being ignored
  (`EccKeys.CoordinatesExact`).
- The request check lets an RSA seed with PKCS#1 v1.5 padding through, which unsealing then refuses
  (`BackgroundHandlers.RunUnseal`).
- A flash region of length zero, memory of nonzero length without a buffer and a callback total beyond 32 bits are read wrongly, and nothing
  else is (`MeasuredData.ReadsAreExact`).
- `BASE64_LENGTH` is exact only below a quarter of the address space, and too small from there on (`Base64.MacroLengthExact`).
- A response fits the maximum only if the headers alone do (`CmdMessages.ResponseFits`), and a descriptor whose length and
  payload length meet while headers are put back is not restored (`CmdMessages.RestoredExactly`).
- The sealing entry's number is narrowed to eight bits for the PCR lookup, so that the policy is the intended one for all
  policies of n entries if and only if n is at most 256 (`AuxAttestation.PolicyIsByPcr`).

## Model

| member | source | states |
|---|---|---|
| `Bytes.ChunksReassemble` | core/attestation/pcr_store.c:961-973 | reading a log in chunks of any sizes, each from where the last stopped, gives one contiguous window: nothing lost, repeated or reordered |
| `HashEngines.DigestSizes` | core/crypto/hash.c:182-200 | the digest sizes of FIPS 180-4 |
| `MeasuredData.ReadBytes` | core/attestation/pcr.c:826-840 | copies exactly the requested window of a byte string and reports its length |
| `MeasuredData.FlashTransferExact` | core/attestation/pcr.c:959-978 | the transfer size for flash data is the window's size for all offsets and lengths if and only if the region is not empty |
| `MeasuredData.InvokeCallback` | core/attestation/pcr_data.h:27-40 | the contract of a data callback: the window of its data and the whole length, whatever the window |
| `MeasuredData.ReadContent` | core/attestation/pcr.c:920-994 | for each of the seven data types, what is read and the total that is reported, for any descriptor |
| `MeasuredData.ReadsAreExact` | core/attestation/pcr.c:920-994 | every window of the data is read exactly and the total is its length, if and only if the descriptor is well-formed |
| `MeasuredData.ContentMeasures` | core/attestation/pcr_data.h:57-82 | the content of a descriptor is exactly: an integer's value in its width, least significant byte first; a memory's or callback's bytes; a flash region's cells |
| `MeasuredData.ReliableMeans` | core/attestation/pcr.c:959-989 | only flash and callbacks can fail a read, and only by their own fault |
| `PcrBanks.ConstUpdateIsForever` | core/attestation/pcr.c:308-343 | over every run, once a constant update succeeds, digest, flags and version never change again |
| `PcrBanks.RunKeepsFrozen` | core/attestation/pcr.c:574-603 | no run of updates, invalidations, computes and metadata changes alters a frozen measurement's digest, flags or version |
| `PcrBanks.FailureChangesNothingSealed` | core/attestation/pcr.c:379-442 | a failing operation leaves digest, flags and version of every measurement; any but compute leaves the whole bank |
| `PcrBanks.OnlyTheTargetChanges` | core/attestation/pcr.c:308-343 | every change of those three is a successful update or invalidation of that unfrozen measurement |
| `PcrBanks.SuccessStores` | core/attestation/pcr.c:308-343 | what each successful operation stores, field by field, and that nothing else in the bank changes |
| `PcrBanks.FailureMeans` | core/attestation/pcr.c:308-343 | each error of each operation exactly when its reason is the first that applies |
| `PcrBanks.FrozenEventDataChanges` | core/attestation/pcr.c:171-188 | an operation changes the logged event data of a frozen measurement if and only if it sets another event type that is part of it, or a descriptor of other data |
| `PcrBanks.FrozenDigestMatchesLog` | core/attestation/pcr.c:379-442 | after a constant update from the described data, the digest stays the hash of the logged event data along every run without such an operation |
| `PcrBanks.FrozenEventDataCanChange` | core/attestation/pcr.c:768-812 | a frozen measurement for which both kinds of operation succeed and leave the digest of other data |
| `PcrBanks.UpdateMatchesLoggedData` | core/attestation/pcr.c:379-442 | updating from the described data makes the digest the hash of exactly the event data that the log carries |
| `Pcrs.Pcr.constructor` | core/attestation/pcr.c:26-73 | a new bank is valid, with zeroed measurements; zero measurements make one explicit entry |
| `Pcrs.Pcr.UpdateDigestCommon` | core/attestation/pcr.c:308-343 | length, index and freeze checks in that order, and the new bank as the operation's specification gives it |
| `Pcrs.Pcr.UpdateDigest` | core/attestation/pcr.c:355-359 | the plain and constant digest updates are the corresponding operations |
| `Pcrs.Pcr.UpdateBuffer` | core/attestation/pcr.c:379-442 | success stores the hash of event type, version and data as selected; every failure leaves the bank |
| `Pcrs.Pcr.Invalidate` | core/attestation/pcr.c:574-603 | zeroes the digest of an unfrozen measurement and changes nothing else |
| `Pcrs.Pcr.SetEventType` | core/attestation/pcr.c:171-188 | changes that field only |
| `Pcrs.Pcr.SetMeasurementData` | core/attestation/pcr.c:768-812 | stores or clears the descriptor; refuses an unknown type, flash without a device and a callback without a getter, each with its error |
| `Pcrs.Pcr.Compute` | core/attestation/pcr.c:621-689 | success refreshes every extended value and returns the chain over all digests; failure refreshes a prefix |
| `Pcrs.Pcr.ExtendAll` | core/attestation/pcr.c:643-667 | the loop leaves exactly the first n extended values current and returns the n-th chain value |
| `Pcrs.Pcr.HashMeasurementData` | core/attestation/pcr.c:1052-1181 | hashing with any algorithm hashes exactly the byte string that reads of the measured data return |
| `Pcrs.HashFlash` | core/flash/flash_util.c:438-525 | the loop over 256 byte blocks with its 32-bit address absorbs exactly the region |
| `Pcrs.Pcr.ReadMeasurementData` | core/attestation/pcr.c:858-997 | the exact window of event type, version and data, under every flag combination; the total does not depend on the window |
| `Pcrs.Pcr.GetTcgLog` | core/attestation/pcr.c:1197-1326 | the exact window of one PCR's entries with their data; when nothing is written, the whole length to skip |
| `Pcrs.Pcr.LogOneEntry` | core/attestation/pcr.c:1266-1315 | one entry written after its data; the offset is right whenever it is still used, so no wrapped value is |
| `TcgLog.AlgorithmsAreFirstUses` | core/attestation/pcr_store.c:1004-1045 | the algorithm list has no repeats, names exactly the algorithms in use, ordered by first use |
| `TcgLog.AlgorithmsBounded` | core/attestation/pcr_store.c:1047-1048 | it never exceeds the header's three places |
| `TcgLog.ParseEntry` | core/attestation/pcr.c:1266-1315 | reading one entry's bytes gives its index, type, algorithm, digest and data back, and what follows |
| `TcgLog.SpecIdOfBanks` | core/attestation/pcr_store.c:990-1065 | a reader with the format's own constants finds the Spec ID event, the known algorithms with the digest sizes of the banks' in order of first use, and the rest by the event's size field |
| `TcgLog.LogReadsBack` | core/attestation/pcr_store.c:974-1089 | reading the whole log's bytes gives back those algorithms and every measurement of every non-explicit PCR in order |
| `AttestationLog.SlotsAreABijection` | core/attestation/pcr_store.c:134-168 | sequential numbers and measurements of non-explicit PCRs correspond one to one, in order |
| `AttestationLog.PackingAgrees` | core/attestation/pcr_store.c:13-21 | packing and unpacking a measurement type undo each other and keep the order |
| `AttestationLog.FullLogSize` | core/attestation/pcr_store.c:790-827 | the size sum is the length of the full attestation log |
| `AttestationLog.LogSizeFits` | core/attestation/pcr_store.c:790-827 | that sum never overflows |
| `AttestationLog.LogReplays` | core/attestation/pcr.c:621-689 | folding the digests from zeros gives each extended value in turn, and the last is the PCR's value |
| `AttestationLog.EntryFields` | core/attestation/pcr_store.c:932-944 | number, measurement type, digest and extended value of an entry at their offsets |
| `AttestationLog.EntryInLog` | core/attestation/pcr_store.c:930-952 | entry k lies between the lengths of the first k and k + 1 entries |
| `AttestationReader.ParseWrittenEntry` | core/attestation/pcr_store.c:930-952 | reading an entry by its own length and algorithm fields gives all of it back, and what follows |
| `AttestationReader.ReadLogReplays` | core/attestation/pcr_store.c:844-959 | from the bytes alone: entry k read back has number k and the k-th measurement's type and digest, folding the digests read for its PCR gives its extended value, and at last the PCR's value |
| `PcrStores.BufferCopy` | core/common/buffer_util.c:25-63 | copies the window of a source and advances offset and length past it |
| `PcrStores.PcrStore.GetMeasurementType` | core/attestation/pcr_store.c:134-168 | the packed k-th measurement, and an error for every number from the total on |
| `PcrStores.PcrStore.GetNumTotalMeasurements` | core/attestation/pcr_store.c:193-207 | the number of those measurements |
| `PcrStores.PcrStore.GetAttestationLogSize` | core/attestation/pcr_store.c:790-827 | the length of the full attestation log for every hash function |
| `PcrStores.PcrStore.GetPcrDigestLength` | core/attestation/pcr_store.c:239-250 | the PCR's digest length, or an error for a PCR the store lacks |
| `PcrStores.PcrStore.ComputePcr` | core/attestation/pcr_store.c:584-596 | the PCR's value over its digests; nothing but extended values changes |
| `PcrStores.PcrStore.GetTcgLog` | core/attestation/pcr_store.c:974-1089 | writes exactly the requested window of the full log, returns its length and touches nothing else |
| `PcrStores.PcrStore.AppendBanks` | core/attestation/pcr_store.c:1067-1086 | the loop over PCRs: whenever another PCR is read, the remaining offset is exact, never wrapped |
| `PcrStores.PcrStore.CollectAlgorithms` | core/attestation/pcr_store.c:1004-1045 | the loop with its bit set computes the list of first uses |
| `PcrStores.PcrStore.GetAttestationLog` | core/attestation/pcr_store.c:844-959 | writes exactly the requested window of the full log with current extended values; digests stay as they were |
| `PcrStores.PcrStore.LogOneBank` | core/attestation/pcr_store.c:930-952 | one PCR's entries, numbered on from the previous PCR's whatever the offset |
| `Der.IntegerContentIsMinimal` | core/asn1/ecc_der_util.c:903-942 | stripping zeros and padding a set top bit gives minimal content with the same value |
| `Der.MinimalContentUnique` | core/asn1/ecc_der_util.c:903-942 | two minimal contents with the same value are equal |
| `Asn1Util.ParseWrittenHeader` | core/asn1/asn1_util.c:29-90 | parsing a written header gives its tag, length and size back |
| `Asn1Util.GetWrittenItem` | core/asn1/asn1_util.c:104-126 | getting an item of the right tag gives its contents and what follows |
| `Asn1Util.GetItemExact` | core/asn1/asn1_util.c:29-126 | an item is got if and only if the buffer is one of the understood headers, the contents and what follows |
| `Asn1Util.ItemRefused` | core/asn1/asn1_util.c:104-126 | when each error is returned |
| `Asn1Util.ProbeFindsEncoding` | core/asn1/asn1_util.c:137-180 | on any buffer that starts with an encoding the probe returns that encoding's length |
| `Asn1Util.ProbeUndetermined` | core/asn1/asn1_util.c:169-180 | without a readable header the whole buffer is reported, exactly up to the number that stands for the error |
| `Asn1Util.EncodeInteger` | core/asn1/asn1_util.c:191-234 | succeeds exactly when the buffer has room and then holds the DER form; nothing else changes |
| `Asn1Util.LeadingShift` | core/asn1/asn1_util.c:205-208 | the shift of the first nonzero byte |
| `Asn1Util.AddBytes` | core/asn1/asn1_util.c:216-233 | the loop appends the value's bytes from the first nonzero one, or stops at the end of the buffer |
| `Asn1Util.DecodeInteger` | core/asn1/asn1_util.c:245-278 | the value of the item's contents, or the error for a negative or oversized one, whatever follows the buffer |
| `Asn1Util.DecodesExactly` | core/asn1/asn1_util.c:245-278 | a number is decoded if and only if the buffer starts with an INTEGER of at most nine bytes whose top bit is clear and whose value is that number, in 64 bits |
| `Asn1Util.DecodingStaysInside` | core/asn1/asn1_util.c:261-264 | the answer depends on the buffer alone if and only if it does not end with an empty INTEGER |
| `Asn1Util.EmptyIntegerAtEnd` | core/asn1/asn1_util.c:261-264 | a buffer that does |
| `Asn1Util.DecodeUndoesEncode` | core/asn1/asn1_util.c:191-278 | for every 64-bit value, whatever follows |
| `Asn1Util.EncodedIsTheDerForm` | core/asn1/asn1_util.c:191-234 | bytes are a minimal non-negative INTEGER with that value if and only if they are the encoding |
| `EccDer.GetNextTag` | core/asn1/ecc_der_util.c:54-97 | the cursor moves past a header whose contents are all present, else the error |
| `EccDer.AddNextTag` | core/asn1/ecc_der_util.c:112-145 | writes header and data exactly when they fit |
| `EccDer.TagOfWritten` | core/asn1/ecc_der_util.c:54-145 | reading a written tag gives its contents and what follows |
| `EccDer.ReadsIsTagOf` | core/asn1/ecc_der_util.c:54-97 | a tag is accepted if and only if the buffer is a header in one of two forms, the contents and what follows |
| `EccDer.TagRefused` | core/asn1/ecc_der_util.c:54-97 | when each error is returned |
| `EcdsaSignature.FitsUpTo124` | core/asn1/ecc_der_util.c:1004-1048 | all signatures of an n byte key fit the two-octet length if and only if n is at most 124 |
| `EcdsaSignature.EncodeInteger` | core/asn1/ecc_der_util.c:903-942 | appends the DER INTEGER exactly when it fits |
| `EcdsaSignature.Encode` | core/asn1/ecc_der_util.c:1004-1048 | for values of any length, succeeds exactly when the buffer holds the output, and then holds it; the output is the DER form for values that fit |
| `EcdsaSignature.EncodesDerExactly` | core/asn1/ecc_der_util.c:1004-1048 | the output is a DER signature of the two values if and only if they fit |
| `EcdsaSignature.SetLength` | core/asn1/ecc_der_util.c:1030-1047 | the header grows in place to three bytes and the contents move up unchanged |
| `EcdsaSignature.DecodeInteger` | core/asn1/ecc_der_util.c:855-889 | zero-extends the INTEGER to the key length, or rejects a longer one |
| `EcdsaSignature.Decode` | core/asn1/ecc_der_util.c:958-990 | both values, and bytes beyond the key length untouched |
| `EcdsaSignature.IntegerAtValue` | core/asn1/ecc_der_util.c:855-889 | a decoded value is the number in the INTEGER's contents |
| `EcdsaSignature.DecodeUndoesEncode` | core/asn1/ecc_der_util.c:855-1048 | decoding an encoded signature gives r and s back, with trailing bytes too |
| `EcdsaSignature.DecodesExactly` | core/asn1/ecc_der_util.c:855-990 | a signature decodes to r and s if and only if the buffer starts with a SEQUENCE of exactly two INTEGERs with those values |
| `EcdsaSignature.SignatureDerUnique` | core/asn1/ecc_der_util.c:1004-1048 | bytes are a DER signature of the two numbers if and only if they are the encoder's output |
| `EcdsaSignature.ProbeFindsSignature` | core/asn1/ecc_der_util.c:1064-1067 | the length probe finds where a signature ends |
| `EcdsaSignature.MaxLengthHolds` | core/asn1/ecc_der_util.c:1077-1096 | the declared maximum holds for P256 and P384, and for 66 byte values exactly unless one has its top bit set and the other does not start with nine zero bits; P521 values always fit |
| `EcdsaSignature.MaxLengthExceeded` | core/asn1/ecc_der_util.c:1077-1096 | 66 byte values that exceed it by two bytes |
| `EcdsaSignature.MaxLengthIsReached` | core/asn1/ecc_der_util.c:1077-1096 | each declared maximum is the length of some signature, and other key lengths have none |
| `EccKeys.PrivateLengthIs` | core/asn1/ecc_der_util.h:24-31 | encoded private keys have the declared lengths |
| `EccKeys.PublicLengthIs` | core/asn1/ecc_der_util.h:67-69 | encoded public keys have the declared lengths |
| `EccKeys.OidsAreRegistered` | core/asn1/ecc_der_util.c:9-39 | the arcs of the curves' and the algorithm's identifiers, decoded in base 128, are the registered ones |
| `EccKeys.PublicFormOctets` | core/asn1/ecc_der_util.c:742-813 | a public key octet by octet, with every tag and length as a number |
| `EccKeys.PrivateFormOctets` | core/asn1/ecc_der_util.c:410-507 | a private key octet by octet, with and without the public part |
| `EccKeys.EmitPoint` | core/asn1/ecc_der_util.c:173-202 | appends the BIT STRING of an uncompressed point exactly when it fits |
| `EccKeys.EncodePrivateKey` | core/asn1/ecc_der_util.c:410-507 | succeeds exactly when the declared length fits, and then writes the key of section 3 of RFC 5915 |
| `EccKeys.EncodePublicKey` | core/asn1/ecc_der_util.c:742-813 | the same for the key of section 2 of RFC 5480 |
| `EccKeys.FindPrivateKey` | core/asn1/ecc_der_util.c:277-390 | where the key lies, or the error, as the decoding function says |
| `EccKeys.DecodePrivateKey` | core/asn1/ecc_der_util.c:218-259 | copies the key, with a dropped P521 zero restored, exactly when there is room |
| `EccKeys.PrivateDecodesExactly` | core/asn1/ecc_der_util.c:277-390 | a private key is found if and only if the buffer holds a version 1 key whose parameters name the curve of its length |
| `EccKeys.KeyExact` | core/asn1/ecc_der_util.c:218-259 | it is copied out if and only if it is there, with a dropped P521 zero restored, and there is room |
| `EccKeys.PrivateKeyRoundTrip` | core/asn1/ecc_der_util.c:218-507 | decoding an encoded private key gives it back, with or without the public part and whatever follows |
| `EccKeys.OtherFormsRoundTrip` | core/asn1/ecc_der_util.c:313-360 | zero-padded and zero-dropped forms decode to the same key as the canonical form |
| `EccKeys.DecodingStaysInside` | core/asn1/ecc_der_util.c:313-386 | the answer depends on the buffer alone if and only if it is not a padded key whose outer length ends one byte before the curve name |
| `EccKeys.UnderstatedDepends` | core/asn1/ecc_der_util.c:313-386 | such a buffer for every P256 and P384 key, and its answer for every following byte |
| `EccKeys.TruncatedIsRejected` | core/asn1/ecc_der_util.c:54-97 | every proper prefix of an encoded key is rejected at the outer header |
| `EccKeys.ProbesFindKeys` | core/asn1/ecc_der_util.c:523-526 | the length probes find where an encoded key ends |
| `EccKeys.FindPublicKey` | core/asn1/ecc_der_util.c:608-725 | where the point lies, or the error |
| `EccKeys.DecodePublicKey` | core/asn1/ecc_der_util.c:560-593 | copies both coordinates of an uncompressed point that fits, and nothing otherwise |
| `EccKeys.PublicDecodesExactly` | core/asn1/ecc_der_util.c:608-725 | a point is found if and only if the buffer holds an ecPublicKey with a point in a known format on the curve it names, going by length |
| `EccKeys.CoordinatesExact` | core/asn1/ecc_der_util.c:560-593 | the coordinates are copied out if and only if that point is uncompressed and there is room; an odd last byte is ignored |
| `EccKeys.PublicKeyRoundTrip` | core/asn1/ecc_der_util.c:560-813 | decoding an encoded public key gives the point back |
| `UnsealRequest.CheckIsTheGrammar` | core/cmd_interface/cerberus_protocol_optional_commands.c:649-704 | the checks accept a message if and only if it is a well-formed request with nothing left over |
| `UnsealRequest.RefusalMeans` | core/cmd_interface/cerberus_protocol_optional_commands.c:660-673 | exactly which messages are out of range; every other refusal is for a length |
| `UnsealRequest.GrammarIsUnambiguous` | core/cmd_interface/cerberus_protocol_optional_commands.h:830-918 | a message is a request in one way only |
| `UnsealRequest.TaskSeesTheRequest` | core/cmd_interface/cmd_background_handler.c:301-322 | the event task finds the fields of that same partition in its copy, whatever follows it there |
| `AuxAttestation.PolicyIsByPcr` | core/attestation/aux_attestation.c:453-457 | checking entry i against PCR i and what the loop checks agree for all policies of n entries if and only if n is at most 256 |
| `AuxAttestation.LongPolicy` | core/attestation/aux_attestation.c:453-457 | for every larger n, a device and a policy on which they differ |
| `AuxAttestation.SamePolicyValue` | core/attestation/aux_attestation.c:484-491 | recomputing PCRs does not change what the policy compares against |
| `AuxAttestation.ScanEntry` | core/attestation/aux_attestation.c:470-481 | bypass is reported exactly for an all-zero entry, and too long exactly for a nonzero unused byte |
| `AuxAttestation.CheckEntry` | core/attestation/aux_attestation.c:453-493 | an entry passes only if zero or equal to the padded PCR value; with reliable engines also if; a PCR the device lacks only bypassed; the error says whether an unused byte was set or the value differs |
| `AuxAttestation.CheckPolicy` | core/attestation/aux_attestation.c:453-493 | the loop passes only if the whole policy holds, and with reliable engines also if |
| `AuxAttestation.Unseal` | core/attestation/aux_attestation.c:341-506 | a key is derived only for an acceptable request whose HMAC matched and whose policy holds; with reliable engines also if |
| `AuxAttestation.ArgumentErrorMeans` | core/attestation/aux_attestation.c:360-412 | exactly which requests are acceptable, by literal key length, seed types and parameters, and the error of each other one |
| `CmdBackground.PackedErrorIsNotSuccess` | core/cmd_interface/cmd_background.h:19 | no packed error status equals success; its low byte is the status and the rest the error's low 24 bits |
| `CmdBackground.EveryRun` | core/cmd_interface/cmd_background_handler.c:104-158 | over every interleaving, a key handed out is the one that the latest successful unseal returned, never twice for one success, never while an unseal runs |
| `CmdBackground.SuccessesAreReturned` | core/cmd_interface/cmd_background_handler.c:301-330 | the successes are exactly the keys that the run's unseals returned, each for the request it was started with |
| `CmdBackground.StepKeepsInv` | core/cmd_interface/cmd_background_handler.c:27-74 | every step of commands and task keeps: success is reported only with that key in the buffer, not yet handed out |
| `CmdBackground.KeyWaits` | core/cmd_interface/cmd_background_handler.c:137-152 | a finished key is gone exactly after being handed out, another start or a stored error; a query with too little room keeps it |
| `CmdBackground.KeyWaitsForQuery` | core/cmd_interface/cmd_background_handler.c:137-152 | through any run without those, the next query with room gets it |
| `CmdBackground.EachStatus` | core/cmd_interface/cmd_background_handler.c:27-158 | the number that each step makes a query report |
| `CmdBackground.StatusStays` | core/cmd_interface/cmd_background_handler.c:123-158 | over every run, a query reports what the last step that sets the status set |
| `CmdBackground.OnlyStoresWhileRunning` | core/cmd_interface/cmd_background_handler.c:48-74 | from an accepted start until its result is stored, only that and the error of a failed request set the status |
| `BackgroundHandlers.EntriesConcatenate` | core/attestation/aux_attestation.c:439-442 | the HMAC covers the sealing bytes as they were sent |
| `BackgroundHandlers.TaskAsks` | core/cmd_interface/cmd_background_handler.c:301-322 | what the event task asks of the responder is what the accepted request says |
| `BackgroundHandlers.RunUnseal` | core/cmd_interface/cmd_background_handler.c:301-330 | on the bytes of the request: a key implies an RSA seed with OAEP padding or an ECDH seed, a matching HMAC over ciphertext and sealing, and the policy; with reliable engines also the converse; PKCS#1 v1.5 padding is a bad parameter |
| `BackgroundHandlers.BackgroundHandler.constructor` | core/cmd_interface/cmd_background_handler.c:529-550 | the initial state: nothing started |
| `BackgroundHandlers.BackgroundHandler.UnsealStart` | core/cmd_interface/cmd_background_handler.c:48-121 | each outcome as a step: accepted exactly when the idle event task is notified; busy, too big and unsupported change nothing |
| `BackgroundHandlers.BackgroundHandler.UnsealResult` | core/cmd_interface/cmd_background_handler.c:123-158 | hands the key out into exactly its bytes of the buffer, or changes nothing |
| `BackgroundHandlers.BackgroundHandler.UnsealMessage` | core/cmd_interface/cerberus_protocol_optional_commands.c:649-709 | a message that is no request is rejected with no effect; an accepted one is what the event task then runs |
| `BackgroundHandlers.BackgroundHandler.ExecuteUnseal` | core/cmd_interface/cmd_background_handler.c:301-330 | success is stored only with the derived key of an authentic request whose policy held; failures never look like success |
| `BackgroundHandlers.BackgroundHandler.StoreResult` | core/cmd_interface/cmd_background_handler.c:323-329 | the key buffer and then the status, as the machine's steps |
| `CmdChannel.EveryRun` | core/cmd_interface/cmd_channel.c:160-220 | over all interleavings: accepted packets make a prefix of the call's message, all of it on success and not on an error unless empty; full sizes but the last; busy packets resent; interleaving only where the bus was busy |
| `CmdChannel.StatusMeans` | core/cmd_interface/cmd_channel.c:187-219 | over every run, what a call returns says how its last packet was answered |
| `CmdChannel.EveryCallerSends` | core/cmd_interface/cmd_channel.c:160-220 | in every interleaving each caller does what the sending method does with the same answers |
| `CmdChannel.InterruptedExactlyAsleep` | core/cmd_interface/cmd_channel.c:198-203 | in every reachable state with another message waiting, a call in the middle of its message can be interrupted if and only if it sleeps on a busy bus |
| `CmdChannel.SleeperIsInterrupted` | core/cmd_interface/cmd_channel.c:198-203 | any other message can come whole between a sleeping call's busy packet and the sending of that packet again |
| `CmdChannel.HolderIsNext` | core/cmd_interface/cmd_channel.c:179-211 | while a call holds the lock, the next packet on the bus is its own |
| `CmdChannel.MessagesCanInterleave` | core/cmd_interface/cmd_channel.c:146-151 | for any message of several packets and any other message, a run in which the other comes whole between two packets of the first |
| `CmdChannel.EmptyMessageCanExpire` | core/cmd_interface/cmd_channel.c:213-215 | every empty message that waits for the free lock can be reported as expired although it is complete |
| `CmdChannel.Channel.SendPackets` | core/cmd_interface/cmd_channel.c:160-220 | the packets it puts on the bus and its status, for any answers of the driver |
| `CmdChannel.Channel.SendUntilIdle` | core/cmd_interface/cmd_channel.c:187-205 | the retry loop sends the same packet until it is taken, refused or timed out |
| `CmdChannel.Channel.ReceivePacket` | core/cmd_interface/cmd_channel.c:242-276 | one packet against the overflow flag |
| `CmdChannel.PassedExactly` | core/cmd_interface/cmd_channel.c:242-276 | over every sequence of deliveries, a packet is passed on if and only if neither it nor the packet received before it is an overflow packet |
| `CmdMessages.RestoredExactly` | core/cmd_interface/cmd_interface.c:89-131 | removing any stack of headers and adding them back restores the descriptor, exactly when the two lengths do not meet |
| `CmdMessages.LengthsCanMeet` | core/cmd_interface/cmd_interface.c:112-131 | a descriptor for which they do |
| `CmdMessages.ResponseFits` | core/cmd_interface/cmd_interface.c:73-182 | after setting a payload, both lengths are payload plus headers from the start of the data, within the maximum exactly when the headers are |
| `CmdMessages.MaxResponseIsExact` | core/cmd_interface/cmd_interface.c:162-182 | a payload keeps the whole message within the maximum if and only if it is no longer than what is reported |
| `CmdMessages.NoRoomForHeaders` | core/cmd_interface/cmd_interface.c:170-179 | nothing is reported when the headers alone use the maximum up |
| `CmdMessages.LongHeadersAreClamped` | core/cmd_interface/cmd_interface.c:89-131 | a header longer than what is left moves the payload to the end, or back to the start |
| `CmdMessages.SetMaxResponseMeans` | core/cmd_interface/cmd_interface.c:196-204 | the new maximum is the smaller one, exactly unless adding the headers overflows |
| `CmdMessages.CmdMessage.constructor` | core/cmd_interface/cmd_interface.c:23-37 | a new empty message |
| `CmdMessages.CmdMessage.AddPayloadData` | core/cmd_interface/cmd_interface.c:51-61 | appends the data at the end of the payload and grows both lengths |
| `CmdMessages.CmdMessage.SetMessagePayloadLength` | core/cmd_interface/cmd_interface.c:73-79 | as the descriptor function, leaving the data |
| `CmdMessages.CmdMessage.RemoveProtocolHeader` | core/cmd_interface/cmd_interface.c:89-100 | the same for a removed header, which is clamped to the payload that is left |
| `CmdMessages.CmdMessage.AddProtocolHeader` | core/cmd_interface/cmd_interface.c:112-131 | the same for an added header, which is clamped to the headers that were removed |
| `CmdMessages.CmdMessage.GetMaxResponse` | core/cmd_interface/cmd_interface.c:162-182 | the room left for a payload |
| `CmdMessages.CmdMessage.SetMaximumResponse` | core/cmd_interface/cmd_interface.c:196-204 | lowers the maximum as the descriptor function |
| `Base64.Encode` | core/asn1/base64_core.c:22-72 | succeeds exactly when the size macro says that the text fits, writes exactly the text and a NUL, and the text has 4·ceil(n/3) letters |
| `Base64.MacroLengthExact` | core/asn1/base64.h:16 | the size macro is that length plus one if and only if four times the input length does not overflow, and too small otherwise |
| `Base64.DecodeUndoesText` | core/asn1/base64_core.c:22-72 | a decoder for section 4 of RFC 4648 recovers every input from its text |
| `Base64.TextUndoesDecode` | core/asn1/base64_core.c:22-72 | every text that decoder accepts is the encoder's text for the result |
| `Base64.TextInjective` | core/asn1/base64_core.c:22-72 | different inputs have different texts |
| `Base64.LettersAreTheAlphabet` | core/asn1/base64_core.c:14-19 | the letters and the padding character |
| `Base64.TextLength` | core/asn1/base64.h:16 | the length of the text |

## Left out

- Base64.Encode: where the size macro overflows and the check still passes, requires memory for the text, because the loop would leave the buffer.
- Asn1Util.ProbeFindsEncoding: contents below 2^31 bytes, the range of the C int the probe computes in.
- Asn1Util.ParseWrittenHeader: headers with lengths of 2^31 or more, whose shifts leave the C int, are read as plain numbers.
- TcgLog.LogReadsBack: requires event data below 2^32 bytes per event, the range of the format's size field.
- Pcrs.Pcr.UpdateBuffer: the event type that is read before the index is checked is an arbitrary value for an index out of range.
- MeasuredData.ReadContent: requires a memory buffer of its stated length and a flash region inside the 32-bit address space.
- Pcrs.Pcr.SetMeasurementData: requires that an accepted descriptor is well-formed; the bank's reads and logs are stated for those, which `MeasuredData.ReadsAreExact` shows to be the ones that read exactly.
- CmdChannel.EveryRun: timeouts are arbitrary choices; how long a caller sleeps is not modelled.
- PcrStores.PcrStore.GetTcgLog: the store does not change during the call, although the source locks one PCR at a time.
- BackgroundHandlers.BackgroundHandler.ExecuteUnseal: decrypting the seed and the key agreement are a parameter, and error codes are arbitrary numbers.
- The bank's DMTF value types, TCB flags and the forwarding functions of the store: only easy members.
- OBJECT IDENTIFIER encoding of `asn1_util.c`: a copy behind two bytes.
- The other background actions, authorized operations and configuration resets.
- X.509 building, mbedTLS wrappers, thread-safe wrappers, debug logging and null-pointer checks.
- All other command handlers, the MCTP layer and the session manager.
- Cryptography, random numbers, flash devices and the key manager, which are uninterpreted.
