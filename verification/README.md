# A verified model of Tink's key rotation

This project models, in Dafny 4.11, how Tink C++ manages a keyset and uses it: editing a keyset with
`KeysetManager`, building and reading handles with `KeysetHandle` and `KeysetHandleBuilder`, and routing
ciphertexts through the AEAD, deterministic AEAD and Cord AEAD wrappers. It also models the KMS envelope
frame, the big-endian integer codec and the integer cached inside an ECIES private key.
`dafny verify dfyconfig.toml` checks all of it.

The main results:

- **Ciphertexts survive rotation** (`Rotation.RotationIsSafe`, `Rotation.ConcurrentRotationIsSafe`). What a
  keyset's primary encrypts is decrypted by every later state of the keyset in which that key was not
  deleted and is ENABLED, whatever calls any number of concurrent clients made in between.
- **Every interleaving is serial** (`Concurrency.EveryInterleavingIsSerial`). Calls that read and write the
  shared keyset one field at a time under the mutex return what they return one after the other in the
  order in which the mutex was taken; nobody sees the key that has id 0 while it is being added.
- **The run invariant** (`Lifecycle.RunSound`): ids stay distinct and the primary is unset or unique and enabled.
- **Each entry stands for its key** (`PrimitiveSets.LoadedSet`, `Rotation.CiphertextLayout`): the bytes in front
  of a ciphertext are those of the primary key's prefix type and id, and rotation safety is stated on them.
  It carries over to the deterministic and the cord wrappers (`WrapperRotations`).
- **The prefix index agrees with trying every key** (`PrimitiveSets.IndexAgreesWithScan` and the wrappers).
- **Builder id assignment and round trip** (`KeysetHandleBuilders.DuplicateIffReached`,
  `KeysetHandleBuilders.Rebuild`): which ids are refused, and that a builder made from a handle rebuilds it.
- **The entry cache agrees with the keyset** on every way to make a handle, and a keyset written under a
  master keyset is read back under any later state of it (`EncryptedKeysets.RoundTripUnderRotatedMaster`).
- **Public keysets hold the public counterparts** (`KeysetHandles.PublicAtIff`) and nothing secret.
- **Codecs**: the envelope frame is a bijection and `KmsEnvelope.Decrypt` accepts exactly the bytes it should,
  stripping and padding integers is canonical and exact, and the ECIES integer cache cannot be observed.

## How the model is laid out

| file | component |
|---|---|
| `Base.dfy`, `Keysets.dfy` | results, bytes, 32-bit integers, random draws; the Keyset message |
| `Lifecycle.dfy`, `KeysetManager.dfy`, `Concurrency.dfy` | what a call does and what runs keep; the manager that edits in place; clients under one mutex |
| `CryptoFormat.dfy`, `PrimitiveSets.dfy` | output prefixes; the index of primitives and the routing |
| `Monitoring.dfy`, `AeadWrapper.dfy`, `DeterministicAeadWrapper.dfy`, `CordAeadWrapper.dfy` | the three wrappers |
| `Rotation.dfy`, `WrapperRotation.dfy`, `EncryptedKeyset.dfy` | results that join keysets, runs and wrappers |
| `KeysetHandle.dfy`, `KeysetHandleBuilder.dfy` | handles with their entries; the builder |
| `KmsEnvelope.dfy`, `BigIntegers.dfy`, `EciesPrivateKey.dfy` | codecs and the cached integer |

What the model takes as given: a random source is an unbounded stream of draws. Of the manager's source only
one draw of an unused id is asked, since otherwise its loop does not end (`KeysetManagers.CanDraw`); of the
builder's, when it draws at all, that every 32-bit value keeps coming up (`Base.Fair`) and that there are no
more entries than an `int` counts. Key generation, key parsing and serialization, protobuf encoding, the
making of a primitive from key data and OpenSSL's key-pair check are function parameters. Their laws
(`AeadWrappers.Inverts`, `KeysetHandles.Lossless`, `KeysetHandleBuilders.SerializationInverts`) are
preconditions of the results that use them.

## Where the code does less than one might expect

- `Validate`'s primary check is not kept by every call: keysets with repeated ids are accepted, and making a
  repeated id the primary loses it. `Lifecycle.RepeatedIdLosesPrimary` is such a keyset and
  `Lifecycle.OnePrimaryKeptIff` says exactly when the check is kept.
- A prefixed ciphertext whose raw part is empty is never sent to its key, because the wrappers ask for more
  than five bytes. `Rotation.RotationIsSafe` has the exact condition.
- Rebuilding a handle sets the `key_data` field of keys that had none (destroyed ones).
  `KeysetHandleBuilders.RebuiltSameIffDataSet` says exactly when the keyset comes back the very same.
- The comment on `SetMonitoringAnnotations` (`tink/keyset_handle.h`, lines 471-473) says that a later call
  replaces the values of an earlier one. In the code the first values stay and Build then fails
  (`KeysetHandleBuilders.SetMonitoringAnnotationsTwice`). `KeysetHandleBuilders.BuildAnnotated` says exactly
  when it does: when annotations of some type are added twice.
- A frame whose encrypted DEK is longer than 4096 bytes is not parsed back to the same pair, and from 2^32
  bytes on its length field wraps around. `KmsEnvelope.UnframeInvertsFrame` is an equivalence.

## Model

| member | source | states |
|---|---|---|
| `Base.UnusedIdExists` | tink/core/keyset_handle_builder.cc:110-116 | while fewer than 2^32-1 ids are used a non-zero unused id exists, so the drawing loops can exit |
| `KeysetManagers.GenerateUnusedKeyId` | tink/util/keyset_util.cc:31-52 | returns the first draw that no key carries, and ends if there is one |
| `KeysetManagers.FairSourceSuffices` | tink/util/keyset_util.cc:40-52 | a source in which every value comes up always lets the loop end |
| `KeysetManagers.AddToKeyset` | tink/core/keyset_handle.cc:609-656 | succeeds exactly for a usable prefix type and generated data, and then appends one enabled key with that data, the template's prefix type and a non-zero unused id, primary exactly if asked; errors leave the keyset alone; appending a blank key before drawing the id amounts to one Add |
| `KeysetManagers.KeysetManager.constructor` | tink/keyset_manager.h:40-41 | an empty keyset, which satisfies the run invariant |
| `KeysetManagers.KeysetManager.FromHandle` | tink/core/keyset_manager.cc:53-59 | a copy of the handle's keyset |
| `KeysetManagers.New` | tink/core/keyset_manager.cc:44-50 | a manager of exactly one fresh enabled primary with a non-zero id, or the status of the failed Rotate |
| `KeysetManagers.KeysetManager.AddAs` | tink/core/keyset_manager.cc:71-82 | new state and result are those of the Add call with the id returned |
| `KeysetManagers.KeysetManager.Add` | tink/core/keyset_manager.cc:67-69 | the same, not primary |
| `KeysetManagers.KeysetManager.Rotate` | tink/core/keyset_manager.cc:84-87 | the same, as primary |
| `KeysetManagers.KeysetManager.Enable` | tink/core/keyset_manager.cc:89-105 | new state and result are those of the Enable call |
| `KeysetManagers.KeysetManager.Disable` | tink/core/keyset_manager.cc:107-127 | new state and result are those of the Disable call |
| `KeysetManagers.KeysetManager.Delete` | tink/core/keyset_manager.cc:129-146 | new state and result are those of the Delete call |
| `KeysetManagers.KeysetManager.Destroy` | tink/core/keyset_manager.cc:148-170 | new state and result are those of the Destroy call |
| `KeysetManagers.KeysetManager.SetPrimary` | tink/core/keyset_manager.cc:172-188 | new state and result are those of the SetPrimary call |
| `KeysetManagers.KeysetManager.KeyCount` | tink/core/keyset_manager.cc:190-193 | the number of keys in the keyset |
| `KeysetManagers.KeysetManager.GetKeysetHandle` | tink/core/keyset_manager.cc:61-65 | exactly the managed keyset |
| `Lifecycle.FeasibleIds` | tink/core/keyset_handle.cc:645-651 | the blank key makes the feasible ids exactly the non-zero ids no key carries |
| `Lifecycle.FailureIsAtomic` | tink/core/keyset_manager.cc:71-188 | a failing call leaves the keyset unchanged |
| `Lifecycle.StepChanges` | tink/core/keyset_manager.cc:71-188 | every call appends one key, edits one key, removes one non-primary key, repoints the primary to an enabled key, or changes nothing |
| `Lifecycle.AddPromises` | tink/core/keyset_handle.cc:609-656 | when Add succeeds and with which status it does not; field by field what the last key is; all others unchanged; primary exactly if asked |
| `Lifecycle.QueriesPromise` | tink/core/keyset_manager.cc:61-193 | KeyCount and GetKeysetHandle change nothing and return the number of keys and the keyset |
| `Lifecycle.StatusCallsPromise` | tink/keyset_manager.h:68-83 | when Enable, Disable and Destroy succeed (both directions), what the key becomes, and that no other id's key and no primary id change |
| `Lifecycle.DeletePromises` | tink/keyset_manager.h:85-88 | Delete succeeds exactly on present non-primary ids and removes that key only |
| `Lifecycle.SetPrimaryPromises` | tink/keyset_manager.h:90-92 | SetPrimary succeeds exactly on enabled keys and changes the primary id only |
| `Lifecycle.RefusalCodes` | tink/core/keyset_manager.cc:89-188 | which refusals are NOT_FOUND and which INVALID_ARGUMENT |
| `Lifecycle.EnableUndoesDisable` | tink/core/keyset_manager.cc:89-127 | disabling and enabling an enabled key restores the keyset |
| `Lifecycle.DeleteUndoesAdd` | tink/core/keyset_manager.cc:67-146 | deleting the added key restores any sound keyset |
| `Lifecycle.RotateIsAddThenSetPrimary` | tink/keyset_manager.h:60-66 | Rotate equals Add followed by SetPrimary, gives exactly one enabled primary, and leaves the old primary as it was |
| `Lifecycle.OnePrimaryKeptIff` | tink/core/keyset_handle.cc:264-291 | a call keeps the primary check if and only if it does not make a repeated id the primary |
| `Lifecycle.RepeatedIdLosesPrimary` | tink/core/keyset_manager.cc:172-188 | a keyset with a repeated id for which SetPrimary loses the check |
| `Lifecycle.StepSound` | tink/core/keyset_manager.cc:71-188 | each call keeps the run invariant |
| `Lifecycle.RunSound` | tink/core/keyset_manager.cc:71-188 | every state of every run from a sound keyset has distinct ids and an unset primary, or exactly one enabled one |
| `Lifecycle.RunDistinct` | tink/core/keyset_manager.cc:71-188 | runs from distinct ids keep them distinct, whatever the primary |
| `Lifecycle.PrimaryCheckIsStable` | tink/core/keyset_handle.cc:264-291 | once the primary check passes it passes in every later state |
| `Lifecycle.StepEvolves` | tink/core/keyset_manager.cc:89-188 | a call that does not delete a key keeps its id, prefix and material, or destroys it for good |
| `Lifecycle.RunEvolves` | tink/core/keyset_manager.cc:89-188 | the same between any two states of a run |
| `Lifecycle.DestroyIsAbsorbing` | tink/core/keyset_manager.cc:148-170 | from a successful Destroy until a Delete the key stays DESTROYED, without key data, and is not the primary |
| `Lifecycle.OrderIsKept` | tink/core/keyset_manager.cc:71-188 | keys that are not deleted keep their relative order over every run |
| `Lifecycle.StepCount` | tink/core/keyset_manager.cc:71-193 | a call changes the key count by one exactly when it adds or deletes |
| `Lifecycle.KeyCountIsConserved` | tink/core/keyset_manager.cc:190-193 | the count is the initial one plus successful additions minus successful deletions, over every run |
| `Lifecycle.KeyCountReturns` | tink/core/keyset_manager.cc:190-193 | that count is what KeyCount returns in every state of every run |
| `Concurrency.HitKeepsMidway` | tink/core/keyset_manager.cc:89-188 | what a scan does when it finds its key accounts for the whole call, or for its first write |
| `Concurrency.FillKeepsMidway` | tink/core/keyset_handle.cc:645-655 | each write to the appended key keeps the keyset equal to the one at lock time plus a partly filled key |
| `Concurrency.MicroKeepsMidway` | tink/core/keyset_manager.cc:61-193 | every single read or write inside the mutex does so |
| `Concurrency.MicroMakesProgress` | tink/core/keyset_manager.cc:61-193 | every step but a redraw brings the release of the mutex nearer |
| `Concurrency.StepSerialized` | tink/core/keyset_manager.cc:61-193 | serializability, mutual exclusion and acquisition order are kept by each step of the system |
| `Concurrency.EveryInterleavingIsSerial` | tink/core/keyset_manager.cc:61-193 | in every reachable state of every interleaving the completed calls returned what the serial run in acquisition order returns, and a free mutex means the serial run's keyset |
| `Concurrency.ClientsObserve` | tink/core/keyset_handle.cc:645-655 | concurrent Adds return non-zero ids no key carried; handles are sound serial states without the temporary id-0 key |
| `Concurrency.BlankKeyBreaksInvariant` | tink/core/keyset_handle.cc:645-651 | inside the mutex the run invariant really is broken |
| `CryptoFormat.LoadInvertsStore` | tink/internal/endian.h:27-40 | loading what was stored gives the number back |
| `CryptoFormat.StoreInvertsLoad` | tink/internal/endian.h:27-40 | storing what was loaded gives the bytes back |
| `CryptoFormat.BigEndian32IsTheEncoding` | tink/internal/endian.h:27-40 | both are the big-endian encoding of the number with four bytes |
| `CryptoFormat.StoreBigEndian32` | tink/internal/endian.h:35-40 | writes the four bytes and nothing else |
| `CryptoFormat.GetOutputPrefix` | tink/core/crypto_format.cc:44-72 | the prefix of each prefix type, and the error |
| `CryptoFormat.OutputPrefixMarks` | tink/core/crypto_format.cc:44-72 | exactly TINK, LEGACY, CRUNCHY and RAW have a prefix: none for RAW, else 1 for TINK or 0, and the key id big-endian |
| `CryptoFormat.PrefixInjective` | tink/core/crypto_format.cc:44-72 | prefixes have five bytes, a start byte and the id, and are equal exactly for equal ids and start bytes |
| `PrimitiveSets.ValidateKeyset` | tink/util/validation.cc:61-114 | accepts exactly keysets with an enabled key, well-formed enabled keys, and one enabled primary (or none if all are public) |
| `PrimitiveSets.AddPrimitive` | tink/internal/primitive_set.h:165-180 | keeps the index equal to the ordered list grouped by identifier |
| `PrimitiveSets.WrapKeyset` | tink/internal/keyset_wrapper_impl.h:62-121 | succeeds exactly on valid keysets with usable enabled keys; a set as `PrimitiveSets.LoadedSet` describes it; which error comes first |
| `PrimitiveSets.UsableIff` | tink/internal/primitive_set.h:76-84 | a usable key has data, a primitive and one of five prefix types |
| `PrimitiveSets.EntryRepresents` | tink/internal/primitive_set.h:68-91 | an entry has its key's id and primitive, and its identifier is empty for RAW and WITH_ID_REQUIREMENT keys, else start byte and key id |
| `PrimitiveSets.LoadedSet` | tink/internal/keyset_wrapper_impl.h:70-121 | the entries stand for exactly the enabled keys, in their order, and the primary for the enabled key with the primary id, each with its id, primitive and identifier |
| `PrimitiveSets.EntryHasKey` | tink/internal/keyset_wrapper_impl.h:70-115 | every entry comes from an enabled key |
| `PrimitiveSets.KeyHasEntry` | tink/internal/keyset_wrapper_impl.h:70-115 | every usable enabled key has an entry |
| `PrimitiveSets.BucketFindsLeast` | tink/aead/aead_wrapper.cc:116-134 | trying one bucket in turn finds the first accepting entry with that identifier in keyset order |
| `PrimitiveSets.IndexAgreesWithScan` | tink/aead/aead_wrapper.cc:107-159 | some entry wins exactly if some entry accepts; the winner is the first accepting prefixed entry, else the first accepting RAW one |
| `PrimitiveSets.WinnerDependsOnAcceptance` | tink/aead/cord_aead_wrapper.cc:77-108 | who wins depends on identifiers and acceptance only |
| `PrimitiveSets.LoadedIdentifiersAreProper` | tink/internal/primitive_set.h:68-91 | identifiers have five bytes or none |
| `Monitoring.MonitoringClient.Log` | tink/internal/monitoring.h:42-42 | records one use |
| `Monitoring.MonitoringClient.LogFailure` | tink/internal/monitoring.h:49-49 | records one failure |
| `AeadWrappers.AeadSetWrapper.constructor` | tink/aead/aead_wrapper.cc:60-69 | a valid wrapper of the set and clients given |
| `AeadWrappers.AeadSetWrapper.Encrypt` | tink/aead/aead_wrapper.cc:87-105 | the primary's ciphertext behind its prefix, and exactly one event: the primary's key id and the plaintext length, or a failure |
| `AeadWrappers.AeadSetWrapper.Decrypt` | tink/aead/aead_wrapper.cc:107-159 | the result of the scan in keyset order, and exactly one event, naming the key used |
| `AeadWrappers.Wrap` | tink/aead/aead_wrapper.cc:163-201 | succeeds exactly if the keyset loads, has an enabled primary and each answer of the monitoring factory is good; the set, the clients, and the status of each failure |
| `AeadWrappers.DecryptsIffSomeEntryTakes` | tink/aead/aead_wrapper.cc:107-159 | the wrapper decrypts if and only if some entry's identifier starts the ciphertext (with a rest unless empty) and its primitive decrypts the rest; result, key id and byte count are those of the first such prefixed entry, else of the first such RAW one |
| `AeadWrappers.EventNamesTheKey` | tink/aead/aead_wrapper.cc:126-158 | a success is logged with a key whose primitive gave the result and the length it was given, a failure as a failure |
| `DeterministicAeadWrappers.DeterministicAeadSetWrapper.constructor` | tink/daead/deterministic_aead_wrapper.cc:58-67 | a valid wrapper of the set and clients given |
| `DeterministicAeadWrappers.DeterministicAeadSetWrapper.EncryptDeterministically` | tink/daead/deterministic_aead_wrapper.cc:85-108 | the primary's identifier before its ciphertext, or its error, and exactly one event |
| `DeterministicAeadWrappers.DeterministicAeadSetWrapper.DecryptDeterministically` | tink/daead/deterministic_aead_wrapper.cc:110-159 | the result of the scan in keyset order, and exactly one event |
| `DeterministicAeadWrappers.DeterministicAgreesWithAead` | tink/daead/deterministic_aead_wrapper.cc:110-159 | over corresponding sets it decrypts and reports as the AEAD wrapper does |
| `CordAeadWrappers.FlattenSubcord` | tink/aead/cord_aead_wrapper.cc:80-85 | a subcord of any segmentation holds the bytes of the substring |
| `CordAeadWrappers.Encrypt` | tink/aead/cord_aead_wrapper.cc:66-75 | the bytes are the identifier followed by the primary's ciphertext |
| `CordAeadWrappers.Decrypt` | tink/aead/cord_aead_wrapper.cc:77-108 | the result of the scan in keyset order |
| `CordAeadWrappers.CordAgreesWithString` | tink/aead/cord_aead_wrapper.cc:77-108 | for every segmentation, same success and bytes as the string wrapper |
| `Rotation.IdentifierDeterminesEntry` | tink/core/crypto_format.cc:44-72 | with distinct ids a five-byte identifier belongs to one entry |
| `Rotation.NonRawBucketsAreSmall` | tink/internal/primitive_set.h:165-180 | with distinct ids every non-RAW bucket holds exactly one entry |
| `Rotation.PrimaryStandsFor` | tink/internal/keyset_wrapper_impl.h:107-115 | the primary entry stands for the key with the primary id and has an identifier exactly if that is a TINK, LEGACY or CRUNCHY key |
| `Rotation.CiphertextLayout` | tink/aead/aead_wrapper.cc:87-105 | the bytes of a ciphertext in terms of the primary key: start byte, primary id big-endian and raw ciphertext, or the raw ciphertext alone; the error otherwise |
| `Rotation.PrimaryEntrySurvives` | tink/core/keyset_manager.cc:71-188 | the entry that encrypted is in the later set, unchanged |
| `Rotation.RotationIsSafe` | tink/aead/aead_wrapper.cc:87-159 | for a TINK, LEGACY or CRUNCHY primary: after any run that does not delete the key and leaves it ENABLED, its ciphertext goes to it exactly if the raw part is not empty, and then decrypts |
| `Rotation.RawRotationIsSafe` | tink/aead/aead_wrapper.cc:137-154 | the same for a RAW or WITH_ID_REQUIREMENT primary if no entry tried earlier accepts |
| `Rotation.ConcurrentRotationIsSafe` | tink/core/keyset_manager.cc:61-193 | both for calls of any number of interleaved clients |
| `Rotation.RetiredPrefixReachesOnlyRaw` | tink/aead/aead_wrapper.cc:113-154 | while no enabled key has an id, a ciphertext with its prefix is tried against RAW keys only |
| `Rotation.DestroyedKeyDecryptsNothing` | tink/core/keyset_manager.cc:148-170 | from Destroy until Delete the key, RAW or not, has no entry, its prefix has no bucket, and the primary is another key |
| `Rotation.WrapperStaysAvailable` | tink/internal/keyset_wrapper_impl.h:62-121 | if all keys, present and added, have primitives, the keyset can be wrapped after any run |
| `WrapperRotations.MapLoads` | tink/internal/keyset_wrapper_impl.h:62-121 | replacing the primitives of a loaded set is loading the replaced primitives |
| `WrapperRotations.DeterministicRotationIsSafe` | tink/daead/deterministic_aead_wrapper.cc:85-159 | what the deterministic wrapper encrypts, the wrapper of any later keyset decrypts, under the conditions of rotation safety |
| `WrapperRotations.CordRotationIsSafe` | tink/aead/cord_aead_wrapper.cc:66-108 | the same for the cord wrapper, however ciphertext and associated data are segmented |
| `KeysetHandles.AtAgrees` | tink/core/keyset_handle.cc:307-322 | operator[] shows the key's id, status and primary flag |
| `KeysetHandles.FromKeyStatusType` | tink/internal/key_status_util.cc:33-45 | converts ENABLED, DISABLED and DESTROYED, and refuses all else |
| `KeysetHandles.ToKeyStatusType` | tink/internal/key_status_util.cc:47-59 | converts back, and refuses the reserved status |
| `KeysetHandles.ToProtoKey` | tink/core/keyset_handle.cc:127-142 | refuses type URLs that are not printable; a key that is not RAW is parsed with its id as id requirement, a RAW one without |
| `KeysetHandles.CreateKeysetKey` | tink/core/keyset_handle.cc:215-235 | a wrong id for a key with an id requirement is refused; otherwise all fields of the serialized key, under that id and status |
| `KeysetHandles.CreateEntry` | tink/core/keyset_handle.cc:338-362 | the parsed key object with the key's id, status and primary flag; the status of each failure and their order |
| `KeysetHandles.ValidateAt` | tink/core/keyset_handle.cc:244-262 | passes exactly on printable type URLs and the three known statuses; which status otherwise |
| `KeysetHandles.At` | tink/core/keyset_handle.cc:307-336 | the cached entry if there is one, else the key parsed on demand |
| `KeysetHandles.CacheIsTransparent` | tink/keyset_handle.h:352-358 | operator[] shows the same id, status and primary flag without the cache |
| `KeysetHandles.EntriesFrom` | tink/core/keyset_handle.cc:675-687 | one entry per key, in order and in agreement with it |
| `KeysetHandles.EntriesFromEach` | tink/core/keyset_handle.cc:675-687 | parsing a keyset succeeds exactly if each key parses, to those entries |
| `KeysetHandles.EntriesFromFirstError` | tink/core/keyset_handle.cc:675-687 | otherwise it fails as the first key does that does not parse |
| `KeysetHandles.GetEntriesFromKeyset` | tink/core/keyset_handle.cc:675-687 | the entries of all keys, or the first error |
| `KeysetHandles.Validate` | tink/core/keyset_handle.cc:264-291 | passes exactly if all keys are valid and exactly one, enabled, has the primary id; otherwise the status of the first key at fault, or that of the number of primaries |
| `KeysetHandles.GetPrimary` | tink/core/keyset_handle.cc:293-305 | what operator[] shows for the sole enabled primary, exactly if the handle validates and that entry can be had |
| `KeysetHandles.AddKey` | tink/core/keyset_handle.cc:658-673 | one key with the generated data and the template's prefix type, parsed as the new entry; the status of each failure, and that a key whose entry cannot be made stays in the keyset |
| `KeysetHandles.GenerateNew` | tink/core/keyset_handle.cc:483-501 | one enabled primary with the generated data, the template's prefix type and a non-zero id, parsed as the one entry; the status of each failure |
| `KeysetHandles.ValidateNoSecret` | tink/core/keyset_handle.cc:113-125 | fails exactly if some key's material is secret or unknown |
| `KeysetHandles.ReadNoSecret` | tink/core/keyset_handle.cc:416-448 | succeeds exactly on encodings of secret-free keysets whose keys parse; those keys as entries, the annotations, and the status of each failure |
| `KeysetHandles.PublicAtIff` | tink/core/keyset_handle.cc:508-597 | what the public counterpart of a key is, on both routes and in both directions: the private key's id, status and primary flag; the public key object and what it serializes to, or else the key manager's public data under the private key's prefix type, parsed; the status of each failure |
| `KeysetHandles.GetPublicKeysetHandle` | tink/core/keyset_handle.cc:553-607 | succeeds exactly if every key has a public counterpart, and holds exactly those, in order, under the same primary id, with an agreeing cache and no annotations; else the error of the first key that has none |
| `KeysetHandles.GetPublicWithoutSecrets` | tink/core/keyset_handle.cc:113-125 | if public key data and serialized public key objects are of public material, the public keyset passes ValidateNoSecret and all its keys are public |
| `KeysetHandles.ProjectionKeepsPrimary` | tink/core/keyset_handle.cc:599-606 | the public keyset has exactly one enabled primary if and only if the private one does |
| `EncryptedKeysets.ReadEncrypted` | tink/core/keyset_handle.cc:372-414 | succeeds if and only if the master decrypts, the bytes decode and every key parses; the decoded keyset with an agreeing cache; the status of each failure |
| `EncryptedKeysets.WriteEncrypted` | tink/core/keyset_handle.cc:455-469 | the encryption of the encoding, exactly when that succeeds; every failure is INVALID_ARGUMENT |
| `EncryptedKeysets.ReadsWhatWasWritten` | tink/core/keyset_handle.cc:85-111 | what decrypts to a keyset's encoding is read back as that keyset |
| `EncryptedKeysets.RoundTripUnderRotatedMaster` | tink/core/keyset_handle.cc:372-469 | a keyset written under a master keyset is read back unchanged under any later state of it that meets the rotation conditions |
| `KeysetHandleBuilders.AdjacentMeansOrdered` | tink/core/keyset_handle_builder.cc:153-159 | comparing neighbours puts all random ids after all fixed ones |
| `KeysetHandleBuilders.CheckIdAssignments` | tink/core/keyset_handle_builder.cc:146-161 | refuses exactly the empty list and lists with a random id before a fixed one |
| `KeysetHandleBuilders.AcceptableDrawExists` | tink/core/keyset_handle_builder.cc:110-116 | with fewer than 2^32-1 ids used some draw ends the retry loop |
| `KeysetHandleBuilders.NextId` | tink/core/keyset_handle_builder.cc:101-119 | a fixed id as given, else the first draw that is neither 0 nor used; the loop ends for any fair source |
| `KeysetHandleBuilders.Assemble` | tink/core/keyset_handle_builder.cc:188-221 | the assigned ids account for the keyset built or for the error at the first faulty entry |
| `KeysetHandleBuilders.CodeOf` | tink/core/keyset_handle_builder.cc:146-228 | the status of each way to fail |
| `KeysetHandleBuilders.EntryFromKeyMakes` | tink/core/keyset_handle_builder.cc:82-89 | an imported key is assigned the id it requires or a new one, and written if it serializes for that id |
| `KeysetHandleBuilders.EntryFromParamsMakes` | tink/core/keyset_handle_builder.cc:91-99 | parameters are assigned the id given or a new one, and the key is exactly the one created for that id |
| `KeysetHandleBuilders.CreateKeyIff` | tink/internal/keyset_handle_builder_entry.cc:257-305 | when an entry makes a key under an id (both directions), which one on either source, and with what status it does not |
| `KeysetHandleBuilders.BuiltKeyset` | tink/core/keyset_handle_builder.cc:188-221 | each key carries what its entry gives: the type URL, value, material and prefix type of the serialized key, or the prefix type and data created under its very id; distinct ids also as uint32, fixed ids as given, random ids non-zero, statuses kept, primary id exactly that of the one primary entry |
| `KeysetHandleBuilders.BuiltIffBuildable` | tink/core/keyset_handle_builder.cc:188-221 | a keyset is built if and only if the assigned ids are distinct, each entry makes its key and exactly one is primary |
| `KeysetHandleBuilders.LoopFailures` | tink/core/keyset_handle_builder.cc:188-219 | the other failures: the first entry that makes no key, with its status, or no primary |
| `KeysetHandleBuilders.DuplicateIsFixed` | tink/core/keyset_handle_builder.cc:146-161 | a random id is never reported as already used |
| `KeysetHandleBuilders.DuplicateIffReached` | tink/core/keyset_handle_builder.cc:194-199 | ALREADY_EXISTS for an id if and only if the loop reaches a second entry with an earlier fixed id, in terms of the entries alone |
| `KeysetHandleBuilders.AddingKeepsOnePrimary` | tink/core/keyset_handle_builder.cc:127-137 | adding entries never leaves two primaries |
| `KeysetHandleBuilders.TwoPrimariesIffReached` | tink/core/keyset_handle_builder.cc:206-214 | two primaries are reported if and only if the loop reaches a second entry marked as primary; never with entries that were only added |
| `KeysetHandleBuilders.KeysetHandleBuilder.constructor` | tink/keyset_handle.h:373-374 | an empty builder |
| `KeysetHandleBuilders.KeysetHandleBuilder.FromHandle` | tink/core/keyset_handle_builder.cc:71-80 | each key of the handle under its own fixed id and status, the last primary as the primary |
| `KeysetHandleBuilders.KeysetHandleBuilder.ClearPrimary` | tink/core/keyset_handle_builder.cc:121-125 | no entry is primary, all else as before |
| `KeysetHandleBuilders.KeysetHandleBuilder.AddEntry` | tink/core/keyset_handle_builder.cc:127-137 | the entry at the end; a new primary is the only one |
| `KeysetHandleBuilders.KeysetHandleBuilder.RemoveEntry` | tink/core/keyset_handle_builder.cc:139-144 | that entry gone, the others in order |
| `KeysetHandleBuilders.KeysetHandleBuilder.EditEntry` | tink/keyset_handle.h:416-431 | the setters reached through operator[] change that entry only |
| `KeysetHandleBuilders.KeysetHandleBuilder.AddAnnotations` | tink/keyset_handle.h:482-498 | the first annotations of a type stay, a second call marks the builder |
| `KeysetHandleBuilders.KeysetHandleBuilder.SetMonitoringAnnotations` | tink/core/keyset_handle_builder.cc:163-169 | the same for monitoring annotations: a second call does not replace them |
| `KeysetHandleBuilders.KeysetHandleBuilder.Build` | tink/core/keyset_handle_builder.cc:171-229 | works once; which error for which state; a built handle is explained by the ids assigned and has an agreeing cache and the annotations |
| `KeysetHandleBuilders.MadeByParsing` | tink/core/keyset_handle.cc:324-336 | the entries of generated, read and built handles, and those of a manager's handle, are its keys parsed |
| `KeysetHandleBuilders.ParsedRewrites` | tink/core/keyset_handle.cc:127-142 | if serializing inverts parsing, such entries serialize back to their keys |
| `KeysetHandleBuilders.PublicRewrites` | tink/core/keyset_handle.cc:553-607 | so do the entries of public handles, on both routes |
| `KeysetHandleBuilders.ImportedKey` | tink/core/keyset_handle_builder.cc:71-89 | an imported key is written back as it was, with its key_data field set |
| `KeysetHandleBuilders.ImportedFault` | tink/core/keyset_handle_builder.cc:189-215 | only a repeated id can stop the loop on imported entries |
| `KeysetHandleBuilders.RebuildRoundTrip` | tink/core/keyset_handle_builder.cc:188-221 | what the id loop gives for imported entries: a duplicate id, no primary, or the same keys in order, by the ids of the handle alone |
| `KeysetHandleBuilders.RebuiltKeysParse` | tink/core/keyset_handle_builder.cc:222-228 | the rebuilt keys parse as the keys do |
| `KeysetHandleBuilders.Rebuild` | tink/core/keyset_handle_builder.cc:71-229 | a builder made from any handle whose entries serialize back, and Build: built if and only if ids are distinct, some key carries the primary id and the keys parse; same keyset with key data set, same entries; which error otherwise |
| `KeysetHandleBuilders.RebuildPublic` | tink/core/keyset_handle.cc:553-607 | the same for the handle GetPublicKeysetHandle returns, which comes back as the very same keyset |
| `KeysetHandleBuilders.BuildAnnotated` | tink/keyset_handle.h:478-498 | after any AddAnnotations calls, Build reports repeated annotations if and only if some type occurs twice, and otherwise the handle carries exactly those given |
| `KeysetHandleBuilders.SetMonitoringAnnotationsTwice` | tink/core/keyset_handle_builder.cc:163-179 | setting monitoring annotations twice makes Build fail |
| `KeysetHandleBuilders.RebuiltSameIffDataSet` | tink/core/keyset_handle.cc:196-213 | the keyset is the very same if and only if every key had key data |
| `KmsEnvelope.GetEnvelopeCiphertext` | tink/aead/kms_envelope_aead.cc:50-57 | the length field, the encrypted DEK and the payload |
| `KmsEnvelope.FrameLayout` | tink/aead/kms_envelope_aead.cc:50-57 | four big-endian length bytes modulo 2^32, then the encrypted DEK, then the payload |
| `KmsEnvelope.UnframeInvertsFrame` | tink/aead/kms_envelope_aead.cc:50-144 | parsing undoes framing if and only if the encrypted DEK has at most 4096 bytes |
| `KmsEnvelope.FrameInvertsUnframe` | tink/aead/kms_envelope_aead.cc:107-143 | an accepted ciphertext is the frame of exactly the pair taken out of it |
| `KmsEnvelope.UnframeInjective` | tink/aead/kms_envelope_aead.cc:107-143 | no two accepted ciphertexts carry the same pair |
| `KmsEnvelope.Encrypt` | tink/aead/kms_envelope_aead.cc:80-105 | when it succeeds (both directions), that its ciphertext parses to the two encryptions, and the status of each failure |
| `KmsEnvelope.OpenedIff` | tink/aead/kms_envelope_aead.cc:107-144 | the if-and-only-if of Decrypt on the bytes, and that a ciphertext that is no frame is an invalid argument |
| `KmsEnvelope.Decrypt` | tink/aead/kms_envelope_aead.cc:107-144 | returns a plaintext if and only if the bytes are the frame of an encrypted DEK (at most 4096 bytes) and a payload, the remote AEAD unwraps the DEK, and the AEAD of the symmetric key it makes decrypts the payload to it; the status of each failure |
| `KmsEnvelope.EnvelopeRoundTrip` | tink/aead/kms_envelope_aead.cc:80-144 | given both AEAD laws, decryption returns the plaintext |
| `KmsEnvelope.EncryptThenDecrypt` | tink/aead/kms_envelope_aead.cc:80-144 | decrypting what was encrypted returns the plaintext, whenever encryption succeeds |
| `BigIntegers.StripKeepsValue` | tink/core/big_integer.cc:28-35 | stripping keeps the number and leaves no leading zero |
| `BigIntegers.StripIsCanonical` | tink/core/big_integer.cc:28-43 | stripped forms are equal if and only if the numbers are |
| `BigIntegers.StrippedLength` | tink/core/restricted_big_integer.cc:75-81 | a stripped number fits n bytes if and only if it is below 256^n |
| `BigIntegers.WithoutLeadingZeros` | tink/internal/util.cc:100-107 | the search for the first non-zero byte gives the stripped form |
| `BigIntegers.NewBigInteger` | tink/core/big_integer.cc:28-35 | the same number without leading zeros |
| `BigIntegers.NewRestrictedBigInteger` | tink/core/restricted_big_integer.cc:42-69 | the same number without leading zeros |
| `BigIntegers.Equal` | tink/core/restricted_big_integer.cc:94-103 | equality is equality of numbers |
| `BigIntegers.PaddingKeepsValue` | tink/core/restricted_big_integer.cc:82-86 | leading zeros change neither the number nor the stripped form |
| `BigIntegers.EncodeWithFixedSize` | tink/core/restricted_big_integer.cc:71-92 | succeeds if and only if the number is below 256^n; n bytes of that number, which wrap back to the original |
| `BigIntegers.EncodingIsUnique` | tink/core/restricted_big_integer.cc:71-92 | a number has one encoding of each size |
| `BigIntegers.ParseBigIntToFixedLength` | tink/internal/util.cc:76-98 | succeeds if and only if the number fits, with its encoding of that length |
| `EciesPrivateKeys.EciesPrivateKey.constructor` | tink/hybrid/ecies_private_key.h:145-148 | an empty cache |
| `EciesPrivateKeys.EciesPrivateKey.Copy` | tink/hybrid/ecies_private_key.h:42-51 | the copy holds what the original holds, cache included |
| `EciesPrivateKeys.EciesPrivateKey.Assign` | tink/hybrid/ecies_private_key.h:53-75 | the target holds what the source held, also on self-assignment |
| `EciesPrivateKeys.EciesPrivateKey.GetNistPrivateKeyValue` | tink/hybrid/ecies_private_key.cc:230-248 | on the three NIST curves only, with a right or empty cache, the integer of the private key bytes; the cache stays right |
| `EciesPrivateKeys.CreateForNistCurve` | tink/hybrid/ecies_private_key.cc:170-189 | succeeds exactly for the curve's length and a matching pair |
| `EciesPrivateKeys.CreateFromBigInteger` | tink/hybrid/ecies_private_key.cc:193-206 | an integer that fits is never refused for its length, and a created key gives it back; the status of each failure |
| `EciesPrivateKeys.CreateAllowNonConstantTime` | tink/hybrid/ecies_private_key.cc:210-227 | succeeds exactly if the integer fits and the pair matches; the status of each failure |
| `EciesPrivateKeys.RoutesAgree` | tink/hybrid/ecies_private_key.cc:170-227 | the routes store the same bytes for the same integer |
| `EciesPrivateKeys.PrivateKeyLengthHoldsField` | tink/hybrid/ecies_parameters.cc:146-159 | the length of a private key is exactly the number of bytes the prime of the curve's field needs |
| `EciesPrivateKeys.PerformRefinesPlain` | tink/hybrid/ecies_private_key.h:42-75 | each read, copy, assignment or creation acts as without caches and keeps them right |
| `EciesPrivateKeys.CachingIsTransparent` | tink/hybrid/ecies_private_key.cc:230-248 | over every run the caches stay empty or right and nothing returned depends on them |
| `EciesPrivateKeys.Act` | tink/hybrid/ecies_private_key.h:42-75 | the methods of key objects do that to the object they are called on and to no other |
| `EciesPrivateKeys.Run` | tink/hybrid/ecies_private_key.cc:230-248 | any run on distinct key objects with empty or right caches returns what it would return without caches |

## Left out

- BoringSSL and OpenSSL calls, constant-time behaviour, secret zeroing, core-dump protection, access tokens and pointer ownership: foreign or without functional content.
- The registry, configurations, key managers, key templates and the key and parameter classes: rotation uses them only to turn key data into primitives and key objects, and that is a function parameter here.
- Protobuf wire encoding, keyset readers and writers: the encoding is an abstract pair of functions and the encrypted bytes are passed on directly.
- What a monitoring factory does with its context: its answers are a parameter of Wrap.
- Moves of keys, handles and builder entries, and the emptied objects they leave behind.
- Data races on an ECIES key that is assigned while it is read by another thread: the runs are sequential.
- CreateForCurveX25519 and the comparison of ECIES keys: a length check and an abstract key-pair check, and field-wise equality.
- Concurrent use of a single builder or handle: neither has a mutex.
- The FAILED_PRECONDITION and INTERNAL texts of error messages: only the status codes are modelled.
- Fixed id strategies without an id, and strategies other than fixed and random: the setters cannot produce them.
- KeysetHandles.GetPublicKeysetHandle: reading an entry that cannot be created aborts the process there, so such handles are excluded by a precondition; the same holds for KeysetHandleBuilders.KeysetHandleBuilder.FromHandle and the methods that use them.
- MAC, PRF, signature, hybrid, streaming and JWT wrappers: the same routing over other primitives.
