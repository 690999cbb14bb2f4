/** AeadSetWrapper: one AEAD made of a keyset's primitives. */
module AeadWrappers {
  import opened Base
  import opened Keysets
  import opened PrimitiveSets
  import opened Monitoring
  import CryptoFormat

  /** An AEAD as in sections 2.1 and 2.2 of RFC 5116; the third argument of `encrypt` is its randomness. */
  datatype Aead = Aead(
    encrypt: (Bytes, Bytes, Bytes) -> Result<Bytes>,
    decrypt: (Bytes, Bytes) -> Result<Bytes>)

  /** Decryption undoes encryption. */
  ghost predicate Inverts(a: Aead) {
    forall m, ad, coins ::
      a.encrypt(m, ad, coins).Ok? ==> a.decrypt(a.encrypt(m, ad, coins).value, ad) == Ok(m)
  }

  /** What is left of a ciphertext after a five-byte prefix. */
  function Tail(c: Bytes): Bytes {
    if |c| > CryptoFormat.NON_RAW_PREFIX_SIZE then c[CryptoFormat.NON_RAW_PREFIX_SIZE..] else []
  }

  /** What an entry is given to decrypt. */
  function Rest<P>(e: Entry<P>, c: Bytes): Bytes {
    if e.identifier == [] then c else Tail(c)
  }

  function Opens(c: Bytes, ad: Bytes): Aead -> bool {
    (a: Aead) => a.decrypt(c, ad).Ok?
  }

  /** The index of the entry that decrypts a ciphertext. */
  function Decryptor(es: seq<Entry<Aead>>, c: Bytes, ad: Bytes): (w: Option<nat>)
    ensures w.Some? ==> w.value < |es|
  {
    Winner(es, c, Opens(Tail(c), ad), Opens(c, ad))
  }

  function SetDecrypt(es: seq<Entry<Aead>>, c: Bytes, ad: Bytes): (r: Result<Bytes>)
    ensures r.Err? ==> r.code == InvalidArgument
  {
    var w := Decryptor(es, c, ad);
    if w.None? then Err(InvalidArgument) else es[w.value].primitive.decrypt(Rest(es[w.value], c), ad)
  }

  function DecryptEvent(es: seq<Entry<Aead>>, c: Bytes, ad: Bytes): Event {
    var w := Decryptor(es, c, ad);
    if w.None? then Failure else Used(es[w.value].keyId, |Rest(es[w.value], c)|)
  }

  function SetEncrypt(primary: Entry<Aead>, m: Bytes, ad: Bytes, coins: Bytes): Result<Bytes> {
    var raw := primary.primitive.encrypt(m, ad, coins);
    if raw.Err? then raw else Ok(primary.identifier + raw.value)
  }

  class AeadSetWrapper {
    const aeadSet: PrimitiveSet<Aead>
    const encryptionClient: MonitoringClient?
    const decryptionClient: MonitoringClient?

    ghost predicate Valid() {
      WellIndexed(aeadSet) && aeadSet.primary.Some?
    }

    constructor (aeadSet: PrimitiveSet<Aead>, encryptionClient: MonitoringClient?, decryptionClient: MonitoringClient?)
      requires WellIndexed(aeadSet) && aeadSet.primary.Some?
      ensures Valid()
      ensures this.aeadSet == aeadSet
      ensures this.encryptionClient == encryptionClient && this.decryptionClient == decryptionClient
    {
      this.aeadSet, this.encryptionClient, this.decryptionClient := aeadSet, encryptionClient, decryptionClient;
    }

    method Encrypt(m: Bytes, ad: Bytes, coins: Bytes) returns (r: Result<Bytes>)
      requires Valid()
      modifies Footprint(encryptionClient)
      ensures r == SetEncrypt(aeadSet.primary.value, m, ad, coins)
      ensures encryptionClient != null ==>
        encryptionClient.events
        == old(encryptionClient.events) + [if r.Ok? then Used(aeadSet.primary.value.keyId, |m|) else Failure]
    {
      var primary := aeadSet.primary.value;
      var ciphertext := primary.primitive.encrypt(m, ad, coins);
      if ciphertext.Err? {
        if encryptionClient != null {
          encryptionClient.LogFailure();
        }
        return ciphertext;
      }
      if encryptionClient != null {
        encryptionClient.Log(primary.keyId, |m|);
      }
      return Ok(primary.identifier + ciphertext.value);
    }

    /** Succeeds and logs exactly as the scan of all entries in keyset order prescribes. */
    method Decrypt(c: Bytes, ad: Bytes) returns (r: Result<Bytes>)
      requires Valid()
      modifies Footprint(decryptionClient)
      ensures r == SetDecrypt(aeadSet.inKeysetOrder, c, ad)
      ensures decryptionClient != null ==>
        decryptionClient.events
        == old(decryptionClient.events) + [DecryptEvent(aeadSet.inKeysetOrder, c, ad)]
    {
      ghost var es := aeadSet.inKeysetOrder;
      if |c| > CryptoFormat.NON_RAW_PREFIX_SIZE {
        var keyId := c[..CryptoFormat.NON_RAW_PREFIX_SIZE];
        var rawCiphertext := c[CryptoFormat.NON_RAW_PREFIX_SIZE..];
        if keyId in aeadSet.primitives {
          var bucket := aeadSet.primitives[keyId];
          for k := 0 to |bucket|
            invariant decryptionClient != null ==> decryptionClient.events == old(decryptionClient.events)
            invariant forall j :: 0 <= j < k ==> !Opens(rawCiphertext, ad)(bucket[j].primitive)
          {
            var plaintext := bucket[k].primitive.decrypt(rawCiphertext, ad);
            if plaintext.Ok? {
              BucketFindsLeast(es, keyId, Opens(rawCiphertext, ad), k);
              if decryptionClient != null {
                decryptionClient.Log(bucket[k].keyId, |rawCiphertext|);
              }
              return plaintext;
            }
          }
        }
        BucketFindsLeast(es, keyId, Opens(rawCiphertext, ad), |Bucket(es, keyId)|);
      }
      if CryptoFormat.RAW_PREFIX in aeadSet.primitives {
        var bucket := aeadSet.primitives[CryptoFormat.RAW_PREFIX];
        for k := 0 to |bucket|
          invariant decryptionClient != null ==> decryptionClient.events == old(decryptionClient.events)
          invariant forall j :: 0 <= j < k ==> !Opens(c, ad)(bucket[j].primitive)
        {
          var plaintext := bucket[k].primitive.decrypt(c, ad);
          if plaintext.Ok? {
            BucketFindsLeast(es, CryptoFormat.RAW_PREFIX, Opens(c, ad), k);
            if decryptionClient != null {
              decryptionClient.Log(bucket[k].keyId, |c|);
            }
            return plaintext;
          }
        }
      }
      BucketFindsLeast(es, CryptoFormat.RAW_PREFIX, Opens(c, ad), |Bucket(es, CryptoFormat.RAW_PREFIX)|);
      if decryptionClient != null {
        decryptionClient.LogFailure();
      }
      return Err(InvalidArgument);
    }
  }

  /** A keyset's wrapped AEAD: the set is loaded, must have a primary, and monitoring must be set up. */
  method Wrap(ks: Keyset, get: Getter<Aead>, factory: Factory) returns (r: Result<AeadSetWrapper>)
    ensures r.Ok? <==>
      && ValidForUse(ks) && AllUsable(ks, get, |ks.keys|) && (exists i: nat :: EnabledPrimaryAt(ks, i))
      && (factory.NoFactory? || (factory.info.Ok? && factory.encryption.Ok? && factory.decryption.Ok?))
    ensures r.Ok? ==>
      && r.value.Valid() && Loads(r.value.aeadSet, ks, get)
      && (if factory.NoFactory? then r.value.encryptionClient == null == r.value.decryptionClient
          else r.value.encryptionClient == factory.encryption.value
               && r.value.decryptionClient == factory.decryption.value)
    ensures r.Err? ==>
      if !ValidForUse(ks) || !AllUsable(ks, get, |ks.keys|) then LoadError(ks, get, r.code)
      else if !exists i: nat :: EnabledPrimaryAt(ks, i) then r.code == InvalidArgument
      else if factory.info.Err? then r.code == factory.info.code
      else if factory.encryption.Err? then r.code == factory.encryption.code
      else factory.decryption == Err(r.code)
  {
    var ps := WrapKeyset(ks, get);
    if ps.Err? {
      return Err(ps.code);
    }
    if ps.value.primary.None? {
      return Err(InvalidArgument);
    }
    if factory.NoFactory? {
      var wrapper := new AeadSetWrapper(ps.value, null, null);
      return Ok(wrapper);
    }
    if factory.info.Err? {
      return Err(factory.info.code);
    }
    if factory.encryption.Err? {
      return Err(factory.encryption.code);
    }
    if factory.decryption.Err? {
      return Err(factory.decryption.code);
    }
    var wrapper := new AeadSetWrapper(ps.value, factory.encryption.value, factory.decryption.value);
    return Ok(wrapper);
  }

  /** The entry's identifier starts the ciphertext, leaves something over unless empty, and the rest decrypts. */
  predicate Takes(e: Entry<Aead>, c: Bytes, ad: Bytes) {
    && e.identifier <= c
    && (e.identifier != [] ==> |c| > |e.identifier|)
    && e.primitive.decrypt(c[|e.identifier|..], ad).Ok?
  }

  /**
   * The wrapper decrypts if and only if some entry takes the ciphertext, and then as the first prefixed entry
   * that takes it does, or else the first RAW one. It reports that entry's key and the number of bytes that
   * entry was given, or a failure.
   */
  lemma DecryptsIffSomeEntryTakes(es: seq<Entry<Aead>>, c: Bytes, ad: Bytes)
    requires ProperIdentifiers(es)
    ensures SetDecrypt(es, c, ad).Ok? <==> exists i :: 0 <= i < |es| && Takes(es[i], c, ad)
    ensures SetDecrypt(es, c, ad).Err? ==> DecryptEvent(es, c, ad) == Failure
    ensures SetDecrypt(es, c, ad).Ok? ==>
      exists w :: 0 <= w < |es| && Takes(es[w], c, ad)
        && SetDecrypt(es, c, ad) == es[w].primitive.decrypt(c[|es[w].identifier|..], ad)
        && DecryptEvent(es, c, ad) == Used(es[w].keyId, |c| - |es[w].identifier|)
        && forall j :: 0 <= j < |es| && Takes(es[j], c, ad) ==>
             if (es[j].identifier == []) == (es[w].identifier == []) then w <= j else es[j].identifier == []
  {
    var tail, whole := Opens(Tail(c), ad), Opens(c, ad);
    forall i | 0 <= i < |es| ensures Accepts(es[i], c, tail, whole) <==> Takes(es[i], c, ad) {
      assert c[0..] == c;
    }
    IndexAgreesWithScan(es, c, tail, whole);
    var w := Decryptor(es, c, ad);
    if w.Some? {
      assert Takes(es[w.value], c, ad);
      assert Rest(es[w.value], c) == c[|es[w.value].identifier|..];
    }
  }

  /** A success names a key whose primitive opened the ciphertext and what it was given; a failure names none. */
  lemma EventNamesTheKey(es: seq<Entry<Aead>>, c: Bytes, ad: Bytes)
    ensures SetDecrypt(es, c, ad).Ok? <==> DecryptEvent(es, c, ad).Used?
    ensures DecryptEvent(es, c, ad).Used? ==>
      exists i :: 0 <= i < |es| && es[i].primitive.decrypt(Rest(es[i], c), ad) == SetDecrypt(es, c, ad)
               && DecryptEvent(es, c, ad) == Used(es[i].keyId, |Rest(es[i], c)|)
  {
  }
}
