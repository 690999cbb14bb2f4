/** DeterministicAeadSetWrapper: the same routing over deterministic primitives. */
module DeterministicAeadWrappers {
  import opened Base
  import opened PrimitiveSets
  import opened Monitoring
  import opened AeadWrappers
  import CryptoFormat

  datatype Daead = Daead(
    encrypt: (Bytes, Bytes) -> Result<Bytes>,
    decrypt: (Bytes, Bytes) -> Result<Bytes>)

  function DetOpens(c: Bytes, ad: Bytes): Daead -> bool {
    (d: Daead) => d.decrypt(c, ad).Ok?
  }

  function DetDecryptor(es: seq<Entry<Daead>>, c: Bytes, ad: Bytes): (w: Option<nat>)
    ensures w.Some? ==> w.value < |es|
  {
    Winner(es, c, DetOpens(Tail(c), ad), DetOpens(c, ad))
  }

  function DetSetDecrypt(es: seq<Entry<Daead>>, c: Bytes, ad: Bytes): (r: Result<Bytes>)
    ensures r.Err? ==> r.code == InvalidArgument
  {
    var w := DetDecryptor(es, c, ad);
    if w.None? then Err(InvalidArgument) else es[w.value].primitive.decrypt(Rest(es[w.value], c), ad)
  }

  function DetDecryptEvent(es: seq<Entry<Daead>>, c: Bytes, ad: Bytes): Event {
    var w := DetDecryptor(es, c, ad);
    if w.None? then Failure else Used(es[w.value].keyId, |Rest(es[w.value], c)|)
  }

  function DetSetEncrypt(primary: Entry<Daead>, m: Bytes, ad: Bytes): Result<Bytes> {
    var raw := primary.primitive.encrypt(m, ad);
    if raw.Err? then raw else Ok(primary.identifier + raw.value)
  }

  class DeterministicAeadSetWrapper {
    const daeadSet: PrimitiveSet<Daead>
    const encryptionClient: MonitoringClient?
    const decryptionClient: MonitoringClient?

    ghost predicate Valid() {
      WellIndexed(daeadSet) && daeadSet.primary.Some?
    }

    constructor (daeadSet: PrimitiveSet<Daead>, encryptionClient: MonitoringClient?,
                 decryptionClient: MonitoringClient?)
      requires WellIndexed(daeadSet) && daeadSet.primary.Some?
      ensures Valid()
      ensures this.daeadSet == daeadSet
      ensures this.encryptionClient == encryptionClient && this.decryptionClient == decryptionClient
    {
      this.daeadSet, this.encryptionClient, this.decryptionClient := daeadSet, encryptionClient, decryptionClient;
    }

    method EncryptDeterministically(m: Bytes, ad: Bytes) returns (r: Result<Bytes>)
      requires Valid()
      modifies Footprint(encryptionClient)
      ensures r == DetSetEncrypt(daeadSet.primary.value, m, ad)
      ensures
        match daeadSet.primary.value.primitive.encrypt(m, ad)
        case Ok(raw) => r == Ok(daeadSet.primary.value.identifier + raw)
        case Err(code) => r == Err(code)
      ensures encryptionClient != null ==>
        encryptionClient.events
        == old(encryptionClient.events) + [if r.Ok? then Used(daeadSet.primary.value.keyId, |m|) else Failure]
    {
      var primary := daeadSet.primary.value;
      var result := primary.primitive.encrypt(m, ad);
      if result.Err? {
        if encryptionClient != null {
          encryptionClient.LogFailure();
        }
        return result;
      }
      if encryptionClient != null {
        encryptionClient.Log(primary.keyId, |m|);
      }
      return Ok(primary.identifier + result.value);
    }

    method DecryptDeterministically(c: Bytes, ad: Bytes) returns (r: Result<Bytes>)
      requires Valid()
      modifies Footprint(decryptionClient)
      ensures r == DetSetDecrypt(daeadSet.inKeysetOrder, c, ad)
      ensures decryptionClient != null ==>
        decryptionClient.events
        == old(decryptionClient.events) + [DetDecryptEvent(daeadSet.inKeysetOrder, c, ad)]
    {
      ghost var es := daeadSet.inKeysetOrder;
      if |c| > CryptoFormat.NON_RAW_PREFIX_SIZE {
        var keyId := c[..CryptoFormat.NON_RAW_PREFIX_SIZE];
        var rawCiphertext := c[CryptoFormat.NON_RAW_PREFIX_SIZE..];
        if keyId in daeadSet.primitives {
          var bucket := daeadSet.primitives[keyId];
          for k := 0 to |bucket|
            invariant decryptionClient != null ==> decryptionClient.events == old(decryptionClient.events)
            invariant forall j :: 0 <= j < k ==> !DetOpens(rawCiphertext, ad)(bucket[j].primitive)
          {
            var plaintext := bucket[k].primitive.decrypt(rawCiphertext, ad);
            if plaintext.Ok? {
              BucketFindsLeast(es, keyId, DetOpens(rawCiphertext, ad), k);
              if decryptionClient != null {
                decryptionClient.Log(bucket[k].keyId, |rawCiphertext|);
              }
              return plaintext;
            }
          }
        }
        BucketFindsLeast(es, keyId, DetOpens(rawCiphertext, ad), |Bucket(es, keyId)|);
      }
      if CryptoFormat.RAW_PREFIX in daeadSet.primitives {
        var bucket := daeadSet.primitives[CryptoFormat.RAW_PREFIX];
        for k := 0 to |bucket|
          invariant decryptionClient != null ==> decryptionClient.events == old(decryptionClient.events)
          invariant forall j :: 0 <= j < k ==> !DetOpens(c, ad)(bucket[j].primitive)
        {
          var plaintext := bucket[k].primitive.decrypt(c, ad);
          if plaintext.Ok? {
            BucketFindsLeast(es, CryptoFormat.RAW_PREFIX, DetOpens(c, ad), k);
            if decryptionClient != null {
              decryptionClient.Log(bucket[k].keyId, |c|);
            }
            return plaintext;
          }
        }
      }
      BucketFindsLeast(es, CryptoFormat.RAW_PREFIX, DetOpens(c, ad), |Bucket(es, CryptoFormat.RAW_PREFIX)|);
      if decryptionClient != null {
        decryptionClient.LogFailure();
      }
      return Err(InvalidArgument);
    }
  }

  /** The deterministic primitive behaves as the AEAD on every ciphertext. */
  ghost predicate DecryptsAs(d: Daead, a: Aead) {
    forall c, ad :: d.decrypt(c, ad) == a.decrypt(c, ad)
  }

  /** Over corresponding sets the deterministic wrapper decrypts, and reports, as the AEAD wrapper does. */
  lemma DeterministicAgreesWithAead(ds: seq<Entry<Daead>>, es: seq<Entry<Aead>>, c: Bytes, ad: Bytes)
    requires |ds| == |es|
    requires forall i :: 0 <= i < |ds| ==>
      && ds[i].identifier == es[i].identifier && ds[i].keyId == es[i].keyId
      && DecryptsAs(ds[i].primitive, es[i].primitive)
    ensures DetSetDecrypt(ds, c, ad) == SetDecrypt(es, c, ad)
    ensures DetDecryptEvent(ds, c, ad) == DecryptEvent(es, c, ad)
  {
    WinnerDependsOnAcceptance(ds, es, c, DetOpens(Tail(c), ad), DetOpens(c, ad), Opens(Tail(c), ad), Opens(c, ad));
  }
}
