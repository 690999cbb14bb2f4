/** CordAeadSetWrapper: the routing over segmented byte strings. */
module CordAeadWrappers {
  import opened Base
  import opened PrimitiveSets
  import opened AeadWrappers
  import CryptoFormat

  /** A byte string in segments. */
  type Cord = seq<Bytes>

  function Flatten(c: Cord): Bytes {
    if c == [] then [] else c[0] + Flatten(c[1..])
  }

  function Min(a: nat, b: nat): nat { if a < b then a else b }

  function Take(c: Cord, n: nat): Cord {
    if c == [] || n == 0 then []
    else if |c[0]| <= n then [c[0]] + Take(c[1..], n - |c[0]|)
    else [c[0][..n]]
  }

  function Drop(c: Cord, n: nat): Cord {
    if c == [] || n == 0 then c
    else if |c[0]| <= n then Drop(c[1..], n - |c[0]|)
    else [c[0][n..]] + c[1..]
  }

  /** Up to n bytes from a position, sharing segments. */
  function Subcord(c: Cord, pos: nat, n: nat): Cord {
    Take(Drop(c, pos), n)
  }

  lemma {:induction false} FlattenTake(c: Cord, n: nat)
    ensures Flatten(Take(c, n)) == Flatten(c)[..Min(n, |Flatten(c)|)]
  {
    if c != [] && n != 0 {
      if |c[0]| <= n {
        FlattenTake(c[1..], n - |c[0]|);
        assert ([c[0]] + Take(c[1..], n - |c[0]|))[1..] == Take(c[1..], n - |c[0]|);
      } else {
        assert [c[0][..n]][1..] == [];
      }
    }
  }

  lemma {:induction false} FlattenDrop(c: Cord, n: nat)
    ensures Flatten(Drop(c, n)) == Flatten(c)[Min(n, |Flatten(c)|)..]
  {
    if c != [] && n != 0 {
      if |c[0]| <= n {
        FlattenDrop(c[1..], n - |c[0]|);
      } else {
        assert ([c[0][n..]] + c[1..])[1..] == c[1..];
      }
    }
  }

  lemma SliceOfSlice(s: Bytes, from: nat, n: nat)
    requires from <= |s|
    ensures s[from..][..Min(n, |s| - from)] == s[from..Min(from + n, |s|)]
  {
  }

  /** Whatever the segments, a subcord holds the bytes of the substring. */
  lemma FlattenSubcord(c: Cord, pos: nat, n: nat)
    ensures
      var s := Flatten(c);
      var from := Min(pos, |s|);
      Flatten(Subcord(c, pos, n)) == s[from..Min(from + n, |s|)]
  {
    var s := Flatten(c);
    var from := Min(pos, |s|);
    FlattenDrop(c, pos);
    FlattenTake(Drop(c, pos), n);
    SliceOfSlice(s, from, n);
  }

  datatype CordAead = CordAead(
    encrypt: (Cord, Cord, Bytes) -> Result<Cord>,
    decrypt: (Cord, Cord) -> Result<Cord>)

  function CordOpens(c: Cord, ad: Cord): CordAead -> bool {
    (a: CordAead) => a.decrypt(c, ad).Ok?
  }

  function CordTail(c: Cord): Cord {
    Subcord(c, CryptoFormat.NON_RAW_PREFIX_SIZE, |Flatten(c)|)
  }

  lemma FlattenCordTail(c: Cord)
    ensures Flatten(CordTail(c)) == Tail(Flatten(c))
  {
    FlattenSubcord(c, CryptoFormat.NON_RAW_PREFIX_SIZE, |Flatten(c)|);
  }

  lemma FlattenCordPrefix(c: Cord)
    requires |Flatten(c)| > CryptoFormat.NON_RAW_PREFIX_SIZE
    ensures Flatten(Subcord(c, 0, CryptoFormat.NON_RAW_PREFIX_SIZE)) == Flatten(c)[..CryptoFormat.NON_RAW_PREFIX_SIZE]
  {
    FlattenSubcord(c, 0, CryptoFormat.NON_RAW_PREFIX_SIZE);
  }

  function CordDecryptor(es: seq<Entry<CordAead>>, c: Cord, ad: Cord): (w: Option<nat>)
    ensures w.Some? ==> w.value < |es|
  {
    Winner(es, Flatten(c), CordOpens(CordTail(c), ad), CordOpens(c, ad))
  }

  function CordSetDecrypt(es: seq<Entry<CordAead>>, c: Cord, ad: Cord): (r: Result<Cord>)
    ensures r.Err? ==> r.code == InvalidArgument
  {
    var w := CordDecryptor(es, c, ad);
    if w.None? then Err(InvalidArgument)
    else es[w.value].primitive.decrypt(if es[w.value].identifier == [] then c else CordTail(c), ad)
  }

  method Encrypt(cordSet: PrimitiveSet<CordAead>, m: Cord, ad: Cord, coins: Bytes) returns (r: Result<Cord>)
    requires cordSet.primary.Some?
    ensures
      var raw := cordSet.primary.value.primitive.encrypt(m, ad, coins);
      && (r.Err? <==> raw.Err?)
      && (r.Ok? ==> Flatten(r.value) == cordSet.primary.value.identifier + Flatten(raw.value))
      && (r.Err? ==> r == raw)
  {
    var raw := cordSet.primary.value.primitive.encrypt(m, ad, coins);
    if raw.Err? {
      return raw;
    }
    var result: Cord := [];
    result := result + [cordSet.primary.value.identifier];
    result := result + raw.value;
    assert result[1..] == raw.value;
    return Ok(result);
  }

  method Decrypt(cordSet: PrimitiveSet<CordAead>, c: Cord, ad: Cord) returns (r: Result<Cord>)
    requires WellIndexed(cordSet)
    ensures r == CordSetDecrypt(cordSet.inKeysetOrder, c, ad)
  {
    ghost var es := cordSet.inKeysetOrder;
    var size := |Flatten(c)|;
    if size > CryptoFormat.NON_RAW_PREFIX_SIZE {
      var keyId := Flatten(Subcord(c, 0, CryptoFormat.NON_RAW_PREFIX_SIZE));
      FlattenCordPrefix(c);
      if keyId in cordSet.primitives {
        var rawCiphertext := Subcord(c, |keyId|, size);
        var bucket := cordSet.primitives[keyId];
        for k := 0 to |bucket|
          invariant forall j :: 0 <= j < k ==> !CordOpens(rawCiphertext, ad)(bucket[j].primitive)
        {
          var plaintext := bucket[k].primitive.decrypt(rawCiphertext, ad);
          if plaintext.Ok? {
            BucketFindsLeast(es, keyId, CordOpens(rawCiphertext, ad), k);
            return plaintext;
          }
        }
      }
      BucketFindsLeast(es, keyId, CordOpens(CordTail(c), ad), |Bucket(es, keyId)|);
    }
    if CryptoFormat.RAW_PREFIX in cordSet.primitives {
      var bucket := cordSet.primitives[CryptoFormat.RAW_PREFIX];
      for k := 0 to |bucket|
        invariant forall j :: 0 <= j < k ==> !CordOpens(c, ad)(bucket[j].primitive)
      {
        var plaintext := bucket[k].primitive.decrypt(c, ad);
        if plaintext.Ok? {
          BucketFindsLeast(es, CryptoFormat.RAW_PREFIX, CordOpens(c, ad), k);
          return plaintext;
        }
      }
    }
    BucketFindsLeast(es, CryptoFormat.RAW_PREFIX, CordOpens(c, ad), |Bucket(es, CryptoFormat.RAW_PREFIX)|);
    return Err(InvalidArgument);
  }

  /** Same success and, flattened, same bytes. */
  predicate SameBytes(r: Result<Cord>, s: Result<Bytes>) {
    (r.Ok? <==> s.Ok?) && (r.Ok? ==> Flatten(r.value) == s.value)
  }

  /** The cord primitive treats any segmentation as the string AEAD treats the bytes. */
  ghost predicate CordDecryptsAs(k: CordAead, a: Aead) {
    forall c: Cord, ad: Cord :: SameBytes(k.decrypt(c, ad), a.decrypt(Flatten(c), Flatten(ad)))
  }

  /** Over corresponding sets, and for every segmentation, the cord wrapper decrypts as the string wrapper does. */
  lemma CordAgreesWithString(ks: seq<Entry<CordAead>>, es: seq<Entry<Aead>>, c: Cord, ad: Cord)
    requires |ks| == |es|
    requires forall i :: 0 <= i < |ks| ==>
      ks[i].identifier == es[i].identifier && CordDecryptsAs(ks[i].primitive, es[i].primitive)
    ensures SameBytes(CordSetDecrypt(ks, c, ad), SetDecrypt(es, Flatten(c), Flatten(ad)))
  {
    var s, t := Flatten(c), Flatten(ad);
    FlattenCordTail(c);
    forall i | 0 <= i < |ks|
      ensures CordOpens(CordTail(c), ad)(ks[i].primitive) == Opens(Tail(s), t)(es[i].primitive)
      ensures CordOpens(c, ad)(ks[i].primitive) == Opens(s, t)(es[i].primitive)
    {
      var k, a := ks[i].primitive, es[i].primitive;
      assert SameBytes(k.decrypt(c, ad), a.decrypt(s, t));
      assert SameBytes(k.decrypt(CordTail(c), ad), a.decrypt(Flatten(CordTail(c)), t));
    }
    WinnerDependsOnAcceptance(ks, es, s, CordOpens(CordTail(c), ad), CordOpens(c, ad), Opens(Tail(s), t), Opens(s, t));
  }
}
