/** Rotation safety of the deterministic and the cord wrappers, by replacing every primitive of a set by an AEAD. */
module WrapperRotations {
  import opened Base
  import opened Keysets
  import opened PrimitiveSets
  import opened AeadWrappers
  import opened DeterministicAeadWrappers
  import opened CordAeadWrappers
  import opened Rotation
  import Lifecycle

  // ---- Replacing the primitives of a set --------------------------------------------------

  function MapEntry<P, Q>(e: Entry<P>, f: P -> Q): Entry<Q> {
    Entry(f(e.primitive), e.identifier, e.keyId)
  }

  function MapEntries<P, Q>(es: seq<Entry<P>>, f: P -> Q): (r: seq<Entry<Q>>)
    ensures |r| == |es| && forall i :: 0 <= i < |es| ==> r[i] == MapEntry(es[i], f)
  {
    seq(|es|, i requires 0 <= i < |es| => MapEntry(es[i], f))
  }

  function MapGetter<P, Q>(get: Getter<P>, f: P -> Q): Getter<Q> {
    (d: KeyData) => match get(d) case Ok(p) => Ok(f(p)) case Err(code) => Err(code)
  }

  function MapSet<P, Q>(ps: PrimitiveSet<P>, f: P -> Q): PrimitiveSet<Q> {
    PrimitiveSet(map id | id in ps.primitives :: MapEntries(ps.primitives[id], f),
                 if ps.primary.Some? then Some(MapEntry(ps.primary.value, f)) else None,
                 MapEntries(ps.inKeysetOrder, f))
  }

  lemma {:induction false} MapBucket<P, Q>(es: seq<Entry<P>>, f: P -> Q, id: Bytes)
    ensures Bucket(MapEntries(es, f), id) == MapEntries(Bucket(es, id), f)
  {
    if es != [] {
      var n := |es| - 1;
      assert MapEntries(es, f)[..n] == MapEntries(es[..n], f);
      MapBucket(es[..n], f, id);
    }
  }

  lemma {:induction false} MapEntriesOf<P, Q>(keys: seq<Key>, get: Getter<P>, f: P -> Q, n: nat)
    requires n <= |keys|
    ensures EntriesOf(keys, MapGetter(get, f), n) == MapEntries(EntriesOf(keys, get, n), f)
  {
    if n > 0 {
      MapEntriesOf(keys, get, f, n - 1);
    }
  }

  lemma MapWellIndexed<P, Q>(ps: PrimitiveSet<P>, f: P -> Q)
    requires WellIndexed(ps)
    ensures WellIndexed(MapSet(ps, f))
  {
    var es := ps.inKeysetOrder;
    forall id: Bytes ensures Bucket(MapEntries(es, f), id) == MapEntries(Bucket(es, id), f) {
      MapBucket(es, f, id);
    }
  }

  /** Replacing the primitives after loading is loading replaced primitives. */
  lemma MapLoads<P, Q>(ps: PrimitiveSet<P>, ks: Keyset, get: Getter<P>, f: P -> Q)
    requires Loads(ps, ks, get)
    ensures Loads(MapSet(ps, f), ks, MapGetter(get, f))
  {
    MapWellIndexed(ps, f);
    MapEntriesOf(ks.keys, get, f, |ks.keys|);
  }

  lemma MapRotated<P, Q>(ks: Keyset, ops: seq<Lifecycle.Op>, get: Getter<P>, ps: PrimitiveSet<P>,
                         later: PrimitiveSet<P>, f: P -> Q)
    requires Rotated(ks, ops, get, ps, later)
    ensures Rotated(ks, ops, MapGetter(get, f), MapSet(ps, f), MapSet(later, f))
  {
    MapLoads(ps, ks, get, f);
    MapLoads(later, Lifecycle.Run(ks, ops), get, f);
  }

  /** Both cases of rotation safety: the primary is prefixed, or no entry tried before it accepts. */
  ghost predicate Undisturbed(ks: Keyset, later: PrimitiveSet<Aead>, e: Entry<Aead>, raw: Bytes, ad: Bytes) {
    if PrimaryPrefixed(ks) then raw != [] else NoneEarlierAccepts(later.inKeysetOrder, e, raw, ad)
  }

  lemma RotationReturnsPlaintext(ks: Keyset, ops: seq<Lifecycle.Op>, get: Getter<Aead>, ps: PrimitiveSet<Aead>,
                                 later: PrimitiveSet<Aead>, m: Bytes, ad: Bytes, coins: Bytes)
    requires Rotated(ks, ops, get, ps, later) && Inverts(ps.primary.value.primitive)
    requires ps.primary.value.primitive.encrypt(m, ad, coins).Ok?
    requires Undisturbed(ks, later, ps.primary.value, ps.primary.value.primitive.encrypt(m, ad, coins).value, ad)
    ensures
      var c := ps.primary.value.identifier + ps.primary.value.primitive.encrypt(m, ad, coins).value;
      SetDecrypt(later.inKeysetOrder, c, ad) == Ok(m)
  {
    var e := ps.primary.value;
    var _ := PrimaryStandsFor(ks, get, ps);
    if PrimaryPrefixed(ks) {
      RotationIsSafe(ks, ops, get, ps, later, m, ad, coins);
    } else {
      assert e.identifier + e.primitive.encrypt(m, ad, coins).value == e.primitive.encrypt(m, ad, coins).value;
      RawRotationIsSafe(ks, ops, get, ps, later, m, ad, coins);
    }
  }

  // ---- Deterministic AEADs ----------------------------------------------------------------

  function Randomless(): Daead -> Aead {
    (d: Daead) => Aead((m, ad, coins) => d.encrypt(m, ad), d.decrypt)
  }

  ghost predicate DetInverts(d: Daead) {
    forall m, ad :: d.encrypt(m, ad).Ok? ==> d.decrypt(d.encrypt(m, ad).value, ad) == Ok(m)
  }

  /**
   * What the deterministic wrapper encrypts, the wrapper of any later keyset decrypts, if the key was not
   * deleted and is ENABLED; if it is RAW, as long as no entry tried before it accepts the ciphertext.
   */
  lemma DeterministicRotationIsSafe(ks: Keyset, ops: seq<Lifecycle.Op>, get: Getter<Daead>,
                                    ps: PrimitiveSet<Daead>, later: PrimitiveSet<Daead>, m: Bytes, ad: Bytes)
    requires Rotated(ks, ops, get, ps, later) && DetInverts(ps.primary.value.primitive)
    requires DetSetEncrypt(ps.primary.value, m, ad).Ok?
    requires
      var e := ps.primary.value;
      Undisturbed(ks, MapSet(later, Randomless()), MapEntry(e, Randomless()), e.primitive.encrypt(m, ad).value, ad)
    ensures DetSetDecrypt(later.inKeysetOrder, DetSetEncrypt(ps.primary.value, m, ad).value, ad) == Ok(m)
  {
    var f := Randomless();
    var c := DetSetEncrypt(ps.primary.value, m, ad).value;
    MapRotated(ks, ops, get, ps, later, f);
    RotationReturnsPlaintext(ks, ops, MapGetter(get, f), MapSet(ps, f), MapSet(later, f), m, ad, []);
    DeterministicAgreesWithAead(later.inKeysetOrder, MapSet(later, f).inKeysetOrder, c, ad);
  }

  // ---- Cords ------------------------------------------------------------------------------

  /** However its arguments are segmented, the cord primitive does to the bytes what the AEAD does. */
  ghost predicate CordActsAs(k: CordAead, a: Aead) {
    && CordDecryptsAs(k, a)
    && forall m: Cord, ad: Cord, coins ::
         SameBytes(k.encrypt(m, ad, coins), a.encrypt(Flatten(m), Flatten(ad), coins))
  }

  /**
   * The same for cords: any segmentation of the ciphertext and of the associated data decrypts to the bytes
   * that were encrypted. `f` gives the string AEADs that the primitives amount to.
   */
  lemma CordRotationIsSafe(ks: Keyset, ops: seq<Lifecycle.Op>, get: Getter<CordAead>, ps: PrimitiveSet<CordAead>,
                           later: PrimitiveSet<CordAead>, f: CordAead -> Aead,
                           m: Cord, ad: Cord, coins: Bytes, c: Cord, ad': Cord)
    requires Rotated(ks, ops, get, ps, later)
    requires CordActsAs(ps.primary.value.primitive, f(ps.primary.value.primitive))
    requires forall i :: 0 <= i < |later.inKeysetOrder| ==>
      CordActsAs(later.inKeysetOrder[i].primitive, f(later.inKeysetOrder[i].primitive))
    requires Inverts(f(ps.primary.value.primitive))
    requires ps.primary.value.primitive.encrypt(m, ad, coins).Ok?
    requires
      var e := ps.primary.value;
      var raw := Flatten(e.primitive.encrypt(m, ad, coins).value);
      && Flatten(c) == e.identifier + raw && Flatten(ad') == Flatten(ad)
      && Undisturbed(ks, MapSet(later, f), MapEntry(e, f), raw, Flatten(ad))
    ensures SameBytes(CordSetDecrypt(later.inKeysetOrder, c, ad'), Ok(Flatten(m)))
  {
    var k, s, t := ps.primary.value.primitive, Flatten(m), Flatten(ad);
    assert SameBytes(k.encrypt(m, ad, coins), f(k).encrypt(s, t, coins));
    MapRotated(ks, ops, get, ps, later, f);
    RotationReturnsPlaintext(ks, ops, MapGetter(get, f), MapSet(ps, f), MapSet(later, f), s, t, coins);
    CordAgreesWithString(later.inKeysetOrder, MapSet(later, f).inKeysetOrder, c, ad');
  }
}
