/** Ciphertexts survive key rotation, and keys that are out of use decrypt nothing. */
module Rotation {
  import opened Base
  import opened Keysets
  import opened Lifecycle
  import opened PrimitiveSets
  import opened AeadWrappers
  import opened CryptoFormat
  import BigIntegers
  import Concurrency

  predicate DistinctKeyIds<P>(es: seq<Entry<P>>) {
    forall a, b :: 0 <= a < b < |es| ==> es[a].keyId != es[b].keyId
  }

  /** With distinct ids, no two entries of the set come from the same id. */
  lemma {:induction false} EntryIdsDistinct<P>(keys: seq<Key>, get: Getter<P>, n: nat)
    requires DistinctIds(keys) && n <= |keys|
    ensures DistinctKeyIds(EntriesOf(keys, get, n))
  {
    if n > 0 {
      EntryIdsDistinct(keys, get, n - 1);
      var es, es' := EntriesOf(keys, get, n), EntriesOf(keys, get, n - 1);
      forall a, b | 0 <= a < b < |es| ensures es[a].keyId != es[b].keyId {
        assert es[a] == es'[a];
        if b == |es'| {
          assert es[b] == EntryOf(keys[n - 1], get);
          var i := EntryHasKey(keys, get, n - 1, a);
        }
      }
    }
  }

  /** With distinct ids, at most one entry has a given five-byte identifier. */
  lemma IdentifierDeterminesEntry<P>(keys: seq<Key>, get: Getter<P>, a: nat, b: nat)
    requires DistinctIds(keys)
    requires
      var es := EntriesOf(keys, get, |keys|);
      a < |es| && b < |es| && es[a].identifier == es[b].identifier != []
    ensures a == b
  {
    var i := EntryHasKey(keys, get, |keys|, a);
    var j := EntryHasKey(keys, get, |keys|, b);
    PrefixInjective(keys[i].prefix, keys[i].id, keys[j].prefix, keys[j].id);
    EntryIdsDistinct(keys, get, |keys|);
  }

  lemma {:induction false} BucketHolds<P>(es: seq<Entry<P>>, id: Bytes, k: nat) returns (i: nat)
    requires k < |Bucket(es, id)|
    ensures i < |es| && es[i].identifier == id && es[i] == Bucket(es, id)[k]
    ensures k > 0 ==> exists j :: 0 <= j < i && es[j].identifier == id
  {
    var n := |es| - 1;
    var b := Bucket(es[..n], id);
    if k < |b| {
      i := BucketHolds(es[..n], id, k);
    } else {
      i := n;
      if k > 0 {
        var j := BucketHolds(es[..n], id, 0);
      }
    }
  }

  /** In a keyset with distinct ids every bucket of a five-byte prefix holds at most one entry. */
  lemma NonRawBucketsAreSmall<P>(ps: PrimitiveSet<P>, ks: Keyset, get: Getter<P>, id: Bytes)
    requires DistinctIds(ks.keys) && Loads(ps, ks, get)
    requires id in ps.primitives && id != []
    ensures |ps.primitives[id]| == 1
  {
    var es := ps.inKeysetOrder;
    assert ps.primitives[id] == Bucket(es, id);
    if |Bucket(es, id)| > 1 {
      var i := BucketHolds(es, id, 1);
      var j :| 0 <= j < i && es[j].identifier == id;
      IdentifierDeterminesEntry(ks.keys, get, i, j);
    }
  }

  /** The key with the primary id is a TINK, LEGACY or CRUNCHY key. */
  predicate PrimaryPrefixed(ks: Keyset) {
    KeyOf(ks, ks.primary).Some? && Prefixed(KeyOf(ks, ks.primary).value.prefix)
  }

  /** The primary entry stands for the key with the primary id and has an identifier exactly if the key is prefixed. */
  lemma PrimaryStandsFor<P>(ks: Keyset, get: Getter<P>, ps: PrimitiveSet<P>) returns (i: nat)
    requires DistinctIds(ks.keys) && Loads(ps, ks, get) && ps.primary.Some?
    ensures EnabledPrimaryAt(ks, i) && KeyOf(ks, ks.primary) == Some(ks.keys[i])
    ensures Represents(ps.primary.value, ks.keys[i], get)
    ensures PrimaryPrefixed(ks) <==> ps.primary.value.identifier != []
  {
    var _ := LoadedSet(ps, ks, get);
    i :| EnabledPrimaryAt(ks, i);
    FindAt(ks.keys, ks.primary, i);
  }

  /**
   * The bytes of a ciphertext: with a TINK, LEGACY or CRUNCHY primary, a start byte, the primary id
   * big-endian, and what the primary's primitive gives; with any other, only the latter.
   */
  lemma CiphertextLayout(ks: Keyset, i: nat, get: Getter<Aead>, ps: PrimitiveSet<Aead>,
                         m: Bytes, ad: Bytes, coins: Bytes)
    requires Loads(ps, ks, get) && EnabledPrimaryAt(ks, i)
    ensures
      var key := ks.keys[i];
      && key.data.Some? && get(key.data.value).Ok?
      && match get(key.data.value).value.encrypt(m, ad, coins)
         case Err(code) => SetEncrypt(ps.primary.value, m, ad, coins) == Err(code)
         case Ok(raw) =>
           && SetEncrypt(ps.primary.value, m, ad, coins).Ok?
           && var c := SetEncrypt(ps.primary.value, m, ad, coins).value;
              if key.prefix in {Tink, Legacy, Crunchy} then
                && |c| == 5 + |raw| && c[0] == (if key.prefix == Tink then 1 else 0)
                && BigIntegers.Value(c[1..5]) == ks.primary && c[5..] == raw
              else key.prefix in {Raw, WithIdRequirement} && c == raw
  {
    var _ := LoadedSet(ps, ks, get);
    var e := ps.primary.value;
    assert Represents(e, ks.keys[i], get);
    var r := e.primitive.encrypt(m, ad, coins);
    if r.Ok? && e.identifier != [] {
      assert (e.identifier + r.value)[1..5] == e.identifier[1..];
    }
  }

  /**
   * `ps` is the primitive set of a keyset with distinct ids and a primary, `later` that of the keyset
   * after a run of calls none of which deletes that primary, which ends up ENABLED.
   */
  ghost predicate Rotated<P>(ks: Keyset, ops: seq<Op>, get: Getter<P>, ps: PrimitiveSet<P>, later: PrimitiveSet<P>) {
    && DistinctIds(ks.keys) && FeasibleRun(ks, ops)
    && Loads(ps, ks, get) && ps.primary.Some?
    && KeptDuring(ks, ops, ks.primary, 0, |ops|)
    && (KeyOf(Run(ks, ops), ks.primary).Some? ==> KeyOf(Run(ks, ops), ks.primary).value.status == Enabled)
    && Loads(later, Run(ks, ops), get)
  }

  /** The key that encrypted is in the later set, as the same entry. */
  lemma PrimaryEntrySurvives<P>(ks: Keyset, ops: seq<Op>, get: Getter<P>,
                                ps: PrimitiveSet<P>, later: PrimitiveSet<P>) returns (j: nat)
    requires Rotated(ks, ops, get, ps, later)
    ensures j < |later.inKeysetOrder| && later.inKeysetOrder[j] == ps.primary.value
    ensures DistinctIds(Run(ks, ops).keys)
  {
    var i: nat :| i < |ks.keys| && EnabledPrimaryAt(ks, i);
    FindAt(ks.keys, ks.primary, i);
    RunEvolves(ks, ops, ks.primary, 0, |ops|);
    RunDistinct(ks, ops, |ops|);
    var keys := Run(ks, ops).keys;
    var k := Find(keys, ks.primary);
    assert EnabledAt(Run(ks, ops), k);
    j := KeyHasEntry(keys, get, |keys|, k);
  }

  /**
   * Rotation safety. A keyset with distinct ids encrypts with its primary, a TINK, LEGACY or CRUNCHY
   * key. After any later calls that do not delete that key, and if it ends up ENABLED, the wrapper
   * of the later keyset sends the ciphertext to that key if and only if the raw ciphertext is not
   * empty, and then returns the plaintext. Of the primitives, only that key's own law is used.
   */
  lemma RotationIsSafe(ks: Keyset, ops: seq<Op>, get: Getter<Aead>,
                       ps: PrimitiveSet<Aead>, later: PrimitiveSet<Aead>, m: Bytes, ad: Bytes, coins: Bytes)
    requires Rotated(ks, ops, get, ps, later)
    requires PrimaryPrefixed(ks)
    requires Inverts(ps.primary.value.primitive)
    requires SetEncrypt(ps.primary.value, m, ad, coins).Ok?
    ensures
      var e := ps.primary.value;
      var c := SetEncrypt(e, m, ad, coins).value;
      var w := Decryptor(later.inKeysetOrder, c, ad);
      && (w.Some? && later.inKeysetOrder[w.value] == e <==> e.primitive.encrypt(m, ad, coins).value != [])
      && (e.primitive.encrypt(m, ad, coins).value != [] ==> SetDecrypt(later.inKeysetOrder, c, ad) == Ok(m))
  {
    var e := ps.primary.value;
    var es := later.inKeysetOrder;
    var raw := e.primitive.encrypt(m, ad, coins).value;
    var c := e.identifier + raw;
    var _ := PrimaryStandsFor(ks, get, ps);
    var j := PrimaryEntrySurvives(ks, ops, get, ps, later);
    LoadedIdentifiersAreProper(later, Run(ks, ops), get);
    if raw != [] {
      assert c[..NON_RAW_PREFIX_SIZE] == e.identifier && Tail(c) == raw;
      var w := LeastAccepting(es, c[..NON_RAW_PREFIX_SIZE], Opens(raw, ad));
      assert Opens(raw, ad)(es[j].primitive);
      IdentifierDeterminesEntry(Run(ks, ops).keys, get, w.value, j);
    }
  }

  /** Entry i gets to see the ciphertext before the RAW entry j does. */
  predicate TriedEarlier(es: seq<Entry<Aead>>, i: nat, j: nat, c: Bytes)
    requires i < |es| && j < |es|
  {
    if es[i].identifier == [] then i < j else |c| > NON_RAW_PREFIX_SIZE && es[i].identifier == c[..NON_RAW_PREFIX_SIZE]
  }

  /** Every entry that sees the ciphertext before this one turns it away. */
  ghost predicate NoneEarlierAccepts(es: seq<Entry<Aead>>, e: Entry<Aead>, c: Bytes, ad: Bytes) {
    forall i, j :: 0 <= i < |es| && 0 <= j < |es| && es[j] == e && TriedEarlier(es, i, j, c)
      ==> es[i].primitive.decrypt(Rest(es[i], c), ad).Err?
  }

  /** For a RAW or WITH_ID_REQUIREMENT primary the same holds if no entry tried earlier accepts the ciphertext. */
  lemma RawRotationIsSafe(ks: Keyset, ops: seq<Op>, get: Getter<Aead>,
                          ps: PrimitiveSet<Aead>, later: PrimitiveSet<Aead>, m: Bytes, ad: Bytes, coins: Bytes)
    requires Rotated(ks, ops, get, ps, later)
    requires !PrimaryPrefixed(ks)
    requires Inverts(ps.primary.value.primitive)
    requires SetEncrypt(ps.primary.value, m, ad, coins).Ok?
    requires NoneEarlierAccepts(later.inKeysetOrder, ps.primary.value,
                                SetEncrypt(ps.primary.value, m, ad, coins).value, ad)
    ensures SetDecrypt(later.inKeysetOrder, SetEncrypt(ps.primary.value, m, ad, coins).value, ad) == Ok(m)
  {
    var e := ps.primary.value;
    var es := later.inKeysetOrder;
    var c := e.primitive.encrypt(m, ad, coins).value;
    var _ := PrimaryStandsFor(ks, get, ps);
    assert e.identifier + c == c;
    var j := PrimaryEntrySurvives(ks, ops, get, ps, later);
    EntryIdsDistinct(Run(ks, ops).keys, get, |Run(ks, ops).keys|);
    assert Opens(c, ad)(es[j].primitive);
    var w := LeastAccepting(es, [], Opens(c, ad));
    assert w.value == j by {
      if w.value < j {
        assert TriedEarlier(es, w.value, j, c);
      }
    }
    if |c| > NON_RAW_PREFIX_SIZE {
      var v := LeastAccepting(es, c[..NON_RAW_PREFIX_SIZE], Opens(Tail(c), ad));
      if v.Some? {
        assert TriedEarlier(es, v.value, j, c);
      }
    }
  }

  /**
   * Rotation safety under concurrency: the calls may come from any number of clients in any
   * interleaving, as long as none of them deletes the key and it is ENABLED once the mutex is free; if
   * it is RAW, no entry tried before it may accept the ciphertext.
   */
  lemma ConcurrentRotationIsSafe(ks: Keyset, states: seq<Concurrency.System>, events: seq<Concurrency.Event>, n: nat,
                                 get: Getter<Aead>, ps: PrimitiveSet<Aead>, later: PrimitiveSet<Aead>,
                                 m: Bytes, ad: Bytes, coins: Bytes)
    requires Concurrency.Execution(ks, states, events) && n < |states| && states[n].holder == None
    requires DistinctIds(ks.keys) && Loads(ps, ks, get) && ps.primary.Some?
    requires forall i :: 0 <= i < |states[n].log| ==>
      !(states[n].log[i].op == Delete(ks.primary) && states[n].log[i].outcome == Done)
    requires KeyOf(states[n].shared, ks.primary).Some? ==> KeyOf(states[n].shared, ks.primary).value.status == Enabled
    requires Loads(later, states[n].shared, get)
    requires Inverts(ps.primary.value.primitive)
    requires ps.primary.value.primitive.encrypt(m, ad, coins).Ok?
    requires
      var raw := ps.primary.value.primitive.encrypt(m, ad, coins).value;
      if PrimaryPrefixed(ks) then raw != []
      else NoneEarlierAccepts(later.inKeysetOrder, ps.primary.value, raw, ad)
    ensures SetDecrypt(later.inKeysetOrder, SetEncrypt(ps.primary.value, m, ad, coins).value, ad) == Ok(m)
  {
    Concurrency.EveryInterleavingIsSerial(ks, states, events, n);
    var log := states[n].log;
    var ops := Concurrency.Ops(log);
    Concurrency.ReplayIsFeasible(ks, log);
    forall i | 0 <= i < |ops| ensures !DeletesAt(ks, ops, i, ks.primary) {
      assert Concurrency.ReplaysAt(ks, log, i);
    }
    var e := ps.primary.value;
    var _ := PrimaryStandsFor(ks, get, ps);
    if PrimaryPrefixed(ks) {
      RotationIsSafe(ks, ops, get, ps, later, m, ad, coins);
    } else {
      assert SetEncrypt(e, m, ad, coins).value == e.primitive.encrypt(m, ad, coins).value;
      RawRotationIsSafe(ks, ops, get, ps, later, m, ad, coins);
    }
  }

  /** While no enabled key has an id, a ciphertext carrying a prefix of that id reaches RAW keys only. */
  lemma RetiredPrefixReachesOnlyRaw(ks: Keyset, get: Getter<Aead>, ps: PrimitiveSet<Aead>,
                                    prefix: OutputPrefixType, id: Uint32, c: Bytes, ad: Bytes)
    requires Loads(ps, ks, get)
    requires forall i: nat :: EnabledAt(ks, i) ==> ks.keys[i].id != id
    requires Prefixed(prefix) && OutputPrefix(prefix, id).value <= c
    ensures c[..NON_RAW_PREFIX_SIZE] !in ps.primitives
    ensures Decryptor(ps.inKeysetOrder, c, ad).Some? ==>
      ps.inKeysetOrder[Decryptor(ps.inKeysetOrder, c, ad).value].identifier == []
  {
    var es := ps.inKeysetOrder;
    PrefixInjective(prefix, id, prefix, id);
    assert c[..NON_RAW_PREFIX_SIZE] == OutputPrefix(prefix, id).value;
    forall j | 0 <= j < |es| ensures es[j].identifier != c[..NON_RAW_PREFIX_SIZE] {
      var i := EntryHasKey(ks.keys, get, |ks.keys|, j);
      assert EnabledAt(ks, i);
      if es[j].identifier == c[..NON_RAW_PREFIX_SIZE] {
        PrefixInjective(ks.keys[i].prefix, ks.keys[i].id, prefix, id);
      }
    }
    if c[..NON_RAW_PREFIX_SIZE] in ps.primitives {
      var _ := BucketHolds(es, c[..NON_RAW_PREFIX_SIZE], 0);
    }
  }

  /** From Destroy until Delete the key, RAW or not, is in no set, and its prefix reaches RAW keys only. */
  lemma DestroyedKeyDecryptsNothing(ks: Keyset, ops: seq<Op>, id: Uint32, i: nat, j: nat, get: Getter<Aead>,
                                    ps: PrimitiveSet<Aead>, prefix: OutputPrefixType, c: Bytes, ad: Bytes)
    requires DistinctIds(ks.keys) && FeasibleRun(ks, ops) && i < j <= |ops|
    requires ops[i] == Destroy(id) && ReturnsAt(ks, ops, i) == Done
    requires KeptDuring(ks, ops, id, i + 1, j)
    requires Loads(ps, StateAt(ks, ops, j), get)
    requires Prefixed(prefix) && OutputPrefix(prefix, id).value <= c
    ensures c[..NON_RAW_PREFIX_SIZE] !in ps.primitives
    ensures forall n :: 0 <= n < |ps.inKeysetOrder| ==> ps.inKeysetOrder[n].keyId != id
    ensures ps.primary.Some? ==> ps.primary.value.keyId != id
  {
    DestroyIsAbsorbing(ks, ops, id, i, j);
    RunDistinct(ks, ops, j);
    var now := StateAt(ks, ops, j);
    forall n: nat | EnabledAt(now, n) ensures now.keys[n].id != id {
      if now.keys[n].id == id {
        FindAt(now.keys, id, n);
      }
    }
    RetiredPrefixReachesOnlyRaw(now, get, ps, prefix, id, c, ad);
    forall n | 0 <= n < |ps.inKeysetOrder| ensures ps.inKeysetOrder[n].keyId != id {
      var k := EntryHasKey(now.keys, get, |now.keys|, n);
      assert EnabledAt(now, k);
    }
  }

  // ---- The wrapper stays available --------------------------------------------------------

  /** Every key that is or can become enabled has a primitive and a known prefix type. */
  predicate AllReady<P>(ks: Keyset, get: Getter<P>) {
    forall i :: 0 <= i < |ks.keys| && ks.keys[i].status in {Enabled, Disabled} ==> Usable(ks.keys[i], get)
  }

  predicate AddsReady<P>(op: Op, get: Getter<P>) {
    op.Add? && !Rejected(op.template) && op.generated.Ok? ==>
      Usable(Key(Some(op.generated.value), Enabled, op.newId, op.template.prefix), get)
  }

  lemma StepKeepsReady<P>(ks: Keyset, op: Op, get: Getter<P>)
    requires AllReady(ks, get) && AddsReady(op, get) && Feasible(ks, op)
    ensures AllReady(After(ks, op), get)
  {
  }

  lemma {:induction false} RunKeepsReady<P>(ks: Keyset, ops: seq<Op>, get: Getter<P>, i: nat)
    requires AllReady(ks, get) && FeasibleRun(ks, ops) && i <= |ops|
    requires forall op :: op in ops ==> AddsReady(op, get)
    ensures AllReady(StateAt(ks, ops, i), get)
  {
    if i > 0 {
      RunKeepsReady(ks, ops, get, i - 1);
      assert FeasibleAt(ks, ops, i - 1);
      StepKeepsReady(StateAt(ks, ops, i - 1), ops[i - 1], get);
    }
  }

  /**
   * If every key that is in the keyset or is added has a primitive, then whatever calls are made the
   * keyset can still be wrapped: `WrapKeyset` succeeds and has a primary.
   */
  lemma WrapperStaysAvailable<P>(ks: Keyset, ops: seq<Op>, get: Getter<P>)
    requires DistinctIds(ks.keys) && OnePrimary(ks) && AllReady(ks, get) && FeasibleRun(ks, ops)
    requires forall op :: op in ops ==> AddsReady(op, get)
    ensures
      var now := Run(ks, ops);
      ValidForUse(now) && AllUsable(now, get, |now.keys|) && exists i: nat :: EnabledPrimaryAt(now, i)
  {
    PrimaryCheckIsStable(ks, ops, 0, |ops|);
    RunKeepsReady(ks, ops, get, |ops|);
    var now := Run(ks, ops);
    var p: nat :| SolePrimaryAt(now, p);
    assert EnabledPrimaryAt(now, p) && EnabledAt(now, p);
  }
}
