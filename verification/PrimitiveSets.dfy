/** The primitives of a keyset's ENABLED keys, indexed by output prefix, and how a ciphertext is routed to them. */
module PrimitiveSets {
  import opened Base
  import opened Keysets
  import CryptoFormat

  datatype Entry<P> = Entry(primitive: P, identifier: Bytes, keyId: Uint32)

  /** `primitives` holds the entries by identifier, `inKeysetOrder` all of them in the order of the keys. */
  datatype PrimitiveSet<P> = PrimitiveSet(
    primitives: map<Bytes, seq<Entry<P>>>, primary: Option<Entry<P>>, inKeysetOrder: seq<Entry<P>>)

  /** Turning key data into a primitive: the registry's part, abstract here. */
  type Getter<!P> = KeyData -> Result<P>

  // ---- Validation -------------------------------------------------------------------------

  predicate EnabledAt(ks: Keyset, i: nat) {
    i < |ks.keys| && ks.keys[i].status == Enabled
  }

  predicate EnabledPrimaryAt(ks: Keyset, i: nat) {
    EnabledAt(ks, i) && ks.keys[i].id == ks.primary
  }

  predicate WellFormedKey(key: Key) {
    key.data.Some? && key.prefix != UnknownPrefix
  }

  /** What ValidateKeyset accepts. */
  ghost predicate ValidForUse(ks: Keyset) {
    && (exists i: nat :: EnabledAt(ks, i))
    && (forall i: nat :: EnabledAt(ks, i) ==> WellFormedKey(ks.keys[i]))
    && (forall i: nat, j: nat :: EnabledPrimaryAt(ks, i) && EnabledPrimaryAt(ks, j) ==> i == j)
    && ((exists i: nat :: EnabledPrimaryAt(ks, i))
        || forall i: nat :: EnabledAt(ks, i) ==> ks.keys[i].data.value.material == AsymmetricPublic)
  }

  method ValidateKeyset(ks: Keyset) returns (r: Result<()>)
    ensures r.Ok? <==> ValidForUse(ks)
    ensures r.Err? ==> r.code == InvalidArgument
  {
    if |ks.keys| < 1 {
      return Err(InvalidArgument);
    }
    var hasPrimaryKey, onlyPublic, enabledKeys := false, true, 0;
    ghost var p: nat := 0;
    for i := 0 to |ks.keys|
      invariant enabledKeys > 0 <==> exists j: nat :: j < i && EnabledAt(ks, j)
      invariant enabledKeys >= 0
      invariant forall j: nat :: j < i && EnabledAt(ks, j) ==> WellFormedKey(ks.keys[j])
      invariant hasPrimaryKey ==> p < i && EnabledPrimaryAt(ks, p)
      invariant forall j: nat :: j < i && EnabledPrimaryAt(ks, j) ==> hasPrimaryKey && j == p
      invariant onlyPublic <==>
        forall j: nat :: j < i && EnabledAt(ks, j) ==> ks.keys[j].data.value.material == AsymmetricPublic
    {
      var key := ks.keys[i];
      if key.status != Enabled {
        continue;
      }
      enabledKeys := enabledKeys + 1;
      assert EnabledAt(ks, i);
      if key.data.None? || key.prefix == UnknownPrefix {
        return Err(InvalidArgument);
      }
      if key.id == ks.primary {
        assert EnabledPrimaryAt(ks, i);
        if hasPrimaryKey {
          return Err(InvalidArgument);
        }
        hasPrimaryKey, p := true, i;
      }
      if key.data.value.material != AsymmetricPublic {
        onlyPublic := false;
      }
    }
    if enabledKeys == 0 || (!hasPrimaryKey && !onlyPublic) {
      return Err(InvalidArgument);
    }
    return Ok(());
  }

  // ---- Building the set -------------------------------------------------------------------

  /** The identifier of a key's entry; WITH_ID_REQUIREMENT keys have none, like RAW ones. */
  function Identifier(key: Key): Result<Bytes> {
    if key.prefix == WithIdRequirement then Ok([]) else CryptoFormat.OutputPrefix(key.prefix, key.id)
  }

  predicate Usable<P>(key: Key, get: Getter<P>) {
    key.data.Some? && get(key.data.value).Ok? && Identifier(key).Ok?
  }

  /** A usable key has key data, a primitive and one of the five known prefix types. */
  lemma UsableIff<P>(key: Key, get: Getter<P>)
    ensures Usable(key, get) <==>
      && key.data.Some? && get(key.data.value).Ok?
      && key.prefix in {Tink, Legacy, Crunchy, Raw, WithIdRequirement}
  {
    CryptoFormat.OutputPrefixMarks(key.prefix, key.id);
  }

  function EntryOf<P>(key: Key, get: Getter<P>): Entry<P>
    requires Usable(key, get)
  {
    Entry(get(key.data.value).value, Identifier(key).value, key.id)
  }

  predicate Loadable<P>(key: Key, get: Getter<P>) {
    key.status == Enabled && Usable(key, get)
  }

  /** The entries of the enabled keys among the first n, in keyset order. */
  function EntriesOf<P>(keys: seq<Key>, get: Getter<P>, n: nat): seq<Entry<P>>
    requires n <= |keys|
  {
    if n == 0 then []
    else
      var es := EntriesOf(keys, get, n - 1);
      if Loadable(keys[n - 1], get) then es + [EntryOf(keys[n - 1], get)] else es
  }

  /** Every entry comes from an enabled key. */
  lemma {:induction false} EntryHasKey<P>(keys: seq<Key>, get: Getter<P>, n: nat, j: nat) returns (i: nat)
    requires n <= |keys| && j < |EntriesOf(keys, get, n)|
    ensures i < n && Loadable(keys[i], get) && EntriesOf(keys, get, n)[j] == EntryOf(keys[i], get)
  {
    if j < |EntriesOf(keys, get, n - 1)| {
      i := EntryHasKey(keys, get, n - 1, j);
    } else {
      i := n - 1;
    }
  }

  /** Every loadable key has an entry. */
  lemma {:induction false} KeyHasEntry<P>(keys: seq<Key>, get: Getter<P>, n: nat, i: nat) returns (j: nat)
    requires i < n <= |keys| && Loadable(keys[i], get)
    ensures j < |EntriesOf(keys, get, n)| && EntriesOf(keys, get, n)[j] == EntryOf(keys[i], get)
  {
    if i == n - 1 {
      j := |EntriesOf(keys, get, n - 1)|;
    } else {
      j := KeyHasEntry(keys, get, n - 1, i);
    }
  }

  /** The entries with a given identifier, in order. */
  function Bucket<P>(es: seq<Entry<P>>, id: Bytes): seq<Entry<P>> {
    if es == [] then []
    else
      var last := es[|es| - 1];
      Bucket(es[..|es| - 1], id) + if last.identifier == id then [last] else []
  }

  ghost predicate WellIndexed<P>(ps: PrimitiveSet<P>) {
    forall id: Bytes ::
      && (id in ps.primitives <==> Bucket(ps.inKeysetOrder, id) != [])
      && (id in ps.primitives ==> ps.primitives[id] == Bucket(ps.inKeysetOrder, id))
  }

  /** Adding an entry to the bucket of its identifier and to the ordered list. */
  method AddPrimitive<P>(ps: PrimitiveSet<P>, entry: Entry<P>) returns (r: PrimitiveSet<P>)
    requires WellIndexed(ps)
    ensures WellIndexed(r)
    ensures r.inKeysetOrder == ps.inKeysetOrder + [entry] && r.primary == ps.primary
  {
    var id := entry.identifier;
    var bucket := if id in ps.primitives then ps.primitives[id] else [];
    r := ps.(primitives := ps.primitives[id := bucket + [entry]], inKeysetOrder := ps.inKeysetOrder + [entry]);
    assert r.inKeysetOrder[..|ps.inKeysetOrder|] == ps.inKeysetOrder;
  }

  /** Every enabled key has a primitive and a known prefix type. */
  ghost predicate AllUsable<P>(ks: Keyset, get: Getter<P>, n: nat)
    requires n <= |ks.keys|
  {
    forall i: nat :: i < n && EnabledAt(ks, i) ==> Usable(ks.keys[i], get)
  }

  ghost predicate PrimitivesUpTo<P>(ks: Keyset, get: Getter<P>, n: nat) {
    forall i: nat :: i < n && EnabledAt(ks, i) && ks.keys[i].data.Some? ==> get(ks.keys[i].data.value).Ok?
  }

  ghost predicate FirstWithoutPrimitive<P>(ks: Keyset, get: Getter<P>, i: nat) {
    && EnabledAt(ks, i) && ks.keys[i].data.Some? && get(ks.keys[i].data.value).Err?
    && PrimitivesUpTo(ks, get, i)
  }

  /** The status of a keyset that cannot be loaded: a missing primitive's goes before that of a bad prefix type. */
  ghost predicate LoadError<P>(ks: Keyset, get: Getter<P>, code: Code) {
    if !ValidForUse(ks) || PrimitivesUpTo(ks, get, |ks.keys|) then code == InvalidArgument
    else exists i: nat :: FirstWithoutPrimitive(ks, get, i) && get(ks.keys[i].data.value) == Err(code)
  }

  /** The set holds the primitives of the first n keys, if enabled, in order, well indexed, and the primary's. */
  ghost predicate LoadsUpTo<P>(ps: PrimitiveSet<P>, ks: Keyset, get: Getter<P>, n: nat)
    requires n <= |ks.keys|
  {
    && WellIndexed(ps)
    && AllUsable(ks, get, n)
    && ps.inKeysetOrder == EntriesOf(ks.keys, get, n)
    && (forall i: nat :: i < n && EnabledPrimaryAt(ks, i) ==> ps.primary == Some(EntryOf(ks.keys[i], get)))
    && (ps.primary.Some? ==> exists i: nat :: i < n && EnabledPrimaryAt(ks, i))
  }

  ghost predicate Loads<P>(ps: PrimitiveSet<P>, ks: Keyset, get: Getter<P>) {
    LoadsUpTo(ps, ks, get, |ks.keys|)
  }

  /** The entry holds what an enabled key gives: its id, its primitive, and the identifier of its prefix type. */
  ghost predicate Represents<P>(e: Entry<P>, key: Key, get: Getter<P>) {
    && key.status == Enabled && key.data.Some?
    && e.keyId == key.id && get(key.data.value) == Ok(e.primitive)
    && CryptoFormat.Marks(e.identifier, key.prefix, key.id)
  }

  lemma EntryRepresents<P>(key: Key, get: Getter<P>)
    requires Loadable(key, get)
    ensures Represents(EntryOf(key, get), key, get)
  {
    CryptoFormat.OutputPrefixMarks(key.prefix, key.id);
  }

  /** `at` gives each entry its key, in the order of the keys. */
  ghost predicate Places<P>(at: seq<nat>, es: seq<Entry<P>>, keys: seq<Key>, get: Getter<P>) {
    && |at| == |es|
    && (forall a, b :: 0 <= a < b < |at| ==> at[a] < at[b])
    && (forall a :: 0 <= a < |at| ==> at[a] < |keys| && Represents(es[a], keys[at[a]], get))
  }

  lemma PlacesExtend<P>(at: seq<nat>, es: seq<Entry<P>>, keys: seq<Key>, get: Getter<P>, i: nat, e: Entry<P>)
    requires Places(at, es, keys, get) && forall a :: 0 <= a < |at| ==> at[a] < i
    requires i < |keys| && Represents(e, keys[i], get)
    ensures Places(at + [i], es + [e], keys, get)
  {
  }

  /** The places of the loadable keys among the first n. */
  ghost function LoadablePlaces<P>(keys: seq<Key>, get: Getter<P>, n: nat): (at: seq<nat>)
    requires n <= |keys|
    ensures forall i: nat :: i in at <==> i < n && Loadable(keys[i], get)
    ensures forall a :: 0 <= a < |at| ==> at[a] < n
  {
    if n == 0 then []
    else
      var before := LoadablePlaces(keys, get, n - 1);
      if Loadable(keys[n - 1], get) then before + [n - 1] else before
  }

  lemma {:induction false} EntryPlaces<P>(keys: seq<Key>, get: Getter<P>, n: nat)
    requires n <= |keys|
    ensures Places(LoadablePlaces(keys, get, n), EntriesOf(keys, get, n), keys, get)
  {
    if n > 0 {
      EntryPlaces(keys, get, n - 1);
      if Loadable(keys[n - 1], get) {
        EntryRepresents(keys[n - 1], get);
        PlacesExtend(LoadablePlaces(keys, get, n - 1), EntriesOf(keys, get, n - 1), keys, get,
                     n - 1, EntryOf(keys[n - 1], get));
      }
    }
  }

  /**
   * What a loaded set is: its entries stand for the enabled keys, each for one of them and in their order,
   * and its primary, if there is an enabled key with the primary id, for that key.
   */
  lemma LoadedSet<P>(ps: PrimitiveSet<P>, ks: Keyset, get: Getter<P>) returns (at: seq<nat>)
    requires Loads(ps, ks, get)
    ensures Places(at, ps.inKeysetOrder, ks.keys, get)
    ensures forall i: nat :: i in at <==> EnabledAt(ks, i)
    ensures ps.primary.Some? <==> exists i: nat :: EnabledPrimaryAt(ks, i)
    ensures forall i: nat :: EnabledPrimaryAt(ks, i) ==> Represents(ps.primary.value, ks.keys[i], get)
  {
    at := LoadablePlaces(ks.keys, get, |ks.keys|);
    EntryPlaces(ks.keys, get, |ks.keys|);
    forall i: nat | EnabledPrimaryAt(ks, i) ensures Represents(ps.primary.value, ks.keys[i], get) {
      EntryRepresents(ks.keys[i], get);
    }
  }

  /** One more enabled key; the caller sees to it that only one has the primary id. */
  lemma LoadStep<P>(before: PrimitiveSet<P>, after: PrimitiveSet<P>, ks: Keyset, get: Getter<P>, i: nat)
    requires i < |ks.keys| && LoadsUpTo(before, ks, get, i)
    requires EnabledAt(ks, i) && Usable(ks.keys[i], get)
    requires WellIndexed(after) && after.inKeysetOrder == before.inKeysetOrder + [EntryOf(ks.keys[i], get)]
    requires after.primary == if ks.keys[i].id == ks.primary then Some(EntryOf(ks.keys[i], get)) else before.primary
    requires forall j: nat :: j < i && EnabledPrimaryAt(ks, j) ==> !EnabledPrimaryAt(ks, i)
    ensures LoadsUpTo(after, ks, get, i + 1)
  {
    if ks.keys[i].id == ks.primary {
      assert EnabledPrimaryAt(ks, i);
    }
  }

  /**
   * KeysetWrapperImpl::Wrap up to the primitive set. A failing primitive is reported at once, a bad
   * prefix type only when the set is built.
   */
  method WrapKeyset<P>(ks: Keyset, get: Getter<P>) returns (r: Result<PrimitiveSet<P>>)
    ensures r.Ok? <==> ValidForUse(ks) && AllUsable(ks, get, |ks.keys|)
    ensures r.Ok? ==> Loads(r.value, ks, get)
    ensures r.Err? ==> LoadError(ks, get, r.code)
  {
    var valid := ValidateKeyset(ks);
    if valid.Err? {
      return Err(valid.code);
    }
    var ps: PrimitiveSet<P> := PrimitiveSet(map[], None, []);
    var status: Result<()> := Ok(());
    for i := 0 to |ks.keys|
      invariant PrimitivesUpTo(ks, get, i)
      invariant if status.Ok? then LoadsUpTo(ps, ks, get, i)
                else status.code == InvalidArgument && !AllUsable(ks, get, i)
    {
      var key := ks.keys[i];
      if key.status != Enabled {
        continue;
      }
      assert EnabledAt(ks, i);
      var primitive := get(key.data.value);
      if primitive.Err? {
        assert FirstWithoutPrimitive(ks, get, i);
        return Err(primitive.code);
      }
      if status.Ok? {
        var identifier := Identifier(key);
        if identifier.Err? {
          status := Err(identifier.code);
        } else {
          var entry := Entry(primitive.value, identifier.value, key.id);
          ghost var before := ps;
          ps := AddPrimitive(ps, entry);
          if key.id == ks.primary {
            ps := ps.(primary := Some(entry));
          }
          LoadStep(before, ps, ks, get, i);
        }
      }
    }
    if status.Err? {
      return Err(status.code);
    }
    return Ok(ps);
  }

  // ---- Routing ----------------------------------------------------------------------------

  /** The first entry with this identifier whose primitive accepts. */
  function LeastAccepting<P>(es: seq<Entry<P>>, id: Bytes, ok: P -> bool): (r: Option<nat>)
    ensures r.Some? ==> r.value < |es| && es[r.value].identifier == id && ok(es[r.value].primitive)
    ensures forall j :: 0 <= j < (if r.Some? then r.value else |es|) && es[j].identifier == id ==> !ok(es[j].primitive)
  {
    if es == [] then None
    else
      var n := |es| - 1;
      var r := LeastAccepting(es[..n], id, ok);
      if r.Some? then r else if es[n].identifier == id && ok(es[n].primitive) then Some(n) else None
  }

  /** Trying the entries of one bucket in turn finds that same entry. */
  lemma {:induction false} BucketFindsLeast<P>(es: seq<Entry<P>>, id: Bytes, ok: P -> bool, k: nat)
    requires
      var b := Bucket(es, id);
      k <= |b| && (forall j :: 0 <= j < k ==> !ok(b[j].primitive)) && (k < |b| ==> ok(b[k].primitive))
    ensures
      var b := Bucket(es, id);
      var r := LeastAccepting(es, id, ok);
      (k == |b| ==> r == None) && (k < |b| ==> r.Some? && es[r.value] == b[k])
  {
    if es != [] {
      var n := |es| - 1;
      var b := Bucket(es[..n], id);
      var full := Bucket(es, id);
      assert forall j :: 0 <= j < |b| ==> full[j] == b[j];
      if k < |b| {
        BucketFindsLeast(es[..n], id, ok, k);
      } else {
        BucketFindsLeast(es[..n], id, ok, |b|);
        assert LeastAccepting(es[..n], id, ok) == None;
        if es[n].identifier == id {
          assert full[|b|] == es[n];
        }
      }
    }
  }

  /**
   * Which entry decrypts: among the entries whose identifier is the first five bytes of the ciphertext,
   * the first that accepts the rest; failing those, the first RAW entry that accepts the whole.
   */
  function Winner<P>(es: seq<Entry<P>>, c: Bytes, tail: P -> bool, whole: P -> bool): (w: Option<nat>)
    ensures w.Some? ==> w.value < |es|
  {
    var prefixed :=
      if |c| > CryptoFormat.NON_RAW_PREFIX_SIZE then LeastAccepting(es, c[..CryptoFormat.NON_RAW_PREFIX_SIZE], tail)
      else None;
    if prefixed.Some? then prefixed else LeastAccepting(es, CryptoFormat.RAW_PREFIX, whole)
  }

  /** The entry's identifier starts the ciphertext, leaves a rest unless it is empty, and the rest is accepted. */
  predicate Accepts<P>(e: Entry<P>, c: Bytes, tail: P -> bool, whole: P -> bool) {
    if e.identifier == [] then whole(e.primitive)
    else e.identifier <= c && |c| > |e.identifier| && tail(e.primitive)
  }

  predicate ProperIdentifiers<P>(es: seq<Entry<P>>) {
    forall i :: 0 <= i < |es| ==> |es[i].identifier| in {0, CryptoFormat.NON_RAW_PREFIX_SIZE}
  }

  /** Looking up one bucket and then the RAW ones agrees with trying every entry. */
  lemma IndexAgreesWithScan<P>(es: seq<Entry<P>>, c: Bytes, tail: P -> bool, whole: P -> bool)
    requires ProperIdentifiers(es)
    ensures
      var w := Winner(es, c, tail, whole);
      && (w.Some? <==> exists i :: 0 <= i < |es| && Accepts(es[i], c, tail, whole))
      && (w.Some? ==>
            && Accepts(es[w.value], c, tail, whole)
            && forall j :: 0 <= j < |es| && Accepts(es[j], c, tail, whole) ==>
                 if (es[j].identifier == []) == (es[w.value].identifier == []) then w.value <= j
                 else es[j].identifier == [])
  {
  }

  /** Only identifiers and acceptance matter for who wins. */
  lemma WinnerDependsOnAcceptance<P, Q>(es: seq<Entry<P>>, fs: seq<Entry<Q>>, c: Bytes,
                                        tail: P -> bool, whole: P -> bool, tail': Q -> bool, whole': Q -> bool)
    requires |es| == |fs|
    requires forall i :: 0 <= i < |es| ==>
      && es[i].identifier == fs[i].identifier
      && tail(es[i].primitive) == tail'(fs[i].primitive)
      && whole(es[i].primitive) == whole'(fs[i].primitive)
    ensures Winner(es, c, tail, whole) == Winner(fs, c, tail', whole')
  {
  }

  lemma LoadedIdentifiersAreProper<P>(ps: PrimitiveSet<P>, ks: Keyset, get: Getter<P>)
    requires Loads(ps, ks, get)
    ensures ProperIdentifiers(ps.inKeysetOrder)
  {
    var es := ps.inKeysetOrder;
    forall i | 0 <= i < |es| ensures |es[i].identifier| in {0, CryptoFormat.NON_RAW_PREFIX_SIZE} {
      var k := EntryHasKey(ks.keys, get, |ks.keys|, i);
    }
  }
}
