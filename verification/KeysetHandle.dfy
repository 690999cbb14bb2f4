/**
 * KeysetHandle: a keyset together with `entries`, a parsed copy of its keys. Key objects are of an
 * abstract type K, made and unmade by a registry. A value of type Handle is what a C++ handle holds;
 * where the C++ code aborts the process, the model yields None.
 */
module KeysetHandles {
  import opened Base
  import opened Keysets
  import Lifecycle
  import KeysetManagers

  // ---- Key objects ------------------------------------------------------------------------

  datatype KeyStatus = StatusEnabled | StatusDisabled | StatusDestroyed | StatusReserved

  predicate SameStatus(s: StatusType, k: KeyStatus) {
    || (s == Enabled && k == StatusEnabled)
    || (s == Disabled && k == StatusDisabled)
    || (s == Destroyed && k == StatusDestroyed)
  }

  function FromKeyStatusType(s: StatusType): (r: Result<KeyStatus>)
    ensures if s in {Enabled, Disabled, Destroyed} then r.Ok? && SameStatus(s, r.value) else r == Err(InvalidArgument)
  {
    match s
    case Enabled => Ok(StatusEnabled)
    case Disabled => Ok(StatusDisabled)
    case Destroyed => Ok(StatusDestroyed)
    case _ => Err(InvalidArgument)
  }

  function ToKeyStatusType(s: KeyStatus): (r: Result<StatusType>)
    ensures if s != StatusReserved then r.Ok? && SameStatus(r.value, s) else r == Err(InvalidArgument)
  {
    match s
    case StatusEnabled => Ok(Enabled)
    case StatusDisabled => Ok(Disabled)
    case StatusDestroyed => Ok(Destroyed)
    case StatusReserved => Err(InvalidArgument)
  }

  datatype ProtoKey = ProtoKey(
    typeUrl: string, value: Bytes, material: KeyMaterialType, prefix: OutputPrefixType, idRequirement: Option<Int32>)

  /** `publicKey` is None for objects that are not private keys; `publicData` is the key managers' route. */
  datatype Registry<!K> = Registry(
    parse: ProtoKey -> Result<K>,
    serialize: K -> Result<ProtoKey>,
    idRequirement: K -> Option<Int32>,
    publicKey: K -> Option<K>,
    publicData: KeyData -> Result<KeyData>)

  datatype Entry<K> = Entry(key: K, status: KeyStatus, id: Int32, isPrimary: bool)

  /** Annotations by type. */
  type Annotations = map<string, map<string, string>>

  datatype Handle<K> = Handle(keyset: Keyset, entries: seq<Entry<K>>, annotations: Annotations)

  predicate IsPrintableAscii(s: string): (p: bool)
    ensures p <==> forall c :: c in s ==> '!' <= c <= '~'
  {
    assert forall i :: 0 <= i < |s| ==> s[i] in s;
    forall i :: 0 <= i < |s| ==> 0x21 <= s[i] as int <= 0x7e
  }

  function DataOf(key: Key): KeyData {
    if key.data.Some? then key.data.value else NO_KEY_DATA
  }

  /** The fields of the key; its id is an id requirement unless it is RAW. */
  predicate Describes(proto: ProtoKey, key: Key) {
    && (match key.data
        case Some(data) => proto.typeUrl == data.typeUrl && proto.value == data.value && proto.material == data.material
        case None => proto.typeUrl == "" && proto.value == [] && proto.material == UnknownMaterial)
    && proto.prefix == key.prefix
    && (key.prefix == Raw ==> proto.idRequirement == None)
    && (key.prefix != Raw ==> proto.idRequirement.Some? && ToUint32(proto.idRequirement.value) == key.id)
  }

  function ToProtoKey(key: Key): (r: Result<ProtoKey>)
    ensures
      if key.data.Some? && !IsPrintableAscii(key.data.value.typeUrl) then r == Err(InvalidArgument)
      else r.Ok? && Describes(r.value, key)
  {
    var data := DataOf(key);
    if !IsPrintableAscii(data.typeUrl) then Err(InvalidArgument)
    else Ok(ProtoKey(data.typeUrl, data.value, data.material, key.prefix,
                     if key.prefix == Raw then None else Some(ToInt32(key.id))))
  }

  /** The keyset key carries the type URL, value, material and prefix type of the serialized key. */
  predicate Carries(key: Key, proto: ProtoKey) {
    && key.data.Some?
    && key.data.value.typeUrl == proto.typeUrl && key.data.value.value == proto.value
    && key.data.value.material == proto.material && key.prefix == proto.prefix
  }

  function ToKeysetKey(id: Int32, status: StatusType, proto: ProtoKey): Key {
    Key(Some(KeyData(proto.typeUrl, proto.value, proto.material)), status, ToUint32(id), proto.prefix)
  }

  /** Serializing a key object into a keyset key; an id requirement must be met. */
  function CreateKeysetKey<K>(key: K, id: Int32, status: StatusType, reg: Registry<K>): (r: Result<Key>)
    ensures
      match reg.serialize(key)
      case Err(code) => r == Err(code)
      case Ok(proto) =>
        if proto.idRequirement !in {None, Some(id)} then r == Err(InvalidArgument)
        else r.Ok? && Carries(r.value, proto) && r.value.status == status && ToInt32(r.value.id) == id
  {
    var proto := reg.serialize(key);
    if proto.Err? then Err(proto.code)
    else if proto.value.idRequirement.Some? && proto.value.idRequirement.value != id then Err(InvalidArgument)
    else Ok(ToKeysetKey(id, status, proto.value))
  }

  /** The entry tells the key's id, status and primary flag as they are in the keyset. */
  predicate Agrees<K>(e: Entry<K>, key: Key, primary: Uint32) {
    && e.id == ToInt32(key.id)
    && SameStatus(key.status, e.status)
    && e.isPrimary == (key.id == primary)
  }

  /** The entry's key object is what the key parses to, and the rest agrees with the key. */
  ghost predicate ParsedFrom<K>(e: Entry<K>, key: Key, primary: Uint32, reg: Registry<K>) {
    ToProtoKey(key).Ok? && reg.parse(ToProtoKey(key).value) == Ok(e.key) && Agrees(e, key, primary)
  }

  /** The status of a key of which no entry can be made; the type URL comes first and the key's status last. */
  predicate Unparsable<K>(key: Key, reg: Registry<K>, code: Code) {
    match ToProtoKey(key)
    case Err(_) => code == InvalidArgument
    case Ok(proto) =>
      match reg.parse(proto)
      case Err(c) => code == c
      case Ok(_) => key.status !in {Enabled, Disabled, Destroyed} && code == InvalidArgument
  }

  function CreateEntry<K>(key: Key, primary: Uint32, reg: Registry<K>): (r: Result<Entry<K>>)
    ensures if r.Ok? then ParsedFrom(r.value, key, primary, reg) else Unparsable(key, reg, r.code)
  {
    var proto := ToProtoKey(key);
    if proto.Err? then Err(proto.code)
    else
      var parsed := reg.parse(proto.value);
      if parsed.Err? then Err(parsed.code)
      else
        var status := FromKeyStatusType(key.status);
        if status.Err? then Err(status.code)
        else Ok(Entry(parsed.value, status.value, ToInt32(key.id), key.id == primary))
  }

  // ---- The cache --------------------------------------------------------------------------

  /** One entry for each key, in order, in agreement with it. */
  predicate CacheAgrees<K>(h: Handle<K>) {
    && |h.entries| == |h.keyset.keys|
    && forall i :: 0 <= i < |h.entries| ==> Agrees(h.entries[i], h.keyset.keys[i], h.keyset.primary)
  }

  /** Handles made without entries create them on demand. */
  predicate Consistent<K>(h: Handle<K>) {
    h.entries == [] || CacheAgrees(h)
  }

  function ValidateAt(ks: Keyset, i: nat): (r: Result<()>)
    requires i < |ks.keys|
    ensures r.Ok? <==>
      && (ks.keys[i].data.Some? ==> IsPrintableAscii(ks.keys[i].data.value.typeUrl))
      && ks.keys[i].status in {Enabled, Disabled, Destroyed}
    ensures r.Err? ==>
      var printable := ks.keys[i].data.Some? ==> IsPrintableAscii(ks.keys[i].data.value.typeUrl);
      r.code == if printable then InvalidArgument else FailedPrecondition
  {
    if !IsPrintableAscii(DataOf(ks.keys[i]).typeUrl) then Err(FailedPrecondition)
    else
      var status := FromKeyStatusType(ks.keys[i].status);
      if status.Err? then Err(status.code) else Ok(())
  }

  function CreateEntryAt<K>(h: Handle<K>, i: nat, reg: Registry<K>): Option<Entry<K>> {
    if i >= |h.keyset.keys| || ValidateAt(h.keyset, i).Err? then None
    else
      var e := CreateEntry(h.keyset.keys[i], h.keyset.primary, reg);
      if e.Err? then None else Some(e.value)
  }

  /** operator[]: the cached entry if there is one, otherwise one made from the keyset. */
  function At<K>(h: Handle<K>, i: nat, reg: Registry<K>): (e: Option<Entry<K>>)
    ensures e.Some? ==> i < |h.keyset.keys|
    ensures i < |h.keyset.keys| ==>
      if i < |h.entries| then e == Some(h.entries[i])
      else if ValidateAt(h.keyset, i).Ok? then
        if e.Some? then ParsedFrom(e.value, h.keyset.keys[i], h.keyset.primary, reg)
        else exists code :: Unparsable(h.keyset.keys[i], reg, code)
      else e == None
  {
    if i >= |h.keyset.keys| then None
    else if h.entries != [] && |h.entries| > i then Some(h.entries[i])
    else CreateEntryAt(h, i, reg)
  }

  lemma AtAgrees<K>(h: Handle<K>, i: nat, reg: Registry<K>)
    requires Consistent(h) && At(h, i, reg).Some?
    ensures i < |h.keyset.keys| && Agrees(At(h, i, reg).value, h.keyset.keys[i], h.keyset.primary)
  {
  }

  /** Dropping the cache changes neither the id, the status nor the primary flag that operator[] shows. */
  lemma CacheIsTransparent<K>(h: Handle<K>, i: nat, reg: Registry<K>)
    requires CacheAgrees(h) && i < |h.keyset.keys|
    ensures At(h, i, reg).Some?
    ensures
      var cached := At(h, i, reg);
      var onDemand := At(h.(entries := []), i, reg);
      onDemand.Some? ==> onDemand.value.(key := cached.value.key) == cached.value
  {
  }

  /** The entries of the first n keys, or the first error. */
  function EntriesFrom<K>(ks: Keyset, n: nat, reg: Registry<K>): (r: Result<seq<Entry<K>>>)
    requires n <= |ks.keys|
    ensures r.Ok? ==> |r.value| == n
    ensures r.Ok? ==> forall i :: 0 <= i < n ==> Agrees(r.value[i], ks.keys[i], ks.primary)
  {
    if n == 0 then Ok([])
    else
      var es := EntriesFrom(ks, n - 1, reg);
      if es.Err? then es
      else
        var e := CreateEntry(ks.keys[n - 1], ks.primary, reg);
        if e.Err? then Err(e.code) else Ok(es.value + [e.value])
  }

  lemma {:induction false} EntriesFromFailure<K>(ks: Keyset, i: nat, n: nat, reg: Registry<K>)
    requires i <= n <= |ks.keys|
    ensures EntriesFrom(ks, i, reg).Err? ==> EntriesFrom(ks, n, reg) == EntriesFrom(ks, i, reg)
  {
    if i < n {
      EntriesFromFailure(ks, i, n - 1, reg);
    }
  }

  /** Parsing a keyset succeeds exactly when each key does. */
  lemma {:induction false} EntriesFromEach<K>(ks: Keyset, n: nat, reg: Registry<K>)
    requires n <= |ks.keys|
    ensures EntriesFrom(ks, n, reg).Ok? <==> forall i :: 0 <= i < n ==> CreateEntry(ks.keys[i], ks.primary, reg).Ok?
    ensures EntriesFrom(ks, n, reg).Ok? ==>
      forall i :: 0 <= i < n ==> Ok(EntriesFrom(ks, n, reg).value[i]) == CreateEntry(ks.keys[i], ks.primary, reg)
  {
    if n > 0 {
      EntriesFromEach(ks, n - 1, reg);
      var es, e := EntriesFrom(ks, n - 1, reg), CreateEntry(ks.keys[n - 1], ks.primary, reg);
      assert EntriesFrom(ks, n, reg).Ok? <==> es.Ok? && e.Ok?;
    }
  }

  /** It fails as the first key does of which no entry can be made. */
  lemma {:induction false} EntriesFromFirstError<K>(ks: Keyset, n: nat, reg: Registry<K>) returns (i: nat)
    requires n <= |ks.keys| && EntriesFrom(ks, n, reg).Err?
    ensures i < n && Unparsable(ks.keys[i], reg, EntriesFrom(ks, n, reg).code)
    ensures forall j :: 0 <= j < i ==> CreateEntry(ks.keys[j], ks.primary, reg).Ok?
  {
    if EntriesFrom(ks, n - 1, reg).Err? {
      i := EntriesFromFirstError(ks, n - 1, reg);
    } else {
      i := n - 1;
      EntriesFromEach(ks, i, reg);
    }
  }

  method GetEntriesFromKeyset<K>(ks: Keyset, reg: Registry<K>) returns (r: Result<seq<Entry<K>>>)
    ensures r == EntriesFrom(ks, |ks.keys|, reg)
  {
    var entries: seq<Entry<K>> := [];
    for i := 0 to |ks.keys|
      invariant EntriesFrom(ks, i, reg) == Ok(entries)
    {
      var entry := CreateEntry(ks.keys[i], ks.primary, reg);
      if entry.Err? {
        EntriesFromFailure(ks, i + 1, |ks.keys|, reg);
        return Err(entry.code);
      }
      entries := entries + [entry.value];
    }
    return Ok(entries);
  }

  // ---- Validation -------------------------------------------------------------------------

  /** Key i, taken alone, is no reason to fail. */
  predicate PassesAt(ks: Keyset, i: nat)
    requires i < |ks.keys|
  {
    ValidateAt(ks, i).Ok? && (ks.keys[i].id == ks.primary ==> ks.keys[i].status == Enabled)
  }

  /**
   * Passes exactly when every key is valid and exactly one, enabled, carries the primary id. Fails with the
   * status of the first key that is not valid, unless a primary key that is not enabled comes before it, and
   * otherwise because of the number of primaries.
   */
  method Validate(ks: Keyset) returns (r: Result<()>)
    ensures r.Ok? <==> (forall i :: 0 <= i < |ks.keys| ==> ValidateAt(ks, i).Ok?) && OnePrimary(ks)
    ensures r.Err? ==>
      || (r.code == FailedPrecondition && forall i :: 0 <= i < |ks.keys| ==> PassesAt(ks, i))
      || exists i :: 0 <= i < |ks.keys| && !PassesAt(ks, i) && (forall j :: 0 <= j < i ==> PassesAt(ks, j))
                  && if ValidateAt(ks, i).Err? then r == ValidateAt(ks, i) else r.code == FailedPrecondition
  {
    var numPrimary := 0;
    ghost var p: nat, q: nat := 0, 0;
    for i := 0 to |ks.keys|
      invariant numPrimary >= 0
      invariant forall j :: 0 <= j < i ==> PassesAt(ks, j)
      invariant numPrimary == 0 ==> forall j :: 0 <= j < i ==> ks.keys[j].id != ks.primary
      invariant numPrimary >= 1 ==> p < i && ks.keys[p].id == ks.primary
      invariant numPrimary == 1 ==> forall j :: 0 <= j < i && ks.keys[j].id == ks.primary ==> j == p
      invariant numPrimary > 1 ==> p < q < i && ks.keys[q].id == ks.primary
    {
      var status := ValidateAt(ks, i);
      if status.Err? {
        assert !PassesAt(ks, i);
        return Err(status.code);
      }
      if ks.keys[i].id == ks.primary {
        if numPrimary == 0 {
          p := i;
        } else if numPrimary == 1 {
          q := i;
        }
        numPrimary := numPrimary + 1;
        if ks.keys[i].status != Enabled {
          assert !PassesAt(ks, i);
          return Err(FailedPrecondition);
        }
      }
    }
    assert forall j :: 0 <= j < |ks.keys| && PassesAt(ks, j) ==> ValidateAt(ks, j).Ok?;
    if numPrimary < 1 {
      return Err(FailedPrecondition);
    }
    if numPrimary > 1 {
      return Err(FailedPrecondition);
    }
    assert PassesAt(ks, p);
    assert SolePrimaryAt(ks, p);
    return Ok(());
  }

  /** The entry of the primary key; None where the source aborts. */
  method GetPrimary<K>(h: Handle<K>, reg: Registry<K>) returns (r: Option<Entry<K>>)
    requires Consistent(h)
    ensures r.Some? ==> r.value.isPrimary && r.value.status == StatusEnabled && r.value.id == ToInt32(h.keyset.primary)
    ensures r.Some? <==>
      && (forall i :: 0 <= i < |h.keyset.keys| ==> ValidateAt(h.keyset, i).Ok?)
      && exists i: nat :: SolePrimaryAt(h.keyset, i) && At(h, i, reg).Some?
    ensures r.Some? ==> forall i: nat :: SolePrimaryAt(h.keyset, i) ==> r == At(h, i, reg)
  {
    var validation := Validate(h.keyset);
    if validation.Err? {
      return None;
    }
    for i := 0 to |h.keyset.keys|
      invariant forall j :: 0 <= j < i ==> h.keyset.keys[j].id != h.keyset.primary
    {
      if h.keyset.keys[i].id == h.keyset.primary {
        r := At(h, i, reg);
        if r.Some? {
          AtAgrees(h, i, reg);
        }
        return;
      }
    }
    return None;
  }

  // ---- Ways to make a handle --------------------------------------------------------------

  /** Adds to the keyset and then an entry for the new key; if that entry cannot be made the key stays. */
  method AddKey<K>(h: Handle<K>, template: Lifecycle.Template, asPrimary: bool, generated: Result<KeyData>,
                   draws: Draws, reg: Registry<K>)
    returns (r: Result<Uint32>, h': Handle<K>)
    requires KeysetManagers.CanAdd(template, generated, h.keyset.keys, draws)
    ensures Lifecycle.Rejected(template) ==> (r, h') == (Err(InvalidArgument), h)
    ensures !Lifecycle.Rejected(template) && generated.Err? ==> (r, h') == (Err(generated.code), h)
    ensures !Lifecycle.Rejected(template) && generated.Ok? ==>
      && |h'.keyset.keys| == |h.keyset.keys| + 1
      && var key := h'.keyset.keys[|h.keyset.keys|];
         var op := Lifecycle.Add(template, asPrimary, generated, key.id);
         var entry := CreateEntry(key, h'.keyset.primary, reg);
         && key == Key(Some(generated.value), Enabled, key.id, template.prefix)
         && h'.keyset == Keyset(if asPrimary then key.id else h.keyset.primary, h.keyset.keys + [key])
         && Lifecycle.Feasible(h.keyset, op) && Lifecycle.Apply(h.keyset, op) == (h'.keyset, Lifecycle.Added(key.id))
         && r == (if entry.Ok? then Ok(key.id) else Err(entry.code))
         && h' == Handle(h'.keyset, if entry.Ok? then h.entries + [entry.value] else h.entries, h.annotations)
  {
    var id, keyset := KeysetManagers.AddToKeyset(template, asPrimary, generated, draws, h.keyset);
    h' := h.(keyset := keyset);
    if id.Err? {
      return Err(id.code), h';
    }
    var entry := CreateEntry(keyset.keys[|keyset.keys| - 1], keyset.primary, reg);
    if entry.Err? {
      return Err(entry.code), h';
    }
    h' := h'.(entries := h'.entries + [entry.value]);
    return Ok(id.value), h';
  }

  /** One fresh enabled primary key with a non-zero id, parsed into the one entry. */
  method GenerateNew<K>(template: Lifecycle.Template, generated: Result<KeyData>, draws: Draws, reg: Registry<K>,
                        annotations: Annotations)
    returns (r: Result<Handle<K>>)
    requires KeysetManagers.CanAdd(template, generated, [], draws)
    ensures Lifecycle.Rejected(template) ==> r == Err(InvalidArgument)
    ensures !Lifecycle.Rejected(template) && generated.Err? ==> r == Err(generated.code)
    ensures !Lifecycle.Rejected(template) && generated.Ok? && r.Err? ==>
      exists id: Uint32 ::
        id != 0 && CreateEntry(Key(Some(generated.value), Enabled, id, template.prefix), id, reg) == Err(r.code)
    ensures r.Ok? ==>
      && !Lifecycle.Rejected(template) && generated.Ok?
      && r.value.keyset.keys == [Key(Some(generated.value), Enabled, r.value.keyset.primary, template.prefix)]
      && SolePrimaryAt(r.value.keyset, 0) && r.value.keyset.primary != 0
      && EntriesFrom(r.value.keyset, 1, reg) == Ok(r.value.entries) && CacheAgrees(r.value)
      && r.value.annotations == annotations
  {
    var handle: Handle<K> := Handle(EMPTY_KEYSET, [], annotations);
    var id, handle' := AddKey(handle, template, true, generated, draws, reg);
    if !Lifecycle.Rejected(template) && generated.Ok? {
      Lifecycle.FeasibleIds(EMPTY_KEYSET, Lifecycle.Add(template, true, generated, handle'.keyset.keys[0].id));
    }
    if id.Err? {
      return Err(id.code);
    }
    assert EntriesFrom(handle'.keyset, 0, reg) == Ok([]);
    return Ok(handle');
  }

  predicate Secret(key: Key) {
    DataOf(key).material in {UnknownMaterial, Symmetric, AsymmetricPrivate}
  }

  method ValidateNoSecret(ks: Keyset) returns (r: Result<()>)
    ensures r == if exists i :: 0 <= i < |ks.keys| && Secret(ks.keys[i]) then Err(FailedPrecondition) else Ok(())
  {
    for i := 0 to |ks.keys|
      invariant forall j :: 0 <= j < i ==> !Secret(ks.keys[j])
    {
      var material := DataOf(ks.keys[i]).material;
      if material == UnknownMaterial || material == Symmetric || material == AsymmetricPrivate {
        assert Secret(ks.keys[i]);
        return Err(FailedPrecondition);
      }
    }
    return Ok(());
  }

  /** Protobuf encoding, abstract; `Lossless` is its one law. */
  datatype Codec = Codec(serialize: Keyset -> Bytes, parse: Bytes -> Option<Keyset>)

  ghost predicate Lossless(codec: Codec) {
    forall ks :: codec.parse(codec.serialize(ks)) == Some(ks)
  }

  /** Succeeds exactly on encodings of keysets without secrets whose keys all parse. */
  method ReadNoSecret<K>(serialized: Bytes, codec: Codec, reg: Registry<K>, annotations: Annotations)
    returns (r: Result<Handle<K>>)
    ensures r.Ok? <==>
      && codec.parse(serialized).Some?
      && var ks := codec.parse(serialized).value;
         && (forall i :: 0 <= i < |ks.keys| ==> !Secret(ks.keys[i]))
         && (forall i :: 0 <= i < |ks.keys| ==> CreateEntry(ks.keys[i], ks.primary, reg).Ok?)
    ensures r.Ok? ==>
      && Some(r.value.keyset) == codec.parse(serialized) && r.value.annotations == annotations
      && EntriesFrom(r.value.keyset, |r.value.keyset.keys|, reg) == Ok(r.value.entries) && CacheAgrees(r.value)
    ensures r.Err? ==>
      match codec.parse(serialized)
      case None => r.code == InvalidArgument
      case Some(ks) =>
        if exists i :: 0 <= i < |ks.keys| && Secret(ks.keys[i]) then r.code == FailedPrecondition
        else EntriesFrom(ks, |ks.keys|, reg) == Err(r.code)
  {
    var ks := codec.parse(serialized);
    if ks.None? {
      return Err(InvalidArgument);
    }
    var validation := ValidateNoSecret(ks.value);
    if validation.Err? {
      return Err(validation.code);
    }
    EntriesFromEach(ks.value, |ks.value.keys|, reg);
    var entries := GetEntriesFromKeyset(ks.value, reg);
    if entries.Err? {
      return Err(entries.code);
    }
    return Ok(Handle(ks.value, entries.value, annotations));
  }

  // ---- The public keyset ------------------------------------------------------------------

  function ExtractPublicKey<K>(key: Key, reg: Registry<K>): Result<Key> {
    if DataOf(key).material != AsymmetricPrivate then Err(InvalidArgument)
    else
      var data := reg.publicData(DataOf(key));
      if data.Err? then Err(data.code) else Ok(Key(Some(data.value), key.status, key.id, key.prefix))
  }

  /** The public counterpart of key i and its entry, by the key object or by the legacy route. */
  function PublicAt<K>(h: Handle<K>, i: nat, reg: Registry<K>): Result<(Key, Entry<K>)>
    requires At(h, i, reg).Some?
  {
    var entry := At(h, i, reg).value;
    var public := reg.publicKey(entry.key);
    if public.Some? then
      var status := ToKeyStatusType(entry.status);
      if status.Err? then Err(status.code)
      else
        var key := CreateKeysetKey(public.value, entry.id, status.value, reg);
        if key.Err? then Err(key.code)
        else Ok((key.value, Entry(public.value, entry.status, entry.id, entry.isPrimary)))
    else
      var key := ExtractPublicKey(h.keyset.keys[i], reg);
      if key.Err? then Err(key.code)
      else
        var public := CreateEntry(key.value, h.keyset.primary, reg);
        if public.Err? then Err(public.code) else Ok((key.value, public.value))
  }

  /**
   * What makes a key and an entry the public counterpart of key i: the id, the status and the primary flag of
   * the private key and, if its object has a public key object, that object and what it serializes to; else
   * the data the key manager gives for the private data, under the private key's prefix type, parsed.
   */
  ghost predicate PublicCounterpart<K>(h: Handle<K>, i: nat, reg: Registry<K>, key: Key, entry: Entry<K>)
    requires At(h, i, reg).Some?
  {
    var private_ := h.keyset.keys[i];
    && key.id == private_.id && key.status == private_.status && Agrees(entry, key, h.keyset.primary)
    && match reg.publicKey(At(h, i, reg).value.key)
       case Some(object_) =>
         && entry.key == object_
         && reg.serialize(object_).Ok? && Carries(key, reg.serialize(object_).value)
         && reg.serialize(object_).value.idRequirement in {None, Some(ToInt32(key.id))}
       case None =>
         && DataOf(private_).material == AsymmetricPrivate
         && key.data.Some? && reg.publicData(DataOf(private_)) == Ok(key.data.value)
         && key.prefix == private_.prefix && ParsedFrom(entry, key, h.keyset.primary, reg)
  }

  /** Key i has a public counterpart: its public key object serializes for its id, or its public data parses. */
  predicate HasPublic<K>(h: Handle<K>, i: nat, reg: Registry<K>)
    requires At(h, i, reg).Some?
  {
    var private_ := h.keyset.keys[i];
    match reg.publicKey(At(h, i, reg).value.key)
    case Some(object_) =>
      reg.serialize(object_).Ok? && reg.serialize(object_).value.idRequirement in {None, Some(ToInt32(private_.id))}
    case None =>
      && DataOf(private_).material == AsymmetricPrivate && reg.publicData(DataOf(private_)).Ok?
      && var public := private_.(data := Some(reg.publicData(DataOf(private_)).value));
         CreateEntry(public, h.keyset.primary, reg).Ok?
  }

  /** The status with which key i has no public counterpart. */
  ghost predicate PublicError<K>(h: Handle<K>, i: nat, reg: Registry<K>, code: Code)
    requires At(h, i, reg).Some?
  {
    var private_ := h.keyset.keys[i];
    match reg.publicKey(At(h, i, reg).value.key)
    case Some(object_) =>
      (match reg.serialize(object_)
       case Err(c) => code == c
       case Ok(proto) => code == InvalidArgument && proto.idRequirement !in {None, Some(ToInt32(private_.id))})
    case None =>
      if DataOf(private_).material != AsymmetricPrivate then code == InvalidArgument
      else
        match reg.publicData(DataOf(private_))
        case Err(c) => code == c
        case Ok(data) => Unparsable(Key(Some(data), private_.status, private_.id, private_.prefix), reg, code)
  }

  /** The public key and entry are exactly the public counterpart, on both routes. */
  lemma PublicAtIff<K>(h: Handle<K>, i: nat, reg: Registry<K>)
    requires Consistent(h) && At(h, i, reg).Some?
    ensures forall key, entry ::
      PublicAt(h, i, reg) == Ok((key, entry)) <==> PublicCounterpart(h, i, reg, key, entry)
    ensures PublicAt(h, i, reg).Ok? <==> HasPublic(h, i, reg)
    ensures PublicAt(h, i, reg).Err? ==> PublicError(h, i, reg, PublicAt(h, i, reg).code)
  {
    AtAgrees(h, i, reg);
  }

  /** Same length, order, ids, statuses and primary id. */
  predicate Projects(private_: Keyset, public: Keyset) {
    && |public.keys| == |private_.keys|
    && public.primary == private_.primary
    && forall i :: 0 <= i < |public.keys| ==>
         public.keys[i].id == private_.keys[i].id && public.keys[i].status == private_.keys[i].status
  }

  /** The source aborts on entries it cannot create, hence the last precondition. */
  method GetPublicKeysetHandle<K>(h: Handle<K>, reg: Registry<K>) returns (r: Result<Handle<K>>)
    requires Consistent(h)
    requires forall i :: 0 <= i < |h.keyset.keys| ==> At(h, i, reg).Some?
    ensures r.Ok? <==> forall i :: 0 <= i < |h.keyset.keys| ==> HasPublic(h, i, reg)
    ensures r.Err? ==>
      exists i :: 0 <= i < |h.keyset.keys| && PublicError(h, i, reg, r.code)
               && forall j :: 0 <= j < i ==> HasPublic(h, j, reg)
    ensures r.Ok? ==>
      && Projects(h.keyset, r.value.keyset) && CacheAgrees(r.value) && r.value.annotations == map[]
      && forall i :: 0 <= i < |h.keyset.keys| ==>
           PublicCounterpart(h, i, reg, r.value.keyset.keys[i], r.value.entries[i])
  {
    var publicKeyset := EMPTY_KEYSET;
    var publicEntries: seq<Entry<K>> := [];
    for i := 0 to |h.keyset.keys|
      invariant |publicKeyset.keys| == |publicEntries| == i
      invariant forall j :: 0 <= j < i ==>
        HasPublic(h, j, reg) && PublicCounterpart(h, j, reg, publicKeyset.keys[j], publicEntries[j])
    {
      var public := PublicAt(h, i, reg);
      PublicAtIff(h, i, reg);
      if public.Err? {
        return Err(public.code);
      }
      publicEntries := publicEntries + [public.value.1];
      publicKeyset := publicKeyset.(keys := publicKeyset.keys + [public.value.0]);
    }
    publicKeyset := publicKeyset.(primary := h.keyset.primary);
    return Ok(Handle(publicKeyset, publicEntries, map[]));
  }

  /** Public key data is of public material: what the key managers give, and what public key objects become. */
  ghost predicate GivesPublicMaterial<K>(h: Handle<K>, reg: Registry<K>) {
    && (forall d :: reg.publicData(d).Ok? ==> reg.publicData(d).value.material == AsymmetricPublic)
    && forall i :: 0 <= i < |h.keyset.keys| && At(h, i, reg).Some? ==>
         match reg.publicKey(At(h, i, reg).value.key)
         case Some(object_) => reg.serialize(object_).Ok? ==> reg.serialize(object_).value.material == AsymmetricPublic
         case None => true
  }

  /** Under that condition a public keyset holds no secrets, so it can be written out without any. */
  method GetPublicWithoutSecrets<K>(h: Handle<K>, reg: Registry<K>) returns (r: Result<Handle<K>>, valid: Result<()>)
    requires Consistent(h) && GivesPublicMaterial(h, reg)
    requires forall i :: 0 <= i < |h.keyset.keys| ==> At(h, i, reg).Some?
    ensures r.Ok? ==>
      valid == Ok(()) && forall key :: key in r.value.keyset.keys ==> DataOf(key).material == AsymmetricPublic
  {
    r := GetPublicKeysetHandle(h, reg);
    if r.Err? {
      return r, Err(r.code);
    }
    assert forall i :: 0 <= i < |h.keyset.keys| ==>
      PublicCounterpart(h, i, reg, r.value.keyset.keys[i], r.value.entries[i]);
    valid := ValidateNoSecret(r.value.keyset);
  }

  /** The public keyset has exactly one enabled primary if and only if the private one does. */
  lemma ProjectionKeepsPrimary(private_: Keyset, public: Keyset)
    requires Projects(private_, public)
    ensures OnePrimary(private_) <==> OnePrimary(public)
  {
    if OnePrimary(private_) {
      var i: nat :| SolePrimaryAt(private_, i);
      assert SolePrimaryAt(public, i);
    }
    if OnePrimary(public) {
      var i: nat :| SolePrimaryAt(public, i);
      assert SolePrimaryAt(private_, i);
    }
  }
}
