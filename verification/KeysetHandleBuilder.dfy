/** KeysetHandleBuilder: fixed and random id assignment, a single primary, and Build, which works once. */
module KeysetHandleBuilders {
  import opened Base
  import opened Keysets
  import opened KeysetHandles

  datatype IdStrategy = FixedId(id: Int32) | RandomId

  /** An existing key object, or parameters from which a key is created once its id is known. */
  datatype Source<!K> = FromKey(key: K) | FromParameters(create: Int32 -> Result<(OutputPrefixType, KeyData)>)

  datatype BuilderEntry<!K> = BuilderEntry(
    source: Source<K>, status: KeyStatus, isPrimary: bool, strategy: IdStrategy, added: bool)

  datatype BuildError =
    | BuiltTwice
    | RepeatedAnnotations
    | NoEntries
    | RandomBeforeFixed
    | DuplicateId(id: Int32)
    | KeyFailed(code: Code)
    | TwoPrimaries
    | NoPrimary
    | EntryFailed(code: Code)

  function CodeOf(e: BuildError): (c: Code)
    ensures e.KeyFailed? || e.EntryFailed? ==> c == e.code
    ensures e in {BuiltTwice, NoEntries, RandomBeforeFixed, NoPrimary} ==> c == FailedPrecondition
    ensures e.DuplicateId? ==> c == AlreadyExists
    ensures e == RepeatedAnnotations ==> c == InvalidArgument
    ensures e == TwoPrimaries ==> c == Internal
  {
    match e
    case BuiltTwice => FailedPrecondition
    case RepeatedAnnotations => InvalidArgument
    case NoEntries => FailedPrecondition
    case RandomBeforeFixed => FailedPrecondition
    case DuplicateId(_) => AlreadyExists
    case KeyFailed(code) => code
    case TwoPrimaries => Internal
    case NoPrimary => FailedPrecondition
    case EntryFailed(code) => code
  }

  datatype Outcome<+T> = Built(value: T) | NotBuilt(error: BuildError)

  /** SetBuilderEntryAttributes: a given id is fixed, otherwise the id will be random. */
  function NewEntry<K>(source: Source<K>, status: KeyStatus, isPrimary: bool, id: Option<Int32>): BuilderEntry<K> {
    BuilderEntry(source, status, isPrimary, if id.Some? then FixedId(id.value) else RandomId, false)
  }

  /** An imported key keeps the id it requires. */
  function CreateFromKey<K>(key: K, status: KeyStatus, isPrimary: bool, reg: Registry<K>): BuilderEntry<K> {
    NewEntry(FromKey(key), status, isPrimary, reg.idRequirement(key))
  }

  function CreateFromParams<K>(create: Int32 -> Result<(OutputPrefixType, KeyData)>, status: KeyStatus,
                               isPrimary: bool, id: Option<Int32>): BuilderEntry<K> {
    NewEntry(FromParameters(create), status, isPrimary, id)
  }

  function CreateKey<K>(e: BuilderEntry<K>, id: Int32, reg: Registry<K>): Result<Key> {
    var status := ToKeyStatusType(e.status);
    if status.Err? then Err(status.code)
    else if e.strategy.FixedId? && e.strategy.id != id then Err(InvalidArgument)
    else
      match e.source
      case FromKey(key) => CreateKeysetKey(key, id, status.value, reg)
      case FromParameters(create) =>
        var made := create(id);
        if made.Err? then Err(made.code)
        else Ok(Key(Some(made.value.1), status.value, ToUint32(id), made.value.0))
  }

  /** A fixed id is the entry's own, and the key serializes for the id or is created under it. */
  predicate Makes<K>(e: BuilderEntry<K>, id: Int32, reg: Registry<K>) {
    && e.status != StatusReserved && (e.strategy.FixedId? ==> e.strategy.id == id)
    && match e.source
       case FromKey(k) => reg.serialize(k).Ok? && reg.serialize(k).value.idRequirement in {None, Some(id)}
       case FromParameters(create) => create(id).Ok?
  }

  /** The key has this id and the entry's status, and the fields of the serialized key or of the created one. */
  predicate MadeFrom<K>(key: Key, e: BuilderEntry<K>, id: Int32, reg: Registry<K>) {
    && ToInt32(key.id) == id && SameStatus(key.status, e.status)
    && match e.source
       case FromKey(k) => reg.serialize(k).Ok? && Carries(key, reg.serialize(k).value)
       case FromParameters(create) => key.data.Some? && create(id) == Ok((key.prefix, key.data.value))
  }

  /** The status of an entry that makes no key: its own attributes come before its source. */
  predicate MakesNone<K>(e: BuilderEntry<K>, id: Int32, reg: Registry<K>, code: Code) {
    if e.status == StatusReserved || (e.strategy.FixedId? && e.strategy.id != id) then code == InvalidArgument
    else
      match e.source
      case FromKey(k) =>
        (match reg.serialize(k)
         case Err(c) => code == c
         case Ok(proto) => proto.idRequirement !in {None, Some(id)} && code == InvalidArgument)
      case FromParameters(create) => create(id) == Err(code)
  }

  /** When an entry makes a key under an id, which one, and with what status it does not. */
  lemma CreateKeyIff<K>(e: BuilderEntry<K>, id: Int32, reg: Registry<K>)
    ensures CreateKey(e, id, reg).Ok? <==> Makes(e, id, reg)
    ensures forall key :: CreateKey(e, id, reg) == Ok(key) <==> Makes(e, id, reg) && MadeFrom(key, e, id, reg)
    ensures CreateKey(e, id, reg).Err? ==> MakesNone(e, id, reg, CreateKey(e, id, reg).code)
  {
  }

  // ---- Order of fixed and random ids ------------------------------------------------------

  /** No entry with a random id comes before one with a fixed id. */
  predicate Ordered<K>(entries: seq<BuilderEntry<K>>) {
    forall i, j :: 0 <= i < j < |entries| && entries[i].strategy.RandomId? ==> entries[j].strategy.RandomId?
  }

  predicate AdjacentOrdered<K>(entries: seq<BuilderEntry<K>>) {
    forall i :: 0 <= i < |entries| - 1 && entries[i].strategy.RandomId? ==> entries[i + 1].strategy.RandomId?
  }

  /** Comparing neighbours is enough. */
  lemma {:induction false} AdjacentMeansOrdered<K>(entries: seq<BuilderEntry<K>>, i: nat, j: nat)
    requires AdjacentOrdered(entries) && i < j < |entries| && entries[i].strategy.RandomId?
    ensures entries[j].strategy.RandomId?
  {
    if i + 1 < j {
      AdjacentMeansOrdered(entries, i, j - 1);
    }
    assert entries[j - 1].strategy.RandomId?;
    assert entries[j - 1 + 1].strategy.RandomId?;
  }

  method CheckIdAssignments<K>(entries: seq<BuilderEntry<K>>) returns (r: Outcome<()>)
    ensures r == if entries == [] then NotBuilt(NoEntries)
                 else if Ordered(entries) then Built(())
                 else NotBuilt(RandomBeforeFixed)
  {
    if entries == [] {
      return NotBuilt(NoEntries);
    }
    for i := 0 to |entries| - 1
      invariant forall j :: 0 <= j < i && entries[j].strategy.RandomId? ==> entries[j + 1].strategy.RandomId?
    {
      if entries[i].strategy.RandomId? && !entries[i + 1].strategy.RandomId? {
        return NotBuilt(RandomBeforeFixed);
      }
    }
    forall i, j | 0 <= i < j < |entries| && entries[i].strategy.RandomId? ensures entries[j].strategy.RandomId? {
      AdjacentMeansOrdered(entries, i, j);
    }
    return Built(());
  }

  // ---- Choosing an id ---------------------------------------------------------------------

  ghost function Unsigned(ids: set<Int32>): (s: set<Uint32>)
    ensures |s| <= |ids|
    ensures forall id: Int32 :: id in ids ==> ToUint32(id) in s
    decreases |ids|
  {
    if ids == {} then {}
    else
      var id :| id in ids;
      Unsigned(ids - {id}) + {ToUint32(id)}
  }

  /** While fewer than 2^32 - 1 ids are used there is a draw that the loop accepts. */
  lemma AcceptableDrawExists(ids: set<Int32>) returns (v: Uint32)
    requires |ids| < TWO_32 - 1
    ensures ToInt32(v) != 0 && ToInt32(v) !in ids
  {
    v := UnusedIdExists(Unsigned(ids));
    assert ToUint32(ToInt32(v)) == v;
  }

  /** A fixed id as it is; a random one drawn until it is neither 0 nor used. `n` counts the draws. */
  method NextId(strategy: IdStrategy, idsSoFar: set<Int32>, draws: Draws, n: nat) returns (id: Int32, n': nat)
    requires strategy.RandomId? ==> Fair(draws) && |idsSoFar| < TWO_32 - 1
    ensures strategy.FixedId? ==> id == strategy.id && n' == n
    ensures strategy.RandomId? ==>
      && id != 0 && id !in idsSoFar
      && n' > n && id == ToInt32(draws(n' - 1))
      && forall m: nat :: n <= m < n' - 1 ==> ToInt32(draws(m)) == 0 || ToInt32(draws(m)) in idsSoFar
  {
    if strategy.FixedId? {
      return strategy.id, n;
    }
    ghost var free := AcceptableDrawExists(idsSoFar);
    assert ComesUp(draws, free, n);
    ghost var limit: nat :| limit >= n && draws(limit) == free;
    id, n' := 0, n;
    while id == 0 || id in idsSoFar
      invariant n <= n' <= limit + 1
      invariant n' == n ==> id == 0
      invariant n' > n ==> id == ToInt32(draws(n' - 1))
      invariant forall m: nat :: n <= m < n' - 1 ==> ToInt32(draws(m)) == 0 || ToInt32(draws(m)) in idsSoFar
      decreases limit + 1 - n'
    {
      id := ToInt32(draws(n'));
      n' := n' + 1;
    }
  }

  // ---- The id loop of Build ---------------------------------------------------------------

  /** The ids follow the strategies: fixed ones as given, random ones non-zero and new. */
  predicate Drawn<K>(entries: seq<BuilderEntry<K>>, ids: seq<Int32>) {
    && |ids| <= |entries|
    && forall i :: 0 <= i < |ids| ==>
         match entries[i].strategy
         case FixedId(id) => ids[i] == id
         case RandomId => ids[i] != 0 && ids[i] !in ids[..i]
  }

  predicate PrimaryBefore<K>(entries: seq<BuilderEntry<K>>, i: nat)
    requires i <= |entries|
  {
    exists j :: 0 <= j < i && entries[j].isPrimary
  }

  /** What stops the loop at entry i, if anything. */
  function FaultAt<K>(entries: seq<BuilderEntry<K>>, ids: seq<Int32>, i: nat, reg: Registry<K>): Option<BuildError>
    requires i < |ids| <= |entries|
  {
    var key := CreateKey(entries[i], ids[i], reg);
    if ids[i] in ids[..i] then Some(DuplicateId(ids[i]))
    else if key.Err? then Some(KeyFailed(key.code))
    else if entries[i].isPrimary && PrimaryBefore(entries, i) then Some(TwoPrimaries)
    else None
  }

  predicate ClearUpTo<K>(entries: seq<BuilderEntry<K>>, ids: seq<Int32>, n: nat, reg: Registry<K>)
    requires n <= |ids| <= |entries|
  {
    forall i :: 0 <= i < n ==> FaultAt(entries, ids, i, reg) == None
  }

  /** How the assigned ids account for the outcome. */
  predicate Explains<K>(entries: seq<BuilderEntry<K>>, ids: seq<Int32>, reg: Registry<K>, r: Outcome<Keyset>) {
    && Drawn(entries, ids)
    && match r
       case Built(ks) =>
         && |ids| == |entries| == |ks.keys| && ClearUpTo(entries, ids, |ids|, reg)
         && (forall i :: 0 <= i < |ids| ==> CreateKey(entries[i], ids[i], reg) == Ok(ks.keys[i]))
         && exists p :: 0 <= p < |ids| && entries[p].isPrimary && ks.primary == ToUint32(ids[p])
       case NotBuilt(e) =>
         || (e == NoPrimary && |ids| == |entries| && ClearUpTo(entries, ids, |ids|, reg)
             && !PrimaryBefore(entries, |entries|))
         || (ids != [] && ClearUpTo(entries, ids, |ids| - 1, reg)
             && FaultAt(entries, ids, |ids| - 1, reg) == Some(e))
  }

  /** The loop's state after as many entries as there are ids. */
  predicate Progress<K>(entries: seq<BuilderEntry<K>>, ids: seq<Int32>, keys: seq<Key>, primaryId: Option<Int32>,
                        reg: Registry<K>)
  {
    && Drawn(entries, ids) && |keys| == |ids| && ClearUpTo(entries, ids, |ids|, reg)
    && (forall j :: 0 <= j < |ids| ==> CreateKey(entries[j], ids[j], reg) == Ok(keys[j]))
    && match primaryId
       case None => !PrimaryBefore(entries, |ids|)
       case Some(id) => exists p :: 0 <= p < |ids| && entries[p].isPrimary && id == ids[p]
  }

  predicate Follows(strategy: IdStrategy, ids: seq<Int32>, id: Int32) {
    match strategy
    case FixedId(f) => id == f
    case RandomId => id != 0 && id !in ids
  }

  /** An imported key is assigned the id it requires or a new one, and written under it if it serializes for it. */
  lemma EntryFromKeyMakes<K>(key: K, status: KeyStatus, isPrimary: bool, ids: seq<Int32>, id: Int32, reg: Registry<K>)
    requires Follows(CreateFromKey(key, status, isPrimary, reg).strategy, ids, id)
    ensures reg.idRequirement(key) in {None, Some(id)} && (reg.idRequirement(key).None? ==> id != 0 && id !in ids)
    ensures
      var e := CreateFromKey(key, status, isPrimary, reg);
      && e.isPrimary == isPrimary
      && (CreateKey(e, id, reg).Ok? <==>
            && status != StatusReserved && reg.serialize(key).Ok?
            && reg.serialize(key).value.idRequirement in {None, Some(id)})
      && (CreateKey(e, id, reg).Ok? ==> Carries(CreateKey(e, id, reg).value, reg.serialize(key).value))
  {
  }

  /** Parameters are assigned the id given with them or a new one, and the key is the one created for that id. */
  lemma EntryFromParamsMakes<K>(create: Int32 -> Result<(OutputPrefixType, KeyData)>, status: KeyStatus,
                                isPrimary: bool, given: Option<Int32>, ids: seq<Int32>, id: Int32, reg: Registry<K>)
    requires Follows(CreateFromParams<K>(create, status, isPrimary, given).strategy, ids, id)
    ensures given in {None, Some(id)} && (given.None? ==> id != 0 && id !in ids)
    ensures
      var e := CreateFromParams<K>(create, status, isPrimary, given);
      && e.isPrimary == isPrimary
      && forall key :: CreateKey(e, id, reg) == Ok(key) <==>
           && SameStatus(key.status, status) && ToInt32(key.id) == id
           && key.data.Some? && create(id) == Ok((key.prefix, key.data.value))
  {
  }

  /** Assigning one more id does not disturb the entries already passed. */
  lemma IdsExtend<K>(entries: seq<BuilderEntry<K>>, ids: seq<Int32>, id: Int32, reg: Registry<K>)
    requires |ids| < |entries| && Drawn(entries, ids) && ClearUpTo(entries, ids, |ids|, reg)
    requires Follows(entries[|ids|].strategy, ids, id)
    ensures Drawn(entries, ids + [id]) && ClearUpTo(entries, ids + [id], |ids|, reg)
    ensures (ids + [id])[..|ids|] == ids
  {
    var ids' := ids + [id];
    forall i | 0 <= i <= |ids| ensures ids'[..i] == ids[..i] {
    }
    forall i | 0 <= i < |ids| ensures FaultAt(entries, ids', i, reg) == None {
      assert FaultAt(entries, ids, i, reg) == None;
    }
  }

  lemma ProgressStep<K>(entries: seq<BuilderEntry<K>>, ids: seq<Int32>, keys: seq<Key>, primaryId: Option<Int32>,
                        id: Int32, reg: Registry<K>)
    requires Progress(entries, ids, keys, primaryId, reg) && |ids| < |entries|
    requires Follows(entries[|ids|].strategy, ids, id)
    ensures (ids + [id])[..|ids|] == ids
    ensures
      var n := |ids|;
      var e := FaultAt(entries, ids + [id], n, reg);
      if e.Some? then Explains(entries, ids + [id], reg, NotBuilt(e.value))
      else Progress(entries, ids + [id], keys + [CreateKey(entries[n], id, reg).value],
                    if entries[n].isPrimary then Some(id) else primaryId, reg)
    ensures PrimaryBefore(entries, |ids|) <==> primaryId.Some?
  {
    IdsExtend(entries, ids, id, reg);
    var n := |ids|;
    var ids' := ids + [id];
    assert ids'[n] == id;
    if FaultAt(entries, ids', n, reg) == None && !entries[n].isPrimary && primaryId.Some? {
      var p :| 0 <= p < n && entries[p].isPrimary && primaryId.value == ids[p];
      assert ids'[p] == primaryId.value;
    }
  }

  lemma ProgressEnds<K>(entries: seq<BuilderEntry<K>>, ids: seq<Int32>, ks: Keyset, primaryId: Option<Int32>,
                        reg: Registry<K>)
    requires Progress(entries, ids, ks.keys, primaryId, reg) && |ids| == |entries|
    ensures
      Explains(entries, ids, reg,
               if primaryId.Some? then Built(ks.(primary := ToUint32(primaryId.value))) else NotBuilt(NoPrimary))
  {
  }

  /** If ids will be drawn, the source is fair, and there are no more entries than an `int` counts. */
  ghost predicate DrawsSuffice<K>(entries: seq<BuilderEntry<K>>, draws: Draws) {
    (exists i :: 0 <= i < |entries| && entries[i].strategy.RandomId?) ==> Fair(draws) && |entries| < TWO_31
  }

  method Assemble<K>(entries: seq<BuilderEntry<K>>, reg: Registry<K>, draws: Draws)
    returns (r: Outcome<Keyset>, ids: seq<Int32>)
    requires DrawsSuffice(entries, draws)
    ensures Explains(entries, ids, reg, r)
  {
    var keyset, primaryId: Option<Int32> := EMPTY_KEYSET, None;
    var idsSoFar: set<Int32> := {};
    var n := 0;
    ids := [];
    for i := 0 to |entries|
      invariant |ids| == i
      invariant idsSoFar == (set id | id in ids) && |idsSoFar| <= i
      invariant Progress(entries, ids, keyset.keys, primaryId, reg)
    {
      var id, n' := NextId(entries[i].strategy, idsSoFar, draws, n);
      n := n';
      ProgressStep(entries, ids, keyset.keys, primaryId, id, reg);
      ids := ids + [id];
      if id in idsSoFar {
        return NotBuilt(DuplicateId(id)), ids;
      }
      idsSoFar := idsSoFar + {id};
      var key := CreateKey(entries[i], id, reg);
      if key.Err? {
        return NotBuilt(KeyFailed(key.code)), ids;
      }
      keyset := keyset.(keys := keyset.keys + [key.value]);
      if entries[i].isPrimary {
        if primaryId.Some? {
          return NotBuilt(TwoPrimaries), ids;
        }
        primaryId := Some(id);
      }
    }
    ProgressEnds(entries, ids, keyset, primaryId, reg);
    if primaryId.None? {
      return NotBuilt(NoPrimary), ids;
    }
    return Built(keyset.(primary := ToUint32(primaryId.value))), ids;
  }

  // ---- What the id loop guarantees --------------------------------------------------------

  lemma ClearIdsAreNew<K>(entries: seq<BuilderEntry<K>>, ids: seq<Int32>, reg: Registry<K>, i: nat, j: nat)
    requires |ids| <= |entries| && i < j < |ids| && FaultAt(entries, ids, j, reg) == None
    ensures ids[i] != ids[j]
    ensures !(entries[i].isPrimary && entries[j].isPrimary)
  {
  }

  /**
   * A built keyset has one key per entry, in order, made from it as `MadeFrom` says, with distinct ids
   * also as unsigned numbers, fixed ids as given, non-zero random ids, and the id of the one primary entry.
   */
  lemma BuiltKeyset<K>(entries: seq<BuilderEntry<K>>, ids: seq<Int32>, reg: Registry<K>, ks: Keyset)
    requires Explains(entries, ids, reg, Built(ks))
    ensures |ks.keys| == |entries| && DistinctIds(ks.keys)
    ensures forall i :: 0 <= i < |entries| ==>
      && Makes(entries[i], ToInt32(ks.keys[i].id), reg)
      && MadeFrom(ks.keys[i], entries[i], ToInt32(ks.keys[i].id), reg)
      && (entries[i].strategy.FixedId? ==> ToInt32(ks.keys[i].id) == entries[i].strategy.id)
      && (entries[i].strategy.RandomId? ==> ks.keys[i].id != 0)
      && (entries[i].isPrimary <==> ks.keys[i].id == ks.primary)
  {
    forall i | 0 <= i < |entries|
      ensures ToInt32(ks.keys[i].id) == ids[i]
      ensures Makes(entries[i], ids[i], reg) && MadeFrom(ks.keys[i], entries[i], ids[i], reg)
    {
      assert CreateKey(entries[i], ids[i], reg) == Ok(ks.keys[i]);
      CreateKeyIff(entries[i], ids[i], reg);
    }
    forall i, j | 0 <= i < j < |entries|
      ensures ks.keys[i].id != ks.keys[j].id
      ensures !(entries[i].isPrimary && entries[j].isPrimary)
    {
      assert FaultAt(entries, ids, j, reg) == None;
      ClearIdsAreNew(entries, ids, reg, i, j);
    }
  }

  /** What the ids must be like for a keyset to be built: distinct, each making its key, one of them primary. */
  ghost predicate Buildable<K>(entries: seq<BuilderEntry<K>>, ids: seq<Int32>, reg: Registry<K>) {
    && |ids| == |entries|
    && (forall i, j :: 0 <= i < j < |ids| ==> ids[i] != ids[j])
    && (forall i :: 0 <= i < |ids| ==> Makes(entries[i], ids[i], reg))
    && exists p :: 0 <= p < |ids| && entries[p].isPrimary
                && forall j :: 0 <= j < |ids| && entries[j].isPrimary ==> j == p
  }

  /** The loop builds a keyset if and only if the ids it assigned allow it. */
  lemma BuiltIffBuildable<K>(entries: seq<BuilderEntry<K>>, ids: seq<Int32>, reg: Registry<K>, r: Outcome<Keyset>)
    requires Explains(entries, ids, reg, r)
    ensures r.Built? <==> Buildable(entries, ids, reg)
  {
    forall i | 0 <= i < |ids| ensures CreateKey(entries[i], ids[i], reg).Ok? <==> Makes(entries[i], ids[i], reg) {
      CreateKeyIff(entries[i], ids[i], reg);
    }
    if r.Built? {
      var p :| 0 <= p < |ids| && entries[p].isPrimary;
      forall i, j | 0 <= i < j < |ids|
        ensures ids[i] != ids[j]
        ensures !(entries[i].isPrimary && entries[j].isPrimary)
      {
        ClearIdsAreNew(entries, ids, reg, i, j);
      }
      assert forall j :: 0 <= j < |ids| && entries[j].isPrimary ==> j == p;
    } else if r.error != NoPrimary {
      assert FaultAt(entries, ids, |ids| - 1, reg) == Some(r.error);
    }
  }

  /** The loop's other failures: the first entry that makes no key, or no entry marked as primary. */
  lemma LoopFailures<K>(entries: seq<BuilderEntry<K>>, ids: seq<Int32>, reg: Registry<K>, e: BuildError)
    requires Explains(entries, ids, reg, NotBuilt(e))
    ensures e.DuplicateId? || e.KeyFailed? || e == TwoPrimaries || e == NoPrimary
    ensures e.KeyFailed? ==> ids != [] && MakesNone(entries[|ids| - 1], ids[|ids| - 1], reg, e.code)
    ensures forall i :: 0 <= i < |ids| - 1 ==> Makes(entries[i], ids[i], reg)
    ensures e == NoPrimary ==> |ids| == |entries| && forall i :: 0 <= i < |entries| ==> !entries[i].isPrimary
  {
    forall i | 0 <= i < |ids|
      ensures CreateKey(entries[i], ids[i], reg).Ok? <==> Makes(entries[i], ids[i], reg)
      ensures FaultAt(entries, ids, i, reg) == None ==> Makes(entries[i], ids[i], reg)
      ensures
        var key := CreateKey(entries[i], ids[i], reg);
        key.Err? ==> MakesNone(entries[i], ids[i], reg, key.code)
    {
      CreateKeyIff(entries[i], ids[i], reg);
    }
  }

  /** Entry j has the same fixed id as an earlier entry. */
  predicate RepeatsFixed<K>(entries: seq<BuilderEntry<K>>, j: nat) {
    && j < |entries| && entries[j].strategy.FixedId?
    && exists i :: 0 <= i < j && entries[i].strategy == entries[j].strategy
  }

  /** The loop gets past entry i, whose id is fixed. */
  predicate PassesFixed<K>(entries: seq<BuilderEntry<K>>, i: nat, reg: Registry<K>)
    requires i < |entries|
  {
    && entries[i].strategy.FixedId? && !RepeatsFixed(entries, i)
    && CreateKey(entries[i], entries[i].strategy.id, reg).Ok?
    && !(entries[i].isPrimary && PrimaryBefore(entries, i))
  }

  predicate DuplicateReachedAt<K>(entries: seq<BuilderEntry<K>>, j: nat, reg: Registry<K>) {
    RepeatsFixed(entries, j) && forall i :: 0 <= i < j ==> PassesFixed(entries, i, reg)
  }

  /** Among entries with fixed ids, faults are as the entries alone determine them. */
  lemma FixedFault<K>(entries: seq<BuilderEntry<K>>, ids: seq<Int32>, i: nat, reg: Registry<K>)
    requires Drawn(entries, ids) && i < |ids|
    requires forall j :: 0 <= j <= i ==> entries[j].strategy.FixedId?
    ensures (exists d :: FaultAt(entries, ids, i, reg) == Some(DuplicateId(d))) <==> RepeatsFixed(entries, i)
    ensures FaultAt(entries, ids, i, reg) == None <==> PassesFixed(entries, i, reg)
  {
  }

  /** Random ids never collide: only a second fixed id is reported as already used. */
  lemma DuplicateIsFixed<K>(entries: seq<BuilderEntry<K>>, ids: seq<Int32>, i: nat, reg: Registry<K>)
    requires Ordered(entries) && Drawn(entries, ids) && i < |ids|
    requires FaultAt(entries, ids, i, reg).Some? && FaultAt(entries, ids, i, reg).value.DuplicateId?
    ensures forall j :: 0 <= j <= i ==> entries[j].strategy.FixedId?
  {
  }

  /** Build reports an id as already used if and only if the loop reaches a second entry with an earlier fixed id. */
  lemma DuplicateIffReached<K>(entries: seq<BuilderEntry<K>>, ids: seq<Int32>, reg: Registry<K>, r: Outcome<Keyset>)
    requires Ordered(entries) && Explains(entries, ids, reg, r)
    ensures r.NotBuilt? && r.error.DuplicateId? <==> exists j: nat :: DuplicateReachedAt(entries, j, reg)
  {
    if r.NotBuilt? && r.error.DuplicateId? {
      var j := |ids| - 1;
      DuplicateIsFixed(entries, ids, j, reg);
      forall i | 0 <= i <= j
        ensures i == j ==> RepeatsFixed(entries, i)
        ensures i < j ==> PassesFixed(entries, i, reg)
      {
        FixedFault(entries, ids, i, reg);
      }
      assert DuplicateReachedAt(entries, j, reg);
    }
    if exists j: nat :: DuplicateReachedAt(entries, j, reg) {
      var j: nat :| DuplicateReachedAt(entries, j, reg);
      forall i | 0 <= i < |ids| && i <= j
        ensures i < j ==> FaultAt(entries, ids, i, reg) == None
        ensures i == j ==> exists d :: FaultAt(entries, ids, i, reg) == Some(DuplicateId(d))
      {
        assert i < j ==> PassesFixed(entries, i, reg);
        FixedFault(entries, ids, i, reg);
      }
      assert j < |ids|;
      var d :| FaultAt(entries, ids, j, reg) == Some(DuplicateId(d));
    }
  }

  // ---- The builder ------------------------------------------------------------------------

  function Unset<K>(e: BuilderEntry<K>): BuilderEntry<K> {
    e.(isPrimary := false)
  }

  function Cleared<K>(entries: seq<BuilderEntry<K>>): (r: seq<BuilderEntry<K>>)
    ensures |r| == |entries| && forall i :: 0 <= i < |r| ==> r[i] == Unset(entries[i])
  {
    seq(|entries|, i requires 0 <= i < |entries| => Unset(entries[i]))
  }

  /** The entries after AddEntry: a new primary takes over from all earlier ones. */
  function Adding<K>(entries: seq<BuilderEntry<K>>, e: BuilderEntry<K>): (r: seq<BuilderEntry<K>>)
    ensures |r| == |entries| + 1 && r[|entries|] == e.(added := true)
    ensures forall i :: 0 <= i < |entries| ==>
      r[i] == entries[i].(isPrimary := entries[i].isPrimary && !e.isPrimary)
  {
    (if e.isPrimary then Cleared(entries) else entries) + [e.(added := true)]
  }

  predicate AtMostOnePrimary<K>(entries: seq<BuilderEntry<K>>) {
    forall i, j :: 0 <= i < j < |entries| ==> !(entries[i].isPrimary && entries[j].isPrimary)
  }

  /** Entries that were only added never have two primaries, so Build cannot report that. */
  lemma AddingKeepsOnePrimary<K>(entries: seq<BuilderEntry<K>>, e: BuilderEntry<K>)
    requires AtMostOnePrimary(entries)
    ensures AtMostOnePrimary(Adding(entries, e))
  {
  }

  /** The loop gets as far as the primary flag of entry j, and it is the second one set. */
  predicate SecondPrimaryReachedAt<K>(entries: seq<BuilderEntry<K>>, ids: seq<Int32>, j: nat, reg: Registry<K>)
    requires |ids| <= |entries|
  {
    && j < |ids| && ids[j] !in ids[..j] && CreateKey(entries[j], ids[j], reg).Ok?
    && entries[j].isPrimary && PrimaryBefore(entries, j)
  }

  /** Build reports two primaries if and only if the loop reaches a second entry marked as primary. */
  lemma TwoPrimariesIffReached<K>(entries: seq<BuilderEntry<K>>, ids: seq<Int32>, reg: Registry<K>, r: Outcome<Keyset>)
    requires Explains(entries, ids, reg, r)
    ensures r == NotBuilt(TwoPrimaries) <==> exists j: nat :: SecondPrimaryReachedAt(entries, ids, j, reg)
    ensures AtMostOnePrimary(entries) ==> r != NotBuilt(TwoPrimaries)
    ensures r.Built? ==> AtMostOnePrimary(entries)
  {
    if r == NotBuilt(TwoPrimaries) {
      assert SecondPrimaryReachedAt(entries, ids, |ids| - 1, reg);
    } else if exists j: nat :: SecondPrimaryReachedAt(entries, ids, j, reg) {
      var j: nat :| SecondPrimaryReachedAt(entries, ids, j, reg);
      assert FaultAt(entries, ids, j, reg) == Some(TwoPrimaries);
    }
    if r.Built? {
      BuiltKeyset(entries, ids, reg, r.value);
    }
  }

  /** What the builder made from a handle starts with: each key under its own id, the last primary as primary. */
  function EntryFor<K>(h: Handle<K>, i: nat, reg: Registry<K>): BuilderEntry<K>
    requires At(h, i, reg).Some?
  {
    var e := At(h, i, reg).value;
    BuilderEntry(FromKey(e.key), e.status, e.isPrimary, FixedId(e.id), true)
  }

  predicate AllEntries<K>(h: Handle<K>, reg: Registry<K>) {
    forall i :: 0 <= i < |h.keyset.keys| ==> At(h, i, reg).Some?
  }

  ghost predicate ImportedUpTo<K>(entries: seq<BuilderEntry<K>>, h: Handle<K>, n: nat, reg: Registry<K>)
    requires AllEntries(h, reg) && n <= |h.keyset.keys|
  {
    && |entries| == n
    && forall i :: 0 <= i < n ==> entries[i] == EntryFor(h, i, reg).(isPrimary := LastPrimary(h, i, n, reg))
  }

  /** Entry i is a primary and no later one among the first n is. */
  predicate LastPrimary<K>(h: Handle<K>, i: nat, n: nat, reg: Registry<K>)
    requires AllEntries(h, reg) && i < n <= |h.keyset.keys|
  {
    EntryFor(h, i, reg).isPrimary && forall j :: i < j < n ==> !EntryFor(h, j, reg).isPrimary
  }

  lemma ImportOne<K>(entries: seq<BuilderEntry<K>>, h: Handle<K>, n: nat, e: BuilderEntry<K>, reg: Registry<K>)
    requires AllEntries(h, reg) && n < |h.keyset.keys| && ImportedUpTo(entries, h, n, reg)
    requires e.(added := true) == EntryFor(h, n, reg)
    ensures ImportedUpTo(Adding(entries, e), h, n + 1, reg)
  {
  }

  /** What a first Build of a builder with sound annotations gives. */
  ghost predicate BuiltFrom<K>(entries: seq<BuilderEntry<K>>, annotations: Annotations, ids: seq<Int32>,
                               reg: Registry<K>, r: Outcome<Handle<K>>)
  {
    if entries == [] then r == NotBuilt(NoEntries)
    else if !Ordered(entries) then r == NotBuilt(RandomBeforeFixed)
    else match r
      case Built(h) =>
        && Explains(entries, ids, reg, Built(h.keyset))
        && EntriesFrom(h.keyset, |h.keyset.keys|, reg) == Ok(h.entries) && CacheAgrees(h)
        && h.annotations == annotations
      case NotBuilt(EntryFailed(code)) =>
        exists ks :: Explains(entries, ids, reg, Built(ks)) && EntriesFrom(ks, |ks.keys|, reg) == Err(code)
      case NotBuilt(e) => Explains(entries, ids, reg, NotBuilt(e))
  }

  /** The type of monitoring annotations. */
  const MONITORING := "LegacyAnnotations"

  class KeysetHandleBuilder<K> {
    var entries: seq<BuilderEntry<K>>
    var annotations: Annotations
    var annotationsRepeated: bool
    var buildCalled: bool

    constructor ()
      ensures entries == [] && annotations == map[] && !annotationsRepeated && !buildCalled
    {
      entries, annotations, annotationsRepeated, buildCalled := [], map[], false, false;
    }

    /** Starts from the keys of a handle; reading an entry that cannot be made aborts, hence the precondition. */
    constructor FromHandle(h: Handle<K>, reg: Registry<K>)
      requires AllEntries(h, reg)
      ensures ImportedUpTo(entries, h, |h.keyset.keys|, reg)
      ensures annotations == map[] && !annotationsRepeated && !buildCalled
    {
      entries, annotations, annotationsRepeated, buildCalled := [], map[], false, false;
      new;
      for i := 0 to |h.keyset.keys|
        invariant ImportedUpTo(entries, h, i, reg)
        invariant annotations == map[] && !annotationsRepeated && !buildCalled
      {
        var e := At(h, i, reg).value;
        var entry := CreateFromKey(e.key, e.status, e.isPrimary, reg);
        entry := entry.(strategy := FixedId(e.id));
        ImportOne(entries, h, i, entry, reg);
        AddEntry(entry);
      }
    }

    method ClearPrimary()
      modifies this`entries
      ensures entries == Cleared(old(entries))
    {
      for i := 0 to |entries|
        invariant |entries| == |old(entries)|
        invariant forall j :: 0 <= j < |entries| ==>
          entries[j] == if j < i then Unset(old(entries)[j]) else old(entries)[j]
      {
        entries := entries[i := entries[i].(isPrimary := false)];
      }
    }

    /** Adding an entry twice aborts. */
    method AddEntry(entry: BuilderEntry<K>)
      requires !entry.added
      modifies this`entries
      ensures entries == Adding(old(entries), entry)
      ensures AtMostOnePrimary(old(entries)) ==> AtMostOnePrimary(entries)
    {
      if entry.isPrimary {
        ClearPrimary();
      }
      entries := entries + [entry.(added := true)];
      if AtMostOnePrimary(old(entries)) {
        AddingKeepsOnePrimary(old(entries), entry);
      }
    }

    method RemoveEntry(index: nat)
      requires index < |entries|
      modifies this`entries
      ensures entries == old(entries)[..index] + old(entries)[index + 1..]
      ensures AtMostOnePrimary(old(entries)) ==> AtMostOnePrimary(entries)
    {
      entries := entries[..index] + entries[index + 1..];
    }

    /** The setters reached through operator[]; unlike AddEntry they can leave two primaries. */
    method EditEntry(index: nat, status: KeyStatus, isPrimary: bool, strategy: IdStrategy)
      requires index < |entries|
      modifies this`entries
      ensures entries == old(entries)[index := old(entries)[index].(
                           status := status, isPrimary := isPrimary, strategy := strategy)]
    {
      entries := entries[index := entries[index].(status := status, isPrimary := isPrimary, strategy := strategy)];
    }

    /** The first annotations of a type stay; a second call spoils the builder. */
    method AddAnnotations(kind: string, values: map<string, string>)
      modifies this`annotations, this`annotationsRepeated
      ensures annotations == if kind in old(annotations) then old(annotations) else old(annotations)[kind := values]
      ensures annotationsRepeated <==> old(annotationsRepeated) || kind in old(annotations)
    {
      if kind in annotations {
        annotationsRepeated := true;
      } else {
        annotations := annotations[kind := values];
      }
    }

    method SetMonitoringAnnotations(values: map<string, string>)
      modifies this`annotations, this`annotationsRepeated
      ensures annotations
           == if MONITORING in old(annotations) then old(annotations) else old(annotations)[MONITORING := values]
      ensures annotationsRepeated <==> old(annotationsRepeated) || MONITORING in old(annotations)
    {
      AddAnnotations(MONITORING, values);
    }

    /**
     * Works once. `ids` are the ids the loop assigned, which account for a keyset or for the error;
     * a handle that is built has a cache that agrees with its keyset.
     */
    method Build(reg: Registry<K>, draws: Draws) returns (r: Outcome<Handle<K>>, ghost ids: seq<Int32>)
      requires DrawsSuffice(entries, draws)
      modifies this
      ensures entries == old(entries) && annotationsRepeated == old(annotationsRepeated)
      ensures buildCalled <==> old(buildCalled) || !old(annotationsRepeated)
      ensures
        if old(buildCalled) then r == NotBuilt(BuiltTwice)
        else if old(annotationsRepeated) then r == NotBuilt(RepeatedAnnotations)
        else BuiltFrom(entries, old(annotations), ids, reg, r)
    {
      ids := [];
      if buildCalled {
        return NotBuilt(BuiltTwice), ids;
      }
      if annotationsRepeated {
        return NotBuilt(RepeatedAnnotations), ids;
      }
      buildCalled := true;
      var order := CheckIdAssignments(entries);
      if order.NotBuilt? {
        return NotBuilt(order.error), ids;
      }
      var assembled, ids' := Assemble(entries, reg, draws);
      ids := ids';
      if assembled.NotBuilt? {
        return NotBuilt(assembled.error), ids;
      }
      var parsed := GetEntriesFromKeyset(assembled.value, reg);
      if parsed.Err? {
        return NotBuilt(EntryFailed(parsed.code)), ids;
      }
      r := Built(Handle(assembled.value, parsed.value, annotations));
      annotations := map[];
    }
  }

  // ---- Round trip -------------------------------------------------------------------------

  /** Serializing a parsed key gives back what was parsed. */
  ghost predicate SerializationInverts<K>(reg: Registry<K>) {
    forall proto :: reg.parse(proto).Ok? ==> reg.serialize(reg.parse(proto).value) == Ok(proto)
  }

  /** Building writes the key_data field of every key, also of destroyed keys that had none. */
  function Written(key: Key): (w: Key)
    ensures key.data.Some? ==> w == key
    ensures key.data.None? ==> w == Key(Some(KeyData("", [], UnknownMaterial)), key.status, key.id, key.prefix)
  {
    key.(data := Some(DataOf(key)))
  }

  function AllWritten(ks: Keyset): (r: Keyset)
    ensures r.primary == ks.primary && |r.keys| == |ks.keys|
    ensures forall i :: 0 <= i < |ks.keys| ==> r.keys[i] == Written(ks.keys[i])
  {
    ks.(keys := seq(|ks.keys|, i requires 0 <= i < |ks.keys| => Written(ks.keys[i])))
  }

  /** Every entry of the handle agrees with its key and serializes back to it. */
  ghost predicate Rewrites<K>(h: Handle<K>, reg: Registry<K>) {
    forall i :: 0 <= i < |h.keyset.keys| ==>
      && At(h, i, reg).Some?
      && Agrees(At(h, i, reg).value, h.keyset.keys[i], h.keyset.primary)
      && CreateKeysetKey(At(h, i, reg).value.key, ToInt32(h.keyset.keys[i].id), h.keyset.keys[i].status, reg)
         == Ok(Written(h.keyset.keys[i]))
  }

  /** The handle's entries are its keys, parsed. */
  ghost predicate Parsed<K>(h: Handle<K>, reg: Registry<K>) {
    forall i :: 0 <= i < |h.keyset.keys| ==>
      At(h, i, reg).Some? && CreateEntry(h.keyset.keys[i], h.keyset.primary, reg) == Ok(At(h, i, reg).value)
  }

  /** So it is for handles that were generated, read or built, and for the handles of a manager. */
  lemma MadeByParsing<K>(h: Handle<K>, reg: Registry<K>)
    requires EntriesFrom(h.keyset, |h.keyset.keys|, reg) == Ok(h.entries) || (h.entries == [] && AllEntries(h, reg))
    ensures Parsed(h, reg)
  {
    EntriesFromEach(h.keyset, |h.keyset.keys|, reg);
  }

  lemma ParsedKeyRewrites<K>(key: Key, primary: Uint32, reg: Registry<K>)
    requires SerializationInverts(reg) && CreateEntry(key, primary, reg).Ok?
    ensures CreateKeysetKey(CreateEntry(key, primary, reg).value.key, ToInt32(key.id), key.status, reg)
         == Ok(Written(key))
  {
    var proto := ToProtoKey(key).value;
    assert reg.serialize(reg.parse(proto).value) == Ok(proto);
    assert ToUint32(ToInt32(key.id)) == key.id;
  }

  lemma ParsedRewrites<K>(h: Handle<K>, reg: Registry<K>)
    requires Parsed(h, reg) && SerializationInverts(reg)
    ensures Rewrites(h, reg)
  {
    forall i | 0 <= i < |h.keyset.keys|
      ensures CreateKeysetKey(At(h, i, reg).value.key, ToInt32(h.keyset.keys[i].id), h.keyset.keys[i].status, reg)
           == Ok(Written(h.keyset.keys[i]))
    {
      ParsedKeyRewrites(h.keyset.keys[i], h.keyset.primary, reg);
    }
  }

  /** Public handles rewrite too, whichever route their keys took. */
  lemma PublicRewrites<K>(h: Handle<K>, public: Handle<K>, reg: Registry<K>)
    requires Consistent(h) && AllEntries(h, reg) && SerializationInverts(reg)
    requires Projects(h.keyset, public.keyset) && CacheAgrees(public)
    requires forall i :: 0 <= i < |h.keyset.keys| ==>
      PublicCounterpart(h, i, reg, public.keyset.keys[i], public.entries[i])
    ensures Rewrites(public, reg)
  {
    var keys := public.keyset.keys;
    forall i | 0 <= i < |keys|
      ensures CreateKeysetKey(public.entries[i].key, ToInt32(keys[i].id), keys[i].status, reg) == Ok(Written(keys[i]))
    {
      assert PublicCounterpart(h, i, reg, keys[i], public.entries[i]);
      AtAgrees(h, i, reg);
      if reg.publicKey(At(h, i, reg).value.key).None? {
        ParsedKeyRewrites(keys[i], h.keyset.primary, reg);
      }
    }
  }

  lemma ImportedKey<K>(h: Handle<K>, i: nat, reg: Registry<K>)
    requires Rewrites(h, reg) && i < |h.keyset.keys|
    ensures CreateKey(EntryFor(h, i, reg), ToInt32(h.keyset.keys[i].id), reg) == Ok(Written(h.keyset.keys[i]))
    ensures EntryFor(h, i, reg).strategy == FixedId(ToInt32(h.keyset.keys[i].id))
    ensures EntryFor(h, i, reg).isPrimary <==> h.keyset.keys[i].id == h.keyset.primary
  {
  }

  lemma ImportedIds<K>(h: Handle<K>, entries: seq<BuilderEntry<K>>, ids: seq<Int32>, reg: Registry<K>)
    requires Rewrites(h, reg) && ImportedUpTo(entries, h, |h.keyset.keys|, reg) && Drawn(entries, ids)
    ensures forall i :: 0 <= i < |ids| ==>
      && ids[i] == ToInt32(h.keyset.keys[i].id)
      && CreateKey(entries[i], ids[i], reg) == Ok(Written(h.keyset.keys[i]))
  {
    forall i | 0 <= i < |ids|
      ensures ids[i] == ToInt32(h.keyset.keys[i].id)
      ensures CreateKey(entries[i], ids[i], reg) == Ok(Written(h.keyset.keys[i]))
    {
      ImportedKey(h, i, reg);
    }
  }

  lemma IdRepeatsIff(keys: seq<Key>, ids: seq<Int32>, i: nat)
    requires i < |ids| <= |keys| && forall j :: 0 <= j < |ids| ==> ids[j] == ToInt32(keys[j].id)
    ensures ids[i] in ids[..i] <==> exists j :: 0 <= j < i && keys[j].id == keys[i].id
  {
    if j :| 0 <= j < i && keys[j].id == keys[i].id {
      assert ids[..i][j] == ids[i];
    }
    if ids[i] in ids[..i] {
      var j :| 0 <= j < i && ids[..i][j] == ids[i];
      assert ToInt32(keys[j].id) == ToInt32(keys[i].id);
    }
  }

  /** The only thing that can stop the loop on imported entries is a repeated id. */
  lemma ImportedFault<K>(h: Handle<K>, entries: seq<BuilderEntry<K>>, ids: seq<Int32>, i: nat, reg: Registry<K>)
    requires Rewrites(h, reg) && ImportedUpTo(entries, h, |h.keyset.keys|, reg)
    requires Drawn(entries, ids) && i < |ids|
    ensures
      var repeats := exists j :: 0 <= j < i && h.keyset.keys[j].id == h.keyset.keys[i].id;
      FaultAt(entries, ids, i, reg) == if repeats then Some(DuplicateId(ids[i])) else None
  {
    ImportedIds(h, entries, ids, reg);
    IdRepeatsIff(h.keyset.keys, ids, i);
  }

  /** With distinct ids the imported primary is the key with the primary id. */
  lemma ImportedPrimary<K>(h: Handle<K>, entries: seq<BuilderEntry<K>>, i: nat, reg: Registry<K>)
    requires Rewrites(h, reg) && ImportedUpTo(entries, h, |h.keyset.keys|, reg)
    requires DistinctIds(h.keyset.keys) && i < |h.keyset.keys|
    ensures entries[i].isPrimary <==> h.keyset.keys[i].id == h.keyset.primary
  {
    forall j | 0 <= j < |h.keyset.keys|
      ensures EntryFor(h, j, reg).isPrimary <==> h.keyset.keys[j].id == h.keyset.primary
    {
      ImportedKey(h, j, reg);
    }
  }

  /**
   * What rebuilding the keys of a handle gives: with a repeated id, a duplicate id; else, without a key that
   * carries the primary id, no primary; else the same keys in the same order with the same ids, statuses,
   * prefixes and primary id, each with its key_data field set.
   */
  lemma RebuildRoundTrip<K>(h: Handle<K>, entries: seq<BuilderEntry<K>>, ids: seq<Int32>, reg: Registry<K>,
                            r: Outcome<Keyset>)
    requires Rewrites(h, reg) && ImportedUpTo(entries, h, |h.keyset.keys|, reg) && Explains(entries, ids, reg, r)
    ensures
      if !DistinctIds(h.keyset.keys) then r.NotBuilt? && r.error.DuplicateId?
      else if !HasId(h.keyset.keys, h.keyset.primary) then r == NotBuilt(NoPrimary)
      else r == Built(AllWritten(h.keyset))
  {
    ImportedIds(h, entries, ids, reg);
    var keys := h.keyset.keys;
    forall i | 0 <= i < |ids|
      ensures FaultAt(entries, ids, i, reg)
           == if exists j :: 0 <= j < i && keys[j].id == keys[i].id then Some(DuplicateId(ids[i])) else None
    {
      ImportedFault(h, entries, ids, i, reg);
    }
    forall i | 0 <= i < |keys| && DistinctIds(keys) ensures entries[i].isPrimary <==> keys[i].id == h.keyset.primary {
      ImportedPrimary(h, entries, i, reg);
    }
    if r.Built? {
      assert DistinctIds(keys) by {
        forall i, j | 0 <= i < j < |keys| ensures keys[i].id != keys[j].id {
          assert FaultAt(entries, ids, j, reg) == None;
        }
      }
      assert r.value.keys == AllWritten(h.keyset).keys;
    } else if r.error == NoPrimary {
      assert DistinctIds(keys) by {
        forall i, j | 0 <= i < j < |keys| ensures keys[i].id != keys[j].id {
          assert FaultAt(entries, ids, j, reg) == None;
        }
      }
    }
  }

  /** The rebuilt keys parse as the keys do. */
  lemma RebuiltKeysParse<K>(ks: Keyset, i: nat, reg: Registry<K>)
    requires i < |ks.keys|
    ensures CreateEntry(AllWritten(ks).keys[i], ks.primary, reg) == CreateEntry(ks.keys[i], ks.primary, reg)
  {
    assert ToProtoKey(AllWritten(ks).keys[i]) == ToProtoKey(ks.keys[i]);
  }

  /** The rebuilt keyset is the very same if and only if every key had its key_data field set. */
  lemma RebuiltSameIffDataSet(ks: Keyset)
    ensures AllWritten(ks) == ks <==> forall i :: 0 <= i < |ks.keys| ==> ks.keys[i].data.Some?
  {
  }

  ghost predicate KeysParse<K>(ks: Keyset, reg: Registry<K>) {
    forall i :: 0 <= i < |ks.keys| ==> CreateEntry(ks.keys[i], ks.primary, reg).Ok?
  }

  lemma RebuiltEntries<K>(ks: Keyset, reg: Registry<K>)
    ensures
      var entries := EntriesFrom(AllWritten(ks), |ks.keys|, reg);
      && (entries.Ok? <==> KeysParse(ks, reg))
      && (entries.Ok? ==> forall i :: 0 <= i < |ks.keys| ==>
            Ok(entries.value[i]) == CreateEntry(ks.keys[i], ks.primary, reg))
  {
    forall i | 0 <= i < |ks.keys|
      ensures CreateEntry(AllWritten(ks).keys[i], ks.primary, reg) == CreateEntry(ks.keys[i], ks.primary, reg)
    {
      RebuiltKeysParse(ks, i, reg);
    }
    EntriesFromEach(AllWritten(ks), |ks.keys|, reg);
  }

  /** The outcome that rebuilding a handle must have. */
  ghost predicate RebuildOutcome<K>(h: Handle<K>, reg: Registry<K>, r: Outcome<Handle<K>>) {
    var keys := h.keyset.keys;
    if keys == [] then r == NotBuilt(NoEntries)
    else if !DistinctIds(keys) then r.NotBuilt? && r.error.DuplicateId?
    else if !HasId(keys, h.keyset.primary) then r == NotBuilt(NoPrimary)
    else if !KeysParse(h.keyset, reg) then r.NotBuilt? && r.error.EntryFailed?
    else
      && r.Built?
      && r.value.keyset == AllWritten(h.keyset) && |r.value.entries| == |keys| && r.value.annotations == map[]
      && forall i :: 0 <= i < |keys| ==> Ok(r.value.entries[i]) == CreateEntry(keys[i], h.keyset.primary, reg)
  }

  lemma ImportedBuild<K>(h: Handle<K>, entries: seq<BuilderEntry<K>>, ids: seq<Int32>, reg: Registry<K>,
                         r: Outcome<Handle<K>>)
    requires Rewrites(h, reg) && ImportedUpTo(entries, h, |h.keyset.keys|, reg)
    requires BuiltFrom(entries, map[], ids, reg, r)
    ensures RebuildOutcome(h, reg, r)
  {
    RebuiltEntries(h.keyset, reg);
    if entries != [] {
      assert Ordered(entries);
      if r.Built? {
        RebuildRoundTrip(h, entries, ids, reg, Built(r.value.keyset));
      } else if r.error.EntryFailed? {
        var ks :| Explains(entries, ids, reg, Built(ks)) && EntriesFrom(ks, |ks.keys|, reg) == Err(r.error.code);
        RebuildRoundTrip(h, entries, ids, reg, Built(ks));
      } else {
        RebuildRoundTrip(h, entries, ids, reg, NotBuilt(r.error));
      }
    }
  }

  /**
   * A builder made from a handle, and Build. It succeeds if and only if the ids are distinct, some key
   * carries the primary id, and the keys parse (as they do for every handle that was made by parsing).
   * The new handle holds the same keyset, but for key_data fields that were not set, and the parsed keys.
   */
  method Rebuild<K>(h: Handle<K>, reg: Registry<K>) returns (r: Outcome<Handle<K>>)
    requires Rewrites(h, reg)
    ensures RebuildOutcome(h, reg, r)
    ensures r.Built? ==>
      (r.value.keyset == h.keyset <==> forall i :: 0 <= i < |h.keyset.keys| ==> h.keyset.keys[i].data.Some?)
    ensures r.Built? && Parsed(h, reg) ==>
      forall i :: 0 <= i < |h.keyset.keys| ==> r.value.entries[i] == At(h, i, reg).value
  {
    var builder := new KeysetHandleBuilder.FromHandle(h, reg);
    ghost var ids;
    r, ids := builder.Build(reg, _ => 0);
    ImportedBuild(h, builder.entries, ids, reg, r);
    RebuiltSameIffDataSet(h.keyset);
  }

  lemma PublicKeysHaveData<K>(h: Handle<K>, public: Handle<K>, reg: Registry<K>)
    requires AllEntries(h, reg) && |public.keyset.keys| == |h.keyset.keys| == |public.entries|
    requires forall i :: 0 <= i < |h.keyset.keys| ==>
      PublicCounterpart(h, i, reg, public.keyset.keys[i], public.entries[i])
    ensures AllWritten(public.keyset) == public.keyset
  {
    forall i | 0 <= i < |public.keyset.keys| ensures public.keyset.keys[i].data.Some? {
      assert PublicCounterpart(h, i, reg, public.keyset.keys[i], public.entries[i]);
    }
    RebuiltSameIffDataSet(public.keyset);
  }

  lemma ProjectionKeepsIds(private_: Keyset, public: Keyset)
    requires Projects(private_, public)
    ensures DistinctIds(private_.keys) <==> DistinctIds(public.keys)
    ensures forall id: Uint32 :: HasId(private_.keys, id) <==> HasId(public.keys, id)
  {
  }

  /** A public handle is rebuilt as the very same keyset, if its keys parse, exactly when the private ids allow it. */
  method RebuildPublic<K>(h: Handle<K>, reg: Registry<K>) returns (public: Result<Handle<K>>, r: Outcome<Handle<K>>)
    requires Consistent(h) && AllEntries(h, reg) && SerializationInverts(reg)
    ensures public.Ok? ==>
      && (r.Built? <==> && DistinctIds(h.keyset.keys) && HasId(h.keyset.keys, h.keyset.primary)
                        && KeysParse(public.value.keyset, reg))
      && (r.Built? ==> r.value.keyset == public.value.keyset)
  {
    public := GetPublicKeysetHandle(h, reg);
    if public.Err? {
      return public, NotBuilt(NoEntries);
    }
    PublicRewrites(h, public.value, reg);
    r := Rebuild(public.value, reg);
    PublicKeysHaveData(h, public.value, reg);
    ProjectionKeepsIds(h.keyset, public.value.keyset);
  }

  // ---- Annotations ------------------------------------------------------------------------

  datatype AnnotationsCall = AnnotationsCall(kind: string, values: map<string, string>)

  predicate RepeatsKind(calls: seq<AnnotationsCall>) {
    exists i, j :: 0 <= i < j < |calls| && calls[i].kind == calls[j].kind
  }

  /** Exactly the annotations of the calls. */
  predicate Holds(annotations: Annotations, calls: seq<AnnotationsCall>) {
    && (forall i :: 0 <= i < |calls| ==> calls[i].kind in annotations && annotations[calls[i].kind] == calls[i].values)
    && (forall kind :: kind in annotations ==> exists i :: 0 <= i < |calls| && calls[i].kind == kind)
  }

  /** The builder's annotation fields after the calls. */
  predicate Annotated(annotations: Annotations, repeated: bool, calls: seq<AnnotationsCall>) {
    && (forall i :: 0 <= i < |calls| ==> calls[i].kind in annotations)
    && (forall kind :: kind in annotations ==> exists i :: 0 <= i < |calls| && calls[i].kind == kind)
    && (repeated <==> RepeatsKind(calls))
    && (!repeated ==> Holds(annotations, calls))
  }

  lemma AnnotatedStep(annotations: Annotations, repeated: bool, calls: seq<AnnotationsCall>, call: AnnotationsCall)
    requires Annotated(annotations, repeated, calls)
    ensures
      var again := call.kind in annotations;
      Annotated(if again then annotations else annotations[call.kind := call.values], repeated || again, calls + [call])
  {
    var all := calls + [call];
    assert all[|calls|] == call;
    assert forall i :: 0 <= i < |calls| ==> all[i] == calls[i];
    var after := if call.kind in annotations then annotations else annotations[call.kind := call.values];
    forall kind | kind in after ensures exists i :: 0 <= i < |all| && all[i].kind == kind {
      if kind in annotations {
        var i :| 0 <= i < |calls| && calls[i].kind == kind;
        assert all[i].kind == kind;
      } else {
        assert all[|calls|].kind == kind;
      }
    }
    if call.kind in annotations {
      var i :| 0 <= i < |calls| && calls[i].kind == call.kind;
      assert all[i].kind == all[|calls|].kind;
    } else if RepeatsKind(calls) {
      var i, j :| 0 <= i < j < |calls| && calls[i].kind == calls[j].kind;
      assert all[i].kind == all[j].kind;
    }
  }

  method Annotate<K>(builder: KeysetHandleBuilder<K>, calls: seq<AnnotationsCall>)
    requires builder.annotations == map[] && !builder.annotationsRepeated
    modifies builder`annotations, builder`annotationsRepeated
    ensures Annotated(builder.annotations, builder.annotationsRepeated, calls)
  {
    for i := 0 to |calls|
      invariant Annotated(builder.annotations, builder.annotationsRepeated, calls[..i])
    {
      AnnotatedStep(builder.annotations, builder.annotationsRepeated, calls[..i], calls[i]);
      assert calls[..i + 1] == calls[..i] + [calls[i]];
      builder.AddAnnotations(calls[i].kind, calls[i].values);
    }
    assert calls[..|calls|] == calls;
  }

  /** The id loop never reports annotations. */
  lemma LoopSparesAnnotations<K>(entries: seq<BuilderEntry<K>>, annotations: Annotations, ids: seq<Int32>,
                                 reg: Registry<K>, r: Outcome<Handle<K>>)
    requires BuiltFrom(entries, annotations, ids, reg, r)
    ensures r != NotBuilt(RepeatedAnnotations)
    ensures r.Built? ==> r.value.annotations == annotations
  {
  }

  /**
   * Any sequence of AddAnnotations calls on a new builder, and Build: it reports repeated annotations if and
   * only if some type occurs twice, and otherwise a handle that is built carries exactly the annotations given.
   */
  method BuildAnnotated<K>(entries: seq<BuilderEntry<K>>, calls: seq<AnnotationsCall>, reg: Registry<K>, draws: Draws)
    returns (r: Outcome<Handle<K>>)
    requires DrawsSuffice(entries, draws)
    ensures r == NotBuilt(RepeatedAnnotations) <==> RepeatsKind(calls)
    ensures r.Built? ==> Holds(r.value.annotations, calls)
  {
    var builder := new KeysetHandleBuilder<K>();
    builder.entries := entries;
    Annotate(builder, calls);
    ghost var given := builder.annotations;
    ghost var ids;
    r, ids := builder.Build(reg, draws);
    if !RepeatsKind(calls) {
      LoopSparesAnnotations(entries, given, ids, reg, r);
    }
  }

  /** Setting monitoring annotations twice does not replace them: nothing can be built any more. */
  method SetMonitoringAnnotationsTwice<K>(entries: seq<BuilderEntry<K>>, first: map<string, string>,
                                          second: map<string, string>, reg: Registry<K>, draws: Draws)
    returns (r: Outcome<Handle<K>>)
    requires DrawsSuffice(entries, draws)
    ensures r == NotBuilt(RepeatedAnnotations)
  {
    var builder := new KeysetHandleBuilder<K>();
    builder.entries := entries;
    builder.SetMonitoringAnnotations(first);
    builder.SetMonitoringAnnotations(second);
    ghost var ids;
    r, ids := builder.Build(reg, draws);
  }
}
