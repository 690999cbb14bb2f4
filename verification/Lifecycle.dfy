/**
 * What one KeysetManager call does to the managed keyset, and what every run of calls keeps.
 *
 * The outcome of key generation and the id finally drawn are part of the Add operation;
 * `Feasible` says which ids the drawing loop can return.
 */
module Lifecycle {
  import opened Base
  import opened Keysets

  datatype Template = Template(typeUrl: string, value: Bytes, prefix: OutputPrefixType)

  datatype Op =
    | Add(template: Template, asPrimary: bool, generated: Result<KeyData>, newId: Uint32)
    | Enable(id: Uint32)
    | Disable(id: Uint32)
    | Delete(id: Uint32)
    | Destroy(id: Uint32)
    | SetPrimary(id: Uint32)
    | KeyCount
    | GetKeysetHandle

  datatype Outcome =
    | Failed(code: Code)
    | Done
    | Added(id: Uint32)
    | Counted(count: nat)
    | Snapshot(keyset: Keyset)

  /** Templates AddToKeyset turns away before it generates anything. */
  predicate Rejected(template: Template) {
    template.prefix == UnknownPrefix || template.prefix == WithIdRequirement
  }

  function Fresh(template: Template, data: KeyData, id: Uint32): Key {
    Key(Some(data), Enabled, id, template.prefix)
  }

  function WithKey(ks: Keyset, i: nat, key: Key): Keyset
    requires i < |ks.keys|
  {
    ks.(keys := ks.keys[i := key])
  }

  function Wiped(key: Key): Key {
    key.(data := None, status := Destroyed)
  }

  /** The keyset after one call, and what the call returns. */
  function Apply(ks: Keyset, op: Op): (Keyset, Outcome) {
    match op
    case Add(template, asPrimary, generated, id) =>
      if Rejected(template) then (ks, Failed(InvalidArgument))
      else if generated.Err? then (ks, Failed(generated.code))
      else
        (Keyset(if asPrimary then id else ks.primary, ks.keys + [Fresh(template, generated.value, id)]),
         Added(id))
    case Enable(id) =>
      var i := Find(ks.keys, id);
      if i == |ks.keys| then (ks, Failed(NotFound))
      else if ks.keys[i].status !in {Disabled, Enabled} then (ks, Failed(InvalidArgument))
      else (WithKey(ks, i, ks.keys[i].(status := Enabled)), Done)
    case Disable(id) =>
      var i := Find(ks.keys, id);
      if ks.primary == id then (ks, Failed(InvalidArgument))
      else if i == |ks.keys| then (ks, Failed(NotFound))
      else if ks.keys[i].status !in {Disabled, Enabled} then (ks, Failed(InvalidArgument))
      else (WithKey(ks, i, ks.keys[i].(status := Disabled)), Done)
    case Delete(id) =>
      var i := Find(ks.keys, id);
      if ks.primary == id then (ks, Failed(InvalidArgument))
      else if i == |ks.keys| then (ks, Failed(NotFound))
      else (ks.(keys := Without(ks.keys, i)), Done)
    case Destroy(id) =>
      var i := Find(ks.keys, id);
      if ks.primary == id then (ks, Failed(InvalidArgument))
      else if i == |ks.keys| then (ks, Failed(NotFound))
      else if ks.keys[i].status !in {Disabled, Destroyed, Enabled} then (ks, Failed(InvalidArgument))
      else (WithKey(ks, i, Wiped(ks.keys[i])), Done)
    case SetPrimary(id) =>
      var i := Find(ks.keys, id);
      if i == |ks.keys| then (ks, Failed(NotFound))
      else if ks.keys[i].status != Enabled then (ks, Failed(InvalidArgument))
      else (ks.(primary := id), Done)
    case KeyCount => (ks, Counted(|ks.keys|))
    case GetKeysetHandle => (ks, Snapshot(ks))
  }

  function After(ks: Keyset, op: Op): Keyset { Apply(ks, op).0 }

  function Returns(ks: Keyset, op: Op): Outcome { Apply(ks, op).1 }

  /** The id the drawing loop returns is unused in the keyset that already holds the blank key. */
  predicate Feasible(ks: Keyset, op: Op) {
    Returns(ks, op).Added? ==> !HasId(ks.keys + [BLANK_KEY], op.newId)
  }

  /** That blank key is why no generated id is 0. */
  lemma FeasibleIds(ks: Keyset, op: Op)
    requires Returns(ks, op).Added?
    ensures Feasible(ks, op) <==> op.newId != 0 && !HasId(ks.keys, op.newId)
  {
    var keys := ks.keys + [BLANK_KEY];
    assert keys[|ks.keys|].id == 0;
    if HasId(ks.keys, op.newId) {
      var i :| 0 <= i < |ks.keys| && ks.keys[i].id == op.newId;
      assert keys[i].id == op.newId;
    }
  }

  // ---- Runs -------------------------------------------------------------------------------

  /** The keyset after the first i calls of a run. */
  function StateAt(ks: Keyset, ops: seq<Op>, i: nat): Keyset
    requires i <= |ops|
  {
    if i == 0 then ks else After(StateAt(ks, ops, i - 1), ops[i - 1])
  }

  function Run(ks: Keyset, ops: seq<Op>): Keyset {
    StateAt(ks, ops, |ops|)
  }

  function ReturnsAt(ks: Keyset, ops: seq<Op>, i: nat): Outcome
    requires i < |ops|
  {
    Returns(StateAt(ks, ops, i), ops[i])
  }

  predicate FeasibleAt(ks: Keyset, ops: seq<Op>, i: nat)
    requires i < |ops|
  {
    Feasible(StateAt(ks, ops, i), ops[i])
  }

  predicate FeasibleRun(ks: Keyset, ops: seq<Op>) {
    forall i :: 0 <= i < |ops| ==> FeasibleAt(ks, ops, i)
  }

  lemma {:induction false} StateAtPrefix(ks: Keyset, ops: seq<Op>, more: seq<Op>, i: nat)
    requires i <= |ops|
    ensures StateAt(ks, ops + more, i) == StateAt(ks, ops, i)
  {
    if i > 0 {
      StateAtPrefix(ks, ops, more, i - 1);
    }
  }

  // ---- One call ---------------------------------------------------------------------------

  /** A call that fails leaves the keyset as it was. */
  lemma FailureIsAtomic(ks: Keyset, op: Op)
    ensures Returns(ks, op).Failed? ==> After(ks, op) == ks
  {
  }

  /** How a call may change the keyset. */
  datatype Change = Same | Appended(key: Key) | Edited(at: nat, key: Key) | Removed(at: nat) | Repointed(at: nat)

  /** What a key may have become: same id, prefix and material, or wiped; and destroyed for good. */
  predicate Evolved(before: Key, after: Key) {
    && after.id == before.id
    && after.prefix == before.prefix
    && (after.data == before.data || (after.data == None && after.status == Destroyed))
    && (before.status == Destroyed ==> after.status == Destroyed)
  }

  predicate Changes(before: Keyset, after: Keyset, how: Change) {
    match how
    case Same => after == before
    case Appended(key) =>
      && after.keys == before.keys + [key]
      && !HasId(before.keys, key.id) && key.id != 0 && key.status == Enabled && key.data.Some?
      && after.primary in {before.primary, key.id}
    case Edited(i, key) =>
      && i < |before.keys|
      && after == before.(keys := before.keys[i := key])
      && Evolved(before.keys[i], key)
      && (key.id == before.primary ==> key.status == Enabled)
    case Removed(i) =>
      && i < |before.keys| && before.keys[i].id != before.primary
      && after == before.(keys := Without(before.keys, i))
    case Repointed(i) =>
      && i < |before.keys| && before.keys[i].status == Enabled
      && after == before.(primary := before.keys[i].id)
  }

  /** Every call changes at most one key and the primary id, and keeps all others in place. */
  lemma StepChanges(ks: Keyset, op: Op) returns (how: Change)
    requires Feasible(ks, op)
    ensures Changes(ks, After(ks, op), how)
    ensures how.Appended? <==> Returns(ks, op).Added?
    ensures how.Removed? <==> op.Delete? && Returns(ks, op) == Done
    ensures how.Removed? ==> how.at == Find(ks.keys, op.id)
    ensures how.Repointed? <==> op.SetPrimary? && Returns(ks, op) == Done
    ensures how.Repointed? ==> how.at == Find(ks.keys, op.id)
  {
    if Returns(ks, op).Failed? || op.KeyCount? || op.GetKeysetHandle? {
      return Same;
    }
    if op.Add? {
      FeasibleIds(ks, op);
      return Appended(Fresh(op.template, op.generated.value, op.newId));
    }
    var i := Find(ks.keys, op.id);
    if op.Delete? {
      return Removed(i);
    } else if op.SetPrimary? {
      return Repointed(i);
    }
    return Edited(i, After(ks, op).keys[i]);
  }

  // ---- The run invariant ------------------------------------------------------------------

  /** No primary has been chosen yet. */
  predicate Unprimed(ks: Keyset) {
    ks.primary == 0 && !HasId(ks.keys, 0)
  }

  ghost predicate Sound(ks: Keyset) {
    DistinctIds(ks.keys) && (Unprimed(ks) || OnePrimary(ks))
  }

  predicate Repeated(keys: seq<Key>, id: Uint32) {
    exists i, j :: 0 <= i < j < |keys| && keys[i].id == id == keys[j].id
  }

  /** The first key with this id. */
  function KeyOf(ks: Keyset, id: Uint32): Option<Key> {
    var i := Find(ks.keys, id);
    if i < |ks.keys| then Some(ks.keys[i]) else None
  }

  /** The one call that can break the primary check: making a repeated id the primary. */
  predicate SplitsPrimary(ks: Keyset, op: Op) {
    && op.SetPrimary?
    && KeyOf(ks, op.id).Some? && KeyOf(ks, op.id).value.status == Enabled
    && Repeated(ks.keys, op.id)
  }

  lemma ChangeKeepsPrimary(before: Keyset, after: Keyset, how: Change)
    requires OnePrimary(before) && Changes(before, after, how)
    ensures OnePrimary(after) <==> !(how.Repointed? && Repeated(before.keys, after.primary))
  {
    var p: nat :| SolePrimaryAt(before, p);
    match how
    case Same =>
    case Appended(key) =>
      assert SolePrimaryAt(after, if after.primary == before.primary then p else |before.keys|);
    case Edited(_, _) =>
      assert SolePrimaryAt(after, p);
    case Removed(i) =>
      assert SolePrimaryAt(after, if p < i then p else p - 1);
    case Repointed(i) =>
      if !Repeated(before.keys, after.primary) {
        assert SolePrimaryAt(after, i);
      }
  }

  /** Once there is exactly one enabled primary, a call keeps that if and only if it does not split it. */
  lemma OnePrimaryKeptIff(ks: Keyset, op: Op)
    requires OnePrimary(ks) && Feasible(ks, op)
    ensures OnePrimary(After(ks, op)) <==> !SplitsPrimary(ks, op)
  {
    var how := StepChanges(ks, op);
    ChangeKeepsPrimary(ks, After(ks, op), how);
  }

  /** Repeated ids are accepted in keysets that are read in; there the primary check can be lost. */
  lemma RepeatedIdLosesPrimary()
    ensures
      var twice := Key(Some(KeyData("t", [], Symmetric)), Enabled, 2, Tink);
      var ks := Keyset(1, [twice.(id := 1), twice, twice]);
      OnePrimary(ks) && !OnePrimary(After(ks, SetPrimary(2)))
  {
    var twice := Key(Some(KeyData("t", [], Symmetric)), Enabled, 2, Tink);
    var ks := Keyset(1, [twice.(id := 1), twice, twice]);
    assert SolePrimaryAt(ks, 0);
    FindAt(ks.keys, 2, 1);
    assert ks.keys[1].id == ks.keys[2].id == 2;
    assert After(ks, SetPrimary(2)) == ks.(primary := 2);
  }

  lemma StepDistinct(ks: Keyset, op: Op)
    requires DistinctIds(ks.keys) && Feasible(ks, op)
    ensures DistinctIds(After(ks, op).keys)
  {
    var _ := StepChanges(ks, op);
  }

  /** A first primary can only be a key just rotated in, or one repointed to. */
  lemma StepPrimes(ks: Keyset, op: Op)
    requires DistinctIds(ks.keys) && Unprimed(ks) && Feasible(ks, op)
    ensures Unprimed(After(ks, op)) || OnePrimary(After(ks, op))
  {
    var how := StepChanges(ks, op);
    var ks' := After(ks, op);
    if how.Appended? && ks'.primary == how.key.id {
      assert SolePrimaryAt(ks', |ks.keys|);
    } else if how.Repointed? {
      assert SolePrimaryAt(ks', how.at);
    }
  }

  lemma StepSound(ks: Keyset, op: Op)
    requires Sound(ks) && Feasible(ks, op)
    ensures Sound(After(ks, op))
  {
    StepDistinct(ks, op);
    if OnePrimary(ks) {
      OnePrimaryKeptIff(ks, op);
    } else {
      StepPrimes(ks, op);
    }
  }

  /** In every state of every run ids are distinct and the primary is unset or unique and enabled. */
  lemma {:induction false} RunSound(ks: Keyset, ops: seq<Op>, i: nat)
    requires Sound(ks) && FeasibleRun(ks, ops) && i <= |ops|
    ensures Sound(StateAt(ks, ops, i))
  {
    if i > 0 {
      RunSound(ks, ops, i - 1);
      assert FeasibleAt(ks, ops, i - 1);
      StepSound(StateAt(ks, ops, i - 1), ops[i - 1]);
    }
  }

  /** Distinct ids stay distinct, whatever the primary. */
  lemma {:induction false} RunDistinct(ks: Keyset, ops: seq<Op>, i: nat)
    requires DistinctIds(ks.keys) && FeasibleRun(ks, ops) && i <= |ops|
    ensures DistinctIds(StateAt(ks, ops, i).keys)
  {
    if i > 0 {
      RunDistinct(ks, ops, i - 1);
      assert FeasibleAt(ks, ops, i - 1);
      StepDistinct(StateAt(ks, ops, i - 1), ops[i - 1]);
    }
  }

  /** Once the primary check passes it passes in every later state. */
  lemma {:induction false} PrimaryCheckIsStable(ks: Keyset, ops: seq<Op>, i: nat, j: nat)
    requires Sound(ks) && FeasibleRun(ks, ops) && i <= j <= |ops|
    requires OnePrimary(StateAt(ks, ops, i))
    ensures OnePrimary(StateAt(ks, ops, j))
  {
    if i < j {
      PrimaryCheckIsStable(ks, ops, i, j - 1);
      assert FeasibleAt(ks, ops, j - 1);
      RunSound(ks, ops, j - 1);
      OnePrimaryKeptIff(StateAt(ks, ops, j - 1), ops[j - 1]);
    }
  }

  // ---- The life of one key ----------------------------------------------------------------

  predicate Deletes(ks: Keyset, op: Op, id: Uint32) {
    op == Delete(id) && Returns(ks, op) == Done
  }

  /** No call from the i-th up to the j-th deletes the key. */
  predicate KeptDuring(ks: Keyset, ops: seq<Op>, id: Uint32, i: nat, j: nat)
    requires i <= j <= |ops|
  {
    forall n :: i <= n < j ==> !DeletesAt(ks, ops, n, id)
  }

  predicate DeletesAt(ks: Keyset, ops: seq<Op>, n: nat, id: Uint32)
    requires n < |ops|
  {
    Deletes(StateAt(ks, ops, n), ops[n], id)
  }

  /** A key with this id is there, destroyed, without material, and is not the primary. */
  predicate Dead(ks: Keyset, id: Uint32) {
    && KeyOf(ks, id).Some?
    && KeyOf(ks, id).value.status == Destroyed
    && KeyOf(ks, id).value.data == None
    && ks.primary != id
  }

  /** Where the first key with an id sits after a change that does not remove it. */
  lemma FindAfter(before: Keyset, after: Keyset, how: Change, id: Uint32)
    requires Changes(before, after, how)
    requires HasId(before.keys, id)
    requires how.Removed? ==> Find(before.keys, id) != how.at
    ensures
      var i := Find(before.keys, id);
      Find(after.keys, id) == if how.Removed? && how.at < i then i - 1 else i
  {
    var i := Find(before.keys, id);
    FindAt(after.keys, id, if how.Removed? && how.at < i then i - 1 else i);
  }

  lemma ChangeEvolves(before: Keyset, after: Keyset, how: Change, id: Uint32)
    requires Changes(before, after, how)
    requires HasId(before.keys, id)
    requires how.Removed? ==> Find(before.keys, id) != how.at
    requires how.Repointed? ==> how.at == Find(before.keys, after.primary)
    ensures KeyOf(after, id).Some?
    ensures Evolved(KeyOf(before, id).value, KeyOf(after, id).value)
    ensures Dead(before, id) ==> Dead(after, id)
  {
    FindAfter(before, after, how, id);
  }

  lemma StepEvolves(ks: Keyset, op: Op, id: Uint32)
    requires Feasible(ks, op) && KeyOf(ks, id).Some? && !Deletes(ks, op, id)
    ensures KeyOf(After(ks, op), id).Some?
    ensures Evolved(KeyOf(ks, id).value, KeyOf(After(ks, op), id).value)
    ensures Dead(ks, id) ==> Dead(After(ks, op), id)
  {
    var how := StepChanges(ks, op);
    ChangeEvolves(ks, After(ks, op), how, id);
  }

  /** Over any run that does not delete it, a key keeps its id, prefix and material, or is destroyed for good. */
  lemma {:induction false} RunEvolves(ks: Keyset, ops: seq<Op>, id: Uint32, i: nat, j: nat)
    requires FeasibleRun(ks, ops) && i <= j <= |ops|
    requires KeyOf(StateAt(ks, ops, i), id).Some?
    requires KeptDuring(ks, ops, id, i, j)
    ensures KeyOf(StateAt(ks, ops, j), id).Some?
    ensures Evolved(KeyOf(StateAt(ks, ops, i), id).value, KeyOf(StateAt(ks, ops, j), id).value)
    ensures Dead(StateAt(ks, ops, i), id) ==> Dead(StateAt(ks, ops, j), id)
  {
    if i < j {
      RunEvolves(ks, ops, id, i, j - 1);
      assert FeasibleAt(ks, ops, j - 1) && !DeletesAt(ks, ops, j - 1, id);
      StepEvolves(StateAt(ks, ops, j - 1), ops[j - 1], id);
    }
  }

  /** Destroy is absorbing: from a successful Destroy until a Delete, the key stays wiped and non-primary. */
  lemma DestroyIsAbsorbing(ks: Keyset, ops: seq<Op>, id: Uint32, i: nat, j: nat)
    requires FeasibleRun(ks, ops) && i < j <= |ops|
    requires ops[i] == Destroy(id) && ReturnsAt(ks, ops, i) == Done
    requires KeptDuring(ks, ops, id, i + 1, j)
    ensures Dead(StateAt(ks, ops, j), id)
  {
    var before := StateAt(ks, ops, i);
    assert FeasibleAt(ks, ops, i);
    var how := StepChanges(before, ops[i]);
    FindAfter(before, StateAt(ks, ops, i + 1), how, id);
    RunEvolves(ks, ops, id, i + 1, j);
  }

  // ---- What the calls promise -------------------------------------------------------------

  /** The key with this id becomes the given one, and no other id's key changes. */
  ghost predicate OnlyChanges(before: Keyset, after: Keyset, id: Uint32, now: Option<Key>) {
    && KeyOf(after, id) == now
    && forall other: Uint32 :: other != id ==> KeyOf(after, other) == KeyOf(before, other)
  }

  lemma ChangeTouchesOne(before: Keyset, after: Keyset, how: Change, other: Uint32)
    requires Changes(before, after, how)
    requires how.Edited? || how.Removed? ==> how.at < |before.keys| && before.keys[how.at].id != other
    requires how.Appended? ==> how.key.id != other
    ensures KeyOf(after, other) == KeyOf(before, other)
  {
    if HasId(before.keys, other) {
      FindAfter(before, after, how, other);
    } else {
      FindAt(before.keys, other, |before.keys|);
      FindAt(after.keys, other, |after.keys|);
    }
  }

  /**
   * A template without a usable prefix type is invalid, a failed generation passes its status on, and
   * otherwise exactly one enabled key with the generated data, the template's prefix type and the new id
   * comes last; it is the primary exactly if asked for.
   */
  lemma AddPromises(ks: Keyset, op: Op)
    requires op.Add?
    ensures
      var n := |ks.keys|;
      var after := After(ks, op);
      if op.template.prefix in {UnknownPrefix, WithIdRequirement} then Returns(ks, op) == Failed(InvalidArgument)
      else if op.generated.Err? then Returns(ks, op) == Failed(op.generated.code)
      else
        && Returns(ks, op) == Added(op.newId)
        && |after.keys| == n + 1 && after.keys[..n] == ks.keys
        && after.keys[n].data == Some(op.generated.value) && after.keys[n].status == Enabled
        && after.keys[n].prefix == op.template.prefix && after.keys[n].id == op.newId
        && after.primary == if op.asPrimary then op.newId else ks.primary
  {
  }

  /** The two queries change nothing and show the keyset as it is. */
  lemma QueriesPromise(ks: Keyset)
    ensures After(ks, KeyCount) == After(ks, GetKeysetHandle) == ks
    ensures Returns(ks, KeyCount) == Counted(|ks.keys|) && Returns(ks, GetKeysetHandle) == Snapshot(ks)
  {
  }

  /** The status changes: when each is allowed, what it leaves, and that nothing else moves. */
  lemma StatusCallsPromise(ks: Keyset, op: Op)
    requires op.Enable? || op.Disable? || op.Destroy?
    ensures
      var k := KeyOf(ks, op.id);
      var usual := k.Some? && k.value.status in {Enabled, Disabled};
      var ok := Returns(ks, op) == Done;
      match op
      case Enable(_) => ok <==> usual
      case Disable(_) => ok <==> usual && ks.primary != op.id
      case Destroy(_) => ok <==> (usual || (k.Some? && k.value.status == Destroyed)) && ks.primary != op.id
    ensures Returns(ks, op) == Done ==>
      && After(ks, op).primary == ks.primary
      && OnlyChanges(ks, After(ks, op), op.id, Some(
           match op
           case Enable(_) => KeyOf(ks, op.id).value.(status := Enabled)
           case Disable(_) => KeyOf(ks, op.id).value.(status := Disabled)
           case Destroy(_) => KeyOf(ks, op.id).value.(status := Destroyed, data := None)))
  {
    if Returns(ks, op) == Done {
      var ks' := After(ks, op);
      var i := Find(ks.keys, op.id);
      FindAt(ks'.keys, op.id, i);
      forall other: Uint32 | other != op.id ensures KeyOf(ks', other) == KeyOf(ks, other) {
        ChangeTouchesOne(ks, ks', Edited(i, ks'.keys[i]), other);
      }
    }
  }

  /** With distinct ids a deleted key is gone, and only it. */
  lemma DeletePromises(ks: Keyset, id: Uint32)
    ensures Returns(ks, Delete(id)) == Done <==> KeyOf(ks, id).Some? && ks.primary != id
    ensures Returns(ks, Delete(id)) == Done && DistinctIds(ks.keys) ==>
      OnlyChanges(ks, After(ks, Delete(id)), id, None) && After(ks, Delete(id)).primary == ks.primary
  {
    if Returns(ks, Delete(id)) == Done && DistinctIds(ks.keys) {
      var i := Find(ks.keys, id);
      var ks' := After(ks, Delete(id));
      FindAt(ks'.keys, id, |ks'.keys|);
      forall other: Uint32 | other != id ensures KeyOf(ks', other) == KeyOf(ks, other) {
        ChangeTouchesOne(ks, ks', Removed(i), other);
      }
    }
  }

  /** SetPrimary succeeds exactly on enabled keys and changes nothing but the primary id. */
  lemma SetPrimaryPromises(ks: Keyset, id: Uint32)
    ensures Returns(ks, SetPrimary(id)) == Done <==> KeyOf(ks, id).Some? && KeyOf(ks, id).value.status == Enabled
    ensures Returns(ks, SetPrimary(id)) == Done ==> After(ks, SetPrimary(id)) == Keyset(id, ks.keys)
  {
  }

  /** An unknown id is NOT_FOUND, unless it is the primary id of a call that spares the primary; the rest is invalid. */
  lemma RefusalCodes(ks: Keyset, op: Op)
    requires op.Enable? || op.Disable? || op.Destroy? || op.Delete? || op.SetPrimary?
    ensures
      var spared := !op.Enable? && !op.SetPrimary? && ks.primary == op.id;
      && (Returns(ks, op) == Failed(NotFound) <==> KeyOf(ks, op.id).None? && !spared)
      && (Returns(ks, op).Failed? && Returns(ks, op).code != NotFound ==> Returns(ks, op).code == InvalidArgument)
  {
  }

  /** Enabling again undoes disabling an enabled key. */
  lemma EnableUndoesDisable(ks: Keyset, id: Uint32)
    requires KeyOf(ks, id).Some? && KeyOf(ks, id).value.status == Enabled && ks.primary != id
    ensures After(After(ks, Disable(id)), Enable(id)) == ks
  {
    var i := Find(ks.keys, id);
    var off := After(ks, Disable(id));
    FindAt(off.keys, id, i);
    assert off.keys[i := ks.keys[i]] == ks.keys;
  }

  /** Deleting the key undoes adding it, from any sound keyset. */
  lemma DeleteUndoesAdd(ks: Keyset, op: Op)
    requires Sound(ks) && Feasible(ks, op) && Returns(ks, op).Added? && !op.asPrimary
    ensures After(After(ks, op), Delete(op.newId)) == ks
  {
    FeasibleIds(ks, op);
    var more := After(ks, op);
    FindAt(more.keys, op.newId, |ks.keys|);
    assert Without(more.keys, |ks.keys|) == ks.keys;
  }

  /** Rotating is adding and then making the new key the primary; the old primary stays as it was. */
  lemma RotateIsAddThenSetPrimary(ks: Keyset, template: Template, generated: Result<KeyData>, id: Uint32)
    requires Feasible(ks, Add(template, true, generated, id)) && Returns(ks, Add(template, true, generated, id)).Added?
    ensures After(ks, Add(template, true, generated, id))
         == After(After(ks, Add(template, false, generated, id)), SetPrimary(id))
    ensures OnePrimary(After(ks, Add(template, true, generated, id)))
    ensures OnlyChanges(ks, After(ks, Add(template, true, generated, id)), id,
                        Some(Fresh(template, generated.value, id)))
  {
    var op := Add(template, true, generated, id);
    FeasibleIds(ks, op);
    var added := After(ks, op.(asPrimary := false));
    var rotated := After(ks, op);
    FindAt(added.keys, id, |ks.keys|);
    FindAt(rotated.keys, id, |ks.keys|);
    assert SolePrimaryAt(rotated, |ks.keys|);
    forall other: Uint32 | other != id ensures KeyOf(rotated, other) == KeyOf(ks, other) {
      ChangeTouchesOne(ks, rotated, Appended(rotated.keys[|ks.keys|]), other);
    }
  }

  // ---- Order and conservation -------------------------------------------------------------

  predicate Precedes(ks: Keyset, a: Uint32, b: Uint32) {
    Find(ks.keys, a) < Find(ks.keys, b) < |ks.keys|
  }

  /** Keys that are not deleted keep their relative order. */
  lemma {:induction false} OrderIsKept(ks: Keyset, ops: seq<Op>, a: Uint32, b: Uint32, j: nat)
    requires FeasibleRun(ks, ops) && j <= |ops|
    requires Precedes(ks, a, b)
    requires KeptDuring(ks, ops, a, 0, j) && KeptDuring(ks, ops, b, 0, j)
    ensures Precedes(StateAt(ks, ops, j), a, b)
  {
    if j > 0 {
      OrderIsKept(ks, ops, a, b, j - 1);
      assert FeasibleAt(ks, ops, j - 1);
      assert !DeletesAt(ks, ops, j - 1, a) && !DeletesAt(ks, ops, j - 1, b);
      var before := StateAt(ks, ops, j - 1);
      var how := StepChanges(before, ops[j - 1]);
      FindAfter(before, StateAt(ks, ops, j), how, a);
      FindAfter(before, StateAt(ks, ops, j), how, b);
    }
  }

  /** By how much a call changes the number of keys. */
  function Growth(ks: Keyset, op: Op): int {
    if Returns(ks, op).Added? then 1 else if op.Delete? && Returns(ks, op) == Done then -1 else 0
  }

  lemma StepCount(ks: Keyset, op: Op)
    ensures |After(ks, op).keys| == |ks.keys| + Growth(ks, op)
  {
  }

  /** Successful additions less successful deletions among the first n calls. */
  function NetGrowth(ks: Keyset, ops: seq<Op>, n: nat): int
    requires n <= |ops|
  {
    if n == 0 then 0 else NetGrowth(ks, ops, n - 1) + Growth(StateAt(ks, ops, n - 1), ops[n - 1])
  }

  /** The number of keys is the initial one plus successful additions minus successful deletions. */
  lemma {:induction false} KeyCountIsConserved(ks: Keyset, ops: seq<Op>, n: nat)
    requires n <= |ops|
    ensures |StateAt(ks, ops, n).keys| == |ks.keys| + NetGrowth(ks, ops, n)
  {
    if n > 0 {
      KeyCountIsConserved(ks, ops, n - 1);
      StepCount(StateAt(ks, ops, n - 1), ops[n - 1]);
    }
  }

  /** And that is what the KeyCount call returns in every state of every run. */
  lemma KeyCountReturns(ks: Keyset, ops: seq<Op>, n: nat)
    requires n <= |ops|
    ensures
      var count := |ks.keys| + NetGrowth(ks, ops, n);
      count >= 0 && Returns(StateAt(ks, ops, n), KeyCount) == Counted(count)
  {
    KeyCountIsConserved(ks, ops, n);
    QueriesPromise(StateAt(ks, ops, n));
  }
}
