/** KeysetManager: the managed keyset edited in place, each call against its `Lifecycle` meaning. */
module KeysetManagers {
  import opened Base
  import opened Keysets
  import Lifecycle

  // ---- Drawing an unused id ---------------------------------------------------------------

  ghost function IdSet(keys: seq<Key>): (s: set<Uint32>)
    ensures forall id :: id in s <==> HasId(keys, id)
    ensures |s| <= |keys|
  {
    if keys == [] then {}
    else
      var s := IdSet(keys[1..]) + {keys[0].id};
      assert forall id :: HasId(keys, id) <==> id == keys[0].id || HasId(keys[1..], id) by {
        forall id ensures HasId(keys, id) <==> id == keys[0].id || HasId(keys[1..], id) {
          assert forall i :: 0 < i < |keys| ==> keys[i] == keys[1..][i - 1];
          if HasId(keys[1..], id) {
            var i :| 0 <= i < |keys| - 1 && keys[1..][i].id == id;
            assert keys[i + 1].id == id;
          }
        }
      }
      s
  }

  /** The id is the first draw that no key of the keyset carries. */
  ghost predicate FirstUnusedDraw(keys: seq<Key>, draws: Draws, id: Uint32, n: nat) {
    && draws(n) == id && !HasId(keys, id)
    && forall m: nat :: m < n ==> HasId(keys, draws(m))
  }

  /** Some draw is an id that no key carries: what the drawing loop needs in order to end. */
  ghost predicate CanDraw(keys: seq<Key>, draws: Draws) {
    exists n: nat :: !HasId(keys, draws(n))
  }

  /** A source in which every 32-bit value comes up is always good enough, also with the blank key there. */
  lemma FairSourceSuffices(keys: seq<Key>, draws: Draws)
    requires Fair(draws) && |keys| < TWO_32 - 1
    ensures CanDraw(keys + [BLANK_KEY], draws)
  {
    var free := UnusedIdExists(IdSet(keys));
    assert ComesUp(draws, free, 0);
    var n: nat :| draws(n) == free;
    assert !HasId(keys + [BLANK_KEY], draws(n));
  }

  /** Draws until an id is unused. */
  method GenerateUnusedKeyId(keys: seq<Key>, draws: Draws) returns (id: Uint32)
    requires CanDraw(keys, draws)
    ensures exists n: nat :: FirstUnusedDraw(keys, draws, id, n)
  {
    ghost var limit: nat :| !HasId(keys, draws(limit));
    var n := 0;
    while true
      invariant n <= limit
      invariant forall m: nat :: m < n ==> HasId(keys, draws(m))
      decreases limit - n
    {
      id := draws(n);
      var alreadyExists := false;
      for i := 0 to |keys|
        invariant !alreadyExists
        invariant forall j :: 0 <= j < i ==> keys[j].id != id
      {
        if keys[i].id == id {
          alreadyExists := true;
          break;
        }
      }
      if !alreadyExists {
        assert FirstUnusedDraw(keys, draws, id, n);
        return;
      }
      n := n + 1;
    }
  }

  /** If an id will be drawn at all, one can be. */
  ghost predicate CanAdd(template: Lifecycle.Template, generated: Result<KeyData>, keys: seq<Key>, draws: Draws) {
    !Lifecycle.Rejected(template) && generated.Ok? ==> CanDraw(keys + [BLANK_KEY], draws)
  }

  /** Appends a blank key, fills it in, and only then draws its id. */
  method AddToKeyset(template: Lifecycle.Template, asPrimary: bool, generated: Result<KeyData>, draws: Draws,
                     keyset: Keyset)
    returns (r: Result<Uint32>, keyset': Keyset)
    requires CanAdd(template, generated, keyset.keys, draws)
    ensures
      var op := Lifecycle.Add(template, asPrimary, generated, if r.Ok? then r.value else 0);
      && Lifecycle.Feasible(keyset, op)
      && Lifecycle.Apply(keyset, op)
      == (keyset', if r.Ok? then Lifecycle.Added(r.value) else Lifecycle.Failed(r.code))
    ensures r.Ok? <==> template.prefix != UnknownPrefix && template.prefix != WithIdRequirement && generated.Ok?
    ensures r.Err? ==> keyset' == keyset
    ensures r.Ok? ==>
      && keyset'.keys == keyset.keys + [Key(Some(generated.value), Enabled, r.value, template.prefix)]
      && keyset'.primary == (if asPrimary then r.value else keyset.primary)
      && r.value != 0 && !HasId(keyset.keys, r.value)
  {
    keyset' := keyset;
    if template.prefix == UnknownPrefix {
      return Err(InvalidArgument), keyset;
    }
    if template.prefix == WithIdRequirement {
      return Err(InvalidArgument), keyset;
    }
    if generated.Err? {
      return Err(generated.code), keyset;
    }
    var last := |keyset.keys|;
    keyset' := keyset'.(keys := keyset'.keys + [BLANK_KEY]);
    keyset' := keyset'.(keys := keyset'.keys[last := keyset'.keys[last].(data := Some(generated.value))]);
    keyset' := keyset'.(keys := keyset'.keys[last := keyset'.keys[last].(status := Enabled)]);
    keyset' := keyset'.(keys := keyset'.keys[last := keyset'.keys[last].(prefix := template.prefix)]);
    assert CanDraw(keyset'.keys, draws) by {
      var n: nat :| !HasId(keyset.keys + [BLANK_KEY], draws(n));
      assert forall i :: 0 <= i <= last ==> keyset'.keys[i].id == (keyset.keys + [BLANK_KEY])[i].id;
      assert !HasId(keyset'.keys, draws(n));
    }
    var id := GenerateUnusedKeyId(keyset'.keys, draws);
    assert !HasId(keyset.keys + [BLANK_KEY], id) by {
      assert forall i :: 0 <= i <= last ==> (keyset.keys + [BLANK_KEY])[i].id == keyset'.keys[i].id;
    }
    keyset' := keyset'.(keys := keyset'.keys[last := keyset'.keys[last].(id := id)]);
    if asPrimary {
      keyset' := keyset'.(primary := id);
    }
    assert keyset'.keys == keyset.keys + [Key(Some(generated.value), Enabled, id, template.prefix)];
    Lifecycle.FeasibleIds(keyset, Lifecycle.Add(template, asPrimary, generated, id));
    return Ok(id), keyset';
  }

  class KeysetManager {
    var keyset: Keyset

    /** A manager of an empty keyset. */
    constructor ()
      ensures keyset == EMPTY_KEYSET && Lifecycle.Sound(keyset)
    {
      keyset := EMPTY_KEYSET;
    }

    /** A manager of a copy of the keyset a handle holds. */
    constructor FromHandle(handleKeyset: Keyset)
      ensures keyset == handleKeyset
    {
      keyset := handleKeyset;
    }

    method AddAs(template: Lifecycle.Template, asPrimary: bool, generated: Result<KeyData>, draws: Draws)
      returns (r: Lifecycle.Outcome)
      requires CanAdd(template, generated, keyset.keys, draws)
      modifies this
      ensures
        var op := Lifecycle.Add(template, asPrimary, generated, if r.Added? then r.id else 0);
        Lifecycle.Feasible(old(keyset), op) && Lifecycle.Apply(old(keyset), op) == (keyset, r)
    {
      var id, keyset' := AddToKeyset(template, asPrimary, generated, draws, keyset);
      keyset := keyset';
      r := if id.Ok? then Lifecycle.Added(id.value) else Lifecycle.Failed(id.code);
    }

    method Add(template: Lifecycle.Template, generated: Result<KeyData>, draws: Draws)
      returns (r: Lifecycle.Outcome)
      requires CanAdd(template, generated, keyset.keys, draws)
      modifies this
      ensures
        var op := Lifecycle.Add(template, false, generated, if r.Added? then r.id else 0);
        Lifecycle.Feasible(old(keyset), op) && Lifecycle.Apply(old(keyset), op) == (keyset, r)
    {
      r := AddAs(template, false, generated, draws);
    }

    method Rotate(template: Lifecycle.Template, generated: Result<KeyData>, draws: Draws)
      returns (r: Lifecycle.Outcome)
      requires CanAdd(template, generated, keyset.keys, draws)
      modifies this
      ensures
        var op := Lifecycle.Add(template, true, generated, if r.Added? then r.id else 0);
        Lifecycle.Feasible(old(keyset), op) && Lifecycle.Apply(old(keyset), op) == (keyset, r)
    {
      r := AddAs(template, true, generated, draws);
    }

    method Enable(id: Uint32) returns (r: Lifecycle.Outcome)
      modifies this
      ensures Lifecycle.Apply(old(keyset), Lifecycle.Op.Enable(id)) == (keyset, r)
    {
      for i := 0 to |keyset.keys|
        invariant keyset == old(keyset)
        invariant forall j :: 0 <= j < i ==> keyset.keys[j].id != id
      {
        var key := keyset.keys[i];
        if key.id == id {
          FindAt(keyset.keys, id, i);
          if key.status != Disabled && key.status != Enabled {
            return Lifecycle.Failed(InvalidArgument);
          }
          keyset := keyset.(keys := keyset.keys[i := key.(status := Enabled)]);
          return Lifecycle.Done;
        }
      }
      FindAt(keyset.keys, id, |keyset.keys|);
      return Lifecycle.Failed(NotFound);
    }

    method Disable(id: Uint32) returns (r: Lifecycle.Outcome)
      modifies this
      ensures Lifecycle.Apply(old(keyset), Lifecycle.Op.Disable(id)) == (keyset, r)
    {
      if keyset.primary == id {
        return Lifecycle.Failed(InvalidArgument);
      }
      for i := 0 to |keyset.keys|
        invariant keyset == old(keyset)
        invariant forall j :: 0 <= j < i ==> keyset.keys[j].id != id
      {
        var key := keyset.keys[i];
        if key.id == id {
          FindAt(keyset.keys, id, i);
          if key.status != Disabled && key.status != Enabled {
            return Lifecycle.Failed(InvalidArgument);
          }
          keyset := keyset.(keys := keyset.keys[i := key.(status := Disabled)]);
          return Lifecycle.Done;
        }
      }
      FindAt(keyset.keys, id, |keyset.keys|);
      return Lifecycle.Failed(NotFound);
    }

    method Delete(id: Uint32) returns (r: Lifecycle.Outcome)
      modifies this
      ensures Lifecycle.Apply(old(keyset), Lifecycle.Op.Delete(id)) == (keyset, r)
    {
      if keyset.primary == id {
        return Lifecycle.Failed(InvalidArgument);
      }
      for i := 0 to |keyset.keys|
        invariant keyset == old(keyset)
        invariant forall j :: 0 <= j < i ==> keyset.keys[j].id != id
      {
        if keyset.keys[i].id == id {
          FindAt(keyset.keys, id, i);
          keyset := keyset.(keys := keyset.keys[..i] + keyset.keys[i + 1..]);
          return Lifecycle.Done;
        }
      }
      FindAt(keyset.keys, id, |keyset.keys|);
      return Lifecycle.Failed(NotFound);
    }

    method Destroy(id: Uint32) returns (r: Lifecycle.Outcome)
      modifies this
      ensures Lifecycle.Apply(old(keyset), Lifecycle.Op.Destroy(id)) == (keyset, r)
    {
      if keyset.primary == id {
        return Lifecycle.Failed(InvalidArgument);
      }
      for i := 0 to |keyset.keys|
        invariant keyset == old(keyset)
        invariant forall j :: 0 <= j < i ==> keyset.keys[j].id != id
      {
        var key := keyset.keys[i];
        if key.id == id {
          FindAt(keyset.keys, id, i);
          if key.status != Disabled && key.status != Destroyed && key.status != Enabled {
            return Lifecycle.Failed(InvalidArgument);
          }
          keyset := keyset.(keys := keyset.keys[i := key.(data := None)]);
          keyset := keyset.(keys := keyset.keys[i := keyset.keys[i].(status := Destroyed)]);
          assert keyset.keys == old(keyset).keys[i := Lifecycle.Wiped(key)];
          return Lifecycle.Done;
        }
      }
      FindAt(keyset.keys, id, |keyset.keys|);
      return Lifecycle.Failed(NotFound);
    }

    method SetPrimary(id: Uint32) returns (r: Lifecycle.Outcome)
      modifies this
      ensures Lifecycle.Apply(old(keyset), Lifecycle.Op.SetPrimary(id)) == (keyset, r)
    {
      for i := 0 to |keyset.keys|
        invariant keyset == old(keyset)
        invariant forall j :: 0 <= j < i ==> keyset.keys[j].id != id
      {
        if keyset.keys[i].id == id {
          FindAt(keyset.keys, id, i);
          if keyset.keys[i].status != Enabled {
            return Lifecycle.Failed(InvalidArgument);
          }
          keyset := keyset.(primary := id);
          return Lifecycle.Done;
        }
      }
      FindAt(keyset.keys, id, |keyset.keys|);
      return Lifecycle.Failed(NotFound);
    }

    method KeyCount() returns (n: nat)
      ensures n == |keyset.keys|
      ensures Lifecycle.Apply(keyset, Lifecycle.Op.KeyCount) == (keyset, Lifecycle.Counted(n))
    {
      n := |keyset.keys|;
    }

    method GetKeysetHandle() returns (copy: Keyset)
      ensures copy == keyset
      ensures Lifecycle.Apply(keyset, Lifecycle.Op.GetKeysetHandle) == (keyset, Lifecycle.Snapshot(copy))
    {
      copy := keyset;
    }
  }

  /** A manager of a keyset with exactly one, fresh, enabled primary key, or the error of adding it. */
  method New(template: Lifecycle.Template, generated: Result<KeyData>, draws: Draws) returns (r: Result<KeysetManager>)
    requires CanAdd(template, generated, [], draws)
    ensures r.Ok? <==> !Lifecycle.Rejected(template) && generated.Ok?
    ensures r.Err? ==> r.code == if Lifecycle.Rejected(template) then InvalidArgument else generated.code
    ensures r.Ok? ==>
      && fresh(r.value) && Lifecycle.Sound(r.value.keyset)
      && SolePrimaryAt(r.value.keyset, 0) && r.value.keyset.primary != 0
      && r.value.keyset.keys == [Key(Some(generated.value), Enabled, r.value.keyset.primary, template.prefix)]
  {
    var manager := new KeysetManager();
    var rotated := manager.Rotate(template, generated, draws);
    if rotated.Failed? {
      return Err(rotated.code);
    }
    Lifecycle.FeasibleIds(EMPTY_KEYSET, Lifecycle.Add(template, true, generated, rotated.id));
    assert SolePrimaryAt(manager.keyset, 0);
    return Ok(manager);
  }
}
