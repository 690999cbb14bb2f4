/**
 * Any number of clients calling one KeysetManager. Each call takes the manager's mutex, performs its
 * reads and writes one at a time on the shared keyset, and releases the mutex.
 */
module Concurrency {
  import opened Base
  import opened Keysets
  import opened Lifecycle

  /** How far an Add call has got with the key it appended. */
  datatype Stage =
    | BlankAppended    // add_key() done: a key with id 0 is in the keyset
    | DataStored
    | StatusStored
    | PrefixStored     // about to draw an id
    | IdDrawn
    | IdStored

  /** Where a client stands between taking and releasing the mutex. */
  datatype Pc =
    | Entered
    | Scanning(at: nat)         // about to look at the key at this index
    | HalfDestroyed(at: nat)    // key data cleared, status not yet set
    | Filling(stage: Stage)
    | Finished(outcome: Outcome)

  /** The `newId` of an Add call is filled in when an id has been drawn. */
  datatype Thread = Idle | Waiting(call: Op) | Inside(call: Op, pc: Pc)

  datatype Record = Record(client: nat, op: Op, outcome: Outcome)

  /** `acquired` lists the clients in the order in which they took the mutex, `log` the completed calls. */
  datatype System = System(
    shared: Keyset, holder: Option<nat>, threads: map<nat, Thread>, acquired: seq<nat>, log: seq<Record>)

  datatype Event = Invoke(client: nat, call: Op) | Acquire(client: nat) | Inner(client: nat, draw: Uint32)
                 | Release(client: nat)

  function ThreadOf(s: System, c: nat): Thread {
    if c in s.threads then s.threads[c] else Idle
  }

  predicate Scans(call: Op) {
    !call.Add? && !call.KeyCount? && !call.GetKeysetHandle?
  }

  /** Calls that turn the primary id away before they scan. */
  predicate SparesPrimary(call: Op) {
    call.Disable? || call.Delete? || call.Destroy?
  }

  function Last(ks: Keyset, key: Key): Keyset
    requires ks.keys != []
  {
    WithKey(ks, |ks.keys| - 1, key)
  }

  /** The scan has found its key. */
  function Hit(ks: Keyset, call: Op, i: nat): (Keyset, Pc)
    requires Scans(call) && i < |ks.keys|
  {
    var key := ks.keys[i];
    match call
    case Enable(_) =>
      if key.status !in {Disabled, Enabled} then (ks, Finished(Failed(InvalidArgument)))
      else (WithKey(ks, i, key.(status := Enabled)), Finished(Done))
    case Disable(_) =>
      if key.status !in {Disabled, Enabled} then (ks, Finished(Failed(InvalidArgument)))
      else (WithKey(ks, i, key.(status := Disabled)), Finished(Done))
    case Delete(_) => (ks.(keys := Without(ks.keys, i)), Finished(Done))
    case Destroy(_) =>
      if key.status !in {Disabled, Destroyed, Enabled} then (ks, Finished(Failed(InvalidArgument)))
      else (WithKey(ks, i, key.(data := None)), HalfDestroyed(i))
    case SetPrimary(_) =>
      if key.status != Enabled then (ks, Finished(Failed(InvalidArgument)))
      else (ks.(primary := call.id), Finished(Done))
  }

  /** The next write to the key an Add call appended; an id already in use is drawn again. */
  function Fill(ks: Keyset, call: Op, stage: Stage, draw: Uint32): (Keyset, Op, Pc)
    requires ks.keys != [] && call.Add? && call.generated.Ok?
  {
    var key := ks.keys[|ks.keys| - 1];
    match stage
    case BlankAppended => (Last(ks, key.(data := Some(call.generated.value))), call, Filling(DataStored))
    case DataStored => (Last(ks, key.(status := Enabled)), call, Filling(StatusStored))
    case StatusStored => (Last(ks, key.(prefix := call.template.prefix)), call, Filling(PrefixStored))
    case PrefixStored =>
      if HasId(ks.keys, draw) then (ks, call, Filling(stage)) else (ks, call.(newId := draw), Filling(IdDrawn))
    case IdDrawn => (Last(ks, key.(id := call.newId)), call, Filling(IdStored))
    case IdStored =>
      (if call.asPrimary then ks.(primary := call.newId) else ks, call, Finished(Added(call.newId)))
  }

  /** One read or write of the client that is inside. */
  function Micro(ks: Keyset, call: Op, pc: Pc, draw: Uint32): (Keyset, Op, Pc) {
    match pc
    case Entered =>
      if call.Add? then
        if Rejected(call.template) then (ks, call, Finished(Failed(InvalidArgument)))
        else if call.generated.Err? then (ks, call, Finished(Failed(call.generated.code)))
        else (ks.(keys := ks.keys + [BLANK_KEY]), call, Filling(BlankAppended))
      else if call.KeyCount? then (ks, call, Finished(Counted(|ks.keys|)))
      else if call.GetKeysetHandle? then (ks, call, Finished(Snapshot(ks)))
      else if SparesPrimary(call) && ks.primary == call.id then (ks, call, Finished(Failed(InvalidArgument)))
      else (ks, call, Scanning(0))
    case Scanning(i) =>
      if !Scans(call) then (ks, call, pc)
      else if i >= |ks.keys| then (ks, call, Finished(Failed(NotFound)))
      else if ks.keys[i].id != call.id then (ks, call, Scanning(i + 1))
      else var (ks', pc') := Hit(ks, call, i); (ks', call, pc')
    case HalfDestroyed(i) =>
      if i >= |ks.keys| then (ks, call, pc)
      else (WithKey(ks, i, ks.keys[i].(status := Destroyed)), call, Finished(Done))
    case Finished(_) => (ks, call, pc)
    case Filling(stage) =>
      if ks.keys == [] || !call.Add? || call.generated.Err? then (ks, call, pc) else Fill(ks, call, stage, draw)
  }

  function Put(s: System, c: nat, thread: Thread): System {
    s.(threads := s.threads[c := thread])
  }

  predicate Step(s: System, e: Event, s': System) {
    var thread := ThreadOf(s, e.client);
    match e
    case Invoke(c, call) => thread.Idle? && s' == Put(s, c, Waiting(call))
    case Acquire(c) =>
      && thread.Waiting? && s.holder == None
      && s' == Put(s, c, Inside(thread.call, Entered)).(holder := Some(c), acquired := s.acquired + [c])
    case Inner(c, draw) =>
      && thread.Inside?
      && var (ks, call, pc) := Micro(s.shared, thread.call, thread.pc, draw);
         s' == Put(s, c, Inside(call, pc)).(shared := ks)
    case Release(c) =>
      && thread.Inside? && thread.pc.Finished?
      && s' == Put(s, c, Idle).(holder := None, log := s.log + [Record(c, thread.call, thread.pc.outcome)])
  }

  function Init(ks: Keyset): System {
    System(ks, None, map[], [], [])
  }

  ghost predicate Execution(ks: Keyset, states: seq<System>, events: seq<Event>) {
    && |states| == |events| + 1
    && states[0] == Init(ks)
    && forall i :: 0 <= i < |events| ==> Step(states[i], events[i], states[i + 1])
  }

  // ---- What a client inside the mutex sees ------------------------------------------------

  /** The blank key as the Add call has filled it in so far. */
  function Partial(call: Op, stage: Stage): Key
    requires call.Add? && call.generated.Ok?
  {
    match stage
    case BlankAppended => BLANK_KEY
    case DataStored => BLANK_KEY.(data := Some(call.generated.value))
    case StatusStored => BLANK_KEY.(data := Some(call.generated.value), status := Enabled)
    case IdStored => Fresh(call.template, call.generated.value, call.newId)
    case _ => Fresh(call.template, call.generated.value, 0)
  }

  /** How the shared keyset differs from `base`, the keyset when the mutex was taken. */
  predicate Midway(base: Keyset, shared: Keyset, call: Op, pc: Pc) {
    match pc
    case Entered => shared == base
    case Scanning(i) =>
      && shared == base && Scans(call) && i <= |base.keys|
      && (SparesPrimary(call) ==> base.primary != call.id)
      && forall j :: 0 <= j < i ==> base.keys[j].id != call.id
    case HalfDestroyed(i) =>
      && call.Destroy? && i < |base.keys| && i == Find(base.keys, call.id) && base.primary != call.id
      && base.keys[i].status in {Disabled, Destroyed, Enabled}
      && shared == WithKey(base, i, base.keys[i].(data := None))
    case Finished(outcome) => Feasible(base, call) && Apply(base, call) == (shared, outcome)
    case Filling(stage) =>
      && call.Add? && !Rejected(call.template) && call.generated.Ok?
      && shared == base.(keys := base.keys + [Partial(call, stage)])
      && (stage.IdDrawn? || stage.IdStored? ==> Feasible(base, call))
  }

  lemma HitKeepsMidway(base: Keyset, call: Op, i: nat)
    requires Midway(base, base, call, Scanning(i)) && i < |base.keys| && base.keys[i].id == call.id
    ensures var (ks, pc) := Hit(base, call, i); Midway(base, ks, call, pc)
  {
    FindAt(base.keys, call.id, i);
  }

  lemma FillKeepsMidway(base: Keyset, shared: Keyset, call: Op, stage: Stage, draw: Uint32)
    requires Midway(base, shared, call, Filling(stage))
    ensures var (ks, call', pc') := Fill(shared, call, stage, draw); Midway(base, ks, call', pc')
  {
    var (ks, call', pc') := Fill(shared, call, stage, draw);
    var n := |base.keys|;
    assert shared.keys[n] == Partial(call, stage);
    if stage.PrefixStored? {
      var blank := base.keys + [BLANK_KEY];
      assert forall j :: 0 <= j <= n ==> blank[j].id == shared.keys[j].id;
    } else if !stage.IdStored? {
      assert ks.keys == base.keys + [Partial(call, pc'.stage)];
    }
  }

  lemma MicroKeepsMidway(base: Keyset, shared: Keyset, call: Op, pc: Pc, draw: Uint32)
    requires Midway(base, shared, call, pc)
    ensures var (ks, call', pc') := Micro(shared, call, pc, draw); Midway(base, ks, call', pc')
  {
    match pc
    case Entered =>
    case Scanning(i) =>
      if i < |base.keys| && base.keys[i].id == call.id {
        HitKeepsMidway(base, call, i);
      } else if i >= |base.keys| {
        FindAt(base.keys, call.id, i);
      }
    case HalfDestroyed(i) =>
      assert shared.keys[i := shared.keys[i].(status := Destroyed)] == base.keys[i := Wiped(base.keys[i])];
    case Finished(_) =>
    case Filling(stage) => FillKeepsMidway(base, shared, call, stage, draw);
  }

  /** An upper bound on the steps still to come. */
  function Remaining(ks: Keyset, pc: Pc): nat {
    match pc
    case Entered => |ks.keys| + 7
    case Scanning(i) => if i <= |ks.keys| then |ks.keys| - i + 2 else 0
    case HalfDestroyed(_) => 1
    case Filling(stage) =>
      (match stage
       case BlankAppended => 6
       case DataStored => 5
       case StatusStored => 4
       case PrefixStored => 3
       case IdDrawn => 2
       case IdStored => 1)
    case Finished(_) => 0
  }

  /** Every step inside the mutex but a redraw brings its release nearer, so no call blocks the others for ever. */
  lemma MicroMakesProgress(base: Keyset, shared: Keyset, call: Op, pc: Pc, draw: Uint32)
    requires Midway(base, shared, call, pc) && !pc.Finished?
    requires pc == Filling(PrefixStored) ==> !HasId(shared.keys, draw)
    ensures var (ks, _, pc') := Micro(shared, call, pc, draw); Remaining(ks, pc') < Remaining(shared, pc)
  {
  }

  // ---- Serializability --------------------------------------------------------------------

  function Ops(log: seq<Record>): (ops: seq<Op>)
    ensures |ops| == |log|
    ensures forall i :: 0 <= i < |log| ==> ops[i] == log[i].op
  {
    seq(|log|, i requires 0 <= i < |log| => log[i].op)
  }

  predicate ReplaysAt(ks: Keyset, log: seq<Record>, i: nat)
    requires i < |log|
  {
    FeasibleAt(ks, Ops(log), i) && log[i].outcome == ReturnsAt(ks, Ops(log), i)
  }

  /** Running the logged calls one after the other gives the logged results. */
  predicate Replays(ks: Keyset, log: seq<Record>) {
    forall i :: 0 <= i < |log| ==> ReplaysAt(ks, log, i)
  }

  lemma ReplayExtends(ks: Keyset, log: seq<Record>, r: Record)
    requires Replays(ks, log)
    requires Feasible(Run(ks, Ops(log)), r.op) && r.outcome == Returns(Run(ks, Ops(log)), r.op)
    ensures Replays(ks, log + [r])
    ensures Run(ks, Ops(log + [r])) == After(Run(ks, Ops(log)), r.op)
  {
    var log' := log + [r];
    assert Ops(log') == Ops(log) + [r.op];
    StateAtPrefix(ks, Ops(log), [r.op], |log|);
    forall i | 0 <= i < |log'| ensures ReplaysAt(ks, log', i) {
      if i < |log| {
        assert ReplaysAt(ks, log, i);
        StateAtPrefix(ks, Ops(log), [r.op], i);
      }
    }
  }

  lemma ReplayIsFeasible(ks: Keyset, log: seq<Record>)
    requires Replays(ks, log)
    ensures FeasibleRun(ks, Ops(log))
  {
    forall j | 0 <= j < |log| ensures FeasibleAt(ks, Ops(log), j) {
      assert ReplaysAt(ks, log, j);
    }
  }

  /** The calls complete in the order in which the mutex was taken. */
  predicate InAcquisitionOrder(s: System) {
    && |s.acquired| == |s.log| + (if s.holder.Some? then 1 else 0)
    && (forall i :: 0 <= i < |s.log| ==> s.log[i].client == s.acquired[i])
    && (s.holder.Some? ==> s.acquired[|s.log|] == s.holder.value)
  }

  predicate MutualExclusion(s: System) {
    && (forall c :: c in s.threads && s.threads[c].Inside? ==> s.holder == Some(c))
    && (s.holder.Some? ==> ThreadOf(s, s.holder.value).Inside?)
  }

  predicate Serialized(ks: Keyset, s: System) {
    && Replays(ks, s.log)
    && InAcquisitionOrder(s)
    && MutualExclusion(s)
    && var base := Run(ks, Ops(s.log));
       match s.holder
       case None => s.shared == base
       case Some(c) => var t := ThreadOf(s, c); Midway(base, s.shared, t.call, t.pc)
  }

  lemma ReleaseSerialized(ks: Keyset, s: System, c: nat, s': System)
    requires Serialized(ks, s) && Step(s, Release(c), s')
    ensures Serialized(ks, s')
  {
    var thread := ThreadOf(s, c);
    var base := Run(ks, Ops(s.log));
    assert Apply(base, thread.call) == (s.shared, thread.pc.outcome);
    ReplayExtends(ks, s.log, Record(c, thread.call, thread.pc.outcome));
  }

  lemma StepSerialized(ks: Keyset, s: System, e: Event, s': System)
    requires Serialized(ks, s) && Step(s, e, s')
    ensures Serialized(ks, s')
  {
    var thread := ThreadOf(s, e.client);
    match e
    case Invoke(_, _) =>
    case Acquire(_) =>
    case Inner(c, draw) =>
      MicroKeepsMidway(Run(ks, Ops(s.log)), s.shared, thread.call, thread.pc, draw);
    case Release(c) =>
      ReleaseSerialized(ks, s, c, s');
  }

  /**
   * Every interleaving is serializable: in each reachable state the completed calls returned what they
   * return when run one after the other in the order in which the mutex was taken, and whenever the
   * mutex is free the shared keyset is the one that serial run leaves.
   */
  lemma {:induction false} EveryInterleavingIsSerial(ks: Keyset, states: seq<System>, events: seq<Event>, n: nat)
    requires Execution(ks, states, events) && n < |states|
    ensures Serialized(ks, states[n])
  {
    if n > 0 {
      EveryInterleavingIsSerial(ks, states, events, n - 1);
      StepSerialized(ks, states[n - 1], events[n - 1], states[n]);
    }
  }

  // ---- What clients can and cannot observe ------------------------------------------------

  lemma {:induction false} ZeroIdNeverAppears(ks: Keyset, ops: seq<Op>, i: nat)
    requires FeasibleRun(ks, ops) && i <= |ops| && !HasId(ks.keys, 0)
    ensures !HasId(StateAt(ks, ops, i).keys, 0)
  {
    if i > 0 {
      ZeroIdNeverAppears(ks, ops, i - 1);
      assert FeasibleAt(ks, ops, i - 1);
      var _ := StepChanges(StateAt(ks, ops, i - 1), ops[i - 1]);
    }
  }

  lemma SnapshotIsSound(ks: Keyset, ops: seq<Op>, i: nat)
    requires FeasibleRun(ks, ops) && i <= |ops|
    ensures !HasId(ks.keys, 0) ==> !HasId(StateAt(ks, ops, i).keys, 0)
    ensures Sound(ks) ==> Sound(StateAt(ks, ops, i))
  {
    if !HasId(ks.keys, 0) {
      ZeroIdNeverAppears(ks, ops, i);
    }
    if Sound(ks) {
      RunSound(ks, ops, i);
    }
  }

  lemma ReplayedReturn(ks: Keyset, log: seq<Record>, i: nat)
    requires Replays(ks, log) && i < |log|
    ensures
      var before := StateAt(ks, Ops(log), i);
      && (log[i].outcome.Added? ==> log[i].outcome.id != 0 && !HasId(before.keys, log[i].outcome.id))
      && (log[i].outcome.Snapshot? ==> log[i].outcome.keyset == before)
  {
    assert ReplaysAt(ks, log, i);
    if log[i].outcome.Added? {
      FeasibleIds(StateAt(ks, Ops(log), i), log[i].op);
    }
  }

  /**
   * In every interleaving an Add returns a non-zero id that no key carried, and no handle a client
   * obtains shows a key with id 0 unless the initial keyset had one.
   */
  lemma ClientsObserve(ks: Keyset, states: seq<System>, events: seq<Event>, n: nat, i: nat)
    requires Execution(ks, states, events) && n < |states| && i < |states[n].log|
    ensures
      var log := states[n].log;
      var before := StateAt(ks, Ops(log), i);
      && (log[i].outcome.Added? ==> log[i].outcome.id != 0 && !HasId(before.keys, log[i].outcome.id))
      && (log[i].outcome.Snapshot? ==>
            && log[i].outcome.keyset == before
            && (!HasId(ks.keys, 0) ==> !HasId(log[i].outcome.keyset.keys, 0))
            && (Sound(ks) ==> Sound(log[i].outcome.keyset)))
  {
    EveryInterleavingIsSerial(ks, states, events, n);
    var log := states[n].log;
    ReplayedReturn(ks, log, i);
    ReplayIsFeasible(ks, log);
    SnapshotIsSound(ks, Ops(log), i);
  }

  /** The invariant really is broken inside the mutex: a keyset without a primary has one, not enabled, midway. */
  lemma BlankKeyBreaksInvariant(base: Keyset, shared: Keyset, call: Op)
    requires Unprimed(base) && Midway(base, shared, call, Filling(BlankAppended))
    ensures !Sound(shared)
  {
    var n := |base.keys|;
    assert shared.keys[n] == BLANK_KEY;
    assert HasId(shared.keys, 0);
  }
}
