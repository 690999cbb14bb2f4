/**
 * EciesPrivateKey on NIST curves: three creation routes and the big integer that is computed on first
 * use, kept, and carried along by copies and assignments.
 */
module EciesPrivateKeys {
  import opened Base
  import opened BigIntegers

  datatype CurveType = NistP256 | NistP384 | NistP521 | X25519 | OtherCurve

  predicate IsNist(curve: CurveType) {
    curve.NistP256? || curve.NistP384? || curve.NistP521?
  }

  function PrivateKeyLength(curve: CurveType): nat {
    match curve
    case NistP256 => 32
    case NistP384 => 48
    case NistP521 => 66
    case X25519 => 32
    case OtherCurve => 0
  }

  function Pow2(n: nat): nat {
    if n == 0 then 1 else 2 * Pow2(n - 1)
  }

  lemma {:induction false} Pow256IsPow2(n: nat)
    ensures Pow256(n) == Pow2(8 * n)
  {
    if n > 0 {
      Pow256IsPow2(n - 1);
      assert Pow2(8 * n) == 4 * Pow2(8 * n - 2);
      assert Pow2(8 * n - 2) == 4 * Pow2(8 * n - 4);
      assert Pow2(8 * n - 4) == 4 * Pow2(8 * n - 6);
      assert Pow2(8 * n - 6) == 4 * Pow2(8 * n - 8);
    }
  }

  lemma {:induction false} Pow2Monotone(m: nat, n: nat)
    requires m <= n
    ensures Pow2(m) <= Pow2(n)
  {
    if m < n {
      Pow2Monotone(m, n - 1);
    }
  }

  /** The primes of the fields the curves are over: section 3.2.1 of NIST SP 800-186, section 4.1 of RFC 7748. */
  function FieldPrime(curve: CurveType): int {
    match curve
    case NistP256 => Pow2(256) - Pow2(224) + Pow2(192) + Pow2(96) - 1
    case NistP384 => Pow2(384) - Pow2(128) - Pow2(96) + Pow2(32) - 1
    case NistP521 => Pow2(521) - 1
    case X25519 => Pow2(255) - 19
    case OtherCurve => 0
  }

  /** Private keys have the length of a field element: as many bytes as the prime needs, and no more. */
  lemma PrivateKeyLengthHoldsField(curve: CurveType)
    requires !curve.OtherCurve?
    ensures PrivateKeyLength(curve) > 0
    ensures Pow256(PrivateKeyLength(curve) - 1) <= FieldPrime(curve) < Pow256(PrivateKeyLength(curve))
  {
    Pow256IsPow2(PrivateKeyLength(curve));
    Pow256IsPow2(PrivateKeyLength(curve) - 1);
    match curve
    case NistP256 =>
      Pow2Monotone(248, 255);
      Pow2Monotone(224, 255);
      Pow2Monotone(192, 223);
      Pow2Monotone(96, 223);
      Pow2Monotone(0, 96);
    case NistP384 =>
      Pow2Monotone(376, 383);
      Pow2Monotone(128, 382);
      Pow2Monotone(96, 382);
      Pow2Monotone(32, 96);
      Pow2Monotone(0, 32);
    case NistP521 =>
      Pow2Monotone(521, 528);
      Pow2Monotone(0, 520);
    case X25519 =>
      Pow2Monotone(5, 254);
      Pow2Monotone(248, 254);
  }

  datatype PublicKey = PublicKey(curve: CurveType, point: Bytes)

  /** OpenSSL's check that a public key and a private integer belong together. */
  type PairCheck = (PublicKey, nat) -> Result<()>

  /** What one key object holds. */
  datatype KeyState = KeyState(publicKey: PublicKey, bytes: Bytes, cached: Option<RestrictedBigInteger>)

  /** The integer the private key bytes stand for, on a NIST curve. */
  function NistValue(k: KeyState): Option<RestrictedBigInteger> {
    if IsNist(k.publicKey.curve) then Some(RestrictedBigInteger(Strip(k.bytes))) else None
  }

  /** The cache is empty or right. */
  predicate CacheOk(k: KeyState) {
    k.cached.Some? ==> k.cached.value == RestrictedBigInteger(Strip(k.bytes))
  }

  /** The state after a read and what the read returns; a cached integer is returned unseen. */
  function Reading(k: KeyState): (KeyState, Option<RestrictedBigInteger>) {
    if !IsNist(k.publicKey.curve) then (k, None)
    else if k.cached.Some? then (k, k.cached)
    else
      var x := Some(RestrictedBigInteger(Strip(k.bytes)));
      (k.(cached := x), x)
  }

  class EciesPrivateKey {
    var publicKey: PublicKey
    var privateKeyBytes: Bytes
    var bigInteger: Option<RestrictedBigInteger>

    function State(): KeyState
      reads this
    {
      KeyState(publicKey, privateKeyBytes, bigInteger)
    }

    constructor (publicKey: PublicKey, privateKeyBytes: Bytes)
      ensures State() == KeyState(publicKey, privateKeyBytes, None)
    {
      this.publicKey, this.privateKeyBytes, bigInteger := publicKey, privateKeyBytes, None;
    }

    constructor Copy(other: EciesPrivateKey)
      ensures State() == other.State()
    {
      publicKey, privateKeyBytes := other.publicKey, other.privateKeyBytes;
      bigInteger := other.bigInteger;
    }

    method Assign(other: EciesPrivateKey)
      modifies this
      ensures State() == old(other.State())
    {
      if this == other {
        return;
      }
      var tmp := other.bigInteger;
      bigInteger := tmp;
      publicKey := other.publicKey;
      privateKeyBytes := other.privateKeyBytes;
    }

    method GetNistPrivateKeyValue() returns (r: Option<RestrictedBigInteger>)
      modifies this`bigInteger
      ensures (State(), r) == Reading(old(State()))
      ensures old(CacheOk(State())) ==> CacheOk(State()) && r == NistValue(old(State()))
      ensures r.Some? <==> publicKey.curve in {NistP256, NistP384, NistP521}
      ensures old(CacheOk(State())) && r.Some? ==>
        Stripped(r.value.secret) && Value(r.value.secret) == Value(privateKeyBytes)
    {
      match publicKey.curve
      case NistP256 | NistP384 | NistP521 =>
        StripKeepsValue(privateKeyBytes);
        if bigInteger.None? {
          var x := NewRestrictedBigInteger(privateKeyBytes);
          bigInteger := Some(x);
        }
        return bigInteger;
      case X25519 | OtherCurve =>
        return None;
    }
  }

  // ---- Creation ---------------------------------------------------------------------------

  /** The length must be the curve's, and the pair must match. */
  method CreateForNistCurve(publicKey: PublicKey, bytes: Bytes, check: PairCheck) returns (r: Result<EciesPrivateKey>)
    ensures r.Ok? <==> |bytes| == PrivateKeyLength(publicKey.curve) && check(publicKey, Value(bytes)).Ok?
    ensures r.Ok? ==> fresh(r.value) && r.value.State() == KeyState(publicKey, bytes, None)
    ensures r.Err? ==>
      r.code == if |bytes| != PrivateKeyLength(publicKey.curve) then InvalidArgument
                else check(publicKey, Value(bytes)).code
  {
    if |bytes| != PrivateKeyLength(publicKey.curve) {
      return Err(InvalidArgument);
    }
    var validation := check(publicKey, Value(bytes));
    if validation.Err? {
      return Err(validation.code);
    }
    var key := new EciesPrivateKey(publicKey, bytes);
    return Ok(key);
  }

  /**
   * From an integer. One that fits the curve is never refused for its length, and a key that is created
   * gives that integer back.
   */
  method CreateFromBigInteger(publicKey: PublicKey, x: RestrictedBigInteger, check: PairCheck)
    returns (r: Result<EciesPrivateKey>)
    requires Stripped(x.secret)
    ensures r.Ok? <==>
      Value(x.secret) < Pow256(PrivateKeyLength(publicKey.curve)) && check(publicKey, Value(x.secret)).Ok?
    ensures r.Err? ==>
      r.code == if Value(x.secret) < Pow256(PrivateKeyLength(publicKey.curve))
                then check(publicKey, Value(x.secret)).code else InvalidArgument
    ensures r.Ok? ==>
      && fresh(r.value) && r.value.publicKey == publicKey && CacheOk(r.value.State())
      && Encodes(r.value.privateKeyBytes, PrivateKeyLength(publicKey.curve), Value(x.secret))
      && (IsNist(publicKey.curve) ==> NistValue(r.value.State()) == Some(x))
  {
    var adjusted := EncodeWithFixedSize(x, PrivateKeyLength(publicKey.curve));
    if adjusted.Err? {
      return Err(adjusted.code);
    }
    r := CreateForNistCurve(publicKey, adjusted.value, check);
  }

  /** From bytes of any length, padded or relieved of leading zeros: succeeds exactly as from their integer. */
  method CreateAllowNonConstantTime(publicKey: PublicKey, bytes: Bytes, check: PairCheck)
    returns (r: Result<EciesPrivateKey>)
    ensures r.Ok? <==> Value(bytes) < Pow256(PrivateKeyLength(publicKey.curve)) && check(publicKey, Value(bytes)).Ok?
    ensures r.Err? ==>
      r.code == if Value(bytes) < Pow256(PrivateKeyLength(publicKey.curve))
                then check(publicKey, Value(bytes)).code else InvalidArgument
    ensures r.Ok? ==>
      && fresh(r.value) && r.value.publicKey == publicKey && CacheOk(r.value.State())
      && Encodes(r.value.privateKeyBytes, PrivateKeyLength(publicKey.curve), Value(bytes))
  {
    var adjusted := ParseBigIntToFixedLength(bytes, PrivateKeyLength(publicKey.curve));
    if adjusted.Err? {
      return Err(adjusted.code);
    }
    r := CreateForNistCurve(publicKey, adjusted.value, check);
  }

  /** Whichever route made them, two keys for one public key and one integer hold the same bytes. */
  lemma RoutesAgree(publicKey: PublicKey, j: KeyState, k: KeyState, value: nat)
    requires j.publicKey == publicKey == k.publicKey
    requires Encodes(j.bytes, PrivateKeyLength(publicKey.curve), value)
    requires Encodes(k.bytes, PrivateKeyLength(publicKey.curve), value)
    ensures j.bytes == k.bytes && NistValue(j) == NistValue(k)
  {
    EncodingIsUnique(j.bytes, k.bytes, PrivateKeyLength(publicKey.curve), value);
  }

  // ---- Runs of reads, copies and assignments ----------------------------------------------

  /** Operations on a pool of keys; `Copy` and `Create` add a key at the end. */
  datatype Action =
    | Read(at: nat)
    | Copy(of: nat)
    | Assign(to: nat, from: nat)
    | Create(publicKey: PublicKey, bytes: Bytes)

  predicate Possible(n: nat, a: Action) {
    match a
    case Read(i) => i < n
    case Copy(i) => i < n
    case Assign(i, j) => i < n && j < n
    case Create(_, _) => true
  }

  /** One action, with the caches. */
  function Perform(pool: seq<KeyState>, a: Action): (seq<KeyState>, Option<RestrictedBigInteger>)
    requires Possible(|pool|, a)
  {
    match a
    case Read(i) => var (k, x) := Reading(pool[i]); (pool[i := k], x)
    case Copy(i) => (pool + [pool[i]], None)
    case Assign(i, j) => (pool[i := pool[j]], None)
    case Create(publicKey, bytes) => (pool + [KeyState(publicKey, bytes, None)], None)
  }

  /** The same action on keys that never cache anything. */
  function PerformPlain(pool: seq<KeyState>, a: Action): (seq<KeyState>, Option<RestrictedBigInteger>)
    requires Possible(|pool|, a)
  {
    match a
    case Read(i) => (pool, NistValue(pool[i]))
    case Copy(i) => (pool + [pool[i]], None)
    case Assign(i, j) => (pool[i := pool[j]], None)
    case Create(publicKey, bytes) => (pool + [KeyState(publicKey, bytes, None)], None)
  }

  function SizeAfter(n: nat, a: Action): nat {
    if a.Copy? || a.Create? then n + 1 else n
  }

  predicate Doable(n: nat, actions: seq<Action>)
    decreases |actions|
  {
    actions == [] || (Possible(n, actions[0]) && Doable(SizeAfter(n, actions[0]), actions[1..]))
  }

  /** What the reads and other actions of a run return, and the final pool. */
  function Play(pool: seq<KeyState>, actions: seq<Action>): (seq<KeyState>, seq<Option<RestrictedBigInteger>>)
    requires Doable(|pool|, actions)
    decreases |actions|
  {
    if actions == [] then (pool, [])
    else
      var (pool', x) := Perform(pool, actions[0]);
      var (final, xs) := Play(pool', actions[1..]);
      (final, [x] + xs)
  }

  function PlayPlain(pool: seq<KeyState>, actions: seq<Action>): (seq<KeyState>, seq<Option<RestrictedBigInteger>>)
    requires Doable(|pool|, actions)
    decreases |actions|
  {
    if actions == [] then (pool, [])
    else
      var (pool', x) := PerformPlain(pool, actions[0]);
      var (final, xs) := PlayPlain(pool', actions[1..]);
      (final, [x] + xs)
  }

  predicate AllCachesOk(pool: seq<KeyState>) {
    forall i :: 0 <= i < |pool| ==> CacheOk(pool[i])
  }

  function Uncached(pool: seq<KeyState>): (r: seq<KeyState>)
    ensures |r| == |pool| && forall i :: 0 <= i < |r| ==> r[i] == pool[i].(cached := None)
  {
    seq(|pool|, i requires 0 <= i < |pool| => pool[i].(cached := None))
  }

  lemma PerformRefinesPlain(pool: seq<KeyState>, a: Action)
    requires AllCachesOk(pool) && Possible(|pool|, a)
    ensures AllCachesOk(Perform(pool, a).0)
    ensures PerformPlain(Uncached(pool), a) == (Uncached(Perform(pool, a).0), Perform(pool, a).1)
  {
    assert Uncached(Perform(pool, a).0) == PerformPlain(Uncached(pool), a).0;
  }

  /**
   * Over every run of reads, copies, assignments and creations each cache stays empty or right, and the
   * run returns exactly what it would return if nothing were ever cached.
   */
  lemma {:induction false} CachingIsTransparent(pool: seq<KeyState>, actions: seq<Action>)
    requires AllCachesOk(pool) && Doable(|pool|, actions)
    ensures AllCachesOk(Play(pool, actions).0)
    ensures PlayPlain(Uncached(pool), actions) == (Uncached(Play(pool, actions).0), Play(pool, actions).1)
    decreases |actions|
  {
    if actions != [] {
      PerformRefinesPlain(pool, actions[0]);
      CachingIsTransparent(Perform(pool, actions[0]).0, actions[1..]);
    }
  }

  // ---- Runs on key objects ----------------------------------------------------------------

  predicate Distinct(pool: seq<EciesPrivateKey>) {
    forall i, j :: 0 <= i < j < |pool| ==> pool[i] != pool[j]
  }

  function States(pool: seq<EciesPrivateKey>): (r: seq<KeyState>)
    reads pool
    ensures |r| == |pool| && forall i :: 0 <= i < |pool| ==> r[i] == pool[i].State()
  {
    seq(|pool|, i requires 0 <= i < |pool| reads pool => pool[i].State())
  }

  /** The objects' methods do what `Perform` says, to the object they are called on and to no other. */
  method Act(pool: seq<EciesPrivateKey>, a: Action)
    returns (pool': seq<EciesPrivateKey>, x: Option<RestrictedBigInteger>)
    requires Distinct(pool) && Possible(|pool|, a)
    modifies pool
    ensures Distinct(pool') && (forall i :: 0 <= i < |pool'| ==> pool'[i] in pool || fresh(pool'[i]))
    ensures (States(pool'), x) == Perform(old(States(pool)), a)
  {
    ghost var before := States(pool);
    pool', x := pool, None;
    if a.Read? {
      x := pool[a.at].GetNistPrivateKeyValue();
    } else if a.Copy? {
      var key := new EciesPrivateKey.Copy(pool[a.of]);
      pool' := pool + [key];
    } else if a.Assign? {
      pool[a.to].Assign(pool[a.from]);
    } else {
      var key := new EciesPrivateKey(a.publicKey, a.bytes);
      pool' := pool + [key];
    }
    assert States(pool') == Perform(before, a).0;
  }

  /** Any run on objects whose caches are empty or right returns what it would return without caches. */
  method Run(pool: seq<EciesPrivateKey>, actions: seq<Action>)
    returns (pool': seq<EciesPrivateKey>, xs: seq<Option<RestrictedBigInteger>>)
    requires Distinct(pool) && AllCachesOk(States(pool)) && Doable(|pool|, actions)
    modifies pool
    ensures Distinct(pool') && AllCachesOk(States(pool'))
    ensures (Uncached(States(pool')), xs) == PlayPlain(Uncached(old(States(pool))), actions)
    decreases |actions|
  {
    if actions == [] {
      return pool, [];
    }
    PerformRefinesPlain(States(pool), actions[0]);
    var pool1, x := Act(pool, actions[0]);
    var pool2, rest := Run(pool1, actions[1..]);
    return pool2, [x] + rest;
  }
}
