/** Result types, bytes and fixed-width integers shared by every module. */
module Base {

  datatype Option<+T> = None | Some(value: T)

  /** The status codes the modelled code returns; `OtherCode` stands for a code handed on by a callee. */
  datatype Code =
    | InvalidArgument
    | NotFound
    | FailedPrecondition
    | AlreadyExists
    | Internal
    | OtherCode(raw: nat)

  datatype Result<+T> = Ok(value: T) | Err(code: Code)

  const TWO_32: int := 0x1_0000_0000
  const TWO_31: int := 0x8000_0000

  type Byte = b: int | 0 <= b < 256
  type Bytes = seq<Byte>
  type Uint32 = x: int | 0 <= x < 0x1_0000_0000
  type Int32 = x: int | -0x8000_0000 <= x < 0x8000_0000

  /** The C++ conversion of a uint32_t to an int32_t (two's complement). */
  function ToInt32(x: Uint32): (r: Int32)
    ensures r == x || r == x - TWO_32
  {
    if x < TWO_31 then x else x - TWO_32
  }

  /** The C++ conversion of an int32_t to a uint32_t (modulo 2^32). */
  function ToUint32(x: Int32): (r: Uint32)
    ensures r == x || r == x + TWO_32
  {
    if x >= 0 then x else x + TWO_32
  }

  /** A random source: an unbounded stream of draws. */
  type Draws = nat -> Uint32

  ghost predicate ComesUp(draws: Draws, v: Uint32, k: nat) {
    exists j: nat :: j >= k && draws(j) == v
  }

  /** Every value keeps coming up, whatever has been drawn so far. */
  ghost predicate Fair(draws: Draws) {
    forall v: Uint32, k: nat :: ComesUp(draws, v, k)
  }

  ghost function NonZeroUpTo(n: Uint32): (s: set<Uint32>)
    ensures forall x: Uint32 :: x in s <==> 0 < x <= n
    ensures |s| == n
  {
    if n == 0 then {} else NonZeroUpTo(n - 1) + {n}
  }

  lemma SubsetSize<T>(a: set<T>, b: set<T>)
    requires a <= b
    ensures |a| <= |b|
  {
    assert b == a + (b - a);
  }

  /** While fewer than 2^32 - 1 ids are in use, a non-zero unused one exists. */
  lemma UnusedIdExists(used: set<Uint32>) returns (id: Uint32)
    requires |used| < TWO_32 - 1
    ensures id != 0 && id !in used
  {
    var all := NonZeroUpTo(TWO_32 - 1);
    if all <= used {
      SubsetSize(all, used);
      assert false;
    }
    id :| id in all && id !in used;
  }
}
