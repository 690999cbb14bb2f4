/** Big-endian 32-bit fields and the output prefix that marks a key's ciphertexts. */
module CryptoFormat {
  import opened Base
  import opened Keysets
  import BigIntegers

  const NON_RAW_PREFIX_SIZE := 5
  const LEGACY_START_BYTE: Byte := 0
  const TINK_START_BYTE: Byte := 1
  const RAW_PREFIX: Bytes := []

  /** The four bytes of a 32-bit value, most significant first. */
  function BigEndian32(v: Uint32): (b: Bytes)
    ensures |b| == 4
  {
    [v / 0x100_0000, v / 0x1_0000 % 0x100, v / 0x100 % 0x100, v % 0x100]
  }

  /** LoadBigEndian32: the shifted bytes have no bit in common, so the source's `|` is a sum. */
  function LoadBigEndian32(b: Bytes): (v: Uint32)
    requires |b| >= 4
  {
    b[0] as int * 0x100_0000 + b[1] as int * 0x1_0000 + b[2] as int * 0x100 + b[3]
  }

  lemma LoadInvertsStore(v: Uint32)
    ensures LoadBigEndian32(BigEndian32(v)) == v
  {
    var q1 := v / 0x100;
    var q2 := q1 / 0x100;
    assert v / 0x1_0000 == q2 && v / 0x100_0000 == q2 / 0x100;
    assert v == q1 * 0x100 + v % 0x100;
    assert q1 == q2 * 0x100 + q1 % 0x100;
    assert q2 == q2 / 0x100 * 0x100 + q2 % 0x100;
  }

  lemma StoreInvertsLoad(b: Bytes)
    requires |b| >= 4
    ensures BigEndian32(LoadBigEndian32(b)) == b[..4]
  {
    var v := LoadBigEndian32(b);
    assert v / 0x100_0000 == b[0];
    assert v / 0x1_0000 == b[0] as int * 0x100 + b[1];
    assert v / 0x100 == b[0] as int * 0x1_0000 + b[1] as int * 0x100 + b[2];
  }

  lemma FourByteValue(b: Bytes)
    requires |b| == 4
    ensures BigIntegers.Value(b) == LoadBigEndian32(b)
  {
    assert b[..3][..2] == b[..2] && b[..2][..1] == b[..1];
    assert BigIntegers.Value(b[..1]) == b[0];
    assert BigIntegers.Value(b[..2]) == BigIntegers.Value(b[..1]) * 256 + b[1];
    assert BigIntegers.Value(b[..3]) == BigIntegers.Value(b[..2]) * 256 + b[2];
  }

  /** Both are the big-endian encoding with four bytes. */
  lemma BigEndian32IsTheEncoding(b: Bytes, v: Uint32)
    requires |b| >= 4
    ensures LoadBigEndian32(b) == BigIntegers.Value(b[..4])
    ensures BigIntegers.Encodes(BigEndian32(v), 4, v)
  {
    FourByteValue(b[..4]);
    FourByteValue(BigEndian32(v));
    LoadInvertsStore(v);
  }

  method StoreBigEndian32(out: array<Byte>, offset: nat, value: Uint32)
    requires offset + 4 <= out.Length
    modifies out
    ensures out[offset..offset + 4] == BigEndian32(value)
    ensures forall i :: 0 <= i < out.Length && !(offset <= i < offset + 4) ==> out[i] == old(out[i])
  {
    out[offset] := value / 0x100_0000;
    out[offset + 1] := value / 0x1_0000 % 0x100;
    out[offset + 2] := value / 0x100 % 0x100;
    out[offset + 3] := value % 0x100;
  }

  /** The prefix of the ciphertexts of a key, if its prefix type has one. */
  function OutputPrefix(prefix: OutputPrefixType, id: Uint32): Result<Bytes> {
    match prefix
    case Tink => Ok([TINK_START_BYTE] + BigEndian32(id))
    case Crunchy => Ok([LEGACY_START_BYTE] + BigEndian32(id))
    case Legacy => Ok([LEGACY_START_BYTE] + BigEndian32(id))
    case Raw => Ok(RAW_PREFIX)
    case _ => Err(InvalidArgument)
  }

  method GetOutputPrefix(prefix: OutputPrefixType, id: Uint32) returns (r: Result<Bytes>)
    ensures r == OutputPrefix(prefix, id)
  {
    match prefix
    case Tink =>
      var buffer := new Byte[NON_RAW_PREFIX_SIZE](_ => 0);
      buffer[0] := TINK_START_BYTE;
      StoreBigEndian32(buffer, 1, id);
      assert buffer[..] == [TINK_START_BYTE] + buffer[1..5];
      return Ok(buffer[..]);
    case Crunchy | Legacy =>
      var buffer := new Byte[NON_RAW_PREFIX_SIZE](_ => 0);
      buffer[0] := LEGACY_START_BYTE;
      StoreBigEndian32(buffer, 1, id);
      assert buffer[..] == [LEGACY_START_BYTE] + buffer[1..5];
      return Ok(buffer[..]);
    case Raw =>
      return Ok(RAW_PREFIX);
    case _ =>
      return Err(InvalidArgument);
  }

  predicate Prefixed(prefix: OutputPrefixType) {
    prefix in {Tink, Crunchy, Legacy}
  }

  /** The identifier is empty for keys without a prefix, else a start byte and the key id, big-endian. */
  predicate Marks(identifier: Bytes, prefix: OutputPrefixType, id: Uint32) {
    match prefix
    case Raw | WithIdRequirement => identifier == []
    case Tink => |identifier| == 5 && identifier[0] == 1 && BigIntegers.Value(identifier[1..]) == id
    case Legacy | Crunchy => |identifier| == 5 && identifier[0] == 0 && BigIntegers.Value(identifier[1..]) == id
    case _ => false
  }

  /** Exactly four prefix types have an output prefix, and it marks the key. */
  lemma OutputPrefixMarks(prefix: OutputPrefixType, id: Uint32)
    ensures
      match OutputPrefix(prefix, id)
      case Ok(b) => prefix in {Tink, Legacy, Crunchy, Raw} && Marks(b, prefix, id)
      case Err(code) => prefix !in {Tink, Legacy, Crunchy, Raw} && code == InvalidArgument
  {
    if Prefixed(prefix) {
      assert OutputPrefix(prefix, id).value[1..] == BigEndian32(id);
      BigEndian32IsTheEncoding(BigEndian32(id), id);
    }
  }

  /** Output prefixes have five bytes or none, and the five-byte ones determine the id and the start byte. */
  lemma PrefixInjective(p: OutputPrefixType, i: Uint32, q: OutputPrefixType, j: Uint32)
    requires Prefixed(p) && Prefixed(q)
    ensures |OutputPrefix(p, i).value| == NON_RAW_PREFIX_SIZE
    ensures LoadBigEndian32(OutputPrefix(p, i).value[1..]) == i
    ensures OutputPrefix(p, i).value[0] == if p == Tink then 1 else 0
    ensures OutputPrefix(p, i) == OutputPrefix(q, j) <==> i == j && (p == Tink <==> q == Tink)
  {
    var a, b := OutputPrefix(p, i).value, OutputPrefix(q, j).value;
    assert a[0] == if p == Tink then TINK_START_BYTE else LEGACY_START_BYTE;
    assert b[0] == if q == Tink then TINK_START_BYTE else LEGACY_START_BYTE;
    assert a[1..] == BigEndian32(i) && b[1..] == BigEndian32(j);
    LoadInvertsStore(i);
    LoadInvertsStore(j);
  }
}
