/**
 * Big-endian integers: stripping leading zeros (BigInteger, RestrictedBigInteger) and encoding with a
 * fixed size. `Value` is OS2IP of section 4.2 of RFC 8017, the encoding I2OSP of its section 4.1.
 */
module BigIntegers {
  import opened Base

  function Value(s: Bytes): nat {
    if s == [] then 0 else Value(s[..|s| - 1]) * 256 + s[|s| - 1]
  }

  function Pow256(n: nat): nat {
    if n == 0 then 1 else 256 * Pow256(n - 1)
  }

  /** The bytes from the first that is not zero. */
  function Strip(s: Bytes): Bytes {
    if s != [] && s[0] == 0 then Strip(s[1..]) else s
  }

  function Zeros(n: nat): (z: Bytes)
    ensures |z| == n && forall i :: 0 <= i < n ==> z[i] == 0
  {
    seq(n, _ => 0)
  }

  // ---- Values -----------------------------------------------------------------------------

  lemma {:induction false} ValueBound(s: Bytes)
    ensures Value(s) < Pow256(|s|)
  {
    if s != [] {
      ValueBound(s[..|s| - 1]);
    }
  }

  lemma {:induction false} LeadingZero(s: Bytes)
    requires s != [] && s[0] == 0
    ensures Value(s[1..]) == Value(s)
  {
    var n := |s| - 1;
    if n > 0 {
      LeadingZero(s[..n]);
      assert s[1..][..n - 1] == s[..n][1..];
    }
  }

  lemma {:induction false} LeadingByte(s: Bytes)
    requires s != [] && s[0] != 0
    ensures Value(s) >= Pow256(|s| - 1)
  {
    if |s| > 1 {
      LeadingByte(s[..|s| - 1]);
    }
  }

  lemma {:induction false} PowMonotone(m: nat, n: nat)
    requires m <= n
    ensures Pow256(m) <= Pow256(n)
  {
    if m < n {
      PowMonotone(m, n - 1);
    }
  }

  /** Among strings of one length the value determines the bytes. */
  lemma {:induction false} ValueInjective(s: Bytes, t: Bytes)
    requires |s| == |t| && Value(s) == Value(t)
    ensures s == t
  {
    if s != [] {
      var n := |s| - 1;
      assert s[n] == Value(s) % 256 == t[n];
      ValueInjective(s[..n], t[..n]);
      assert s == s[..n] + [s[n]] && t == t[..n] + [t[n]];
    }
  }

  // ---- Stripping --------------------------------------------------------------------------

  predicate Stripped(s: Bytes) {
    s == [] || s[0] != 0
  }

  /** Stripping keeps the number. */
  lemma {:induction false} StripKeepsValue(s: Bytes)
    ensures Value(Strip(s)) == Value(s) && Stripped(Strip(s)) && |Strip(s)| <= |s|
  {
    if s != [] && s[0] == 0 {
      LeadingZero(s);
      StripKeepsValue(s[1..]);
    }
  }

  lemma {:induction false} StrippedLength(s: Bytes, n: nat)
    requires Stripped(s)
    ensures |s| <= n <==> Value(s) < Pow256(n)
  {
    ValueBound(s);
    if |s| <= n {
      PowMonotone(|s|, n);
    } else {
      LeadingByte(s);
      PowMonotone(n, |s| - 1);
    }
  }

  /** The stripped form is canonical: byte equality is numeric equality. */
  lemma StripIsCanonical(s: Bytes, t: Bytes)
    ensures Strip(s) == Strip(t) <==> Value(s) == Value(t)
  {
    StripKeepsValue(s);
    StripKeepsValue(t);
    if Value(s) == Value(t) {
      StrippedLength(Strip(s), |Strip(t)|);
      StrippedLength(Strip(t), |Strip(t)|);
      StrippedLength(Strip(t), |Strip(s)|);
      StrippedLength(Strip(s), |Strip(s)|);
      ValueInjective(Strip(s), Strip(t));
    }
  }

  /** find_first_not_of('\\0') and the substring from there, as all three constructors do it. */
  method WithoutLeadingZeros(s: Bytes) returns (r: Bytes)
    ensures r == Strip(s)
  {
    var pos := 0;
    while pos < |s| && s[pos] == 0
      invariant pos <= |s| && Strip(s[pos..]) == Strip(s)
    {
      assert s[pos..][1..] == s[pos + 1..];
      pos := pos + 1;
    }
    if pos < |s| {
      return s[pos..];
    }
    return [];
  }

  datatype BigInteger = BigInteger(value: Bytes)

  method NewBigInteger(bytes: Bytes) returns (r: BigInteger)
    ensures Stripped(r.value) && Value(r.value) == Value(bytes)
  {
    var value := WithoutLeadingZeros(bytes);
    StripKeepsValue(bytes);
    return BigInteger(value);
  }

  // ---- RestrictedBigInteger ---------------------------------------------------------------

  datatype RestrictedBigInteger = RestrictedBigInteger(secret: Bytes)

  method NewRestrictedBigInteger(bytes: Bytes) returns (r: RestrictedBigInteger)
    ensures r.secret == Strip(bytes)
    ensures Stripped(r.secret) && Value(r.secret) == Value(bytes)
  {
    var secret := WithoutLeadingZeros(bytes);
    StripKeepsValue(bytes);
    return RestrictedBigInteger(secret);
  }

  /** Two integers made by the constructor compare equal exactly when they are the same number. */
  method Equal(x: RestrictedBigInteger, y: RestrictedBigInteger) returns (same: bool)
    requires Stripped(x.secret) && Stripped(y.secret)
    ensures same <==> Value(x.secret) == Value(y.secret)
  {
    StripIsCanonical(x.secret, y.secret);
    if |x.secret| != |y.secret| {
      return false;
    }
    return x.secret == y.secret;
  }

  function Padded(s: Bytes, n: nat): (r: Bytes)
    requires |s| <= n
    ensures |r| == n
  {
    Zeros(n - |s|) + s
  }

  lemma {:induction false} PaddingKeepsValue(s: Bytes, k: nat)
    ensures Value(Zeros(k) + s) == Value(s)
    ensures Strip(Zeros(k) + s) == Strip(s)
  {
    if k == 0 {
      assert Zeros(k) + s == s;
    } else {
      var padded := Zeros(k) + s;
      assert padded[1..] == Zeros(k - 1) + s;
      LeadingZero(padded);
      PaddingKeepsValue(s, k - 1);
    }
  }

  /** The meaning of a fixed-size encoding: exactly n bytes for the number. */
  predicate Encodes(r: Bytes, n: nat, value: nat) {
    |r| == n && Value(r) == value
  }

  /** Succeeds if and only if the number is below 256^n, with n bytes of the same number. */
  method EncodeWithFixedSize(x: RestrictedBigInteger, n: nat) returns (r: Result<Bytes>)
    requires Stripped(x.secret)
    ensures r.Ok? <==> Value(x.secret) < Pow256(n)
    ensures r.Ok? ==> Encodes(r.value, n, Value(x.secret)) && Strip(r.value) == x.secret
    ensures r.Err? ==> r.code == InvalidArgument
  {
    StrippedLength(x.secret, n);
    if |x.secret| > n {
      return Err(InvalidArgument);
    }
    var padded := new Byte[n](_ => 0);
    var start := n - |x.secret|;
    for i := 0 to |x.secret|
      invariant forall j :: 0 <= j < n ==> padded[j] == if start <= j < start + i then x.secret[j - start] else 0
    {
      padded[start + i] := x.secret[i];
    }
    assert padded[..] == Padded(x.secret, n);
    PaddingKeepsValue(x.secret, n - |x.secret|);
    return Ok(padded[..]);
  }

  /** Whatever fits a size is the encoding of its value, and there is only one. */
  lemma EncodingIsUnique(r: Bytes, s: Bytes, n: nat, value: nat)
    requires Encodes(r, n, value) && Encodes(s, n, value)
    ensures r == s && value < Pow256(n)
  {
    ValueBound(r);
    ValueInjective(r, s);
  }

  lemma {:induction false} LeadingZeros(s: Bytes, k: nat)
    requires k <= |s|
    ensures (forall i :: 0 <= i < k ==> s[i] == 0) ==> Value(s[k..]) == Value(s)
    ensures (exists i :: 0 <= i < k && s[i] != 0) ==> Value(s) >= Pow256(|s| - k)
  {
    if k > 0 {
      if s[0] == 0 {
        LeadingZero(s);
        LeadingZeros(s[1..], k - 1);
        assert s[1..][k - 1..] == s[k..];
        assert forall i :: 0 < i < k ==> s[i] == s[1..][i - 1];
      } else {
        LeadingByte(s);
        PowMonotone(|s| - k, |s| - 1);
      }
    }
  }

  /** ParseBigIntToFixedLength: pads or drops leading zeros; succeeds if and only if the number fits. */
  method ParseBigIntToFixedLength(val: Bytes, length: nat) returns (r: Result<Bytes>)
    ensures r.Ok? <==> Value(val) < Pow256(length)
    ensures r.Ok? ==> Encodes(r.value, length, Value(val))
    ensures r.Err? ==> r.code == InvalidArgument
  {
    ValueBound(val);
    if length >= |val| {
      PowMonotone(|val|, length);
      var start := length - |val|;
      var buffer := new Byte[length](_ => 0);
      for i := 0 to |val|
        invariant forall j :: 0 <= j < length ==> buffer[j] == if start <= j < start + i then val[j - start] else 0
      {
        buffer[start + i] := val[i];
      }
      assert buffer[..] == Padded(val, length);
      PaddingKeepsValue(val, start);
      return Ok(buffer[..]);
    }
    var toTruncate := |val| - length;
    LeadingZeros(val, toTruncate);
    if val[..toTruncate] != Zeros(toTruncate) {
      return Err(InvalidArgument);
    }
    assert forall i :: 0 <= i < toTruncate ==> val[i] == val[..toTruncate][i] == 0;
    ValueBound(val[toTruncate..]);
    return Ok(val[toTruncate..]);
  }
}
