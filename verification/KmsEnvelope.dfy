/** KmsEnvelopeAead: a data key wrapped by a remote AEAD, framed in front of the payload. */
module KmsEnvelope {
  import opened Base
  import opened Keysets
  import opened AeadWrappers
  import opened PrimitiveSets
  import BigIntegers
  import CryptoFormat

  const ENCRYPTED_DEK_PREFIX_SIZE := 4
  const MAX_ENCRYPTED_DEK_SIZE := 4096
  const EMPTY_ASSOCIATED_DATA: Bytes := []

  /** Four big-endian length bytes (the length is truncated to 32 bits), the encrypted DEK, the payload. */
  function Frame(dek: Bytes, payload: Bytes): Bytes {
    CryptoFormat.BigEndian32(|dek| % TWO_32) + dek + payload
  }

  /** The first four bytes are the length of the encrypted DEK, big-endian; then come the DEK and the payload. */
  lemma FrameLayout(dek: Bytes, payload: Bytes)
    ensures
      var c := Frame(dek, payload);
      && |c| == 4 + |dek| + |payload|
      && BigIntegers.Value(c[..4]) == |dek| % 0x1_0000_0000
      && c[4..4 + |dek|] == dek && c[4 + |dek|..] == payload
  {
    var size := CryptoFormat.BigEndian32(|dek| % TWO_32);
    CryptoFormat.BigEndian32IsTheEncoding(size, |dek| % TWO_32);
    assert Frame(dek, payload)[..4] == size;
  }

  method GetEnvelopeCiphertext(dek: Bytes, payload: Bytes) returns (c: Bytes)
    ensures c == Frame(dek, payload)
  {
    var size := new Byte[ENCRYPTED_DEK_PREFIX_SIZE](_ => 0);
    CryptoFormat.StoreBigEndian32(size, 0, |dek| % TWO_32);
    assert size[..] == size[0..4];
    c := size[..] + dek + payload;
  }

  /** The pair that Decrypt takes out of a ciphertext; the subtraction and both slices stay in bounds. */
  function Unframe(c: Bytes): Result<(Bytes, Bytes)> {
    if |c| < ENCRYPTED_DEK_PREFIX_SIZE then Err(InvalidArgument)
    else
      var size := CryptoFormat.LoadBigEndian32(c);
      if size > MAX_ENCRYPTED_DEK_SIZE || size > |c| - ENCRYPTED_DEK_PREFIX_SIZE then Err(InvalidArgument)
      else
        Ok((c[ENCRYPTED_DEK_PREFIX_SIZE..ENCRYPTED_DEK_PREFIX_SIZE + size], c[ENCRYPTED_DEK_PREFIX_SIZE + size..]))
  }

  /** Framing is undone by parsing if and only if the encrypted DEK has at most 4096 bytes. */
  lemma UnframeInvertsFrame(dek: Bytes, payload: Bytes)
    ensures Unframe(Frame(dek, payload)) == Ok((dek, payload)) <==> |dek| <= 4096
  {
    var c := Frame(dek, payload);
    var size := |dek| % TWO_32;
    assert c[..4] == CryptoFormat.BigEndian32(size);
    assert CryptoFormat.LoadBigEndian32(c) == CryptoFormat.LoadBigEndian32(c[..4]);
    CryptoFormat.LoadInvertsStore(size);
    if |dek| <= MAX_ENCRYPTED_DEK_SIZE {
      assert size == |dek|;
      assert c[4..4 + size] == dek && c[4 + size..] == payload;
    }
  }

  /** Every ciphertext whose frame is accepted is the frame of exactly the pair taken out of it. */
  lemma FrameInvertsUnframe(c: Bytes)
    requires Unframe(c).Ok?
    ensures var (dek, payload) := Unframe(c).value; Frame(dek, payload) == c && |dek| <= MAX_ENCRYPTED_DEK_SIZE
  {
    var (dek, payload) := Unframe(c).value;
    CryptoFormat.StoreInvertsLoad(c);
    assert |dek| % TWO_32 == CryptoFormat.LoadBigEndian32(c);
    assert c == c[..4] + dek + payload;
  }

  /** No two accepted ciphertexts carry the same pair. */
  lemma UnframeInjective(c: Bytes, c': Bytes)
    requires Unframe(c).Ok? && Unframe(c) == Unframe(c')
    ensures c == c'
  {
    FrameInvertsUnframe(c);
    FrameInvertsUnframe(c');
  }

  datatype Envelope = Envelope(dekTypeUrl: string, remote: Aead, get: Getter<Aead>)

  /** `generated` is the registry's new DEK; the coins are the randomness of the two encryptions. */
  method Encrypt(env: Envelope, m: Bytes, ad: Bytes, generated: Result<KeyData>, dekCoins: Bytes, coins: Bytes)
    returns (r: Result<Bytes>)
    ensures r.Ok? <==>
      && generated.Ok?
      && env.remote.encrypt(generated.value.value, EMPTY_ASSOCIATED_DATA, dekCoins).Ok?
      && |env.remote.encrypt(generated.value.value, EMPTY_ASSOCIATED_DATA, dekCoins).value| <= MAX_ENCRYPTED_DEK_SIZE
      && env.get(generated.value).Ok?
      && env.get(generated.value).value.encrypt(m, ad, coins).Ok?
    ensures r.Err? ==>
      if generated.Err? then r.code == generated.code
      else
        var dek := env.remote.encrypt(generated.value.value, EMPTY_ASSOCIATED_DATA, dekCoins);
        if dek.Err? then r.code == dek.code
        else if |dek.value| > MAX_ENCRYPTED_DEK_SIZE then r.code == InvalidArgument
        else if env.get(generated.value).Err? then r.code == env.get(generated.value).code
        else r == env.get(generated.value).value.encrypt(m, ad, coins)
    ensures r.Ok? ==> Unframe(r.value) == Ok((
      env.remote.encrypt(generated.value.value, EMPTY_ASSOCIATED_DATA, dekCoins).value,
      env.get(generated.value).value.encrypt(m, ad, coins).value))
  {
    if generated.Err? {
      return Err(generated.code);
    }
    var dek := generated.value;
    var encryptedDek := env.remote.encrypt(dek.value, EMPTY_ASSOCIATED_DATA, dekCoins);
    if encryptedDek.Err? {
      return encryptedDek;
    }
    if |encryptedDek.value| > MAX_ENCRYPTED_DEK_SIZE {
      return Err(InvalidArgument);
    }
    var aead := env.get(dek);
    if aead.Err? {
      return Err(aead.code);
    }
    var payload := aead.value.encrypt(m, ad, coins);
    if payload.Err? {
      return payload;
    }
    var c := GetEnvelopeCiphertext(encryptedDek.value, payload.value);
    UnframeInvertsFrame(encryptedDek.value, payload.value);
    return Ok(c);
  }

  function Opened(env: Envelope, c: Bytes, ad: Bytes): Result<Bytes> {
    var parts := Unframe(c);
    if parts.Err? then Err(parts.code)
    else
      var dek := env.remote.decrypt(parts.value.0, EMPTY_ASSOCIATED_DATA);
      if dek.Err? then Err(InvalidArgument)
      else
        var aead := env.get(KeyData(env.dekTypeUrl, dek.value, Symmetric));
        if aead.Err? then Err(aead.code) else aead.value.decrypt(parts.value.1, ad)
  }

  /** The ciphertext is the frame of this pair, and the encrypted DEK is not too long. */
  predicate Framed(c: Bytes, dek: Bytes, payload: Bytes) {
    c == Frame(dek, payload) && |dek| <= 4096
  }

  /** The remote AEAD unwraps the DEK to `value`, and the AEAD of the symmetric key it makes decrypts the payload. */
  predicate OpensTo(env: Envelope, dek: Bytes, payload: Bytes, ad: Bytes, value: Bytes, m: Bytes) {
    && env.remote.decrypt(dek, []) == Ok(value)
    && env.get(KeyData(env.dekTypeUrl, value, Symmetric)).Ok?
    && env.get(KeyData(env.dekTypeUrl, value, Symmetric)).value.decrypt(payload, ad) == Ok(m)
  }

  /** The result for a ciphertext that carries this pair; each failing step has its status. */
  predicate ResultFor(env: Envelope, dek: Bytes, payload: Bytes, ad: Bytes, r: Result<Bytes>) {
    match env.remote.decrypt(dek, [])
    case Err(_) => r == Err(InvalidArgument)
    case Ok(value) =>
      match env.get(KeyData(env.dekTypeUrl, value, Symmetric))
      case Err(code) => r == Err(code)
      case Ok(aead) => r == aead.decrypt(payload, ad)
  }

  /**
   * A ciphertext decrypts to m if and only if it is the frame of an encrypted DEK and a payload that open
   * to m. One that is no such frame is an invalid argument, any other gets the result of its pair.
   */
  lemma OpenedIff(env: Envelope, c: Bytes, ad: Bytes)
    ensures forall m :: Opened(env, c, ad) == Ok(m) <==>
      exists dek, payload, value :: Framed(c, dek, payload) && OpensTo(env, dek, payload, ad, value, m)
    ensures forall dek, payload :: Framed(c, dek, payload) ==> ResultFor(env, dek, payload, ad, Opened(env, c, ad))
    ensures (forall dek, payload :: !Framed(c, dek, payload)) ==> Opened(env, c, ad) == Err(InvalidArgument)
  {
    forall dek, payload | Framed(c, dek, payload) ensures Unframe(c) == Ok((dek, payload)) {
      UnframeInvertsFrame(dek, payload);
    }
    if Unframe(c).Ok? {
      FrameInvertsUnframe(c);
      var (dek, payload) := Unframe(c).value;
      assert Framed(c, dek, payload);
      var r := Opened(env, c, ad);
      assert r.Ok? ==> OpensTo(env, dek, payload, ad, env.remote.decrypt(dek, []).value, r.value);
    }
  }

  method Decrypt(env: Envelope, c: Bytes, ad: Bytes) returns (r: Result<Bytes>)
    ensures r == Opened(env, c, ad)
    ensures forall m :: r == Ok(m) <==>
      exists dek, payload, value :: Framed(c, dek, payload) && OpensTo(env, dek, payload, ad, value, m)
    ensures forall dek, payload :: Framed(c, dek, payload) ==> ResultFor(env, dek, payload, ad, r)
    ensures (forall dek, payload :: !Framed(c, dek, payload)) ==> r == Err(InvalidArgument)
  {
    OpenedIff(env, c, ad);
    if |c| < ENCRYPTED_DEK_PREFIX_SIZE {
      return Err(InvalidArgument);
    }
    var size := CryptoFormat.LoadBigEndian32(c);
    if size > MAX_ENCRYPTED_DEK_SIZE || size > |c| - ENCRYPTED_DEK_PREFIX_SIZE {
      return Err(InvalidArgument);
    }
    var dekValue := env.remote.decrypt(
      c[ENCRYPTED_DEK_PREFIX_SIZE..ENCRYPTED_DEK_PREFIX_SIZE + size], EMPTY_ASSOCIATED_DATA);
    if dekValue.Err? {
      return Err(InvalidArgument);
    }
    var dek := NO_KEY_DATA;
    dek := dek.(typeUrl := env.dekTypeUrl);
    dek := dek.(value := dekValue.value);
    dek := dek.(material := Symmetric);
    var aead := env.get(dek);
    if aead.Err? {
      return Err(aead.code);
    }
    r := aead.value.decrypt(c[ENCRYPTED_DEK_PREFIX_SIZE + size..], ad);
  }

  /** Given the laws of the remote AEAD and of the DEK's AEAD, decryption returns the plaintext. */
  lemma EnvelopeRoundTrip(env: Envelope, m: Bytes, ad: Bytes, dek: KeyData, dekCoins: Bytes, coins: Bytes, c: Bytes)
    requires dek.typeUrl == env.dekTypeUrl && dek.material == Symmetric
    requires Inverts(env.remote) && env.get(dek).Ok? && Inverts(env.get(dek).value)
    requires env.remote.encrypt(dek.value, EMPTY_ASSOCIATED_DATA, dekCoins).Ok?
    requires env.get(dek).value.encrypt(m, ad, coins).Ok?
    requires Unframe(c) == Ok((
      env.remote.encrypt(dek.value, EMPTY_ASSOCIATED_DATA, dekCoins).value,
      env.get(dek).value.encrypt(m, ad, coins).value))
    ensures Opened(env, c, ad) == Ok(m)
  {
  }

  /** Whatever is encrypted decrypts, for DEKs of the template's type and AEADs that keep their law. */
  method EncryptThenDecrypt(env: Envelope, m: Bytes, ad: Bytes, generated: Result<KeyData>,
                            dekCoins: Bytes, coins: Bytes)
    returns (c: Result<Bytes>, r: Result<Bytes>)
    requires generated.Ok? ==> generated.value.typeUrl == env.dekTypeUrl && generated.value.material == Symmetric
    requires Inverts(env.remote)
    requires generated.Ok? && env.get(generated.value).Ok? ==> Inverts(env.get(generated.value).value)
    ensures r == if c.Ok? then Ok(m) else c
  {
    c := Encrypt(env, m, ad, generated, dekCoins, coins);
    if c.Err? {
      return c, c;
    }
    r := Decrypt(env, c.value, ad);
    EnvelopeRoundTrip(env, m, ad, generated.value, dekCoins, coins, c.value);
  }
}
