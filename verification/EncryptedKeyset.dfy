/** Keysets written and read under the AEAD of a master keyset. */
module EncryptedKeysets {
  import opened Base
  import opened Keysets
  import opened PrimitiveSets
  import opened AeadWrappers
  import opened KeysetHandles
  import Lifecycle
  import Rotation

  /** The wrapped AEAD of a primitive set, as an AEAD. */
  function AsAead(ps: PrimitiveSet<Aead>): Aead
    requires ps.primary.Some?
  {
    Aead((m, ad, coins) => SetEncrypt(ps.primary.value, m, ad, coins), (c, ad) => SetDecrypt(ps.inKeysetOrder, c, ad))
  }

  /** WriteWithAssociatedData: every encryption error becomes INVALID_ARGUMENT. */
  function WriteEncrypted(ks: Keyset, codec: Codec, master: Aead, ad: Bytes, coins: Bytes): (r: Result<Bytes>)
    ensures forall c :: r == Ok(c) <==> master.encrypt(codec.serialize(ks), ad, coins) == Ok(c)
    ensures r.Err? ==> r.code == InvalidArgument
  {
    var c := master.encrypt(codec.serialize(ks), ad, coins);
    if c.Err? then Err(InvalidArgument) else c
  }

  function DecryptKeyset(c: Bytes, codec: Codec, master: Aead, ad: Bytes): Result<Keyset> {
    var m := master.decrypt(c, ad);
    if m.Err? then Err(InvalidArgument)
    else
      var ks := codec.parse(m.value);
      if ks.None? then Err(InvalidArgument) else Ok(ks.value)
  }

  /** Decrypting, decoding and parsing every key. */
  function ReadResult<K>(c: Bytes, codec: Codec, master: Aead, ad: Bytes, reg: Registry<K>, annotations: Annotations)
    : Result<Handle<K>>
  {
    var ks := DecryptKeyset(c, codec, master, ad);
    if ks.Err? then Err(ks.code)
    else
      var entries := EntriesFrom(ks.value, |ks.value.keys|, reg);
      if entries.Err? then Err(entries.code) else Ok(Handle(ks.value, entries.value, annotations))
  }

  /**
   * ReadWithAssociatedData. Succeeds if and only if the master key decrypts, the plaintext decodes and every key
   * parses; the handle holds the decoded keyset. Every error before parsing becomes INVALID_ARGUMENT.
   */
  method ReadEncrypted<K>(c: Bytes, codec: Codec, master: Aead, ad: Bytes, reg: Registry<K>, annotations: Annotations)
    returns (r: Result<Handle<K>>)
    ensures r == ReadResult(c, codec, master, ad, reg, annotations)
    ensures r.Ok? <==>
      && master.decrypt(c, ad).Ok? && codec.parse(master.decrypt(c, ad).value).Some?
      && var ks := codec.parse(master.decrypt(c, ad).value).value;
         forall i :: 0 <= i < |ks.keys| ==> CreateEntry(ks.keys[i], ks.primary, reg).Ok?
    ensures r.Ok? ==>
      && codec.parse(master.decrypt(c, ad).value) == Some(r.value.keyset) && r.value.annotations == annotations
      && EntriesFrom(r.value.keyset, |r.value.keyset.keys|, reg) == Ok(r.value.entries) && CacheAgrees(r.value)
    ensures r.Err? ==>
      if master.decrypt(c, ad).Err? || codec.parse(master.decrypt(c, ad).value).None? then r.code == InvalidArgument
      else
        var ks := codec.parse(master.decrypt(c, ad).value).value;
        EntriesFrom(ks, |ks.keys|, reg) == Err(r.code)
  {
    var keyset := DecryptKeyset(c, codec, master, ad);
    if keyset.Err? {
      return Err(InvalidArgument);
    }
    EntriesFromEach(keyset.value, |keyset.value.keys|, reg);
    var entries := GetEntriesFromKeyset(keyset.value, reg);
    if entries.Err? {
      return Err(entries.code);
    }
    if |entries.value| != |keyset.value.keys| {
      return Err(Internal);
    }
    return Ok(Handle(keyset.value, entries.value, annotations));
  }

  /** Whenever the later AEAD decrypts what the earlier one wrote, the keyset is read back. */
  lemma ReadsWhatWasWritten<K>(ks: Keyset, codec: Codec, reg: Registry<K>, annotations: Annotations,
                               c: Bytes, master: Aead, ad: Bytes)
    requires Lossless(codec)
    requires forall i :: 0 <= i < |ks.keys| ==> CreateEntry(ks.keys[i], ks.primary, reg).Ok?
    requires master.decrypt(c, ad) == Ok(codec.serialize(ks))
    ensures
      var read := ReadResult(c, codec, master, ad, reg, annotations);
      read.Ok? && read.value.keyset == ks && CacheAgrees(read.value)
  {
    EntriesFromEach(ks, |ks.keys|, reg);
  }

  /**
   * A keyset whose keys all parse, written under a master keyset, is read back unchanged, with a cache
   * that agrees with it, under any later state of the master keyset in which the key that encrypted it
   * was not deleted and is ENABLED; if that key is RAW, no entry tried before it may accept the data.
   */
  lemma RoundTripUnderRotatedMaster<K>(
      ks: Keyset, codec: Codec, reg: Registry<K>, annotations: Annotations,
      master: Keyset, ops: seq<Lifecycle.Op>, get: Getter<Aead>,
      ps: PrimitiveSet<Aead>, later: PrimitiveSet<Aead>, ad: Bytes, coins: Bytes)
    requires Lossless(codec)
    requires forall i :: 0 <= i < |ks.keys| ==> CreateEntry(ks.keys[i], ks.primary, reg).Ok?
    requires Rotation.Rotated(master, ops, get, ps, later) && later.primary.Some?
    requires Inverts(ps.primary.value.primitive)
    requires ps.primary.value.primitive.encrypt(codec.serialize(ks), ad, coins).Ok?
    requires
      var raw := ps.primary.value.primitive.encrypt(codec.serialize(ks), ad, coins).value;
      if Rotation.PrimaryPrefixed(master) then raw != []
      else Rotation.NoneEarlierAccepts(later.inKeysetOrder, ps.primary.value, raw, ad)
    ensures
      var written := WriteEncrypted(ks, codec, AsAead(ps), ad, coins);
      && written.Ok?
      && var read := ReadResult(written.value, codec, AsAead(later), ad, reg, annotations);
         read.Ok? && read.value.keyset == ks && CacheAgrees(read.value)
  {
    var m := codec.serialize(ks);
    var e := ps.primary.value;
    var c := SetEncrypt(e, m, ad, coins).value;
    var _ := Rotation.PrimaryStandsFor(master, get, ps);
    if Rotation.PrimaryPrefixed(master) {
      Rotation.RotationIsSafe(master, ops, get, ps, later, m, ad, coins);
    } else {
      assert c == e.primitive.encrypt(m, ad, coins).value;
      Rotation.RawRotationIsSafe(master, ops, get, ps, later, m, ad, coins);
    }
    ReadsWhatWasWritten(ks, codec, reg, annotations, c, AsAead(later), ad);
  }
}
