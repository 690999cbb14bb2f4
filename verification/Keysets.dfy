/** The keyset message and the searches every component runs over it. */
module Keysets {
  import opened Base

  /** proto enum KeyStatusType; proto3 enums are open, hence the last case. */
  datatype StatusType = UnknownStatus | Enabled | Disabled | Destroyed | OtherStatus(number: nat)

  /** proto enum OutputPrefixType, open as well. */
  datatype OutputPrefixType =
    | UnknownPrefix | Tink | Legacy | Raw | Crunchy | WithIdRequirement | OtherPrefix(number: nat)

  datatype KeyMaterialType =
    | UnknownMaterial | Symmetric | AsymmetricPrivate | AsymmetricPublic | Remote | OtherMaterial(number: nat)

  datatype KeyData = KeyData(typeUrl: string, value: Bytes, material: KeyMaterialType)

  /** What reading an absent key_data field yields. */
  const NO_KEY_DATA := KeyData("", [], UnknownMaterial)

  /** `data` is `None` when the key_data field is not set. */
  datatype Key = Key(data: Option<KeyData>, status: StatusType, id: Uint32, prefix: OutputPrefixType)

  datatype Keyset = Keyset(primary: Uint32, keys: seq<Key>)

  const EMPTY_KEYSET := Keyset(0, [])

  /** A message freshly appended by add_key(): every field has its default, so the id is 0. */
  const BLANK_KEY := Key(None, UnknownStatus, 0, UnknownPrefix)

  predicate HasId(keys: seq<Key>, id: Uint32) {
    exists i :: 0 <= i < |keys| && keys[i].id == id
  }

  predicate DistinctIds(keys: seq<Key>) {
    forall i, j :: 0 <= i < j < |keys| ==> keys[i].id != keys[j].id
  }

  /** The index of the first key with the given id, or |keys|. */
  function Find(keys: seq<Key>, id: Uint32): (r: nat)
    ensures r <= |keys|
    ensures r < |keys| ==> keys[r].id == id
    ensures forall j :: 0 <= j < r ==> keys[j].id != id
  {
    if keys == [] then 0
    else if keys[0].id == id then 0
    else 1 + Find(keys[1..], id)
  }

  /** The first match is where a scan that skipped only other ids finds the id. */
  lemma FindAt(keys: seq<Key>, id: Uint32, i: nat)
    requires i <= |keys|
    requires forall j :: 0 <= j < i ==> keys[j].id != id
    requires i < |keys| ==> keys[i].id == id
    ensures Find(keys, id) == i
  {
  }

  /** Key i is the only one carrying the primary id, and it is ENABLED. */
  predicate SolePrimaryAt(ks: Keyset, i: nat) {
    && i < |ks.keys|
    && ks.keys[i].id == ks.primary
    && ks.keys[i].status == Enabled
    && forall j :: 0 <= j < |ks.keys| && ks.keys[j].id == ks.primary ==> j == i
  }

  /** The condition on primaries that KeysetHandle::Validate checks. */
  ghost predicate OnePrimary(ks: Keyset) {
    exists i: nat :: SolePrimaryAt(ks, i)
  }

  function Without(keys: seq<Key>, i: nat): (r: seq<Key>)
    requires i < |keys|
    ensures |r| == |keys| - 1
    ensures forall j :: 0 <= j < |r| ==> r[j] == keys[if j < i then j else j + 1]
  {
    keys[..i] + keys[i + 1..]
  }
}
