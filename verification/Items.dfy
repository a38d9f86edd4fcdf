/** Sealing a note into an item and unsealing it again, through the keychain of its protocol version. */
module Items {
  import opened Basics
  import opened Text
  import opened Vaults
  import opened VaultObjects
  import Base64
  import Hex
  import Environments

  /** The value of an item, with the vaults of its key and of its content once it has them. */
  datatype Sealable = Sealable(
    id: string,
    content: string,
    contentType: string,
    itemsKeyID: string,
    encryptedItemKey: string,
    version: string,
    authParams: Option<Auth>,
    note: Option<Note>,
    key: Option<Vault>,
    contentVault: Option<Vault>)

  /** The keys of a user; since protocol 004 items keys are collected in `itemsKey`. */
  datatype Chain = Chain(version: string, master: string, auth: string, itemsKey: map<string, string>)

  /** What one sealing draws at random: the item key and the nonces of its two ciphertexts. */
  datatype Draw = Draw(key: string, keyNonce: string, contentNonce: string)

  function KeyKeys(chain: Chain, contentType: string, itemsKeyID: string): Keys {
    if chain.version == VERSION4 && contentType != ITEMS_KEY then
      Keys(if itemsKeyID in chain.itemsKey then chain.itemsKey[itemsKeyID] else "", "")
    else Keys(chain.master, chain.auth)
  }

  /** Before protocol 004 the item key is split in halves for encryption and authentication. */
  function ContentKeys(version: string, key: string): Keys {
    if version == VERSION2 || version == VERSION3 then Keys(key[..|key| / 2], key[|key| / 2..])
    else if version == VERSION4 then Keys(key, "")
    else Keys("", "")
  }

  /** The number of random bytes in an item key. */
  function KeyLength(version: string): Option<nat> {
    if version == VERSION2 || version == VERSION3 then Some(64) else if version == VERSION4 then Some(32) else None
  }

  ghost predicate IsDraw(version: string, d: Draw) {
    && Bytes(d.key) && Bytes(d.keyNonce) && Bytes(d.contentNonce)
    && (KeyLength(version).Some? ==> |d.key| == KeyLength(version).value)
  }

  /** The strings of an item are bytes; 004 items have key parameters. */
  ghost predicate Sealing(i: Sealable) {
    && Bytes(i.id) && Bytes(i.version)
    && (i.version == VERSION4 ==> i.authParams.Some?)
    && (i.version == VERSION4 && i.contentType == ITEMS_KEY ==> BytesAuth(i.authParams.value))
  }

  ghost predicate BytesAuth(a: Auth) {
    Bytes(a.identifier) && Bytes(a.origination) && Bytes(a.nonce) && Bytes(a.version)
  }

  function AdditionalData(v: Option<Vault>): string {
    if v.Some? && v.value.Vault4? then v.value.additionalData else ""
  }

  lemma QuotedIsBytes(key: string, value: string)
    requires Bytes(key) && Bytes(value)
    ensures Bytes(Quoted(key, value))
  {
  }

  lemma KeysAreBytes()
    ensures Bytes("u") && Bytes("v") && Bytes("identifier") && Bytes("origination") && Bytes("pw_nonce")
            && Bytes("version")
  {
  }

  lemma KeyParamsAreBytes(kp: string)
    requires Bytes(kp)
    ensures Bytes("\"kp\":{" + kp + "}")
    ensures Bytes("{" + kp + "}")
  {
  }

  lemma JsonIsBytes(from: string, d: AuthData)
    requires Bytes(d.userID) && Bytes(d.version) && (from == ITEMS_KEY ==> BytesAuth(d.keyParams))
    ensures Bytes(SortedKeysJson(from, d))
  {
    hide Join, Quoted, Bytes;
    KeysAreBytes();
    QuotedIsBytes("u", d.userID);
    QuotedIsBytes("v", d.version);
    var kps := [Quoted("identifier", d.keyParams.identifier), Quoted("origination", d.keyParams.origination),
                Quoted("pw_nonce", d.keyParams.nonce), Quoted("version", d.keyParams.version)];
    if from == ITEMS_KEY {
      QuotedIsBytes("identifier", d.keyParams.identifier);
      QuotedIsBytes("origination", d.keyParams.origination);
      QuotedIsBytes("pw_nonce", d.keyParams.nonce);
      QuotedIsBytes("version", d.keyParams.version);
      JoinIsBytes(kps, ',');
      KeyParamsAreBytes(Join(kps, ','));
    }
    var values := (if from == ITEMS_KEY then ["\"kp\":{" + Join(kps, ',') + "}"] else [])
                  + [Quoted("u", d.userID), Quoted("v", d.version)];
    JoinIsBytes(values, ',');
    KeyParamsAreBytes(Join(values, ','));
  }

  /** A created and set-up vault of an item. */
  function NewVault(i: Sealable, previous: Option<Vault>): (v: Option<Vault>)
    requires Sealing(i)
    ensures v.Some? && v.value.Vault4? ==> Bytes(SortedKeysJson(v.value.from, v.value.data))
    ensures v.Some? <==> KeyLength(i.version).Some?
    ensures v.Some? ==> (v.value.Vault4? <==> i.version == VERSION4)
  {
    match Create(i.version, i.id)
    case None => None
    case Some(v) =>
      if i.version == VERSION4 then
        var prepared := SetUp(v, i.authParams, i.contentType, previous);
        JsonIsBytes(prepared.from, prepared.data);
        Some(prepared)
      else Some(SetUp(v, i.authParams, i.contentType, previous))
  }

  lemma NewVaultDependsOn(i: Sealable, j: Sealable, previous: Option<Vault>)
    requires Sealing(i) && j == i.(key := j.key, encryptedItemKey := j.encryptedItemKey)
    ensures Sealing(j) && NewVault(i, previous) == NewVault(j, previous)
  {
  }

  /** Sealing a note, or no value where it reports an error. */
  function SealItem(e: Env, chain: Chain, i: Sealable, d: Draw): Option<Sealable>
    requires YieldsBytes(e) && Sealing(i) && i.note.Some? && IsDraw(chain.version, d)
  {
    SealPayload(e, chain, i, d, e.marshalNote(i.note.value))
  }

  function SealPayload(e: Env, chain: Chain, i: Sealable, d: Draw, payload: string): Option<Sealable>
    requires YieldsBytes(e) && Sealing(i) && IsDraw(chain.version, d)
  {
    if KeyLength(chain.version).None? then None
    else
      var ik := Hex.Encode(d.key);
      var key := SealedVault(e, NewVault(i, i.key), KeyKeys(chain, i.contentType, i.itemsKeyID), ik, d.keyNonce);
      var content := SealedVault(e, NewVault(i, i.contentVault), ContentKeys(i.version, ik), payload, d.contentNonce);
      if key.None? || content.None? then None
      else Some(i.(key := key, encryptedItemKey := Serialize(e, key.value),
                   contentVault := content, content := Serialize(e, content.value)))
  }

  function SealedVault(e: Env, v: Option<Vault>, keys: Keys, payload: string, nonce: string): Option<Vault>
    requires YieldsBytes(e) && Bytes(nonce)
             && (v.Some? && v.value.Vault4? ==> Bytes(SortedKeysJson(v.value.from, v.value.data)))
  {
    if v.None? then None else Vaults.Seal(e, v.value, keys, payload, nonce)
  }

  /** What unsealing makes of an item, and the items key that it finds. */
  datatype Opened = Opened(item: Sealable, itemsKey: Option<string>)

  function Configured(i: Sealable, v: Vault): Sealable {
    i.(key := Some(v), version := v.version, authParams := if v.Vault3? then v.params else Some(v.data.keyParams))
  }

  /** Opens the vaults of an item and gives the payload, or no value where unsealing reports an error. */
  function OpenItem(e: Env, chain: Chain, i: Sealable): Option<(Sealable, string)>
    requires YieldsBytes(e)
  {
    var key := if i.encryptedItemKey == "" then None else Parse(e, i.encryptedItemKey, i.id);
    if key.None? then None
    else
      var configured := Configured(i, key.value);
      var ik := Vaults.Unseal(e, key.value, KeyKeys(chain, i.contentType, i.itemsKeyID));
      var content := Parse(e, i.content, i.id);
      if ik.None? || content.None? then None
      else
        match Vaults.Unseal(e, content.value, ContentKeys(configured.version, ik.value))
        case None => None
        case Some(payload) => Some((configured.(contentVault := content), payload))
  }

  /** Unsealing, or no value where it reports an error. */
  function UnsealItem(e: Env, chain: Chain, i: Sealable): Option<Opened>
    requires YieldsBytes(e)
  {
    match OpenItem(e, chain, i)
    case None => None
    case Some(found) => Read(e, found.0, found.1)
  }

  function Read(e: Env, i: Sealable, payload: string): Option<Opened> {
    if i.contentType == ITEMS_KEY then
      match e.unmarshalItemsKey(payload)
      case None => None
      case Some(itemsKey) => Some(Opened(i, Some(itemsKey)))
    else if i.contentType == USER_PREFERENCES || i.contentType == NOTE then
      match e.unmarshalNote(payload)
      case None => None
      case Some(note) => Some(Opened(i.(note := Some(note)), None))
    else None
  }

  // ---------------------------------------------------------------- The item in place

  function Extended(itemsKey: map<string, string>, id: string, found: Option<string>): map<string, string> {
    if found.Some? then itemsKey[id := found.value] else itemsKey
  }

  class KeyChain {
    const version: string
    const master: string
    const auth: string
    var itemsKey: map<string, string>

    constructor (chain: Chain)
      ensures Value() == chain
    {
      version, master, auth, itemsKey := chain.version, chain.master, chain.auth, chain.itemsKey;
    }

    function Value(): Chain
      reads this
    {
      Chain(version, master, auth, itemsKey)
    }
  }

  class Item {
    const id: string
    const contentType: string
    const itemsKeyID: string
    var content: string
    var encryptedItemKey: string
    var version: string
    var authParams: Option<Auth>
    var note: Option<Note>
    var key: Option<Vault>
    var contentVault: Option<Vault>

    constructor (i: Sealable)
      ensures Value() == i
    {
      id, contentType, itemsKeyID, content := i.id, i.contentType, i.itemsKeyID, i.content;
      encryptedItemKey, version, authParams, note := i.encryptedItemKey, i.version, i.authParams, i.note;
      key, contentVault := i.key, i.contentVault;
    }

    function Value(): Sealable
      reads this
    {
      Sealable(id, content, contentType, itemsKeyID, encryptedItemKey, version, authParams, note, key, contentVault)
    }

    /** Makes a vault for this item and seals a payload into it. */
    method SealVault(e: Env, previous: Option<Vault>, keys: Keys, payload: string, nonce: string)
      returns (sealed: Option<Vault>)
      requires YieldsBytes(e) && Bytes(nonce) && Sealing(Value())
      ensures sealed == SealedVault(e, NewVault(Value(), previous), keys, payload, nonce)
    {
      hide Vaults.Seal, Bytes, BytesAuth, YieldsBytes, SortedKeysJson;
      var v := CreateVault(version, id);
      if v.None? {
        return None;
      }
      v.value.Setup(authParams, contentType, previous);
      assert NewVault(Value(), previous) == Some(v.value.Value());
      var ok := v.value.Seal(e, keys, payload, nonce);
      sealed := if ok then Some(v.value.Value()) else None;
    }

    /** Encrypts the note into the content of the item. */
    method Seal(e: Env, keychain: KeyChain, d: Draw) returns (ok: bool)
      requires YieldsBytes(e) && Sealing(Value()) && note.Some? && IsDraw(keychain.version, d)
      modifies this
      ensures ok <==> SealItem(e, keychain.Value(), old(Value()), d).Some?
      ensures ok ==> Value() == SealItem(e, keychain.Value(), old(Value()), d).value
      ensures note == old(note) && version == old(version) && authParams == old(authParams)
    {
      hide Vaults.Seal, Serialize, SetUp, Create, KeyKeys, ContentKeys, NewVault, SealedVault, Bytes, BytesAuth;
      ghost var before := Value();
      if KeyLength(keychain.version).None? {
        return false;
      }
      var ik := Hex.Encode(d.key);
      var sealed := SealVault(e, key, KeyKeys(keychain.Value(), contentType, itemsKeyID), ik, d.keyNonce);
      if sealed.None? {
        return false;
      }
      key := sealed;
      encryptedItemKey := Serialize(e, sealed.value);

      NewVaultDependsOn(before, Value(), contentVault);
      sealed := SealVault(e, contentVault, ContentKeys(version, ik), e.marshalNote(note.value), d.contentNonce);
      if sealed.None? {
        return false;
      }
      contentVault := sealed;
      content := Serialize(e, sealed.value);
      ok := true;
    }

    /** The item takes over the version and the key parameters of its key. */
    method Configure(v: Vault)
      modifies this`key, this`version, this`authParams
      ensures Value() == Configured(old(Value()), v)
    {
      key := Some(v);
      version := v.version;
      authParams := if v.Vault3? then v.params else Some(v.data.keyParams);
    }

    /** Takes a decrypted payload in, as the type of the item asks. */
    method Take(e: Env, keychain: KeyChain, payload: string) returns (ok: bool)
      modifies this`note, keychain
      ensures var found := Read(e, old(Value()), payload);
              && (ok <==> found.Some?)
              && (ok ==> Value() == found.value.item)
              && (ok ==> keychain.itemsKey == Extended(old(keychain.itemsKey), id, found.value.itemsKey))
    {
      if contentType == ITEMS_KEY {
        var itemsKey := e.unmarshalItemsKey(payload);
        keychain.itemsKey := keychain.itemsKey[id := if itemsKey.Some? then itemsKey.value else ""];
        return itemsKey.Some?;
      }
      if contentType == USER_PREFERENCES || contentType == NOTE {
        note := e.unmarshalNote(payload);
        return note.Some?;
      }
      return false;
    }

    /** Decrypts the key of the item and with it the content. */
    method Open(e: Env, keychain: KeyChain) returns (payload: Option<string>)
      requires YieldsBytes(e)
      modifies this`key, this`version, this`authParams, this`contentVault
      ensures var found := OpenItem(e, keychain.Value(), old(Value()));
              && (payload.Some? <==> found.Some?)
              && (payload.Some? ==> (Value(), payload.value) == found.value)
    {
      hide Parse, Vaults.Unseal, KeyKeys, ContentKeys, YieldsBytes, VaultObject.Value;
      if encryptedItemKey == "" {
        return None;
      }
      var v := ParseVault(e, encryptedItemKey, id);
      if v.None? {
        return None;
      }
      Configure(v.value.Value());
      var ik := v.value.Unseal(e, KeyKeys(keychain.Value(), contentType, itemsKeyID));
      if ik.None? {
        return None;
      }
      v := ParseVault(e, content, id);
      if v.None? {
        return None;
      }
      contentVault := Some(v.value.Value());
      payload := v.value.Unseal(e, ContentKeys(version, ik.value));
    }

    /** Decrypts the item: a note into the item, an items key into the keychain. */
    method Unseal(e: Env, keychain: KeyChain) returns (ok: bool)
      requires YieldsBytes(e)
      modifies this, keychain
      ensures var found := UnsealItem(e, old(keychain.Value()), old(Value()));
              && (ok <==> found.Some?)
              && (ok ==> Value() == found.value.item)
              && (ok ==> keychain.itemsKey == Extended(old(keychain.itemsKey), id, found.value.itemsKey))
    {
      hide OpenItem, Read, YieldsBytes;
      var payload := Open(e, keychain);
      if payload.None? {
        return false;
      }
      ok := Take(e, keychain, payload.value);
    }
  }

  // ---------------------------------------------------------------- Sealing and unsealing undo each other

  /** The key the keychain has for an item is a usable one. */
  ghost predicate UsableKey(chain: Chain, i: Sealable) {
    var keys := KeyKeys(chain, i.contentType, i.itemsKeyID);
    var dek := Hex.Decode(keys.master);
    && dek.Some?
    && if chain.version == VERSION4 then |dek.value| == 32 else AesKey(dek.value) && Hex.Decode(keys.auth).Some?
  }

  predicate IsNote(i: Sealable) {
    i.contentType == NOTE || i.contentType == USER_PREFERENCES
  }

  /** The item belongs to the keychain's version, and the keychain has the key for it. */
  ghost predicate Keyed(chain: Chain, i: Sealable) {
    Sealing(i) && i.version == chain.version && KeyLength(i.version).Some? && UsableKey(chain, i)
  }

  ghost predicate FitsAny(chain: Chain, i: Sealable) {
    && Keyed(chain, i) && Portable(i)
    && Free(AdditionalData(i.key), ':') && Free(AdditionalData(i.contentVault), ':')
  }

  ghost predicate Fits(chain: Chain, i: Sealable) {
    FitsAny(chain, i) && IsNote(i)
  }

  /** The id of an item can be read back from its secrets: before 004 it stands between colons, since then
      in JSON, along with the key parameters of an items key. */
  ghost predicate Portable(i: Sealable) {
    if i.version == VERSION4 then
      Plain(i.id) && (i.contentType == ITEMS_KEY ==> i.authParams.Some? && PlainAuth(i.authParams.value))
    else Free(i.id, ':')
  }

  /** A freshly drawn item key gives usable content keys; before 004 the halves are keys of 32 bytes. */
  lemma DrawnKeyIsUsable(version: string, d: Draw)
    requires IsDraw(version, d) && KeyLength(version).Some?
    ensures var keys := ContentKeys(version, Hex.Encode(d.key));
            && Hex.Decode(keys.master).Some? && |Hex.Decode(keys.master).value| == 32
            && (version != VERSION4 ==> Hex.Decode(keys.auth).Some? && |Hex.Decode(keys.auth).value| == 32)
  {
    hide Hex.Encode, Hex.Decode, Bytes, Free;
    Hex.RoundTrip(d.key);
    if version != VERSION4 {
      var key := Hex.Encode(d.key);
      assert |key| / 2 == 2 * 32;
      Hex.DecodeCut(key, 32);
    }
  }

  /** Of an item key before 004 the first half encrypts and the second authenticates; since 004 it encrypts as a
      whole. */
  lemma HalvesOfKey(version: string, first: string, second: string)
    requires |first| == |second|
    ensures version in {VERSION2, VERSION3} ==> ContentKeys(version, first + second) == Keys(first, second)
    ensures version == VERSION4 ==> ContentKeys(version, first + second) == Keys(first + second, "")
  {
  }

  /** Which key an item key is sealed under: since 004 that of the note's items key, if the keychain has it, and the
      account's for everything else. */
  lemma KeysForItem(chain: Chain, contentType: string, itemsKeyID: string)
    ensures var keys := KeyKeys(chain, contentType, itemsKeyID);
            && (chain.version != "004" || contentType == "SN|ItemsKey" ==> keys == Keys(chain.master, chain.auth))
            && (chain.version == "004" && contentType != "SN|ItemsKey" ==>
                  && keys.auth == ""
                  && (itemsKeyID in chain.itemsKey ==> keys.master == chain.itemsKey[itemsKeyID])
                  && (itemsKeyID !in chain.itemsKey ==> keys.master == ""))
  {
  }

  /** A secret that was sealed into a vault of an item is found again by parsing its string. */
  lemma SecretRoundTrip(e: Env, i: Sealable, previous: Option<Vault>, keys: Keys, payload: string, nonce: string)
    requires Lawful(e) && Bytes(nonce) && Sealing(i) && Portable(i) && Free(AdditionalData(previous), ':')
    requires SealedVault(e, NewVault(i, previous), keys, payload, nonce).Some?
    ensures var v := SealedVault(e, NewVault(i, previous), keys, payload, nonce).value;
            var w := Parse(e, Serialize(e, v), i.id);
            && Serialize(e, v) != ""
            && w.Some? && SameSecret(v, w.value) && w.value.version == i.version
            && AdditionalData(w) == AdditionalData(Some(v))
               == (if i.version == VERSION4 then AdditionalData(previous) else "")
            && (if i.version == VERSION4 then w.value.Vault4? else w.value.Vault3? && w.value.params == i.authParams)
            && Vaults.Unseal(e, w.value, keys) == Some(payload)
  {
    var created := NewVault(i, previous).value;
    var v := SealedVault(e, NewVault(i, previous), keys, payload, nonce).value;
    SealIsWellFormed(e, created, keys, payload, nonce);
    ParseSerialize(e, v);
    assert Split("", ':') == [""];
    if v.Vault4? {
      PlainAuthIsRead(e, i, created);
      Base64.RoundTrip(Base64.Standard, SortedKeysJson(created.from, created.data));
    }
    UnsealSeal(e, created, keys, payload, nonce, Parse(e, Serialize(e, v), i.id).value);
  }

  lemma PlainAuthIsRead(e: Env, i: Sealable, v: Vault)
    requires Lawful(e) && Portable(i) && i.version == VERSION4 && v.Vault4? && v.from == i.contentType
    requires v.data.version == i.version && v.data.userID == i.id
    requires i.contentType == ITEMS_KEY ==> v.data.keyParams == i.authParams.value
    ensures e.unmarshalAuthData(SortedKeysJson(v.from, v.data)).Some?
  {
    if i.contentType != ITEMS_KEY {
      var d := v.data.(keyParams := NO_AUTH);
      assert SortedKeysJson(v.from, v.data) == SortedKeysJson(v.from, d);
    }
  }

  lemma KeySealSucceeds(e: Env, chain: Chain, i: Sealable, d: Draw)
    requires YieldsBytes(e) && Keyed(chain, i) && IsDraw(chain.version, d)
    ensures SealedVault(e, NewVault(i, i.key), KeyKeys(chain, i.contentType, i.itemsKeyID), Hex.Encode(d.key),
                        d.keyNonce).Some?
  {
    hide Serialize, SetUp, Bytes, SortedKeysJson, Hex.Decode, Hex.Encode, Base64.Encode, Join;
  }

  lemma ContentSealSucceeds(e: Env, chain: Chain, i: Sealable, d: Draw, payload: string)
    requires YieldsBytes(e) && Keyed(chain, i) && IsDraw(chain.version, d)
    ensures SealedVault(e, NewVault(i, i.contentVault), ContentKeys(i.version, Hex.Encode(d.key)), payload,
                        d.contentNonce).Some?
  {
    DrawnKeyIsUsable(i.version, d);
    hide Serialize, SetUp, Bytes, SortedKeysJson, Hex.Decode, Hex.Encode, Base64.Encode, Join, UsableKey, ContentKeys;
  }

  lemma SealSucceeds(e: Env, chain: Chain, i: Sealable, d: Draw)
    requires YieldsBytes(e) && Keyed(chain, i) && i.note.Some? && IsDraw(chain.version, d)
    ensures SealItem(e, chain, i, d).Some?
  {
    KeySealSucceeds(e, chain, i, d);
    ContentSealSucceeds(e, chain, i, d, e.marshalNote(i.note.value));
    hide Keyed, SealedVault, NewVault, KeyKeys, ContentKeys, Bytes, Hex.Encode;
  }

  /** Sealing a payload succeeds, and opening the result gives the payload back, along with the additional
      data that the vaults had before; the key parameters of a vault before 004 survive as well. */
  lemma OpenUndoesSeal(e: Env, chain: Chain, i: Sealable, d: Draw, payload: string)
    requires Lawful(e) && FitsAny(chain, i) && IsDraw(chain.version, d)
    ensures SealPayload(e, chain, i, d, payload).Some?
    ensures var sealed := SealPayload(e, chain, i, d, payload).value;
            var found := OpenItem(e, chain, sealed);
            && sealed == i.(key := sealed.key, content := sealed.content, contentVault := sealed.contentVault,
                            encryptedItemKey := sealed.encryptedItemKey)
            && found.Some? && found.value.1 == payload
            && found.value.0.note == i.note && found.value.0.version == i.version
            && found.value.0.id == i.id && found.value.0.contentType == i.contentType
            && found.value.0.itemsKeyID == i.itemsKeyID
            && (i.version != VERSION4 ==> found.value.0.authParams == i.authParams)
            && (i.version == VERSION4 ==> found.value.0.authParams.Some?)
            && AdditionalData(sealed.key) == AdditionalData(found.value.0.key)
               == (if i.version == VERSION4 then AdditionalData(i.key) else "")
            && AdditionalData(sealed.contentVault) == AdditionalData(found.value.0.contentVault)
               == (if i.version == VERSION4 then AdditionalData(i.contentVault) else "")
  {
    hide Serialize, Parse, Vaults.Unseal, SealedVault, NewVault, KeyKeys, ContentKeys, Bytes, BytesAuth, UsableKey;
    hide SameSecret, Hex.Encode, SortedKeysJson, YieldsBytes, IdealCiphers, AdditionalData;
    KeySealSucceeds(e, chain, i, d);
    ContentSealSucceeds(e, chain, i, d, payload);
    SecretRoundTrip(e, i, i.key, KeyKeys(chain, i.contentType, i.itemsKeyID), Hex.Encode(d.key), d.keyNonce);
    SecretRoundTrip(e, i, i.contentVault, ContentKeys(i.version, Hex.Encode(d.key)), payload, d.contentNonce);
  }

  /** Sealing a note succeeds, and unsealing the result gives the note back, along with the additional
      data that the vaults had before; the key parameters of a vault before 004 survive as well. */
  lemma UnsealUndoesSeal(e: Env, chain: Chain, i: Sealable, d: Draw)
    requires Lawful(e) && Fits(chain, i) && i.note.Some? && IsDraw(chain.version, d)
    ensures SealItem(e, chain, i, d).Some?
    ensures var sealed := SealItem(e, chain, i, d).value;
            var found := UnsealItem(e, chain, sealed);
            && sealed == i.(key := sealed.key, content := sealed.content, contentVault := sealed.contentVault,
                            encryptedItemKey := sealed.encryptedItemKey)
            && found.Some? && found.value.itemsKey == None
            && found.value.item.note == i.note && found.value.item.version == i.version
            && found.value.item.id == i.id && found.value.item.contentType == i.contentType
            && found.value.item.itemsKeyID == i.itemsKeyID
            && (i.version != VERSION4 ==> found.value.item.authParams == i.authParams)
            && (i.version == VERSION4 ==> found.value.item.authParams.Some?)
            && AdditionalData(sealed.key) == AdditionalData(found.value.item.key)
               == (if i.version == VERSION4 then AdditionalData(i.key) else "")
            && AdditionalData(sealed.contentVault) == AdditionalData(found.value.item.contentVault)
               == (if i.version == VERSION4 then AdditionalData(i.contentVault) else "")
  {
    hide SealPayload, OpenItem, Keyed, Portable, YieldsBytes, IdealCiphers, AdditionalData;
    OpenUndoesSeal(e, chain, i, d, e.marshalNote(i.note.value));
  }

  /** An items key in which a payload was sealed unseals to exactly the key that the payload's JSON holds. */
  lemma UnsealFindsItemsKey(e: Env, chain: Chain, i: Sealable, d: Draw, payload: string)
    requires Lawful(e) && FitsAny(chain, i) && i.contentType == ITEMS_KEY && IsDraw(chain.version, d)
    ensures SealPayload(e, chain, i, d, payload).Some?
    ensures var found := UnsealItem(e, chain, SealPayload(e, chain, i, d, payload).value);
            if found.Some? then found.value.itemsKey == e.unmarshalItemsKey(payload) != None
            else e.unmarshalItemsKey(payload) == None
  {
    hide SealPayload, OpenItem, Keyed, Portable, YieldsBytes, IdealCiphers, AdditionalData;
    OpenUndoesSeal(e, chain, i, d, payload);
  }

  /** A 002 or 003 secret under an id with a colon is not found again: the parts of the string are free of colons,
      so none of them is the id. */
  lemma ColonInIdIsLost(e: Env, v: Vault)
    requires YieldsBytes(e) && v.Vault3? && v.version in {VERSION2, VERSION3} && !Free(v.uuid, ':')
    ensures Parse(e, Serialize(e, v), v.uuid) == None
  {
    var cs := Components(e, v);
    var components := Split(Serialize(e, v), ':');
    assert Serialize(e, v) == v.version + [':'] + Join(cs[1..], ':');
    SplitAfter(v.version, Join(cs[1..], ':'), ':');
    assert components[0] == v.version;
    assert |components| >= 3 ==> Free(components[2], ':');
    hide Split, Join, Serialize, Components, Base64.Decode;
  }

  lemma FreeIdUnseals(e: Env, chain: Chain, i: Sealable, d: Draw)
    requires Lawful(e) && Keyed(chain, i) && IsNote(i) && i.version != VERSION4 && i.note.Some?
             && IsDraw(chain.version, d)
             && Free(i.id, ':')
    ensures SealItem(e, chain, i, d).Some? && UnsealItem(e, chain, SealItem(e, chain, i, d).value).Some?
  {
    hide SealItem, UnsealItem, UsableKey, Bytes, YieldsBytes, IdealCiphers, InverseJson, IsDraw;
    var j := i.(key := None, contentVault := None);
    UsableKeyDependsOn(chain, i, j);
    SealIgnoresVaults(e, chain, i, d);
    UnsealUndoesSeal(e, chain, j, d);
  }

  lemma ColonIdDoesNot(e: Env, chain: Chain, i: Sealable, d: Draw)
    requires YieldsBytes(e) && Keyed(chain, i) && IsNote(i) && i.version != VERSION4 && i.note.Some?
             && IsDraw(chain.version, d)
             && !Free(i.id, ':')
    requires SealItem(e, chain, i, d).Some?
    ensures UnsealItem(e, chain, SealItem(e, chain, i, d).value) == None
  {
    hide SealItem, UnsealItem, UsableKey, Bytes, YieldsBytes, Serialize, Parse, IsDraw;
    var sealed := SealItem(e, chain, i, d).value;
    KeyKeepsId(e, chain, i, d);
    ColonInIdIsLost(e, sealed.key.value);
    UnparsedIsNotUnsealed(e, chain, sealed);
  }

  /** Before 004 the round trip works for exactly the ids without a colon. */
  lemma UnsealsIffIdIsFree(e: Env, chain: Chain, i: Sealable, d: Draw)
    requires Lawful(e) && Keyed(chain, i) && IsNote(i) && i.version != VERSION4 && i.note.Some?
             && IsDraw(chain.version, d)
    ensures SealItem(e, chain, i, d).Some?
    ensures UnsealItem(e, chain, SealItem(e, chain, i, d).value).Some? <==> Free(i.id, ':')
  {
    hide SealItem, UnsealItem, Keyed, Free, YieldsBytes, IdealCiphers, InverseJson, IsDraw;
    SealSucceeds(e, chain, i, d);
    if Free(i.id, ':') {
      FreeIdUnseals(e, chain, i, d);
    } else {
      ColonIdDoesNot(e, chain, i, d);
    }
  }

  /** Such an id: a note under `a:b`, sealed by protocol 003, that does not unseal. */
  lemma ColonIdIsLost() returns (e: Env, chain: Chain, i: Sealable, d: Draw)
    ensures Lawful(e) && Keyed(chain, i) && IsNote(i) && IsDraw(chain.version, d)
            && i.version == VERSION3 && i.id == "a:b" && i.note.Some?
    ensures SealItem(e, chain, i, d).Some? && UnsealItem(e, chain, SealItem(e, chain, i, d).value) == None
  {
    Environments.LawfulExists();
    e :| Lawful(e);
    var key, id := seq(32, _ => 'k'), "a:b";
    var note := Note("title", "text", "", "", "", "");
    chain := Chain(VERSION3, Hex.Encode(key), Hex.Encode(key), map[]);
    i := Sealable(id, "", NOTE, "", "", VERSION3, None, Some(note), None, None);
    d := Draw(seq(64, _ => 'k'), key, key);
    assert id[1] == ':';
    hide Lawful, SealItem, UnsealItem, Hex.Encode, Hex.Decode;
    Hex.RoundTrip(key);
    assert Keyed(chain, i);
    UnsealsIffIdIsFree(e, chain, i, d);
  }

  lemma UnparsedIsNotUnsealed(e: Env, chain: Chain, i: Sealable)
    requires YieldsBytes(e) && Parse(e, i.encryptedItemKey, i.id) == None
    ensures UnsealItem(e, chain, i) == None
  {
    hide Parse, YieldsBytes;
  }

  lemma KeyKeepsId(e: Env, chain: Chain, i: Sealable, d: Draw)
    requires YieldsBytes(e) && Sealing(i) && i.note.Some? && IsDraw(chain.version, d)
             && i.version in {VERSION2, VERSION3}
    requires SealItem(e, chain, i, d).Some?
    ensures var sealed := SealItem(e, chain, i, d).value;
            && sealed.key.Some? && sealed.key.value.Vault3?
            && sealed.key.value.version == i.version && sealed.key.value.uuid == i.id
            && sealed.encryptedItemKey == Serialize(e, sealed.key.value) && sealed.id == i.id
  {
    hide Serialize, KeyKeys, Bytes, YieldsBytes, Hex.Encode, Hex.Decode, Base64.Encode, ComputeAuth;
  }

  /** Before 004 sealing does not look at the vaults an item had. */
  lemma SealIgnoresVaults(e: Env, chain: Chain, i: Sealable, d: Draw)
    requires YieldsBytes(e) && Sealing(i) && i.note.Some? && IsDraw(chain.version, d)
             && i.version in {VERSION2, VERSION3}
    ensures var j := i.(key := None, contentVault := None);
            Sealing(j) && SealItem(e, chain, j, d) == SealItem(e, chain, i, d)
  {
    hide Serialize, KeyKeys, ContentKeys, Bytes, YieldsBytes, SealedVault, Hex.Encode;
    var j := i.(key := None, contentVault := None);
    assert NewVault(j, None) == NewVault(i, i.key) == NewVault(i, i.contentVault);
  }

  /** Unsealing a note looks at its two strings, its type and its ids, and at nothing else. */
  lemma UnsealDependsOn(e: Env, chain: Chain, i: Sealable, j: Sealable)
    requires YieldsBytes(e) && IsNote(i)
    requires j.id == i.id && j.content == i.content && j.contentType == i.contentType && j.itemsKeyID == i.itemsKeyID
    requires j.encryptedItemKey == i.encryptedItemKey
    ensures UnsealItem(e, chain, i) == UnsealItem(e, chain, j)
  {
    hide Parse, Vaults.Unseal, KeyKeys, ContentKeys, YieldsBytes;
  }

  // ---------------------------------------------------------------- Any alternation of the two

  datatype Op = Seal(d: Draw) | Unseal | Edit(note: Note)

  /** An item, and the note that was sealed into it last. */
  datatype Trail = Trail(item: Sealable, sealed: Note)

  /** An operation, or no value where it reports an error. */
  function Next(e: Env, chain: Chain, t: Trail, op: Op): Option<Trail>
    requires YieldsBytes(e) && Sealing(t.item) && (op.Seal? ==> t.item.note.Some? && IsDraw(chain.version, op.d))
  {
    match op
    case Seal(d) =>
      (match SealItem(e, chain, t.item, d)
       case None => None
       case Some(item) => Some(Trail(item, t.item.note.value)))
    case Unseal =>
      (match UnsealItem(e, chain, t.item)
       case None => None
       case Some(found) => Some(t.(item := found.item)))
    case Edit(note) => Some(t.(item := t.item.(note := Some(note))))
  }

  /** Unsealing the item gives the note that was sealed last, and the vaults hold additional data `a` and
      `b`, now and after unsealing. */
  ghost predicate Tracks(e: Env, chain: Chain, t: Trail, a: string, b: string)
    requires YieldsBytes(e)
  {
    && Fits(chain, t.item) && t.item.note.Some?
    && AdditionalData(t.item.key) == a && AdditionalData(t.item.contentVault) == b
    && (t.item.version != VERSION4 ==> a == "" && b == "")
    && var found := UnsealItem(e, chain, t.item);
    && found.Some? && found.value.itemsKey == None && found.value.item.note == Some(t.sealed)
    && found.value.item.version == t.item.version
    && (t.item.version == VERSION4 ==> found.value.item.authParams.Some?)
    && AdditionalData(found.value.item.key) == a && AdditionalData(found.value.item.contentVault) == b
  }

  lemma StepTracks(e: Env, chain: Chain, t: Trail, op: Op, a: string, b: string)
    requires Lawful(e) && Tracks(e, chain, t, a, b) && (op.Seal? ==> IsDraw(chain.version, op.d))
    ensures var t' := Next(e, chain, t, op);
            t'.Some? && Tracks(e, chain, t'.value, a, b) && (op.Unseal? ==> t'.value.item.note == Some(t.sealed))
  {
    hide SealItem, UnsealItem, Bytes, Plain, Free, UsableKey;
    match op
    case Seal(d) =>
      UnsealUndoesSeal(e, chain, t.item, d);
      UsableKeyDependsOn(chain, t.item, SealItem(e, chain, t.item, d).value);
    case Unseal =>
      var found := UnsealItem(e, chain, t.item).value;
      UnsealKeepsStrings(e, chain, t.item);
      UnsealDependsOn(e, chain, t.item, found.item);
      UsableKeyDependsOn(chain, t.item, found.item);
    case Edit(note) =>
      UnsealDependsOn(e, chain, t.item, t.item.(note := Some(note)));
      UsableKeyDependsOn(chain, t.item, t.item.(note := Some(note)));
  }

  lemma UsableKeyDependsOn(chain: Chain, i: Sealable, j: Sealable)
    requires j.contentType == i.contentType && j.itemsKeyID == i.itemsKeyID
    ensures UsableKey(chain, i) == UsableKey(chain, j)
  {
  }

  lemma UnsealKeepsStrings(e: Env, chain: Chain, i: Sealable)
    requires YieldsBytes(e) && UnsealItem(e, chain, i).Some?
    ensures var j := UnsealItem(e, chain, i).value.item;
            && j.id == i.id && j.content == i.content && j.contentType == i.contentType
            && j.itemsKeyID == i.itemsKeyID && j.encryptedItemKey == i.encryptedItemKey
  {
    hide Parse, Vaults.Unseal, KeyKeys, ContentKeys, YieldsBytes;
  }

  ghost predicate Draws(chain: Chain, ops: seq<Op>) {
    forall k :: 0 <= k < |ops| && ops[k].Seal? ==> IsDraw(chain.version, ops[k].d)
  }

  /** The states a sequence of operations goes through. */
  ghost predicate Path(e: Env, chain: Chain, trails: seq<Trail>, ops: seq<Op>)
    requires YieldsBytes(e)
  {
    && |trails| == |ops| + 1
    && forall k :: 0 <= k < |ops| ==>
         && Sealing(trails[k].item)
         && (ops[k].Seal? ==> trails[k].item.note.Some? && IsDraw(chain.version, ops[k].d))
         && Next(e, chain, trails[k], ops[k]) == Some(trails[k + 1])
  }

  /** In any alternation of sealing, unsealing and editing under one keychain, every operation succeeds,
      every unsealing recovers the note that was sealed last, and the additional data of both vaults
      stays what it was at the start. */
  lemma {:induction false} AlternationRecovers(e: Env, chain: Chain, t: Trail, ops: seq<Op>, a: string, b: string)
    returns (trails: seq<Trail>)
    requires Lawful(e) && Tracks(e, chain, t, a, b) && Draws(chain, ops)
    ensures Path(e, chain, trails, ops) && trails[0] == t
    ensures forall k :: 0 <= k < |trails| ==> Tracks(e, chain, trails[k], a, b)
    ensures forall k :: 0 <= k < |ops| && ops[k].Unseal? ==> trails[k + 1].item.note == Some(trails[k].sealed)
  {
    hide Next, Tracks, Sealing, IsDraw, YieldsBytes, IdealCiphers, InverseJson;
    trails := [t];
    if ops != [] {
      var n := |ops| - 1;
      trails := AlternationRecovers(e, chain, t, ops[..n], a, b);
      StepTracks(e, chain, trails[n], ops[n], a, b);
      TracksIsSealing(e, chain, trails[n], a, b);
      var next := Next(e, chain, trails[n], ops[n]).value;
      trails := trails + [next];
    }
  }

  lemma TracksIsSealing(e: Env, chain: Chain, t: Trail, a: string, b: string)
    requires YieldsBytes(e) && Tracks(e, chain, t, a, b)
    ensures Sealing(t.item) && t.item.note.Some?
  {
  }

  /** Sealing a note into an item that fits the keychain starts such an alternation. */
  lemma SealedItemTracks(e: Env, chain: Chain, i: Sealable, d: Draw)
    requires Lawful(e) && Fits(chain, i) && i.note.Some? && IsDraw(chain.version, d)
    ensures SealItem(e, chain, i, d).Some?
    ensures Tracks(e, chain, Trail(SealItem(e, chain, i, d).value, i.note.value),
                   if i.version == VERSION4 then AdditionalData(i.key) else "",
                   if i.version == VERSION4 then AdditionalData(i.contentVault) else "")
  {
    hide SealItem, UnsealItem, Bytes, BytesAuth, Plain, UsableKey, IdealCiphers, InverseJson, YieldsBytes, IsDraw;
    UnsealUndoesSeal(e, chain, i, d);
    UsableKeyDependsOn(chain, i, SealItem(e, chain, i, d).value);
  }
}
