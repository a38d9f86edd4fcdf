/** The vaults as the objects they are while a secret is sealed or unsealed: created, set up, filled and
    read in place. Each method is tied to the values of the module `Vaults`. */
module VaultObjects {
  import opened Basics
  import opened Text
  import opened Vaults
  import Base64
  import Hex

  class Vault3Object {
    var version: string
    var auth: string
    var uuid: string
    var iv: string
    var ciphertext: string
    var params: Option<Auth>

    constructor (version: string, uuid: string)
      ensures Value() == Vault3(version, "", uuid, "", "", None)
    {
      this.version, this.uuid := version, uuid;
      auth, iv, ciphertext, params := "", "", "", None;
    }

    function Value(): Vault
      reads this
      ensures Value().Vault3?
    {
      Vault3(version, auth, uuid, iv, ciphertext, params)
    }

    /** Fills a new vault from the components of a secret. */
    method Load(e: Env, components: seq<string>, id: string) returns (ok: bool)
      modifies this
      requires Value() == Vault3("", "", "", "", "", None)
      ensures var parsed := Parse3(e, components, id);
              (ok <==> parsed.Some?) && (ok ==> Value() == parsed.value)
    {
      if |components| < 5 || |components| > 6 {
        return false;
      }
      version, auth, uuid := components[0], components[1], components[2];
      if uuid != id {
        return false;
      }
      iv, ciphertext := components[3], components[4];
      if |components| == 6 {
        var json := Base64.Decode(Base64.Standard, components[5]);
        if json.None? {
          return false;
        }
        params := e.unmarshalAuth(json.value);
        return params.Some?;
      }
      ok := true;
    }

    method ComputeAuth(e: Env, key: string) returns (mac: Option<string>)
      requires YieldsBytes(e)
      ensures mac == Vaults.ComputeAuth(e, Value(), key)
    {
      var decoded := Hex.Decode(key);
      if decoded.None? {
        return None;
      }
      assert AuthFields(Value()) == [version, uuid, iv, ciphertext];
      mac := Some(Hex.Encode(e.hmac(decoded.value, Join([version, uuid, iv, ciphertext], ':'))));
    }

    method Seal(e: Env, keys: Keys, payload: string, nonce: string) returns (ok: bool)
      requires YieldsBytes(e) && Bytes(nonce)
      modifies this
      ensures var sealed := Vaults.Seal(e, old(Value()), keys, payload, nonce);
              (ok <==> sealed.Some?) && (ok ==> Value() == sealed.value)
      ensures ok && IdealCiphers(e) ==> Vaults.Unseal(e, Value(), keys) == Some(payload)
    {
      ghost var created := Value();
      var dek := Hex.Decode(keys.master);
      if dek.None? || !AesKey(dek.value) {
        return false;
      }
      iv := Hex.Encode(nonce);
      ciphertext := Base64.Encode(Base64.Standard, true, e.cbcSeal(dek.value, nonce, payload));
      var mac := ComputeAuth(e, keys.auth);
      if mac.None? {
        return false;
      }
      auth := mac.value;
      ok := true;
      if IdealCiphers(e) {
        UnsealSeal(e, created, keys, payload, nonce, Value());
      }
    }

    /** The code is checked before anything is decoded. */
    method Unseal(e: Env, keys: Keys) returns (payload: Option<string>)
      requires YieldsBytes(e)
      ensures payload == Vaults.Unseal(e, Value(), keys)
    {
      var mac := ComputeAuth(e, keys.auth);
      if mac.None? || mac.value != auth {
        return None;
      }
      var dek, vector, sealed := Hex.Decode(keys.master), Hex.Decode(iv), Base64.Decode(Base64.Standard, ciphertext);
      if dek.None? || vector.None? || sealed.None? || !AesKey(dek.value) {
        return None;
      }
      payload := e.cbcOpen(dek.value, vector.value, sealed.value);
    }
  }

  class Vault4Object {
    var version: string
    var nonce: string
    var ciphertext: string
    var rawAuth: string
    var from: string
    var data: AuthData
    var additionalData: string

    constructor (version: string, userID: string)
      ensures Value() == Vault4(version, "", "", "", "", AuthData(version, userID, NO_AUTH), "")
    {
      this.version, data := version, AuthData(version, userID, NO_AUTH);
      nonce, ciphertext, rawAuth, from, additionalData := "", "", "", "", "";
    }

    function Value(): Vault
      reads this
      ensures Value().Vault4?
    {
      Vault4(version, nonce, ciphertext, rawAuth, from, data, additionalData)
    }

    /** Fills a new vault from the components of a secret. */
    method Load(e: Env, components: seq<string>) returns (ok: bool)
      requires from == "" && additionalData == ""
      modifies this
      ensures var parsed := Parse4(e, components);
              (ok <==> parsed.Some?) && (ok ==> Value() == parsed.value)
    {
      if |components| < 4 || |components| > 5 {
        return false;
      }
      version, nonce, ciphertext, rawAuth := components[0], components[1], components[2], components[3];
      if |components| > 4 {
        additionalData := components[4];
      }
      var json := Base64.Decode(Base64.Standard, rawAuth);
      if json.None? {
        return false;
      }
      var read := e.unmarshalAuthData(json.value);
      if read.None? {
        return false;
      }
      data := read.value;
      ok := true;
    }

    /** Additional data is forwarded from the vault that was used to unseal. */
    method Setup(authParams: Auth, contentType: string, previous: Option<Vault>)
      modifies this
      ensures Value() == SetUp(old(Value()), Some(authParams), contentType, previous)
    {
      data := data.(keyParams := authParams);
      from := contentType;
      if previous.Some? && previous.value.Vault4? {
        additionalData := previous.value.additionalData;
      }
    }

    method ToSortedKeysJson() returns (json: string)
      ensures json == SortedKeysJson(from, data)
    {
      var values: seq<string> := [];
      if from == ITEMS_KEY {
        var auth: seq<string> := [];
        auth := auth + [Quoted("identifier", data.keyParams.identifier)];
        auth := auth + [Quoted("origination", data.keyParams.origination)];
        auth := auth + [Quoted("pw_nonce", data.keyParams.nonce)];
        auth := auth + [Quoted("version", data.keyParams.version)];
        assert auth == [Quoted("identifier", data.keyParams.identifier),
                        Quoted("origination", data.keyParams.origination),
                        Quoted("pw_nonce", data.keyParams.nonce), Quoted("version", data.keyParams.version)];
        values := values + ["\"kp\":{" + Join(auth, ',') + "}"];
      }
      ghost var head := values;
      values := values + [Quoted("u", data.userID)];
      values := values + [Quoted("v", data.version)];
      assert values == head + [Quoted("u", data.userID), Quoted("v", data.version)];
      json := "{" + Join(values, ',') + "}";
    }

    method Seal(e: Env, keys: Keys, payload: string, random: string) returns (ok: bool)
      requires YieldsBytes(e) && Bytes(random) && Bytes(SortedKeysJson(from, data))
      modifies this
      ensures var sealed := Vaults.Seal(e, old(Value()), keys, payload, random);
              (ok <==> sealed.Some?) && (ok ==> Value() == sealed.value)
      ensures ok && IdealCiphers(e) ==> Vaults.Unseal(e, Value(), keys) == Some(payload)
    {
      hide SortedKeysJson, Join;
      ghost var created := Value();
      var dek := Hex.Decode(keys.master);
      if dek.None? {
        return false;
      }
      var json := ToSortedKeysJson();
      rawAuth := Base64.Encode(Base64.Standard, true, json);
      if |dek.value| != 32 {
        return false;
      }
      var sealed := e.aeadSeal(dek.value, random, payload, rawAuth);
      nonce := Hex.Encode(random);
      ciphertext := Base64.Encode(Base64.Standard, true, sealed);
      ok := true;
      if IdealCiphers(e) {
        UnsealSeal(e, created, keys, payload, random, Value());
      }
    }

    method Unseal(e: Env, keys: Keys) returns (payload: Option<string>)
      requires YieldsBytes(e)
      ensures payload == Vaults.Unseal(e, Value(), keys)
    {
      var dek, random, sealed := Hex.Decode(keys.master), Hex.Decode(nonce), Base64.Decode(Base64.Standard, ciphertext);
      if dek.None? || random.None? || sealed.None? || |dek.value| != 32 {
        return None;
      }
      payload := e.aeadOpen(dek.value, random.value, sealed.value, rawAuth);
    }
  }

  /** A vault of either kind. */
  datatype VaultObject = Three(v3: Vault3Object) | Four(v4: Vault4Object)
  {
    ghost function Objects(): set<object> {
      match this
      case Three(v) => {v}
      case Four(v) => {v}
    }

    function Value(): Vault
      reads Objects()
    {
      match this
      case Three(v) => v.Value()
      case Four(v) => v.Value()
    }

    method Setup(authParams: Option<Auth>, contentType: string, previous: Option<Vault>)
      requires Four? ==> authParams.Some?
      modifies Objects()
      ensures Value() == SetUp(old(Value()), authParams, contentType, previous)
    {
      match this
      case Three(v) => v.params := authParams;
      case Four(v) => v.Setup(authParams.value, contentType, previous);
    }

    method Seal(e: Env, keys: Keys, payload: string, nonce: string) returns (ok: bool)
      requires YieldsBytes(e) && Bytes(nonce) && (Four? ==> Bytes(SortedKeysJson(v4.from, v4.data)))
      modifies Objects()
      ensures var sealed := Vaults.Seal(e, old(Value()), keys, payload, nonce);
              (ok <==> sealed.Some?) && (ok ==> Value() == sealed.value)
      ensures ok && IdealCiphers(e) ==> Vaults.Unseal(e, Value(), keys) == Some(payload)
    {
      match this
      case Three(v) => ok := v.Seal(e, keys, payload, nonce);
      case Four(v) => ok := v.Seal(e, keys, payload, nonce);
    }

    method Unseal(e: Env, keys: Keys) returns (payload: Option<string>)
      requires YieldsBytes(e)
      ensures payload == Vaults.Unseal(e, Value(), keys)
    {
      match this
      case Three(v) => payload := v.Unseal(e, keys);
      case Four(v) => payload := v.Unseal(e, keys);
    }
  }

  method CreateVault(version: string, id: string) returns (v: Option<VaultObject>)
    ensures v.None? <==> Create(version, id).None?
    ensures v.Some? ==> fresh(v.value.Objects()) && Some(v.value.Value()) == Create(version, id)
  {
    if version == VERSION2 || version == VERSION3 {
      var three := new Vault3Object(version, id);
      return Some(Three(three));
    }
    if version == VERSION4 {
      var four := new Vault4Object(version, id);
      return Some(Four(four));
    }
    return None;
  }

  method ParseVault(e: Env, secret: string, id: string) returns (v: Option<VaultObject>)
    ensures v.None? <==> Parse(e, secret, id).None?
    ensures v.Some? ==> fresh(v.value.Objects()) && Some(v.value.Value()) == Parse(e, secret, id)
  {
    var components := Split(secret, ':');
    if components[0] == VERSION2 || components[0] == VERSION3 {
      var three := new Vault3Object("", "");
      var ok := three.Load(e, components, id);
      return if ok then Some(Three(three)) else None;
    }
    if components[0] == VERSION4 {
      var four := new Vault4Object("", "");
      var ok := four.Load(e, components);
      return if ok then Some(Four(four)) else None;
    }
    return None;
  }
}
