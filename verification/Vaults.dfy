/** Sealed secrets of the protocols 002, 003 and 004: their strings, and sealing and unsealing with a
    pair of keys. Ciphers, the message authentication code and JSON are parameters. */
module Vaults {
  import opened Basics
  import opened Text
  import Base64
  import Hex

  const VERSION2: string := "002"
  const VERSION3: string := "003"
  const VERSION4: string := "004"

  const ITEMS_KEY: string := "SN|ItemsKey"
  const USER_PREFERENCES: string := "SN|UserPreferences"
  const NOTE: string := "Note"

  /** The parameters a user's keys are derived from. */
  datatype Auth = Auth(version: string, identifier: string, cost: int, nonce: string, origination: string)

  const NO_AUTH: Auth := Auth("", "", 0, "", "")

  /** What protocol 004 authenticates along with a ciphertext. */
  datatype AuthData = AuthData(version: string, userID: string, keyParams: Auth)

  datatype Note = Note(title: string, text: string, previewPlain: string, previewHTML: string, references: string,
                       appData: string)

  datatype Vault =
    | Vault3(version: string, auth: string, uuid: string, iv: string, ciphertext: string, params: Option<Auth>)
    | Vault4(version: string, nonce: string, ciphertext: string, rawAuth: string, from: string, data: AuthData,
             additionalData: string)

  /** The ciphers and the JSON codec. An error of theirs is `None`. */
  datatype Env = Env(
    aeadSeal: (string, string, string, string) -> string,
    aeadOpen: (string, string, string, string) -> Option<string>,
    cbcSeal: (string, string, string) -> string,
    cbcOpen: (string, string, string) -> Option<string>,
    hmac: (string, string) -> string,
    marshalAuth: Auth -> string,
    unmarshalAuth: string -> Option<Auth>,
    unmarshalAuthData: string -> Option<AuthData>,
    marshalNote: Note -> string,
    unmarshalNote: string -> Option<Note>,
    unmarshalItemsKey: string -> Option<string>,
    parsesMetadata: Note -> bool)

  /** A string that needs no escaping inside a JSON string. */
  ghost predicate Plain(s: string) {
    forall i :: 0 <= i < |s| ==> ' ' <= s[i] <= '~' && s[i] != '"' && s[i] != '\\'
  }

  ghost predicate PlainAuth(a: Auth) {
    Plain(a.identifier) && Plain(a.origination) && Plain(a.nonce) && Plain(a.version)
  }

  /** Everything the ciphers and the codec produce is a string of bytes. */
  ghost predicate YieldsBytes(e: Env) {
    && (forall k, n, p, a :: Bytes(e.aeadSeal(k, n, p, a)))
    && (forall k, n, p :: Bytes(e.cbcSeal(k, n, p)))
    && (forall k, m :: Bytes(e.hmac(k, m)))
    && (forall a :: Bytes(e.marshalAuth(a)))
    && (forall n :: Bytes(e.marshalNote(n)))
  }

  /** Decryption undoes encryption under the same key. */
  ghost predicate IdealCiphers(e: Env) {
    && (forall k, n, p, a :: e.aeadOpen(k, n, e.aeadSeal(k, n, p, a), a) == Some(p))
    && (forall k, n, p :: e.cbcOpen(k, n, e.cbcSeal(k, n, p)) == Some(p))
  }

  /** Reading JSON undoes writing it. */
  ghost predicate InverseJson(e: Env) {
    && (forall a :: e.unmarshalAuth(e.marshalAuth(a)) == Some(a))
    && (forall n :: e.unmarshalNote(e.marshalNote(n)) == Some(n))
    && (forall from, d: AuthData {:trigger SortedKeysJson(from, d)} ::
          Plain(d.version) && Plain(d.userID) && PlainAuth(d.keyParams) ==>
          e.unmarshalAuthData(SortedKeysJson(from, d))
          == Some(if from == ITEMS_KEY then d.(keyParams := d.keyParams.(cost := 0)) else d.(keyParams := NO_AUTH)))
  }

  ghost predicate Lawful(e: Env) {
    YieldsBytes(e) && IdealCiphers(e) && InverseJson(e)
  }

  function Quoted(key: string, value: string): string {
    "\"" + key + "\":\"" + value + "\""
  }

  /** The authenticated data with its keys in alphabetical order; key parameters only for items keys. */
  function SortedKeysJson(from: string, d: AuthData): string {
    var kp :=
      Join([Quoted("identifier", d.keyParams.identifier), Quoted("origination", d.keyParams.origination),
            Quoted("pw_nonce", d.keyParams.nonce), Quoted("version", d.keyParams.version)], ',');
    var values := (if from == ITEMS_KEY then ["\"kp\":{" + kp + "}"] else [])
                  + [Quoted("u", d.userID), Quoted("v", d.version)];
    "{" + Join(values, ',') + "}"
  }

  // ---------------------------------------------------------------- Strings

  function Create(version: string, id: string): Option<Vault> {
    if version == VERSION2 || version == VERSION3 then Some(Vault3(version, "", id, "", "", None))
    else if version == VERSION4 then Some(Vault4(version, "", "", "", "", AuthData(version, id, NO_AUTH), ""))
    else None
  }

  /** A new vault takes the key parameters of its item and, in protocol 004, the additional data of the vault
      before it. */
  function SetUp(v: Vault, authParams: Option<Auth>, contentType: string, previous: Option<Vault>): Vault
    requires v.Vault4? ==> authParams.Some?
  {
    if v.Vault3? then v.(params := authParams)
    else v.(data := v.data.(keyParams := authParams.value), from := contentType,
            additionalData := if previous.Some? && previous.value.Vault4? then previous.value.additionalData
                              else v.additionalData)
  }

  function Parse3(e: Env, components: seq<string>, id: string): Option<Vault> {
    if |components| < 5 || |components| > 6 || components[2] != id then None
    else
      var v := Vault3(components[0], components[1], components[2], components[3], components[4], None);
      if |components| == 5 then Some(v)
      else
        match Base64.Decode(Base64.Standard, components[5])
        case None => None
        case Some(params) =>
          match e.unmarshalAuth(params)
          case None => None
          case Some(a) => Some(v.(params := Some(a)))
  }

  function Parse4(e: Env, components: seq<string>): Option<Vault> {
    if |components| < 4 || |components| > 5 then None
    else
      match Base64.Decode(Base64.Standard, components[3])
      case None => None
      case Some(auth) =>
        match e.unmarshalAuthData(auth)
        case None => None
        case Some(data) =>
          Some(Vault4(components[0], components[1], components[2], components[3], "", data,
                      if |components| > 4 then components[4] else ""))
  }

  function Parse(e: Env, secret: string, id: string): Option<Vault> {
    var components := Split(secret, ':');
    if components[0] == VERSION2 || components[0] == VERSION3 then Parse3(e, components, id)
    else if components[0] == VERSION4 then Parse4(e, components)
    else None
  }

  function EncodedParams(e: Env, a: Auth): string
    requires Bytes(e.marshalAuth(a))
  {
    Base64.Encode(Base64.Standard, true, e.marshalAuth(a))
  }

  function Components(e: Env, v: Vault): (cs: seq<string>)
    requires YieldsBytes(e)
    ensures |cs| >= 4
  {
    match v
    case Vault3(version, auth, uuid, iv, ciphertext, params) =>
      [version, auth, uuid, iv, ciphertext] + (if params.None? then [] else [EncodedParams(e, params.value)])
    case Vault4(version, nonce, ciphertext, rawAuth, _, _, additionalData) =>
      [version, nonce, ciphertext, rawAuth] + (if additionalData == "" then [] else [additionalData])
  }

  function Serialize(e: Env, v: Vault): string
    requires YieldsBytes(e)
  {
    Join(Components(e, v), ':')
  }

  /** The fields that go into the string hold no colon, and the version is that of the vault's kind. */
  ghost predicate WellFormed(v: Vault) {
    match v
    case Vault3(version, auth, uuid, iv, ciphertext, _) =>
      && version in {VERSION2, VERSION3}
      && Free(auth, ':') && Free(uuid, ':') && Free(iv, ':') && Free(ciphertext, ':')
    case Vault4(version, nonce, ciphertext, rawAuth, _, _, additionalData) =>
      && version == VERSION4
      && Free(nonce, ':') && Free(ciphertext, ':') && Free(rawAuth, ':') && Free(additionalData, ':')
  }

  lemma ComponentsAreFree(e: Env, v: Vault)
    requires YieldsBytes(e) && WellFormed(v)
    ensures AllFree(Components(e, v), ':')
  {
    if v.Vault3? && v.params.Some? {
      Base64.EncodeSymbols(Base64.Standard, true, e.marshalAuth(v.params.value));
    }
  }

  /** A serialized vault parses back to its fields, with and without the optional component. Of a 004
      vault the authenticated data is read from its raw form, and `from` is not kept. */
  lemma ParseSerialize(e: Env, v: Vault)
    requires YieldsBytes(e) && WellFormed(v)
    ensures v.Vault3? && InverseJson(e) ==> Parse(e, Serialize(e, v), v.uuid) == Some(v)
    ensures v.Vault3? ==> forall id :: id != v.uuid ==> Parse(e, Serialize(e, v), id) == None
    ensures v.Vault4? ==>
              forall id ::
                var raw := Base64.Decode(Base64.Standard, v.rawAuth);
                var read := if raw.Some? then e.unmarshalAuthData(raw.value) else None;
                Parse(e, Serialize(e, v), id) == if read.Some? then Some(v.(from := "", data := read.value)) else None
  {
    hide Split, Join, Base64.Decode, Base64.Encode, SortedKeysJson;
    ComponentsAreFree(e, v);
    SplitJoin(Components(e, v), ':');
    if v.Vault3? && v.params.Some? {
      Base64.RoundTrip(Base64.Standard, e.marshalAuth(v.params.value));
    }
  }

  /** Re-serializing a 004 secret that parses returns it unchanged, except when it ends in an empty fifth
      component, which is dropped. */
  lemma SerializeParse4(e: Env, secret: string, id: string)
    requires YieldsBytes(e) && Parse(e, secret, id).Some? && Parse(e, secret, id).value.Vault4?
    ensures var components := Split(secret, ':');
            var emptyFifth := |components| == 5 && components[4] == "";
            && (Serialize(e, Parse(e, secret, id).value) == secret <==> !emptyFifth)
            && (emptyFifth ==> Serialize(e, Parse(e, secret, id).value) + ":" == secret)
  {
    var components := Split(secret, ':');
    JoinSplit(secret, ':');
    if |components| == 5 && components[4] == "" {
      JoinEmptyLast(components[..4], ':');
      assert components == components[..4] + [""];
      assert Components(e, Parse(e, secret, id).value) == components[..4];
    } else {
      assert Components(e, Parse(e, secret, id).value) == components;
    }
  }

  lemma {:induction false} JoinEmptyLast(parts: seq<string>, sep: char)
    requires |parts| >= 1
    ensures Join(parts + [""], sep) == Join(parts, sep) + [sep]
  {
    if |parts| > 1 {
      JoinEmptyLast(parts[1..], sep);
      assert (parts + [""])[1..] == parts[1..] + [""];
    } else {
      assert (parts + [""])[1..] == [""];
    }
  }

  // ---------------------------------------------------------------- Keys

  /** A master key and, before protocol 004, an authentication key; both in hexadecimal. */
  datatype Keys = Keys(master: string, auth: string)

  function AuthFields(v: Vault): (fields: seq<string>)
    requires v.Vault3?
    ensures |fields| == 4
  {
    [v.version, v.uuid, v.iv, v.ciphertext]
  }

  function ComputeAuth(e: Env, v: Vault, auth: string): Option<string>
    requires v.Vault3? && YieldsBytes(e)
  {
    match Hex.Decode(auth)
    case None => None
    case Some(key) => Some(Hex.Encode(e.hmac(key, Join(AuthFields(v), ':'))))
  }

  predicate AesKey(key: string) {
    |key| in {16, 24, 32}
  }

  /** Sealing fills a created vault; `nonce` is drawn at random. */
  function Seal(e: Env, v: Vault, keys: Keys, payload: string, nonce: string): Option<Vault>
    requires YieldsBytes(e) && Bytes(nonce) && (v.Vault4? ==> Bytes(SortedKeysJson(v.from, v.data)))
  {
    match Hex.Decode(keys.master)
    case None => None
    case Some(dek) =>
      if v.Vault4? then
        var raw := Base64.Encode(Base64.Standard, true, SortedKeysJson(v.from, v.data));
        if |dek| != 32 then None
        else Some(v.(rawAuth := raw, nonce := Hex.Encode(nonce),
                     ciphertext := Base64.Encode(Base64.Standard, true, e.aeadSeal(dek, nonce, payload, raw))))
      else if !AesKey(dek) then None
      else
        var filled := v.(iv := Hex.Encode(nonce),
                         ciphertext := Base64.Encode(Base64.Standard, true, e.cbcSeal(dek, nonce, payload)));
        match ComputeAuth(e, filled, keys.auth)
        case None => None
        case Some(mac) => Some(filled.(auth := mac))
  }

  function Unseal(e: Env, v: Vault, keys: Keys): Option<string>
    requires YieldsBytes(e)
  {
    if v.Vault3? && ComputeAuth(e, v, keys.auth) != Some(v.auth) then None
    else
      var dek := Hex.Decode(keys.master);
      var nonce := Hex.Decode(if v.Vault4? then v.nonce else v.iv);
      var ciphertext := Base64.Decode(Base64.Standard, v.ciphertext);
      if dek.None? || nonce.None? || ciphertext.None? then None
      else if v.Vault4? then
        if |dek.value| != 32 then None else e.aeadOpen(dek.value, nonce.value, ciphertext.value, v.rawAuth)
      else
        if !AesKey(dek.value) then None else e.cbcOpen(dek.value, nonce.value, ciphertext.value)
  }

  /** The strings of the protocols: the fields between colons, and the key parameters or the additional data at the
      end when there are any. */
  lemma SerializedText(e: Env, v: Vault)
    requires YieldsBytes(e)
    ensures v.Vault3? ==>
              var text := v.version + ":" + v.auth + ":" + v.uuid + ":" + v.iv + ":" + v.ciphertext;
              Serialize(e, v) == if v.params.None? then text
                                 else text + ":" + Base64.Encode(Base64.Standard, true, e.marshalAuth(v.params.value))
    ensures v.Vault4? ==>
              var text := v.version + ":" + v.nonce + ":" + v.ciphertext + ":" + v.rawAuth;
              Serialize(e, v) == if v.additionalData == "" then text else text + ":" + v.additionalData
  {
    var cs := Components(e, v);
    hide Join, Base64.Encode;
    if |cs| == 4 {
      JoinFour(cs);
    } else if |cs| == 5 {
      JoinFive(cs);
    } else {
      JoinFive(cs[..5]);
      JoinOneMore(cs[..5], cs[5]);
      assert cs[..5] + [cs[5]] == cs;
    }
  }

  lemma JoinFive(fs: seq<string>)
    requires |fs| == 5
    ensures Join(fs, ':') == fs[0] + ":" + fs[1] + ":" + fs[2] + ":" + fs[3] + ":" + fs[4]
  {
    hide Join;
    JoinFour(fs[..4]);
    JoinOneMore(fs[..4], fs[4]);
    assert fs[..4] + [fs[4]] == fs;
  }

  lemma JoinFour(fs: seq<string>)
    requires |fs| == 4
    ensures Join(fs, ':') == fs[0] + ":" + fs[1] + ":" + fs[2] + ":" + fs[3]
  {
    assert Join([fs[0]], ':') == fs[0];
    hide Join;
    JoinOneMore([fs[0]], fs[1]);
    JoinOneMore([fs[0], fs[1]], fs[2]);
    JoinOneMore([fs[0], fs[1], fs[2]], fs[3]);
    assert [fs[0]] + [fs[1]] == [fs[0], fs[1]] && [fs[0], fs[1]] + [fs[2]] == [fs[0], fs[1], fs[2]];
    assert [fs[0], fs[1], fs[2]] + [fs[3]] == fs;
  }

  lemma {:induction false} JoinOneMore(parts: seq<string>, last: string)
    requires |parts| >= 1
    ensures Join(parts + [last], ':') == Join(parts, ':') + ":" + last
  {
    if |parts| > 1 {
      JoinOneMore(parts[1..], last);
      assert (parts + [last])[1..] == parts[1..] + [last];
    } else {
      assert (parts + [last])[1..] == [last];
    }
  }

  /** What is authenticated before 004, and how: version, item, vector and ciphertext between colons. */
  lemma AuthText(e: Env, v: Vault, auth: string)
    requires v.Vault3? && YieldsBytes(e)
    ensures var key := Hex.Decode(auth);
            ComputeAuth(e, v, auth)
            == if key.None? then None
               else Some(Hex.Encode(e.hmac(key.value, v.version + ":" + v.uuid + ":" + v.iv + ":" + v.ciphertext)))
  {
    JoinFour(AuthFields(v));
    hide Hex.Encode, Hex.Decode;
  }

  /** What a sealed vault holds: in hexadecimal the nonce, and in base64 what the cipher makes of the payload under the
      master key, in 004 along with the authenticated data. Nothing else of the vault changes but its code. */
  lemma SealedContents(e: Env, v: Vault, keys: Keys, payload: string, nonce: string)
    requires YieldsBytes(e) && Bytes(nonce) && (v.Vault4? ==> Bytes(SortedKeysJson(v.from, v.data)))
    requires Seal(e, v, keys, payload, nonce).Some?
    ensures var w, key := Seal(e, v, keys, payload, nonce).value, Hex.Decode(keys.master);
            && key.Some?
            && (v.Vault4? ==>
                  && w == v.(nonce := w.nonce, ciphertext := w.ciphertext, rawAuth := w.rawAuth)
                  && Hex.Decode(w.nonce) == Some(nonce)
                  && Base64.Decode(Base64.Standard, w.rawAuth) == Some(SortedKeysJson(v.from, v.data))
                  && Base64.Decode(Base64.Standard, w.ciphertext)
                     == Some(e.aeadSeal(key.value, nonce, payload, w.rawAuth)))
            && (v.Vault3? ==>
                  && w == v.(iv := w.iv, ciphertext := w.ciphertext, auth := w.auth)
                  && Hex.Decode(w.iv) == Some(nonce)
                  && Base64.Decode(Base64.Standard, w.ciphertext) == Some(e.cbcSeal(key.value, nonce, payload))
                  && ComputeAuth(e, w, keys.auth) == Some(w.auth))
  {
    var key := Hex.Decode(keys.master).value;
    Hex.RoundTrip(nonce);
    if v.Vault4? {
      var raw := Base64.Encode(Base64.Standard, true, SortedKeysJson(v.from, v.data));
      Base64.RoundTrip(Base64.Standard, SortedKeysJson(v.from, v.data));
      Base64.RoundTrip(Base64.Standard, e.aeadSeal(key, nonce, payload, raw));
    } else {
      Base64.RoundTrip(Base64.Standard, e.cbcSeal(key, nonce, payload));
    }
    hide Base64.Encode, Base64.Decode, Hex.Encode, Hex.Decode, Join, SortedKeysJson;
  }

  /** When sealing succeeds: with a master key that is hexadecimal and as long as the cipher asks, and before 004 an
      authentication key that is hexadecimal. */
  lemma SealsIff(e: Env, v: Vault, keys: Keys, payload: string, nonce: string)
    requires YieldsBytes(e) && Bytes(nonce) && (v.Vault4? ==> Bytes(SortedKeysJson(v.from, v.data)))
    ensures var key := Hex.Decode(keys.master);
            Seal(e, v, keys, payload, nonce).Some?
            <==> && key.Some?
                 && if v.Vault4? then |key.value| == 32
                    else |key.value| in {16, 24, 32} && Hex.Decode(keys.auth).Some?
  {
    hide Base64.Encode, Hex.Encode, Hex.Decode, Join, SortedKeysJson;
  }

  /** The fields unsealing looks at. */
  ghost predicate SameSecret(v: Vault, w: Vault) {
    if v.Vault4? then
      && w.Vault4? && w.version == v.version && w.nonce == v.nonce
      && w.ciphertext == v.ciphertext && w.rawAuth == v.rawAuth
    else w.Vault3? && w == v
  }

  lemma SealIsWellFormed(e: Env, v: Vault, keys: Keys, payload: string, nonce: string)
    requires YieldsBytes(e) && Bytes(nonce) && (v.Vault4? ==> Bytes(SortedKeysJson(v.from, v.data)))
    requires Seal(e, v, keys, payload, nonce).Some?
    requires if v.Vault4? then v.version == VERSION4 && Free(v.additionalData, ':')
             else v.version in {VERSION2, VERSION3} && Free(v.uuid, ':')
    ensures WellFormed(Seal(e, v, keys, payload, nonce).value)
  {
    var dek := Hex.Decode(keys.master).value;
    if v.Vault4? {
      var raw := Base64.Encode(Base64.Standard, true, SortedKeysJson(v.from, v.data));
      Base64.EncodeSymbols(Base64.Standard, true, SortedKeysJson(v.from, v.data));
      Base64.EncodeSymbols(Base64.Standard, true, e.aeadSeal(dek, nonce, payload, raw));
    } else {
      Base64.EncodeSymbols(Base64.Standard, true, e.cbcSeal(dek, nonce, payload));
    }
    hide Base64.Encode, Hex.Encode, Hex.Decode, Join, SortedKeysJson;
  }

  /** What is sealed can be unsealed with the same keys, also from another vault with the same secret. */
  lemma UnsealSeal(e: Env, v: Vault, keys: Keys, payload: string, nonce: string, w: Vault)
    requires YieldsBytes(e) && IdealCiphers(e) && Bytes(nonce) && (v.Vault4? ==> Bytes(SortedKeysJson(v.from, v.data)))
    requires Seal(e, v, keys, payload, nonce).Some? && SameSecret(Seal(e, v, keys, payload, nonce).value, w)
    ensures Unseal(e, w, keys) == Some(payload)
  {
    var dek := Hex.Decode(keys.master).value;
    Hex.RoundTrip(nonce);
    if v.Vault4? {
      var raw := Base64.Encode(Base64.Standard, true, SortedKeysJson(v.from, v.data));
      Base64.RoundTrip(Base64.Standard, e.aeadSeal(dek, nonce, payload, raw));
    } else {
      Base64.RoundTrip(Base64.Standard, e.cbcSeal(dek, nonce, payload));
    }
    hide Base64.Encode, Base64.Decode, Hex.Encode, Hex.Decode, Join, SortedKeysJson;
  }

  /** No two messages share a code under one key. */
  ghost predicate IdealMac(e: Env) {
    forall k, m, m' :: e.hmac(k, m) == e.hmac(k, m') ==> m == m'
  }

  /** A ciphertext does not open with other authenticated data. */
  ghost predicate AuthenticCiphers(e: Env) {
    forall k, n, p, a, a' :: a != a' ==> e.aeadOpen(k, n, e.aeadSeal(k, n, p, a), a') == None
  }

  lemma AuthFieldsDetermine(v: Vault, w: Vault)
    requires v.Vault3? && w.Vault3? && v.auth == w.auth && AuthFields(v) == AuthFields(w)
    ensures w == v.(params := w.params)
  {
    var vs, ws := AuthFields(v), AuthFields(w);
    assert vs[0] == ws[0] && vs[1] == ws[1] && vs[2] == ws[2] && vs[3] == ws[3];
  }

  lemma CodeIsInjective(e: Env, key: string, vs: seq<string>, ws: seq<string>)
    requires YieldsBytes(e) && IdealMac(e)
    requires |vs| >= 1 && |ws| >= 1 && AllFree(vs, ':') && AllFree(ws, ':')
    requires Hex.Encode(e.hmac(key, Join(vs, ':'))) == Hex.Encode(e.hmac(key, Join(ws, ':')))
    ensures vs == ws
  {
    hide Hex.Encode, Hex.Decode, Join, Split, Bytes, AllFree;
    Hex.RoundTrip(e.hmac(key, Join(vs, ':')));
    Hex.RoundTrip(e.hmac(key, Join(ws, ':')));
    SplitJoin(vs, ':');
    SplitJoin(ws, ':');
  }

  lemma PassedCheck(e: Env, v: Vault, keys: Keys)
    requires YieldsBytes(e) && v.Vault3? && Unseal(e, v, keys).Some?
    ensures Hex.Decode(keys.auth).Some?
    ensures v.auth == Hex.Encode(e.hmac(Hex.Decode(keys.auth).value, Join(AuthFields(v), ':')))
    ensures WellFormed(v) ==> AllFree(AuthFields(v), ':')
  {
    hide Hex.Encode, Hex.Decode, Join, Base64.Decode;
  }

  /** Before protocol 004 the code binds every field: of two vaults with the same code that unseal under the
      same keys, version, item, vector and ciphertext are the same. */
  lemma MacBindsFields(e: Env, v: Vault, w: Vault, keys: Keys)
    requires YieldsBytes(e) && IdealMac(e) && v.Vault3? && w.Vault3? && WellFormed(v) && WellFormed(w)
    requires Unseal(e, v, keys).Some? && Unseal(e, w, keys).Some? && v.auth == w.auth
    ensures w == v.(params := w.params)
  {
    hide *;
    PassedCheck(e, v, keys);
    PassedCheck(e, w, keys);
    CodeIsInjective(e, Hex.Decode(keys.auth).value, AuthFields(v), AuthFields(w));
    AuthFieldsDetermine(v, w);
  }

  /** In protocol 004 the authenticated data is bound: a vault whose data was exchanged does not unseal. */
  lemma AuthDataIsBound(e: Env, v: Vault, keys: Keys, payload: string, nonce: string, rawAuth: string)
    requires YieldsBytes(e) && AuthenticCiphers(e) && Bytes(nonce) && v.Vault4? && Bytes(SortedKeysJson(v.from, v.data))
    requires Seal(e, v, keys, payload, nonce).Some?
    requires rawAuth != Seal(e, v, keys, payload, nonce).value.rawAuth
    ensures Unseal(e, Seal(e, v, keys, payload, nonce).value.(rawAuth := rawAuth), keys) == None
  {
    var raw := Base64.Encode(Base64.Standard, true, SortedKeysJson(v.from, v.data));
    Hex.RoundTrip(nonce);
    Base64.RoundTrip(Base64.Standard, e.aeadSeal(Hex.Decode(keys.master).value, nonce, payload, raw));
    hide Base64.Encode, Base64.Decode, Hex.Encode, Hex.Decode, Join, SortedKeysJson;
  }
}
