/** An environment that obeys every law the vaults assume of ciphers, authentication codes and JSON, so that
    the laws do not exclude each other. Its ciphertexts spell out what is sealed. */
module Environments {
  import opened Basics
  import opened Text
  import opened Vaults
  import Decimal
  import Hex

  // ---------------------------------------------------------------- Fields packed into bytes

  /** A number below 2 to the 24th as three bytes. */
  function Digits(n: nat): (b: string)
    requires n < 0x100_0000
    ensures |b| == 3 && Bytes(b)
  {
    var high := n / 256;
    [(high / 256) as char, (high % 256) as char, (n % 256) as char]
  }

  function Number(b: string): (n: nat)
    requires |b| == 3
  {
    (b[0] as int * 256 + b[1] as int) * 256 + b[2] as int
  }

  lemma NumberOfDigits(n: nat)
    requires n < 0x100_0000
    ensures Number(Digits(n)) == n
  {
    var high := n / 256;
    assert high / 256 * 256 + high % 256 == high;
    assert high * 256 + n % 256 == n;
  }

  function Widen(s: string): (b: string)
    ensures Bytes(b) && |b| == 3 * |s|
  {
    if s == "" then "" else Digits(s[0] as int) + Widen(s[1..])
  }

  /** The character that three bytes spell. */
  function Letter(b: string): char
    requires |b| == 3
  {
    var n := Number(b);
    if n < 0xD800 || 0xE000 <= n < 0x11_0000 then n as char else ' '
  }

  function Narrow(b: string): string {
    if |b| < 3 then "" else [Letter(b[..3])] + Narrow(b[3..])
  }

  lemma LetterOfWidened(s: string)
    requires s != ""
    ensures |Widen(s)| >= 3 && Letter(Widen(s)[..3]) == s[0] && Widen(s)[3..] == Widen(s[1..])
  {
    hide Digits, Number;
    var b := Widen(s);
    assert b[..3] == Digits(s[0] as int);
    NumberOfDigits(s[0] as int);
  }

  lemma {:induction false} NarrowWiden(s: string)
    ensures Narrow(Widen(s)) == s
  {
    hide Widen, Letter;
    if s != "" {
      LetterOfWidened(s);
      NarrowWiden(s[1..]);
      assert [s[0]] + s[1..] == s;
    }
  }

  /** Any string as hexadecimal digits. */
  function Armor(s: string): (h: string)
    ensures Bytes(h) && Free(h, ':')
  {
    Hex.Encode(Widen(s))
  }

  function Unarmor(h: string): string {
    var b := Hex.Decode(h);
    if b.None? then "" else Narrow(b.value)
  }

  lemma UnarmorArmor(s: string)
    ensures Unarmor(Armor(s)) == s
  {
    Hex.RoundTrip(Widen(s));
    NarrowWiden(s);
  }

  function Armored(fields: seq<string>): (parts: seq<string>)
    ensures |parts| == |fields| && AllFree(parts, ':')
    ensures forall i :: 0 <= i < |fields| ==> parts[i] == Armor(fields[i])
  {
    seq(|fields|, i requires 0 <= i < |fields| => Armor(fields[i]))
  }

  function Pack(fields: seq<string>): string
    requires |fields| >= 1
  {
    Join(Armored(fields), ':')
  }

  function Unpack(s: string): (fields: seq<string>)
    ensures |fields| >= 1
  {
    var parts := Split(s, ':');
    seq(|parts|, i requires 0 <= i < |parts| => Unarmor(parts[i]))
  }

  lemma UnpackPack(fields: seq<string>)
    requires |fields| >= 1
    ensures Unpack(Pack(fields)) == fields
  {
    SplitJoin(Armored(fields), ':');
    forall i | 0 <= i < |fields|
      ensures Unarmor(Armored(fields)[i]) == fields[i]
    {
      UnarmorArmor(fields[i]);
    }
  }

  lemma PackIsBytes(fields: seq<string>)
    requires |fields| >= 1
    ensures Bytes(Pack(fields))
  {
    JoinIsBytes(Armored(fields), ':');
  }

  // ---------------------------------------------------------------- Ciphers

  function AeadSeal(key: string, nonce: string, payload: string, data: string): string {
    Pack([payload, data])
  }

  function AeadOpen(key: string, nonce: string, ciphertext: string, data: string): Option<string> {
    var fields := Unpack(ciphertext);
    if |fields| == 2 && fields[1] == data then Some(fields[0]) else None
  }

  function CbcSeal(key: string, iv: string, payload: string): string {
    Pack([payload])
  }

  function CbcOpen(key: string, iv: string, ciphertext: string): Option<string> {
    Some(Unpack(ciphertext)[0])
  }

  function Hmac(key: string, message: string): string {
    Pack([message])
  }

  // ---------------------------------------------------------------- The codec

  function ParseCost(s: string): int {
    var negative := s != "" && s[0] == '-';
    var n := Decimal.ParseNat(if negative then s[1..] else s);
    var m: int := if n.None? then 0 else n.value;
    if negative then -m else m
  }

  lemma ParseCostPrints(n: int)
    ensures ParseCost(Decimal.PrintInt(n)) == n
  {
    Decimal.ParsePrintNat(Abs(n));
    if n < 0 {
      assert Decimal.PrintInt(n)[1..] == Decimal.PrintNat(-n);
    } else {
      assert Decimal.IsDigit(Decimal.PrintNat(n)[0]);
    }
  }

  function MarshalAuth(a: Auth): string {
    Pack([a.version, a.identifier, Decimal.PrintInt(a.cost), a.nonce, a.origination])
  }

  function UnmarshalAuth(s: string): Option<Auth> {
    var f := Unpack(s);
    if |f| == 5 then Some(Auth(f[0], f[1], ParseCost(f[2]), f[3], f[4])) else None
  }

  function MarshalNote(n: Note): string {
    Pack([n.title, n.text, n.previewPlain, n.previewHTML, n.references, n.appData])
  }

  function UnmarshalNote(s: string): Option<Note> {
    var f := Unpack(s);
    if |f| == 6 then Some(Note(f[0], f[1], f[2], f[3], f[4], f[5])) else None
  }

  /** The values of the object stand between its quotes, at fixed places. */
  function UnmarshalAuthData(s: string): Option<AuthData> {
    var f := Split(s, '"');
    if |f| == 27 then Some(AuthData(f[25], f[21], Auth(f[17], f[5], 0, f[13], f[9])))
    else if |f| == 9 then Some(AuthData(f[7], f[3], NO_AUTH))
    else None
  }

  lemma QuotedText(head: string, key: string, value: string, tail: string)
    ensures head + Quoted(key, value) + tail == head + ['"'] + (key + ['"'] + (":" + ['"'] + (value + ['"'] + tail)))
  {
    assert Quoted(key, value) == ['"'] + (key + ['"'] + (":" + ['"'] + (value + ['"'])));
  }

  lemma SplitPair(head: string, key: string, value: string, tail: string)
    requires Free(head, '"') && Free(key, '"') && Free(value, '"')
    ensures Split(head + Quoted(key, value) + tail, '"') == [head, key, ":", value] + Split(tail, '"')
  {
    Separators();
    hide *;
    var s4 := value + ['"'] + tail;
    var s3 := ":" + ['"'] + s4;
    var s2 := key + ['"'] + s3;
    QuotedText(head, key, value, tail);
    SplitAfter(head, s2, '"');
    SplitAfter(key, s3, '"');
    SplitAfter(":", s4, '"');
    SplitAfter(value, tail, '"');
  }

  lemma ReadsPlainObject(d: AuthData, from: string)
    requires Plain(d.version) && Plain(d.userID) && from != ITEMS_KEY
    ensures UnmarshalAuthData(SortedKeysJson(from, d)) == Some(d.(keyParams := NO_AUTH))
  {
    var last := "," + Quoted("v", d.version) + "}";
    SplitPair("{", "u", d.userID, last);
    SplitPair(",", "v", d.version, "}");
    SplitFree("}", '"');
    var values := [] + [Quoted("u", d.userID), Quoted("v", d.version)];
    assert Join(values, ',') == Quoted("u", d.userID) + [','] + Quoted("v", d.version);
    assert SortedKeysJson(from, d) == "{" + Quoted("u", d.userID) + last;
  }

  /** The object of any other item holds the item's id and the version. */
  lemma PlainObject(d: AuthData, from: string)
    requires from != ITEMS_KEY
    ensures SortedKeysJson(from, d) == "{" + Quoted("u", d.userID) + "," + Quoted("v", d.version) + "}"
  {
    var values := [] + [Quoted("u", d.userID), Quoted("v", d.version)];
    assert Join(values, ',') == Quoted("u", d.userID) + [','] + Quoted("v", d.version);
  }

  /** The object of an items key as its pairs and what stands between them. */
  lemma KeyObject(d: AuthData)
    ensures SortedKeysJson(ITEMS_KEY, d)
         == "{\"kp\":{" + (Quoted("identifier", d.keyParams.identifier)
            + ("," + Quoted("origination", d.keyParams.origination)
            + ("," + Quoted("pw_nonce", d.keyParams.nonce)
            + ("," + Quoted("version", d.keyParams.version)
            + ("}," + Quoted("u", d.userID) + ("," + Quoted("v", d.version) + "}"))))))
  {
    var i, o, n, v := Quoted("identifier", d.keyParams.identifier), Quoted("origination", d.keyParams.origination),
                      Quoted("pw_nonce", d.keyParams.nonce), Quoted("version", d.keyParams.version);
    var u, w := Quoted("u", d.userID), Quoted("v", d.version);
    var kp := Join([i, o, n, v], ',');
    var values := ["\"kp\":{" + kp + "}"] + [u, w];
    assert SortedKeysJson(ITEMS_KEY, d) == "{" + Join(values, ',') + "}";
    hide *;
    JoinFour(i, o, n, v);
    assert values == ["\"kp\":{" + kp + "}", u, w];
    JoinThree("\"kp\":{" + kp + "}", u, w);
    KeyObjectText(i, o, n, v, u, w);
  }

  lemma KeyObjectText(i: string, o: string, n: string, v: string, u: string, w: string)
    ensures "{" + (("\"kp\":{" + (i + "," + o + "," + n + "," + v) + "}") + "," + u + "," + w) + "}"
         == "{\"kp\":{" + (i + ("," + o + ("," + n + ("," + v + ("}," + u + ("," + w + "}"))))))
  {
  }

  lemma JoinThree(a: string, b: string, c: string)
    ensures Join([a, b, c], ',') == a + "," + b + "," + c
  {
    assert [a, b, c][1..] == [b, c] && [b, c][1..] == [c];
    assert Join([b, c], ',') == b + "," + c;
  }

  lemma JoinFour(a: string, b: string, c: string, d: string)
    ensures Join([a, b, c, d], ',') == a + "," + b + "," + c + "," + d
  {
    assert [a, b, c, d][1..] == [b, c, d];
    JoinThree(b, c, d);
  }

  lemma SplitHead(tail: string)
    ensures Split("{\"kp\":{" + tail, '"') == ["{", "kp"] + Split(":{" + tail, '"')
  {
    var s2 := "kp" + ['"'] + (":{" + tail);
    assert "{\"kp\":{" + tail == "{" + ['"'] + s2;
    SplitAfter("{", s2, '"');
    SplitAfter("kp", ":{" + tail, '"');
  }

  /** The quotes of the object of an items key leave its six values at these places. */
  lemma KeyObjectSplits(i: string, o: string, n: string, v: string, u: string, w: string, s: string)
    requires Free(i, '"') && Free(o, '"') && Free(n, '"') && Free(v, '"') && Free(u, '"') && Free(w, '"')
    requires s == "{\"kp\":{" + (Quoted("identifier", i) + ("," + Quoted("origination", o)
                  + ("," + Quoted("pw_nonce", n) + ("," + Quoted("version", v)
                  + ("}," + Quoted("u", u) + ("," + Quoted("v", w) + "}"))))))
    ensures var f := Split(s, '"');
            |f| == 27 && f[5] == i && f[9] == o && f[13] == n && f[17] == v && f[21] == u && f[25] == w
  {
    hide *;
    var t6 := "," + Quoted("v", w) + "}";
    var t5 := "}," + Quoted("u", u) + t6;
    var t4 := "," + Quoted("version", v) + t5;
    var t3 := "," + Quoted("pw_nonce", n) + t4;
    var t2 := "," + Quoted("origination", o) + t3;
    SplitHead(Quoted("identifier", i) + t2);
    assert ":{" + (Quoted("identifier", i) + t2) == ":{" + Quoted("identifier", i) + t2;
    Separators();
    SplitPair(":{", "identifier", i, t2);
    SplitPair(",", "origination", o, t3);
    SplitPair(",", "pw_nonce", n, t4);
    SplitPair(",", "version", v, t5);
    SplitPair("},", "u", u, t6);
    SplitPair(",", "v", w, "}");
    SplitFree("}", '"');
  }

  lemma Separators()
    ensures Free(":", '"') && Free(":{", '"') && Free(",", '"') && Free("},", '"') && Free("}", '"')
    ensures Free("identifier", '"') && Free("origination", '"') && Free("pw_nonce", '"') && Free("version", '"')
            && Free("u", '"') && Free("v", '"')
  {
  }

  lemma ReadsKeyObject(d: AuthData)
    requires Plain(d.version) && Plain(d.userID) && PlainAuth(d.keyParams)
    ensures UnmarshalAuthData(SortedKeysJson(ITEMS_KEY, d)) == Some(d.(keyParams := d.keyParams.(cost := 0)))
  {
    var k := d.keyParams;
    KeyObject(d);
    KeyObjectSplits(k.identifier, k.origination, k.nonce, k.version, d.userID, d.version, SortedKeysJson(ITEMS_KEY, d));
    hide Split, Quoted, SortedKeysJson;
  }

  // ---------------------------------------------------------------- The laws

  const TRANSPARENT: Env := Env(
    AeadSeal, AeadOpen, CbcSeal, CbcOpen, Hmac,
    MarshalAuth, UnmarshalAuth, UnmarshalAuthData, MarshalNote, UnmarshalNote,
    (s: string) => Some(s), (n: Note) => true)

  lemma YieldsOnlyBytes()
    ensures YieldsBytes(TRANSPARENT)
  {
    hide Pack, Bytes;
    var e := TRANSPARENT;
    forall k, n, p, a
      ensures Bytes(e.aeadSeal(k, n, p, a))
    {
      PackIsBytes([p, a]);
    }
    forall k, n, p
      ensures Bytes(e.cbcSeal(k, n, p))
    {
      PackIsBytes([p]);
    }
    forall k, m
      ensures Bytes(e.hmac(k, m))
    {
      PackIsBytes([m]);
    }
    forall a
      ensures Bytes(e.marshalAuth(a))
    {
      PackIsBytes([a.version, a.identifier, Decimal.PrintInt(a.cost), a.nonce, a.origination]);
    }
    forall n
      ensures Bytes(e.marshalNote(n))
    {
      PackIsBytes([n.title, n.text, n.previewPlain, n.previewHTML, n.references, n.appData]);
    }
  }

  lemma CiphersObey()
    ensures IdealCiphers(TRANSPARENT) && IdealMac(TRANSPARENT) && AuthenticCiphers(TRANSPARENT)
  {
    hide Pack, Unpack;
    var e := TRANSPARENT;
    forall k, n, p, a, a'
      ensures e.aeadOpen(k, n, e.aeadSeal(k, n, p, a), a') == if a == a' then Some(p) else None
    {
      UnpackPack([p, a]);
    }
    forall k, n, p
      ensures e.cbcOpen(k, n, e.cbcSeal(k, n, p)) == Some(p)
    {
      UnpackPack([p]);
    }
    forall k, m, m' | Hmac(k, m) == Hmac(k, m')
      ensures m == m'
    {
      UnpackPack([m]);
      UnpackPack([m']);
      assert [m][0] == [m'][0];
    }
  }

  lemma CodecObeys()
    ensures InverseJson(TRANSPARENT)
  {
    hide Pack, Unpack, SortedKeysJson, Plain, UnmarshalAuthData;
    var e := TRANSPARENT;
    forall a
      ensures e.unmarshalAuth(e.marshalAuth(a)) == Some(a)
    {
      UnpackPack([a.version, a.identifier, Decimal.PrintInt(a.cost), a.nonce, a.origination]);
      ParseCostPrints(a.cost);
    }
    forall n
      ensures e.unmarshalNote(e.marshalNote(n)) == Some(n)
    {
      UnpackPack([n.title, n.text, n.previewPlain, n.previewHTML, n.references, n.appData]);
    }
    forall from, d: AuthData | Plain(d.version) && Plain(d.userID) && PlainAuth(d.keyParams)
      ensures e.unmarshalAuthData(SortedKeysJson(from, d))
           == Some(if from == ITEMS_KEY then d.(keyParams := d.keyParams.(cost := 0)) else d.(keyParams := NO_AUTH))
    {
      if from == ITEMS_KEY {
        ReadsKeyObject(d);
      } else {
        ReadsPlainObject(d, from);
      }
    }
  }

  lemma TransparentIsLawful()
    ensures Lawful(TRANSPARENT) && IdealMac(TRANSPARENT) && AuthenticCiphers(TRANSPARENT)
  {
    YieldsOnlyBytes();
    CiphersObey();
    CodecObeys();
  }

  /** The laws can all hold at once. */
  lemma LawfulExists()
    ensures exists e :: Lawful(e) && IdealMac(e) && AuthenticCiphers(e)
  {
    TransparentIsLawful();
  }
}
