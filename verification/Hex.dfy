/** Lower-case hexadecimal (RFC 4648, section 8), decoded in either case. */
module Hex {
  import opened Basics
  import opened Text

  function Symbol(n: nat): char
    requires n < 16
  {
    if n < 10 then (n + 48) as char else (n + 87) as char
  }

  function Nibble(c: char): (n: Option<nat>)
    ensures n.Some? ==> n.value < 16
  {
    if '0' <= c <= '9' then Some(c as int - 48)
    else if 'a' <= c <= 'f' then Some(c as int - 87)
    else if 'A' <= c <= 'F' then Some(c as int - 55)
    else None
  }

  function Encode(s: string): (h: string)
    requires Bytes(s)
    ensures |h| == 2 * |s|
    ensures Bytes(h)
    ensures Free(h, ':')
  {
    if s == "" then ""
    else [Symbol(s[0] as int / 16), Symbol(s[0] as int % 16)] + Encode(s[1..])
  }

  function Byte(c: char, d: char): (b: char)
    requires Nibble(c).Some? && Nibble(d).Some?
  {
    (16 * Nibble(c).value + Nibble(d).value) as char
  }

  function Decode(h: string): (s: Option<string>)
    ensures s.Some? ==> Bytes(s.value) && 2 * |s.value| == |h|
  {
    if h == "" then Some("")
    else if |h| == 1 || Nibble(h[0]).None? || Nibble(h[1]).None? then None
    else
      match Decode(h[2..])
      case None => None
      case Some(rest) => Some([Byte(h[0], h[1])] + rest)
  }

  lemma NibbleSymbol(n: nat)
    requires n < 16
    ensures Nibble(Symbol(n)) == Some(n)
  {
  }

  lemma {:induction false} RoundTrip(s: string)
    requires Bytes(s)
    ensures Decode(Encode(s)) == Some(s)
  {
    if s != "" {
      hide Nibble, Symbol;
      NibbleSymbol(s[0] as int / 16);
      NibbleSymbol(s[0] as int % 16);
      RoundTrip(s[1..]);
      assert Encode(s)[2..] == Encode(s[1..]);
      assert [s[0]] + s[1..] == s;
    }
  }

  lemma DecodeStep(h: string)
    requires |h| >= 2
    ensures Decode(h).Some? <==> Nibble(h[0]).Some? && Nibble(h[1]).Some? && Decode(h[2..]).Some?
    ensures Decode(h).Some? ==> Decode(h).value == [Byte(h[0], h[1])] + Decode(h[2..]).value
  {
  }

  lemma DecodeNothing()
    ensures Decode("") == Some("")
  {
  }

  /** A string that decodes can be cut at any whole byte and both pieces decode. */
  lemma {:induction false} DecodeCut(h: string, k: nat)
    requires Decode(h).Some? && 2 * k <= |h|
    ensures Decode(h[..2 * k]) == Some(Decode(h).value[..k])
    ensures Decode(h[2 * k..]) == Some(Decode(h).value[k..])
  {
    hide *;
    if k > 0 {
      var head := h[..2 * k];
      DecodeStep(h);
      DecodeCut(h[2..], k - 1);
      assert head[2..] == h[2..][..2 * (k - 1)] && h[2 * k..] == h[2..][2 * (k - 1)..];
      DecodeStep(head);
      var first, rest := [Byte(h[0], h[1])], Decode(h[2..]).value;
      assert (first + rest)[..k] == first + rest[..k - 1] && (first + rest)[k..] == rest[k - 1..];
    } else {
      DecodeNothing();
      assert h[..0] == "" && h[0..] == h;
    }
  }

  const DIGITS: string := "0123456789abcdef"

  /** Each byte is written as two lower-case digits, the higher first. */
  lemma {:induction false} EncodedAt(s: string, i: nat)
    requires Bytes(s) && i < |s|
    ensures Encode(s)[2 * i] == DIGITS[s[i] as int / 16] && Encode(s)[2 * i + 1] == DIGITS[s[i] as int % 16]
  {
    SymbolIsDigit(s[i] as int / 16);
    SymbolIsDigit(s[i] as int % 16);
    if i > 0 {
      hide Symbol;
      EncodedAt(s[1..], i - 1);
    }
  }

  lemma SymbolIsDigit(n: nat)
    requires n < 16
    ensures Symbol(n) == DIGITS[n]
  {
  }

  const UPPER_DIGITS: string := "0123456789ABCDEF"

  /** The decoder takes the digits of either case. */
  lemma NibbleIff(c: char, n: nat)
    requires n < 16
    ensures Nibble(c) == Some(n) <==> c == DIGITS[n] || c == UPPER_DIGITS[n]
  {
    SymbolIsDigit(n);
    UpperDigit(n);
  }

  lemma UpperDigit(n: nat)
    requires n < 16
    ensures UPPER_DIGITS[n] == if n < 10 then (n + 48) as char else (n + 55) as char
  {
  }
}
