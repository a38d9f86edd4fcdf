/** The opaque sync and cursor tokens: `2:` and the nanoseconds since the epoch, in base64url. */
module Token {
  import opened Basics
  import opened Times
  import opened Text
  import Decimal
  import Base64

  /** A nanosecond count as 64-bit arithmetic leaves it. */
  function WrapInt64(n: int): (w: int)
    ensures FitsInt64(w)
    ensures FitsInt64(n) ==> w == n
    ensures (n - w) % 0x1_0000_0000_0000_0000 == 0
  {
    (n - MIN_INT64) % 0x1_0000_0000_0000_0000 + MIN_INT64
  }

  lemma PrintedIsPlain(n: int)
    ensures Bytes(Decimal.PrintInt(n)) && Free(Decimal.PrintInt(n), ':')
  {
    var digits := Decimal.PrintNat(Abs(n));
    assert forall i :: 0 <= i < |digits| ==> Decimal.IsDigit(digits[i]);
  }

  function TokenFromTime(t: Time): string {
    var n := WrapInt64(t);
    PrintedIsPlain(n);
    Base64.Encode(Base64.UrlSafe, true, "2:" + Decimal.PrintInt(n))
  }

  /** Reading a token yields an instant, or the current time when the token is of version 1 or is
      not well formed, or runs past the end of the split token when it has no colon. */
  datatype Reading = At(t: Time) | CurrentTime | Panics

  function TimeFromToken(token: string): Reading {
    match Base64.Decode(Base64.UrlSafe, token)
    case None => CurrentTime
    case Some(raw) =>
      var parts := Split(raw, ':');
      if parts[0] == "1" then CurrentTime
      else if |parts| < 2 then Panics
      else
        match Decimal.ParseInt64(parts[1])
        case None => CurrentTime
        case Some(n) => At(n)
  }

  /** The codec is exact on precisely the instants whose nanosecond count fits 64 bits. */
  lemma RoundTrip(t: Time)
    ensures TimeFromToken(TokenFromTime(t)) == At(WrapInt64(t))
    ensures TimeFromToken(TokenFromTime(t)) == At(t) <==> FitsInt64(t)
  {
    var n := WrapInt64(t);
    var printed := Decimal.PrintInt(n);
    PrintedIsPlain(n);
    assert "2:" + printed == "2" + [':'] + printed;
    Base64.RoundTrip(Base64.UrlSafe, "2:" + printed);
    SplitAfter("2", printed, ':');
    SplitFree(printed, ':');
    assert Split("2:" + printed, ':') == ["2", printed];
    Decimal.ParsePrintInt(n);
  }

  /** When the reader crashes: on base64 of a text without a colon, unless the text is `1`. */
  lemma CrashesIff(token: string)
    ensures TimeFromToken(token).Panics?
            <==> var raw := Base64.Decode(Base64.UrlSafe, token);
                 raw.Some? && Free(raw.value, ':') && raw.value != "1"
  {
    var raw := Base64.Decode(Base64.UrlSafe, token);
    if raw.Some? {
      SplitsOnce(raw.value, ':');
      if Free(raw.value, ':') {
        SplitFree(raw.value, ':');
      }
    }
  }

  /** A token that crashes the reader: the text `abc`. */
  lemma SomeTokenCrashes()
    ensures TimeFromToken("YWJj").Panics?
  {
    assert Base64.Encode(Base64.UrlSafe, true, "abc") == "YWJj";
    Base64.RoundTrip(Base64.UrlSafe, "abc");
    CrashesIff("YWJj");
  }

  /** Tokens of the server never crash the reader. */
  lemma OwnTokensAreRead(t: Time)
    ensures TimeFromToken(TokenFromTime(t)).At?
  {
    RoundTrip(t);
  }

  /** A token is never the empty string, which requests use to say that they carry none. */
  lemma TokenIsNotEmpty(t: Time)
    ensures TokenFromTime(t) != ""
  {
    RoundTrip(t);
    assert Base64.Decode(Base64.UrlSafe, "") == Some("");
    assert Split("", ':') == [""];
  }

  /** What a token says: version 2, a colon and the nanoseconds in decimal, in padded base64url. */
  lemma TokenText(t: Time)
    ensures Base64.Decode(Base64.UrlSafe, TokenFromTime(t)) == Some("2:" + Decimal.PrintInt(WrapInt64(t)))
    ensures |TokenFromTime(t)| % 4 == 0
  {
    var text := "2:" + Decimal.PrintInt(WrapInt64(t));
    PrintedIsPlain(WrapInt64(t));
    Base64.RoundTrip(Base64.UrlSafe, text);
    Base64.Padding(Base64.UrlSafe, text);
  }

  lemma VersionAndRest(version: string, rest: string)
    requires Free(version, ':')
    ensures Split(version + ":" + rest, ':') == [version] + Split(rest, ':')
  {
    SplitAfter(version, rest, ':');
  }

  /** How a token is read whose text has a colon: a version other than 1 is not looked at, and the number
      after it is the instant; what follows another colon is not looked at either. */
  lemma ReadsNumber(token: string, version: string, number: string, tail: string)
    requires Base64.Decode(Base64.UrlSafe, token) == Some(version + ":" + number + tail)
    requires Free(version, ':') && Free(number, ':') && (tail == "" || tail[0] == ':')
    ensures version == "1" ==> TimeFromToken(token) == CurrentTime
    ensures version != "1" ==>
              TimeFromToken(token) == match Decimal.ParseInt64(number) case None => CurrentTime case Some(n) => At(n)
  {
    assert version + ":" + number + tail == version + ":" + (number + tail);
    VersionAndRest(version, number + tail);
    if tail == "" {
      SplitFree(number, ':');
      assert number + tail == number;
    } else {
      assert number + tail == number + ":" + tail[1..];
      VersionAndRest(number, tail[1..]);
    }
    assert Split(version + ":" + number + tail, ':')[1] == number;
  }

  /** A text is cut at its first two colons. */
  ghost predicate Cuts(raw: string, version: string, number: string, tail: string) {
    && raw == version + ":" + number + tail
    && Free(version, ':') && Free(number, ':') && (tail == "" || tail[0] == ':')
  }

  /** When a token stands for the current time: when it is not base64, is of version 1, or has no number
      after its first colon. */
  lemma CurrentTimeIff(token: string)
    ensures var raw := Base64.Decode(Base64.UrlSafe, token);
            TimeFromToken(token) == CurrentTime
            <==> || raw.None? || raw.value == "1"
                 || exists version, number, tail ::
                      Cuts(raw.value, version, number, tail) && (version == "1" || Decimal.ParseInt64(number).None?)
  {
    var raw := Base64.Decode(Base64.UrlSafe, token);
    if raw.Some? {
      SplitsOnce(raw.value, ':');
      if Free(raw.value, ':') {
        SplitFree(raw.value, ':');
        forall v, n, t
          ensures !Cuts(raw.value, v, n, t)
        {
          if Cuts(raw.value, v, n, t) {
            CutsAtColon(raw.value, v, n, t);
          }
        }
      } else {
        var version, number, tail := Parts(raw.value);
        hide TimeFromToken, Cuts, Base64.Decode, Decimal.ParseInt64;
        CutIsRead(token, version, number, tail);
        forall v, n, t | Cuts(raw.value, v, n, t) && (v == "1" || Decimal.ParseInt64(n).None?)
          ensures TimeFromToken(token) == CurrentTime
        {
          CutIsRead(token, v, n, t);
        }
      }
    }
  }

  lemma CutsAtColon(raw: string, version: string, number: string, tail: string)
    requires Cuts(raw, version, number, tail)
    ensures !Free(raw, ':')
  {
    assert raw[|version|] == ':';
  }

  lemma CutIsRead(token: string, version: string, number: string, tail: string)
    requires var raw := Base64.Decode(Base64.UrlSafe, token);
             raw.Some? && Cuts(raw.value, version, number, tail)
    ensures TimeFromToken(token) == CurrentTime <==> version == "1" || Decimal.ParseInt64(number).None?
  {
    hide TimeFromToken, Base64.Decode, Decimal.ParseInt64;
    ReadsNumber(token, version, number, tail);
  }

  /** The first two parts of a text with a colon. */
  lemma Parts(raw: string) returns (version: string, number: string, tail: string)
    requires !Free(raw, ':')
    ensures Cuts(raw, version, number, tail)
  {
    var rest;
    version, rest := Cut(raw);
    if Free(rest, ':') {
      number, tail := rest, "";
    } else {
      var more;
      number, more := Cut(rest);
      tail := ":" + more;
    }
  }

  lemma Cut(s: string) returns (head: string, tail: string)
    requires !Free(s, ':')
    ensures s == head + ":" + tail && Free(head, ':')
  {
    var i := 0;
    while s[i] != ':'
      invariant i < |s| && Free(s[..i], ':')
      invariant exists j :: i <= j < |s| && s[j] == ':'
      decreases |s| - i
    {
      i := i + 1;
    }
    head, tail := s[..i], s[i + 1..];
  }
}
