/** Base64 (RFC 4648, sections 4 and 5) with the leniency of Go's decoder: line breaks are skipped
    and the unused bits of the last group are ignored. */
module Base64 {
  import opened Basics
  import opened Text

  datatype Alphabet = Standard | UrlSafe

  function Symbol(a: Alphabet, n: nat): char
    requires n < 64
  {
    if n < 26 then (n + 65) as char
    else if n < 52 then (n + 71) as char
    else if n < 62 then (n - 4) as char
    else if n == 62 then (if a.Standard? then '+' else '-')
    else if a.Standard? then '/' else '_'
  }

  function Sextet(a: Alphabet, c: char): (n: Option<nat>)
    ensures n.Some? ==> n.value < 64
  {
    if 'A' <= c <= 'Z' then Some(c as int - 65)
    else if 'a' <= c <= 'z' then Some(c as int - 71)
    else if '0' <= c <= '9' then Some(c as int + 4)
    else if c == (if a.Standard? then '+' else '-') then Some(62)
    else if c == (if a.Standard? then '/' else '_') then Some(63)
    else None
  }

  lemma SextetSymbol(a: Alphabet, n: nat)
    requires n < 64
    ensures Sextet(a, Symbol(a, n)) == Some(n)
    ensures Symbol(a, n) !in {'=', ':', '\r', '\n'}
  {
  }

  type Sextets = ns: seq<nat> | forall i :: 0 <= i < |ns| ==> ns[i] < 64

  function Symbols(a: Alphabet, ns: Sextets): (g: string)
    ensures |g| == |ns|
    ensures forall i :: 0 <= i < |g| ==> g[i] !in {'=', ':', '\r', '\n'}
  {
    if ns == [] then "" else [Symbol(a, ns[0])] + Symbols(a, ns[1..])
  }

  function FromSymbols(a: Alphabet, g: string): (ns: Option<Sextets>)
    ensures ns.Some? ==> |ns.value| == |g|
  {
    if g == "" then Some([])
    else
      var first := Sextet(a, g[0]);
      var rest := FromSymbols(a, g[1..]);
      if first.None? || rest.None? then None else Some([first.value] + rest.value)
  }

  /** The sextets of a group of up to three bytes. */
  function SplitBits(s: string): (ns: Sextets)
    requires 1 <= |s| <= 3 && Bytes(s)
    ensures |ns| == |s| + 1
  {
    var x, y, z := s[0] as int, if |s| > 1 then s[1] as int else 0, if |s| > 2 then s[2] as int else 0;
    var b, c, d, e := x / 4, x % 4 * 16 + y / 16, y % 16 * 4 + z / 64, z % 64;
    if |s| == 1 then [b, c] else if |s| == 2 then [b, c, d] else [b, c, d, e]
  }

  /** The whole bytes in a group of two to four sextets. */
  function JoinBits(ns: Sextets): (s: string)
    requires 2 <= |ns| <= 4
    ensures |s| + 1 == |ns|
  {
    var b, c, d, e := ns[0], ns[1], if |ns| > 2 then ns[2] else 0, if |ns| > 3 then ns[3] else 0;
    var x, y, z := (b * 4 + c / 16) as char, (c % 16 * 16 + d / 4) as char, (d % 4 * 64 + e) as char;
    if |ns| == 2 then [x] else if |ns| == 3 then [x, y] else [x, y, z]
  }

  /** The symbols of one group of up to three bytes, without padding. */
  function EncodeGroup(a: Alphabet, s: string): (g: string)
    requires 1 <= |s| <= 3 && Bytes(s)
    ensures |g| == |s| + 1
    ensures forall i :: 0 <= i < |g| ==> g[i] !in {'=', ':', '\r', '\n'}
  {
    Symbols(a, SplitBits(s))
  }

  /** Padding. */
  function Fill(n: nat): (p: string)
    ensures |p| == n && forall i :: 0 <= i < n ==> p[i] == '='
  {
    seq(n, _ => '=')
  }

  function Encode(a: Alphabet, padded: bool, s: string): string
    requires Bytes(s)
  {
    if s == "" then ""
    else if |s| <= 3 then EncodeGroup(a, s) + (if padded then Fill(3 - |s|) else "")
    else EncodeGroup(a, s[..3]) + Encode(a, padded, s[3..])
  }

  function DecodeGroup(a: Alphabet, g: string): Option<string>
    requires 2 <= |g| <= 4
  {
    match FromSymbols(a, g)
    case None => None
    case Some(ns) => Some(JoinBits(ns))
  }

  function WithoutLineBreaks(s: string): string {
    if s == "" then ""
    else if s[0] == '\r' || s[0] == '\n' then WithoutLineBreaks(s[1..])
    else [s[0]] + WithoutLineBreaks(s[1..])
  }

  function DecodeGroups(a: Alphabet, s: string): Option<string> {
    if s == "" then Some("")
    else if |s| < 4 then None
    else if |s| == 4 && s[2..] == "==" then DecodeGroup(a, s[..2])
    else if |s| == 4 && s[3] == '=' then DecodeGroup(a, s[..3])
    else
      match DecodeGroup(a, s[..4])
      case None => None
      case Some(bytes) =>
        match DecodeGroups(a, s[4..])
        case None => None
        case Some(rest) => Some(bytes + rest)
  }

  /** Decoding of the padded encodings. */
  function Decode(a: Alphabet, s: string): Option<string> {
    DecodeGroups(a, WithoutLineBreaks(s))
  }

  lemma {:induction false} FromSymbolsOfSymbols(a: Alphabet, ns: Sextets)
    ensures FromSymbols(a, Symbols(a, ns)) == Some(ns)
  {
    if ns != [] {
      SextetSymbol(a, ns[0]);
      FromSymbolsOfSymbols(a, ns[1..]);
      assert Symbols(a, ns)[1..] == Symbols(a, ns[1..]);
      assert [ns[0]] + ns[1..] == ns;
    }
  }

  lemma JoinSplitBits(s: string)
    requires 1 <= |s| <= 3 && Bytes(s)
    ensures JoinBits(SplitBits(s)) == s
  {
    var x, y, z := s[0] as int, if |s| > 1 then s[1] as int else 0, if |s| > 2 then s[2] as int else 0;
    assert x / 4 * 4 + (x % 4 * 16 + y / 16) / 16 == x;
    assert (x % 4 * 16 + y / 16) % 16 * 16 + (y % 16 * 4 + z / 64) / 4 == y;
    assert (y % 16 * 4 + z / 64) % 4 * 64 + z % 64 == z;
  }

  lemma GroupRoundTrip(a: Alphabet, s: string)
    requires 1 <= |s| <= 3 && Bytes(s)
    ensures DecodeGroup(a, EncodeGroup(a, s)) == Some(s)
  {
    FromSymbolsOfSymbols(a, SplitBits(s));
    JoinSplitBits(s);
  }

  /** Neither a line break nor the separator of tokens and secrets comes out of the encoder. */
  lemma {:induction false} EncodeSymbols(a: Alphabet, padded: bool, s: string)
    requires Bytes(s)
    ensures forall i :: 0 <= i < |Encode(a, padded, s)| ==> Encode(a, padded, s)[i] !in {':', '\r', '\n'}
  {
    if |s| > 3 {
      EncodeSymbols(a, padded, s[3..]);
    }
  }

  lemma {:induction false} NoLineBreaks(s: string)
    requires forall i :: 0 <= i < |s| ==> s[i] != '\r' && s[i] != '\n'
    ensures WithoutLineBreaks(s) == s
  {
    if s != "" {
      NoLineBreaks(s[1..]);
    }
  }

  lemma {:induction false} GroupsRoundTrip(a: Alphabet, s: string)
    requires Bytes(s)
    ensures DecodeGroups(a, Encode(a, true, s)) == Some(s)
  {
    var e := Encode(a, true, s);
    if 0 < |s| <= 3 {
      GroupRoundTrip(a, s);
      assert e[..|s| + 1] == EncodeGroup(a, s);
      if |s| == 1 {
        assert e[2..] == "==";
      } else if |s| == 2 {
        assert e[2..][0] == EncodeGroup(a, s)[2];
      } else {
        assert e[2..][1] == e[3] == EncodeGroup(a, s)[3];
        assert e[4..] == "";
        assert s + "" == s;
      }
    } else if |s| > 3 {
      GroupRoundTrip(a, s[..3]);
      GroupsRoundTrip(a, s[3..]);
      assert e[..4] == EncodeGroup(a, s[..3]) && e[4..] == Encode(a, true, s[3..]);
      assert e[2..][1] == e[3] == EncodeGroup(a, s[..3])[3];
      assert s == s[..3] + s[3..];
    }
  }

  /** Decoding undoes padded encoding, on every string of bytes and in both alphabets. */
  lemma RoundTrip(a: Alphabet, s: string)
    requires Bytes(s)
    ensures Decode(a, Encode(a, true, s)) == Some(s)
  {
    EncodeSymbols(a, true, s);
    NoLineBreaks(Encode(a, true, s));
    GroupsRoundTrip(a, s);
  }

  lemma {:induction false} UnpaddedLength(a: Alphabet, s: string)
    requires Bytes(s)
    ensures 4 * |s| <= 3 * |Encode(a, false, s)| <= 4 * |s| + 2
  {
    if |s| > 3 {
      UnpaddedLength(a, s[3..]);
    }
  }

  /** The unpadded encoding loses nothing either. */
  lemma {:induction false} UnpaddedInjective(a: Alphabet, s: string, t: string)
    requires Bytes(s) && Bytes(t)
    requires Encode(a, false, s) == Encode(a, false, t)
    ensures s == t
  {
    UnpaddedLength(a, s);
    UnpaddedLength(a, t);
    if |s| > 3 {
      var e, f := Encode(a, false, s), Encode(a, false, t);
      assert e[..4] == EncodeGroup(a, s[..3]) && f[..4] == EncodeGroup(a, t[..3]);
      assert e[4..] == Encode(a, false, s[3..]) && f[4..] == Encode(a, false, t[3..]);
      GroupRoundTrip(a, s[..3]);
      GroupRoundTrip(a, t[..3]);
      UnpaddedInjective(a, s[3..], t[3..]);
      assert s == s[..3] + s[3..] && t == t[..3] + t[3..];
    } else if s != "" {
      assert Encode(a, false, s) == EncodeGroup(a, s);
      assert Encode(a, false, t) == EncodeGroup(a, t);
      GroupRoundTrip(a, s);
      GroupRoundTrip(a, t);
    }
  }

  const UPPER: string := "ABCDEFGHIJKLMNOPQRSTUVWXYZ"
  const LOWER: string := "abcdefghijklmnopqrstuvwxyz"
  const NUMERALS: string := "0123456789"

  /** The 64 symbols in the order of RFC 4648, tables 1 and 2. */
  function Table(a: Alphabet): (t: string)
    ensures |t| == 64
  {
    UPPER + LOWER + NUMERALS + if a.Standard? then "+/" else "-_"
  }

  lemma UpperAt(n: nat)
    requires n < 26
    ensures UPPER[n] == (n + 65) as char
  {
  }

  lemma LowerAt(n: nat)
    requires n < 26
    ensures LOWER[n] == (n + 97) as char
  {
  }

  lemma NumeralAt(n: nat)
    requires n < 10
    ensures NUMERALS[n] == (n + 48) as char
  {
  }

  lemma SymbolIsInTable(a: Alphabet, n: nat)
    requires n < 64
    ensures Symbol(a, n) == Table(a)[n]
  {
    var t := Table(a);
    if n < 26 {
      UpperAt(n);
      assert t[n] == UPPER[n];
    } else if n < 52 {
      LowerAt(n - 26);
      assert t[n] == LOWER[n - 26];
    } else if n < 62 {
      NumeralAt(n - 52);
      assert t[n] == NUMERALS[n - 52];
    }
  }

  /** Three bytes as one number of 24 bits; bytes past the end count as zero. */
  function Word(s: string): (w: nat)
  {
    (if |s| > 0 then s[0] as int else 0) * 65_536 + (if |s| > 1 then s[1] as int else 0) * 256
    + (if |s| > 2 then s[2] as int else 0)
  }

  /** The sextets are the bits of that number, the highest first. */
  function SextetOf(w: nat, k: nat): (n: nat)
    requires k < 4
    ensures n < 64
  {
    if k == 0 then w / 262_144 % 64 else if k == 1 then w / 4_096 % 64 else if k == 2 then w / 64 % 64 else w % 64
  }

  lemma BitsOf(x: nat, y: nat, z: nat)
    requires x < 256 && y < 256 && z < 256
    ensures var w := x * 65_536 + y * 256 + z;
            && x / 4 == w / 262_144 % 64 && x % 4 * 16 + y / 16 == w / 4_096 % 64
            && y % 16 * 4 + z / 64 == w / 64 % 64 && z % 64 == w % 64
  {
    var w := x * 65_536 + y * 256 + z;
    var b, c, d, e := x / 4, x % 4 * 16 + y / 16, y % 16 * 4 + z / 64, z % 64;
    assert w == ((b * 64 + c) * 64 + d) * 64 + e;
    assert w / 64 == (b * 64 + c) * 64 + d;
    assert w / 4_096 == w / 64 / 64 == b * 64 + c;
    assert w / 262_144 == w / 4_096 / 64 == b;
  }

  lemma SplitBitsAt(s: string, k: nat)
    requires 1 <= |s| <= 3 && Bytes(s) && k <= |s|
    ensures SplitBits(s)[k] == SextetOf(Word(s), k)
  {
    BitsOf(s[0] as int, if |s| > 1 then s[1] as int else 0, if |s| > 2 then s[2] as int else 0);
  }

  lemma {:induction false} SymbolsAt(a: Alphabet, ns: Sextets, k: nat)
    requires k < |ns|
    ensures Symbols(a, ns)[k] == Table(a)[ns[k]]
  {
    hide Table;
    SymbolIsInTable(a, ns[0]);
    if k > 0 {
      SymbolsAt(a, ns[1..], k - 1);
    }
  }

  lemma FirstGroup(a: Alphabet, padded: bool, s: string, i: nat)
    requires Bytes(s) && s != ""
    ensures var g := if |s| <= 3 then s else s[..3];
            i <= |g| ==> i < |Encode(a, padded, s)| && Encode(a, padded, s)[i] == Symbols(a, SplitBits(g))[i]
    ensures i >= 4 && |s| > 3 && i - 4 < |Encode(a, padded, s[3..])| ==>
              i < |Encode(a, padded, s)| && Encode(a, padded, s)[i] == Encode(a, padded, s[3..])[i - 4]
  {
    hide Symbols, SplitBits;
  }

  lemma WordOfFirst(s: string)
    requires s != ""
    ensures Word(if |s| <= 3 then s else s[..3]) == Word(s)
  {
  }

  /** Each symbol stands for six bits of the bytes, in order: the `k`-th symbol of a group for the `k`-th sextet of
      its bytes. The rest of the last group is padding. */
  lemma {:induction false} EncodedAt(a: Alphabet, padded: bool, s: string, group: nat, k: nat)
    requires Bytes(s) && 3 * group < |s| && k < 4 && 3 * group + k <= |s|
    ensures 4 * group + k < |Encode(a, padded, s)|
    ensures Encode(a, padded, s)[4 * group + k] == Table(a)[SextetOf(Word(s[3 * group..]), k)]
  {
    hide *;
    FirstGroup(a, padded, s, 4 * group + k);
    FirstBytes(s);
    if group == 0 {
      var g := if |s| <= 3 then s else s[..3];
      SplitBitsAt(g, k);
      SymbolsAt(a, SplitBits(g), k);
      WordOfFirst(s);
      assert s[0..] == s;
    } else {
      EncodedAt(a, padded, s[3..], group - 1, k);
      assert s[3..][3 * (group - 1)..] == s[3 * group..];
    }
  }

  lemma FirstBytes(s: string)
    requires Bytes(s) && s != ""
    ensures Bytes(if |s| <= 3 then s else s[..3])
    ensures |s| >= 3 ==> Bytes(s[3..])
  {
  }

  /** The padding that an encoding of `n` bytes is filled up with. */
  function Missing(n: nat): (m: nat)
    ensures m < 3
  {
    (3 - n % 3) % 3
  }

  lemma PaddingOfFirst(a: Alphabet, s: string)
    requires Bytes(s)
    ensures |s| <= 3 ==> |Encode(a, true, s)| % 4 == 0
    ensures |s| <= 3 ==> Encode(a, true, s) == Encode(a, false, s) + Fill(Missing(|s|))
    ensures |s| > 3 ==> Missing(|s|) == Missing(|s| - 3)
    ensures |s| > 3 ==>
              && Encode(a, true, s) == EncodeGroup(a, s[..3]) + Encode(a, true, s[3..])
              && Encode(a, false, s) == EncodeGroup(a, s[..3]) + Encode(a, false, s[3..])
              && |EncodeGroup(a, s[..3])| == 4
  {
    hide EncodeGroup;
  }

  lemma Concat(x: string, y: string, z: string)
    ensures x + (y + z) == (x + y) + z
  {
  }

  /** An encoding is filled up with padding to a multiple of four symbols. */
  lemma {:induction false} Padding(a: Alphabet, s: string)
    requires Bytes(s)
    ensures |Encode(a, true, s)| % 4 == 0
    ensures Encode(a, true, s) == Encode(a, false, s) + Fill(Missing(|s|))
  {
    hide *;
    PaddingOfFirst(a, s);
    if |s| > 3 {
      FirstBytes(s);
      Padding(a, s[3..]);
      Concat(EncodeGroup(a, s[..3]), Encode(a, false, s[3..]), Fill(Missing(|s| - 3)));
      FourMore(|Encode(a, true, s[3..])|);
    }
  }

  lemma FourMore(n: nat)
    ensures (4 + n) % 4 == n % 4
  {
  }

  /** The decoder takes exactly the symbols of its table. */
  lemma SextetIff(a: Alphabet, c: char, n: nat)
    requires n < 64
    ensures Sextet(a, c) == Some(n) <==> c == Table(a)[n]
  {
    hide Table;
    SymbolIsInTable(a, n);
    SextetSymbol(a, n);
  }

  lemma {:induction false} WithoutLineBreaksOf(s: string, c: char, t: string)
    requires c == '\r' || c == '\n'
    ensures WithoutLineBreaks(s + [c] + t) == WithoutLineBreaks(s + t)
  {
    if s == "" {
      assert s + [c] + t == [c] + t && s + t == t;
    } else {
      assert (s + [c] + t)[1..] == s[1..] + [c] + t && (s + t)[1..] == s[1..] + t;
      WithoutLineBreaksOf(s[1..], c, t);
    }
  }

  /** A line break changes nothing, wherever it stands. */
  lemma LineBreaksAreSkipped(a: Alphabet, s: string, c: char, t: string)
    requires c == '\r' || c == '\n'
    ensures Decode(a, s + [c] + t) == Decode(a, s + t)
  {
    WithoutLineBreaksOf(s, c, t);
  }

  lemma {:induction false} GroupsAreWhole(a: Alphabet, s: string)
    ensures DecodeGroups(a, s).Some? ==> |s| % 4 == 0
  {
    if |s| >= 4 {
      GroupsAreWhole(a, s[4..]);
    }
  }

  /** What is decoded is, without its line breaks, a multiple of four symbols long. */
  lemma DecodedIsWhole(a: Alphabet, s: string)
    ensures Decode(a, s).Some? ==> |WithoutLineBreaks(s)| % 4 == 0
  {
    GroupsAreWhole(a, WithoutLineBreaks(s));
  }
}
