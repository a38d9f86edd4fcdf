/** The string the integrity check hashes: the millisecond timestamps of the live items, printed in
    decimal, sorted as strings from the greatest down and joined with commas. */
module Signature {
  import opened Basics
  import opened Text
  import opened Times
  import opened Database
  import Decimal

  /** Go's order on strings. */
  predicate Less(s: string, t: string) {
    t != "" && (s == "" || s[0] < t[0] || (s[0] == t[0] && Less(s[1..], t[1..])))
  }

  lemma {:induction false} LessTotal(s: string, t: string)
    ensures Less(s, t) || Less(t, s) || s == t
    ensures !(Less(s, t) && Less(t, s)) && (s == t ==> !Less(s, t))
  {
    if s != "" && t != "" {
      LessTotal(s[1..], t[1..]);
      assert s == [s[0]] + s[1..] && t == [t[0]] + t[1..];
    }
  }

  lemma {:induction false} LessTransitive(s: string, t: string, u: string)
    requires !Less(s, t) && !Less(t, u)
    ensures !Less(s, u)
  {
    if s != "" && t != "" && u != "" && s[0] == t[0] && t[0] == u[0] {
      LessTransitive(s[1..], t[1..], u[1..]);
    }
  }

  ghost predicate Descending(s: seq<string>) {
    forall i, j :: 0 <= i < j < |s| ==> !Less(s[i], s[j])
  }

  lemma HeadFirst(x: string, s: seq<string>)
    requires Descending(s) && (s == [] || !Less(x, s[0]))
    ensures Descending([x] + s)
  {
    forall j | 0 <= j < |s|
      ensures !Less(x, s[j])
    {
      if j > 0 {
        LessTransitive(x, s[0], s[j]);
      }
    }
    hide Less;
  }

  lemma HeadStays(x: string, s: seq<string>, rest: seq<string>)
    requires Descending(s) && s != [] && Less(x, s[0])
    requires Descending(rest) && multiset(rest) == multiset(s[1..]) + multiset{x}
    ensures Descending([s[0]] + rest) && multiset([s[0]] + rest) == multiset(s) + multiset{x}
  {
    LessTotal(x, s[0]);
    hide Less;
    assert s == [s[0]] + s[1..];
    forall j | 0 <= j < |rest|
      ensures !Less(s[0], rest[j])
    {
      assert rest[j] in multiset(rest);
      assert rest[j] == x || rest[j] in s[1..];
    }
  }

  function Insert(x: string, s: seq<string>): (r: seq<string>)
    requires Descending(s)
    ensures Descending(r) && multiset(r) == multiset(s) + multiset{x}
  {
    if s == [] || !Less(x, s[0]) then
      HeadFirst(x, s);
      [x] + s
    else
      var rest := Insert(x, s[1..]);
      HeadStays(x, s, rest);
      [s[0]] + rest
  }

  function SortDescending(s: seq<string>): (r: seq<string>)
    ensures Descending(r) && multiset(r) == multiset(s)
  {
    if s == [] then []
    else
      assert s == s[..|s| - 1] + [s[|s| - 1]];
      Insert(s[|s| - 1], SortDescending(s[..|s| - 1]))
  }

  lemma NoneAboveHead(s: seq<string>, x: string)
    requires Descending(s) && x in multiset(s)
    ensures s != [] && !Less(s[0], x)
  {
    var i :| 0 <= i < |s| && s[i] == x;
    LessTotal(x, x);
  }

  /** A multiset of strings has only one descending arrangement. */
  lemma {:induction false} DescendingUnique(s: seq<string>, t: seq<string>)
    requires Descending(s) && Descending(t) && multiset(s) == multiset(t)
    ensures s == t
  {
    assert |multiset(s)| == |s| == |t|;
    if s != [] {
      assert s[0] in multiset(s);
      NoneAboveHead(t, s[0]);
      assert t[0] in multiset(t);
      NoneAboveHead(s, t[0]);
      LessTotal(s[0], t[0]);
      assert s == [s[0]] + s[1..] && t == [t[0]] + t[1..];
      assert multiset(s[1..]) == multiset(s) - multiset{s[0]};
      assert multiset(t[1..]) == multiset(t) - multiset{s[0]};
      DescendingUnique(s[1..], t[1..]);
    }
  }

  function Millis(rows: seq<Record>): (ms: seq<int>)
    ensures |ms| == |rows|
  {
    seq(|rows|, i requires 0 <= i < |rows| => UnixMilli(rows[i].updatedAt))
  }

  function Printed(ms: seq<int>): (stamps: seq<string>)
    ensures |stamps| == |ms|
    ensures forall i :: 0 <= i < |ms| ==> stamps[i] == Decimal.PrintInt(ms[i])
  {
    if ms == [] then [] else Printed(ms[..|ms| - 1]) + [Decimal.PrintInt(ms[|ms| - 1])]
  }

  function JoinAll(parts: seq<string>): string {
    if parts == [] then "" else Join(parts, ',')
  }

  function Payload(rows: seq<Record>): string {
    JoinAll(SortDescending(Printed(Millis(rows))))
  }

  lemma {:induction false} PrintedCount(ms: seq<int>, n: int)
    ensures multiset(Printed(ms))[Decimal.PrintInt(n)] == multiset(ms)[n]
  {
    if ms != [] {
      var last := ms[|ms| - 1];
      assert ms == ms[..|ms| - 1] + [last];
      PrintedCount(ms[..|ms| - 1], n);
      if Decimal.PrintInt(last) == Decimal.PrintInt(n) {
        Decimal.PrintIntInjective(last, n);
      }
    }
  }

  lemma StampCount(ms: seq<int>, ns: seq<int>, x: string)
    requires multiset(ms) == multiset(ns)
    ensures multiset(Printed(ms))[x] <= multiset(Printed(ns))[x]
  {
    if x in Printed(ms) {
      var i :| 0 <= i < |Printed(ms)| && Printed(ms)[i] == x;
      PrintedCount(ms, ms[i]);
      PrintedCount(ns, ms[i]);
    }
  }

  lemma PrintedForgetsOrder(ms: seq<int>, ns: seq<int>)
    requires multiset(ms) == multiset(ns)
    ensures multiset(Printed(ms)) == multiset(Printed(ns))
  {
    forall x: string
      ensures multiset(Printed(ms))[x] == multiset(Printed(ns))[x]
    {
      StampCount(ms, ns, x);
      StampCount(ns, ms, x);
    }
  }

  lemma PrintedKeepsValues(ms: seq<int>, ns: seq<int>)
    requires multiset(Printed(ms)) == multiset(Printed(ns))
    ensures multiset(ms) == multiset(ns)
  {
    forall n: int
      ensures multiset(ms)[n] == multiset(ns)[n]
    {
      PrintedCount(ms, n);
      PrintedCount(ns, n);
    }
  }

  lemma PrintedIsCommaFree(n: int)
    ensures Free(Decimal.PrintInt(n), ',') && Decimal.PrintInt(n) != ""
  {
    var digits := Decimal.PrintNat(Abs(n));
    assert forall i :: 0 <= i < |digits| ==> Decimal.IsDigit(digits[i]);
  }

  lemma JoinAllInjective(s: seq<string>, t: seq<string>)
    requires AllFree(s, ',') && AllFree(t, ',')
    requires (forall i :: 0 <= i < |s| ==> s[i] != "") && (forall i :: 0 <= i < |t| ==> t[i] != "")
    ensures JoinAll(s) == JoinAll(t) <==> s == t
  {
    if s != [] {
      SplitJoin(s, ',');
    }
    if t != [] {
      SplitJoin(t, ',');
    }
    assert Split("", ',') == [""];
  }

  lemma SortedStampsArePlain(rows: seq<Record>)
    ensures var s := SortDescending(Printed(Millis(rows)));
            AllFree(s, ',') && forall i :: 0 <= i < |s| ==> s[i] != ""
  {
    var printed := Printed(Millis(rows));
    var s := SortDescending(printed);
    forall i | 0 <= i < |s|
      ensures Free(s[i], ',') && s[i] != ""
    {
      assert s[i] in multiset(printed);
      var k :| 0 <= k < |printed| && printed[k] == s[i];
      PrintedIsCommaFree(Millis(rows)[k]);
    }
  }

  /** The signed string is canonical and injective: it depends on, and determines, exactly the
      multiset of millisecond timestamps. */
  lemma PayloadIsCanonical(a: seq<Record>, b: seq<Record>)
    ensures Payload(a) == Payload(b) <==> multiset(Millis(a)) == multiset(Millis(b))
  {
    var s, t := SortDescending(Printed(Millis(a))), SortDescending(Printed(Millis(b)));
    SortedStampsArePlain(a);
    SortedStampsArePlain(b);
    JoinAllInjective(s, t);
    if multiset(Millis(a)) == multiset(Millis(b)) {
      PrintedForgetsOrder(Millis(a), Millis(b));
      DescendingUnique(s, t);
    } else if s == t {
      PrintedKeepsValues(Millis(a), Millis(b));
    }
  }

  /** What is signed: nothing for no rows, and otherwise, between commas and from the greatest string down, the
      decimal number of the millisecond each row was updated in. */
  lemma PayloadText(rows: seq<Record>) returns (numbers: seq<int>, stamps: seq<string>)
    ensures |numbers| == |stamps| == |rows|
    ensures forall i :: 0 <= i < |rows| ==>
              && numbers[i] * MILLISECOND <= rows[i].updatedAt < (numbers[i] + 1) * MILLISECOND
              && stamps[i] == Decimal.PrintInt(numbers[i])
    ensures rows == [] ==> Payload(rows) == ""
    ensures rows != [] ==>
              Descending(Split(Payload(rows), ',')) && multiset(Split(Payload(rows), ',')) == multiset(stamps)
  {
    numbers, stamps := Millis(rows), Printed(Millis(rows));
    forall i | 0 <= i < |rows|
      ensures numbers[i] * MILLISECOND <= rows[i].updatedAt < (numbers[i] + 1) * MILLISECOND
    {
      MillisecondOf(rows[i].updatedAt);
    }
    var sorted := SortDescending(stamps);
    assert |multiset(sorted)| == |sorted| && |multiset(stamps)| == |stamps|;
    SortedStampsArePlain(rows);
    if rows != [] {
      SplitJoin(sorted, ',');
    }
  }

  lemma {:induction false} LessAppend(s: string, t: string, c: char, d: char)
    requires |s| == |t|
    ensures Less(s + [c], t + [d]) <==> Less(s, t) || (s == t && c < d)
  {
    var s', t' := s + [c], t + [d];
    if s == "" {
      assert s'[1..] == "" && t'[1..] == "";
    } else {
      assert s'[1..] == s[1..] + [c] && t'[1..] == t[1..] + [d];
      LessAppend(s[1..], t[1..], c, d);
      assert s == [s[0]] + s[1..] && t == [t[0]] + t[1..];
    }
  }

  /** For numbers printed with equally many digits the order of strings is the order of numbers. */
  lemma {:induction false} StringOrderIsNumeric(m: nat, n: nat)
    requires |Decimal.PrintNat(m)| == |Decimal.PrintNat(n)|
    ensures Less(Decimal.PrintNat(m), Decimal.PrintNat(n)) <==> m < n
  {
    var c, d := (m % 10 + 48) as char, (n % 10 + 48) as char;
    if m < 10 {
      assert n < 10;
      LessAppend("", "", c, d);
      assert "" + [c] == [c] && "" + [d] == [d];
    } else {
      assert n >= 10;
      StringOrderIsNumeric(m / 10, n / 10);
      LessAppend(Decimal.PrintNat(m / 10), Decimal.PrintNat(n / 10), c, d);
      if Decimal.PrintNat(m / 10) == Decimal.PrintNat(n / 10) {
        Decimal.ParsePrintNat(m / 10);
        Decimal.ParsePrintNat(n / 10);
      }
    }
  }
}
