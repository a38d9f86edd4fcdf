/** What both versions of the sync service share: the query a request asks, the integrity
    signature, the compaction of the retrieved items and the next sync token. */
module Sync {
  import opened Times
  import opened Database
  import Token
  import Signature

  datatype Params = Params(computeIntegrity: bool, limit: int, syncToken: string, cursorToken: string,
                           contentType: string)

  /** A token that names no instant stands for the current time. */
  function Since(token: string, now: Time): Time {
    var reading := Token.TimeFromToken(token);
    if reading.At? then reading.t else now
  }

  /** The token that decides the query does not crash its reader. */
  predicate Readable(p: Params) {
    if p.cursorToken != "" then !Token.TimeFromToken(p.cursorToken).Panics?
    else p.syncToken != "" ==> !Token.TimeFromToken(p.syncToken).Panics?
  }

  function QueryOf(userID: string, p: Params, now: Time): Query {
    if p.cursorToken != "" then Query(userID, p.contentType, Since(p.cursorToken, now), false, false)
    else if p.syncToken != "" then Query(userID, p.contentType, Since(p.syncToken, now), true, false)
    else Query(userID, p.contentType, ZERO_TIME, false, true)
  }

  /** The first sync of a client is not limited. */
  function LimitOf(p: Params): int {
    if p.syncToken == "" then 0 else p.limit
  }

  /** A request is answered unless its token crashes the reader or its limit the cut of the page. */
  predicate Answerable(p: Params) {
    Readable(p) && LimitOf(p) >= 0
  }

  /** The retrieved rows whose id is not to be deleted, in their order. */
  function Without(page: seq<Record>, drop: set<string>): (kept: seq<Record>)
    ensures |kept| <= |page|
    ensures forall r :: r in kept <==> r in page && r.id !in drop
  {
    if page == [] then []
    else
      var rest := Without(page[..|page| - 1], drop);
      var last := page[|page| - 1];
      assert page == page[..|page| - 1] + [last];
      if last.id in drop then rest else rest + [last]
  }

  lemma {:induction false} WithoutDistinct(page: seq<Record>, drop: set<string>)
    requires DistinctIds(page)
    ensures DistinctIds(Without(page, drop))
  {
    if page != [] {
      var last := page[|page| - 1];
      var rest := Without(page[..|page| - 1], drop);
      WithoutDistinct(page[..|page| - 1], drop);
      forall i | 0 <= i < |rest|
        ensures rest[i].id != last.id
      {
        assert rest[i] in page[..|page| - 1];
      }
    }
  }

  lemma WithoutStep(page: seq<Record>, i: nat, drop: set<string>)
    requires i < |page|
    ensures var kept := Without(page[..i], drop);
            Without(page[..i + 1], drop) == if page[i].id in drop then kept else kept + [page[i]]
  {
    assert page[..i + 1][..i] == page[..i];
  }

  /** `kept` is what compaction leaves of the page. */
  ghost predicate Filtered(page: seq<Record>, drop: set<string>, kept: seq<Record>) {
    kept == Without(page, drop)
  }

  lemma NothingFiltered(page: seq<Record>, drop: set<string>)
    ensures Filtered(page[..0], drop, [])
  {
    assert page[..0] == [];
  }

  lemma FilteredStep(page: seq<Record>, drop: set<string>, i: nat, kept: seq<Record>)
    requires i < |page| && Filtered(page[..i], drop, kept)
    ensures Filtered(page[..i + 1], drop, if page[i].id in drop then kept else kept + [page[i]])
  {
    WithoutStep(page, i, drop);
  }

  lemma FilteredAll(page: seq<Record>, drop: set<string>, kept: seq<Record>)
    requires Filtered(page[..|page|], drop, kept)
    ensures kept == Without(page, drop)
  {
    assert page[..|page|] == page;
  }

  /** Filters the buffer in place and returns how many rows are kept. The buffer stays shared with
      the retrieved page, whose last slot keeps its row. */
  method Compact(buffer: array<Record>, drop: set<string>) returns (kept: nat)
    modifies buffer
    ensures kept <= buffer.Length
    ensures buffer[..kept] == Without(old(buffer[..]), drop)
    ensures buffer.Length > 0 ==> buffer[buffer.Length - 1] == old(buffer[buffer.Length - 1])
  {
    hide *;
    ghost var page := buffer[..];
    NothingFiltered(page, drop);
    kept := 0;
    for i := 0 to buffer.Length
      invariant kept <= i
      invariant Filtered(page[..i], drop, buffer[..kept])
      invariant buffer[i..] == page[i..]
      invariant i == buffer.Length > 0 ==> buffer[i - 1] == page[i - 1]
    {
      var row := buffer[i];
      FilteredStep(page, drop, i, buffer[..kept]);
      assert row == buffer[i..][0] == page[i..][0] == page[i];
      assert buffer[i + 1..] == buffer[i..][1..] == page[i..][1..] == page[i + 1..];
      if row.id !in drop {
        ghost var before := buffer[..kept];
        buffer[kept] := row;
        kept := kept + 1;
        assert buffer[..kept] == before + [row];
      }
    }
    FilteredAll(page, drop, buffer[..kept]);
  }

  /** What becomes of one incoming item. */
  datatype Outcome =
    | Saved(item: Record)
    | SyncConflict(server: Record)
    | FindFailed(unsaved: Record)
    | SaveFailed(unsaved: Record)

  /** The incoming item as it is handed to the database. */
  function Prepared(userID: string, r: Record): Record {
    var owned := r.(userID := userID);
    if r.deleted then owned.(content := "", encryptedItemKey := "") else owned
  }

  /** The table after the saved items have been written in order. */
  function Written(table: Table, outs: seq<Outcome>): Table {
    if outs == [] then table
    else
      var before := Written(table, outs[..|outs| - 1]);
      var last := outs[|outs| - 1];
      if last.Saved? then before[last.item.id := last.item] else before
  }

  function SavedOf(outs: seq<Outcome>): seq<Record> {
    if outs == [] then []
    else
      var last := outs[|outs| - 1];
      SavedOf(outs[..|outs| - 1]) + if last.Saved? then [last.item] else []
  }

  /** The items that were saved, in order. */
  function SavedItems(items: seq<Item>, outs: seq<Outcome>): seq<Item>
    requires |items| == |outs|
  {
    if outs == [] then []
    else
      var n := |outs| - 1;
      SavedItems(items[..n], outs[..n]) + if outs[n].Saved? then [items[n]] else []
  }

  /** What an item looks like once its outcome is known. */
  ghost predicate Reflects(item: Item, o: Outcome)
    reads item
  {
    match o
    case Saved(r) => item.Value() == r
    case SyncConflict(_) => true
    case FindFailed(r) => item.Value() == r
    case SaveFailed(r) => item.Value() == r
  }

  ghost predicate AllReflect(items: seq<Item>, outs: seq<Outcome>)
    reads items
  {
    |items| == |outs| && forall k :: 0 <= k < |items| ==> Reflects(items[k], outs[k])
  }

  lemma OneMoreReflects(items: seq<Item>, outs: seq<Outcome>, last: Outcome)
    requires |outs| < |items|
    requires AllReflect(items[..|outs|], outs) && Reflects(items[|outs|], last)
    ensures AllReflect(items[..|outs| + 1], outs + [last])
  {
    assert items[..|outs| + 1] == items[..|outs|] + [items[|outs|]];
  }

  function Ids(records: seq<Record>): set<string> {
    set r | r in records :: r.id
  }

  /** The events of a request happen between two instants. */
  ghost predicate Within(evs: seq<Event>, from: Time, to: Time) {
    from <= to && forall i :: 0 <= i < |evs| ==> from <= evs[i].now <= to && evs[i].uuid != ""
  }

  lemma OneMoreWithin(evs: seq<Event>, ev: Event, from: Time, to: Time)
    requires Within(evs, from, to) && to <= ev.now && ev.uuid != ""
    ensures Within(evs + [ev], from, ev.now)
  {
  }

  lemma WithinLater(evs: seq<Event>, from: Time, to: Time, later: Time)
    requires Within(evs, from, to) && to <= later
    ensures Within(evs, from, later)
  {
  }

  /** The saved items of the answer hold the values the specification says. */
  lemma {:induction false} SavedValues(items: seq<Item>, outs: seq<Outcome>)
    requires AllReflect(items, outs)
    ensures Values(SavedItems(items, outs)) == SavedOf(outs)
  {
    if outs != [] {
      var n := |outs| - 1;
      SavedValues(items[..n], outs[..n]);
      if outs[n].Saved? {
        assert SavedItems(items, outs)[..|SavedItems(items, outs)| - 1] == SavedItems(items[..n], outs[..n]);
      }
    }
  }

  lemma PageIsFull(table: Table, q: Query, limit: int, page: seq<Record>)
    requires IsPage(table, q, limit, page, true)
    ensures |page| == limit > 0
  {
  }

  /** The latest time a list of items was updated, or the zero instant. */
  function LastUpdated(saved: seq<Record>): (t: Time)
    ensures forall r :: r in saved ==> r.updatedAt <= t
    ensures t == ZERO_TIME || exists r :: r in saved && r.updatedAt == t
  {
    if saved == [] then ZERO_TIME
    else
      var before := LastUpdated(saved[..|saved| - 1]);
      var last := saved[|saved| - 1];
      assert saved == saved[..|saved| - 1] + [last];
      assert last in saved;
      if last.updatedAt > before then last.updatedAt else before
  }

  lemma LastUpdatedStep(saved: seq<Record>, i: nat)
    requires i < |saved|
    ensures var before := LastUpdated(saved[..i]);
            LastUpdated(saved[..i + 1]) == if saved[i].updatedAt > before then saved[i].updatedAt else before
  {
    assert saved[..i + 1][..i] == saved[..i];
  }

  /** The instant the next sync asks from, before it is encoded. */
  function NextSync(saved: seq<Record>, now: Time): Time {
    var last := LastUpdated(saved);
    (if last == ZERO_TIME then now else last) + MICROSECOND
  }

  lemma Cancel<T>(m: multiset<T>, n: multiset<T>, x: T)
    requires m + multiset{x} == n + multiset{x}
    ensures m == n
  {
    assert m == (m + multiset{x}) - multiset{x};
  }

  lemma MillisWithoutOne(rows: seq<Record>, k: nat, rest: seq<Record>)
    requires k < |rows| && rest == rows[..k] + rows[k + 1..]
    ensures multiset(rows) == multiset(rest) + multiset{rows[k]}
    ensures multiset(Signature.Millis(rows))
            == multiset(Signature.Millis(rest)) + multiset{UnixMilli(rows[k].updatedAt)}
  {
    var ms := Signature.Millis(rows);
    assert rows == rows[..k] + [rows[k]] + rows[k + 1..];
    assert ms == ms[..k] + [ms[k]] + ms[k + 1..];
    assert Signature.Millis(rest) == ms[..k] + ms[k + 1..];
  }

  /** The signature does not depend on the order the rows came in. */
  lemma {:induction false} MillisForgetOrder(a: seq<Record>, b: seq<Record>)
    requires multiset(a) == multiset(b)
    ensures multiset(Signature.Millis(a)) == multiset(Signature.Millis(b))
    decreases |a|
  {
    assert |multiset(a)| == |a| == |b|;
    if a != [] {
      assert a[0] in multiset(b);
      var k :| 0 <= k < |b| && b[k] == a[0];
      var a', b' := a[..0] + a[1..], b[..k] + b[k + 1..];
      hide *;
      MillisWithoutOne(a, 0, a');
      MillisWithoutOne(b, k, b');
      Cancel(multiset(a'), multiset(b'), a[0]);
      MillisForgetOrder(a', b');
    }
  }

  /** The signature hashes the payload of the rows, in whatever order they are listed. */
  ghost predicate Signs(sha256: string -> string, rows: set<Record>, signature: string) {
    forall listed :: multiset(listed) == multiset(rows) ==> signature == sha256(Signature.Payload(listed))
  }

  lemma SomeListing(rows: set<Record>) returns (listed: seq<Record>)
    ensures multiset(listed) == multiset(rows)
  {
    listed := [];
    var pending := rows;
    while pending != {}
      invariant pending <= rows && multiset(listed) + multiset(pending) == multiset(rows)
      decreases pending
    {
      var r :| r in pending;
      listed, pending := listed + [r], pending - {r};
    }
  }

  /** What a matching signature tells: given a hash without collisions, a signature of some rows also signs other
      rows if and only if both have the same millisecond timestamps, as often each. */
  lemma SignsBothIff(sha256: string -> string, a: set<Record>, b: set<Record>, signature: string)
    requires forall s, t :: sha256(s) == sha256(t) ==> s == t
    requires Signs(sha256, a, signature)
    ensures Signs(sha256, b, signature)
            <==> forall x, y :: multiset(x) == multiset(a) && multiset(y) == multiset(b)
                                ==> multiset(Signature.Millis(x)) == multiset(Signature.Millis(y))
  {
    hide Signature.Payload, Signature.Millis;
    var m := SomeListing(a);
    var n := SomeListing(b);
    Signature.PayloadIsCanonical(m, n);
    if Signs(sha256, b, signature) {
      forall x, y | multiset(x) == multiset(a) && multiset(y) == multiset(b)
        ensures multiset(Signature.Millis(x)) == multiset(Signature.Millis(y))
      {
        Signature.PayloadIsCanonical(x, y);
      }
    } else {
      var y :| multiset(y) == multiset(b) && signature != sha256(Signature.Payload(y));
      Signature.PayloadIsCanonical(m, y);
    }
  }

  class SyncServiceBase {
    const db: Client
    const userID: string
    const items: seq<Item>
    const sha256: string -> string
    var params: Params

    constructor (db: Client, userID: string, items: seq<Item>, params: Params, sha256: string -> string)
      ensures this.db == db && this.userID == userID && this.items == items
      ensures this.params == params && this.sha256 == sha256
    {
      this.db, this.userID, this.items := db, userID, items;
      this.params, this.sha256 := params, sha256;
    }

    /** The query of the request. It crashes exactly when the request is not answerable. */
    method Get() returns (crashed: bool, page: array<Record>, overLimit: bool, ghost now: Time)
      requires db.Valid()
      modifies this`params, db`clock
      ensures db.Valid() && old(db.clock) <= now == db.clock
      ensures params == old(params).(limit := if old(params).syncToken == "" then 0 else old(params).limit)
      ensures params.limit == LimitOf(old(params))
      ensures crashed <==> !Answerable(old(params))
      ensures fresh(page)
      ensures !crashed ==> IsPage(db.items, QueryOf(userID, old(params), now), params.limit, page[..], overLimit)
    {
      if params.syncToken == "" {
        params := params.(limit := 0);
      }
      var updated, strict, noDeleted := ZERO_TIME, false, false;
      var clock := db.clock;
      if !Readable(params) {
        page := new Record[0];
        return true, page, false, clock;
      }
      if params.cursorToken != "" {
        db.clock := Later(db.clock);
        clock := db.clock;
        updated := Since(params.cursorToken, clock);
      } else if params.syncToken != "" {
        db.clock := Later(db.clock);
        clock := db.clock;
        updated := Since(params.syncToken, clock);
        strict := true;
      } else {
        noDeleted := true;
      }
      now := clock;
      var query := Query(userID, params.contentType, updated, strict, noDeleted);
      crashed, page, overLimit := db.FindItemsByParams(query, params.limit);
    }

    /** The hash covers the live items of the user, in whatever order the database lists them. */
    method ComputeDataSignature() returns (signature: string)
      ensures Signs(sha256, LiveRows(db.items, userID), signature)
    {
      var rows := db.FindItemsForIntegrityCheck(userID);
      var timestamps: seq<string> := [];
      for i := 0 to |rows|
        invariant timestamps == Signature.Printed(Signature.Millis(rows[..i]))
      {
        timestamps := timestamps + [Signature.Decimal.PrintInt(UnixMilli(rows[i].updatedAt))];
        assert Signature.Millis(rows[..i + 1])[..i] == Signature.Millis(rows[..i]);
      }
      assert rows[..|rows|] == rows;
      timestamps := Signature.SortDescending(timestamps);
      signature := sha256(Signature.JoinAll(timestamps));
      forall other | multiset(other) == multiset(LiveRows(db.items, userID))
        ensures signature == sha256(Signature.Payload(other))
      {
        MillisForgetOrder(rows, other);
        Signature.PayloadIsCanonical(rows, other);
      }
    }

    /** The signature when the client asks for it. */
    method IntegrityHash() returns (hash: string)
      ensures if params.computeIntegrity then Signs(sha256, LiveRows(db.items, userID), hash) else hash == ""
    {
      hash := "";
      if params.computeIntegrity {
        hash := ComputeDataSignature();
      }
    }

    method PrepareDelete(item: Item)
      modifies item`content, item`encryptedItemKey
      ensures item.Value() == old(item.Value()).(content := "", encryptedItemKey := "")
    {
      item.content := "";
      item.encryptedItemKey := "";
    }

    method LatestUpdate(saved: seq<Item>) returns (lastUpdated: Time)
      ensures lastUpdated == LastUpdated(Values(saved))
    {
      ghost var values := Values(saved);
      lastUpdated := ZERO_TIME;
      for i := 0 to |saved|
        invariant lastUpdated == LastUpdated(values[..i])
      {
        LastUpdatedStep(values, i);
        if saved[i].updatedAt > lastUpdated {
          lastUpdated := saved[i].updatedAt;
        }
      }
      assert values[..|saved|] == values;
    }

    /** The token of the answer: one microsecond past the last saved item, or past the present. */
    method NextToken(saved: seq<Item>) returns (token: string, ghost now: Time)
      requires db.Valid()
      modifies db`clock
      ensures db.Valid()
      ensures old(db.clock) <= now == db.clock
      ensures token == Token.TokenFromTime(NextSync(Values(saved), now))
    {
      hide Token.TokenFromTime, LastUpdated, Values;
      var lastUpdated := LatestUpdate(saved);
      ghost var values := Values(saved);
      now := db.clock;
      if lastUpdated == ZERO_TIME {
        db.clock := Later(db.clock);
        lastUpdated := db.clock;
        now := lastUpdated;
      }
      assert Values(saved) == values;
      assert NextSync(values, now) == lastUpdated + MICROSECOND;
      token := Token.TokenFromTime(lastUpdated + MICROSECOND);
    }
  }
}
