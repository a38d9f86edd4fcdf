/** The item table: what the Storm client promises its callers, over a map from id to record.
    The clock and the faults of the database are read by the methods below and reported to the
    specification as an `Event`. */
module Database {
  import opened Basics
  import opened Times

  /** The value of an item: a row of the table, or an item as it is sent or answered. */
  datatype Record = Record(
    id: string,
    createdAt: Time,
    updatedAt: Time,
    userID: string,
    itemsKeyID: string,
    content: string,
    contentType: string,
    encryptedItemKey: string,
    deleted: bool)

  /** An item of a request, which the services and `Save` update in place. */
  class Item {
    var id: string
    var createdAt: Time
    var updatedAt: Time
    var userID: string
    var itemsKeyID: string
    var content: string
    var contentType: string
    var encryptedItemKey: string
    var deleted: bool

    function Value(): Record
      reads this
    {
      Record(id, createdAt, updatedAt, userID, itemsKeyID, content, contentType, encryptedItemKey, deleted)
    }
  }

  function Values(items: seq<Item>): (records: seq<Record>)
    reads items
    ensures |records| == |items|
    ensures forall i :: 0 <= i < |items| ==> records[i] == items[i].Value()
  {
    if items == [] then [] else Values(items[..|items| - 1]) + [items[|items| - 1].Value()]
  }

  type Table = map<string, Record>

  ghost predicate Stored(table: Table, r: Record) {
    r.id in table && table[r.id] == r
  }

  /** Rows are stored under their own id, which is never empty. */
  ghost predicate WellKeyed(table: Table) {
    "" !in table && forall id :: id in table ==> table[id].id == id
  }

  ghost predicate NoneAfter(table: Table, t: Time) {
    forall id :: id in table ==> table[id].updatedAt <= t
  }

  /** What the outside world decides while one item is saved: the instant the clock gives, the
      identifier drawn for an item without one, and which of the two statements fails. */
  datatype Event = Event(now: Time, uuid: string, findFails: bool, saveFails: bool)

  /** The value an item has when `Save` hands it to Storm. */
  function Stamped(r: Record, ev: Event): Record {
    if r.id == "" then r.(updatedAt := ev.now, id := ev.uuid, createdAt := ev.now)
    else r.(updatedAt := ev.now)
  }

  datatype Lookup = Found(row: Record) | NotFound | Failed

  /** Owner and id both have to match. */
  function Find(table: Table, id: string, userID: string): Lookup {
    if id in table && table[id].userID == userID then Found(table[id]) else NotFound
  }

  datatype Query = Query(userID: string, contentType: string, updated: Time, strict: bool, noDeleted: bool)

  predicate Matches(q: Query, r: Record) {
    && r.userID == q.userID
    && (q.updated != ZERO_TIME ==> if q.strict then r.updatedAt > q.updated else r.updatedAt >= q.updated)
    && (q.contentType != "" ==> r.contentType == q.contentType)
    && (q.noDeleted ==> !r.deleted)
  }

  function Matching(table: Table, q: Query): set<Record> {
    set r | r in table.Values && Matches(q, r)
  }

  ghost predicate NewestFirst(page: seq<Record>) {
    forall i, j :: 0 <= i < j < |page| ==> page[i].updatedAt >= page[j].updatedAt
  }

  ghost predicate DistinctIds(records: seq<Record>) {
    forall i, j :: 0 <= i < j < |records| ==> records[i].id != records[j].id
  }

  /** The answer a query may get: rows of equal age come in any order. */
  ghost predicate IsPage(table: Table, q: Query, limit: int, page: seq<Record>, overLimit: bool) {
    && 0 <= limit
    && NewestFirst(page)
    && DistinctIds(page)
    && (forall r :: r in page ==> Stored(table, r) && Matches(q, r))
    && (forall r, p :: Stored(table, r) && Matches(q, r) && r !in page && p in page ==> r.updatedAt <= p.updatedAt)
    && (overLimit <==> limit > 0 && |Matching(table, q)| > limit)
    && (overLimit ==> |page| == limit)
    && (!overLimit ==> forall r :: Stored(table, r) && Matches(q, r) ==> r in page)
  }

  /** Where a row belongs in a page kept newest first. */
  function Position(r: Record, page: seq<Record>): (k: nat)
    requires NewestFirst(page)
    ensures k <= |page|
    ensures forall i :: 0 <= i < k ==> page[i].updatedAt > r.updatedAt
    ensures forall i :: k <= i < |page| ==> page[i].updatedAt <= r.updatedAt
  {
    if page == [] then 0
    else if page[|page| - 1].updatedAt > r.updatedAt then |page|
    else Position(r, page[..|page| - 1])
  }

  function Insert(r: Record, page: seq<Record>): (s: seq<Record>)
    requires NewestFirst(page)
    ensures NewestFirst(s)
    ensures |s| == |page| + 1
    ensures forall x :: x in s <==> x == r || x in page
  {
    var k := Position(r, page);
    page[..k] + [r] + page[k..]
  }

  lemma InsertDistinct(r: Record, page: seq<Record>)
    requires NewestFirst(page) && DistinctIds(page)
    requires forall i :: 0 <= i < |page| ==> page[i].id != r.id
    ensures DistinctIds(Insert(r, page))
  {
    var k := Position(r, page);
    var s := Insert(r, page);
    assert forall i :: 0 <= i < |s| ==> s[i] == if i < k then page[i] else if i == k then r else page[i - 1];
  }

  lemma CutRowsAreOlder(rows: seq<Record>, limit: nat, r: Record, p: Record)
    requires NewestFirst(rows) && limit <= |rows|
    requires r in rows && r !in rows[..limit] && p in rows[..limit]
    ensures r.updatedAt <= p.updatedAt
  {
    forall k | 0 <= k < limit
      ensures rows[k] in rows[..limit]
    {
      assert rows[..limit][k] == rows[k];
    }
    var i :| 0 <= i < |rows| && rows[i] == r;
    var j :| 0 <= j < limit && rows[..limit][j] == p;
  }

  ghost predicate Lists(rows: seq<Record>, table: Table, q: Query) {
    && NewestFirst(rows) && DistinctIds(rows)
    && |rows| == |Matching(table, q)|
    && forall r :: r in rows <==> Stored(table, r) && Matches(q, r)
  }

  lemma CutOverLimit(table: Table, q: Query, limit: nat, rows: seq<Record>)
    requires Lists(rows, table, q) && 0 < limit < |rows|
    ensures IsPage(table, q, limit, rows[..limit], true)
  {
    hide Matches, Stored, Matching;
    var page := rows[..limit];
    forall r, p | r in rows && r !in page && p in page
      ensures r.updatedAt <= p.updatedAt
    {
      CutRowsAreOlder(rows, limit, r, p);
    }
  }

  /** Cutting the complete answer after `limit` rows gives a page, and asking for one row more than
      the limit tells whether rows were left out. */
  lemma CutIsPage(table: Table, q: Query, limit: nat, rows: seq<Record>)
    requires Lists(rows, table, q)
    ensures var probe := if limit > 0 then rows[..Min(limit + 1, |rows|)] else rows;
            var overLimit := limit != 0 && |probe| > limit;
            IsPage(table, q, limit, if overLimit then probe[..limit] else probe, overLimit)
  {
    hide Matches, Stored;
    if limit != 0 && |rows| > limit {
      assert rows[..limit + 1][..limit] == rows[..limit];
      CutOverLimit(table, q, limit, rows);
    } else if limit > 0 {
      assert rows[..Min(limit + 1, |rows|)] == rows;
    }
  }

  lemma {:induction false} ValuesOfDistinct(rows: seq<Record>, all: set<Record>)
    requires DistinctIds(rows) && forall r :: r in rows ==> r in all
    ensures |rows| <= |all|
  {
    if rows != [] {
      var last, before := rows[|rows| - 1], rows[..|rows| - 1];
      assert last in rows;
      forall r | r in before
        ensures r in all - {last}
      {
        var i :| 0 <= i < |before| && before[i] == r;
        assert rows[i] == r && r in rows;
      }
      ValuesOfDistinct(before, all - {last});
    }
  }

  /** A page is no longer than the whole match, and no longer than a positive limit. */
  lemma PageFits(table: Table, q: Query, limit: int, page: seq<Record>, overLimit: bool)
    requires IsPage(table, q, limit, page, overLimit)
    ensures |page| <= |Matching(table, q)|
    ensures limit > 0 ==> |page| <= limit
  {
    hide Matches;
    forall r | r in page
      ensures r in Matching(table, q)
    {
      assert Stored(table, r) && Matches(q, r);
    }
    ValuesOfDistinct(page, Matching(table, q));
  }

  lemma MatchingIsStored(table: Table, q: Query, r: Record)
    requires WellKeyed(table)
    ensures r in Matching(table, q) <==> Stored(table, r) && Matches(q, r)
  {
    hide Matches;
    if r in Matching(table, q) {
      var id :| id in table && table[id] == r;
    }
  }

  class Client {
    var items: Table
    var clock: Time

    ghost predicate Valid()
      reads this
    {
      WellKeyed(items) && NoneAfter(items, clock)
    }

    constructor (start: Time)
      ensures Valid() && items == map[] && clock == start
    {
      items := map[];
      clock := start;
    }

    /** Inserts or updates the row of `m`; `m` is stamped even when the statement fails. */
    method Save(m: Item) returns (ok: bool, ghost ev: Event)
      requires Valid()
      modifies this, m
      ensures Valid()
      ensures clock == ev.now >= old(clock) && ev.uuid != "" && !ev.findFails && ev.saveFails == !ok
      ensures m.Value() == Stamped(old(m.Value()), ev)
      ensures items == if ok then old(items)[m.id := m.Value()] else old(items)
    {
      clock := Later(clock);
      var t := clock;
      m.updatedAt := t;
      assert "0" != "";
      var uuid: string :| uuid != "";
      if m.id == "" {
        m.id := uuid;
        m.createdAt := t;
      }
      ok := *;
      if ok {
        items := items[m.id := m.Value()];
      }
      ev := Event(t, uuid, false, !ok);
    }

    method FindItemByUserID(id: string, userID: string) returns (found: Lookup)
      ensures found == Failed || found == Find(items, id, userID)
    {
      var fails: bool := *;
      found := if fails then Failed else Find(items, id, userID);
    }

    /** The rows that match, newest first, cut to `limit` when it is positive. One row more than
        the limit is asked for, and having got it is what `overLimit` reports. Every answer is
        longer than a negative limit, and cutting it there crashes. */
    method FindItemsByParams(q: Query, limit: int) returns (crashed: bool, page: array<Record>, overLimit: bool)
      requires Valid()
      ensures crashed <==> limit < 0
      ensures fresh(page)
      ensures !crashed ==> IsPage(items, q, limit, page[..], overLimit)
    {
      var pending := Matching(items, q);
      var rows: seq<Record> := [];
      while pending != {}
        invariant pending <= Matching(items, q)
        invariant NewestFirst(rows) && DistinctIds(rows)
        invariant forall r :: r in rows <==> r in Matching(items, q) && r !in pending
        invariant |rows| + |pending| == |Matching(items, q)|
        decreases pending
      {
        var r :| r in pending;
        forall i | 0 <= i < |rows|
          ensures rows[i].id != r.id
        {
          assert rows[i] in rows;
        }
        InsertDistinct(r, rows);
        rows, pending := Insert(r, rows), pending - {r};
      }
      forall r: Record
        ensures r in rows <==> Stored(items, r) && Matches(q, r)
      {
        MatchingIsStored(items, q, r);
      }
      if limit >= 0 {
        CutIsPage(items, q, limit, rows);
      }
      if limit > 0 {
        rows := rows[..Min(limit + 1, |rows|)];
      }
      crashed, overLimit := false, limit != 0 && |rows| > limit;
      if overLimit {
        if limit < 0 {
          page := new Record[0];
          return true, page, overLimit;
        }
        rows := rows[..limit];
      }
      page := new Record[|rows|](i requires 0 <= i < |rows| => rows[i]);
      assert page[..] == rows;
    }

    /** The rows the integrity signature covers, in no particular order. */
    method FindItemsForIntegrityCheck(userID: string) returns (rows: seq<Record>)
      ensures multiset(rows) == multiset(LiveRows(items, userID))
    {
      rows := [];
      var pending := LiveRows(items, userID);
      while pending != {}
        invariant pending <= LiveRows(items, userID)
        invariant multiset(rows) + multiset(pending) == multiset(LiveRows(items, userID))
        decreases pending
      {
        var r :| r in pending;
        rows, pending := rows + [r], pending - {r};
      }
    }
  }

  function LiveRows(table: Table, userID: string): set<Record> {
    set r | r in table.Values && r.userID == userID && !r.deleted
  }
}
