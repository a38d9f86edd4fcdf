/** The sync service of API version 20161215: every incoming item is saved, and retrieved versions
    of the saved items are compared with them afterwards. */
module Sync20161215 {
  import opened Basics
  import opened Times
  import opened Database
  import opened Sync
  import Token

  const MIN_CONFLICT_INTERVAL: int := 20

  /** An entry of `unsaved`: an item that could not be saved, or a retrieved row in conflict. */
  datatype UnsavedItem = UnsavedItem(item: Item?, row: Option<Record>, tag: string)

  function Attempt(userID: string, r: Record, ev: Event): Outcome {
    var stamped := Stamped(Prepared(userID, r), ev);
    if ev.saveFails then SaveFailed(stamped) else Saved(stamped)
  }

  function Attempts(userID: string, records: seq<Record>, evs: seq<Event>): (outs: seq<Outcome>)
    requires |records| == |evs|
    ensures |outs| == |records|
    ensures forall k :: 0 <= k < |outs| ==> outs[k] == Attempt(userID, records[k], evs[k])
  {
    seq(|records|, k requires 0 <= k < |records| => Attempt(userID, records[k], evs[k]))
  }

  function FailedItems(items: seq<Item>, outs: seq<Outcome>): seq<UnsavedItem>
    requires |items| == |outs|
  {
    if outs == [] then []
    else
      var n := |outs| - 1;
      FailedItems(items[..n], outs[..n]) + if outs[n].Saved? then [] else [UnsavedItem(items[n], None, "")]
  }

  /** The saved items by id; of two with the same id the later one counts. */
  function ById(saved: seq<Record>): (m: Table)
    ensures m.Keys == Ids(saved)
    ensures forall id :: id in m ==> m[id] in saved && m[id].id == id
  {
    if saved == [] then map[]
    else
      var last := saved[|saved| - 1];
      assert saved == saved[..|saved| - 1] + [last];
      ById(saved[..|saved| - 1])[last.id := last]
  }

  /** Whether the saved item and the row it replaced were made too far apart to be one edit. */
  predicate TooFarApart(saved: Time, row: Time) {
    var diff := Seconds(Sub(saved, row));
    (if diff < 0.0 then -diff else diff) > MIN_CONFLICT_INTERVAL as real
  }

  /** The retrieved rows that were overwritten by this request. */
  function Overwritten(page: seq<Record>, saved: seq<Record>): set<Record> {
    set r | r in page && r.id in Ids(saved)
  }

  /** Those of them that are reported as conflicts. */
  function Conflicted(page: seq<Record>, saved: seq<Record>): set<Record> {
    set r | r in Overwritten(page, saved) && TooFarApart(ById(saved)[r.id].updatedAt, r.updatedAt)
  }

  function Reports(rows: set<Record>): set<UnsavedItem> {
    set r | r in rows :: UnsavedItem(null, Some(r), "sync_conflict")
  }

  datatype Request = Request(userID: string, params: Params, items: seq<Record>)

  /** An answer by value; of the unsaved entries it holds the conflicts, in no particular order. */
  datatype Answer = Answer(retrieved: seq<Record>, saved: seq<Record>, conflicts: set<Record>, syncToken: string,
                           cursorToken: string)

  ghost predicate Executes(table: Table, table': Table, req: Request, ans: Answer,
                           page: seq<Record>, asked: Time, evs: seq<Event>, now: Time)
  {
    && |evs| == |req.items|
    && Within(evs, asked, now)
    && var outs := Attempts(req.userID, req.items, evs);
       var limit := LimitOf(req.params);
       var overLimit := ans.cursorToken != "";
    && IsPage(table, QueryOf(req.userID, req.params, asked), limit, page, overLimit)
    && table' == Written(table, outs)
    && ans.saved == SavedOf(outs)
    && ans.conflicts == Conflicted(page, ans.saved)
    && ans.retrieved == Without(page, Ids(ans.saved))
    && ans.syncToken == Token.TokenFromTime(NextSync(ans.saved, now))
    && (overLimit ==> ans.cursorToken == Token.TokenFromTime(page[limit - 1].updatedAt))
  }

  lemma AttemptsStep(userID: string, records: seq<Record>, evs: seq<Event>, i: nat, ev: Event)
    requires i == |evs| < |records|
    ensures Attempts(userID, records[..i + 1], evs + [ev])
         == Attempts(userID, records[..i], evs) + [Attempt(userID, records[i], ev)]
  {
  }

  lemma NoneYet(table: Table, userID: string)
    ensures Attempts(userID, [], []) == [] && Written(table, []) == table
    ensures SavedItems([], []) == [] && FailedItems([], []) == []
  {
  }

  lemma OneMore(table: Table, items: seq<Item>, outs: seq<Outcome>, last: Outcome)
    requires |outs| < |items|
    ensures var n := |outs|;
            && Written(table, outs + [last])
               == (if last.Saved? then Written(table, outs)[last.item.id := last.item] else Written(table, outs))
            && SavedItems(items[..n + 1], outs + [last])
               == SavedItems(items[..n], outs) + (if last.Saved? then [items[n]] else [])
            && FailedItems(items[..n + 1], outs + [last])
               == FailedItems(items[..n], outs) + (if last.Saved? then [] else [UnsavedItem(items[n], None, "")])
  {
    assert (outs + [last])[..|outs|] == outs;
    assert items[..|outs| + 1][..|outs|] == items[..|outs|];
  }

  lemma ByIdStep(saved: seq<Record>, i: nat)
    requires i < |saved|
    ensures ById(saved[..i + 1]) == ById(saved[..i])[saved[i].id := saved[i]]
  {
    assert saved[..i + 1][..i] == saved[..i];
  }

  /** Filtering by the overwritten ids is filtering by the saved ids. */
  lemma {:induction false} WithoutOverwritten(page: seq<Record>, rows: seq<Record>, saved: seq<Record>)
    requires forall r :: r in rows ==> r in page
    ensures Without(rows, Ids(page) * Ids(saved)) == Without(rows, Ids(saved))
  {
    if rows != [] {
      var last := rows[|rows| - 1];
      assert rows == rows[..|rows| - 1] + [last];
      WithoutOverwritten(page, rows[..|rows| - 1], saved);
      assert last in page;
    }
  }

  lemma PageIsDistinct(table: Table, q: Query, limit: nat, page: seq<Record>, overLimit: bool)
    requires IsPage(table, q, limit, page, overLimit)
    ensures DistinctIds(page)
  {
  }

  lemma IsExecuted(table: Table, req: Request, page: seq<Record>, overLimit: bool,
                   asked: Time, evs: seq<Event>, now: Time, outs: seq<Outcome>, syncToken: string, cursorToken: string)
    requires |evs| == |req.items| && Within(evs, asked, now)
    requires outs == Attempts(req.userID, req.items, evs)
    requires IsPage(table, QueryOf(req.userID, req.params, asked), LimitOf(req.params), page, overLimit)
    requires syncToken == Token.TokenFromTime(NextSync(SavedOf(outs), now))
    requires var limit := LimitOf(req.params);
             if overLimit then |page| >= limit > 0 ==> cursorToken == Token.TokenFromTime(page[limit - 1].updatedAt)
             else cursorToken == ""
    ensures Executes(table, Written(table, outs), req,
                     Answer(Without(page, Ids(SavedOf(outs))), SavedOf(outs), Conflicted(page, SavedOf(outs)),
                            syncToken, cursorToken),
                     page, asked, evs, now)
  {
    if overLimit {
      Token.TokenIsNotEmpty(page[LimitOf(req.params) - 1].updatedAt);
    }
  }

  /** A map holds, by id, the rows whose id is among the given ones. */
  ghost predicate Intersects(m: Table, rows: seq<Record>, ids: set<string>) {
    && (forall id :: id in m ==> m[id] in rows && m[id].id == id && id in ids)
    && (forall r :: r in rows && r.id in ids ==> r.id in m && m[r.id] == r)
  }

  lemma IntersectsStep(m: Table, m': Table, page: seq<Record>, i: nat, ids: set<string>)
    requires i < |page| && DistinctIds(page) && Intersects(m, page[..i], ids)
    requires m' == if page[i].id in ids then m[page[i].id := page[i]] else m
    ensures Intersects(m', page[..i + 1], ids)
  {
    assert page[..i + 1] == page[..i] + [page[i]];
    assert forall r :: r in page[..i + 1] <==> r in page[..i] || r == page[i];
    assert forall k :: 0 <= k < i ==> page[k].id != page[i].id;
  }

  /** The rows, among those with the given ids, that are too far from what was saved. */
  function ConflictedAt(ids: set<string>, rows: Table, latest: Table): set<Record>
    requires ids <= rows.Keys <= latest.Keys
  {
    set id | id in ids && TooFarApart(latest[id].updatedAt, rows[id].updatedAt) :: rows[id]
  }

  lemma ConflictedStep(ids: set<string>, rows: Table, latest: Table, id: string)
    requires ids + {id} <= rows.Keys <= latest.Keys && id !in ids
    requires forall k :: k in rows ==> rows[k].id == k
    ensures ConflictedAt(ids + {id}, rows, latest)
         == ConflictedAt(ids, rows, latest)
            + (if TooFarApart(latest[id].updatedAt, rows[id].updatedAt) then {rows[id]} else {})
    ensures rows[id] !in ConflictedAt(ids, rows, latest)
  {
    hide TooFarApart;
  }

  lemma IntersectionIsOverwritten(m: Table, page: seq<Record>, saved: seq<Record>)
    requires Intersects(m, page, Ids(saved))
    ensures m.Keys == Ids(page) * Ids(saved) && m.Keys <= ById(saved).Keys == Ids(saved)
    ensures forall id :: id in m ==> m[id].id == id
    ensures ConflictedAt(m.Keys, m, ById(saved)) == Conflicted(page, saved)
  {
    hide TooFarApart, ById;
    assert forall r :: r in Overwritten(page, saved) ==> r.id in m && m[r.id] == r;
    assert forall id :: id in m ==> m[id] in Overwritten(page, saved);
  }

  lemma NoReports(rows: Table, latest: Table)
    requires rows.Keys <= latest.Keys
    ensures ConflictedAt({}, rows, latest) == {} && multiset(Reports({})) == multiset{}
  {
    assert Reports({}) == {};
  }

  lemma ReportsStep(rows: set<Record>, reports: seq<UnsavedItem>, r: Record)
    requires r !in rows && multiset(reports) == multiset(Reports(rows))
    ensures multiset(reports + [UnsavedItem(null, Some(r), "sync_conflict")]) == multiset(Reports(rows + {r}))
  {
    var report := UnsavedItem(null, Some(r), "sync_conflict");
    assert Reports(rows + {r}) == Reports(rows) + {report};
    assert report !in Reports(rows);
  }

  /** The rows that unsaved entries report. */
  function RowsIn(unsaved: seq<UnsavedItem>): set<Record> {
    set u | u in unsaved && u.row.Some? :: u.row.value
  }

  lemma {:induction false} FailedHaveItems(items: seq<Item>, outs: seq<Outcome>)
    requires |items| == |outs|
    ensures forall u :: u in FailedItems(items, outs) ==> u.item != null && u.row == None && u.tag == ""
  {
    if outs != [] {
      FailedHaveItems(items[..|outs| - 1], outs[..|outs| - 1]);
    }
  }

  /** What `unsaved` reports: a row of the page is in it once, as a conflict, if it was overwritten by a save more
      than twenty seconds away from it, and not at all otherwise; and there are no other rows in it. */
  lemma ReportedOnce(items: seq<Item>, outs: seq<Outcome>, page: seq<Record>,
                     saved: seq<Item>, unsaved: seq<UnsavedItem>, reports: seq<UnsavedItem>, r: Record)
    requires Accounts(items, outs, page, saved, unsaved, reports) && r in page
    ensures RowsIn(unsaved) == Conflicted(page, SavedOf(outs))
    ensures var written := ById(SavedOf(outs));
            var far := r.id in written && Abs(written[r.id].updatedAt - r.updatedAt) > MIN_CONFLICT_INTERVAL * SECOND;
            && (r in RowsIn(unsaved) <==> far)
            && multiset(unsaved)[UnsavedItem(null, Some(r), "sync_conflict")] == if far then 1 else 0
  {
    hide SavedOf, ById, TooFarApart, Reports, RowsIn, FailedItems, SavedItems, AllReflect;
    var rows := Conflicted(page, SavedOf(outs));
    if r.id in ById(SavedOf(outs)) {
      FarApart(ById(SavedOf(outs))[r.id].updatedAt, r.updatedAt);
    }
    assert r in rows <==> r.id in ById(SavedOf(outs)) && TooFarApart(ById(SavedOf(outs))[r.id].updatedAt, r.updatedAt);
    RowsAreConflicts(items, outs, page, saved, unsaved, reports);
    FailedHaveItems(items, outs);
    CountOf(FailedItems(items, outs), reports, rows, r);
  }

  lemma FarApart(saved: Time, row: Time)
    ensures TooFarApart(saved, row) <==> Abs(saved - row) > MIN_CONFLICT_INTERVAL * SECOND
  {
    SecondThreshold(saved, row, MIN_CONFLICT_INTERVAL);
    hide Seconds, Sub;
  }

  lemma CountOf(failed: seq<UnsavedItem>, reports: seq<UnsavedItem>, rows: set<Record>, r: Record)
    requires multiset(reports) == multiset(Reports(rows)) && forall u :: u in failed ==> u.item != null
    ensures multiset(failed + reports)[UnsavedItem(null, Some(r), "sync_conflict")] == if r in rows then 1 else 0
  {
    var report := UnsavedItem(null, Some(r), "sync_conflict");
    assert report !in failed;
    assert report in Reports(rows) <==> r in rows;
    assert multiset(failed + reports) == multiset(failed) + multiset(reports);
  }

  lemma RowsAreConflicts(items: seq<Item>, outs: seq<Outcome>, page: seq<Record>,
                         saved: seq<Item>, unsaved: seq<UnsavedItem>, reports: seq<UnsavedItem>)
    requires Accounts(items, outs, page, saved, unsaved, reports)
    ensures |items| == |outs| && RowsIn(unsaved) == Conflicted(page, SavedOf(outs))
  {
    var rows := Conflicted(page, SavedOf(outs));
    hide Conflicted, SavedOf;
    FailedHaveItems(items, outs);
    forall u
      ensures u in reports <==> u in Reports(rows)
    {
      assert u in reports <==> u in multiset(reports);
    }
    forall r
      ensures r in RowsIn(unsaved) <==> r in rows
    {
      var report := UnsavedItem(null, Some(r), "sync_conflict");
      if r in rows {
        assert report in Reports(rows);
        assert report in unsaved;
      }
    }
  }

  /** Every item is saved or unsaved, in order, and the conflicts follow, each of them once. */
  ghost predicate Accounts(items: seq<Item>, outs: seq<Outcome>, page: seq<Record>,
                           saved: seq<Item>, unsaved: seq<UnsavedItem>, reports: seq<UnsavedItem>)
    reads items
  {
    && AllReflect(items, outs)
    && saved == SavedItems(items, outs)
    && unsaved == FailedItems(items, outs) + reports
    && multiset(reports) == multiset(Reports(Conflicted(page, SavedOf(outs))))
  }

  lemma AccountsFor(items: seq<Item>, outs: seq<Outcome>, page: seq<Record>,
                    saved: seq<Item>, unsaved: seq<UnsavedItem>, reports: seq<UnsavedItem>)
    requires AllReflect(items, outs) && saved == SavedItems(items, outs)
    requires unsaved == FailedItems(items, outs) + reports
    requires multiset(reports) == multiset(Reports(Conflicted(page, SavedOf(outs))))
    ensures Accounts(items, outs, page, saved, unsaved, reports)
  {
  }

  lemma AccountedValues(items: seq<Item>, outs: seq<Outcome>, page: seq<Record>,
                        saved: seq<Item>, unsaved: seq<UnsavedItem>, reports: seq<UnsavedItem>)
    requires Accounts(items, outs, page, saved, unsaved, reports)
    ensures |items| == |outs| && Values(saved) == SavedOf(outs) && RowsIn(unsaved) == Conflicted(page, SavedOf(outs))
  {
    SavedValues(items, outs);
    RowsAreConflicts(items, outs, page, saved, unsaved, reports);
  }

  class SyncService20161215 {
    const base: SyncServiceBase
    var buffer: array<Record>
    /** The retrieved items are the first `retrieved` rows of the buffer. */
    var retrieved: nat
    var saved: seq<Item>
    var unsaved: seq<UnsavedItem>
    var syncToken: string
    var cursorToken: string
    var integrityHash: string

    constructor (base: SyncServiceBase)
      ensures this.base == base && this.cursorToken == "" && this.integrityHash == ""
    {
      this.base := base;
      buffer := new Record[0];
      retrieved := 0;
      saved, unsaved := [], [];
      syncToken, cursorToken, integrityHash := "", "", "";
    }

    method SaveOne(item: Item) returns (ok: bool, ghost ev: Event)
      requires base.db.Valid()
      modifies base.db, item
      ensures base.db.Valid()
      ensures old(base.db.clock) <= ev.now == base.db.clock && ev.uuid != ""
      ensures var outcome := Attempt(base.userID, old(item.Value()), ev);
              && base.db.items == (if outcome.Saved? then old(base.db.items)[outcome.item.id := outcome.item]
                                   else old(base.db.items))
              && Reflects(item, outcome)
              && ok == outcome.Saved?
    {
      item.userID := base.userID;
      if item.deleted {
        base.PrepareDelete(item);
      }
      ok, ev := base.db.Save(item);
    }

    method Save() returns (saved: seq<Item>, unsaved: seq<UnsavedItem>, ghost evs: seq<Event>)
      requires base.db.Valid() && Distinct(base.items)
      modifies base.db, base.items
      ensures base.db.Valid()
      ensures |evs| == |base.items| && Within(evs, old(base.db.clock), base.db.clock)
      ensures var outs := Attempts(base.userID, old(Values(base.items)), evs);
              && base.db.items == Written(old(base.db.items), outs)
              && AllReflect(base.items, outs)
              && saved == SavedItems(base.items, outs)
              && unsaved == FailedItems(base.items, outs)
    {
      hide SavedItems, FailedItems, Written, Attempts, Attempt;
      NoneYet(base.db.items, base.userID);
      saved, unsaved, evs := [], [], [];
      ghost var records := Values(base.items);
      ghost var table := base.db.items;
      ghost var outs: seq<Outcome> := [];
      for i := 0 to |base.items|
        invariant base.db.Valid()
        invariant |evs| == |outs| == i
        invariant Within(evs, old(base.db.clock), base.db.clock)
        invariant outs == Attempts(base.userID, records[..i], evs)
        invariant base.db.items == Written(table, outs)
        invariant forall j :: i <= j < |base.items| ==> base.items[j].Value() == records[j]
        invariant AllReflect(base.items[..i], outs)
        invariant saved == SavedItems(base.items[..i], outs)
        invariant unsaved == FailedItems(base.items[..i], outs)
      {
        assert base.items[i] !in base.items[..i];
        ghost var clock := base.db.clock;
        var ok;
        ghost var ev;
        ok, ev := SaveOne(base.items[i]);
        ghost var outcome := Attempt(base.userID, records[i], ev);
        OneMoreReflects(base.items, outs, outcome);
        OneMoreWithin(evs, ev, old(base.db.clock), clock);
        AttemptsStep(base.userID, records, evs, i, ev);
        OneMore(table, base.items, outs, outcome);
        saved := saved + (if ok then [base.items[i]] else []);
        unsaved := unsaved + (if ok then [] else [UnsavedItem(base.items[i], None, "")]);
        outs, evs := outs + [outcome], evs + [ev];
      }
      assert records[..|records|] == records && base.items[..|base.items|] == base.items;
    }

    method IndexSaved() returns (savedById: Table)
      ensures savedById == ById(Values(saved))
    {
      ghost var values := Values(saved);
      assert values[..0] == [] && ById([]) == map[];
      hide ById;
      savedById := map[];
      for i := 0 to |saved|
        invariant savedById == ById(values[..i])
      {
        ByIdStep(values, i);
        savedById := savedById[saved[i].id := saved[i].Value()];
      }
      assert values[..|saved|] == values;
    }

    method IndexRetrieved(savedIds: set<string>) returns (retrievedById: Table)
      requires DistinctIds(buffer[..])
      ensures Intersects(retrievedById, buffer[..], savedIds)
    {
      ghost var page := buffer[..];
      retrievedById := map[];
      for i := 0 to buffer.Length
        invariant Intersects(retrievedById, page[..i], savedIds)
      {
        ghost var before := retrievedById;
        if buffer[i].id in savedIds {
          retrievedById := retrievedById[buffer[i].id := buffer[i]];
        }
        IntersectsStep(before, retrievedById, page, i, savedIds);
      }
      assert page[..buffer.Length] == page;
    }

    /** Visits the rows that were both retrieved and saved, in an order of the runtime's choosing, and reports
        those that are too far away in time. */
    method ReportConflicts(savedById: Table, retrievedById: Table)
      returns (toBeDeleted: set<string>, ghost reports: seq<UnsavedItem>)
      requires retrievedById.Keys <= savedById.Keys && forall id :: id in retrievedById ==> retrievedById[id].id == id
      modifies this`unsaved
      ensures toBeDeleted == retrievedById.Keys
      ensures unsaved == old(unsaved) + reports
      ensures multiset(reports) == multiset(Reports(ConflictedAt(retrievedById.Keys, retrievedById, savedById)))
    {
      hide *;
      NoReports(retrievedById, savedById);
      toBeDeleted, reports := {}, [];
      var pending := retrievedById.Keys;
      ghost var rows: set<Record> := {};
      while pending != {}
        invariant pending <= retrievedById.Keys
        invariant toBeDeleted == retrievedById.Keys - pending
        invariant rows == ConflictedAt(toBeDeleted, retrievedById, savedById)
        invariant unsaved == old(unsaved) + reports
        invariant multiset(reports) == multiset(Reports(rows))
        decreases pending
      {
        var id :| id in pending;
        var conflicted := retrievedById[id];
        ConflictedStep(toBeDeleted, retrievedById, savedById, id);
        if TooFarApart(savedById[id].updatedAt, conflicted.updatedAt) {
          ReportsStep(rows, reports, conflicted);
          var report := UnsavedItem(null, Some(conflicted), "sync_conflict");
          Snoc(old(unsaved), reports, report);
          unsaved := unsaved + [report];
          reports := reports + [report];
          rows := rows + {conflicted};
        }
        toBeDeleted, pending := toBeDeleted + {id}, pending - {id};
      }
      assert toBeDeleted == retrievedById.Keys;
    }

    /** Saved items take precedence: what was retrieved under their ids is deleted from the answer, and
        reported when it is too far away in time. */
    method CheckForConflicts() returns (toBeDeleted: set<string>, ghost reports: seq<UnsavedItem>)
      requires DistinctIds(buffer[..])
      modifies this`unsaved
      ensures toBeDeleted == Ids(buffer[..]) * Ids(Values(saved))
      ensures unsaved == old(unsaved) + reports
      ensures multiset(reports) == multiset(Reports(Conflicted(buffer[..], Values(saved))))
    {
      hide *;
      var savedById := IndexSaved();
      var retrievedById := IndexRetrieved(savedById.Keys);
      IntersectionIsOverwritten(retrievedById, buffer[..], Values(saved));
      toBeDeleted, reports := ReportConflicts(savedById, retrievedById);
    }

    /** The conflicts and the compaction. */
    method Reconcile() returns (ghost reports: seq<UnsavedItem>)
      requires DistinctIds(buffer[..])
      modifies this`unsaved, this`retrieved, buffer
      ensures unsaved == old(unsaved) + reports
      ensures multiset(reports) == multiset(Reports(Conflicted(old(buffer[..]), Values(saved))))
      ensures retrieved <= buffer.Length && buffer[..retrieved] == Without(old(buffer[..]), Ids(Values(saved)))
      ensures buffer.Length > 0 ==> buffer[buffer.Length - 1] == old(buffer[buffer.Length - 1])
    {
      hide *;
      ghost var page := buffer[..];
      var retrievedToDelete;
      retrievedToDelete, reports := CheckForConflicts();
      WithoutOverwritten(page, page, Values(saved));
      retrieved := Compact(buffer, retrievedToDelete);
    }

    /** The saves, the conflicts and the compaction of the page in the buffer. */
    method SaveAndReconcile() returns (ghost evs: seq<Event>, ghost reports: seq<UnsavedItem>)
      requires base.db.Valid() && Distinct(base.items) && DistinctIds(buffer[..])
      modifies this`retrieved, this`saved, this`unsaved, base.db, base.items, buffer
      ensures base.db.Valid()
      ensures |evs| == |base.items| && Within(evs, old(base.db.clock), base.db.clock)
      ensures retrieved <= buffer.Length
      ensures buffer.Length > 0 ==> buffer[buffer.Length - 1] == old(buffer[buffer.Length - 1])
      ensures var outs := Attempts(base.userID, old(Values(base.items)), evs);
              && base.db.items == Written(old(base.db.items), outs)
              && Accounts(base.items, outs, old(buffer[..]), saved, unsaved, reports)
              && buffer[..retrieved] == Without(old(buffer[..]), Ids(SavedOf(outs)))
    {
      hide *;
      ghost var records, page := Values(base.items), buffer[..];
      saved, unsaved, evs := Save();
      ghost var outs := Attempts(base.userID, records, evs);
      SavedValues(base.items, outs);
      reports := Reconcile();
      AccountsFor(base.items, outs, page, saved, unsaved, reports);
    }

    /** The query, whose page fills the buffer. */
    method Retrieve() returns (crashed: bool, overLimit: bool, ghost asked: Time)
      requires base.db.Valid()
      modifies this`buffer, base`params, base.db`clock
      ensures base.db.Valid() && old(base.db.clock) <= asked == base.db.clock
      ensures crashed <==> !Answerable(old(base.params))
      ensures base.params == old(base.params).(limit := LimitOf(old(base.params)))
      ensures fresh(buffer)
      ensures !crashed ==>
                && DistinctIds(buffer[..])
                && IsPage(base.db.items, QueryOf(base.userID, old(base.params), asked), base.params.limit, buffer[..],
                          overLimit)
    {
      hide *;
      crashed, buffer, overLimit, asked := base.Get();
      if !crashed {
        PageIsDistinct(base.db.items, QueryOf(base.userID, old(base.params), asked), base.params.limit, buffer[..],
                       overLimit);
      }
    }

    /** The first half of `Execute`: the query, the saves, the conflicts and the compaction. */
    method Exchange()
      returns (crashed: bool, overLimit: bool, ghost page: seq<Record>, ghost asked: Time, ghost evs: seq<Event>,
               ghost reports: seq<UnsavedItem>)
      requires base.db.Valid() && Distinct(base.items)
      modifies this`buffer, this`retrieved, this`saved, this`unsaved, base, base.db, base.items
      ensures base.db.Valid()
      ensures crashed <==> !Answerable(old(base.params))
      ensures crashed ==> base.db.items == old(base.db.items) && Values(base.items) == old(Values(base.items))
      ensures !crashed ==> |evs| == |base.items| && old(base.db.clock) <= asked && Within(evs, asked, base.db.clock)
      ensures base.params == old(base.params).(limit := LimitOf(old(base.params)))
      ensures !crashed ==>
                IsPage(old(base.db.items), QueryOf(base.userID, old(base.params), asked), base.params.limit, page,
                       overLimit)
      ensures !crashed ==> fresh(buffer) && retrieved <= buffer.Length == |page|
      ensures !crashed && page != [] ==> buffer[|page| - 1] == page[|page| - 1]
      ensures !crashed ==>
              var outs := Attempts(base.userID, old(Values(base.items)), evs);
              && base.db.items == Written(old(base.db.items), outs)
              && Accounts(base.items, outs, page, saved, unsaved, reports)
              && buffer[..retrieved] == Without(page, Ids(SavedOf(outs)))
    {
      hide *;
      page, evs, reports := [], [], [];
      crashed, overLimit, asked := Retrieve();
      if crashed {
        return;
      }
      page := buffer[..];
      evs, reports := SaveAndReconcile();
    }

    /** The second half of `Execute`: the integrity hash and the tokens. Compaction has left the last row of
        the page where it was. */
    method Conclude(overLimit: bool) returns (ghost now: Time)
      requires base.db.Valid() && cursorToken == ""
      requires overLimit ==> 0 < base.params.limit <= buffer.Length
      modifies this`integrityHash, this`cursorToken, this`syncToken, base.db`clock
      ensures base.db.Valid() && old(base.db.clock) <= now == base.db.clock
      ensures syncToken == Token.TokenFromTime(NextSync(Values(saved), now))
      ensures cursorToken == if overLimit then Token.TokenFromTime(buffer[base.params.limit - 1].updatedAt) else ""
      ensures if base.params.computeIntegrity
              then Signs(base.sha256, LiveRows(base.db.items, base.userID), integrityHash)
              else integrityHash == ""
    {
      hide *;
      integrityHash := base.IntegrityHash();
      if overLimit {
        cursorToken := Token.TokenFromTime(buffer[base.params.limit - 1].updatedAt);
      }
      syncToken, now := base.NextToken(saved);
    }

    /** One synchronisation, with the choices of the database and the clock as out-parameters. */
    method Execute()
      returns (crashed: bool, ghost page: seq<Record>, ghost asked: Time, ghost evs: seq<Event>, ghost now: Time,
               ghost reports: seq<UnsavedItem>)
      requires base.db.Valid() && Distinct(base.items)
      requires cursorToken == ""
      modifies this, base, base.db, base.items
      ensures base.db.Valid()
      ensures crashed <==> !Answerable(old(base.params))
      ensures crashed ==> base.db.items == old(base.db.items) && Values(base.items) == old(Values(base.items))
      ensures !crashed ==> |evs| == |base.items| && old(base.db.clock) <= asked && now == base.db.clock
      ensures !crashed ==> retrieved <= buffer.Length == |page|
      ensures !crashed && page != [] ==> buffer[|page| - 1] == page[|page| - 1]
      ensures !crashed ==>
              var outs := Attempts(base.userID, old(Values(base.items)), evs);
              && Accounts(base.items, outs, page, saved, unsaved, reports)
              && Executes(
                   old(base.db.items), base.db.items,
                   Request(base.userID, old(base.params), old(Values(base.items))),
                   Answer(buffer[..retrieved], Values(saved), RowsIn(unsaved), syncToken, cursorToken),
                   page, asked, evs, now)
      ensures !crashed ==>
              if old(base.params).computeIntegrity
              then Signs(base.sha256, LiveRows(base.db.items, base.userID), integrityHash)
              else integrityHash == ""
    {
      hide *;
      ghost var req := Request(base.userID, base.params, Values(base.items));
      ghost var table := base.db.items;
      var overLimit;
      crashed, overLimit, page, asked, evs, reports := Exchange();
      now := base.db.clock;
      if crashed {
        return;
      }
      ghost var outs := Attempts(req.userID, req.items, evs);
      AccountedValues(base.items, outs, page, saved, unsaved, reports);

      if overLimit {
        PageIsFull(table, QueryOf(req.userID, req.params, asked), base.params.limit, page);
      }
      ghost var exchanged := base.db.clock;
      now := Conclude(overLimit);
      WithinLater(evs, asked, exchanged, now);
      IsExecuted(table, req, page, overLimit, asked, evs, now, outs, syncToken, cursorToken);
    }
  }
}
