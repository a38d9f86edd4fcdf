/** The sync service of API versions 20190520 and 20200115. */
module Sync20190520 {
  import opened Basics
  import opened Times
  import opened Database
  import opened Sync
  import Token

  const MIN_CONFLICT_INTERVAL_MICROSECOND: int := 1_000

  /** Whether an incoming item may overwrite the server's. */
  predicate Accepts(incoming: Time, server: Time) {
    var difference := Microseconds(Sub(incoming, server));
    difference == 0 || Abs(difference) < MIN_CONFLICT_INTERVAL_MICROSECOND
  }

  function Process(table: Table, userID: string, r: Record, ev: Event): Outcome {
    var found := if ev.findFails then Failed else Find(table, r.id, userID);
    if found.Failed? then FindFailed(r.(userID := userID))
    else if found.Found? && !Accepts(r.updatedAt, found.row.updatedAt) then SyncConflict(found.row)
    else
      var stamped := Stamped(Prepared(userID, r), ev);
      if ev.saveFails then SaveFailed(stamped) else Saved(stamped)
  }

  function Outcomes(table: Table, userID: string, records: seq<Record>, evs: seq<Event>): (outs: seq<Outcome>)
    requires |records| == |evs|
    ensures |outs| == |records|
  {
    if records == [] then []
    else
      var n := |records| - 1;
      var before := Outcomes(table, userID, records[..n], evs[..n]);
      before + [Process(Written(table, before), userID, records[n], evs[n])]
  }

  lemma OutcomesStep(table: Table, userID: string, records: seq<Record>, evs: seq<Event>, i: nat, ev: Event)
    requires i == |evs| < |records|
    ensures Outcomes(table, userID, records[..i + 1], evs + [ev])
         == Outcomes(table, userID, records[..i], evs)
            + [Process(Written(table, Outcomes(table, userID, records[..i], evs)), userID, records[i], ev)]
  {
    assert records[..i + 1][..i] == records[..i] && (evs + [ev])[..i] == evs;
  }

  /** A conflict of the answer: an item of the request that could not be saved, or the row that the
      server has in its place. */
  datatype ConflictItem = ConflictItem(unsavedItem: Item?, serverItem: Option<Record>, kind: string)
  {
    function ServerIds(): set<string> {
      if serverItem.None? then {} else {serverItem.value.id}
    }
  }

  function ConflictOf(item: Item, o: Outcome): ConflictItem
    requires !o.Saved?
  {
    match o
    case SyncConflict(server) => ConflictItem(null, Some(server), "sync_conflict")
    case FindFailed(_) => ConflictItem(item, None, "internal_error")
    case SaveFailed(_) => ConflictItem(item, None, "uuid_conflict")
  }

  /** The conflicts of the items that were not saved, in order. */
  function ConflictItems(items: seq<Item>, outs: seq<Outcome>): seq<ConflictItem>
    requires |items| == |outs|
  {
    if outs == [] then []
    else
      var n := |outs| - 1;
      ConflictItems(items[..n], outs[..n]) + if outs[n].Saved? then [] else [ConflictOf(items[n], outs[n])]
  }

  function ServersOf(outs: seq<Outcome>): seq<Record> {
    if outs == [] then []
    else
      var last := outs[|outs| - 1];
      ServersOf(outs[..|outs| - 1]) + if last.SyncConflict? then [last.server] else []
  }

  /** The server items that a list of conflicts holds, in order. */
  function ServersIn(conflicts: seq<ConflictItem>): seq<Record> {
    if conflicts == [] then []
    else
      var last := conflicts[|conflicts| - 1].serverItem;
      ServersIn(conflicts[..|conflicts| - 1]) + if last.Some? then [last.value] else []
  }

  lemma ServersInOneMore(conflicts: seq<ConflictItem>, last: ConflictItem)
    ensures ServersIn(conflicts + [last])
         == ServersIn(conflicts) + if last.serverItem.Some? then [last.serverItem.value] else []
  {
    assert (conflicts + [last])[..|conflicts|] == conflicts;
  }

  /** The conflicts of an answer hold exactly the rows that items were in conflict with, each as it is stored, and
      are of the kind `sync_conflict` when they hold one. */
  lemma {:induction false} ServersInConflicts(items: seq<Item>, outs: seq<Outcome>)
    requires |items| == |outs|
    ensures ServersIn(ConflictItems(items, outs)) == ServersOf(outs)
    ensures forall c :: c in ConflictItems(items, outs) ==>
              && (c.kind == "sync_conflict" <==> c.serverItem.Some?) && (c.serverItem.Some? <==> c.unsavedItem == null)
  {
    if outs != [] {
      var n := |outs| - 1;
      LastConflict(items, outs);
      hide ConflictItems, ServersOf, ServersIn;
      ServersInConflicts(items[..n], outs[..n]);
      if !outs[n].Saved? {
        ServersInOneMore(ConflictItems(items[..n], outs[..n]), ConflictOf(items[n], outs[n]));
      }
    }
  }

  lemma LastConflict(items: seq<Item>, outs: seq<Outcome>)
    requires |items| == |outs| > 0
    ensures var n := |outs| - 1;
            && ConflictItems(items, outs) == (if outs[n].Saved? then ConflictItems(items[..n], outs[..n])
                                              else
                                                ConflictItems(items[..n], outs[..n]) + [ConflictOf(items[n], outs[n])])
            && ServersOf(outs) == (if outs[n].SyncConflict? then ServersOf(outs[..n]) + [outs[n].server]
                                   else ServersOf(outs[..n]))
  {
    hide ConflictOf;
  }

  lemma NoneYet(table: Table, userID: string)
    ensures Outcomes(table, userID, [], []) == [] && Written(table, []) == table
    ensures SavedItems([], []) == [] && ConflictItems([], []) == [] && Ids(ServersOf([])) == {}
  {
  }

  lemma OneMore(table: Table, items: seq<Item>, outs: seq<Outcome>, last: Outcome)
    requires |outs| < |items|
    ensures var n := |outs|;
            && Written(table, outs + [last])
               == (if last.Saved? then Written(table, outs)[last.item.id := last.item] else Written(table, outs))
            && SavedItems(items[..n + 1], outs + [last])
               == SavedItems(items[..n], outs) + (if last.Saved? then [items[n]] else [])
            && ConflictItems(items[..n + 1], outs + [last])
               == ConflictItems(items[..n], outs) + (if last.Saved? then [] else [ConflictOf(items[n], last)])
            && Ids(ServersOf(outs + [last]))
               == Ids(ServersOf(outs)) + (if last.SyncConflict? then {last.server.id} else {})
  {
    assert (outs + [last])[..|outs|] == outs;
    assert items[..|outs| + 1][..|outs|] == items[..|outs|];
    assert ServersOf(outs + [last]) == ServersOf(outs) + if last.SyncConflict? then [last.server] else [];
  }

  lemma IsExecuted(table: Table, req: Request, servers: seq<Record>, page: seq<Record>, overLimit: bool,
                   asked: Time, evs: seq<Event>, now: Time, outs: seq<Outcome>, syncToken: string, cursorToken: string)
    requires |evs| == |req.items| && Within(evs, asked, now)
    requires outs == Outcomes(table, req.userID, req.items, evs)
    requires IsPage(table, QueryOf(req.userID, req.params, asked), LimitOf(req.params), page, overLimit)
    requires syncToken == Token.TokenFromTime(NextSync(SavedOf(outs), now))
    requires var limit := LimitOf(req.params);
             if overLimit then |page| >= limit > 0 ==> cursorToken == Token.TokenFromTime(page[limit - 1].updatedAt)
             else cursorToken == ""
    ensures Executes(table, Written(table, outs), req,
                     Answer(Without(page, Ids(ServersOf(outs))), SavedOf(outs), ServersOf(outs), syncToken,
                            cursorToken),
                     page, asked, evs, now)
  {
    if overLimit {
      Token.TokenIsNotEmpty(page[LimitOf(req.params) - 1].updatedAt);
    }
  }

  datatype Request = Request(userID: string, params: Params, items: seq<Record>)

  /** An answer by value; of the conflicts it holds the server items. */
  datatype Answer = Answer(retrieved: seq<Record>, saved: seq<Record>, servers: seq<Record>, syncToken: string,
                           cursorToken: string)

  /** One synchronisation takes the table from `table` to `table'` and gives the answer. The query
      is asked at `asked` and finds `page`; the answer is made at `now`. */
  ghost predicate Executes(table: Table, table': Table, req: Request, ans: Answer,
                           page: seq<Record>, asked: Time, evs: seq<Event>, now: Time)
  {
    && |evs| == |req.items|
    && Within(evs, asked, now)
    && var outs := Outcomes(table, req.userID, req.items, evs);
       var limit := LimitOf(req.params);
       var overLimit := ans.cursorToken != "";
    && IsPage(table, QueryOf(req.userID, req.params, asked), limit, page, overLimit)
    && table' == Written(table, outs)
    && ans.servers == ServersOf(outs)
    && ans.retrieved == Without(page, Ids(ans.servers))
    && ans.saved == SavedOf(outs)
    && ans.syncToken == Token.TokenFromTime(NextSync(ans.saved, now))
    && (overLimit ==> ans.cursorToken == Token.TokenFromTime(page[limit - 1].updatedAt))
  }

  /** Every item is among the saved ones, with the value that was saved, or among the conflicts. */
  ghost predicate Accounts(items: seq<Item>, outs: seq<Outcome>, saved: seq<Item>, conflicts: seq<ConflictItem>)
    reads items
  {
    && AllReflect(items, outs)
    && saved == SavedItems(items, outs)
    && conflicts == ConflictItems(items, outs)
  }

  lemma AccountsFor(items: seq<Item>, outs: seq<Outcome>, saved: seq<Item>, conflicts: seq<ConflictItem>)
    requires AllReflect(items, outs)
    requires saved == SavedItems(items, outs) && conflicts == ConflictItems(items, outs)
    ensures Accounts(items, outs, saved, conflicts)
  {
  }

  lemma AccountedValues(items: seq<Item>, outs: seq<Outcome>, saved: seq<Item>, conflicts: seq<ConflictItem>)
    requires Accounts(items, outs, saved, conflicts)
    ensures Values(saved) == SavedOf(outs) && ServersIn(conflicts) == ServersOf(outs)
  {
    SavedValues(items, outs);
    ServersInConflicts(items, outs);
  }

  class SyncService20190520 {
    const base: SyncServiceBase
    var buffer: array<Record>
    /** The retrieved items are the first `retrieved` rows of the buffer. */
    var retrieved: nat
    var saved: seq<Item>
    var conflicts: seq<ConflictItem>
    var syncToken: string
    var cursorToken: string
    var integrityHash: string

    constructor (base: SyncServiceBase)
      ensures this.base == base && this.cursorToken == "" && this.integrityHash == ""
    {
      this.base := base;
      buffer := new Record[0];
      retrieved := 0;
      saved, conflicts := [], [];
      syncToken, cursorToken, integrityHash := "", "", "";
    }

    /** The body of the loop of `Save`: one incoming item is saved, or a conflict is reported. */
    method SaveOne(item: Item) returns (conflict: Option<ConflictItem>, ghost outcome: Outcome, ghost ev: Event)
      requires base.db.Valid()
      modifies base.db, item
      ensures base.db.Valid()
      ensures old(base.db.clock) <= ev.now == base.db.clock && ev.uuid != ""
      ensures outcome == Process(old(base.db.items), base.userID, old(item.Value()), ev)
      ensures base.db.items == if outcome.Saved? then old(base.db.items)[outcome.item.id := outcome.item]
                               else old(base.db.items)
      ensures Reflects(item, outcome)
      ensures conflict == if outcome.Saved? then None else Some(ConflictOf(item, outcome))
      ensures outcome.SyncConflict? ==> conflict == Some(ConflictItem(null, Some(outcome.server), "sync_conflict"))
      ensures outcome.FindFailed? ==> conflict == Some(ConflictItem(item, None, "internal_error"))
      ensures outcome.SaveFailed? ==> conflict == Some(ConflictItem(item, None, "uuid_conflict"))
    {
      item.userID := base.userID;
      var found := base.db.FindItemByUserID(item.id, base.userID);
      if found.Failed? {
        conflict := Some(ConflictItem(item, None, "internal_error"));
        outcome, ev := FindFailed(item.Value()), Event(base.db.clock, "0", true, false);
        return;
      }
      if found.Found? {
        var saveIncoming := true;
        var difference := Microseconds(Sub(item.updatedAt, found.row.updatedAt));
        if difference != 0 {
          saveIncoming := Abs(difference) < MIN_CONFLICT_INTERVAL_MICROSECOND;
        }
        if !saveIncoming {
          conflict := Some(ConflictItem(null, Some(found.row), "sync_conflict"));
          outcome, ev := SyncConflict(found.row), Event(base.db.clock, "0", false, false);
          return;
        }
      }
      if item.deleted {
        base.PrepareDelete(item);
      }
      var ok;
      ok, ev := base.db.Save(item);
      if ok {
        conflict, outcome := None, Saved(item.Value());
      } else {
        conflict, outcome := Some(ConflictItem(item, None, "uuid_conflict")), SaveFailed(item.Value());
      }
    }

    method Save()
      returns (saved: seq<Item>, conflicts: seq<ConflictItem>, toBeDeleted: set<string>, ghost evs: seq<Event>)
      requires base.db.Valid() && Distinct(base.items)
      modifies base.db, base.items
      ensures base.db.Valid()
      ensures |evs| == |base.items| && Within(evs, old(base.db.clock), base.db.clock)
      ensures var outs := Outcomes(old(base.db.items), base.userID, old(Values(base.items)), evs);
              && base.db.items == Written(old(base.db.items), outs)
              && AllReflect(base.items, outs)
              && saved == SavedItems(base.items, outs)
              && conflicts == ConflictItems(base.items, outs)
              && toBeDeleted == Ids(ServersOf(outs))
    {
      hide SavedItems, ConflictItems, ServersOf, Written, Outcomes;
      NoneYet(base.db.items, base.userID);
      saved, conflicts, toBeDeleted, evs := [], [], {}, [];
      ghost var records := Values(base.items);
      ghost var table := base.db.items;
      ghost var outs: seq<Outcome> := [];
      for i := 0 to |base.items|
        invariant base.db.Valid()
        invariant |evs| == |outs| == i
        invariant Within(evs, old(base.db.clock), base.db.clock)
        invariant outs == Outcomes(table, base.userID, records[..i], evs)
        invariant base.db.items == Written(table, outs)
        invariant forall j :: i <= j < |base.items| ==> base.items[j].Value() == records[j]
        invariant AllReflect(base.items[..i], outs)
        invariant saved == SavedItems(base.items[..i], outs)
        invariant conflicts == ConflictItems(base.items[..i], outs)
        invariant toBeDeleted == Ids(ServersOf(outs))
      {
        var conflict;
        ghost var outcome, ev;
        assert base.items[i] !in base.items[..i];
        ghost var clock := base.db.clock;
        conflict, outcome, ev := SaveOne(base.items[i]);
        OneMoreReflects(base.items, outs, outcome);
        OneMoreWithin(evs, ev, old(base.db.clock), clock);
        OutcomesStep(table, base.userID, records, evs, i, ev);
        OneMore(table, base.items, outs, outcome);
        saved := saved + (if conflict.None? then [base.items[i]] else []);
        conflicts := conflicts + (if conflict.None? then [] else [conflict.value]);
        toBeDeleted := toBeDeleted + (if conflict.None? then {} else conflict.value.ServerIds());
        outs, evs := outs + [outcome], evs + [ev];
      }
      assert records[..|records|] == records && base.items[..|base.items|] == base.items;
    }

    /** The query, whose page fills the buffer. */
    method Retrieve() returns (crashed: bool, overLimit: bool, ghost asked: Time)
      requires base.db.Valid()
      modifies this`buffer, base`params, base.db`clock
      ensures base.db.Valid() && old(base.db.clock) <= asked == base.db.clock
      ensures crashed <==> !Answerable(old(base.params))
      ensures base.params == old(base.params).(limit := LimitOf(old(base.params)))
      ensures fresh(buffer)
      ensures !crashed ==>
                IsPage(base.db.items, QueryOf(base.userID, old(base.params), asked), base.params.limit, buffer[..],
                       overLimit)
    {
      hide *;
      crashed, buffer, overLimit, asked := base.Get();
    }

    /** The saves, and the compaction of the page in the buffer. */
    method SaveAndCompact() returns (ghost evs: seq<Event>)
      requires base.db.Valid() && Distinct(base.items)
      modifies this`retrieved, this`saved, this`conflicts, base.db, base.items, buffer
      ensures base.db.Valid()
      ensures |evs| == |base.items| && Within(evs, old(base.db.clock), base.db.clock)
      ensures retrieved <= buffer.Length
      ensures buffer.Length > 0 ==> buffer[buffer.Length - 1] == old(buffer[buffer.Length - 1])
      ensures var outs := Outcomes(old(base.db.items), base.userID, old(Values(base.items)), evs);
              && base.db.items == Written(old(base.db.items), outs)
              && buffer[..retrieved] == Without(old(buffer[..]), Ids(ServersOf(outs)))
              && Accounts(base.items, outs, saved, conflicts)
    {
      hide *;
      ghost var table, records := base.db.items, Values(base.items);
      var retrievedToDelete;
      saved, conflicts, retrievedToDelete, evs := Save();
      AccountsFor(base.items, Outcomes(table, base.userID, records, evs), saved, conflicts);

      // Remove the items in conflict from the retrieved ones.
      retrieved := Compact(buffer, retrievedToDelete);
    }

    /** The first half of `Execute`: the query, the saves and the compaction of the page. */
    method Exchange()
      returns (crashed: bool, overLimit: bool, ghost page: seq<Record>, ghost asked: Time, ghost evs: seq<Event>)
      requires base.db.Valid() && Distinct(base.items)
      modifies this`buffer, this`retrieved, this`saved, this`conflicts, base, base.db, base.items
      ensures base.db.Valid()
      ensures crashed <==> !Answerable(old(base.params))
      ensures crashed ==> base.db.items == old(base.db.items) && Values(base.items) == old(Values(base.items))
      ensures !crashed ==> |evs| == |base.items| && old(base.db.clock) <= asked && Within(evs, asked, base.db.clock)
      ensures base.params == old(base.params).(limit := LimitOf(old(base.params)))
      ensures !crashed ==>
                IsPage(old(base.db.items), QueryOf(base.userID, old(base.params), asked), base.params.limit, page,
                       overLimit)
      ensures !crashed ==> fresh(buffer) && retrieved <= buffer.Length == |page|
      ensures !crashed && page != [] ==> buffer[|page| - 1] == page[|page| - 1]
      ensures !crashed ==>
              var outs := Outcomes(old(base.db.items), base.userID, old(Values(base.items)), evs);
              && base.db.items == Written(old(base.db.items), outs)
              && buffer[..retrieved] == Without(page, Ids(ServersOf(outs)))
              && Accounts(base.items, outs, saved, conflicts)
    {
      hide *;
      page, evs := [], [];
      crashed, overLimit, asked := Retrieve();
      if crashed {
        return;
      }
      page := buffer[..];
      evs := SaveAndCompact();
    }

    /** The second half of `Execute`: the integrity hash and the tokens. Compaction has left the last row of
        the page where it was. */
    method Conclude(overLimit: bool) returns (ghost now: Time)
      requires base.db.Valid() && cursorToken == ""
      requires overLimit ==> 0 < base.params.limit <= buffer.Length
      modifies this`integrityHash, this`cursorToken, this`syncToken, base.db`clock
      ensures base.db.Valid() && old(base.db.clock) <= now == base.db.clock
      ensures syncToken == Token.TokenFromTime(NextSync(Values(saved), now))
      ensures cursorToken == if overLimit then Token.TokenFromTime(buffer[base.params.limit - 1].updatedAt) else ""
      ensures if base.params.computeIntegrity
              then Signs(base.sha256, LiveRows(base.db.items, base.userID), integrityHash)
              else integrityHash == ""
    {
      hide *;
      integrityHash := base.IntegrityHash();
      if overLimit {
        cursorToken := Token.TokenFromTime(buffer[base.params.limit - 1].updatedAt);
      }
      syncToken, now := base.NextToken(saved);
    }

    /** One synchronisation. The out-parameters tell what the database and the clock decided: the
        page the query found, the events of the saves and the instants of the query and of the
        answer. */
    method Execute()
      returns (crashed: bool, ghost page: seq<Record>, ghost asked: Time, ghost evs: seq<Event>, ghost now: Time)
      requires base.db.Valid() && Distinct(base.items)
      requires cursorToken == ""
      modifies this, base, base.db, base.items
      ensures base.db.Valid()
      ensures crashed <==> !Answerable(old(base.params))
      ensures crashed ==> base.db.items == old(base.db.items) && Values(base.items) == old(Values(base.items))
      ensures !crashed ==> |evs| == |base.items| && old(base.db.clock) <= asked && now == base.db.clock
      ensures !crashed ==> retrieved <= buffer.Length == |page|
      ensures !crashed && page != [] ==> buffer[|page| - 1] == page[|page| - 1]
      ensures !crashed ==>
              var outs := Outcomes(old(base.db.items), base.userID, old(Values(base.items)), evs);
              && Accounts(base.items, outs, saved, conflicts)
              && Executes(
                   old(base.db.items), base.db.items,
                   Request(base.userID, old(base.params), old(Values(base.items))),
                   Answer(buffer[..retrieved], Values(saved), ServersIn(conflicts), syncToken, cursorToken),
                   page, asked, evs, now)
      ensures !crashed ==>
              if old(base.params).computeIntegrity
              then Signs(base.sha256, LiveRows(base.db.items, base.userID), integrityHash)
              else integrityHash == ""
    {
      hide *;
      ghost var req := Request(base.userID, base.params, Values(base.items));
      ghost var table := base.db.items;
      var overLimit;
      crashed, overLimit, page, asked, evs := Exchange();
      now := base.db.clock;
      if crashed {
        return;
      }
      ghost var outs := Outcomes(table, req.userID, req.items, evs);
      AccountedValues(base.items, outs, saved, conflicts);

      if overLimit {
        PageIsFull(table, QueryOf(req.userID, req.params, asked), base.params.limit, page);
      }
      ghost var exchanged := base.db.clock;
      now := Conclude(overLimit);
      WithinLater(evs, asked, exchanged, now);
      IsExecuted(table, req, ServersOf(outs), page, overLimit, asked, evs, now, outs, syncToken, cursorToken);
    }
  }
}
