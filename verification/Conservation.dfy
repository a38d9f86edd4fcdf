/** What one 20190520 request does to its items and to the table. */
module Conservation {
  import opened Basics
  import opened Times
  import opened Database
  import opened Sync
  import opened Sync20190520
  import Sync20161215

  /** The row an incoming item is meant for. */
  function Target(r: Record, ev: Event): string {
    if r.id == "" then ev.uuid else r.id
  }

  /** When an item is saved, and what is saved: the sender's fields under the user's name, stamped
      with the present, and emptied when it is a tombstone. A row that exists may be overwritten
      only by an item dated less than one millisecond away from it. */
  lemma SavedIff(table: Table, userID: string, r: Record, ev: Event)
    ensures var out := Process(table, userID, r, ev);
            && (out.Saved? <==>
                && !ev.findFails && !ev.saveFails
                && (r.id in table && table[r.id].userID == userID ==>
                      Abs(r.updatedAt - table[r.id].updatedAt) < MILLISECOND))
            && (out.Saved? ==>
                && out.item.id == Target(r, ev) && out.item.userID == userID && out.item.updatedAt == ev.now
                && out.item.deleted == r.deleted && out.item.contentType == r.contentType
                && out.item.itemsKeyID == r.itemsKeyID
                && out.item.content == (if r.deleted then "" else r.content)
                && out.item.encryptedItemKey == (if r.deleted then "" else r.encryptedItemKey))
            && (out.SyncConflict? ==> Stored(table, out.server) || !WellKeyed(table))
            && (out.SyncConflict? ==> r.id in table && out.server == table[r.id] && out.server.userID == userID)
  {
    if r.id in table {
      MillisecondThreshold(r.updatedAt, table[r.id].updatedAt);
    }
  }

  /** Why an item is not saved, and what the answer holds of it then. */
  lemma NotSavedBecause(table: Table, userID: string, r: Record, ev: Event)
    ensures var out := Process(table, userID, r, ev);
            var conflicts := r.id in table && table[r.id].userID == userID
                             && Abs(r.updatedAt - table[r.id].updatedAt) >= MILLISECOND;
            && (out.FindFailed? <==> ev.findFails)
            && (out.SyncConflict? <==> !ev.findFails && conflicts)
            && (out.SaveFailed? <==> !ev.findFails && !conflicts && ev.saveFails)
            && (out.FindFailed? ==> out.unsaved == r.(userID := userID))
            && (out.SaveFailed? ==>
                  && out.unsaved.id == Target(r, ev) && out.unsaved.updatedAt == ev.now && out.unsaved.userID == userID
                  && out.unsaved.createdAt == (if r.id == "" then ev.now else r.createdAt)
                  && out.unsaved.deleted == r.deleted && out.unsaved.contentType == r.contentType
                  && out.unsaved.itemsKeyID == r.itemsKeyID
                  && out.unsaved.content == (if r.deleted then "" else r.content)
                  && out.unsaved.encryptedItemKey == (if r.deleted then "" else r.encryptedItemKey))
            && (out.Saved? ==> out.item.createdAt == if r.id == "" then ev.now else r.createdAt)
  {
    if r.id in table {
      MillisecondThreshold(r.updatedAt, table[r.id].updatedAt);
    }
  }

  /** Version 20161215 saves every item the database takes: the sender's fields under the user's name,
      stamped, and emptied when it is a tombstone. */
  lemma AttemptSaves(userID: string, r: Record, ev: Event)
    ensures var out := Sync20161215.Attempt(userID, r, ev);
            && (if ev.saveFails then out.SaveFailed? else out.Saved?)
            && var item := if out.Saved? then out.item else out.unsaved;
            && item.id == Target(r, ev) && item.userID == userID && item.updatedAt == ev.now
            && item.createdAt == (if r.id == "" then ev.now else r.createdAt)
            && item.deleted == r.deleted && item.contentType == r.contentType && item.itemsKeyID == r.itemsKeyID
            && item.content == (if r.deleted then "" else r.content)
            && item.encryptedItemKey == (if r.deleted then "" else r.encryptedItemKey)
  {
  }

  /** How many of the first `k` items were saved. */
  function SavedBefore(outs: seq<Outcome>, k: nat): (n: nat)
    requires k <= |outs|
    ensures n <= k
  {
    if k == 0 then 0 else SavedBefore(outs, k - 1) + if outs[k - 1].Saved? then 1 else 0
  }

  lemma {:induction false} SavedBeforePrefix(outs: seq<Outcome>, n: nat, k: nat)
    requires k <= n <= |outs|
    ensures SavedBefore(outs[..n], k) == SavedBefore(outs, k)
  {
    if k > 0 {
      SavedBeforePrefix(outs, n, k - 1);
    }
  }

  lemma {:induction false} SavedBeforeMonotone(outs: seq<Outcome>, j: nat, k: nat)
    requires j <= k <= |outs|
    ensures SavedBefore(outs, j) <= SavedBefore(outs, k) <= SavedBefore(outs, j) + (k - j)
  {
    if j < k {
      SavedBeforeMonotone(outs, j, k - 1);
    }
  }

  lemma LastAnswer(items: seq<Item>, outs: seq<Outcome>)
    requires |items| == |outs|
    ensures outs == [] ==> SavedItems(items, outs) == [] && ConflictItems(items, outs) == []
    ensures var m := |outs| - 1;
            outs != [] ==>
              && SavedItems(items, outs)
                 == SavedItems(items[..m], outs[..m]) + (if outs[m].Saved? then [items[m]] else [])
              && ConflictItems(items, outs)
                 == ConflictItems(items[..m], outs[..m])
                    + (if outs[m].Saved? then [] else [ConflictOf(items[m], outs[m])])
  {
  }

  lemma {:induction false} AnswerLengths(items: seq<Item>, outs: seq<Outcome>)
    requires |items| == |outs|
    ensures |SavedItems(items, outs)| == SavedBefore(outs, |outs|)
    ensures |ConflictItems(items, outs)| == |outs| - SavedBefore(outs, |outs|)
  {
    hide SavedItems, ConflictItems, ConflictOf;
    LastAnswer(items, outs);
    if outs != [] {
      var m := |outs| - 1;
      AnswerLengths(items[..m], outs[..m]);
      SavedBeforePrefix(outs, m, m);
    }
  }

  /** Every incoming item has exactly one entry in the answer, at the place its position tells:
      item `k` is the next of the saved items, or the next of the conflicts. A conflict with a row holds that
      row, and one that comes from the database the item itself. */
  lemma {:induction false} EveryItemIsAnswered(items: seq<Item>, outs: seq<Outcome>, k: nat)
    requires |items| == |outs| && k < |outs|
    ensures |SavedItems(items, outs)| + |ConflictItems(items, outs)| == |items|
    ensures var n := SavedBefore(outs, k);
            if outs[k].Saved? then n < |SavedItems(items, outs)| && SavedItems(items, outs)[n] == items[k]
            else
              && k - n < |ConflictItems(items, outs)|
              && ConflictItems(items, outs)[k - n]
                 == match outs[k]
                    case SyncConflict(server) => ConflictItem(null, Some(server), "sync_conflict")
                    case FindFailed(_) => ConflictItem(items[k], None, "internal_error")
                    case SaveFailed(_) => ConflictItem(items[k], None, "uuid_conflict")
    decreases |outs|
  {
    hide SavedItems, ConflictItems;
    var m := |outs| - 1;
    LastAnswer(items, outs);
    AnswerLengths(items, outs);
    AnswerLengths(items[..m], outs[..m]);
    SavedBeforePrefix(outs, m, k);
    if k < m {
      EveryItemIsAnswered(items[..m], outs[..m], k);
    }
  }

  lemma LastUnsaved(items: seq<Item>, outs: seq<Outcome>)
    requires |items| == |outs| > 0
    ensures var m := |outs| - 1;
            Sync20161215.FailedItems(items, outs)
            == Sync20161215.FailedItems(items[..m], outs[..m])
               + (if outs[m].Saved? then [] else [Sync20161215.UnsavedItem(items[m], None, "")])
  {
  }

  lemma {:induction false} UnsavedLength(items: seq<Item>, outs: seq<Outcome>)
    requires |items| == |outs|
    ensures |Sync20161215.FailedItems(items, outs)| == |outs| - SavedBefore(outs, |outs|)
  {
    if outs != [] {
      var m := |outs| - 1;
      LastUnsaved(items, outs);
      hide Sync20161215.FailedItems;
      UnsavedLength(items[..m], outs[..m]);
      SavedBeforePrefix(outs, m, m);
    }
  }

  /** The same for version 20161215: item `k` is the next of the saved items, or the next of the failed ones. */
  lemma {:induction false} EveryItemIsListed(items: seq<Item>, outs: seq<Outcome>, k: nat)
    requires |items| == |outs| && k < |outs|
    ensures |SavedItems(items, outs)| + |Sync20161215.FailedItems(items, outs)| == |items|
    ensures var n, failed := SavedBefore(outs, k), Sync20161215.FailedItems(items, outs);
            if outs[k].Saved? then n < |SavedItems(items, outs)| && SavedItems(items, outs)[n] == items[k]
            else k - n < |failed| && failed[k - n] == Sync20161215.UnsavedItem(items[k], None, "")
    decreases |outs|
  {
    hide SavedItems, ConflictItems, Sync20161215.FailedItems;
    var m := |outs| - 1;
    LastUnsaved(items, outs);
    EveryItemIsAnswered(items, outs, k);
    AnswerLengths(items, outs);
    UnsavedLength(items, outs);
    UnsavedLength(items[..m], outs[..m]);
    SavedBeforePrefix(outs, m, k);
    if k < m {
      EveryItemIsListed(items[..m], outs[..m], k);
    }
  }

  /** The table changes at the saved ids only, and there it holds a saved item. */
  lemma {:induction false} WrittenAt(table: Table, outs: seq<Outcome>, id: string)
    ensures id !in Ids(SavedOf(outs)) ==>
              (id in Written(table, outs) <==> id in table) && (id in table ==> Written(table, outs)[id] == table[id])
    ensures id in Ids(SavedOf(outs)) ==>
              id in Written(table, outs) && Written(table, outs)[id].id == id
                && Written(table, outs)[id] in SavedOf(outs)
  {
    if outs != [] {
      var n := |outs| - 1;
      WrittenAt(table, outs[..n], id);
      SavedOneMore(outs[..n], outs[n]);
      assert outs[..n] + [outs[n]] == outs;
    }
  }

  lemma SavedOneMore(outs: seq<Outcome>, last: Outcome)
    ensures SavedOf(outs + [last]) == SavedOf(outs) + (if last.Saved? then [last.item] else [])
    ensures Ids(SavedOf(outs + [last])) == Ids(SavedOf(outs)) + (if last.Saved? then {last.item.id} else {})
    ensures ServersOf(outs + [last]) == ServersOf(outs) + (if last.SyncConflict? then [last.server] else [])
  {
    assert (outs + [last])[..|outs|] == outs;
  }

  /** Entries of the answer come from outcomes. */
  lemma {:induction false} SavedFrom(outs: seq<Outcome>, r: Record)
    ensures r in SavedOf(outs) <==> exists k :: 0 <= k < |outs| && outs[k] == Saved(r)
    ensures r in ServersOf(outs) <==> exists k :: 0 <= k < |outs| && outs[k] == SyncConflict(r)
  {
    if outs != [] {
      var n := |outs| - 1;
      var before, last := outs[..n], outs[n];
      SavedFrom(before, r);
      SavedOneMore(before, last);
      assert before + [last] == outs;
      if k :| 0 <= k < n && before[k] == Saved(r) {
        assert outs[k] == Saved(r);
      }
      if k :| 0 <= k < n && before[k] == SyncConflict(r) {
        assert outs[k] == SyncConflict(r);
      }
    }
  }

  /** A saved item that no later one supersedes is what the table holds. */
  lemma {:induction false} LastWritten(table: Table, outs: seq<Outcome>, k: nat)
    requires k < |outs| && outs[k].Saved?
    requires forall j :: k < j < |outs| && outs[j].Saved? ==> outs[j].item.id != outs[k].item.id
    ensures var id := outs[k].item.id;
            id in Written(table, outs) && Written(table, outs)[id] == outs[k].item
    decreases |outs|
  {
    var n := |outs| - 1;
    if k < n {
      LastWritten(table, outs[..n], k);
    }
  }

  ghost predicate DistinctTargets(records: seq<Record>, evs: seq<Event>)
    requires |records| == |evs|
  {
    forall i, j :: 0 <= i < j < |records| ==> Target(records[i], evs[i]) != Target(records[j], evs[j])
  }

  ghost predicate RealIds(evs: seq<Event>) {
    forall i :: 0 <= i < |evs| ==> evs[i].uuid != ""
  }

  /** Rows stay stored under their own, non-empty id. */
  lemma {:induction false} StaysWellKeyed(table: Table, userID: string, records: seq<Record>, evs: seq<Event>)
    requires |records| == |evs| && WellKeyed(table) && RealIds(evs)
    ensures WellKeyed(Written(table, Outcomes(table, userID, records, evs)))
  {
    if records != [] {
      var n := |records| - 1;
      StaysWellKeyed(table, userID, records[..n], evs[..n]);
      var before := Outcomes(table, userID, records[..n], evs[..n]);
      var last := Process(Written(table, before), userID, records[n], evs[n]);
      assert (before + [last])[..n] == before;
      hide Process;
      SavedIff(Written(table, before), userID, records[n], evs[n]);
    }
  }

  /** An item is decided against the table as its predecessors left it. */
  lemma {:induction false} OutcomeAt(table: Table, userID: string, records: seq<Record>, evs: seq<Event>, k: nat)
    requires |records| == |evs| && k < |records|
    ensures Outcomes(table, userID, records, evs)[k]
         == Process(Written(table, Outcomes(table, userID, records[..k], evs[..k])), userID, records[k], evs[k])
    decreases |records|
  {
    var n := |records| - 1;
    if k < n {
      OutcomeAt(table, userID, records[..n], evs[..n], k);
      assert records[..n][..k] == records[..k] && evs[..n][..k] == evs[..k];
    }
  }

  /** An outcome keeps the target of its item. */
  lemma OutcomeTarget(table: Table, userID: string, records: seq<Record>, evs: seq<Event>, k: nat)
    requires |records| == |evs| && k < |records| && WellKeyed(table) && RealIds(evs)
    ensures var out := Outcomes(table, userID, records, evs)[k];
            && (out.Saved? ==> out.item.id == Target(records[k], evs[k]) != "")
            && (out.SyncConflict? ==> out.server.id == records[k].id == Target(records[k], evs[k]))
  {
    hide Outcomes, Process, Written;
    OutcomeAt(table, userID, records, evs, k);
    StaysWellKeyed(table, userID, records[..k], evs[..k]);
    SavedIff(Written(table, Outcomes(table, userID, records[..k], evs[..k])), userID, records[k], evs[k]);
  }

  /** With distinct targets every item is decided against the table the request found. */
  lemma Independent(table: Table, userID: string, records: seq<Record>, evs: seq<Event>, k: nat)
    requires |records| == |evs| && k < |records| && WellKeyed(table) && RealIds(evs)
    requires DistinctTargets(records, evs)
    ensures Outcomes(table, userID, records, evs)[k] == Process(table, userID, records[k], evs[k])
  {
    hide Outcomes, Written, SavedOf;
    OutcomeAt(table, userID, records, evs, k);
    var before := Outcomes(table, userID, records[..k], evs[..k]);
    var id := records[k].id;
    WrittenAt(table, before, id);
    if id in Ids(SavedOf(before)) {
      var r :| r in SavedOf(before) && r.id == id;
      SavedFrom(before, r);
      var j :| 0 <= j < |before| && before[j] == Saved(r);
      OutcomeTarget(table, userID, records[..k], evs[..k], j);
    }
  }
}
