/** The versions an item goes through when clients overwrite it under the rules of 20190520. */
module History {
  import opened Basics
  import opened Times
  import opened Database
  import opened Sync
  import opened Sync20190520
  import opened Conservation

  /** A version of an item and the version its writer had seen, if there was one. */
  datatype Version = Version(row: Record, parent: Option<nat>)

  type Log = map<string, seq<Version>>

  /** One incoming item of some request; `parent` is the version its sender has edited. */
  datatype Edit = Edit(userID: string, item: Record, parent: nat, ev: Event)

  datatype State = State(table: Table, log: Log)

  function Versions(log: Log, id: string): seq<Version> {
    if id in log then log[id] else []
  }

  /** How an edit is processed, and the version it adds to the log when it is saved. */
  function Next(st: State, e: Edit): State {
    match Process(st.table, e.userID, e.item, e.ev)
    case Saved(row) =>
      var before := Versions(st.log, row.id);
      State(st.table[row.id := row],
            st.log[row.id := before + [Version(row, if before == [] then None else Some(e.parent))]])
    case _ => st
  }

  function After(st: State, edits: seq<Edit>): State {
    if edits == [] then st else Next(After(st, edits[..|edits| - 1]), edits[|edits| - 1])
  }

  /** The sender carries the time of a version, exact or cut to milliseconds, for an item that is its
      user's. */
  ghost predicate Informed(st: State, e: Edit) {
    && e.item.id != ""
    && (e.item.id in st.table ==> st.table[e.item.id].userID == e.userID)
    && var versions := Versions(st.log, e.item.id);
       versions != [] ==>
         && e.parent < |versions|
         && e.item.updatedAt in {versions[e.parent].row.updatedAt, TruncateToMilli(versions[e.parent].row.updatedAt)}
  }

  /** And when it is saved, it is not within a millisecond of the save before it. */
  ghost predicate Proper(st: State, e: Edit) {
    && Informed(st, e)
    && var versions := Versions(st.log, e.item.id);
       versions != [] && Process(st.table, e.userID, e.item, e.ev).Saved? ==>
         versions[|versions| - 1].row.updatedAt + MILLISECOND <= e.ev.now
  }

  ghost predicate ProperRun(st: State, edits: seq<Edit>) {
    forall i :: 0 <= i < |edits| ==> Proper(After(st, edits[..i]), edits[i])
  }

  /** Every version but the first was written by somebody who had seen the one before it. */
  ghost predicate Linear(versions: seq<Version>) {
    forall i :: 0 <= i < |versions| ==> versions[i].parent == if i == 0 then None else Some(i - 1)
  }

  ghost predicate Spaced(versions: seq<Version>) {
    forall i, j :: 0 <= i < j < |versions| ==> versions[i].row.updatedAt + MILLISECOND <= versions[j].row.updatedAt
  }

  /** The table holds the last version of everything that has a log, and nothing else. */
  ghost predicate Consistent(st: State) {
    && (forall id :: id in st.table <==> id in st.log)
    && forall id :: id in st.log ==>
         && st.log[id] != []
         && st.table[id] == st.log[id][|st.log[id]| - 1].row
         && Spaced(st.log[id]) && Linear(st.log[id])
  }

  /** An overwrite is accepted if and only if the version it is based on is the current one. */
  lemma AcceptedIffCurrent(st: State, e: Edit)
    requires Consistent(st) && Informed(st, e) && e.item.id in st.log
    requires !e.ev.findFails && !e.ev.saveFails
    ensures Process(st.table, e.userID, e.item, e.ev).Saved? <==> e.parent == |st.log[e.item.id]| - 1
  {
    hide Process;
    SavedIff(st.table, e.userID, e.item, e.ev);
  }

  /** Without any spacing: an overwrite that carries the time of a version, exact or cut to milliseconds, is
      accepted if and only if what passed between that version and the current one, together with what was
      cut off, is less than a millisecond; so a stale edit gets through in exactly that case. */
  lemma AcceptedIffClose(st: State, e: Edit, seen: Time)
    requires e.item.id in st.table && st.table[e.item.id].userID == e.userID
    requires e.item.updatedAt in {seen, TruncateToMilli(seen)} && seen <= st.table[e.item.id].updatedAt
    requires !e.ev.findFails && !e.ev.saveFails
    ensures Process(st.table, e.userID, e.item, e.ev).Saved?
            <==> (st.table[e.item.id].updatedAt - seen) + (seen - e.item.updatedAt) < MILLISECOND
  {
    hide Process;
    SavedIff(st.table, e.userID, e.item, e.ev);
  }

  lemma AddedIsLinear(before: seq<Version>, row: Record, parent: nat)
    requires Spaced(before) && Linear(before)
    requires before != [] ==>
               before[|before| - 1].row.updatedAt + MILLISECOND <= row.updatedAt && parent == |before| - 1
    ensures var added := Version(row, if before == [] then None else Some(parent));
            Spaced(before + [added]) && Linear(before + [added])
  {
  }

  lemma NextIsConsistent(st: State, e: Edit)
    requires Consistent(st) && Proper(st, e)
    ensures Consistent(Next(st, e))
  {
    hide Process, Spaced, Linear;
    var out := Process(st.table, e.userID, e.item, e.ev);
    if out.Saved? {
      SavedIff(st.table, e.userID, e.item, e.ev);
      var before := Versions(st.log, e.item.id);
      if before != [] {
        AcceptedIffCurrent(st, e);
      } else {
        NothingIsLinear();
      }
      AddedIsLinear(before, out.item, e.parent);
    }
  }

  lemma NothingIsLinear()
    ensures Spaced([]) && Linear([])
  {
  }

  lemma {:induction false} RunIsConsistent(st: State, edits: seq<Edit>)
    requires Consistent(st) && ProperRun(st, edits)
    ensures Consistent(After(st, edits))
  {
    if edits != [] {
      hide Consistent, Proper, Next;
      var n := |edits| - 1;
      assert forall i :: 0 <= i < n ==> edits[..n][..i] == edits[..i];
      RunIsConsistent(st, edits[..n]);
      NextIsConsistent(After(st, edits[..n]), edits[n]);
    }
  }

  /** Linear history: in every run of proper edits no accepted edit is lost, because each version of
      an item was written by somebody who had seen the version it replaced. */
  lemma HistoryIsLinear(st: State, edits: seq<Edit>)
    requires Consistent(st) && ProperRun(st, edits)
    ensures forall id :: id in After(st, edits).log ==> Linear(After(st, edits).log[id])
  {
    hide ProperRun, After, Linear;
    RunIsConsistent(st, edits);
  }

  const EMPTY: State := State(map[], map[])

  lemma AfterOneMore(st: State, edits: seq<Edit>, e: Edit)
    ensures After(st, edits + [e]) == Next(After(st, edits), e)
  {
    assert (edits + [e])[..|edits|] == edits;
  }

  /** A history that forks, because versions lie less than a millisecond apart: the third edit is based on the
      first version, and yet it replaces the second. */
  lemma StaleEditGetsThrough() returns (edits: seq<Edit>)
    ensures |edits| == 3 && forall i :: 0 <= i < 3 ==> Informed(After(EMPTY, edits[..i]), edits[i])
    ensures var log := After(EMPTY, edits).log;
            "note" in log && |log["note"]| == 3 && log["note"][2].parent == Some(0) && !Linear(log["note"])
  {
    var item := Record("note", 0, 0, "user", "", "text", "Note", "key", false);
    var e0 := Edit("user", item, 0, Event(0, "0", false, false));
    var e1 := Edit("user", item, 0, Event(500, "0", false, false));
    var e2 := Edit("user", item, 0, Event(900, "0", false, false));
    edits := [e0, e1, e2];
    AfterOneMore(EMPTY, [], e0);
    AfterOneMore(EMPTY, [e0], e1);
    AfterOneMore(EMPTY, [e0, e1], e2);
    assert [] + [e0] == edits[..1] && [e0] + [e1] == edits[..2] && [e0, e1] + [e2] == edits;
  }

  /** The edits of one request, in the order `Save` takes its items. */
  function EditsOf(userID: string, records: seq<Record>, parents: seq<nat>, evs: seq<Event>): seq<Edit>
    requires |records| == |parents| == |evs|
  {
    seq(|records|, k requires 0 <= k < |records| => Edit(userID, records[k], parents[k], evs[k]))
  }

  /** A request is a run of its edits. */
  lemma {:induction false} RequestIsRun(st: State, userID: string, records: seq<Record>, parents: seq<nat>,
                                        evs: seq<Event>)
    requires |records| == |parents| == |evs|
    ensures After(st, EditsOf(userID, records, parents, evs)).table
            == Written(st.table, Outcomes(st.table, userID, records, evs))
  {
    if records != [] {
      var n := |records| - 1;
      var edits := EditsOf(userID, records, parents, evs);
      assert edits[..n] == EditsOf(userID, records[..n], parents[..n], evs[..n]);
      RequestIsRun(st, userID, records[..n], parents[..n], evs[..n]);
      var outs := Outcomes(st.table, userID, records, evs);
      assert outs[..n] == Outcomes(st.table, userID, records[..n], evs[..n]);
      hide Process;
    }
  }
}
