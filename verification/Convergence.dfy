/** Replication over whole runs: any number of clients of any number of users take turns at
    synchronising with one server, each time through either version of the protocol. */
module Convergence {
  import opened Basics
  import opened Times
  import opened Database
  import opened Sync
  import opened Conservation
  import Token
  import V1 = Sync20161215
  import V2 = Sync20190520

  /** A client keeps the sync token of its last answer and a replica of its user's items. */
  datatype Peer = Peer(userID: string, token: string, replica: Table)

  datatype World = World(table: Table, clock: Time, peers: map<string, Peer>)

  datatype Api = Api20161215 | Api20190520

  /** What a client takes from an answer; only version 20190520 sends the server's side of conflicts. */
  datatype Reply = Reply(retrieved: seq<Record>, saved: seq<Record>, servers: seq<Record>, syncToken: string)

  /** A client takes over the rows of an answer in order and forgets deleted ones. */
  function Apply(replica: Table, rows: seq<Record>): Table {
    if rows == [] then replica
    else
      var before := Apply(replica, rows[..|rows| - 1]);
      var last := rows[|rows| - 1];
      if last.deleted then before - {last.id} else before[last.id := last]
  }

  /** First what was retrieved, then what was saved, then the server's side of the conflicts. */
  function Merge(replica: Table, reply: Reply): Table {
    Apply(Apply(Apply(replica, reply.retrieved), reply.saved), reply.servers)
  }

  function Live(table: Table, userID: string): Table {
    map id | id in table && table[id].userID == userID && !table[id].deleted :: table[id]
  }

  /** One request: who sends which items by which version, and how the server, its clock and its
      database treat it. */
  datatype Step = Step(peer: string, api: Api, items: seq<Record>, computeIntegrity: bool,
                       reply: Reply, page: seq<Record>, asked: Time, evs: seq<Event>, now: Time)

  function ParamsOf(peer: Peer, s: Step): Params {
    Params(s.computeIntegrity, 0, peer.token, "", "")
  }

  function Outcomes(api: Api, table: Table, userID: string, items: seq<Record>, evs: seq<Event>): (outs: seq<Outcome>)
    requires |items| == |evs|
    ensures |outs| == |items|
  {
    if api.Api20161215? then V1.Attempts(userID, items, evs) else V2.Outcomes(table, userID, items, evs)
  }

  /** The ids whose rows are taken from the page. */
  function Withdrawn(s: Step): set<string> {
    Ids(if s.api.Api20161215? then s.reply.saved else s.reply.servers)
  }

  ghost predicate Executes(table: Table, table': Table, peer: Peer, s: Step) {
    match s.api
    case Api20161215 =>
      && s.reply.servers == []
      && V1.Executes(table, table', V1.Request(peer.userID, ParamsOf(peer, s), s.items),
                     V1.Answer(s.reply.retrieved, s.reply.saved, V1.Conflicted(s.page, s.reply.saved),
                               s.reply.syncToken, ""),
                     s.page, s.asked, s.evs, s.now)
    case Api20190520 =>
      V2.Executes(table, table', V2.Request(peer.userID, ParamsOf(peer, s), s.items),
                  V2.Answer(s.reply.retrieved, s.reply.saved, s.reply.servers, s.reply.syncToken, ""),
                  s.page, s.asked, s.evs, s.now)
  }

  /** The request is complete: no limit, cursor or type filter, items with different ids that no
      other user owns. The clock does not go back; searches and saves of items may fail. */
  ghost predicate Takes(w: World, s: Step, w': World) {
    && s.peer in w.peers
    && |s.evs| == |s.items|
    && var peer := w.peers[s.peer];
    && DistinctTargets(s.items, s.evs)
    && (forall k :: 0 <= k < |s.evs| ==>
          Target(s.items[k], s.evs[k]) in w.table ==> w.table[Target(s.items[k], s.evs[k])].userID == peer.userID)
    && w.clock <= s.asked
    && s.now + MICROSECOND <= MAX_INT64
    && Executes(w.table, w'.table, peer, s)
    && w'.clock == s.now
    && w'.peers == w.peers[s.peer := peer.(token := s.reply.syncToken, replica := Merge(peer.replica, s.reply))]
  }

  ghost predicate Initial(w: World) {
    && WellKeyed(w.table) && NoneAfter(w.table, w.clock)
    && MIN_INT64 <= w.clock
    && forall p :: p in w.peers ==> w.peers[p].token == "" && w.peers[p].replica == map[]
  }

  /** `worlds` are the successive states of a run that takes `steps`. */
  ghost predicate Run(worlds: seq<World>, steps: seq<Step>) {
    && |worlds| == |steps| + 1
    && Initial(worlds[0])
    && forall i :: 0 <= i < |steps| ==> Takes(worlds[i], steps[i], worlds[i + 1])
  }

  /** The clock moves by more than a microsecond between two requests. */
  ghost predicate Late(w: World, s: Step) {
    w.clock + MICROSECOND < s.asked
  }

  ghost predicate SpacedRun(worlds: seq<World>, steps: seq<Step>) {
    Run(worlds, steps) && forall i :: 0 <= i < |steps| ==> Late(worlds[i], steps[i])
  }

  /** A replica and the table say the same about an id of a user. */
  ghost predicate Agree(replica: Table, table: Table, userID: string, id: string) {
    if id in table && table[id].userID == userID && !table[id].deleted then id in replica && replica[id] == table[id]
    else id !in replica
  }

  /** A client that has never synchronised is empty; the replica of another agrees with the table on
      everything that has not been written since the instant its token names. */
  ghost predicate UpToDate(peer: Peer, table: Table, clock: Time) {
    if peer.token == "" then peer.replica == map[]
    else
      var reading := Token.TimeFromToken(peer.token);
      && reading.At? && FitsInt64(reading.t) && reading.t <= clock + MICROSECOND
      && (forall id :: id in peer.replica ==> id in table && table[id].userID == peer.userID)
      && forall id :: id in table && table[id].userID == peer.userID && table[id].updatedAt <= reading.t
                      ==> Agree(peer.replica, table, peer.userID, id)
  }

  ghost predicate Sane(w: World) {
    WellKeyed(w.table) && NoneAfter(w.table, w.clock) && MIN_INT64 <= w.clock
  }

  ghost predicate Invariant(w: World) {
    Sane(w) && forall p :: p in w.peers ==> UpToDate(w.peers[p], w.table, w.clock)
  }

  /** A replica says about a row's id what the row says. */
  predicate Shows(replica: Table, r: Record) {
    if r.deleted then r.id !in replica else r.id in replica && replica[r.id] == r
  }

  /** After applying rows an id is as before, or as some row with that id says. */
  lemma {:induction false} ApplyAt(replica: Table, rows: seq<Record>, id: string)
    ensures id !in Ids(rows) ==> (id in Apply(replica, rows) <==> id in replica)
    ensures id !in Ids(rows) && id in replica ==> Apply(replica, rows)[id] == replica[id]
    ensures id in Ids(rows) ==> exists r :: r in rows && r.id == id && Shows(Apply(replica, rows), r)
  {
    if rows != [] {
      var before, last := rows[..|rows| - 1], rows[|rows| - 1];
      ApplyAt(replica, before, id);
      assert rows == before + [last];
      assert forall r :: r in rows <==> r in before || r == last;
      if last.id != id && id in Ids(rows) {
        var r :| r in before && r.id == id && Shows(Apply(replica, before), r);
        assert r in rows;
      } else if last.id == id {
        assert last in rows;
      }
    }
  }

  /** What both versions have in common: the table, the answer and the page follow from the outcomes. */
  lemma StepOutcomes(w: World, s: Step, w': World) returns (outs: seq<Outcome>)
    requires Takes(w, s, w')
    ensures s.peer in w.peers && |s.items| == |s.evs| && Within(s.evs, s.asked, s.now)
    ensures outs == Outcomes(s.api, w.table, w.peers[s.peer].userID, s.items, s.evs)
    ensures w'.table == Written(w.table, outs) && s.reply.saved == SavedOf(outs)
            && s.reply.servers == V2.ServersOf(outs)
    ensures s.reply.retrieved == Without(s.page, Withdrawn(s))
    ensures IsPage(w.table, QueryOf(w.peers[s.peer].userID, ParamsOf(w.peers[s.peer], s), s.asked), 0, s.page, false)
    ensures s.reply.syncToken == Token.TokenFromTime(NextSync(s.reply.saved, s.now))
  {
    outs := Outcomes(s.api, w.table, w.peers[s.peer].userID, s.items, s.evs);
    if s.api.Api20161215? {
      NoServers(w.peers[s.peer].userID, s.items, s.evs);
    }
    hide V1.Attempts, V2.Outcomes, V2.ServersOf, SavedOf, Written, IsPage, QueryOf, Token.TokenFromTime, NextSync;
  }

  lemma NoServers(userID: string, items: seq<Record>, evs: seq<Event>)
    requires |items| == |evs|
    ensures V2.ServersOf(V1.Attempts(userID, items, evs)) == []
  {
    var outs := V1.Attempts(userID, items, evs);
    var servers := V2.ServersOf(outs);
    if servers != [] {
      assert servers[0] in servers;
      SavedFrom(outs, servers[0]);
    }
  }

  /** The outcomes of a step, each decided against the table the request found. */
  lemma StepOutcome(w: World, s: Step, w': World, k: nat)
    requires Takes(w, s, w') && WellKeyed(w.table) && k < |s.items|
    ensures var userID := w.peers[s.peer].userID;
            var out := Outcomes(s.api, w.table, userID, s.items, s.evs)[k];
            && out == (if s.api.Api20161215? then V1.Attempt(userID, s.items[k], s.evs[k])
                       else V2.Process(w.table, userID, s.items[k], s.evs[k]))
            && (out.Saved? ==> out.item.id == Target(s.items[k], s.evs[k]) != "" && out.item.userID == userID
                               && s.asked <= out.item.updatedAt <= s.now)
            && (out.SyncConflict? ==> Stored(w.table, out.server) && out.server.userID == userID
                                      && out.server.id == Target(s.items[k], s.evs[k]))
  {
    hide Executes, V1.Attempt, V2.Outcomes, V2.Process, Written, SavedOf, V2.ServersOf;
    var userID := w.peers[s.peer].userID;
    var outs := StepOutcomes(w, s, w');
    if s.api.Api20161215? {
      AttemptSaves(userID, s.items[k], s.evs[k]);
    } else {
      Independent(w.table, userID, s.items, s.evs, k);
      OutcomeTarget(w.table, userID, s.items, s.evs, k);
      SavedIff(w.table, userID, s.items[k], s.evs[k]);
    }
  }

  /** Where a saved row or a server's row of the answer comes from. */
  lemma SavedPosition(w: World, s: Step, w': World, r: Record) returns (k: nat)
    requires Takes(w, s, w') && WellKeyed(w.table) && r in s.reply.saved
    ensures k < |s.items| && Outcomes(s.api, w.table, w.peers[s.peer].userID, s.items, s.evs)[k] == Saved(r)
    ensures r.id == Target(s.items[k], s.evs[k]) != "" && r.userID == w.peers[s.peer].userID
            && s.asked <= r.updatedAt <= s.now
    ensures r.id in w.table ==> w.table[r.id].userID == r.userID
  {
    hide Outcomes, Written, SavedOf, V2.ServersOf, Executes, V1.Attempt, V2.Process;
    var outs := StepOutcomes(w, s, w');
    SavedFrom(outs, r);
    k :| 0 <= k < |outs| && outs[k] == Saved(r);
    StepOutcome(w, s, w', k);
  }

  lemma ServerPosition(w: World, s: Step, w': World, r: Record) returns (k: nat)
    requires Takes(w, s, w') && WellKeyed(w.table) && r in s.reply.servers
    ensures k < |s.items| && Outcomes(s.api, w.table, w.peers[s.peer].userID, s.items, s.evs)[k] == SyncConflict(r)
    ensures r.id == Target(s.items[k], s.evs[k]) && r.userID == w.peers[s.peer].userID && Stored(w.table, r)
  {
    hide Outcomes, Written, SavedOf, V2.ServersOf, Executes, V1.Attempt, V2.Process;
    var outs := StepOutcomes(w, s, w');
    SavedFrom(outs, r);
    k :| 0 <= k < |outs| && outs[k] == SyncConflict(r);
    StepOutcome(w, s, w', k);
  }

  lemma TargetsDiffer(w: World, s: Step, w': World, j: nat, k: nat)
    requires Takes(w, s, w') && j < |s.items| && k < |s.items|
    requires Target(s.items[j], s.evs[j]) == Target(s.items[k], s.evs[k])
    ensures j == k
  {
    hide Executes;
  }

  /** A saved row of the answer is the row the table now holds, under the sender's name. */
  lemma SavedRow(w: World, s: Step, w': World, r: Record)
    requires Takes(w, s, w') && WellKeyed(w.table) && r in s.reply.saved
    ensures Stored(w'.table, r) && r.userID == w.peers[s.peer].userID && s.asked <= r.updatedAt <= s.now
    ensures r.id != "" && r.id !in Ids(s.reply.servers)
    ensures r.id in w.table ==> w.table[r.id].userID == r.userID
  {
    hide Outcomes, Written, SavedOf, V2.ServersOf, Takes;
    var outs := StepOutcomes(w, s, w');
    var j := SavedPosition(w, s, w', r);
    WrittenAt(w.table, outs, r.id);
    var k := SavedPosition(w, s, w', w'.table[r.id]);
    TargetsDiffer(w, s, w', j, k);
    if c :| c in s.reply.servers && c.id == r.id {
      var l := ServerPosition(w, s, w', c);
      TargetsDiffer(w, s, w', j, l);
    }
  }

  /** The server's side of a conflict is the row the table holds, before and after. */
  lemma ServerRow(w: World, s: Step, w': World, r: Record)
    requires Takes(w, s, w') && WellKeyed(w.table) && r in s.reply.servers
    ensures Stored(w.table, r) && Stored(w'.table, r) && r.userID == w.peers[s.peer].userID
  {
    hide Outcomes, Written, SavedOf, V2.ServersOf, Takes;
    var outs := StepOutcomes(w, s, w');
    var k := ServerPosition(w, s, w', r);
    if x :| x in s.reply.saved && x.id == r.id {
      SavedRow(w, s, w', x);
    }
    WrittenAt(w.table, outs, r.id);
  }

  lemma UnsavedRow(w: World, s: Step, w': World, id: string)
    requires Takes(w, s, w') && id !in Ids(s.reply.saved)
    ensures id in w'.table <==> id in w.table
    ensures id in w.table ==> w'.table[id] == w.table[id]
  {
    hide Outcomes, Written, SavedOf, Takes;
    var outs := StepOutcomes(w, s, w');
    WrittenAt(w.table, outs, id);
  }

  /** The row under an id is one the request asks for. */
  predicate Asked(w: World, s: Step, id: string)
    requires s.peer in w.peers
  {
    id in w.table && Matches(QueryOf(w.peers[s.peer].userID, ParamsOf(w.peers[s.peer], s), s.asked), w.table[id])
  }

  /** The page holds the rows asked for; of these the answer retrieves all but the withdrawn ones. */
  lemma RetrievedIffAsked(w: World, s: Step, w': World, r: Record)
    requires Takes(w, s, w') && WellKeyed(w.table)
    ensures r in s.page <==> Stored(w.table, r) && Asked(w, s, r.id)
    ensures r in s.reply.retrieved <==> r in s.page && r.id !in Withdrawn(s)
  {
    hide Takes, Matches, QueryOf, Withdrawn;
    var outs := StepOutcomes(w, s, w');
  }

  lemma AskedIsOwned(w: World, s: Step, id: string)
    requires s.peer in w.peers && Asked(w, s, id)
    ensures id in w.table && w.table[id].userID == w.peers[s.peer].userID
  {
  }

  lemma RetrievedIds(w: World, s: Step, w': World, id: string)
    requires Takes(w, s, w') && WellKeyed(w.table)
    requires id !in Ids(s.reply.saved) && id !in Ids(s.reply.servers)
    ensures id in Ids(s.reply.retrieved) <==> Asked(w, s, id)
  {
    hide Executes, Asked;
    if id in Ids(s.reply.retrieved) {
      var r :| r in s.reply.retrieved && r.id == id;
      RetrievedIffAsked(w, s, w', r);
    }
    if Asked(w, s, id) {
      AskedIsOwned(w, s, id);
      RetrievedIffAsked(w, s, w', w.table[id]);
    }
  }

  /** After a step the replica of its client says about an id what the table says, if and only if the id is
      in the answer as saved or in conflict, or was asked for, or was agreed upon before. */
  lemma AgreesAfterIff(w: World, s: Step, w': World, id: string)
    requires Takes(w, s, w') && WellKeyed(w.table)
    ensures Agree(w'.peers[s.peer].replica, w'.table, w.peers[s.peer].userID, id)
            <==> || id in Ids(s.reply.saved) + Ids(s.reply.servers)
                 || Asked(w, s, id)
                 || Agree(w.peers[s.peer].replica, w.table, w.peers[s.peer].userID, id)
  {
    var peer := w.peers[s.peer];
    var afterPage := Apply(peer.replica, s.reply.retrieved);
    var afterSaved := Apply(afterPage, s.reply.saved);
    hide Apply, Executes, Asked;
    assert w'.peers[s.peer].replica == Apply(afterSaved, s.reply.servers);
    ApplyAt(afterSaved, s.reply.servers, id);
    ApplyAt(afterPage, s.reply.saved, id);
    ApplyAt(peer.replica, s.reply.retrieved, id);
    if id in Ids(s.reply.servers) {
      var r :| r in s.reply.servers && r.id == id && Shows(Apply(afterSaved, s.reply.servers), r);
      ServerRow(w, s, w', r);
    } else if id in Ids(s.reply.saved) {
      var r :| r in s.reply.saved && r.id == id && Shows(afterSaved, r);
      SavedRow(w, s, w', r);
    } else {
      UnsavedRow(w, s, w', id);
      RetrievedIds(w, s, w', id);
      if id in Ids(s.reply.retrieved) {
        var r :| r in s.reply.retrieved && r.id == id && Shows(afterPage, r);
        RetrievedIffAsked(w, s, w', r);
        AskedIsOwned(w, s, id);
      }
    }
  }

  lemma AgreeIsLive(replica: Table, table: Table, userID: string)
    ensures replica == Live(table, userID) <==> forall id: string :: Agree(replica, table, userID, id)
  {
    var live := Live(table, userID);
    if forall id: string :: Agree(replica, table, userID, id) {
      forall id: string
        ensures id in replica <==> id in live
        ensures id in replica ==> replica[id] == live[id]
      {
        assert Agree(replica, table, userID, id);
      }
      assert replica == live;
    }
    if replica == live {
      forall id: string
        ensures Agree(replica, table, userID, id)
      {
        assert id in replica <==> id in live;
      }
    }
  }

  lemma PeerAfter(w: World, s: Step, w': World)
    requires Takes(w, s, w')
    ensures s.peer in w'.peers && w'.peers[s.peer].userID == w.peers[s.peer].userID
    ensures w'.peers[s.peer].token == s.reply.syncToken
    ensures w'.peers.Keys == w.peers.Keys && forall p :: p in w.peers && p != s.peer ==> w'.peers[p] == w.peers[p]
    ensures w.clock <= s.asked <= s.now == w'.clock
  {
    var outs := StepOutcomes(w, s, w');
    hide Executes;
  }

  /** When a step makes its client converge, whatever the clock does. */
  lemma ConvergesIff(w: World, s: Step, w': World)
    requires Takes(w, s, w') && WellKeyed(w.table)
    ensures s.peer in w'.peers
    ensures w'.peers[s.peer].replica == Live(w'.table, w'.peers[s.peer].userID)
            <==> forall id: string ::
                   || id in Ids(s.reply.saved) + Ids(s.reply.servers)
                   || Asked(w, s, id)
                   || Agree(w.peers[s.peer].replica, w.table, w.peers[s.peer].userID, id)
  {
    hide Takes, Ids, Asked, Agree, WellKeyed, Live;
    PeerAfter(w, s, w');
    AgreeIsLive(w'.peers[s.peer].replica, w'.table, w'.peers[s.peer].userID);
    forall id: string
      ensures Agree(w'.peers[s.peer].replica, w'.table, w'.peers[s.peer].userID, id)
              <==> || id in Ids(s.reply.saved) + Ids(s.reply.servers)
                   || Asked(w, s, id)
                   || Agree(w.peers[s.peer].replica, w.table, w.peers[s.peer].userID, id)
    {
      AgreesAfterIff(w, s, w', id);
    }
  }

  /** What a client that has synchronised before asks for, and is sent on the page: the rows of its user that
      were written after the instant of its token, and no others. */
  lemma AskedIffWrittenSince(w: World, s: Step, t: Time, id: string)
    requires s.peer in w.peers && FitsInt64(t) && w.peers[s.peer].token == Token.TokenFromTime(t)
    ensures Asked(w, s, id)
            <==> id in w.table && w.table[id].userID == w.peers[s.peer].userID && w.table[id].updatedAt > t
  {
    Token.RoundTrip(t);
    Token.TokenIsNotEmpty(t);
    hide Token.TimeFromToken, Token.TokenFromTime;
  }

  lemma SentIffWrittenSince(w: World, s: Step, w': World, t: Time, id: string)
    requires Takes(w, s, w') && WellKeyed(w.table) && id in w.table && FitsInt64(t)
    requires w.peers[s.peer].token == Token.TokenFromTime(t)
    ensures w.table[id] in s.page <==> w.table[id].userID == w.peers[s.peer].userID && w.table[id].updatedAt > t
  {
    hide Takes, Asked;
    PeerAfter(w, s, w');
    AskedIffWrittenSince(w, s, t, id);
    RetrievedIffAsked(w, s, w', w.table[id]);
  }

  /** The server answers an item, as saved or, in version 20190520, with its own row. */
  predicate Answers(w: World, s: Step, item: Record, ev: Event)
    requires s.peer in w.peers
  {
    var conflicts := item.id in w.table && w.table[item.id].userID == w.peers[s.peer].userID
                     && Abs(item.updatedAt - w.table[item.id].updatedAt) >= MILLISECOND;
    if s.api.Api20161215? then !ev.saveFails else !ev.findFails && (conflicts || !ev.saveFails)
  }

  /** Some item for this id is answered. */
  predicate AnswersFor(w: World, s: Step, id: string)
    requires s.peer in w.peers && |s.items| == |s.evs|
  {
    exists k :: 0 <= k < |s.items| && Target(s.items[k], s.evs[k]) == id && Answers(w, s, s.items[k], s.evs[k])
  }

  lemma AnsweredIffOutcome(w: World, s: Step, w': World, k: nat)
    requires Takes(w, s, w') && WellKeyed(w.table) && k < |s.items|
    ensures var out := Outcomes(s.api, w.table, w.peers[s.peer].userID, s.items, s.evs)[k];
            Answers(w, s, s.items[k], s.evs[k]) <==> out.Saved? || out.SyncConflict?
  {
    hide Executes, Outcomes, V1.Attempt, V2.Process;
    StepOutcome(w, s, w', k);
    if s.api.Api20161215? {
      AttemptSaves(w.peers[s.peer].userID, s.items[k], s.evs[k]);
    } else {
      NotSavedBecause(w.table, w.peers[s.peer].userID, s.items[k], s.evs[k]);
    }
  }

  /** The ids of the answer's saved items and conflicts are those of the items that are answered. */
  lemma AnsweredIds(w: World, s: Step, w': World, id: string)
    requires Takes(w, s, w') && WellKeyed(w.table)
    ensures |s.items| == |s.evs| && (id in Ids(s.reply.saved) + Ids(s.reply.servers) <==> AnswersFor(w, s, id))
  {
    hide Executes, Outcomes, Answers, V2.ServersOf, SavedOf, Written;
    var outs := StepOutcomes(w, s, w');
    if id in Ids(s.reply.saved) {
      var r :| r in s.reply.saved && r.id == id;
      var k := SavedPosition(w, s, w', r);
      AnsweredIffOutcome(w, s, w', k);
    } else if id in Ids(s.reply.servers) {
      var r :| r in s.reply.servers && r.id == id;
      var k := ServerPosition(w, s, w', r);
      AnsweredIffOutcome(w, s, w', k);
    }
    if k :| 0 <= k < |s.items| && Target(s.items[k], s.evs[k]) == id && Answers(w, s, s.items[k], s.evs[k]) {
      AnsweredIffOutcome(w, s, w', k);
      StepOutcome(w, s, w', k);
      if outs[k].Saved? {
        SavedFrom(outs, outs[k].item);
      } else {
        SavedFrom(outs, outs[k].server);
      }
    }
  }

  /** For a client whose token names an instant: it converges if and only if its replica was right already about
      everything that it sends no answered item for and that was not written after that instant. */
  lemma ConvergesIffNothingMissed(w: World, s: Step, w': World, t: Time)
    requires Takes(w, s, w') && WellKeyed(w.table) && FitsInt64(t) && w.peers[s.peer].token == Token.TokenFromTime(t)
    ensures s.peer in w'.peers && |s.items| == |s.evs|
    ensures w'.peers[s.peer].replica == Live(w'.table, w'.peers[s.peer].userID)
            <==> forall id: string ::
                   || AnswersFor(w, s, id)
                   || (id in w.table && w.table[id].userID == w.peers[s.peer].userID && w.table[id].updatedAt > t)
                   || Agree(w.peers[s.peer].replica, w.table, w.peers[s.peer].userID, id)
  {
    hide Executes, Ids, Asked, Agree, AnswersFor, WellKeyed, Live, Token.TokenFromTime;
    PeerAfter(w, s, w');
    ConvergesIff(w, s, w');
    forall id: string
      ensures Asked(w, s, id)
              <==> id in w.table && w.table[id].userID == w.peers[s.peer].userID && w.table[id].updatedAt > t
      ensures id in Ids(s.reply.saved) + Ids(s.reply.servers) <==> AnswersFor(w, s, id)
    {
      AskedIffWrittenSince(w, s, t, id);
      AnsweredIds(w, s, w', id);
    }
  }

  /** A client that has fallen behind in nothing but rows it asks for is right about the rest. */
  lemma Unasked(w: World, s: Step, id: string)
    requires s.peer in w.peers && UpToDate(w.peers[s.peer], w.table, w.clock) && Late(w, s) && WellKeyed(w.table)
    ensures Asked(w, s, id) || Agree(w.peers[s.peer].replica, w.table, w.peers[s.peer].userID, id)
  {
    hide Token.TimeFromToken;
  }

  /** Convergence for one step. */
  lemma StepConverges(w: World, s: Step, w': World)
    requires Takes(w, s, w') && Late(w, s) && Invariant(w)
    ensures s.peer in w'.peers
    ensures w'.peers[s.peer].replica == Live(w'.table, w'.peers[s.peer].userID)
  {
    hide Takes, Asked, Agree, WellKeyed, NoneAfter, Live, UpToDate;
    PeerAfter(w, s, w');
    ConvergesIff(w, s, w');
    forall id: string
      ensures Asked(w, s, id) || Agree(w.peers[s.peer].replica, w.table, w.peers[s.peer].userID, id)
    {
      Unasked(w, s, id);
    }
  }

  /** The token of the answer names an instant between the request and one microsecond past it. */
  lemma NewToken(w: World, s: Step, w': World)
    requires Takes(w, s, w') && Sane(w)
    ensures s.reply.syncToken != ""
    ensures var reading := Token.TimeFromToken(s.reply.syncToken);
            reading.At? && FitsInt64(reading.t) && reading.t == NextSync(s.reply.saved, s.now) <= s.now + MICROSECOND
  {
    var outs := StepOutcomes(w, s, w');
    PeerAfter(w, s, w');
    hide Token.TokenFromTime, Token.TimeFromToken, Executes;
    var t := NextSync(s.reply.saved, s.now);
    var last := LastUpdated(s.reply.saved);
    if last != ZERO_TIME {
      var r :| r in s.reply.saved && r.updatedAt == last;
      SavedRow(w, s, w', r);
    }
    Token.RoundTrip(t);
    Token.TokenIsNotEmpty(t);
  }

  /** Rows keep their owner and are not removed; those not saved by the step keep their value. */
  lemma TableAfter(w: World, s: Step, w': World)
    requires Takes(w, s, w') && Sane(w)
    ensures Sane(w')
    ensures forall id :: id in w.table ==> id in w'.table && w'.table[id].userID == w.table[id].userID
    ensures forall id :: id in w'.table && w'.table[id].updatedAt < s.asked ==>
              id in w.table && w'.table[id] == w.table[id]
    ensures forall id :: id in w.table && w'.table[id] != w.table[id] ==> s.asked <= w'.table[id].updatedAt
  {
    PeerAfter(w, s, w');
    hide Takes, Written, SavedOf;
    forall id: string
      ensures id in w'.table ==> w'.table[id].updatedAt <= w'.clock && w'.table[id].id == id && id != ""
      ensures id in w.table ==> id in w'.table && w'.table[id].userID == w.table[id].userID
      ensures id in w'.table && w'.table[id].updatedAt < s.asked ==> id in w.table && w'.table[id] == w.table[id]
      ensures id in w.table && w'.table[id] != w.table[id] ==> s.asked <= w'.table[id].updatedAt
    {
      if id in Ids(s.reply.saved) {
        var r :| r in s.reply.saved && r.id == id;
        SavedRow(w, s, w', r);
      } else {
        UnsavedRow(w, s, w', id);
      }
    }
  }

  lemma AgreeSameRow(replica: Table, table: Table, table': Table, userID: string, id: string)
    ensures id in table && id in table' && table'[id] == table[id] && Agree(replica, table, userID, id)
            ==> Agree(replica, table', userID, id)
  {
  }

  /** The others fall behind only in rows written since their tokens were made. */
  lemma OthersStayUpToDate(w: World, s: Step, w': World, p: string)
    requires Takes(w, s, w') && Late(w, s) && Invariant(w) && p in w.peers && p != s.peer
    ensures p in w'.peers && UpToDate(w'.peers[p], w'.table, w'.clock)
  {
    hide Takes, Token.TimeFromToken, WellKeyed, NoneAfter, Agree;
    PeerAfter(w, s, w');
    TableAfter(w, s, w');
    assert UpToDate(w.peers[p], w.table, w.clock);
    forall id: string
      ensures id in w.table && id in w'.table && w'.table[id] == w.table[id]
              && Agree(w.peers[p].replica, w.table, w.peers[p].userID, id)
              ==> Agree(w.peers[p].replica, w'.table, w.peers[p].userID, id)
    {
      AgreeSameRow(w.peers[p].replica, w.table, w'.table, w.peers[p].userID, id);
    }
  }

  lemma LiveIsUpToDate(peer: Peer, table: Table, clock: Time)
    requires peer.token != "" && peer.replica == Live(table, peer.userID)
    requires var reading := Token.TimeFromToken(peer.token);
             reading.At? && FitsInt64(reading.t) && reading.t <= clock + MICROSECOND
    ensures UpToDate(peer, table, clock)
  {
    hide Token.TimeFromToken;
  }

  lemma InvariantKept(w: World, s: Step, w': World)
    requires Takes(w, s, w') && Late(w, s) && Invariant(w)
    ensures Invariant(w')
  {
    hide Takes, Late, UpToDate, Live, Sane, Token.TimeFromToken, NextSync;
    PeerAfter(w, s, w');
    TableAfter(w, s, w');
    NewToken(w, s, w');
    StepConverges(w, s, w');
    LiveIsUpToDate(w'.peers[s.peer], w'.table, w'.clock);
    forall p | p in w'.peers && p != s.peer
      ensures UpToDate(w'.peers[p], w'.table, w'.clock)
    {
      OthersStayUpToDate(w, s, w', p);
    }
  }

  lemma RunSteps(worlds: seq<World>, steps: seq<Step>)
    requires SpacedRun(worlds, steps)
    ensures |worlds| == |steps| + 1 && Invariant(worlds[0])
    ensures forall i :: 0 <= i < |steps| ==> Takes(worlds[i], steps[i], worlds[i + 1]) && Late(worlds[i], steps[i])
  {
    hide Takes;
  }

  lemma {:induction false} RunInvariant(worlds: seq<World>, steps: seq<Step>, i: nat)
    requires SpacedRun(worlds, steps) && i <= |steps|
    ensures Invariant(worlds[i])
  {
    hide *;
    RunSteps(worlds, steps);
    if i > 0 {
      RunInvariant(worlds, steps, i - 1);
      InvariantKept(worlds[i - 1], steps[i - 1], worlds[i]);
    }
  }

  /** Replica convergence: in every run, right after each of its syncs a client's replica is exactly
      the live items the server holds for its user. */
  lemma ReplicasConverge(worlds: seq<World>, steps: seq<Step>, i: nat)
    requires SpacedRun(worlds, steps) && i < |steps|
    ensures var peer := worlds[i + 1].peers[steps[i].peer];
            peer.replica == Live(worlds[i + 1].table, peer.userID)
  {
    hide Takes, Invariant, Live;
    RunInvariant(worlds, steps, i);
    StepConverges(worlds[i], steps[i], worlds[i + 1]);
  }

  lemma LiveValues(table: Table, userID: string)
    ensures Live(table, userID).Values == LiveRows(table, userID)
  {
    forall r | r in LiveRows(table, userID)
      ensures r in Live(table, userID).Values
    {
      var id :| id in table && table[id] == r;
      assert id in Live(table, userID) && Live(table, userID)[id] == r;
    }
  }

  /** The integrity check agrees: in every run a signature signs what the server holds for a user after a step if and
      only if it signs the replica of the client that has synchronised. */
  lemma IntegrityHashMatches(worlds: seq<World>, steps: seq<Step>, i: nat, sha256: string -> string, signature: string)
    requires SpacedRun(worlds, steps) && i < |steps|
    ensures var peer := worlds[i + 1].peers[steps[i].peer];
            Signs(sha256, LiveRows(worlds[i + 1].table, peer.userID), signature)
            <==> Signs(sha256, peer.replica.Values, signature)
  {
    hide Executes, Live, LiveRows, Signs;
    PeerAfter(worlds[i], steps[i], worlds[i + 1]);
    ReplicasConverge(worlds, steps, i);
    LiveValues(worlds[i + 1].table, worlds[i + 1].peers[steps[i].peer].userID);
  }

  // ---------------------------------------------------------------- Requests can be taken

  /** What the surroundings decide of a complete request: its time, its faults and its page. */
  ghost predicate Admissible(w: World, p: string, items: seq<Record>, evs: seq<Event>, page: seq<Record>, asked: Time,
                             now: Time) {
    && p in w.peers && |items| == |evs| && DistinctTargets(items, evs) && Within(evs, asked, now)
    && (forall k :: 0 <= k < |evs| ==>
          Target(items[k], evs[k]) in w.table ==> w.table[Target(items[k], evs[k])].userID == w.peers[p].userID)
    && w.clock <= asked && now + MICROSECOND <= MAX_INT64
    && IsPage(w.table, QueryOf(w.peers[p].userID, Params(false, 0, w.peers[p].token, "", ""), asked), 0, page, false)
  }

  function ReplyTo(api: Api, outs: seq<Outcome>, page: seq<Record>, now: Time): Reply {
    var saved, servers := SavedOf(outs), V2.ServersOf(outs);
    Reply(Without(page, Ids(if api.Api20161215? then saved else servers)), saved, servers,
          Token.TokenFromTime(NextSync(saved, now)))
  }

  /** Runs do not get stuck: every complete request can be taken through either version, whatever page the
      query finds and whatever fails. */
  lemma EveryRequestIsTaken(w: World, p: string, api: Api, items: seq<Record>, evs: seq<Event>, page: seq<Record>,
                            asked: Time, now: Time)
    returns (s: Step, w': World)
    requires Admissible(w, p, items, evs, page, asked, now)
    ensures Takes(w, s, w')
    ensures var reply := ReplyTo(api, Outcomes(api, w.table, w.peers[p].userID, items, evs), page, now);
            s == Step(p, api, items, false, reply, page, asked, evs, now)
    ensures w' == World(Written(w.table, Outcomes(api, w.table, w.peers[p].userID, items, evs)), now,
                        w.peers[p := w.peers[p].(token := s.reply.syncToken,
                                                 replica := Merge(w.peers[p].replica, s.reply))])
  {
    var peer := w.peers[p];
    var outs := Outcomes(api, w.table, peer.userID, items, evs);
    s := Step(p, api, items, false, ReplyTo(api, outs, page, now), page, asked, evs, now);
    w' := World(Written(w.table, outs), now,
                w.peers[p := peer.(token := s.reply.syncToken, replica := Merge(peer.replica, s.reply))]);
    hide Token.TokenFromTime, QueryOf, IsPage, Merge, Executes, Outcomes, Written;
    IsExecuted(w, peer, s);
  }

  lemma IsExecuted(w: World, peer: Peer, s: Step)
    requires |s.evs| == |s.items| && Within(s.evs, s.asked, s.now)
    requires IsPage(w.table, QueryOf(peer.userID, ParamsOf(peer, s), s.asked), 0, s.page, false)
    requires s.reply == ReplyTo(s.api, Outcomes(s.api, w.table, peer.userID, s.items, s.evs), s.page, s.now)
    ensures Executes(w.table, Written(w.table, Outcomes(s.api, w.table, peer.userID, s.items, s.evs)), peer, s)
  {
    if s.api.Api20161215? {
      NoServers(peer.userID, s.items, s.evs);
    }
    hide Token.TokenFromTime, QueryOf, IsPage, V1.Attempts, V2.Outcomes, V1.Conflicted, Written, NextSync, SavedOf,
      V2.ServersOf;
  }

  // ---------------------------------------------------------------- Requests that follow too soon

  /** A row that a client lacks and that is dated no later than its token's instant is still lacking after
      it has synchronised without sending anything. */
  lemma LackingStaysLacking(w: World, s: Step, w': World, t: Time, id: string)
    requires Takes(w, s, w') && WellKeyed(w.table) && FitsInt64(t) && s.items == []
    requires w.peers[s.peer].token == Token.TokenFromTime(t)
    requires id in Live(w.table, w.peers[s.peer].userID) && id !in w.peers[s.peer].replica && w.table[id].updatedAt <= t
    ensures s.peer in w'.peers && id in Live(w'.table, w.peers[s.peer].userID) && id !in w'.peers[s.peer].replica
  {
    hide Executes, Token.TimeFromToken, Token.TokenFromTime, Asked;
    var outs := StepOutcomes(w, s, w');
    assert outs == [];
    assert s.reply.saved == [] && s.reply.servers == [];
    AskedIffWrittenSince(w, s, t, id);
    UnsavedRow(w, s, w', id);
    AgreesAfterIff(w, s, w', id);
    RetrievedIds(w, s, w', id);
    ApplyAt(w.peers[s.peer].replica, s.reply.retrieved, id);
  }

  /** A sync that sends nothing and for which the query finds nothing moves the clock and the token only. */
  lemma EmptySync(w: World, p: string, asked: Time, now: Time) returns (s: Step, w': World)
    requires Admissible(w, p, [], [], [], asked, now)
    ensures Takes(w, s, w') && s.peer == p && s.asked == asked
    ensures w' == World(w.table, now, w.peers[p := w.peers[p].(token := Token.TokenFromTime(now + MICROSECOND))])
  {
    hide Token.TokenFromTime, Takes, IsPage, QueryOf;
    s, w' := EveryRequestIsTaken(w, p, Api20190520, [], [], [], asked, now);
    assert Outcomes(Api20190520, w.table, w.peers[p].userID, [], []) == [];
  }

  /** A new item sent on its own to an empty table is the table afterwards. */
  lemma FirstSave(w: World, p: string, item: Record, ev: Event) returns (s: Step, w': World)
    requires w.table == map[] && item.id != "" && !ev.findFails && !ev.saveFails
             && Admissible(w, p, [item], [ev], [], ev.now, ev.now)
    ensures Takes(w, s, w') && s.peer == p && s.asked == ev.now
    ensures w'.table == map[item.id := Stamped(Prepared(w.peers[p].userID, item), ev)] && w'.clock == ev.now
    ensures w'.peers.Keys == w.peers.Keys && forall q :: q in w.peers && q != p ==> w'.peers[q] == w.peers[q]
  {
    hide Token.TokenFromTime, Takes, IsPage, QueryOf;
    s, w' := EveryRequestIsTaken(w, p, Api20190520, [item], [ev], [], ev.now, ev.now);
    var outs := Outcomes(Api20190520, w.table, w.peers[p].userID, [item], [ev]);
    assert [item][..0] == [] && [ev][..0] == [];
    assert outs == [V2.Process(map[], w.peers[p].userID, item, ev)];
    assert outs[..0] == [] && Written(w.table, []) == w.table;
  }

  lemma NotAskedFor(w: World, p: string, t: Time, asked: Time)
    requires p in w.peers && FitsInt64(t) && w.peers[p].token == Token.TokenFromTime(t)
    requires forall id :: id in w.table ==> w.table[id].updatedAt <= t
    ensures forall id :: id in w.table ==>
              !Matches(QueryOf(w.peers[p].userID, Params(false, 0, w.peers[p].token, "", ""), asked), w.table[id])
  {
    Token.RoundTrip(t);
    Token.TokenIsNotEmpty(t);
    hide Token.TimeFromToken, Token.TokenFromTime;
  }

  /** The empty page answers a query nothing matches. */
  lemma EmptyPage(w: World, p: string, asked: Time)
    requires p in w.peers
    requires forall id :: id in w.table ==>
               !Matches(QueryOf(w.peers[p].userID, Params(false, 0, w.peers[p].token, "", ""), asked), w.table[id])
    ensures IsPage(w.table, QueryOf(w.peers[p].userID, Params(false, 0, w.peers[p].token, "", ""), asked), 0, [], false)
  {
    hide Matches, QueryOf;
  }

  /** A run in which a replica lacks an item, because the clock moved by half a microsecond only: the first
      client synchronises, the second saves an item, and the first synchronises again. */
  lemma TooSoonIsMissed() returns (worlds: seq<World>, steps: seq<Step>)
    ensures Run(worlds, steps) && |steps| == 3
    ensures worlds[0].clock < steps[1].asked < steps[2].asked
    ensures steps[2].peer in worlds[3].peers && worlds[3].peers[steps[2].peer].replica == map[]
    ensures Live(worlds[3].table, worlds[3].peers[steps[2].peer].userID) != map[]
  {
    hide Takes, IsPage, QueryOf, Matches, Token.TokenFromTime, Token.TimeFromToken;
    var item := Record("note", 0, 0, "user", "", "text", "Note", "key", false);
    var peer := Peer("user", "", map[]);
    var w0 := World(map[], 0, map["alice" := peer, "bob" := peer]);
    EmptyPage(w0, "alice", 0);
    var s0, w1 := EmptySync(w0, "alice", 0, 0);
    EmptyPage(w1, "bob", 500);
    var s1, w2 := FirstSave(w1, "bob", item, Event(500, "0", false, false));
    assert w2.peers["alice"].token == Token.TokenFromTime(1000);
    NotAskedFor(w2, "alice", 1000, 600);
    EmptyPage(w2, "alice", 600);
    var s2, w3 := EmptySync(w2, "alice", 600, 600);
    worlds, steps := [w0, w1, w2, w3], [s0, s1, s2];
    assert "note" in Live(w3.table, "user");
  }

  // ---------------------------------------------------------------- Once the writing stops

  /** Between two states of a run nothing is saved. */
  ghost predicate NothingSaved(steps: seq<Step>, from: nat, to: nat) {
    forall k :: from <= k < to && k < |steps| ==> steps[k].reply.saved == []
  }

  lemma QuietStepKeepsTable(w: World, s: Step, w': World)
    requires Takes(w, s, w') && s.reply.saved == []
    ensures w'.table == w.table
  {
    hide Takes;
    forall id: string
      ensures id in w'.table <==> id in w.table
      ensures id in w.table ==> w'.table[id] == w.table[id]
    {
      UnsavedRow(w, s, w', id);
    }
  }

  ghost predicate Converged(w: World, p: string) {
    p in w.peers && w.peers[p].replica == Live(w.table, w.peers[p].userID)
  }

  /** A client that has converged stays so, whoever synchronises, for as long as nothing is saved. */
  lemma {:induction false} StaysConverged(worlds: seq<World>, steps: seq<Step>, p: string, i: nat, j: nat)
    requires SpacedRun(worlds, steps) && i <= j <= |steps| && NothingSaved(steps, i, j) && Converged(worlds[i], p)
    ensures Converged(worlds[j], p) && worlds[j].peers[p].userID == worlds[i].peers[p].userID
  {
    hide Takes, Invariant, Live;
    if i < j {
      StaysConverged(worlds, steps, p, i, j - 1);
      var w, s, w' := worlds[j - 1], steps[j - 1], worlds[j];
      PeerAfter(w, s, w');
      QuietStepKeepsTable(w, s, w');
      if s.peer == p {
        ReplicasConverge(worlds, steps, j - 1);
      }
    }
  }

  /** Eventual consistency: once nothing is saved any more, one sync of each of two clients of a user is
      enough for both to hold the same items from then on. */
  lemma ReplicasBecomeEqual(worlds: seq<World>, steps: seq<Step>, i: nat, j: nat, end: nat)
    requires SpacedRun(worlds, steps) && i <= j < end <= |steps| && NothingSaved(steps, i + 1, end)
    requires steps[i].peer in worlds[i].peers && steps[j].peer in worlds[j].peers
    requires worlds[i].peers[steps[i].peer].userID == worlds[j].peers[steps[j].peer].userID
    ensures Converged(worlds[end], steps[i].peer) && Converged(worlds[end], steps[j].peer)
    ensures worlds[end].peers[steps[i].peer].replica == worlds[end].peers[steps[j].peer].replica
  {
    hide Takes, Invariant, Live;
    PeerAfter(worlds[i], steps[i], worlds[i + 1]);
    PeerAfter(worlds[j], steps[j], worlds[j + 1]);
    ReplicasConverge(worlds, steps, i);
    ReplicasConverge(worlds, steps, j);
    StaysConverged(worlds, steps, steps[i].peer, i + 1, end);
    StaysConverged(worlds, steps, steps[j].peer, j + 1, end);
  }

  // ---------------------------------------------------------------- Edits of what a client has seen

  /** The clock moves by at least a millisecond between two requests. */
  ghost predicate MilliRun(worlds: seq<World>, steps: seq<Step>) {
    Run(worlds, steps) && forall i :: 0 <= i < |steps| ==> worlds[i].clock + MILLISECOND <= steps[i].asked
  }

  /** A row of a replica is the server's, or at least a millisecond older. */
  ghost predicate Fresh(replica: Table, table: Table) {
    forall id :: id in replica ==>
      id in table && (replica[id] == table[id] || replica[id].updatedAt + MILLISECOND <= table[id].updatedAt)
  }

  lemma FreshKept(w: World, s: Step, w': World, p: string)
    requires Takes(w, s, w') && Invariant(w) && w.clock + MILLISECOND <= s.asked
    requires p in w.peers && Fresh(w.peers[p].replica, w.table)
    ensures p in w'.peers && Fresh(w'.peers[p].replica, w'.table)
  {
    hide Takes, UpToDate, WellKeyed;
    PeerAfter(w, s, w');
    if p == s.peer {
      StepConverges(w, s, w');
    } else {
      TableAfter(w, s, w');
    }
  }

  lemma MilliIsSpaced(worlds: seq<World>, steps: seq<Step>)
    requires MilliRun(worlds, steps)
    ensures SpacedRun(worlds, steps)
  {
    hide Takes, Initial;
  }

  lemma {:induction false} ReplicasAreFresh(worlds: seq<World>, steps: seq<Step>, i: nat, p: string)
    requires MilliRun(worlds, steps) && i <= |steps| && p in worlds[i].peers
    ensures Fresh(worlds[i].peers[p].replica, worlds[i].table)
  {
    hide Takes, Fresh, Invariant, SpacedRun, Initial;
    MilliIsSpaced(worlds, steps);
    if i > 0 {
      RunInvariant(worlds, steps, i - 1);
      PeerAfter(worlds[i - 1], steps[i - 1], worlds[i]);
      ReplicasAreFresh(worlds, steps, i - 1, p);
      FreshKept(worlds[i - 1], steps[i - 1], worlds[i], p);
    } else {
      StartsFresh(worlds[0], p);
    }
  }

  lemma StartsFresh(w: World, p: string)
    requires Initial(w) && p in w.peers
    ensures Fresh(w.peers[p].replica, w.table)
  {
  }

  /** No edit is lost between clients: in every run with a millisecond between requests, an item sent by version
      20190520 with the time its client's replica has for it, exact or cut to milliseconds, is saved if and only if
      that replica has the server's current row, and is answered with that row otherwise. */
  lemma SavedIffSeen(worlds: seq<World>, steps: seq<Step>, i: nat, k: nat)
    requires MilliRun(worlds, steps) && i < |steps| && steps[i].api.Api20190520? && k < |steps[i].items|
    requires |steps[i].evs| == |steps[i].items| && !steps[i].evs[k].findFails && !steps[i].evs[k].saveFails
    requires steps[i].peer in worlds[i].peers
    requires var replica, item := worlds[i].peers[steps[i].peer].replica, steps[i].items[k];
             && item.id in replica
             && item.updatedAt in {replica[item.id].updatedAt, TruncateToMilli(replica[item.id].updatedAt)}
    ensures var replica, id := worlds[i].peers[steps[i].peer].replica, steps[i].items[k].id;
            && id in worlds[i].table
            && (id in Ids(steps[i].reply.saved) <==> replica[id] == worlds[i].table[id])
            && (worlds[i].table[id] in steps[i].reply.servers <==> replica[id] != worlds[i].table[id])
  {
    hide Takes, Fresh, Invariant, SpacedRun;
    MilliIsSpaced(worlds, steps);
    RunInvariant(worlds, steps, i);
    ReplicasAreFresh(worlds, steps, i, steps[i].peer);
    SeenInStep(worlds[i], steps[i], worlds[i + 1], k);
  }

  lemma ReplicaIsOwned(peer: Peer, table: Table, clock: Time, id: string)
    requires UpToDate(peer, table, clock) && id in peer.replica
    ensures id in table && table[id].userID == peer.userID
  {
    hide Token.TimeFromToken;
  }

  /** An item whose sender has it fresh is accepted if and only if it is the current row. */
  lemma FreshIsAccepted(seen: Record, row: Record, sent: Time)
    requires seen == row || seen.updatedAt + MILLISECOND <= row.updatedAt
    requires sent in {seen.updatedAt, TruncateToMilli(seen.updatedAt)}
    ensures Abs(sent - row.updatedAt) < MILLISECOND <==> seen == row
  {
  }

  lemma SeenInStep(w: World, s: Step, w': World, k: nat)
    requires Takes(w, s, w') && Invariant(w) && s.api.Api20190520? && k < |s.items|
    requires Fresh(w.peers[s.peer].replica, w.table)
    requires |s.evs| == |s.items| && !s.evs[k].findFails && !s.evs[k].saveFails
    requires var replica, item := w.peers[s.peer].replica, s.items[k];
             && item.id in replica
             && item.updatedAt in {replica[item.id].updatedAt, TruncateToMilli(replica[item.id].updatedAt)}
    ensures var replica, id := w.peers[s.peer].replica, s.items[k].id;
            && id in w.table
            && (id in Ids(s.reply.saved) <==> replica[id] == w.table[id])
            && (w.table[id] in s.reply.servers <==> replica[id] != w.table[id])
  {
    hide Executes, UpToDate, V2.Process, Outcomes, V2.ServersOf, SavedOf, Written, Token.TokenFromTime;
    var peer, item := w.peers[s.peer], s.items[k];
    ReplicaIsOwned(peer, w.table, w.clock, item.id);
    FreshIsAccepted(peer.replica[item.id], w.table[item.id], item.updatedAt);
    var outs := StepOutcomes(w, s, w');
    StepOutcome(w, s, w', k);
    SavedIff(w.table, peer.userID, item, s.evs[k]);
    NotSavedBecause(w.table, peer.userID, item, s.evs[k]);
    AnsweredOnce(w, s, w', outs, k);
  }

  /** The id of an item is among the saved ones or the conflicts just as its outcome says. */
  lemma AnsweredOnce(w: World, s: Step, w': World, outs: seq<Outcome>, k: nat)
    requires Takes(w, s, w') && WellKeyed(w.table) && k < |s.items| && s.items[k].id in w.table
    requires outs == Outcomes(s.api, w.table, w.peers[s.peer].userID, s.items, s.evs)
    requires |outs| == |s.items| && (outs[k].Saved? || outs[k] == SyncConflict(w.table[s.items[k].id]))
    ensures s.items[k].id in Ids(s.reply.saved) <==> outs[k].Saved?
    ensures w.table[s.items[k].id] in s.reply.servers <==> !outs[k].Saved?
  {
    hide Takes, V2.Process, Outcomes, V2.ServersOf, SavedOf, Written, Token.TokenFromTime;
    var id := s.items[k].id;
    var same := StepOutcomes(w, s, w');
    StepOutcome(w, s, w', k);
    if outs[k].Saved? {
      SavedFrom(outs, outs[k].item);
      assert outs[k] == Saved(outs[k].item);
      SavedRow(w, s, w', outs[k].item);
    } else {
      SavedFrom(outs, w.table[id]);
      if r :| r in s.reply.saved && r.id == id {
        SavedRow(w, s, w', r);
      }
    }
  }
}
