/** What the answers of both sync versions promise: the order of the retrieved items, the cursor,
    the conflicts of version 20161215, and quiescence. */
module SyncProperties {
  import opened Basics
  import opened Times
  import opened Database
  import opened Sync
  import opened Conservation
  import opened Text
  import Base64
  import Token
  import V1 = Sync20161215
  import V2 = Sync20190520

  /** How many of the first `k` rows compaction keeps. */
  function KeptBefore(page: seq<Record>, drop: set<string>, k: nat): (n: nat)
    requires k <= |page|
    ensures n <= k
  {
    if k == 0 then 0 else KeptBefore(page, drop, k - 1) + if page[k - 1].id in drop then 0 else 1
  }

  lemma {:induction false} KeptBeforePrefix(page: seq<Record>, drop: set<string>, n: nat, k: nat)
    requires k <= n <= |page|
    ensures KeptBefore(page[..n], drop, k) == KeptBefore(page, drop, k)
  {
    if k > 0 {
      KeptBeforePrefix(page, drop, n, k - 1);
    }
  }

  lemma {:induction false} KeptLength(page: seq<Record>, drop: set<string>)
    ensures |Without(page, drop)| == KeptBefore(page, drop, |page|)
  {
    assert Without([], drop) == [];
    hide Without;
    if page != [] {
      var m := |page| - 1;
      assert page[..m + 1] == page;
      WithoutStep(page, m, drop);
      KeptLength(page[..m], drop);
      KeptBeforePrefix(page, drop, m, m);
    }
  }

  lemma LastIsKeptOrDropped(page: seq<Record>, drop: set<string>)
    requires page != []
    ensures var m := |page| - 1;
            var rest := Without(page[..m], drop);
            && |rest| == KeptBefore(page, drop, m)
            && Without(page, drop) == if page[m].id in drop then rest else rest + [page[m]]
  {
    var m := |page| - 1;
    assert page[..m + 1] == page;
    WithoutStep(page, m, drop);
    hide Without, KeptBefore;
    KeptLength(page[..m], drop);
    KeptBeforePrefix(page, drop, m, m);
  }

  /** Compaction is an ordered filter: a kept row moves to the place that the number of rows kept
      before it tells, so no row is lost, doubled or reordered. */
  lemma {:induction false} KeptInOrder(page: seq<Record>, drop: set<string>, k: nat)
    requires k < |page| && page[k].id !in drop
    ensures KeptBefore(page, drop, k) < |Without(page, drop)| == KeptBefore(page, drop, |page|)
    ensures Without(page, drop)[KeptBefore(page, drop, k)] == page[k]
    decreases |page|
  {
    hide *;
    var m := |page| - 1;
    KeptLength(page, drop);
    LastIsKeptOrDropped(page, drop);
    if k < m {
      var before := page[..m];
      assert before[k] == page[k];
      KeptInOrder(before, drop, k);
      KeptBeforePrefix(page, drop, m, k);
    }
  }

  lemma {:induction false} KeptNewestFirst(page: seq<Record>, drop: set<string>)
    requires NewestFirst(page)
    ensures NewestFirst(Without(page, drop))
  {
    assert Without([], drop) == [];
    if page != [] {
      var m := |page| - 1;
      assert page[..m + 1] == page;
      WithoutStep(page, m, drop);
      hide Without;
      KeptNewestFirst(page[..m], drop);
      var rest := Without(page[..m], drop);
      forall i | 0 <= i < |rest|
        ensures rest[i].updatedAt >= page[m].updatedAt
      {
        assert rest[i] in page[..m];
      }
    }
  }

  lemma LastOfPageIsOldest(table: Table, q: Query, limit: nat, page: seq<Record>)
    requires IsPage(table, q, limit, page, true)
    ensures 0 < limit == |page|
    ensures forall r :: r in page ==> r.updatedAt >= page[limit - 1].updatedAt
    ensures forall r :: Stored(table, r) && Matches(q, r) && r !in page ==> r.updatedAt <= page[limit - 1].updatedAt
  {
    hide Matches;
    assert page[limit - 1] in page;
  }

  /** A page under a limit, and the cursor that goes with it. A request without sync token is given the whole
      match and no cursor. Another is given at most as many rows as its limit, when that is positive, and a cursor
      if and only if more rows match; the page then has exactly that many rows, and the cursor names the oldest
      update on it. */
  ghost predicate PageAndCursor(table: Table, q: Query, p: Params, page: seq<Record>, cursorToken: string) {
    var complete := forall r :: Stored(table, r) && Matches(q, r) ==> r in page;
    if p.syncToken == "" then cursorToken == "" && complete
    else
      && (p.limit > 0 ==> |page| <= p.limit)
      && (cursorToken != "" <==> p.limit > 0 && |Matching(table, q)| > p.limit)
      && (cursorToken == "" ==> complete)
      && (cursorToken != "" ==>
            && |page| == p.limit
            && Token.TimeFromToken(cursorToken) == Token.At(page[p.limit - 1].updatedAt)
            && forall r :: r in page ==> r.updatedAt >= page[p.limit - 1].updatedAt)
  }

  lemma PageGivesCursor(table: Table, q: Query, p: Params, page: seq<Record>, cursorToken: string)
    requires IsPage(table, q, LimitOf(p), page, cursorToken != "")
    requires cursorToken != "" ==> cursorToken == Token.TokenFromTime(page[LimitOf(p) - 1].updatedAt)
    requires forall r :: r in page ==> FitsInt64(r.updatedAt)
    ensures PageAndCursor(table, q, p, page, cursorToken)
  {
    hide Token.TimeFromToken, Token.TokenFromTime, Matching, Matches;
    PageFits(table, q, LimitOf(p), page, cursorToken != "");
    if cursorToken != "" {
      LastOfPageIsOldest(table, q, LimitOf(p), page);
      assert page[LimitOf(p) - 1] in page;
      Token.RoundTrip(page[LimitOf(p) - 1].updatedAt);
    }
  }

  lemma CursorNamesOldest1(table: Table, table': Table, req: V1.Request, ans: V1.Answer, page: seq<Record>, asked: Time,
                           evs: seq<Event>, now: Time)
    requires V1.Executes(table, table', req, ans, page, asked, evs, now)
    requires forall r :: r in page ==> FitsInt64(r.updatedAt)
    ensures PageAndCursor(table, QueryOf(req.userID, req.params, asked), req.params, page, ans.cursorToken)
  {
    hide Token.TokenFromTime, QueryOf, V1.Attempts, IsPage, PageAndCursor;
    PageGivesCursor(table, QueryOf(req.userID, req.params, asked), req.params, page, ans.cursorToken);
  }

  lemma CursorNamesOldest2(table: Table, table': Table, req: V2.Request, ans: V2.Answer, page: seq<Record>, asked: Time,
                           evs: seq<Event>, now: Time)
    requires V2.Executes(table, table', req, ans, page, asked, evs, now)
    requires forall r :: r in page ==> FitsInt64(r.updatedAt)
    ensures PageAndCursor(table, QueryOf(req.userID, req.params, asked), req.params, page, ans.cursorToken)
  {
    hide Token.TokenFromTime, QueryOf, V2.Outcomes, IsPage, PageAndCursor;
    PageGivesCursor(table, QueryOf(req.userID, req.params, asked), req.params, page, ans.cursorToken);
  }

  /** What a request asks for. A first request asks for what is not deleted; a cursor, which goes before
      a sync token, for everything from its instant on; a sync token for everything after its instant. */
  lemma AskedFor(userID: string, p: Params, now: Time, t: Time, r: Record)
    requires FitsInt64(t)
    ensures var wanted := r.userID == userID && (p.contentType != "" ==> r.contentType == p.contentType);
            && (p.cursorToken == Token.TokenFromTime(t) ==>
                  (Matches(QueryOf(userID, p, now), r) <==> wanted && r.updatedAt >= t))
            && (p.cursorToken == "" && p.syncToken == Token.TokenFromTime(t) ==>
                  (Matches(QueryOf(userID, p, now), r) <==> wanted && r.updatedAt > t))
            && (p.cursorToken == "" && p.syncToken == "" ==>
                  (Matches(QueryOf(userID, p, now), r) <==> wanted && !r.deleted))
  {
    Token.RoundTrip(t);
    Token.TokenIsNotEmpty(t);
    hide Token.TimeFromToken, Token.TokenFromTime;
  }

  /** A token that is malformed or of version 1 asks from the present on: nothing that is stored by then when it
      is a sync token, and what is stamped with this very instant when it is a cursor. */
  lemma AskedForNow(userID: string, p: Params, now: Time, r: Record)
    requires now != ZERO_TIME
    ensures var wanted := r.userID == userID && (p.contentType != "" ==> r.contentType == p.contentType);
            && (p.cursorToken != "" && Token.TimeFromToken(p.cursorToken) == Token.CurrentTime ==>
                  (Matches(QueryOf(userID, p, now), r) <==> wanted && r.updatedAt >= now))
            && (p.cursorToken == "" && p.syncToken != "" && Token.TimeFromToken(p.syncToken) == Token.CurrentTime ==>
                  (Matches(QueryOf(userID, p, now), r) <==> wanted && r.updatedAt > now))
  {
    hide Token.TimeFromToken;
  }

  /** The next sync starts one microsecond after the newest saved item, or after the present when nothing
      was saved. */
  lemma NextSyncIsPastEverySave(saved: seq<Record>, now: Time)
    requires forall r :: r in saved ==> ZERO_TIME < r.updatedAt
    ensures saved == [] ==> NextSync(saved, now) == now + MICROSECOND
    ensures forall r :: r in saved ==> r.updatedAt + MICROSECOND <= NextSync(saved, now)
    ensures saved != [] ==> exists r :: r in saved && r.updatedAt + MICROSECOND == NextSync(saved, now)
  {
    if saved != [] {
      assert saved[0] in saved;
    }
  }

  /** Version 20161215 takes every edit, however old: whatever the table held, an item that the database takes and
      that no later item of the request supersedes is what the table holds afterwards, with the sender's
      content, or none when it is a tombstone. */
  lemma LastSaveWins(table: Table, table': Table, req: V1.Request, ans: V1.Answer,
                     page: seq<Record>, asked: Time, evs: seq<Event>, now: Time, k: nat)
    requires V1.Executes(table, table', req, ans, page, asked, evs, now)
    requires k < |req.items| == |evs| && !evs[k].saveFails
    requires forall j :: k < j < |evs| && !evs[j].saveFails ==>
               Target(req.items[j], evs[j]) != Target(req.items[k], evs[k])
    ensures var item, id := req.items[k], Target(req.items[k], evs[k]);
            && id in table' && table'[id] in ans.saved
            && table'[id].userID == req.userID && asked <= table'[id].updatedAt == evs[k].now <= now
            && table'[id].createdAt == (if item.id == "" then evs[k].now else item.createdAt)
            && table'[id].deleted == item.deleted && table'[id].contentType == item.contentType
            && table'[id].itemsKeyID == item.itemsKeyID
            && table'[id].content == (if item.deleted then "" else item.content)
            && table'[id].encryptedItemKey == (if item.deleted then "" else item.encryptedItemKey)
  {
    var outs := V1.Attempts(req.userID, req.items, evs);
    hide V1.Attempt, V1.Conflicted, Written, SavedOf, IsPage, QueryOf, Token.TokenFromTime;
    forall j | k <= j < |evs|
      ensures outs[j].Saved? <==> !evs[j].saveFails
      ensures outs[j].Saved? ==> outs[j].item.id == Target(req.items[j], evs[j])
    {
      AttemptSaves(req.userID, req.items[j], evs[j]);
    }
    AttemptSaves(req.userID, req.items[k], evs[k]);
    LastWritten(table, outs, k);
    SavedFrom(outs, outs[k].item);
  }

  /** A request crashes exactly when the token that decides its query is base64 of a text without a colon other
      than `1`, or when its limit counts and is negative. */
  lemma CrashesIff(p: Params)
    ensures !Answerable(p)
            <==> var token := if p.cursorToken != "" then p.cursorToken else p.syncToken;
                 var raw := Base64.Decode(Base64.UrlSafe, token);
                 || (token != "" && raw.Some? && Free(raw.value, ':') && raw.value != "1")
                 || (p.syncToken != "" && p.limit < 0)
  {
    Token.CrashesIff(p.cursorToken);
    Token.CrashesIff(p.syncToken);
  }

  /** Requests that carry no tokens but the server's own, and no negative limit, are answered. */
  lemma OwnTokensAreAnswered(p: Params, t: Time, u: Time)
    requires p.syncToken in {"", Token.TokenFromTime(t)} && p.cursorToken in {"", Token.TokenFromTime(u)}
             && p.limit >= 0
    ensures Answerable(p)
  {
    Token.OwnTokensAreRead(t);
    Token.OwnTokensAreRead(u);
  }

  /** A request that crashes. */
  lemma SomeRequestCrashes()
    ensures !Answerable(Params(false, 0, "YWJj", "", ""))
  {
    Token.SomeTokenCrashes();
  }

  /** A request that carries a token of the server's and crashes all the same, because of its limit. */
  lemma NegativeLimitCrashes(t: Time)
    ensures !Answerable(Params(false, -1, Token.TokenFromTime(t), "", ""))
    ensures Answerable(Params(false, 0, Token.TokenFromTime(t), "", ""))
  {
    Token.TokenIsNotEmpty(t);
    OwnTokensAreAnswered(Params(false, 0, Token.TokenFromTime(t), "", ""), t, t);
  }

  lemma ByIdOneMore(saved: seq<Record>, last: Record)
    ensures V1.ById(saved + [last]) == V1.ById(saved)[last.id := last]
  {
    assert (saved + [last])[..|saved|] == saved;
  }

  lemma WrittenOneMore(table: Table, outs: seq<Outcome>, last: Outcome)
    ensures Written(table, outs + [last])
         == if last.Saved? then Written(table, outs)[last.item.id := last.item] else Written(table, outs)
  {
    assert (outs + [last])[..|outs|] == outs;
  }

  lemma NoneWritten(table: Table)
    ensures Written(table, []) == table + V1.ById(SavedOf([]))
  {
    assert table + map[] == table;
  }

  lemma MergeUpdate(table: Table, m: Table, r: Record)
    ensures (table + m)[r.id := r] == table + m[r.id := r]
  {
  }

  /** The table takes over the last saved version of every id. */
  lemma {:induction false} WrittenIsMerge(table: Table, outs: seq<Outcome>)
    ensures Written(table, outs) == table + V1.ById(SavedOf(outs))
  {
    hide *;
    if outs == [] {
      NoneWritten(table);
    } else {
      var n := |outs| - 1;
      var before, last := outs[..n], outs[n];
      assert outs == before + [last];
      WrittenIsMerge(table, before);
      SavedOneMore(before, last);
      WrittenOneMore(table, before, last);
      if last.Saved? {
        ByIdOneMore(SavedOf(before), last.item);
        MergeUpdate(table, V1.ById(SavedOf(before)), last.item);
      } else {
        assert SavedOf(before) + [] == SavedOf(before);
      }
    }
  }

  /** Version 20161215: retrieved and saved items have no id in common; a row is taken from the page
      only because its id was saved by this request; and such a row is reported as a conflict if and
      only if it is more than twenty seconds away from the version the table now holds. */
  lemma ConflictsResolved(table: Table, table': Table, req: V1.Request, ans: V1.Answer,
                          page: seq<Record>, asked: Time, evs: seq<Event>, now: Time, r: Record)
    requires V1.Executes(table, table', req, ans, page, asked, evs, now) && r in page
    ensures r in ans.retrieved <==> r.id !in Ids(ans.saved)
    ensures forall x :: x in ans.retrieved ==> x in page && x.id !in Ids(ans.saved)
    ensures r.id in Ids(ans.saved) ==> r.id in table'
    ensures r in ans.conflicts <==> r.id in Ids(ans.saved) && Abs(table'[r.id].updatedAt - r.updatedAt) > 20 * SECOND
    ensures forall x :: x in ans.conflicts ==> x in page
  {
    hide Written, V1.Attempts, SavedOf, QueryOf, Token.TokenFromTime, IsPage, Seconds, Sub;
    if r.id in Ids(ans.saved) {
      WrittenIsMerge(table, V1.Attempts(req.userID, req.items, evs));
      SecondThreshold(table'[r.id].updatedAt, r.updatedAt, 20);
    }
  }

  /** Nothing in the table is newer than the instant the answer tells the client to ask from. */
  lemma NothingNewer(table: Table, outs: seq<Outcome>, asked: Time, now: Time)
    requires NoneAfter(table, asked) && asked <= now && ZERO_TIME < asked
    requires forall r :: r in SavedOf(outs) ==> asked <= r.updatedAt
    ensures NoneAfter(Written(table, outs), NextSync(SavedOf(outs), now))
  {
    var saved := SavedOf(outs);
    var last := LastUpdated(saved);
    if saved != [] {
      assert saved[0] in saved;
    }
    forall id | id in Written(table, outs)
      ensures Written(table, outs)[id].updatedAt <= NextSync(saved, now)
    {
      WrittenAt(table, outs, id);
    }
  }

  /** An answer is empty when it is asked from an instant nothing is newer than. */
  lemma NothingRetrieved(table: Table, userID: string, p: Params, t: Time, asked: Time, page: seq<Record>,
                         overLimit: bool)
    requires NoneAfter(table, t) && FitsInt64(t)
    requires p.cursorToken == "" && p.syncToken == Token.TokenFromTime(t)
    requires IsPage(table, QueryOf(userID, p, asked), LimitOf(p), page, overLimit)
    ensures page == []
  {
    assert page == [] || page[0] in page;
    Token.RoundTrip(t);
    Token.TokenIsNotEmpty(t);
    hide Token.TimeFromToken, Token.TokenFromTime;
  }

  lemma SavedAfterAsking1(req: V1.Request, evs: seq<Event>, asked: Time, now: Time, r: Record)
    requires |evs| == |req.items| && Within(evs, asked, now)
    requires r in SavedOf(V1.Attempts(req.userID, req.items, evs))
    ensures asked <= r.updatedAt <= now
  {
    var outs := V1.Attempts(req.userID, req.items, evs);
    SavedFrom(outs, r);
    var k :| 0 <= k < |outs| && outs[k] == Saved(r);
  }

  lemma SavedAfterAsking2(table: Table, req: V2.Request, evs: seq<Event>, asked: Time, now: Time, r: Record)
    requires |evs| == |req.items| && Within(evs, asked, now)
    requires r in SavedOf(V2.Outcomes(table, req.userID, req.items, evs))
    ensures asked <= r.updatedAt <= now
  {
    hide V2.Outcomes, V2.Process, SavedOf;
    var outs := V2.Outcomes(table, req.userID, req.items, evs);
    SavedFrom(outs, r);
    var k :| 0 <= k < |outs| && outs[k] == Saved(r);
    OutcomeAt(table, req.userID, req.items, evs, k);
    SavedIff(Written(table, V2.Outcomes(table, req.userID, req.items[..k], evs[..k])), req.userID, req.items[k],
             evs[k]);
  }

  lemma NextSyncFits(saved: seq<Record>, now: Time)
    requires forall r :: r in saved ==> MIN_INT64 <= r.updatedAt <= now
    requires MIN_INT64 <= now && now + MICROSECOND <= MAX_INT64
    ensures FitsInt64(NextSync(saved, now))
  {
  }

  /** Quiescence, version 20161215: whatever a request did and whatever token it carried, asking
      again with the returned sync token and without items retrieves nothing and changes nothing. */
  lemma Quiescent1(table: Table, table': Table, table'': Table, req: V1.Request, ans: V1.Answer,
                   req2: V1.Request, ans2: V1.Answer,
                   page: seq<Record>, asked: Time, evs: seq<Event>, now: Time,
                   page2: seq<Record>, asked2: Time, evs2: seq<Event>, now2: Time)
    requires NoneAfter(table, asked) && MIN_INT64 <= asked && now + MICROSECOND <= MAX_INT64
    requires V1.Executes(table, table', req, ans, page, asked, evs, now)
    requires req2.items == [] && req2.params.cursorToken == "" && req2.params.syncToken == ans.syncToken
    requires V1.Executes(table', table'', req2, ans2, page2, asked2, evs2, now2)
    ensures ans2.retrieved == [] && ans2.saved == [] && ans2.conflicts == {} && table'' == table'
  {
    var outs := V1.Attempts(req.userID, req.items, evs);
    forall r | r in SavedOf(outs)
      ensures asked <= r.updatedAt <= now
    {
      SavedAfterAsking1(req, evs, asked, now, r);
    }
    hide Token.TimeFromToken, Token.TokenFromTime, QueryOf, IsPage;
    NextSyncFits(SavedOf(outs), now);
    NothingNewer(table, outs, asked, now);
    NothingRetrieved(table', req2.userID, req2.params, NextSync(SavedOf(outs), now), asked2, page2,
                     ans2.cursorToken != "");
  }

  /** Quiescence, version 20190520. */
  lemma Quiescent2(table: Table, table': Table, table'': Table, req: V2.Request, ans: V2.Answer,
                   req2: V2.Request, ans2: V2.Answer,
                   page: seq<Record>, asked: Time, evs: seq<Event>, now: Time,
                   page2: seq<Record>, asked2: Time, evs2: seq<Event>, now2: Time)
    requires NoneAfter(table, asked) && MIN_INT64 <= asked && now + MICROSECOND <= MAX_INT64
    requires V2.Executes(table, table', req, ans, page, asked, evs, now)
    requires req2.items == [] && req2.params.cursorToken == "" && req2.params.syncToken == ans.syncToken
    requires V2.Executes(table', table'', req2, ans2, page2, asked2, evs2, now2)
    ensures ans2.retrieved == [] && ans2.saved == [] && ans2.servers == [] && table'' == table'
  {
    var outs := V2.Outcomes(table, req.userID, req.items, evs);
    forall r | r in SavedOf(outs)
      ensures asked <= r.updatedAt <= now
    {
      SavedAfterAsking2(table, req, evs, asked, now, r);
    }
    hide Token.TimeFromToken, Token.TokenFromTime, QueryOf, IsPage;
    NextSyncFits(SavedOf(outs), now);
    NothingNewer(table, outs, asked, now);
    NothingRetrieved(table', req2.userID, req2.params, NextSync(SavedOf(outs), now), asked2, page2,
                     ans2.cursorToken != "");
  }
}
