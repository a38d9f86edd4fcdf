/** Sessions: generation, validation, refresh and deletion, one request at a time; then whole runs. */
module Sessions {
  import opened Basics
  import opened Times

  /** A row of the session table. */
  datatype Row = Row(id: string, userID: string, expireAt: Time, accessToken: string, refreshToken: string)

  type Rows = map<string, Row>

  ghost predicate WellKeyed(rows: Rows) {
    "" !in rows && forall id :: id in rows ==> rows[id].id == id
  }

  /** How long tokens live. */
  datatype Lifetimes = Lifetimes(access: int, refresh: int)

  function AccessTokenExpireAt(l: Lifetimes, row: Row): Time {
    row.expireAt - l.refresh + l.access
  }

  /** `Unavailable` says that the database failed. */
  datatype Verdict = Accepted(row: Row) | InvalidAuth | ExpiredAccessToken | Unavailable

  /** The judgement on an access token. The clock is read for the session and, later, for the token. */
  function Judge(l: Lifetimes, rows: Rows, id: string, access: string, now: Time, later: Time): Verdict {
    if id !in rows || rows[id].accessToken != access then InvalidAuth
    else if rows[id].expireAt < now then InvalidAuth
    else if AccessTokenExpireAt(l, rows[id]) < later then ExpiredAccessToken
    else Accepted(rows[id])
  }

  /** What a raw token holds once it is decrypted: the session and the secret, or nothing. */
  type Parsed = Option<(string, string)>

  /** An answer tells when the new tokens expire, in milliseconds. */
  datatype RefreshAnswer =
    | Refreshed(row: Row, accessExpiration: int, refreshExpiration: int)
    | InvalidParameters
    | ExpiredRefreshToken
    | InternalError

  /** What the database may fail at while a session is refreshed. */
  datatype Fault = NoFault | SearchFails | SaveFails

  function FindByTokens(rows: Rows, id: string, access: string, refresh: string): Option<Row> {
    if id in rows && rows[id].accessToken == access && rows[id].refreshToken == refresh then Some(rows[id]) else None
  }

  /** A refresh: expiry is checked at `now`, and the new tokens live from `later` on. A save that fails
      is answered as if the refresh token had expired. */
  function RefreshWith(l: Lifetimes, rows: Rows, access: Parsed, refresh: Parsed,
                       now: Time, later: Time, newAccess: string, newRefresh: string, fault: Fault): RefreshAnswer
  {
    if access.None? || refresh.None? || access.value.0 != refresh.value.0 then InvalidParameters
    else if fault.SearchFails? then InternalError
    else
      match FindByTokens(rows, access.value.0, access.value.1, refresh.value.1)
      case None => InvalidParameters
      case Some(row) =>
        if row.expireAt < now || fault.SaveFails? then ExpiredRefreshToken
        else
          var rotated := row.(expireAt := later + l.refresh, accessToken := newAccess, refreshToken := newRefresh);
          Refreshed(rotated, UnixMilli(AccessTokenExpireAt(l, rotated)), UnixMilli(rotated.expireAt))
  }

  function AfterRefresh(rows: Rows, answer: RefreshAnswer): Rows {
    if answer.Refreshed? then rows[answer.row.id := answer.row] else rows
  }

  datatype DeleteAnswer = Deleted | Refused | DeletionFailed

  /** A session may be deleted by another session of its user. */
  predicate MayDelete(rows: Rows, id: string, current: string, userID: string) {
    id != "" && id != current && id in rows && rows[id].userID == userID
  }

  /** The rows of a user other than one session. */
  function Others(rows: Rows, userID: string, current: string): set<string> {
    set id | id in rows && rows[id].userID == userID && id != current
  }

  class Session {
    var id: string
    var userID: string
    var expireAt: Time
    var accessToken: string
    var refreshToken: string

    constructor (row: Row)
      ensures Value() == row
    {
      id, userID, expireAt := row.id, row.userID, row.expireAt;
      accessToken, refreshToken := row.accessToken, row.refreshToken;
    }

    function Value(): Row
      reads this
    {
      Row(id, userID, expireAt, accessToken, refreshToken)
    }
  }

  class Manager {
    const lifetimes: Lifetimes
    var rows: Rows
    var clock: Time

    constructor (lifetimes: Lifetimes, start: Time)
      ensures this.lifetimes == lifetimes && rows == map[] && clock == start
    {
      this.lifetimes := lifetimes;
      rows, clock := map[], start;
    }

    /** A random token. */
    method SecureToken() returns (token: string) {
      token := *;
    }

    /** A session without user, which expires one refresh lifetime from now. */
    method Generate() returns (session: Session)
      modifies this`clock
      ensures fresh(session)
      ensures clock >= old(clock) && session.expireAt == clock + lifetimes.refresh
      ensures session.id == "" && session.userID == ""
    {
      clock := Later(clock);
      var t := clock;
      var access := SecureToken();
      var refresh := SecureToken();
      session := new Session(Row("", "", t + lifetimes.refresh, access, refresh));
    }

    /** Stores a session, with a new identifier when it has none. */
    method Save(session: Session) returns (ok: bool)
      requires WellKeyed(rows)
      modifies this`rows, session
      ensures WellKeyed(rows)
      ensures old(session.id) != "" ==> session.Value() == old(session.Value())
      ensures old(session.id) == "" ==>
                session.id !in old(rows) && session.Value() == old(session.Value()).(id := session.id)
      ensures rows == if ok then old(rows)[session.id := session.Value()] else old(rows)
    {
      if session.id == "" {
        SomeIdIsFree(rows.Keys + {""});
        var drawn: string :| drawn !in rows.Keys + {""};
        session.id := drawn;
      }
      ok := *;
      if ok {
        rows := rows[session.id := session.Value()];
      }
    }

    method CreateSession(userID: string) returns (created: Option<Session>)
      requires WellKeyed(rows)
      modifies this
      ensures WellKeyed(rows) && clock >= old(clock)
      ensures created.None? ==> rows == old(rows)
      ensures created.Some? ==>
                var session := created.value;
                && fresh(session) && session.id !in old(rows) && session.userID == userID
                && session.expireAt == clock + lifetimes.refresh
                && rows == old(rows)[session.id := session.Value()]
    {
      var session := Generate();
      session.userID := userID;
      var ok := Save(session);
      created := if ok then Some(session) else None;
    }

    method Validate(id: string, access: string) returns (verdict: Verdict, ghost now: Time, ghost later: Time)
      modifies this`clock
      ensures old(clock) <= now <= later <= clock
      ensures verdict == Unavailable || verdict == Judge(lifetimes, rows, id, access, now, later)
    {
      now, later := clock, clock;
      var fails: bool := *;
      if fails {
        return Unavailable, now, later;
      }
      if id !in rows || rows[id].accessToken != access {
        return InvalidAuth, now, later;
      }
      var session := rows[id];
      clock := Later(clock);
      var t := clock;
      now, later := t, t;
      if session.expireAt < t {
        return InvalidAuth, now, later;
      }
      clock := Later(clock);
      t := clock;
      later := t;
      if AccessTokenExpireAt(lifetimes, session) < t {
        return ExpiredAccessToken, now, later;
      }
      return Accepted(session), now, later;
    }

    /** Rotates both tokens and restarts both lifetimes, unless the session has expired. The session object
        is changed even when saving it fails. */
    method Regenerate(session: Session) returns (ok: bool, ghost checked: Time, ghost saveFails: bool)
      requires WellKeyed(rows) && session.id != ""
      modifies this, session
      ensures WellKeyed(rows)
      ensures old(clock) <= checked <= clock
      ensures ok <==> old(session.expireAt) >= checked && !saveFails
      ensures !ok ==> rows == old(rows)
      ensures old(session.expireAt) < checked ==> session.Value() == old(session.Value())
      ensures old(session.expireAt) >= checked ==>
                && session.expireAt == clock + lifetimes.refresh
                && session.id == old(session.id) && session.userID == old(session.userID)
      ensures ok ==> rows == old(rows)[session.id := session.Value()]
    {
      clock := Later(clock);
      var t := clock;
      checked, saveFails := t, false;
      if session.expireAt < t {
        return false, checked, saveFails;
      }
      session.accessToken := SecureToken();
      session.refreshToken := SecureToken();
      clock := Later(clock);
      t := clock;
      session.expireAt := t + lifetimes.refresh;
      ok := Save(session);
      saveFails := !ok;
    }

    /** The refresh request, from the decrypted tokens on. */
    method Refresh(access: Parsed, refresh: Parsed)
      returns (answer: RefreshAnswer, ghost now: Time, ghost newAccess: string, ghost newRefresh: string,
               ghost fault: Fault)
      requires WellKeyed(rows)
      modifies this
      ensures WellKeyed(rows) && old(clock) <= now <= clock
      ensures answer == RefreshWith(lifetimes, old(rows), access, refresh, now, clock, newAccess, newRefresh, fault)
      ensures rows == AfterRefresh(old(rows), answer)
    {
      now, newAccess, newRefresh, fault := clock, "", "", NoFault;
      if access.None? || refresh.None? || access.value.0 != refresh.value.0 {
        answer := InvalidParameters;
        return;
      }
      var searchFails: bool := *;
      if searchFails {
        answer, fault := InternalError, SearchFails;
        return;
      }
      var found := FindByTokens(rows, access.value.0, access.value.1, refresh.value.1);
      if found.None? {
        answer := InvalidParameters;
        return;
      }
      var session := new Session(found.value);
      var ok;
      ghost var saveFails;
      ok, now, saveFails := Regenerate(session);
      newAccess, newRefresh := session.accessToken, session.refreshToken;
      fault := if saveFails then SaveFails else NoFault;
      if !ok {
        answer := ExpiredRefreshToken;
        return;
      }
      answer := Refreshed(session.Value(), UnixMilli(AccessTokenExpireAt(lifetimes, session.Value())),
                          UnixMilli(session.expireAt));
    }

    /** Terminates another session of the user. */
    method Delete(id: string, current: string, userID: string) returns (answer: DeleteAnswer)
      modifies this`rows
      ensures answer == DeletionFailed
              || answer == if MayDelete(old(rows), id, current, userID) then Deleted else Refused
      ensures rows == if answer.Deleted? then old(rows) - {id} else old(rows)
    {
      if id == "" || id == current {
        return Refused;
      }
      var searchFails: bool := *;
      if searchFails {
        return DeletionFailed;
      }
      if id !in rows || rows[id].userID != userID {
        return Refused;
      }
      var deletionFails: bool := *;
      if deletionFails {
        return DeletionFailed;
      }
      rows := rows - {id};
      return Deleted;
    }

    /** Terminates all sessions of the user but the current one, in the order they are listed, up to the first
        deletion that fails. */
    method DeleteAll(current: string, userID: string) returns (ok: bool, ghost gone: set<string>)
      modifies this`rows
      ensures rows == old(rows) - gone
      ensures gone <= Others(old(rows), userID, current)
      ensures ok ==> gone == Others(old(rows), userID, current)
    {
      gone := {};
      var listFails: bool := *;
      if listFails {
        return false, gone;
      }
      var pending := set id | id in rows && rows[id].userID == userID;
      ghost var all := pending;
      while pending != {}
        invariant pending <= all
        invariant gone == all - pending - {current}
        invariant rows == old(rows) - gone
        decreases pending
      {
        var id :| id in pending;
        pending := pending - {id};
        if id != current {
          var fails: bool := *;
          if fails {
            return false, gone;
          }
          rows, gone := rows - {id}, gone + {id};
        }
      }
      ok := true;
    }

    /** Terminates the current session, if there is one. Only its being gone already is reported. */
    method Logout(current: Option<string>) returns (ok: bool, ghost failed: bool)
      modifies this`rows
      ensures rows == if current.Some? && !failed then old(rows) - {current.value} else old(rows)
      ensures ok <==> failed || current.None? || current.value in old(rows)
    {
      ok, failed := true, false;
      if current.Some? {
        var fails: bool := *;
        if fails {
          failed := true;
          return;
        }
        ok := current.value in rows;
        rows := rows - {current.value};
      }
    }
  }

  // ---------------------------------------------------------------- Whole runs

  /** The table, the clock, when each session was issued or last refreshed, every token ever drawn, and
      the retired credentials: the pairs of session and access token that were in the table and no
      longer are. */
  datatype State = State(rows: Rows, clock: Time, issuedAt: map<string, Time>, drawn: set<string>,
                         retired: set<(string, string)>)

  /** A request and the instants, the random draws and the faults of the database it is served with; of a
      request that deletes all other sessions the ones it reaches. */
  datatype Op =
    | Login(now: Time, id: string, userID: string, newAccess: string, newRefresh: string, failed: bool)
    | Refresh(checked: Time, now: Time, access: Parsed, refresh: Parsed, newAccess: string, newRefresh: string,
              fault: Fault)
    | Delete(now: Time, id: string, current: string, userID: string, failed: bool)
    | DeleteAll(now: Time, current: string, userID: string, gone: set<string>)
    | Logout(now: Time, session: Option<string>, failed: bool)

  /** Time does not go back, and nothing is drawn twice. */
  ghost predicate Allowed(s: State, op: Op) {
    && op.now >= s.clock
    && (op.Login? ==> op.id != "" && op.id !in s.rows)
    && (op.Refresh? ==> s.clock <= op.checked <= op.now)
    && (op.DeleteAll? ==> op.gone <= Others(s.rows, op.userID, op.current))
    && (op.Login? || op.Refresh? ==>
          op.newAccess !in s.drawn && op.newRefresh !in s.drawn && op.newAccess != op.newRefresh)
  }

  function Answer(l: Lifetimes, rows: Rows, op: Op): RefreshAnswer
    requires op.Refresh?
  {
    RefreshWith(l, rows, op.access, op.refresh, op.checked, op.now, op.newAccess, op.newRefresh, op.fault)
  }

  /** The table after a request, as the methods above leave it. */
  function RowsAfter(l: Lifetimes, rows: Rows, op: Op): Rows {
    match op
    case Login(now, id, userID, access, refresh, failed) =>
      if failed then rows else rows[id := Row(id, userID, now + l.refresh, access, refresh)]
    case Refresh(_, _, _, _, _, _, _) => AfterRefresh(rows, Answer(l, rows, op))
    case Delete(_, id, current, userID, failed) =>
      if !failed && MayDelete(rows, id, current, userID) then rows - {id} else rows
    case DeleteAll(_, _, _, gone) => rows - gone
    case Logout(_, session, failed) => if session.Some? && !failed then rows - {session.value} else rows
  }

  predicate Issues(l: Lifetimes, rows: Rows, op: Op) {
    (op.Login? && !op.failed) || (op.Refresh? && Answer(l, rows, op).Refreshed?)
  }

  function Credentials(rows: Rows): set<(string, string)> {
    set id | id in rows :: (id, rows[id].accessToken)
  }

  function Serve(l: Lifetimes, s: State, op: Op): State {
    var rows := RowsAfter(l, s.rows, op);
    State(rows, op.now,
          if Issues(l, s.rows, op) then s.issuedAt[IssuedTo(op) := op.now] else s.issuedAt,
          if Issues(l, s.rows, op) then s.drawn + {op.newAccess, op.newRefresh} else s.drawn,
          s.retired + (Credentials(s.rows) - Credentials(rows)))
  }

  function Run(l: Lifetimes, s: State, ops: seq<Op>): State {
    if ops == [] then s else Serve(l, Run(l, s, ops[..|ops| - 1]), ops[|ops| - 1])
  }

  ghost predicate AllowedRun(l: Lifetimes, s: State, ops: seq<Op>) {
    forall i :: 0 <= i < |ops| ==> Allowed(Run(l, s, ops[..i]), ops[i])
  }

  ghost predicate Initial(s: State) {
    s.rows == map[] && s.drawn == {} && s.retired == {} && s.issuedAt == map[]
  }

  /** A row expires one refresh lifetime after it was issued, its access token has been drawn and is
      not retired; and whatever is retired has been drawn. */
  ghost predicate Invariant(l: Lifetimes, s: State) {
    && WellKeyed(s.rows)
    && (forall id :: id in s.rows ==>
          && id in s.issuedAt && s.issuedAt[id] <= s.clock && s.rows[id].expireAt == s.issuedAt[id] + l.refresh
          && s.rows[id].accessToken in s.drawn && s.rows[id].refreshToken in s.drawn
          && (id, s.rows[id].accessToken) !in s.retired)
    && (forall c :: c in s.retired ==> c.1 in s.drawn)
  }

  function IssuedTo(op: Op): string {
    if op.Login? then op.id else if op.Refresh? && op.access.Some? then op.access.value.0 else ""
  }

  /** A row of the new table is one of the old, or the one the request has issued. */
  lemma RowAfter(l: Lifetimes, rows: Rows, op: Op, id: string)
    requires WellKeyed(rows) && (op.Login? ==> op.id != "") && id in RowsAfter(l, rows, op)
    ensures var row := RowsAfter(l, rows, op)[id];
            && row.id == id != ""
            && ((id in rows && row == rows[id] && !(Issues(l, rows, op) && id == IssuedTo(op)))
                || (Issues(l, rows, op) && id == IssuedTo(op) && row.expireAt == op.now + l.refresh
                    && row.accessToken == op.newAccess && row.refreshToken == op.newRefresh))
  {
  }

  lemma ServeKeepsRows(l: Lifetimes, s: State, op: Op)
    requires Invariant(l, s) && Allowed(s, op)
    ensures var s' := Serve(l, s, op);
            && WellKeyed(s'.rows)
            && forall id :: id in s'.rows ==>
                 && id in s'.issuedAt && s'.issuedAt[id] <= s'.clock
                 && s'.rows[id].expireAt == s'.issuedAt[id] + l.refresh
                 && s'.rows[id].accessToken in s'.drawn && s'.rows[id].refreshToken in s'.drawn
                 && ((id in s.rows && s'.rows[id] == s.rows[id])
                     || (Issues(l, s.rows, op) && s'.rows[id].accessToken == op.newAccess
                         && s'.rows[id].refreshToken == op.newRefresh))
  {
    var s' := Serve(l, s, op);
    forall id | id in s'.rows
      ensures id in s'.issuedAt && s'.issuedAt[id] <= s'.clock && s'.rows[id].expireAt == s'.issuedAt[id] + l.refresh
      ensures s'.rows[id].accessToken in s'.drawn && s'.rows[id].refreshToken in s'.drawn
      ensures s'.rows[id].id == id != ""
      ensures (id in s.rows && s'.rows[id] == s.rows[id])
              || (Issues(l, s.rows, op) && s'.rows[id].accessToken == op.newAccess
                  && s'.rows[id].refreshToken == op.newRefresh)
    {
      RowAfter(l, s.rows, op, id);
      hide Credentials, RowsAfter, Issues;
    }
    hide *;
    KeyedById(s'.rows);
  }

  lemma KeyedById(rows: Rows)
    ensures WellKeyed(rows) <==> forall id :: id in rows ==> rows[id].id == id != ""
  {
  }

  lemma ServeKeepsInvariant(l: Lifetimes, s: State, op: Op)
    requires Invariant(l, s) && Allowed(s, op)
    ensures Invariant(l, Serve(l, s, op))
    ensures s.retired <= Serve(l, s, op).retired && s.clock <= Serve(l, s, op).clock
  {
    var s' := Serve(l, s, op);
    ServeKeepsRows(l, s, op);
    forall id | id in s'.rows
      ensures (id, s'.rows[id].accessToken) !in s'.retired
    {
      if id in s.rows && s'.rows[id] == s.rows[id] {
        assert (id, s.rows[id].accessToken) in Credentials(s'.rows);
      } else {
        assert s'.rows[id].accessToken == op.newAccess;
      }
    }
  }

  lemma {:induction false} RunKeepsInvariant(l: Lifetimes, s: State, ops: seq<Op>)
    requires Invariant(l, s) && AllowedRun(l, s, ops)
    ensures Invariant(l, Run(l, s, ops)) && s.retired <= Run(l, s, ops).retired && s.clock <= Run(l, s, ops).clock
  {
    hide Invariant, Allowed, Serve;
    if ops != [] {
      var n := |ops| - 1;
      assert forall i :: 0 <= i < n ==> ops[..n][..i] == ops[..i];
      RunKeepsInvariant(l, s, ops[..n]);
      ServeKeepsInvariant(l, Run(l, s, ops[..n]), ops[n]);
    }
  }

  /** Retired credentials stay dead: once an access token is no longer that of its session, because a
      refresh replaced it or the session was deleted, no later state of the run accepts it, at any
      time, and no refresh does. */
  lemma RetiredStaysDead(l: Lifetimes, s: State, before: seq<Op>, after: seq<Op>, id: string, access: string,
                         refresh: string, now: Time, later: Time)
    requires Initial(s) && AllowedRun(l, s, before) && AllowedRun(l, Run(l, s, before), after)
    requires (id, access) in Run(l, s, before).retired
    ensures var end := Run(l, Run(l, s, before), after);
            Judge(l, end.rows, id, access, now, later) == InvalidAuth
              && FindByTokens(end.rows, id, access, refresh).None?
  {
    RunKeepsInvariant(l, s, before);
    RunKeepsInvariant(l, Run(l, s, before), after);
  }

  lemma ServeRenewsOrKeeps(l: Lifetimes, s: State, op: Op, id: string)
    requires Invariant(l, s) && Allowed(s, op) && id in Serve(l, s, op).rows
    ensures var row := Serve(l, s, op).rows[id];
            (id in s.rows && row == s.rows[id]) || (row.accessToken !in s.drawn && row.refreshToken !in s.drawn)
    ensures s.drawn <= Serve(l, s, op).drawn
  {
  }

  lemma AllowedRunSplits(l: Lifetimes, s: State, ops: seq<Op>)
    requires AllowedRun(l, s, ops) && ops != []
    ensures var n := |ops| - 1;
            AllowedRun(l, s, ops[..n]) && Allowed(Run(l, s, ops[..n]), ops[n])
              && Run(l, s, ops) == Serve(l, Run(l, s, ops[..n]), ops[n])
  {
    hide Allowed, Serve;
    var n := |ops| - 1;
    assert forall i :: 0 <= i < n ==> ops[..n][..i] == ops[..i];
  }

  /** Over any stretch of a run a session is what it was at the start, or has two tokens that had not been
      drawn by then. */
  lemma {:induction false} RenewedOrKept(l: Lifetimes, s: State, ops: seq<Op>, id: string)
    requires Invariant(l, s) && AllowedRun(l, s, ops) && id in Run(l, s, ops).rows
    ensures var row := Run(l, s, ops).rows[id];
            (id in s.rows && row == s.rows[id]) || (row.accessToken !in s.drawn && row.refreshToken !in s.drawn)
  {
    if ops != [] {
      var n := |ops| - 1;
      AllowedRunSplits(l, s, ops);
      hide Run, Invariant, AllowedRun, Allowed, Serve;
      RunKeepsInvariant(l, s, ops[..n]);
      DrawnGrows(l, s, ops[..n]);
      ServeRenewsOrKeeps(l, Run(l, s, ops[..n]), ops[n], id);
      if id in Run(l, s, ops[..n]).rows {
        RenewedOrKept(l, s, ops[..n], id);
      }
    }
  }

  lemma {:induction false} DrawnGrows(l: Lifetimes, s: State, ops: seq<Op>)
    ensures s.drawn <= Run(l, s, ops).drawn
  {
    if ops != [] {
      DrawnGrows(l, s, ops[..|ops| - 1]);
    }
  }

  /** A refresh token that has been drawn and is not, or no longer, that of a session never refreshes the session
      again, whatever access token comes with it. */
  lemma ReplacedRefreshIsDead(l: Lifetimes, s: State, before: seq<Op>, after: seq<Op>, id: string, access: string,
                              refresh: string)
    requires Initial(s) && AllowedRun(l, s, before) && AllowedRun(l, Run(l, s, before), after)
    requires var mid := Run(l, s, before);
             refresh in mid.drawn && (id in mid.rows ==> mid.rows[id].refreshToken != refresh)
    ensures FindByTokens(Run(l, Run(l, s, before), after).rows, id, access, refresh).None?
  {
    RunKeepsInvariant(l, s, before);
    if id in Run(l, Run(l, s, before), after).rows {
      RenewedOrKept(l, Run(l, s, before), after, id);
    }
  }

  /** What a request retires: a refresh that succeeds the credential it was given, a deletion that of
      the deleted session, and `DeleteAll` those of the other sessions of the user that it reaches; nothing else
      changes. */
  lemma WhatIsRetired(l: Lifetimes, s: State, op: Op, id: string)
    requires Invariant(l, s) && Allowed(s, op) && id in s.rows
    ensures var s' := Serve(l, s, op);
            var row := s.rows[id];
            var gone := (op.Refresh? && op.access == Some((id, row.accessToken))
                         && op.refresh == Some((id, row.refreshToken))
                         && row.expireAt >= op.checked && op.fault.NoFault?)
                        || (op.Delete? && !op.failed && op.id == id && id != op.current && row.userID == op.userID)
                        || (op.DeleteAll? && id in op.gone && row.userID == op.userID && id != op.current)
                        || (op.Logout? && !op.failed && op.session == Some(id));
            && (gone <==> (id, row.accessToken) in s'.retired)
            && (!gone ==> id in s'.rows && s'.rows[id] == row)
  {
    var s' := Serve(l, s, op);
    var c := (id, s.rows[id].accessToken);
    assert c in Credentials(s.rows);
    if id in s'.rows && s'.rows[id] == s.rows[id] {
      assert c in Credentials(s'.rows);
    }
  }

  /** The window of an access token: at an instant it is accepted if and only if neither lifetime has
      passed since its session was issued or last refreshed. */
  lemma AccessWindow(l: Lifetimes, s: State, ops: seq<Op>, id: string, t: Time)
    requires Initial(s) && AllowedRun(l, s, ops)
    requires var end := Run(l, s, ops); id in end.rows
    ensures var end := Run(l, s, ops);
            id in end.issuedAt &&
            (Judge(l, end.rows, id, end.rows[id].accessToken, t, t).Accepted?
             <==> t <= end.issuedAt[id] + Min(l.access, l.refresh))
  {
    RunKeepsInvariant(l, s, ops);
  }

  /** The whole verdict on the current access token of a stored session: past the refresh lifetime the session is
      gone, and until then the token is accepted or called expired by the access lifetime. */
  lemma VerdictAt(l: Lifetimes, s: State, ops: seq<Op>, id: string, t: Time)
    requires Initial(s) && AllowedRun(l, s, ops) && id in Run(l, s, ops).rows
    ensures var end := Run(l, s, ops);
            && id in end.issuedAt
            && Judge(l, end.rows, id, end.rows[id].accessToken, t, t)
               == (if t > end.issuedAt[id] + l.refresh then InvalidAuth
                   else if t > end.issuedAt[id] + l.access then ExpiredAccessToken
                   else Accepted(end.rows[id]))
            && forall other :: other != end.rows[id].accessToken ==> Judge(l, end.rows, id, other, t, t) == InvalidAuth
  {
    RunKeepsInvariant(l, s, ops);
  }

  lemma CanRefresh(l: Lifetimes, s: State, id: string, t: Time, newAccess: string, newRefresh: string)
    requires Invariant(l, s) && t >= s.clock && id in s.rows
    requires Judge(l, s.rows, id, s.rows[id].accessToken, t, t) == ExpiredAccessToken
    ensures var row := s.rows[id];
            var answer := RefreshWith(l, s.rows, Some((id, row.accessToken)), Some((id, row.refreshToken)), t, t,
                                      newAccess, newRefresh, NoFault);
            && answer.Refreshed? && answer.row.expireAt >= row.expireAt
            && answer.row == row.(expireAt := t + l.refresh, accessToken := newAccess, refreshToken := newRefresh)
            && (0 <= l.access && 0 <= l.refresh ==>
                  Judge(l, AfterRefresh(s.rows, answer), id, newAccess, t, t).Accepted?)
  {
  }

  /** Whenever the answer is that the access token has expired, a refresh with the current pair at that
      instant succeeds, does not shorten the session, and its access token is accepted. */
  lemma ExpiredAccessCanRefresh(l: Lifetimes, s: State, ops: seq<Op>, id: string, t: Time, newAccess: string,
                                newRefresh: string)
    requires Initial(s) && AllowedRun(l, s, ops) && t >= Run(l, s, ops).clock
    requires var end := Run(l, s, ops);
             && id in end.rows
             && Judge(l, end.rows, id, end.rows[id].accessToken, t, t) == ExpiredAccessToken
    ensures var end := Run(l, s, ops);
            var row := end.rows[id];
            var answer := RefreshWith(l, end.rows, Some((id, row.accessToken)), Some((id, row.refreshToken)), t, t,
                                      newAccess, newRefresh, NoFault);
            && answer.Refreshed? && answer.row.expireAt >= row.expireAt
            && answer.row == row.(expireAt := t + l.refresh, accessToken := newAccess, refreshToken := newRefresh)
            && (0 <= l.access && 0 <= l.refresh ==>
                  Judge(l, AfterRefresh(end.rows, answer), id, newAccess, t, t).Accepted?)
  {
    RunKeepsInvariant(l, s, ops);
    hide Run, Invariant, Judge, RefreshWith, AfterRefresh;
    CanRefresh(l, Run(l, s, ops), id, t, newAccess, newRefresh);
  }

  lemma ExpiredAnswerIff(l: Lifetimes, rows: Rows, id: string, access: string, refresh: string,
                         now: Time, later: Time, newAccess: string, newRefresh: string, fault: Fault)
    ensures RefreshWith(l, rows, Some((id, access)), Some((id, refresh)), now, later, newAccess, newRefresh,
                        fault).ExpiredRefreshToken?
            <==> && !fault.SearchFails? && id in rows && rows[id].accessToken == access
                 && rows[id].refreshToken == refresh
                 && (rows[id].expireAt < now || fault.SaveFails?)
  {
  }

  /** A request to refresh a session with its current pair. */
  ghost predicate RefreshesCurrent(s: State, op: Op, id: string) {
    && op.Refresh? && id in s.rows
    && op.access == Some((id, s.rows[id].accessToken)) && op.refresh == Some((id, s.rows[id].refreshToken))
  }

  lemma UnexpiredInState(l: Lifetimes, s: State, op: Op, id: string)
    requires RefreshesCurrent(s, op, id) && op.checked <= s.rows[id].expireAt
    ensures var wrong := Answer(l, s.rows, op).ExpiredRefreshToken?;
            && (wrong <==> op.fault.SaveFails?)
            && (wrong ==> Serve(l, s, op).rows == s.rows && Serve(l, s, op).retired == s.retired)
            && Answer(l, s.rows, op.(fault := NoFault)).Refreshed?
  {
    var row := s.rows[id];
    ExpiredAnswerIff(l, s.rows, id, row.accessToken, row.refreshToken, op.checked, op.now, op.newAccess, op.newRefresh,
                     op.fault);
    assert Credentials(s.rows) - Credentials(s.rows) == {};
    hide Credentials;
  }

  /** In every reachable state a refresh with the current pair, no later than one refresh lifetime after the
      session's last issue, is answered as if the refresh token had expired if and only if it cannot be saved.
      The session is then left as it was, nothing is retired, and the same request succeeds without the fault. */
  lemma UnexpiredCalledExpired(l: Lifetimes, s: State, ops: seq<Op>, op: Op, id: string)
    requires Initial(s) && AllowedRun(l, s, ops) && Allowed(Run(l, s, ops), op)
             && RefreshesCurrent(Run(l, s, ops), op, id)
    requires var end := Run(l, s, ops); id in end.issuedAt ==> op.checked <= end.issuedAt[id] + l.refresh
    ensures var end := Run(l, s, ops);
            var wrong := Answer(l, end.rows, op).ExpiredRefreshToken?;
            && (wrong <==> op.fault.SaveFails?)
            && (wrong ==> Serve(l, end, op).rows == end.rows && Serve(l, end, op).retired == end.retired)
            && Answer(l, end.rows, op.(fault := NoFault)).Refreshed?
  {
    hide Run, Serve, Answer, AllowedRun, Allowed;
    RunKeepsInvariant(l, s, ops);
    UnexpiredInState(l, Run(l, s, ops), op, id);
  }

  /** One login, and a refresh that is called expired long before its session is. */
  lemma SomeUnexpiredCalledExpired() returns (l: Lifetimes, s: State, ops: seq<Op>, op: Op)
    ensures Initial(s) && AllowedRun(l, s, ops) && Allowed(Run(l, s, ops), op)
    ensures var end := Run(l, s, ops);
            && RefreshesCurrent(end, op, "session") && op.checked < end.rows["session"].expireAt
            && Answer(l, end.rows, op) == ExpiredRefreshToken
            && Serve(l, end, op).rows == end.rows
            && Answer(l, end.rows, op.(fault := NoFault)).Refreshed?
  {
    l, s := Lifetimes(HOUR, 10_000 * HOUR), State(map[], 0, map[], {}, {});
    var login := Op.Login(0, "session", "user", "access", "refresh", false);
    ops := [login];
    op := Op.Refresh(1, 1, Some(("session", "access")), Some(("session", "refresh")), "other access", "other refresh",
                     SaveFails);
    assert ops[..0] == [] && Run(l, s, ops) == Serve(l, s, login);
    assert "other access" != "access" && |"other refresh"| != |"refresh"| && |"other refresh"| != |"access"|
           && |"other access"| != |"refresh"|;
    UnexpiredCalledExpired(l, s, ops, op, "session");
  }

  /** The expirations a refresh announces, in milliseconds, are those of the new tokens: one access lifetime and one
      refresh lifetime after the session is issued again. */
  lemma AnnouncedTimes(l: Lifetimes, s: State, ops: seq<Op>, op: Op)
    requires Initial(s) && AllowedRun(l, s, ops) && Allowed(Run(l, s, ops), op)
    requires op.Refresh? && Answer(l, Run(l, s, ops).rows, op).Refreshed?
    ensures var answer, after := Answer(l, Run(l, s, ops).rows, op), Serve(l, Run(l, s, ops), op);
            && answer.row.id in after.issuedAt && after.issuedAt[answer.row.id] == op.now
            && 0 <= op.now + l.access - answer.accessExpiration * MILLISECOND < MILLISECOND
            && 0 <= op.now + l.refresh - answer.refreshExpiration * MILLISECOND < MILLISECOND
  {
    RunKeepsInvariant(l, s, ops);
    var answer := Answer(l, Run(l, s, ops).rows, op);
    MillisecondOf(AccessTokenExpireAt(l, answer.row));
    MillisecondOf(answer.row.expireAt);
    hide AllowedRun, UnixMilli;
  }

  /** They are kept: before its millisecond the new access token is accepted and the new pair can be refreshed, and
      after it no longer. */
  lemma AnnouncedExpirationIsKept(l: Lifetimes, rows: Rows, access: Parsed, refresh: Parsed,
                                  now: Time, later: Time, newAccess: string, newRefresh: string, fault: Fault, t: Time)
    requires WellKeyed(rows) && l.access <= l.refresh
    requires RefreshWith(l, rows, access, refresh, now, later, newAccess, newRefresh, fault).Refreshed?
    ensures var answer := RefreshWith(l, rows, access, refresh, now, later, newAccess, newRefresh, fault);
            var after, id := AfterRefresh(rows, answer), answer.row.id;
            var verdict := Judge(l, after, id, newAccess, t, t);
            var again := RefreshWith(l, after, Some((id, newAccess)), Some((id, newRefresh)), t, t, "", "", NoFault);
            && (UnixMilli(t) < answer.accessExpiration ==> verdict.Accepted?)
            && (UnixMilli(t) > answer.accessExpiration ==> !verdict.Accepted?)
            && (UnixMilli(t) < answer.refreshExpiration ==> again.Refreshed?)
            && (UnixMilli(t) > answer.refreshExpiration ==> again.ExpiredRefreshToken?)
  {
    var answer := RefreshWith(l, rows, access, refresh, now, later, newAccess, newRefresh, fault);
    var expires := AccessTokenExpireAt(l, answer.row);
    MillisecondOf(t);
    MillisecondOf(expires);
    MillisecondOf(answer.row.expireAt);
    assert UnixMilli(t) < UnixMilli(expires) ==> t < expires;
    assert UnixMilli(t) > UnixMilli(expires) ==> t > expires;
    assert UnixMilli(t) < UnixMilli(answer.row.expireAt) ==> t < answer.row.expireAt;
    assert UnixMilli(t) > UnixMilli(answer.row.expireAt) ==> t > answer.row.expireAt;
    hide UnixMilli;
  }

  /** Which refreshes are refused as invalid: those whose tokens do not decrypt, are of different sessions or are
      not the pair of a stored session; what cannot be searched is an internal error. */
  lemma RefusedIff(l: Lifetimes, rows: Rows, access: Parsed, refresh: Parsed,
                   now: Time, later: Time, newAccess: string, newRefresh: string, fault: Fault)
    ensures var answer := RefreshWith(l, rows, access, refresh, now, later, newAccess, newRefresh, fault);
            var paired := access.Some? && refresh.Some? && access.value.0 == refresh.value.0;
            var stored := paired && access.value.0 in rows && rows[access.value.0].accessToken == access.value.1
                          && rows[access.value.0].refreshToken == refresh.value.1;
            && (answer.InternalError? <==> paired && fault.SearchFails?)
            && (answer.InvalidParameters? <==> !paired || (!fault.SearchFails? && !stored))
            && (answer.Refreshed? ==>
                  && stored && rows[access.value.0].expireAt >= now && fault.NoFault?
                  && answer.row.id == rows[access.value.0].id && answer.row.userID == rows[access.value.0].userID
                  && answer.row.accessToken == newAccess && answer.row.refreshToken == newRefresh)
  {
  }
}
