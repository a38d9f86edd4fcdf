/** User accounts and the revocation of JSON web tokens by password changes. */
module Users {
  import opened Basics
  import opened Times

  /** A row of the user table. `passwordUpdatedAt` counts seconds. */
  datatype Row = Row(id: string, email: string, password: string, cost: int, nonce: string, salt: string,
                     version: string, passwordUpdatedAt: int)

  type Rows = map<string, Row>

  const DEFAULT_VERSION: string := "002"

  /** The parameters an update may set; empty strings and costs that are not positive set nothing. */
  datatype Params = Params(cost: int, nonce: string, salt: string, version: string)

  /** Of a web token only the two claims matter: the user, and the second it was issued in. */
  datatype Jwt = Jwt(userID: string, iat: int)

  /** Rows are stored under their own id, which is never empty, and no two of them have an email in common. */
  ghost predicate WellKeyed(rows: Rows) {
    && "" !in rows && (forall id :: id in rows ==> rows[id].id == id)
    && forall a, b :: a in rows && b in rows && rows[a].email == rows[b].email ==> a == b
  }

  predicate Taken(rows: Rows, email: string, owner: string) {
    exists id :: id in rows && rows[id].email == email && id != owner
  }

  /** An email that nobody has is free for every new user. */
  lemma NoOwner(rows: Rows, email: string)
    requires WellKeyed(rows)
    ensures Taken(rows, email, "") <==> exists id :: id in rows && rows[id].email == email
    ensures !Taken(rows, email, "") ==> forall owner :: !Taken(rows, email, owner)
  {
  }

  function Applied(row: Row, p: Params): Row {
    row.(cost := if p.cost > 0 then p.cost else row.cost,
         nonce := if p.nonce != "" then p.nonce else row.nonce,
         salt := if p.salt != "" then p.salt else row.salt,
         version := if p.version != "" then p.version else row.version)
  }

  function Registered(id: string, email: string, hash: string, cost: int, nonce: string, version: string,
                      now: Time): Row {
    Row(id, email, hash, cost, nonce, "", if version != "" then version else DEFAULT_VERSION, Unix(now))
  }

  function Changed(row: Row, hash: string, newEmail: string, p: Params, now: Time): Row {
    Applied(row.(password := hash, passwordUpdatedAt := Unix(now),
                 email := if newEmail != "" then newEmail else row.email), p)
  }

  /** What a registration stores, field by field. */
  lemma RegisteredFields(id: string, email: string, hash: string, cost: int, nonce: string, version: string, now: Time)
    ensures var row := Registered(id, email, hash, cost, nonce, version, now);
            && row.id == id && row.email == email && row.password == hash && row.cost == cost && row.nonce == nonce
            && row.salt == "" && row.version == (if version == "" then "002" else version)
            && row.passwordUpdatedAt * SECOND <= now < (row.passwordUpdatedAt + 1) * SECOND
  {
    SecondOf(now);
  }

  /** What parameters change, field by field: a cost that is positive and strings that are not empty. */
  lemma AppliedFields(row: Row, p: Params)
    ensures var a := Applied(row, p);
            && a.id == row.id && a.email == row.email && a.password == row.password
            && a.passwordUpdatedAt == row.passwordUpdatedAt
            && (p.cost > 0 ==> a.cost == p.cost) && (p.cost <= 0 ==> a.cost == row.cost)
            && (p.nonce != "" ==> a.nonce == p.nonce) && (p.nonce == "" ==> a.nonce == row.nonce)
            && (p.salt != "" ==> a.salt == p.salt) && (p.salt == "" ==> a.salt == row.salt)
            && (p.version != "" ==> a.version == p.version) && (p.version == "" ==> a.version == row.version)
  {
  }

  /** What a change of the password changes besides: the password, its time, and the email when one is given. */
  lemma ChangedFields(row: Row, hash: string, newEmail: string, p: Params, now: Time)
    ensures var c := Changed(row, hash, newEmail, p, now);
            && c.id == row.id && c.password == hash
            && (newEmail != "" ==> c.email == newEmail) && (newEmail == "" ==> c.email == row.email)
            && c.passwordUpdatedAt * SECOND <= now < (c.passwordUpdatedAt + 1) * SECOND
            && c.cost == Applied(row, p).cost && c.nonce == Applied(row, p).nonce
            && c.salt == Applied(row, p).salt && c.version == Applied(row, p).version
  {
    SecondOf(now);
  }

  /** A row is saved unless another user has its email. */
  function Stored(rows: Rows, row: Row): Rows {
    if Taken(rows, row.email, row.id) then rows else rows[row.id := row]
  }

  predicate Authenticates(rows: Rows, token: Jwt) {
    token.userID in rows && token.iat >= rows[token.userID].passwordUpdatedAt
  }

  class User {
    var id: string
    var email: string
    var password: string
    var cost: int
    var nonce: string
    var salt: string
    var version: string
    var passwordUpdatedAt: int

    constructor ()
      ensures Value() == Row("", "", "", 0, "", "", DEFAULT_VERSION, 0)
    {
      id, email, password, cost, nonce, salt := "", "", "", 0, "", "";
      version, passwordUpdatedAt := DEFAULT_VERSION, 0;
    }

    function Value(): Row
      reads this
    {
      Row(id, email, password, cost, nonce, salt, version, passwordUpdatedAt)
    }
  }

  class UserService {
    /** The salted hash of a password, and whether a hash is one of a password. */
    const digest: (string, string) -> string
    const verifies: (string, string) -> bool
    var rows: Rows
    var clock: Time

    constructor (digest: (string, string) -> string, verifies: (string, string) -> bool, start: Time)
      ensures this.digest == digest && this.verifies == verifies && rows == map[] && clock == start
    {
      this.digest, this.verifies := digest, verifies;
      rows, clock := map[], start;
    }

    method GenerateFromPassword(password: string) returns (hash: string, ghost salt: string)
      ensures hash == digest(password, salt)
    {
      var drawn: string := *;
      hash, salt := digest(password, drawn), drawn;
    }

    /** The user with this email whose password verifies. */
    method Login(email: string, password: string) returns (token: Option<Jwt>)
      requires WellKeyed(rows)
      modifies this`clock
      ensures clock >= old(clock)
      ensures token.Some?
              <==> exists id :: id in rows && rows[id].email == email && verifies(rows[id].password, password)
      ensures token.Some? ==>
                && token.value.userID in rows && rows[token.value.userID].email == email
                && token.value.iat * SECOND <= clock < (token.value.iat + 1) * SECOND
    {
      if !exists id :: id in rows && rows[id].email == email {
        return None;
      }
      var id :| id in rows && rows[id].email == email;
      assert forall k :: k in rows && rows[k].email == email ==> k == id;
      if !verifies(rows[id].password, password) {
        assert forall k :: k in rows && rows[k].email == email ==> !verifies(rows[k].password, password);
        return None;
      }
      clock := Later(clock);
      SecondOf(clock);
      token := Some(Jwt(id, Unix(clock)));
      assert rows[id].email == email && verifies(rows[id].password, password);
    }

    /** Stores a user, with a new identifier when it has none; an email that another user has is refused. */
    method Save(user: User) returns (ok: bool)
      requires WellKeyed(rows)
      modifies this`rows, user`id
      ensures WellKeyed(rows)
      ensures old(user.id) != "" ==> user.id == old(user.id)
      ensures old(user.id) == "" ==> user.id !in old(rows) && user.id != ""
      ensures ok <==> !Taken(old(rows), user.email, user.id)
      ensures rows == Stored(old(rows), user.Value())
    {
      if user.id == "" {
        SomeIdIsFree(rows.Keys + {""});
        var drawn: string :| drawn !in rows.Keys + {""};
        user.id := drawn;
      }
      ok := !Taken(rows, user.email, user.id);
      if ok {
        rows := rows[user.id := user.Value()];
      }
    }

    method CreateJwt(user: User) returns (token: Jwt)
      modifies this`clock
      ensures clock >= old(clock) && token == Jwt(user.id, Unix(clock))
    {
      clock := Later(clock);
      var t := clock;
      token := Jwt(user.id, Unix(t));
    }

    /** The user a web token belongs to, unless the password has changed since it was issued. */
    method UserFromJwt(token: Jwt) returns (user: Option<Row>)
      ensures user == if Authenticates(rows, token) then Some(rows[token.userID]) else None
    {
      if token.userID !in rows {
        return None;
      }
      if token.iat < rows[token.userID].passwordUpdatedAt {
        return None;
      }
      return Some(rows[token.userID]);
    }

    method Register(email: string, password: string, cost: int, nonce: string, version: string)
      returns (token: Option<Jwt>, ghost id: string, ghost hash: string, ghost drawnSalt: string, ghost now: Time)
      requires WellKeyed(rows)
      modifies this
      ensures WellKeyed(rows) && old(clock) <= now <= clock
      ensures token.None? <==> Taken(old(rows), email, "")
      ensures token.None? ==> rows == old(rows)
      ensures token.Some? ==>
                id != "" && id !in old(rows)
                  && rows == old(rows)[id := Registered(id, email, hash, cost, nonce, version, now)]
      ensures token.Some? ==> token.value == Jwt(id, Unix(clock))
      ensures token.Some? ==>
                && rows[id].email == email && rows[id].password == hash == digest(password, drawnSalt)
                && rows[id].cost == cost && rows[id].nonce == nonce && rows[id].salt == ""
                && rows[id].version == (if version == "" then "002" else version)
    {
      id, hash, drawnSalt, now := "", "", "", clock;
      if exists k :: k in rows && rows[k].email == email {
        return None, id, hash, drawnSalt, now;
      }
      var user := new User();
      user.email, user.nonce, user.cost := email, nonce, cost;
      if version != "" {
        user.version := version;
      }
      user.password, drawnSalt := GenerateFromPassword(password);
      clock := Later(clock);
      var t := clock;
      user.passwordUpdatedAt := Unix(t);
      hash, now := user.password, t;
      assert user.Value() == Registered("", email, hash, cost, nonce, version, now);
      NoOwner(rows, email);
      hide Taken;
      var ok := Save(user);
      id := user.id;
      var jwt := CreateJwt(user);
      token := Some(jwt);
    }

    /** Updates the given user with the parameters that are set. */
    method Apply(user: User, p: Params)
      modifies user
      ensures user.Value() == Applied(old(user.Value()), p)
      ensures user.cost == if p.cost > 0 then p.cost else old(user.cost)
      ensures user.nonce == if p.nonce != "" then p.nonce else old(user.nonce)
      ensures user.salt == if p.salt != "" then p.salt else old(user.salt)
      ensures user.version == if p.version != "" then p.version else old(user.version)
    {
      if p.cost > 0 {
        user.cost := p.cost;
      }
      if p.nonce != "" {
        user.nonce := p.nonce;
      }
      if p.salt != "" {
        user.salt := p.salt;
      }
      if p.version != "" {
        user.version := p.version;
      }
    }

    /** Changes parameters of a user the request has loaded, but not the password. */
    method Update(user: User, p: Params) returns (token: Option<Jwt>)
      requires WellKeyed(rows) && user.id in rows && rows[user.id] == user.Value()
      modifies this, user
      ensures WellKeyed(rows) && clock >= old(clock)
      ensures rows == Stored(old(rows), Applied(old(rows)[old(user.id)], p))
      ensures token.Some? <==> !Taken(old(rows), old(user.email), old(user.id))
      ensures token.Some? ==> token.value == Jwt(old(user.id), Unix(clock))
    {
      Apply(user, p);
      var ok := Save(user);
      if !ok {
        return None;
      }
      var jwt := CreateJwt(user);
      token := Some(jwt);
    }

    /** Sets password, email and parameters of a user in memory. */
    method SetPassword(user: User, password: string, newEmail: string, p: Params)
      returns (hash: string, ghost drawnSalt: string, ghost now: Time)
      modifies this`clock, user
      ensures old(clock) <= now == clock && hash == digest(password, drawnSalt)
      ensures user.Value() == Changed(old(user.Value()), hash, newEmail, p, now)
    {
      hash, drawnSalt := GenerateFromPassword(password);
      user.password := hash;
      clock := Later(clock);
      now := clock;
      user.passwordUpdatedAt := Unix(clock);
      if newEmail != "" {
        user.email := newEmail;
      }
      Apply(user, p);
    }

    /** Changes the password of a user the request has loaded, and its email when one is given. */
    method Password(user: User, current: string, password: string, newEmail: string, p: Params)
      returns (token: Option<Jwt>, ghost hash: string, ghost drawnSalt: string, ghost now: Time)
      requires WellKeyed(rows) && user.id in rows && rows[user.id] == user.Value()
      modifies this, user
      ensures WellKeyed(rows) && old(clock) <= now <= clock
      ensures var changed := Changed(old(rows)[old(user.id)], hash, newEmail, p, now);
              && (token.Some?
                  <==> verifies(old(user.password), current) && !Taken(old(rows), changed.email, changed.id))
              && rows == (if verifies(old(user.password), current) then Stored(old(rows), changed) else old(rows))
              && (token.Some? ==> token.value == Jwt(old(user.id), Unix(clock)))
      ensures token.Some? ==>
                var row, before := rows[old(user.id)], old(rows)[old(user.id)];
                && row.password == hash == digest(password, drawnSalt)
                && row.email == (if newEmail != "" then newEmail else before.email)
                && row.cost == (if p.cost > 0 then p.cost else before.cost)
                && row.nonce == (if p.nonce != "" then p.nonce else before.nonce)
                && row.salt == (if p.salt != "" then p.salt else before.salt)
                && row.version == (if p.version != "" then p.version else before.version)
    {
      hide Taken, Changed, Applied, WellKeyed;
      ghost var before := rows[user.id];
      hash, drawnSalt, now := "", "", clock;
      if !verifies(user.password, current) {
        return None, hash, drawnSalt, now;
      }
      hash, drawnSalt, now := SetPassword(user, password, newEmail, p);
      ChangedFields(before, hash, newEmail, p, now);
      AppliedFields(before, p);
      var ok := Save(user);
      if !ok {
        return None, hash, drawnSalt, now;
      }
      var jwt := CreateJwt(user);
      token := Some(jwt);
    }
  }

  // ---------------------------------------------------------------- Whole runs

  /** The table, the clock, the instant of each user's last registration or password change and the hash that
      it drew, and every web token that has been issued. */
  datatype State = State(rows: Rows, clock: Time, changedAt: map<string, Time>, hashes: map<string, string>,
                         issued: set<Jwt>)

  datatype Op =
    | Register(now: Time, later: Time, id: string, email: string, hash: string, cost: int, nonce: string,
               version: string)
    | Login(later: Time, id: string)
    | Update(later: Time, id: string, p: Params)
    | Password(now: Time, later: Time, id: string, verified: bool, hash: string, newEmail: string, p: Params)

  /** Time does not go back; a registration draws a new identifier; other requests are made by users. */
  ghost predicate Allowed(s: State, op: Op) {
    && s.clock <= op.later
    && (op.Register? || op.Password? ==> s.clock <= op.now <= op.later)
    && if op.Register? then op.id != "" && op.id !in s.rows else op.id in s.rows
  }

  /** Whether the request sets a password. */
  predicate SetsPassword(rows: Rows, op: Op) {
    match op
    case Register(_, _, id, email, _, _, _, _) => !Taken(rows, email, "")
    case Password(now, _, id, verified, hash, newEmail, p) =>
      id in rows && verified && !Taken(rows, Changed(rows[id], hash, newEmail, p, now).email, id)
    case _ => false
  }

  function RowsAfter(rows: Rows, op: Op): Rows {
    match op
    case Register(now, _, id, email, hash, cost, nonce, version) =>
      if Taken(rows, email, "") then rows else rows[id := Registered(id, email, hash, cost, nonce, version, now)]
    case Login(_, _) => rows
    case Update(_, id, p) => if id in rows then Stored(rows, Applied(rows[id], p)) else rows
    case Password(now, _, id, verified, hash, newEmail, p) =>
      if id in rows && verified then Stored(rows, Changed(rows[id], hash, newEmail, p, now)) else rows
  }

  /** A request that succeeds answers with a web token of its last instant. */
  predicate Answers(rows: Rows, op: Op) {
    op.Login? || SetsPassword(rows, op) || (op.Update? && op.id in rows && !Taken(rows, rows[op.id].email, op.id))
  }

  function Serve(s: State, op: Op): State {
    State(RowsAfter(s.rows, op), op.later,
          if SetsPassword(s.rows, op) then s.changedAt[op.id := op.now] else s.changedAt,
          if SetsPassword(s.rows, op) then s.hashes[op.id := op.hash] else s.hashes,
          if Answers(s.rows, op) then s.issued + {Jwt(op.id, Unix(op.later))} else s.issued)
  }

  function Run(s: State, ops: seq<Op>): State {
    if ops == [] then s else Serve(Run(s, ops[..|ops| - 1]), ops[|ops| - 1])
  }

  ghost predicate AllowedRun(s: State, ops: seq<Op>) {
    forall i :: 0 <= i < |ops| ==> Allowed(Run(s, ops[..i]), ops[i])
  }

  ghost predicate Initial(s: State) {
    s.rows == map[] && s.changedAt == map[] && s.hashes == map[] && s.issued == {}
  }

  ghost predicate Invariant(s: State) {
    && WellKeyed(s.rows) && s.rows.Keys == s.changedAt.Keys == s.hashes.Keys
    && (forall id :: id in s.rows ==> s.rows[id].password == s.hashes[id])
    && (forall id :: id in s.rows ==>
          s.changedAt[id] <= s.clock && s.rows[id].passwordUpdatedAt == Unix(s.changedAt[id]))
    && (forall t :: t in s.issued ==> t.iat <= Unix(s.clock) && t.userID in s.rows)
  }

  lemma StoredKeepsKeys(rows: Rows, row: Row)
    requires WellKeyed(rows) && row.id != ""
    ensures WellKeyed(Stored(rows, row))
  {
  }

  lemma RowsAfterKeepsKeys(rows: Rows, op: Op)
    requires WellKeyed(rows) && (op.Register? ==> op.id != "" && op.id !in rows)
    ensures WellKeyed(RowsAfter(rows, op))
  {
    match op
    case Register(now, _, id, email, hash, cost, nonce, version) =>
      NoOwner(rows, email);
      StoredKeepsKeys(rows, Registered(id, email, hash, cost, nonce, version, now));
    case Login(_, _) =>
    case Update(_, id, p) =>
      if id in rows {
        StoredKeepsKeys(rows, Applied(rows[id], p));
      }
    case Password(now, _, id, verified, hash, newEmail, p) =>
      if id in rows {
        StoredKeepsKeys(rows, Changed(rows[id], hash, newEmail, p, now));
      }
  }

  /** After a request each row is as it was, apart from parameters, or has the password that the request sets. */
  lemma RowAfter(rows: Rows, op: Op, id: string)
    requires WellKeyed(rows) && (op.Register? ==> op.id !in rows)
    ensures id in rows ==> id in RowsAfter(rows, op)
    ensures id in RowsAfter(rows, op) ==>
              var row := RowsAfter(rows, op)[id];
              if SetsPassword(rows, op) && id == op.id then row.password == op.hash
                 && row.passwordUpdatedAt == Unix(op.now)
              else id in rows && row.password == rows[id].password
                   && row.passwordUpdatedAt == rows[id].passwordUpdatedAt
    ensures SetsPassword(rows, op) ==> op.id in RowsAfter(rows, op)
  {
    hide Taken;
  }

  lemma InvariantAt(s: State, id: string)
    requires Invariant(s)
    ensures id in s.rows <==> id in s.changedAt
    ensures id in s.rows <==> id in s.hashes
    ensures id in s.rows ==>
              && s.rows[id].password == s.hashes[id] && s.changedAt[id] <= s.clock
              && s.rows[id].passwordUpdatedAt == Unix(s.changedAt[id])
  {
    hide WellKeyed;
  }

  lemma ServedRow(s: State, op: Op, id: string)
    requires Invariant(s) && Allowed(s, op)
    ensures var s' := Serve(s, op);
            && (id in s.rows ==> id in s'.rows && s.changedAt[id] <= s'.changedAt[id])
            && (id in s'.rows <==> id in s'.changedAt) && (id in s'.rows <==> id in s'.hashes)
            && (id in s'.rows ==>
                  && s'.rows[id].password == s'.hashes[id] && s'.changedAt[id] <= s'.clock
                  && s'.rows[id].passwordUpdatedAt == Unix(s'.changedAt[id]))
  {
    InvariantAt(s, id);
    RowAfter(s.rows, op, id);
    assert SetsPassword(s.rows, op) ==> op.Register? || op.Password?;
    hide Invariant, RowsAfter, SetsPassword, Answers, Unix, WellKeyed;
  }

  lemma ServedTokens(s: State, op: Op, token: Jwt)
    requires Invariant(s) && Allowed(s, op) && token in Serve(s, op).issued
    ensures token.iat <= Unix(op.later) && token.userID in Serve(s, op).rows
  {
    RowAfter(s.rows, op, token.userID);
    assert Answers(s.rows, op) && !SetsPassword(s.rows, op) ==> op.id in s.rows;
    hide RowsAfter, SetsPassword, Answers, WellKeyed;
  }

  lemma ServeGrows(s: State, op: Op)
    requires Invariant(s) && Allowed(s, op)
    ensures WellKeyed(Serve(s, op).rows) && s.clock <= Serve(s, op).clock == op.later && s.issued <= Serve(s, op).issued
  {
    RowsAfterKeepsKeys(s.rows, op);
    hide RowsAfter, SetsPassword, Answers, WellKeyed, Unix;
  }

  lemma ServeKeepsInvariant(s: State, op: Op)
    requires Invariant(s) && Allowed(s, op)
    ensures Invariant(Serve(s, op)) && s.clock <= Serve(s, op).clock
    ensures forall id :: id in s.rows ==> id in Serve(s, op).rows && s.changedAt[id] <= Serve(s, op).changedAt[id]
    ensures s.issued <= Serve(s, op).issued
  {
    hide Serve, Allowed, WellKeyed, Unix;
    var s' := Serve(s, op);
    ServeGrows(s, op);
    forall id: string
      ensures (id in s'.rows <==> id in s'.changedAt) && (id in s'.rows <==> id in s'.hashes)
      ensures id in s.rows ==> id in s'.rows && s.changedAt[id] <= s'.changedAt[id]
      ensures id in s'.rows ==>
                && s'.rows[id].password == s'.hashes[id] && s'.changedAt[id] <= s'.clock
                && s'.rows[id].passwordUpdatedAt == Unix(s'.changedAt[id])
    {
      ServedRow(s, op, id);
    }
    forall token | token in s'.issued
      ensures token.iat <= Unix(s'.clock) && token.userID in s'.rows
    {
      ServedTokens(s, op, token);
    }
  }

  lemma {:induction false} RunKeepsInvariant(s: State, ops: seq<Op>)
    requires Invariant(s) && AllowedRun(s, ops)
    ensures Invariant(Run(s, ops)) && s.clock <= Run(s, ops).clock && s.issued <= Run(s, ops).issued
    ensures forall id :: id in s.changedAt ==>
              id in Run(s, ops).changedAt && s.changedAt[id] <= Run(s, ops).changedAt[id]
  {
    if ops != [] {
      var n := |ops| - 1;
      assert forall i :: 0 <= i < n ==> ops[..n][..i] == ops[..i];
      RunKeepsInvariant(s, ops[..n]);
      InvariantKeys(Run(s, ops[..n]));
      hide Invariant, Allowed, Serve;
      ServeKeepsInvariant(Run(s, ops[..n]), ops[n]);
      InvariantKeys(Run(s, ops));
    }
  }

  lemma InvariantKeys(s: State)
    requires Invariant(s)
    ensures s.rows.Keys == s.changedAt.Keys
  {
  }

  /** A web token is accepted if and only if the second it was issued in is not below the second of its
      user's last registration or password change. */
  lemma AcceptedIffNotOlder(s: State, ops: seq<Op>, token: Jwt)
    requires Initial(s) && AllowedRun(s, ops)
    ensures var end := Run(s, ops);
            Authenticates(end.rows, token)
            <==> token.userID in end.changedAt && token.iat >= Unix(end.changedAt[token.userID])
  {
    RunKeepsInvariant(s, ops);
  }

  /** In every state of a run a row's password is the hash that its user's last registration or password change
      drew, and no two users have an email in common. */
  lemma PasswordIsLatest(s: State, ops: seq<Op>, id: string)
    requires Initial(s) && AllowedRun(s, ops) && id in Run(s, ops).rows
    ensures var end := Run(s, ops);
            && id in end.hashes && end.rows[id].password == end.hashes[id]
            && forall other :: other in end.rows && end.rows[other].email == end.rows[id].email ==> other == id
  {
    RunKeepsInvariant(s, ops);
  }

  /** Revocation is permanent: a token of a known user that is rejected in some state of a run is
      rejected in every later one. */
  lemma RevocationIsPermanent(s: State, before: seq<Op>, after: seq<Op>, token: Jwt)
    requires Initial(s) && AllowedRun(s, before) && AllowedRun(Run(s, before), after)
    requires token.userID in Run(s, before).rows && !Authenticates(Run(s, before).rows, token)
    ensures !Authenticates(Run(Run(s, before), after).rows, token)
  {
    RunKeepsInvariant(s, before);
    RunKeepsInvariant(Run(s, before), after);
    var id := token.userID;
    assert Run(s, before).changedAt[id] <= Run(Run(s, before), after).changedAt[id];
  }

  /** A request that sets a password revokes every token issued in an earlier second, keeps those of the
      same second, and answers with one that is accepted. */
  lemma SettingPasswordRevokes(s: State, ops: seq<Op>, op: Op, token: Jwt)
    requires Initial(s) && AllowedRun(s, ops) && Allowed(Run(s, ops), op) && SetsPassword(Run(s, ops).rows, op)
    requires token in Run(s, ops).issued && token.userID == op.id
    ensures Authenticates(Serve(Run(s, ops), op).rows, token) <==> token.iat == Unix(op.now)
    ensures Authenticates(Serve(Run(s, ops), op).rows, Jwt(op.id, Unix(op.later)))
  {
    RunKeepsInvariant(s, ops);
    hide Run, AllowedRun, WellKeyed, Unix, Taken;
    var mid := Run(s, ops);
    ServedRow(mid, op, op.id);
    RowAfter(mid.rows, op, op.id);
    ServedTokens(mid, op, Jwt(op.id, Unix(op.later)));
    SecondsGrow(op.now, op.later);
    SecondsGrow(mid.clock, op.now);
  }

  lemma SecondsGrow(t: Time, u: Time)
    requires t <= u
    ensures Unix(t) <= Unix(u)
  {
  }

  /** A token that outlives a change of its user's password, because both happen in one second. */
  lemma SameSecondSurvives() returns (s: State, ops: seq<Op>, op: Op, token: Jwt)
    ensures Initial(s) && AllowedRun(s, ops) && Allowed(Run(s, ops), op)
    ensures op.Password? && op.id == token.userID && SetsPassword(Run(s, ops).rows, op) && Run(s, ops).clock < op.now
    ensures token in Run(s, ops).issued && Authenticates(Serve(Run(s, ops), op).rows, token)
  {
    s := State(map[], 0, map[], map[], {});
    var registration := Op.Register(1, 2, "id", "mail", "hash", 0, "", "");
    ops, op, token := [registration], Op.Password(3, 4, "id", true, "other", "", Params(0, "", "", "")), Jwt("id", 0);
    assert ops[..0] == [] && Run(s, ops) == Serve(s, registration);
    SettingPasswordRevokes(s, ops, op, token);
  }
}
