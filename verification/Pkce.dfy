/** PKCE challenges: the service of one request, and any number of requests whose database steps
    interleave. */
module Pkce {
  import opened Basics
  import opened Times
  import opened Text
  import Base64
  import Hex

  /** A stored challenge. `updatedAt` is the instant `Save` stamped it with. */
  datatype Row = Row(code: string, expireAt: Time, updatedAt: Time)

  type Rows = map<string, Row>

  function Unexpired(rows: Rows, now: Time): Rows {
    map id | id in rows && rows[id].expireAt > now :: rows[id]
  }

  function Without(rows: Rows, code: string): Rows {
    map id | id in rows && rows[id].code != code :: rows[id]
  }

  predicate Holds(rows: Rows, code: string) {
    exists id :: id in rows && rows[id].code == code
  }

  lemma HoldsUnexpired(rows: Rows, now: Time, code: string)
    ensures Holds(Unexpired(rows, now), code)
            <==> exists id :: id in rows && rows[id].code == code && rows[id].expireAt > now
    ensures !Holds(rows, code) ==> Without(rows, code) == rows
  {
    if id :| id in rows && rows[id].code == code && rows[id].expireAt > now {
      assert id in Unexpired(rows, now) && Unexpired(rows, now)[id].code == code;
    }
  }

  // ---------------------------------------------------------------- The challenge of a verifier

  function ComputeChallenge(sha256: string -> string, verifier: string): string
    requires Bytes(sha256(verifier))
  {
    Base64.Encode(Base64.UrlSafe, false, Hex.Encode(sha256(verifier)))
  }

  /** Two verifiers share a challenge exactly when they share a hash. */
  lemma ChallengeIdentifiesHash(sha256: string -> string, v: string, w: string)
    requires Bytes(sha256(v)) && Bytes(sha256(w))
    ensures ComputeChallenge(sha256, v) == ComputeChallenge(sha256, w) <==> sha256(v) == sha256(w)
  {
    if ComputeChallenge(sha256, v) == ComputeChallenge(sha256, w) {
      Base64.UnpaddedInjective(Base64.UrlSafe, Hex.Encode(sha256(v)), Hex.Encode(sha256(w)));
      Hex.RoundTrip(sha256(v));
      Hex.RoundTrip(sha256(w));
    }
  }

  /** The hash is encoded in its hexadecimal form. Section 4.2 of RFC 7636 encodes the hash itself,
      which gives 43 characters; the challenges here have 86 and are never the ones of the RFC. */
  lemma ChallengeIsNotS256(sha256: string -> string, v: string, w: string)
    requires Bytes(sha256(v)) && |sha256(v)| == 32 && Bytes(sha256(w)) && |sha256(w)| == 32
    ensures |ComputeChallenge(sha256, v)| == 86
    ensures ComputeChallenge(sha256, v) != Base64.Encode(Base64.UrlSafe, false, sha256(w))
  {
    Base64.UnpaddedLength(Base64.UrlSafe, Hex.Encode(sha256(v)));
    Base64.UnpaddedLength(Base64.UrlSafe, sha256(w));
  }

  /** What a challenge says: the lower-case hexadecimal digits of the hash, in base64url without padding. */
  lemma ChallengeText(sha256: string -> string, v: string)
    requires Bytes(sha256(v)) && |sha256(v)| == 32
    ensures Base64.Decode(Base64.UrlSafe, ComputeChallenge(sha256, v) + "==") == Some(Hex.Encode(sha256(v)))
  {
    var text := Hex.Encode(sha256(v));
    Base64.RoundTrip(Base64.UrlSafe, text);
    Base64.Padding(Base64.UrlSafe, text);
    assert |text| == 64;
    assert Base64.Missing(64) == 2 && Base64.Fill(2) == "==";
  }

  // ---------------------------------------------------------------- One request at a time

  class Client {
    var rows: Rows
    var clock: Time

    constructor (start: Time)
      ensures rows == map[] && clock == start
    {
      rows, clock := map[], start;
    }

    method RevokeExpiredChallenges() returns (ghost now: Time)
      modifies this
      ensures now == clock >= old(clock)
      ensures rows == Unexpired(old(rows), now)
    {
      clock := Later(clock);
      var t := clock;
      now := t;
      rows := Unexpired(rows, t);
    }

    method FindPKCE(code: string) returns (found: bool)
      ensures found <==> Holds(rows, code)
    {
      found := exists id :: id in rows && rows[id].code == code;
    }

    /** Deletes every row of the code; finding none is an error. */
    method RemovePKCE(code: string) returns (ok: bool)
      modifies this`rows
      ensures ok <==> Holds(old(rows), code)
      ensures rows == Without(old(rows), code)
    {
      ok := exists id :: id in rows && rows[id].code == code;
      rows := Without(rows, code);
    }

    method Save(code: string, expireAt: Time) returns (ghost id: string)
      modifies this
      ensures clock >= old(clock)
      ensures id !in old(rows) && rows == old(rows)[id := Row(code, expireAt, clock)]
    {
      clock := Later(clock);
      var t := clock;
      SomeIdIsFree(rows.Keys);
      var drawn: string :| drawn !in rows.Keys;
      id := drawn;
      rows := rows[drawn := Row(code, expireAt, t)];
    }
  }

  class PkceService {
    const db: Client

    constructor (db: Client)
      ensures this.db == db
    {
      this.db := db;
    }

    method StoreChallenge(code: string) returns (ghost revokedAt: Time, ghost id: string)
      modifies db
      ensures old(db.clock) <= revokedAt <= db.clock
      ensures id in db.rows && db.rows[id].code == code
      ensures revokedAt + HOUR <= db.rows[id].expireAt <= db.rows[id].updatedAt + HOUR
              && db.rows[id].updatedAt == db.clock
      ensures id !in Unexpired(old(db.rows), revokedAt)
              && db.rows == Unexpired(old(db.rows), revokedAt)[id := db.rows[id]]
    {
      revokedAt := db.RevokeExpiredChallenges();
      db.clock := Later(db.clock);
      var t := db.clock;
      id := db.Save(code, t + HOUR);
    }

    /** Run on its own, a check succeeds if and only if the challenge is stored and not expired, and
        uses up every row of it. */
    method CheckChallenge(code: string) returns (ok: bool, ghost revokedAt: Time)
      modifies db
      ensures old(db.clock) <= revokedAt == db.clock
      ensures ok <==> exists id ::
                && id in old(db.rows)
                && old(db.rows)[id].code == code && old(db.rows)[id].expireAt > revokedAt
      ensures db.rows == Without(Unexpired(old(db.rows), revokedAt), code)
    {
      ghost var before := db.rows;
      revokedAt := db.RevokeExpiredChallenges();
      HoldsUnexpired(before, revokedAt, code);
      HoldsUnexpired(db.rows, revokedAt, code);
      var found := db.FindPKCE(code);
      if !found {
        ok := false;
        return;
      }
      ok := db.RemovePKCE(code);
    }
  }

  // ---------------------------------------------------------------- Interleaved requests

  /** How far a request has come. A check that has revoked remembers when it did. */
  datatype Process =
    | StoreRevoking(code: string)
    | StoreStamping(code: string)
    | StoreSaving(code: string, expireAt: Time)
    | CheckRevoking(code: string, began: Time)
    | CheckFinding(code: string, began: Time, revokedAt: Time)
    | CheckRemoving(code: string, began: Time, revokedAt: Time)
    | Finished

  /** What happened to challenges: one was stored at an instant, or a check that began at an instant
      succeeded. */
  datatype Event = Stored(code: string, at: Time) | Succeeded(code: string, began: Time)

  datatype State = State(rows: Rows, clock: Time, processes: map<nat, Process>, log: seq<Event>)

  /** Time passes, a request arrives, or a request takes its next step; the step that saves draws an
      identifier. A step of another kind does nothing. */
  datatype Action =
    | Tick(to: Time)
    | BeginStore(p: nat, code: string)
    | BeginCheck(p: nat, code: string)
    | Advance(p: nat, id: string)

  function Do(s: State, a: Action): State {
    match a
    case Tick(to) => if to >= s.clock then s.(clock := to) else s
    case BeginStore(p, code) => if p in s.processes then s else s.(processes := s.processes[p := StoreRevoking(code)])
    case BeginCheck(p, code) =>
      if p in s.processes then s else s.(processes := s.processes[p := CheckRevoking(code, s.clock)])
    case Advance(p, id) => if p in s.processes then Step(s, p, id) else s
  }

  function Step(s: State, p: nat, id: string): State
    requires p in s.processes
  {
    match s.processes[p]
    case StoreRevoking(code) =>
      s.(rows := Unexpired(s.rows, s.clock), processes := s.processes[p := StoreStamping(code)])
    case StoreStamping(code) =>
      s.(processes := s.processes[p := StoreSaving(code, s.clock + HOUR)])
    case StoreSaving(code, expireAt) =>
      if id in s.rows then s
      else s.(rows := s.rows[id := Row(code, expireAt, s.clock)],
              processes := s.processes[p := Finished],
              log := s.log + [Stored(code, s.clock)])
    case CheckRevoking(code, began) =>
      s.(rows := Unexpired(s.rows, s.clock), processes := s.processes[p := CheckFinding(code, began, s.clock)])
    case CheckFinding(code, began, revokedAt) =>
      s.(processes := s.processes[p := if Holds(s.rows, code) then CheckRemoving(code, began, revokedAt) else Finished])
    case CheckRemoving(code, began, _) =>
      s.(rows := Without(s.rows, code),
         processes := s.processes[p := Finished],
         log := if Holds(s.rows, code) then s.log + [Succeeded(code, began)] else s.log)
    case Finished => s
  }

  function Run(s: State, actions: seq<Action>): State {
    if actions == [] then s else Do(Run(s, actions[..|actions| - 1]), actions[|actions| - 1])
  }

  function Stores(log: seq<Event>, code: string): nat {
    if log == [] then 0
    else Stores(log[..|log| - 1], code) + if log[|log| - 1].Stored? && log[|log| - 1].code == code then 1 else 0
  }

  function Successes(log: seq<Event>, code: string): nat {
    if log == [] then 0
    else Successes(log[..|log| - 1], code) + if log[|log| - 1].Succeeded? && log[|log| - 1].code == code then 1 else 0
  }

  /** Uses made and use still to be had. */
  function Uses(s: State, code: string): nat {
    Successes(s.log, code) + if Holds(s.rows, code) then 1 else 0
  }

  lemma LogGrows(log: seq<Event>, e: Event, code: string)
    ensures Stores(log + [e], code) == Stores(log, code) + if e.Stored? && e.code == code then 1 else 0
    ensures Successes(log + [e], code) == Successes(log, code) + if e.Succeeded? && e.code == code then 1 else 0
  {
    assert (log + [e])[..|log|] == log;
  }

  lemma StepPaysForUses(s: State, a: Action, code: string)
    ensures Uses(Do(s, a), code) - Uses(s, code) <= Stores(Do(s, a).log, code) - Stores(s.log, code)
  {
    hide Stores, Successes;
    if a.Advance? && a.p in s.processes {
      match s.processes[a.p]
      case StoreSaving(c, expireAt) =>
        LogGrows(s.log, Stored(c, s.clock), code);
        if Holds(Do(s, a).rows, code) && c != code {
          assert Holds(s.rows, code);
        }
      case CheckRemoving(c, began, _) =>
        LogGrows(s.log, Succeeded(c, began), code);
      case _ =>
    }
  }

  /** In every interleaving, from any state and over any stretch of it, checks of a challenge succeed
      at most as often as it is stored, and once more if it was stored at the start. */
  lemma {:induction false} UsesArePaidFor(s: State, actions: seq<Action>, code: string)
    ensures Successes(Run(s, actions).log, code) - Successes(s.log, code)
         <= Stores(Run(s, actions).log, code) - Stores(s.log, code) + (if Holds(s.rows, code) then 1 else 0)
    ensures Uses(Run(s, actions), code) - Uses(s, code) <= Stores(Run(s, actions).log, code) - Stores(s.log, code)
  {
    if actions != [] {
      var n := |actions| - 1;
      UsesArePaidFor(s, actions[..n], code);
      StepPaysForUses(Run(s, actions[..n]), actions[n], code);
    }
  }

  ghost predicate Initial(s: State) {
    s.rows == map[] && s.processes == map[] && s.log == []
  }

  /** Single use: in every interleaving of any number of requests, the successful checks of a
      challenge never outnumber its stores. */
  lemma SingleUse(s: State, actions: seq<Action>, code: string)
    requires Initial(s)
    ensures Successes(Run(s, actions).log, code) <= Stores(Run(s, actions).log, code)
  {
    UsesArePaidFor(s, actions, code);
  }

  /** A stored challenge has been stored since it was last used. */
  ghost predicate StoredSinceUse(log: seq<Event>, code: string) {
    exists i :: 0 <= i < |log| && log[i].Stored? && log[i].code == code
                && forall j :: i < j < |log| ==> !(log[j].Succeeded? && log[j].code == code)
  }

  /** Between two uses of a challenge it is stored, and before the first as well. */
  ghost predicate Alternates(log: seq<Event>, code: string) {
    forall j :: 0 <= j < |log| && log[j].Succeeded? && log[j].code == code ==> StoredSinceUse(log[..j], code)
  }

  /** A row is no older than its expiry says, and comes from an event of the log. */
  ghost predicate SoundRows(s: State) {
    forall id :: id in s.rows ==>
      && s.rows[id].expireAt <= s.rows[id].updatedAt + HOUR && s.rows[id].updatedAt <= s.clock
      && Stored(s.rows[id].code, s.rows[id].updatedAt) in s.log
  }

  /** The rows a check may still remove were unexpired when it revoked, or were saved later. */
  ghost predicate SoundProcess(q: Process, rows: Rows, clock: Time) {
    && (q.StoreSaving? ==> q.expireAt <= clock + HOUR)
    && (q.CheckRevoking? ==> q.began <= clock)
    && (q.CheckFinding? || q.CheckRemoving? ==>
          && q.began <= q.revokedAt <= clock
          && forall id :: id in rows ==> rows[id].expireAt > q.revokedAt || rows[id].updatedAt >= q.revokedAt)
  }

  ghost predicate StoredRecently(log: seq<Event>, e: Event)
    requires e.Succeeded?
  {
    exists d :: d in log && d.Stored? && d.code == e.code && d.at > e.began - HOUR
  }

  ghost predicate Sound(s: State) {
    && SoundRows(s)
    && (forall p :: p in s.processes ==> SoundProcess(s.processes[p], s.rows, s.clock))
    && (forall e :: e in s.log && e.Succeeded? ==> StoredRecently(s.log, e))
  }

  lemma StepKeepsRowsSound(s: State, a: Action)
    requires Sound(s)
    ensures SoundRows(Do(s, a))
  {
    hide StoredRecently, Holds;
    assert forall e :: e in s.log ==> e in Do(s, a).log;
    if a.Advance? && a.p in s.processes {
      assert SoundProcess(s.processes[a.p], s.rows, s.clock);
    }
  }

  /** Rows that a step leaves or adds do not disturb the other processes. */
  lemma StepKeepsProcessesSound(s: State, a: Action, p: nat)
    requires Sound(s) && p in Do(s, a).processes
    ensures SoundProcess(Do(s, a).processes[p], Do(s, a).rows, Do(s, a).clock)
  {
    hide StoredRecently, Holds;
    if p in s.processes {
      assert SoundProcess(s.processes[p], s.rows, s.clock);
    }
  }

  lemma StepKeepsSuccessesRecent(s: State, a: Action, e: Event)
    requires Sound(s) && e in Do(s, a).log && e.Succeeded?
    ensures StoredRecently(Do(s, a).log, e)
  {
    if e in s.log {
      var d :| d in s.log && d.Stored? && d.code == e.code && d.at > e.began - HOUR;
      assert d in Do(s, a).log;
    } else {
      var q := s.processes[a.p];
      assert SoundProcess(q, s.rows, s.clock);
      var id :| id in s.rows && s.rows[id].code == q.code;
      var d := Stored(q.code, s.rows[id].updatedAt);
      assert d in s.log && d.at > q.began - HOUR;
      assert d in Do(s, a).log;
    }
  }

  lemma StepIsSound(s: State, a: Action)
    requires Sound(s)
    ensures Sound(Do(s, a))
  {
    hide Do, SoundRows, SoundProcess, StoredRecently;
    StepKeepsRowsSound(s, a);
    forall p | p in Do(s, a).processes
      ensures SoundProcess(Do(s, a).processes[p], Do(s, a).rows, Do(s, a).clock)
    {
      StepKeepsProcessesSound(s, a, p);
    }
    forall e | e in Do(s, a).log && e.Succeeded?
      ensures StoredRecently(Do(s, a).log, e)
    {
      StepKeepsSuccessesRecent(s, a, e);
    }
  }

  lemma {:induction false} RunIsSound(s: State, actions: seq<Action>)
    requires Initial(s)
    ensures Sound(Run(s, actions))
  {
    if actions != [] {
      hide Sound, Do;
      RunIsSound(s, actions[..|actions| - 1]);
      StepIsSound(Run(s, actions[..|actions| - 1]), actions[|actions| - 1]);
    }
  }

  /** Every success has a store of its challenge later than one hour before the check began. */
  lemma SuccessIsRecent(s: State, actions: seq<Action>, e: Event)
    requires Initial(s) && e in Run(s, actions).log && e.Succeeded?
    ensures exists d :: d in Run(s, actions).log && d.Stored? && d.code == e.code && d.at > e.began - HOUR
  {
    RunIsSound(s, actions);
    assert StoredRecently(Run(s, actions).log, e);
  }

  ghost predicate Accounted(s: State, code: string) {
    Alternates(s.log, code) && (Holds(s.rows, code) ==> StoredSinceUse(s.log, code))
  }

  lemma LogKeepsAccount(log: seq<Event>, e: Event, code: string)
    requires Alternates(log, code) && (e.Succeeded? && e.code == code ==> StoredSinceUse(log, code))
    ensures Alternates(log + [e], code)
    ensures e.Stored? && e.code == code ==> StoredSinceUse(log + [e], code)
    ensures !(e.Succeeded? && e.code == code) && StoredSinceUse(log, code) ==> StoredSinceUse(log + [e], code)
  {
    var log' := log + [e];
    assert forall j :: 0 <= j <= |log| ==> log'[..j] == log[..j];
    assert log[..|log|] == log;
    if e.Stored? && e.code == code {
      assert log'[|log|] == e;
    }
    if !(e.Succeeded? && e.code == code) && StoredSinceUse(log, code) {
      var i :| && 0 <= i < |log| && log[i].Stored? && log[i].code == code
               && forall j :: i < j < |log| ==> !(log[j].Succeeded? && log[j].code == code);
      assert log'[i] == log[i];
    }
  }

  lemma StepKeepsAccount(s: State, a: Action, code: string)
    requires Accounted(s, code)
    ensures Accounted(Do(s, a), code)
  {
    hide Alternates, StoredSinceUse;
    if a.Advance? && a.p in s.processes {
      match s.processes[a.p]
      case StoreSaving(c, expireAt) =>
        LogKeepsAccount(s.log, Stored(c, s.clock), code);
        if Holds(Do(s, a).rows, code) && c != code {
          assert Holds(s.rows, code);
        }
      case CheckRemoving(c, began, _) =>
        if c != code || Holds(s.rows, code) {
          LogKeepsAccount(s.log, Succeeded(c, began), code);
        }
      case _ =>
    }
  }

  /** In every interleaving each use of a challenge is preceded by a store that no earlier use has
      come after: a challenge is used once per store. */
  lemma {:induction false} UsedOncePerStore(s: State, actions: seq<Action>, code: string)
    requires Initial(s)
    ensures Accounted(Run(s, actions), code) && Alternates(Run(s, actions).log, code)
  {
    if actions != [] {
      hide Do, Alternates, StoredSinceUse;
      UsedOncePerStore(s, actions[..|actions| - 1], code);
      StepKeepsAccount(Run(s, actions[..|actions| - 1]), actions[|actions| - 1], code);
    }
  }

  // ---------------------------------------------------------------- Requests that nothing disturbs

  lemma RunFour(s: State, a: Action, b: Action, c: Action, d: Action)
    ensures Run(s, [a, b, c, d]) == Do(Do(Do(Do(s, a), b), c), d)
  {
    hide Do;
    assert [a, b, c, d][..3] == [a, b, c] && [a, b, c][..2] == [a, b] && [a, b][..1] == [a] && [a][..0] == [];
    assert Run(s, [a]) == Do(s, a);
    assert Run(s, [a, b]) == Do(Do(s, a), b);
  }

  /** A check whose three steps follow each other does what `CheckChallenge` does: it succeeds if and only if the
      challenge is stored and not expired, and uses up all its rows. */
  lemma UndisturbedCheck(s: State, p: nat, code: string)
    requires p !in s.processes
    ensures var s' := Run(s, [BeginCheck(p, code), Advance(p, ""), Advance(p, ""), Advance(p, "")]);
            var found := exists id :: id in s.rows && s.rows[id].code == code && s.rows[id].expireAt > s.clock;
            && s'.rows == Without(Unexpired(s.rows, s.clock), code)
            && s'.clock == s.clock && s'.processes == s.processes[p := Finished]
            && s'.log == if found then s.log + [Succeeded(code, s.clock)] else s.log
  {
    hide Holds, Unexpired, Without, Run;
    RunFour(s, BeginCheck(p, code), Advance(p, ""), Advance(p, ""), Advance(p, ""));
    HoldsUnexpired(s.rows, s.clock, code);
    HoldsUnexpired(Unexpired(s.rows, s.clock), s.clock, code);
  }

  /** A store whose three steps follow each other drops what has expired and adds one row. */
  lemma UndisturbedStore(s: State, p: nat, code: string, id: string)
    requires p !in s.processes && id !in s.rows
    ensures var s' := Run(s, [BeginStore(p, code), Advance(p, ""), Advance(p, ""), Advance(p, id)]);
            && s'.rows == Unexpired(s.rows, s.clock)[id := Row(code, s.clock + HOUR, s.clock)]
            && s'.clock == s.clock && s'.processes == s.processes[p := Finished]
            && s'.log == s.log + [Stored(code, s.clock)]
  {
    RunFour(s, BeginStore(p, code), Advance(p, ""), Advance(p, ""), Advance(p, id));
  }

  /** A challenge can be used: a store and, less than an hour later, a check of it that nothing disturbs succeed; and
      a second check of it does not. */
  lemma StoreThenCheck(s: State, p: nat, q: nat, r: nat, code: string, id: string, later: Time)
    requires p !in s.processes && q !in s.processes && r !in s.processes && p != q && q != r && p != r && id !in s.rows
    requires s.clock <= later < s.clock + HOUR
    ensures var stored := Run(s, [BeginStore(p, code), Advance(p, ""), Advance(p, ""), Advance(p, id)]);
            var waited := Do(stored, Tick(later));
            var checked := Run(waited, [BeginCheck(q, code), Advance(q, ""), Advance(q, ""), Advance(q, "")]);
            var again := Run(checked, [BeginCheck(r, code), Advance(r, ""), Advance(r, ""), Advance(r, "")]);
            && checked.log == s.log + [Stored(code, s.clock)] + [Succeeded(code, later)]
            && again.log == checked.log
  {
    UndisturbedStore(s, p, code, id);
    var stored := Run(s, [BeginStore(p, code), Advance(p, ""), Advance(p, ""), Advance(p, id)]);
    var waited := Do(stored, Tick(later));
    assert waited.rows[id].code == code && waited.rows[id].expireAt > later;
    hide Run;
    UndisturbedCheck(waited, q, code);
    UndisturbedCheck(Run(waited, [BeginCheck(q, code), Advance(q, ""), Advance(q, ""), Advance(q, "")]), r, code);
  }

  // ---------------------------------------------------------------- Each use and its own recent store

  /** Entry `i` of the log stores a challenge, and no entry after it uses it. */
  ghost predicate Backs(log: seq<Event>, i: int, code: string, at: Time) {
    && 0 <= i < |log| && log[i] == Stored(code, at)
    && forall j :: i < j < |log| ==> !(log[j].Succeeded? && log[j].code == code)
  }

  /** Every row has such an entry, made at the instant the row was stamped with. */
  ghost predicate RowsBacked(s: State) {
    forall id :: id in s.rows ==> exists i :: Backs(s.log, i, s.rows[id].code, s.rows[id].updatedAt)
  }

  /** A success comes after a store that is not used in between and is later than one hour before the check
      began. */
  ghost predicate Earned(log: seq<Event>, k: nat)
    requires k < |log| && log[k].Succeeded?
  {
    exists i :: 0 <= i < k && log[i].Stored? && Backs(log[..k], i, log[k].code, log[i].at)
           && log[i].at > log[k].began - HOUR
  }

  ghost predicate AllEarned(log: seq<Event>) {
    forall k :: 0 <= k < |log| && log[k].Succeeded? ==> Earned(log, k)
  }

  lemma BacksLonger(log: seq<Event>, e: Event, i: int, code: string, at: Time)
    requires Backs(log, i, code, at) && !(e.Succeeded? && e.code == code)
    ensures Backs(log + [e], i, code, at)
  {
  }

  lemma EarnedLonger(log: seq<Event>, e: Event)
    requires AllEarned(log) && (e.Succeeded? ==> Earned(log + [e], |log|))
    ensures AllEarned(log + [e])
  {
    var log' := log + [e];
    forall k | 0 <= k < |log'| && log'[k].Succeeded?
      ensures Earned(log', k)
    {
      if k < |log| {
        assert log'[..k] == log[..k];
        var i :| 0 <= i < k && log[i].Stored? && Backs(log[..k], i, log[k].code, log[i].at)
                 && log[i].at > log[k].began - HOUR;
        assert Backs(log'[..k], i, log'[k].code, log'[i].at);
      }
    }
  }

  lemma StepKeepsRowsBacked(s: State, a: Action)
    requires RowsBacked(s)
    ensures RowsBacked(Do(s, a))
  {
    var s' := Do(s, a);
    hide Backs, Holds;
    forall id | id in s'.rows
      ensures exists i :: Backs(s'.log, i, s'.rows[id].code, s'.rows[id].updatedAt)
    {
      if id in s.rows && s'.rows[id] == s.rows[id] {
        var i :| Backs(s.log, i, s.rows[id].code, s.rows[id].updatedAt);
        if s'.log != s.log {
          var e := s'.log[|s.log|];
          assert s'.log == s.log + [e];
          BacksLonger(s.log, e, i, s.rows[id].code, s.rows[id].updatedAt);
        }
      } else {
        StoreBacks(s.log, s'.rows[id].code, s'.rows[id].updatedAt);
      }
    }
  }

  lemma StoreBacks(log: seq<Event>, code: string, at: Time)
    ensures Backs(log + [Stored(code, at)], |log|, code, at)
  {
  }

  lemma StepIsEarned(s: State, a: Action)
    requires Sound(s) && RowsBacked(s) && AllEarned(s.log)
    ensures AllEarned(Do(s, a).log)
  {
    var s' := Do(s, a);
    if s'.log != s.log {
      var e := s'.log[|s.log|];
      assert s'.log == s.log + [e] && s'.log[..|s.log|] == s.log;
      if e.Succeeded? {
        var q := s.processes[a.p];
        assert SoundProcess(q, s.rows, s.clock);
        var id :| id in s.rows && s.rows[id].code == q.code;
        var i :| Backs(s.log, i, s.rows[id].code, s.rows[id].updatedAt);
        assert s'.log[i] == s.log[i];
        assert Earned(s'.log, |s.log|);
      }
      hide Earned, Do, Sound;
      EarnedLonger(s.log, e);
    }
  }

  lemma {:induction false} RunIsEarned(s: State, actions: seq<Action>)
    requires Initial(s)
    ensures RowsBacked(Run(s, actions)) && AllEarned(Run(s, actions).log)
  {
    if actions != [] {
      hide Do, Sound, RowsBacked, AllEarned;
      var before := Run(s, actions[..|actions| - 1]);
      RunIsEarned(s, actions[..|actions| - 1]);
      RunIsSound(s, actions[..|actions| - 1]);
      StepKeepsRowsBacked(before, actions[|actions| - 1]);
      StepIsEarned(before, actions[|actions| - 1]);
    }
  }

  /** In every interleaving each success of a check comes after a store of its challenge that no success in
      between has used, and that is later than one hour before the check began. */
  lemma SuccessIsEarned(s: State, actions: seq<Action>, k: nat)
    requires Initial(s) && k < |Run(s, actions).log| && Run(s, actions).log[k].Succeeded?
    ensures var log := Run(s, actions).log;
            exists i :: 0 <= i < k && log[i].Stored? && log[i].code == log[k].code && log[i].at > log[k].began - HOUR
                        && forall j :: i < j < k ==> !(log[j].Succeeded? && log[j].code == log[k].code)
  {
    RunIsEarned(s, actions);
    var log := Run(s, actions).log;
    assert Earned(log, k);
    var i :| 0 <= i < k && log[i].Stored? && Backs(log[..k], i, log[k].code, log[i].at)
             && log[i].at > log[k].began - HOUR;
    assert log[..k][i] == log[i] && forall j :: i < j < k ==> log[..k][j] == log[j];
  }
}
