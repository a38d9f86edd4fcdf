# Verified model of Standardfile

Standardfile is a Go server for the Standard Notes sync protocol, with a client library. Clients keep
encrypted items and send the edited ones along with a token of their last sync; the server stores what it
accepts, reports conflicts, answers with what changed in between and hands out the next token. Around that
core the server keeps login challenges, sessions and user accounts, and the library seals and unseals items
under a hierarchy of keys. This project models the parts in which state, time and keys interact and proves
what they promise over whole runs. `dafny verify dfyconfig.toml` checks all of it.

How the model is laid out:

- `Times`, `Text`, `Decimal`, `Base64`, `Hex`, `Token`: instants in nanoseconds with 64-bit durations, and the
  encodings. The Base64 alphabets and padding are those of RFC 4648, sections 4 and 5; Hex is its section 8.
- `Database`, `Sync`, `Sync20161215`, `Sync20190520`: the item table and both sync services, as classes whose
  methods update rows, request items, the retrieved page (an array compacted in place) and the answer. Each
  method is tied to functions over values; the clock and the faults of the database appear as an `Event` per item.
- `Signature`: the string under the integrity hash.
- `SyncProperties`, `Conservation`, `Convergence`, `History`: what follows for answers, requests, whole runs of
  many clients, and the versions of one item.
- `Pkce`, `Sessions`, `Users`: challenges, sessions and accounts; services as classes, then runs. The database
  steps of challenge requests interleave freely.
- `Vaults`, `VaultObjects`, `Items`, `Notes`: secret strings, sealing and unsealing in place, and the two passes of
  the client over its notes. Ciphers and the JSON codec are parameters (`Vaults.Env`) with stated laws;
  `Environments` has an instance of them, so the laws do not exclude each other.

Results that say where the code and its surroundings differ from what one may expect:

- `ComputeChallenge` encodes the hexadecimal form of the hash, where section 4.2 of RFC 7636 encodes the hash
  itself; no challenge of the one kind is ever one of the other (`Pkce.ChallengeIsNotS256`).
- A stale edit is accepted exactly when less than a millisecond lies between the time it carries, which is that of the
  version it is based on or that time cut to milliseconds, and the current version (`History.AcceptedIffClose`), and then
  a history can fork (`History.StaleEditGetsThrough`, a run). With saved versions a millisecond apart histories are linear.
- A sync token lies one microsecond ahead, so a row that somebody else writes within that microsecond is not sent.
  `Convergence.TooSoonIsMissed` is a run of three requests in which a replica lacks an item for that reason;
  `Convergence.ConvergesIffNothingMissed` says exactly when a request makes its client converge, whatever the clock does. In
  runs whose clock moves by more than a microsecond between requests every request does.
- A web token issued in the very second of a password change stays valid (`Users.SettingPasswordRevokes`, with the run
  `Users.SameSecondSurvives`).
- A request crashes exactly when its token is base64 of a text without a colon other than `1`, or when its limit counts and
  is negative (`SyncProperties.CrashesIff`, `Token.CrashesIff`; `Token.SomeTokenCrashes` is such a token and
  `SyncProperties.NegativeLimitCrashes` such a limit). Nothing has been
  stored by then, and the server's own tokens never do it (`SyncProperties.OwnTokensAreAnswered`).
- Before protocol 004 an item whose id holds a colon cannot be unsealed after it was sealed, and every other one can
  (`Items.UnsealsIffIdIsFree`; `Items.ColonIdIsLost` is such an item).
- A session that has not expired is called expired exactly when its refresh cannot be saved; it is left as it was and can be
  refreshed afterwards (`Sessions.UnexpiredCalledExpired`, with the run `Sessions.SomeUnexpiredCalledExpired`).

## Model

| member | source | states |
|---|---|---|
| Convergence.ReplicasConverge | internal/server/service/sync_20190520.go:38-172 | In every run of any number of clients of any number of users, each request through either protocol version and with whatever faults of item searches and saves, right after each of its syncs a client's replica is exactly the live items the server holds for its user |
| Convergence.ConvergesIffNothingMissed | internal/server/service/sync_20190520.go:38-172 | Whatever the clock does, a request makes its client converge if and only if the replica was right already about every id that the request has no answered item for and that was not written after the token's instant |
| Convergence.AnsweredIds | internal/server/service/sync_20190520.go:106-169 | Which ids a request gets answered, told from items, table and faults: those of items that are saved or, in version 20190520, in conflict |
| Convergence.IntegrityHashMatches | internal/server/service/sync.go:111-129 | In every run a signature signs the server's live items of a user after a step if and only if it signs the replica of the client that has synchronised |
| Convergence.ConvergesIff | internal/server/service/sync_20190520.go:38-172 | The same for any token, with the rows the query asks for |
| Convergence.SavedIffSeen | internal/server/service/sync_20190520.go:121-150 | End to end: in runs with a millisecond between requests, an item sent with its own replica's time, exact or cut to milliseconds, is saved, unless its search or its save fails, if and only if that replica has the server's current row, and is answered with that row otherwise |
| Convergence.ReplicasAreFresh | internal/server/service/sync_20190520.go:97-172 | In such runs every row of every replica is the server's or at least a millisecond older |
| Convergence.ReplicasBecomeEqual | internal/server/service/sync_20190520.go:38-172 | Eventual consistency: once nothing is saved any more, one sync of each of two clients of a user makes their replicas equal, and they stay equal whoever syncs afterwards |
| Convergence.StaysConverged | internal/server/service/sync_20190520.go:38-94 | A replica that agrees with the server goes on agreeing for as long as nothing is saved |
| Convergence.RunInvariant | internal/server/service/sync_20190520.go:38-172 | In every state of a run with a microsecond between requests each replica agrees with the table on every row of its user that is no newer than the instant its token names |
| Convergence.StepConverges | internal/server/service/sync_20190520.go:38-172 | One complete request more than a microsecond later brings a client that satisfies the invariant to exactly the live items of its user |
| Convergence.InvariantKept | internal/server/service/sync_20190520.go:38-172 | A request keeps the invariant of its own client and of all the others |
| Convergence.EveryRequestIsTaken | internal/server/service/sync_20190520.go:38-94 | Runs do not get stuck: every complete request has a step through either version, whatever page the query finds and whatever fails |
| Convergence.SavedRow | internal/server/service/sync_20190520.go:155-168 | A saved item of the answer is the row the table holds afterwards, stamped within the request, and no conflict of the same answer is about it |
| Convergence.ServerRow | internal/server/service/sync_20190520.go:140-149 | The server's item of a conflict is the row the table holds before and after the request |
| Convergence.TableAfter | internal/server/service/sync_20190520.go:97-172 | Rows never change hands or disappear, none is dated after the clock, and what is dated before the request, or not saved by it, is untouched |
| Convergence.NewToken | internal/server/service/sync_20190520.go:79-91 | The new token reads back as an instant that fits and lies at most one microsecond past the clock |
| Convergence.SentIffWrittenSince | internal/server/service/sync.go:91-105 | A client that has a sync token finds a row on its page if and only if it is its user's and was written after the token's instant |
| Convergence.RetrievedIffAsked | internal/server/service/sync_20190520.go:48-58 | The page holds exactly the rows asked for, and the answer retrieves all of them but those of saved ids (20161215) or of conflicts (20190520) |
| Convergence.TooSoonIsMissed | internal/server/service/sync_20190520.go:79-91 | A run from an empty server: one client syncs, another saves an item half a microsecond later, the first syncs again, and its replica lacks the item |
| Convergence.LackingStaysLacking | internal/server/service/sync_20190520.go:79-91 | A row written no later than the instant of a client's token, which the client lacks, is still lacking after it syncs without sending anything |
| History.HistoryIsLinear | internal/server/service/sync_20190520.go:121-150 | In every run of edits whose saves of one item lie a millisecond apart, refused attempts coming at any time, each version but the first was written by somebody who had seen the version before it, so no accepted edit is lost |
| History.AcceptedIffCurrent | internal/server/service/sync_20190520.go:121-150 | With versions a millisecond apart, an overwrite carrying the exact or millisecond-truncated time of some version, at whatever instant it comes, is accepted if and only if that version is the current one |
| History.AcceptedIffClose | internal/server/service/sync_20190520.go:121-150 | Without any spacing, an overwrite carrying the exact or millisecond-truncated time of an older version is accepted if and only if what passed since that version, plus what was cut off, is less than a millisecond |
| History.StaleEditGetsThrough | internal/server/service/sync_20190520.go:121-150 | A run of three edits inside a millisecond after which the history has forked: the third replaces a version its sender has not seen |
| History.RunIsConsistent | internal/server/service/sync_20190520.go:97-172 | After every run the table holds the last logged version of each item, and the versions are linear and spaced |
| History.NextIsConsistent | internal/server/service/sync_20190520.go:97-172 | Every edit keeps the table equal to the last logged version of each item |
| History.RequestIsRun | internal/server/service/sync_20190520.go:110-169 | The saves of one request are a run of its edits and leave the same table |
| Times.MillisecondThreshold | internal/server/service/sync_20190520.go:129-136 | Saturating the difference and rounding it to microseconds do not move the one-millisecond limit |
| Times.MillisecondOf | internal/server/service/sync.go:119-120 | The millisecond of a timestamp is the one the instant lies in |
| Times.SecondOf | internal/server/service/user.go:130-130 | The second of a timestamp is the one the instant lies in |
| Times.MicrosecondsOf | internal/server/service/sync_20190520.go:129-129 | A difference in microseconds is cut towards zero |
| Times.SecondsOf | internal/server/service/sync_20161215.go:149-149 | A difference in seconds keeps its fraction |
| Times.SecondThreshold | internal/server/service/sync_20161215.go:149-154 | The same for a window of whole seconds measured as a fraction of seconds, over the reals |
| SyncProperties.Quiescent2 | internal/server/service/sync_20190520.go:79-91 | Whatever a request did, asking again with the returned sync token and no items retrieves nothing and changes nothing, version 20190520 |
| SyncProperties.Quiescent1 | internal/server/service/sync_20161215.go:75-87 | The same for version 20161215 |
| SyncProperties.NothingNewer | internal/server/service/sync_20190520.go:79-91 | After a request no row of the whole table is dated after the instant that the returned token names |
| SyncProperties.NextSyncIsPastEverySave | internal/server/service/sync_20190520.go:79-91 | The next sync starts exactly one microsecond after the newest saved item, or after the present when nothing was saved |
| SyncProperties.AskedFor | internal/server/service/sync.go:73-106 | Which rows a request asks for: not deleted on a first sync, from the cursor's instant on, or strictly after the sync token's instant, the cursor going first |
| SyncProperties.AskedForNow | internal/server/service/sync.go:91-105 | A malformed or version 1 token asks from the present on, a cursor including this very instant |
| SyncProperties.ConflictsResolved | internal/server/service/sync_20161215.go:130-170 | Retrieved and saved items share no id; a row leaves the page only because its id was saved; it is reported as a conflict if and only if it is more than 20 s away from the version the table now holds |
| SyncProperties.CursorNamesOldest1 | internal/server/service/sync_20161215.go:70-73 | Without a sync token the whole match is found and no cursor given. With one, a positive limit of the request bounds the page; a cursor is given if and only if more rows match than that limit; the page then has exactly as many, and the cursor reads back as the smallest update time on it |
| SyncProperties.CursorNamesOldest2 | internal/server/service/sync_20190520.go:74-77 | The same for version 20190520, although the page has been compacted before the cursor is made |
| Database.PageFits | internal/database/storm.go:194-207 | A page is no longer than the whole match and no longer than a positive limit |
| SyncProperties.KeptInOrder | internal/server/service/sync_20190520.go:48-58 | Compaction is an ordered filter: each kept row moves to the place given by the number of rows kept before it, so none is lost, doubled or reordered |
| SyncProperties.KeptNewestFirst | internal/server/service/sync_20190520.go:48-58 | The retrieved items of the answer are still newest first |
| SyncProperties.WrittenIsMerge | internal/server/service/sync_20161215.go:131-135 | The table after a request is the old one overridden by the last saved version of each id, which is the version the conflict check compares with |
| SyncProperties.LastSaveWins | internal/server/service/sync_20161215.go:93-127 | Version 20161215 takes every edit, however old: whatever the table held, an item that the database takes and no later item of the request supersedes is what the table holds afterwards |
| Sync.Compact | internal/server/service/sync_20190520.go:48-58 | Compacting in place leaves the filtered page in front and never disturbs the last slot of the shared buffer |
| Sync.Without | internal/server/service/sync_20190520.go:48-58 | Of the page exactly the rows remain whose id is not to be deleted, so no conflict's id is left among the retrieved items |
| Sync.LastUpdated | internal/server/service/sync_20190520.go:79-88 | The latest update of the saved items, which one of them has, or the zero instant |
| Sync.SyncServiceBase.Get | internal/server/service/sync.go:73-106 | The page satisfies the query that the request's tokens, type filter and limit ask for; the limit is that of the request, or none without a sync token; the call crashes if and only if the request is not answerable |
| SyncProperties.CrashesIff | internal/server/service/sync.go:91-105 | A request crashes if and only if its deciding token is base64 of a text without a colon other than `1`, or its limit counts and is negative |
| SyncProperties.OwnTokensAreAnswered | internal/server/service/sync.go:73-106 | A request that carries no tokens but the server's own, and no negative limit, is answered |
| SyncProperties.SomeRequestCrashes | pkg/libsf/token.go:20-28 | The request with the sync token `YWJj` crashes |
| SyncProperties.NegativeLimitCrashes | internal/database/storm.go:203-207 | A request with one of the server's own tokens crashes with the limit -1 and not with 0 |
| Sync.SyncServiceBase.ComputeDataSignature | internal/server/service/sync.go:111-129 | The signature is the hash of the payload of the user's live rows, in whatever order these are listed |
| Signature.PayloadText | internal/server/service/sync.go:117-127 | The payload is, between commas and from the greatest string down, the decimal number of the millisecond that each row was updated in, and empty for no rows |
| Sync.SyncServiceBase.PrepareDelete | internal/server/service/sync.go:132-135 | A tombstone loses content and key and nothing else |
| Sync.SyncServiceBase.NextToken | internal/server/service/sync_20190520.go:79-91 | The token names the next sync of the saved items at the instant of the answer |
| Sync.MillisForgetOrder | internal/server/service/sync.go:117-121 | Listing the same rows in another order gives the same timestamps, as often each |
| Sync.SignsBothIff | internal/server/service/sync.go:111-129 | Given a hash without collisions, a signature of some rows also signs other rows if and only if both have the same millisecond timestamps, as often each |
| Sync20190520.SyncService20190520.Execute | internal/server/service/sync_20190520.go:38-94 | An answerable request does to the table, the items, the retrieved page, the saved items, the conflicts, the tokens and the hash what the value-level request says, whose server items are those in the conflicts; the page's last row is still in its slot; any other request crashes and changes neither table nor items |
| Sync20190520.ServersInConflicts | internal/server/service/sync_20190520.go:114-165 | The conflicts hold exactly the rows that items were in conflict with, in order and as they are stored; they are of the kind `sync_conflict` if and only if they hold a row, and hold the item otherwise |
| Sync20190520.SyncService20190520.Save | internal/server/service/sync_20190520.go:97-172 | Items are processed in order against the table as their predecessors left it; saved, conflicts and the ids to withdraw are those of the outcomes |
| Sync20190520.SyncService20190520.SaveOne | internal/server/service/sync_20190520.go:106-168 | One item is saved, or gives a conflict: the stored row under `sync_conflict`, or the item under `internal_error` or `uuid_conflict`; its fields and the table end up as its outcome says |
| Sync20161215.SyncService20161215.Execute | internal/server/service/sync_20161215.go:34-90 | An answerable request does what the value-level request says, its conflicts being the rows in unsaved, which holds the failed items in order and then each conflict once; any other request crashes and changes neither table nor items |
| Sync20161215.ReportedOnce | internal/server/service/sync_20161215.go:146-169 | Unsaved reports a row of the page once, as `sync_conflict`, if a save of this request is more than 20 s away from it, not at all otherwise, and no other rows |
| Sync20161215.SyncService20161215.Save | internal/server/service/sync_20161215.go:93-127 | Every item is attempted in order; saved and unsaved split the items by whether the database took them |
| Sync20161215.SyncService20161215.CheckForConflicts | internal/server/service/sync_20161215.go:130-170 | The ids to delete are those both retrieved and saved, and each such row more than 20 s away from what was saved is reported exactly once |
| Sync20161215.SyncService20161215.ReportConflicts | internal/server/service/sync_20161215.go:146-169 | The loop over the map gives these reports in whatever order it is visited |
| Sync20161215.ById | internal/server/service/sync_20161215.go:131-135 | The index has exactly the saved ids and holds under each a saved item with that id |
| Sync20161215.IntersectionIsOverwritten | internal/server/service/sync_20161215.go:137-145 | The index of retrieved items built by the loop is the set of rows this request overwrote |
| Sync20161215.WithoutOverwritten | internal/server/service/sync_20161215.go:43-54 | Withdrawing the overwritten ids is withdrawing all saved ids |
| Conservation.EveryItemIsAnswered | internal/server/service/sync_20190520.go:106-169 | Every incoming item has exactly one entry in the answer, at the place its position tells: the next saved item, or the next conflict, with the stored row or the item and the kind of the refusal |
| Conservation.EveryItemIsListed | internal/server/service/sync_20161215.go:101-124 | The same for version 20161215: the next saved item, or the next unsaved one |
| Conservation.SavedIff | internal/server/service/sync_20190520.go:106-168 | An item is saved if and only if the database works and the user's row, if there is one, is less than a millisecond away; then the row is the sender's, stamped, and empty when it is a tombstone |
| Conservation.NotSavedBecause | internal/server/service/sync_20190520.go:109-165 | Each kind of refusal happens under exactly one condition, the failed search first, then the conflict, then the failed save |
| Conservation.WrittenAt | internal/server/service/sync_20190520.go:156-168 | The table changes at the saved ids only and holds a saved item at each of them |
| Conservation.LastWritten | internal/server/service/sync_20190520.go:156-168 | A saved item that no later one supersedes is what the table holds |
| Conservation.SavedFrom | internal/server/service/sync_20190520.go:140-168 | The saved items and the server items of an answer are exactly those of the outcomes |
| Conservation.Independent | internal/server/service/sync_20190520.go:106-169 | With distinct ids every item is decided against the table the request found, whatever the other items do |
| Conservation.OutcomeTarget | internal/server/service/sync_20190520.go:106-169 | A saved item or a server item has the id the incoming item was meant for |
| Conservation.StaysWellKeyed | internal/server/service/sync_20190520.go:97-172 | A request keeps rows stored under their own, non-empty id |
| Database.Client.FindItemsByParams | internal/database/storm.go:174-210 | The page holds matching rows newest first; an omitted match is no newer than any returned row; the over-limit flag is set if and only if more than a positive limit match; a negative limit crashes |
| Database.CutIsPage | internal/database/storm.go:194-207 | Asking for one row more than the limit and cutting it off gives such a page and the right flag, for every limit |
| Database.Client.Save | internal/database/storm.go:63-73 | The item is stamped even when the statement fails; the table changes at its id only, and only on success |
| Database.Client.FindItemByUserID | internal/database/storm.go:168-172 | A row is found if and only if both its id and its owner match |
| Database.Client.FindItemsForIntegrityCheck | internal/database/storm.go:212-219 | Each live row of the user is listed once, in no particular order |
| Signature.PayloadIsCanonical | internal/server/service/sync.go:111-129 | Two lists of items give the same string if and only if they have the same multiset of millisecond timestamps |
| Signature.StringOrderIsNumeric | internal/server/service/sync.go:123-125 | For timestamps of equally many digits the order of the strings is the order of the numbers |
| Signature.SortDescending | internal/server/service/sync.go:123-125 | Sorting gives a descending arrangement of the same strings |
| Signature.DescendingUnique | internal/server/service/sync.go:123-125 | There is only one such arrangement, so stability of the sort does not matter |
| Token.RoundTrip | pkg/libsf/token.go:13-42 | Reading a printed token gives the instant back if and only if its nanosecond count fits 64 bits, and the wrapped count otherwise |
| Token.TokenText | pkg/libsf/token.go:37-42 | A token is padded base64url of version 2, a colon and the nanoseconds in decimal |
| Token.ReadsNumber | pkg/libsf/token.go:20-33 | The reader takes the number after the first colon, looks neither at a version other than 1 nor past a second colon, and falls back to the present for version 1 and for what is no number |
| Token.CurrentTimeIff | pkg/libsf/token.go:14-32 | A token stands for the present if and only if it is not base64, is of version 1, or has no number after its first colon |
| Token.TokenIsNotEmpty | pkg/libsf/token.go:37-42 | No token is the empty string, which in a request stands for none |
| Token.CrashesIff | pkg/libsf/token.go:13-34 | The reader crashes if and only if the token is base64 of a text without a colon other than `1` |
| Token.SomeTokenCrashes | pkg/libsf/token.go:20-28 | `YWJj`, the text `abc`, is such a token |
| Token.OwnTokensAreRead | pkg/libsf/token.go:13-42 | No token the server hands out crashes the reader |
| Decimal.ParsePrintInt | pkg/libsf/token.go:28-38 | Parsing a printed integer gives it back when it fits 64 bits and fails otherwise |
| Decimal.DigitAt | pkg/libsf/token.go:38-38 | The digit for each power of ten stands as many places from the end |
| Base64.RoundTrip | pkg/libsf/token.go:14-41 | Decoding undoes padded encoding, in both alphabets |
| Base64.EncodedAt | pkg/libsf/token.go:41-41 | Each symbol is the one that the tables of RFC 4648 have for the next six bits |
| Base64.Padding | pkg/libsf/token.go:41-41 | The padded encoding is the unpadded one, filled up to a multiple of four symbols |
| Base64.SextetIff | pkg/libsf/token.go:14-14 | The decoder takes exactly the symbols of its table |
| Base64.LineBreaksAreSkipped | pkg/libsf/token.go:14-14 | A line break anywhere changes nothing about what is decoded |
| Base64.DecodedIsWhole | pkg/libsf/token.go:14-14 | Only whole groups of four symbols are decoded |
| Pkce.SingleUse | internal/server/service/pkce.go:45-66 | In every interleaving of any number of requests, successful checks of a challenge never outnumber its stores |
| Pkce.UsedOncePerStore | internal/server/service/pkce.go:45-66 | In every interleaving each use of a challenge comes after a store that no earlier use has come after |
| Pkce.UsesArePaidFor | internal/server/service/pkce.go:45-66 | Over any stretch of any interleaving, from any state, successes exceed stores by at most the one use that was still to be had |
| Pkce.SuccessIsEarned | internal/server/service/pkce.go:45-66 | Every success comes after a store of its challenge that no success in between has used, and that is later than one hour before the check began |
| Pkce.SuccessIsRecent | internal/server/service/pkce.go:45-66 | Every success has a store of its challenge later than one hour before the check began |
| Pkce.RunIsSound | internal/server/service/pkce.go:45-66 | In every state rows outlive their store by at most an hour, and a check in progress can only remove rows unexpired when it revoked or saved since |
| Pkce.PkceService.CheckChallenge | internal/server/service/pkce.go:56-66 | On its own a check succeeds if and only if the challenge is stored and unexpired, and uses up all its rows |
| Pkce.UndisturbedCheck | internal/server/service/pkce.go:56-66 | So does a check whose three steps follow each other in a run |
| Pkce.StoreThenCheck | internal/server/service/pkce.go:45-66 | From any state a store and, less than an hour later, an undisturbed check succeed, and a second check does not |
| Pkce.PkceService.StoreChallenge | internal/server/service/pkce.go:45-54 | A store drops what has expired and adds one row that expires an hour later |
| Pkce.UndisturbedStore | internal/server/service/pkce.go:45-54 | So does a store whose three steps follow each other in a run |
| Pkce.Client.RemovePKCE | internal/database/storm.go:243-246 | Removing reports success if and only if there was a row to remove |
| Pkce.ChallengeIdentifiesHash | internal/server/service/pkce.go:39-43 | Two verifiers share a challenge if and only if they share a hash |
| Pkce.ChallengeText | internal/server/service/pkce.go:39-43 | A challenge is unpadded base64url of the hexadecimal digits of the hash |
| Hex.EncodedAt | internal/server/service/pkce.go:41-41 | Each byte is written as two lower-case digits, the higher first |
| Hex.NibbleIff | pkg/libsf/vault3.go:69-69 | The decoder takes the digits of either case and nothing else |
| Pkce.ChallengeIsNotS256 | internal/server/service/pkce.go:39-43 | A challenge has 86 characters and is never the encoding of a raw hash that section 4.2 of RFC 7636 asks for |
| Sessions.RetiredStaysDead | internal/server/session/manager.go:112-156 | In every run an access token that a refresh replaced, or whose session was deleted, is never accepted again, nor is a refresh with it |
| Sessions.ReplacedRefreshIsDead | internal/server/session_handler.go:80-100 | In every run a refresh token that has been drawn and is not, or no longer, that of a session never refreshes it again, whatever access token comes with it |
| Sessions.RenewedOrKept | internal/server/session/manager.go:142-156 | Over any stretch of a run a session is what it was, or has two tokens that had not been drawn at the start |
| Sessions.WhatIsRetired | internal/server/session_handler.go:51-176 | A request retires a session's credential if and only if it refreshes it with the right pair in time or deletes it, and the database does not fail; every other session stays as it is |
| Sessions.AccessWindow | internal/server/session/manager.go:112-140 | The current access token of a stored session is accepted at an instant if and only if neither lifetime has passed since it was issued or last refreshed |
| Sessions.VerdictAt | internal/server/session/manager.go:112-140 | The whole verdict by the session's last issue: invalid past the refresh lifetime, else expired past the access lifetime, else accepted; any other token is invalid |
| Sessions.ExpiredAccessCanRefresh | internal/server/session/manager.go:131-156 | Whenever the access token is called expired, a refresh with the current pair at that instant succeeds, does not shorten the session, and its token is accepted |
| Sessions.RunKeepsInvariant | internal/server/session/manager.go:104-156 | In every state a session expires one refresh lifetime after its last issue, both its tokens have been drawn, and its access token was never retired |
| Sessions.Manager.Validate | internal/server/session/manager.go:112-136 | Unless the search fails, the verdict is that on the stored row at the two instants the clock is read |
| Sessions.Manager.Regenerate | internal/server/session/manager.go:142-156 | An unexpired session gets a new expiry and keeps its identity; an expired one is left alone; the table changes if and only if the save succeeds |
| Sessions.Manager.Refresh | internal/server/session_handler.go:51-119 | The answer, its expirations in milliseconds and the table are those of a refresh with the decrypted pair, failures of search and save included |
| Sessions.UnexpiredCalledExpired | internal/server/session_handler.go:93-100 | In every reachable state a refresh with the current pair, within one refresh lifetime of the session's last issue, is answered as expired if and only if it cannot be saved; session and retired credentials stay as they were, and the same request succeeds without the fault |
| Sessions.SomeUnexpiredCalledExpired | internal/server/session_handler.go:93-100 | A login and a refresh at instant 1 that is called expired although the session is not, and succeeds without the fault |
| Sessions.AnnouncedExpirationIsKept | internal/server/session_handler.go:111-118 | Before the milliseconds that an answer announces, and not after them, the new access token is accepted and the new pair can be refreshed |
| Sessions.AnnouncedTimes | internal/server/session_handler.go:111-118 | The announced milliseconds are those one access lifetime and one refresh lifetime after the new issue |
| Sessions.RefusedIff | internal/server/session_handler.go:70-91 | A refresh is invalid if and only if its tokens do not decrypt, are of different sessions or are not the pair of a stored session; one that succeeds keeps session and user and stores the drawn pair |
| Sessions.Manager.CreateSession | internal/server/service/user_20200115.go:79-90 | A login adds one session under a new id, which lives one refresh lifetime, or nothing when the save fails |
| Sessions.Manager.Delete | internal/server/session_handler.go:122-155 | Unless the database fails, a session is removed if and only if it is another session of the user; nothing else changes |
| Sessions.Manager.DeleteAll | internal/server/session_handler.go:158-176 | Of the user's sessions exactly the current one is left, and all sessions of other users; a deletion that fails ends the loop, and only other sessions of the user are gone by then |
| Sessions.Manager.Logout | internal/server/auth_handler.go:208-218 | The current session is removed; only its being gone already is reported, a failing database is not |
| Users.RevocationIsPermanent | internal/server/session/manager.go:187-222 | A web token of a known user that is rejected in some state of a run is rejected in every later one |
| Users.AcceptedIffNotOlder | internal/server/session/manager.go:206-219 | A web token is accepted if and only if its second is not below that of the user's last registration or password change |
| Users.SettingPasswordRevokes | internal/server/service/user.go:170-198 | Setting a password revokes exactly the tokens of earlier seconds and answers with one that is accepted |
| Users.SameSecondSurvives | internal/server/service/user.go:170-198 | A registration and a password change in one second, after which the earlier token is still accepted |
| Users.RunKeepsInvariant | internal/server/service/user.go:104-198 | In every state a row's password and its time are those of the last change, no user has vanished, no two have an email in common, and no token is dated after the clock |
| Users.UserService.Password | internal/server/service/user.go:170-198 | The row changes if and only if the current password verifies and the new email is free; it then holds a salted hash of the new password, the new email or the old, and each parameter that is set or the old one; the answer's token is of the last instant |
| Users.PasswordIsLatest | internal/server/service/user.go:104-198 | In every state of a run each row's password is the hash that its last registration or password change drew, and no two users have an email in common |
| Users.UserService.Register | internal/server/service/user.go:104-138 | A registration is refused if and only if the email is taken, and otherwise adds one row with the given email, cost, nonce and version, a salted hash of the password, and the present second |
| Users.RegisteredFields | internal/server/service/user.go:116-130 | What a registration stores, field by field |
| Users.UserService.Login | internal/server/service/user.go:140-159 | A login is answered if and only if some user has the email and a password that verifies, and then with a token of that user and of the present second |
| Users.UserService.Update | internal/server/service/user.go:161-168 | An update changes the set parameters of one row and leaves the password time alone |
| Users.AppliedFields | internal/server/service/user.go:202-218 | A parameter is taken over exactly when it is positive or not empty, and nothing else changes |
| Users.ChangedFields | internal/server/service/user.go:184-192 | What a password change stores, field by field |
| Users.UserService.UserFromJwt | internal/server/session/manager.go:187-222 | The user is given if and only if the token authenticates |
| Vaults.ParseSerialize | pkg/libsf/vault3.go:30-62 | Parsing a serialized vault gives its fields back, with and without the optional component, and fails under another item's id before protocol 004 |
| Vaults.SerializedText | pkg/libsf/vault3.go:196-207 | The order of the fields between colons, for both kinds of vault |
| Vaults.SerializeParse4 | pkg/libsf/vault4.go:37-66 | Re-serializing an accepted 004 secret returns it unchanged if and only if it does not end in an empty fifth component, which is dropped |
| Vaults.UnsealSeal | pkg/libsf/vault4.go:72-142 | Unsealing with the same keys undoes sealing, for both kinds of vault |
| Vaults.SealedContents | pkg/libsf/vault4.go:72-102 | A sealed vault holds the drawn nonce and what the cipher makes of the payload under the master key; nothing else of it changes but its code or authenticated data |
| Vaults.SealsIff | pkg/libsf/vault3.go:68-105 | Sealing succeeds if and only if the keys are hexadecimal and of a length the cipher takes |
| Vaults.AuthText | pkg/libsf/vault3.go:176-190 | Before 004 version, item, vector and ciphertext are authenticated, in this order |
| Vaults.SealIsWellFormed | pkg/libsf/vault3.go:68-105 | What sealing fills in contains no colon, so the secret can be parsed again |
| Vaults.MacBindsFields | pkg/libsf/vault3.go:112-190 | Before 004, vaults with the same code that unseal under the same keys agree on version, item, vector and ciphertext, given an injective code |
| Vaults.AuthDataIsBound | pkg/libsf/vault4.go:72-142 | In 004 a vault whose authenticated data was exchanged does not unseal |
| VaultObjects.Vault3Object.Seal | pkg/libsf/vault3.go:68-105 | Filling the vault in place gives the sealed value, or an error when a key is unusable; with ideal ciphers it then unseals to the payload |
| VaultObjects.Vault3Object.Unseal | pkg/libsf/vault3.go:112-157 | The payload is the one unsealing the vault's value gives, the code being checked before anything is decrypted |
| VaultObjects.Vault3Object.Load | pkg/libsf/vault3.go:30-62 | Filling a new vault component by component accepts exactly what parsing accepts |
| VaultObjects.Vault4Object.Seal | pkg/libsf/vault4.go:72-102 | Filling the vault in place gives the sealed value, with the authenticated data bound to the ciphertext; with ideal ciphers it then unseals to the payload |
| VaultObjects.Vault4Object.Unseal | pkg/libsf/vault4.go:109-142 | The payload is the one unsealing the vault's value gives |
| VaultObjects.Vault4Object.Load | pkg/libsf/vault4.go:37-66 | Filling a new vault component by component accepts exactly what parsing accepts |
| VaultObjects.Vault4Object.Setup | pkg/libsf/vault4.go:148-156 | A vault takes over key parameters and type, and the additional data of the 004 vault before it |
| VaultObjects.Vault4Object.ToSortedKeysJson | pkg/libsf/vault4.go:179-194 | The lists built step by step give the object with its keys in alphabetical order |
| VaultObjects.CreateVault | pkg/libsf/vault.go:21-41 | A new vault of the version's kind, or an error for an unknown version |
| VaultObjects.ParseVault | pkg/libsf/vault.go:47-64 | A new vault with the fields of the secret, of the kind its first component names |
| Items.AlternationRecovers | pkg/libsf/item.go:98-206 | In any alternation of sealing, unsealing and editing under one keychain every operation succeeds, every unsealing recovers the note sealed last, and the additional data of both vaults stays what it was |
| Items.UnsealUndoesSeal | pkg/libsf/item.go:98-206 | Sealing a note succeeds, and unsealing the result gives back note, version, key parameters before 004, and additional data in 004 |
| Items.UnsealFindsItemsKey | pkg/libsf/item.go:152-196 | An items key in which a payload was sealed unseals to exactly the key that the payload's JSON holds, and fails if it holds none |
| Items.OpenUndoesSeal | pkg/libsf/item.go:98-186 | Whatever payload was sealed into an item is what opening it gives |
| Items.UnsealsIffIdIsFree | pkg/libsf/item.go:98-206 | Before 004 sealing succeeds, and what was sealed can be unsealed if and only if the item's id holds no colon |
| Items.ColonIdIsLost | pkg/libsf/item.go:98-206 | A note under the id `a:b` and protocol 003 that seals and does not unseal |
| Items.ColonInIdIsLost | pkg/libsf/vault3.go:30-62 | A 002 or 003 secret of an id with a colon is not accepted under that id |
| Environments.LawfulExists | pkg/libsf/vault4.go:179-194 | The laws assumed of ciphers, codes and JSON can all hold at once; the JSON of the authenticated data can be read back |
| Environments.KeyObject | pkg/libsf/vault4.go:179-194 | The text of the authenticated data of an items key, its keys in alphabetical order |
| Environments.PlainObject | pkg/libsf/vault4.go:179-194 | The text of the authenticated data of any other item |
| Items.SealedItemTracks | pkg/libsf/item.go:98-148 | Sealing a note into an item that fits the keychain starts such an alternation |
| Items.StepTracks | pkg/libsf/item.go:98-206 | Each single operation keeps the sealed note recoverable and the additional data in place |
| Items.SecretRoundTrip | pkg/libsf/vault4.go:148-173 | A secret sealed into a vault of an item is found again by parsing its string under that item |
| Items.DrawnKeyIsUsable | pkg/libsf/keychain.go:31-76 | A fresh item key gives usable content keys; before 004 both halves are keys of 32 bytes |
| Items.HalvesOfKey | pkg/libsf/keychain.go:31-43 | Before 004 the first half of an item key encrypts and the second authenticates |
| Items.KeysForItem | pkg/libsf/keychain.go:20-29 | Since 004 an item key is sealed under the items key of its note, and the key of an items key under the account's |
| Items.UnsealDependsOn | pkg/libsf/item.go:152-206 | Unsealing a note looks at its two strings, its type and its ids only |
| Items.Item.Seal | pkg/libsf/item.go:98-148 | The item's fields end up as the sealed value; note, version and key parameters are not touched |
| Items.Item.Unseal | pkg/libsf/item.go:152-206 | The item and the keychain end up as the opened value says, the decrypted items key being added under the item's id |
| Notes.TwoPassesRead | internal/client/note.go:69-106 | For a list of distinct ids in any order, sealed under one 004 account: the first pass gets through if and only if every items key's payload holds a key, and collects exactly the account's keys of the ids in the list; everything is read if and only if besides every note's items key is in the list and its metadata parses; each note is then the one that was sealed |
| Notes.SomeListIsRead | internal/client/note.go:69-106 | A list that is read, with a note before the items key it was sealed under |
| Notes.ReadIffProvided | internal/client/note.go:69-106 | The same in terms of what the items of the list unseal to |
| Notes.FirstPassIff | internal/client/note.go:69-79 | The first pass gets through the list if and only if every items key in it unseals, and changes nothing of the keychain but its items keys |
| Notes.FirstPassCollects | internal/client/note.go:69-79 | Whatever the order, the first pass adds to the keychain exactly the items keys of the list |
| Notes.NoKeyNoNote | pkg/libsf/keychain.go:20-29 | A note whose items key is missing does not unseal |
| Notes.SealingSealsUnder | pkg/libsf/item.go:98-148 | What sealing makes is readable under the note's items key alone |
| Notes.AppendItemsKeys | internal/client/note.go:69-79 | The first loop fills the keychain as the value-level pass does, fails if and only if that fails, and leaves notes alone |
| Notes.UnsealNotes | internal/client/note.go:81-106 | The second loop succeeds if and only if every note unseals and its metadata parses, and then each holds its unsealed value and the keychain is unchanged |
| Notes.ReadAll | internal/client/note.go:69-106 | The two loops in sequence succeed if and only if every items key and then every note is read, and leave each note read and the keychain filled |

## Left out

- Convergence.ReplicasConverge: for requests without limit, cursor or type filter, with distinct ids that no other user owns, and a clock that moves by more than a microsecond between requests and stays within 64-bit nanoseconds. The copies that clients of 20161215 make of conflicts in `unsaved` are items of later requests.
- Completeness of a walk over several pages: pages are newest first while the cursor is a lower bound, so it does not follow from the code.
- History.HistoryIsLinear: for items of the sender's user and saved versions at least a millisecond apart; History.AcceptedIffClose says what happens otherwise.
- Sync20190520.SyncService20190520.Execute: a request is one atomic step, without errors of the query or of the integrity check, an incoming item without update time for a row that exists, items that occur twice as the same object, and log output.
- Sync20161215.SyncService20161215.Execute: the same, and the text of error messages in `unsaved`.
- Database.Client.FindItemsByParams: database errors, and the order of rows with the same update time, which the model leaves open.
- Retrieved pages are arrays of row values where the code has arrays of pointers; nothing in the code changes a retrieved item.
- Creation times that are missing: an item always has one in the model.
- Sessions.Manager.Refresh: encryption of the token pair; a refresh is one atomic step of a run, so two concurrent refreshes with one pair are not covered.
- Sessions.RetiredStaysDead: tokens are taken to be fresh, and a session that is saved by a refresh while it is being deleted is not covered.
- Sessions.Manager.DeleteAll: a missing current session.
- Listing sessions, user agents, API versions and update times of sessions.
- Users.UserService.Password: a request is one atomic step; hashing is a draw, and failures of hashing or of the database other than a taken email are not modelled.
- Signing, parsing and encryption of web tokens and session tokens.
- Vaults.UnsealSeal: encryption, JSON, key derivation and randomness are parameters and draws; that a vector or nonce of the wrong length crashes the ciphers is not modelled.
- Items.Item.Seal: a missing note or, in 004, missing key parameters are excluded; what an item holds after an error is not specified.
- Items.UnsealUndoesSeal: for 004 items whose ids need no escaping in JSON, because the code writes the JSON without escaping and what a reader makes of it then is up to the codec.
- Items.Item.Unseal: a keychain without a map of items keys is excluded; between two operations an item holds the values of its vaults rather than the vault objects, which nobody else refers to.
- Notes.ReadAll: of the metadata parser only whether it succeeds; sorting, the terminal interface and the background synchroniser.
- The HTTP layer, serializers, subscriptions, the HTTP client, command line tools, version comparison and the package `stormsql`.
