# Verified model of the encrypted chat

A Dafny model of the parts of the chat server and its clients that keep state: what the SQLite store
writes and reads back, the signed-request protocol with its replay window and session cache, the message
windows of server and client, the client's server registry and identity directories, the server's rooms,
messages and presence, and the client's reconnecting socket queue.

Code that changes state in place is modelled as classes and loops and proved against functions on
values; the theorems are about those functions, over every input or every run of steps, and say what the
result is in terms of the inputs alone. Each critical section under the server's lock is one step. Time,
fresh UUIDs, case mapping and collation are parameters, with the laws the code relies on stated where they
are used.

| module | models |
|---|---|
| `StoreSchema`, `StoreSpec`, `Store` | tables, guarded upsert, history trigger, full save, incremental save, load |
| `StoreRoundTrip`, `StoreOrder`, `StoreEntries` | save then load; in which order; what each entry is |
| `StoreRefinement`, `StoreRuns` | incremental against full; whole runs of saves |
| `ReplayWindow`, `ReplayRuns` | the replay window; which requests of a run are accepted |
| `Encoding`, `Signing` | UTF-8, UTF-16 and base64url; the signing input in its three implementations |
| `SessionCache` | sliding sessions with an absolute deadline |
| `MessageWindow`, `WindowContents`, `Pagination` | the client's window merge and what it shows; the server's pages |
| `ServerRegistry`, `RegistryEntries` | membership deduplication and what its entries carry |
| `ServerShorthands`, `ShorthandChoice` | shorthand allocation and which one is chosen |
| `IdentityDirectories` | last-writer-wins directories in the client |
| `ServerRooms`, `RoomEffects` | the server's rooms and their directory |
| `MessageLifecycle`, `MessageAuthors` | messages in memory and who can change them |
| `Presence` | debounced leaves |
| `WebSocketQueue` | the reconnecting client |
| `Composition` | what the components guarantee each other |
| `Text`, `Sorting`, `ChatTypes` | shared definitions |

Where the code does not do what one would expect, the model follows the code. Of these a lemma shows an
input, and the exact condition under which the expectation holds is proved beside it, both ways:

- a message row guarded by the full save can miss a change between NULL and -1
  (`StoreSchema.UnsettledGuardLosesUpdate`, `StoreRoundTrip.RoundTrip`); a server that brings in new IDs
  only never reaches such a row (`Composition.ServerSavesRoundTrip`);
- a full save gives a message without an ID a new one each time (`StoreRefinement.IncrementalRefinesFull`);
- a full save lists the session ID as a user's name while an incremental save writes the display name
  (`StoreRefinement.AuthorNameAgrees`); encrypted text made of blanks is kept by a full save and dropped
  by an incremental one (`StoreRuns.IncrementalTracked`);
- colons in a user ID or event name let two requests share a replay key (`ReplayRuns.ColonsCollide`);
- a full save fails when a room changes its ID and none takes the old one (`Store.MovedRoomFails`; exactly when
  is in the contract of `Store.SQLiteStore.SaveWithIdentity`);
- a request stamped at or after the moment it is accepted can be replayed (`ReplayWindow.ReplaySafeExactly`);
- bars in a version and in a claim key, or ampersands in claim keys, make signing inputs collide
  (`Signing.UniqueDecodingExactly`), and client and server order some claim keys differently
  (`Signing.EncodersAgree`);
- a NUL in an ID can merge accounts (`ServerRegistry.EveryAccountKept`) and an ambiguous alias can break
  idempotence (`ServerRegistry.IdempotentExactly`);
- an empty name yields to an older one (`IdentityDirectories.ConvergesExactly`), and the reverse index
  depends on the order of delivery (`IdentityDirectories.ReverseIndexExactly`);
- paging a live list loses messages, exactly those that some request leaves off its page and behind the
  next cursor (`Pagination.ReturnedExactly`): if a list is longer than a page and its seconds are apart, the
  newest message (`Pagination.ArrivedCovered`); and once the list is oldest first the join marker shows what
  came before the join (`Pagination.MarkerBounds`);
- a message that moves back in time makes two merges differ from one
  (`MessageWindow.StreamingExactly`), and a limit of zero keeps every newer message
  (`MessageWindow.WithinLimitExactly`);
- at the exact expiry of a session `Get` finds what `Has` does not (`SessionCache.HasMissesTheLastMoment`);
- a shared deadline announces a leave too early (`Presence.AnnouncesExactly`);
- two sockets can be open and the older one's close marks the client disconnected
  (`WebSocketQueue.FlagWrongExactly`).

Three more are remarks in `MessageLifecycle`, read off one branch each: an unknown message ID falls back to
the timestamp, an edit leaves the version list behind, and a deleted message can be given text again.

Nothing was executed: every statement is one the Dafny verifier proves about the model.

## Model

| member | source | states |
|---|---|---|
| `StoreSchema.GuardedUpsertExact` | server-go/internal/server/sqlite_store.go:1031-1066 | The guarded upsert loads like an unconditional one if and only if the guard let the write through or no integer column went between NULL and -1; the guard never lets through a write that a reader cannot see |
| `StoreSchema.SettledGuardExact` | server-go/internal/server/sqlite_store.go:1049-1066 | For rows whose vote total and votes are set together, whose current version is unset or 0 and whose reply target is fixed, the guard is invisible to `Load` |
| `StoreSchema.UnsettledGuardLosesUpdate` | server-go/internal/server/sqlite_store.go:1049-1066 | Without that pairing it is not: a total of -1 over NULL is lost |
| `StoreSchema.UpsertTracks` | server-go/internal/server/sqlite_store.go:120-176 | The history trigger archives the old row exactly when tracked content changes (NULL read as empty), whatever the guard does |
| `StoreSchema.UnblankTwice` | server-go/internal/server/sqlite_store.go:1678-1684 | Reading blank text as empty is idempotent |
| `StoreSchema.RowRoundTrip` | server-go/internal/server/sqlite_store.go:1009-1030 | A stored message row reads back as the message with blank text empty, for both save paths |
| `StoreSpec.InsertConsistent` | server-go/internal/server/sqlite_store.go:531-644 | An incremental save keeps foreign keys, live history and unique room names |
| `Store.SQLiteStore.constructor` | server-go/internal/server/sqlite_store.go:197-209 | A new store is empty and consistent |
| `Store.SQLiteStore.SaveWithIdentity` | server-go/internal/server/sqlite_store.go:646-1110 | A full save of a storable snapshot fails exactly if a room comes to its turn while another stored room has its key, so never while stored rooms keep their IDs; it leaves exactly the tables the snapshot calls for, stays consistent, and a failed one changes nothing. What that means for a reader: `StoreOrder`, `StoreEntries`, `StoreRoundTrip` |
| `Store.MovedRoomFails` | server-go/internal/server/sqlite_store.go:790-833 | A room that changes its ID makes a full save fail, if no room of the save takes the old one |
| `Store.SQLiteStore.SaveMessage` | server-go/internal/server/sqlite_store.go:531-644 | An incremental save inserts one message, merges its author and room (`StoreEntries.InsertedEntries`, `StoreEntries.InsertedRooms`), and fails without change if an identity is missing, the ID is taken or the room name belongs to another room |
| `Store.SQLiteStore.Load` | server-go/internal/server/sqlite_store.go:1112-1415 | `Load` returns rooms by stored order, directories without NULL or zero entries, and each room's messages oldest first |
| `Store.SaveSnapshot` | server-go/internal/server/sqlite_store.go:751-1100 | The transaction as a whole: order the rooms, upsert rooms, users and messages, prune |
| `Store.OrderRooms` | server-go/internal/server/sqlite_store.go:759-780 | Listed rooms keep their order, trimmed and once each; rooms that only hold messages follow |
| `Store.SortByOrder` | server-go/internal/server/sqlite_store.go:782-788 | Rooms are saved in ascending order of their numbers, the listed order |
| `Store.SaveRooms` | server-go/internal/server/sqlite_store.go:790-836 | Rooms are upserted in order under their IDs; fails if a room name is taken by another ID |
| `Store.SaveUsers` | server-go/internal/server/sqlite_store.go:888-920 | Every listed user's row equals the snapshot's entries, in any order of the loop |
| `Store.SaveMessages` | server-go/internal/server/sqlite_store.go:922-1089 | Every message of the snapshot goes through the guarded upsert once, authors are ensured, and the collected IDs are complete |
| `Store.Prune` | server-go/internal/server/sqlite_store.go:1091-1100 | The three deletes with their cascades leave exactly the rows named by the snapshot, and the history of the remaining messages in full |
| `Store.DeleteMessages` | server-go/internal/server/sqlite_store.go:1091-1093 | Deleting message rows removes their history and nothing else |
| `Store.BatchApplied` | server-go/internal/server/sqlite_store.go:1009-1066 | Upserting a batch of distinct messages one by one gives each the row and the history of a single upsert |
| `Store.PrunedIsSaved` | server-go/internal/server/sqlite_store.go:1091-1100 | What remains after the prune is what the snapshot calls for |
| `Store.LoadRooms` | server-go/internal/server/sqlite_store.go:1130-1166 | The room list and the name-to-ID map read from the sorted rows |
| `Store.LoadMessages` | server-go/internal/server/sqlite_store.go:1209-1335 | Distributing one sorted pass over the rooms gives each room its own messages in order |
| `StoreRoundTrip.RoundTrip` | server-go/internal/server/sqlite_store.go:646-1415 | ROUND TRIP. After a full save of a storable snapshot over any earlier database, `Load` returns the rooms in order under their IDs with their directory, and every listed user's entries, and nothing else of users if all authors are named; it returns each room's messages exactly once, oldest first, blank text empty, if and only if the guard suppressed no change between NULL and -1 |
| `StoreRoundTrip.RoomDirectoryRoundTrip` | server-go/internal/server/sqlite_store.go:790-836 | The loaded room directory is exactly the non-blank ciphertexts and the positive timestamps of the rooms saved |
| `StoreRoundTrip.SavedConsistent` | server-go/internal/server/sqlite_store.go:751-1100 | A full save leaves foreign keys, live history and unique room names in order, whatever the tables were before |
| `StoreRoundTrip.RoomRoundTrip` | server-go/internal/server/sqlite_store.go:1209-1335 | One room of the round trip, unless the guard suppressed a change between NULL and -1: the filed messages, each once, sorted by timestamp and ID |
| `StoreRoundTrip.RoomsInOrder` | server-go/internal/server/sqlite_store.go:1130-1166 | `Load` lists the rooms in the order they were saved |
| `StoreRoundTrip.UsersRoundTrip` | server-go/internal/server/sqlite_store.go:888-920 | Every listed user loads with its entries, whoever else wrote messages; if all authors are listed, the loaded directories are exactly the snapshot's |
| `StoreRoundTrip.NoStaleRows` | server-go/internal/server/sqlite_store.go:1091-1100 | No message, room or user row survives that the snapshot does not name, and no foreign key dangles |
| `StoreRoundTrip.ListedOrder` | server-go/internal/server/sqlite_store.go:759-788 | When every room with messages is listed, the save has no other rooms than the listed names; their order is `StoreOrder.LoadsAsListed` |
| `StoreOrder.NamesByPlace` | server-go/internal/server/sqlite_store.go:759-780 | The numbered rooms are the trimmed non-blank ones of the list, once each, in the order of their first places |
| `StoreOrder.LoadsAsListed` | server-go/internal/server/sqlite_store.go:759-788 | LISTED ORDER. After a full save a listed room loads before another if and only if the other is first listed later or not at all |
| `StoreOrder.ListRoundTripExactly` | server-go/internal/server/sqlite_store.go:759-788 | Every non-blank room of the list and of the message map loads once; the list itself comes back if and only if it was trimmed, without blanks and repetitions, and named every room with messages |
| `StoreOrder.LoadsByNumber` | server-go/internal/server/sqlite_store.go:1130-1134 | Rooms of any database load by number, then time of their last save, then name |
| `StoreOrder.LoadsByTime` | server-go/internal/server/sqlite_store.go:1209-1234 | The messages of a room load by time and then ID |
| `StoreEntries.MessagesComeBack` | server-go/internal/server/sqlite_store.go:922-1335 | After a full save every message of a room comes back, field by field, with a missing ID, room or author filled in; and no other message is there |
| `StoreEntries.RoomIdsComeBack` | server-go/internal/server/sqlite_store.go:790-799 | A room loads under its assigned ID; without one a direct-message room under its name and any other room under a new ID |
| `StoreEntries.UsersComeBack` | server-go/internal/server/sqlite_store.go:849-920 | The users that load are exactly the owners of an entry of any kind and the authors |
| `StoreEntries.UnlistedAuthorsStay` | server-go/internal/server/sqlite_store.go:952-966 | An author the snapshot does not list loads as before, or with an empty name |
| `StoreEntries.ArchivedExactly` | server-go/internal/server/sqlite_store.go:120-176 | A full save archives a row exactly if something a reader sees besides votes, room, author and time changes |
| `StoreEntries.SucceedsExactly` | server-go/internal/server/sqlite_store.go:553-585 | An incremental save succeeds exactly if message, room and author have IDs, the message is new and no other room loads under the key |
| `StoreEntries.InsertedEntries` | server-go/internal/server/sqlite_store.go:569-596 | After an incremental save each text of the metadata that is not blank and each later timestamp is what loads for the author and the room, the name is the message's, and every other entry is as before |
| `StoreEntries.LastTextLoads` | server-go/internal/server/sqlite_store.go:569-596 | THE LAST ONE COUNTS. Over any sequence of incremental saves a public key, name or room ciphertext is the last one that was not blank, or what it was before |
| `StoreEntries.LatestStampLoads` | server-go/internal/server/sqlite_store.go:569-596 | THE LATEST ONE COUNTS. A timestamp is the greatest of those saved and the one before |
| `StoreEntries.LastNameLoads` | server-go/internal/server/sqlite_store.go:569-575 | An author's name is the one on the last message saved |
| `StoreEntries.LoadsBeforeExactly` | server-go/internal/server/sqlite_store.go:1130-1134 | Of two stored rooms one loads before the other exactly if its row sorts first |
| `StoreEntries.InsertedRooms` | server-go/internal/server/sqlite_store.go:584-596 | An incremental save leaves all other rooms under their keys and in their order; the message's room takes the key of the metadata, or its ID, and counts as saved now, a new one with number 0 |
| `StoreEntries.RoomsStay` | server-go/internal/server/sqlite_store.go:584-596 | Incremental saves into stored rooms, of which no two have one number, leave the loaded room list as it was |
| `StoreEntries.SavedNumbersApart` | server-go/internal/server/sqlite_store.go:759-836 | After a full save no two rooms have one number |
| `StoreRefinement.SaveHolds` | server-go/internal/server/sqlite_store.go:922-1066 | After a full save in which the guard suppressed no change between NULL and -1 the database holds exactly the snapshot's messages as readers compare them |
| `StoreRefinement.InsertHolds` | server-go/internal/server/sqlite_store.go:531-644 | An incremental save adds exactly one message to what the database holds |
| `StoreRefinement.HeldDetermines` | server-go/internal/server/sqlite_store.go:1209-1335 | What is held determines every loaded message list |
| `StoreRefinement.IncrementalRefinesFull` | server-go/internal/server/sqlite_store.go:531-1091 | REFINEMENT. Any sequence of incremental saves after a full save succeeds; where the guard suppresses nothing and generated IDs are new, it loads the same rooms and messages as one full save of the extended snapshot if and only if every message of the snapshot has an ID |
| `StoreRefinement.RekeyedDiffers` | server-go/internal/server/sqlite_store.go:942-946 | A message without an ID is stored by each full save under another ID, so the two databases differ |
| `StoreRefinement.AuthorNameAgrees` | server-go/internal/server/sqlite_store.go:572-582 | The author's display name agrees between the two save paths if and only if the message carries the name the snapshot lists |
| `StoreRuns.StepExtends` | server-go/internal/server/sqlite_store.go:120-176 | One save of either kind extends a live message's archived and current contents by what it writes, or not at all if that is the same |
| `StoreRuns.HistoryLosesNothing` | server-go/internal/server/sqlite_store.go:120-176 | HISTORY. Over any run of full and incremental saves in which a message stays live, archived contents followed by the current one are what the saves wrote in turn, also where the two kinds write different text |
| `StoreRuns.SuccessiveHasNoRepeats` | server-go/internal/server/sqlite_store.go:120-134 | Adjacent contents differ |
| `StoreRuns.VotesNotArchived` | server-go/internal/server/sqlite_store.go:122-134 | A save that changes only votes adds no history |
| `StoreRuns.IncrementalTracked` | server-go/internal/server/sqlite_store.go:627-635 | The incremental save tracks the same content as a full one if and only if the encrypted text is empty or not blank |
| `StoreRuns.GuardExactOverRuns` | server-go/internal/server/sqlite_store.go:1049-1066 | Over any run of saves of settled messages from a settled or empty database the guard never changes what is loaded |
| `StoreRuns.RunConsistent` | server-go/internal/server/sqlite_store.go:531-1100 | Every database of a run is consistent if the first one is |
| `StoreRuns.RunsRoundTrip` | server-go/internal/server/sqlite_store.go:531-1415 | So every full save of such a run round-trips: rooms, room directory, users and messages |
| `Text.LessExactly` | server-go/internal/server/socket_handlers.go:255-255 | The order of texts is decided by the first place where they differ |
| `Text.TrimExactly` | server-go/internal/server/sqlite_store.go:553-558 | Trimming takes off exactly the space at both ends |
| `Text.BlankExactly` | server-go/internal/server/sqlite_store.go:1678-1684 | Blank text is nothing but space |
| `Text.NoLeadingZero` | server-go/internal/server/socket_handlers.go:264-279 | Decimal numbers have no leading zero |
| `Text.ReplacedExactly` | server-go/internal/server/socket_handlers_access.go:366-385 | Exactly the first occurrence is replaced |
| `ReplayWindow.ReplayGuard.MarkReplay` | server-go/internal/server/socket_handlers.go:287-316 | A key is accepted exactly if it is new among the live ones; map and queue hold the same distinct keys, never more than the cap |
| `ReplayWindow.ReplayGuard.TrimExpired` | server-go/internal/server/socket_handlers.go:298-307 | The first trim loop leaves exactly the entries that are younger than five minutes and within the cap |
| `ReplayWindow.ReplayGuard.TrimToCap` | server-go/internal/server/socket_handlers.go:309-313 | The second trim loop enforces the cap; within it, it changes nothing |
| `ReplayWindow.VerifySigned` | server-go/internal/server/socket_handlers.go:363-443 | Fields first, then freshness, the checks behind one flag, and the replay key: exactly the requests of `ReplayRuns.AcceptedExactly` are accepted |
| `ReplayWindow.LogGrows` | server-go/internal/server/socket_handlers.go:287-316 | Accepted keys are remembered in time order over any run |
| `ReplayWindow.AcceptedKeyRefused` | server-go/internal/server/socket_handlers.go:287-316 | Over any run an accepted key is refused while less than five minutes old and fewer than the cap of later keys were accepted |
| `ReplayWindow.StampedBeforeIsSafe` | server-go/internal/server/socket_handlers.go:369-374 | An envelope stamped strictly before its acceptance is never accepted twice within the cap |
| `ReplayWindow.StampedAheadComesBack` | server-go/internal/server/socket_handlers.go:363-374 | One stamped at or after its acceptance can be, for any cap above one: a run through another complete request accepts it again |
| `ReplayWindow.CapOfOneIsSafe` | server-go/internal/server/socket_handlers.go:309-313 | With a cap of one nothing can be accepted in between |
| `ReplayWindow.ReplaySafeExactly` | server-go/internal/server/socket_handlers.go:287-374 | REPLAY. An accepted envelope is never accepted again within the cap if and only if it was stamped strictly before its acceptance or the cap is one |
| `ReplayRuns.AcceptedExactly` | server-go/internal/server/socket_handlers.go:363-443 | ACCEPTED EXACTLY. Of any run of requests in time order from an empty window, one is accepted if and only if its four fields are present, it was stamped within five minutes on either side, session, claims and signature were accepted, and no accepted request with the same key text is still held |
| `ReplayRuns.AcceptedExactlyByNonce` | server-go/internal/server/socket_handlers.go:287-443 | For user IDs and event names without a colon that is: no accepted request of the same user, event and nonce is still in the window and within the cap |
| `ReplayRuns.ColonsCollide` | server-go/internal/server/socket_handlers.go:433-436 | With colons two different requests have one key, and the second is refused |
| `Encoding.Utf8RoundTrip` | src/utils/socketAuth.ts:31-33 | UTF-8 encoding is reversible |
| `Encoding.Utf8Order` | server-go/internal/server/socket_handlers.go:255-255 | Byte order of UTF-8 is code-point order, the order of `sort.Strings` |
| `Encoding.Utf16Order` | src/utils/socketAuth.ts:44-44 | Order by UTF-16 units is code-point order except where a surrogate meets a character from U+E000 to U+FFFF |
| `Encoding.Base64UrlRoundTrip` | server-go/internal/server/socket_handlers.go:258-258 | Unpadded base64url decodes to the encoded bytes (section 5 of RFC 4648) |
| `Encoding.Base64UrlEncodeUtf8` | src/utils/socketAuth.ts:31-41 | The client's `btoa` and three replacements give unpadded base64url of the UTF-8 bytes |
| `Encoding.BtoaUrlSafe` | src/utils/socketAuth.ts:34-41 | The same for any bytes: alphabet swapped, padding stripped |
| `Signing.CanonicalClaimsString` | server-go/internal/server/socket_handlers.go:247-262 | The server's claims text is the canonical one: keys ascending, values encoded, empty for no claims |
| `Signing.SortedClaimsString` | performance/xk6-signedauth/signer.go:146-157 | The load generator's claims text is the same function |
| `Signing.BuildSignedRequestInput` | server-go/internal/server/socket_handlers.go:264-279 | The server's signing input; a blank version counts as v1 |
| `Signing.BuildSigningInput` | performance/xk6-signedauth/signer.go:134-144 | The load generator's signing input is the server's for version v1 |
| `Signing.GoClaimsInjective` | server-go/internal/server/socket_handlers.go:247-262 | Equal claims texts mean equal claim maps when keys contain no ampersand |
| `Signing.UniqueDecodingExactly` | server-go/internal/server/socket_handlers.go:247-279 | UNIQUE DECODING. For all envelopes: two with the same signing input mean the same if and only if bars and ampersands are spread alike over their fields and claim keys |
| `Signing.UniqueDecoding` | server-go/internal/server/socket_handlers.go:264-279 | When event, user, session and nonce contain no bar and claim keys no ampersand, that is if and only if the versions contain equally many bars |
| `Signing.UniqueDecodingBarFreeVersion` | server-go/internal/server/socket_handlers.go:264-279 | So decoding is unique with bar-free versions, such as the clients' v1 |
| `Signing.UniqueDecodingAnyVersion` | server-go/internal/server/socket_handlers.go:264-279 | And with any version when claim keys contain no bar: equal texts then have versions with equally many |
| `Signing.AmpersandKeysCollide` | server-go/internal/server/socket_handlers.go:247-262 | An ampersand in a claim key makes two claim maps share one text |
| `Signing.BarsOnBothSidesCollide` | server-go/internal/server/socket_handlers.go:264-279 | With bars in both a version and a claim key two different envelopes share one signing input |
| `Signing.EncodersAgree` | src/utils/socketAuth.ts:43-48 | The client's claims text equals the server's if and only if no two keys are ordered differently by UTF-16 units and by bytes |
| `Signing.BasicPlaneAgrees` | src/utils/socketAuth.ts:44-44 | Keys without characters beyond U+FFFF are ordered alike |
| `Signing.SameInput` | src/utils/socketAuth.ts:50-60 | For version v1 the whole signing inputs agree under the same condition, both ways |
| `Signing.AstralKeysDiffer` | src/utils/socketAuth.ts:43-48 | Two claim keys for which client and server sign different texts |
| `Encoding.Utf8Shape` | src/utils/socketAuth.ts:31-33 | Length, lead and later units of UTF-8 and the code point they spell (section 3 of RFC 3629) |
| `Encoding.Utf16Shape` | src/utils/socketAuth.ts:44-44 | One unit, or a high and a low surrogate that spell the code point |
| `Encoding.GroupIsNumber` | server-go/internal/server/socket_handlers.go:258-258 | Three bytes are one number written with four digits of six bits (section 4 of RFC 4648) |
| `Encoding.AlphabetIs` | server-go/internal/server/socket_handlers.go:258-258 | The digits are those of the URL-safe alphabet (section 5 of RFC 4648) |
| `Signing.ClaimsText` | server-go/internal/server/socket_handlers.go:247-262 | The claims text joins `key=base64url(value)` over the keys in code-point order |
| `Signing.JoinConcat` | server-go/internal/server/socket_handlers.go:261-261 | Joining puts the separator between the parts and nowhere else |
| `Signing.SignedText` | server-go/internal/server/socket_handlers.go:264-279 | The signing inputs of server and client written out: version, event, user, session, time, nonce, claims, with bars between them |
| `ServerRegistry.DedupeMemberships` | src/utils/serverRegistry.ts:48-82 | The two loops compute the filed memberships in order of first appearance |
| `ServerRegistry.OnePerAccount` | src/utils/serverRegistry.ts:62-81 | At most one entry per server and user |
| `ServerRegistry.EveryAccountKept` | src/utils/serverRegistry.ts:62-81 | EVERY ACCOUNT IS KEPT under its canonical server ID if and only if no two accounts of the list share an account key |
| `ServerRegistry.SeparableApart` | src/utils/serverRegistry.ts:68-68 | Without a NUL in a server ID no two accounts share a key |
| `ServerRegistry.LatestDetailsWin` | src/utils/serverRegistry.ts:70-79 | An entry carries server, user, label and name of the last membership filed under its key, and its shorthand and alias if it has them |
| `ServerRegistry.CollidingAccounts` | src/utils/serverRegistry.ts:68-68 | With a NUL in an ID two accounts collapse into one |
| `ServerRegistry.DedupeTwice` | src/utils/serverRegistry.ts:48-82 | IDEMPOTENCE. When no alias names two servers and accounts do not share keys, a second pass changes nothing, even through chains of aliases |
| `ServerRegistry.IdempotentExactly` | src/utils/serverRegistry.ts:48-82 | Read off the list itself, for all lists of named servers: a second pass changes nothing if and only if no account is left without an alias on a server that exactly one alias will name |
| `ServerRegistry.DedupeTwiceExactly` | src/utils/serverRegistry.ts:48-82 | The same read off the result of the first pass: no entry whose server ID is the alias of exactly one other server |
| `ServerRegistry.UnchangedExactly` | src/utils/serverRegistry.ts:48-82 | A list is left alone if and only if its account keys are distinct and no entry is displaced in that way |
| `ServerRegistry.AmbiguousNotIdempotent` | src/utils/serverRegistry.ts:55-67 | With an ambiguous alias a second pass can move an entry |
| `RegistryEntries.TableExactly` | src/utils/serverRegistry.ts:50-61 | An alias is ambiguous exactly if two memberships give it to different servers, and stands for the first server named |
| `RegistryEntries.CanonicalExactly` | src/utils/serverRegistry.ts:62-67 | Under which server a membership is filed, for every list |
| `RegistryEntries.OutputCarries` | src/utils/serverRegistry.ts:70-79 | WHAT AN ENTRY CARRIES. Its shorthand is the last one given for the account; its alias the last one given, or else the own ID of the first membership filed under another server |
| `ServerShorthands.CreateServerShorthand` | src/utils/serverRegistry.ts:86-130 | The result is the first unused of the listed candidates, or the first unused number after the two-letter form |
| `ServerShorthands.TryCandidates` | src/utils/serverRegistry.ts:104-121 | The four loops find the first unused candidate or report that there is none |
| `ServerShorthands.FallbackLoop` | src/utils/serverRegistry.ts:123-129 | The `while` loop ends, at the first unused number |
| `ServerShorthands.Pigeonhole` | src/utils/serverRegistry.ts:125-128 | There cannot be more used numbers in a row than used shorthands |
| `ServerShorthands.FallbackWithin` | src/utils/serverRegistry.ts:123-129 | The fallback is found within used count+1 tests |
| `ServerShorthands.ShorthandFresh` | src/utils/serverRegistry.ts:86-130 | A created shorthand is not empty and not in use |
| `ServerShorthands.EnsureServerShorthands` | src/utils/serverRegistry.ts:132-151 | The loop keeps or creates one shorthand per membership |
| `ServerShorthands.ShorthandsDistinct` | src/utils/serverRegistry.ts:132-151 | Every membership gets a shorthand, no two equal ignoring case, and no other field changes |
| `ServerShorthands.KeptExactly` | src/utils/serverRegistry.ts:137-148 | A membership keeps its own shorthand, trimmed, if and only if no earlier one was given it |
| `ServerShorthands.DistinctKept` | src/utils/serverRegistry.ts:137-148 | Memberships with distinct shorthands all keep theirs |
| `ServerShorthands.ShorthandTrims` | src/utils/serverRegistry.ts:117-121 | A created shorthand is trimmed, or trims to one already in use |
| `ServerShorthands.AssignTwice` | src/utils/serverRegistry.ts:132-151 | IDEMPOTENCE. A second pass changes nothing, also for labels whose prefix ends in a space |
| `ShorthandChoice.ShorthandExactly` | src/utils/serverRegistry.ts:86-130 | WHICH SHORTHAND. The first letter if free, else the first two, else either with the smallest free digit above the number of earlier memberships of that label, else the shortest free prefix, else two letters with the smallest free number above it |
| `ShorthandChoice.AssignedExactly` | src/utils/serverRegistry.ts:132-151 | The same over a whole list: a membership keeps its own free shorthand or gets the one chosen over those before it |
| `IdentityDirectories.IdentityState.StoreIdentityDirectories` | src/utils/identityMap.ts:222-305 | Both directories and the current user after a call; absent parts are left alone |
| `IdentityDirectories.Merge` | src/utils/identityMap.ts:227-261 | The loop with its two skip conditions applies the entries one after the other |
| `IdentityDirectories.LatestWins` | src/utils/identityMap.ts:233-256 | LAST WRITER WINS. After any deliveries an ID whose entries all have names is known exactly if some entry named it, with name and timestamp of one of its latest entries; entries without timestamp never displace stamped ones |
| `IdentityDirectories.LastDeliveredWins` | src/utils/identityMap.ts:241-256 | Of the latest entries of an ID the one delivered last is what is known |
| `IdentityDirectories.ConvergesExactly` | src/utils/identityMap.ts:227-296 | CONVERGENCE. For all entries, names and timestamps are independent of order, repetition and batching if and only if the latest entries of every ID agree on its name and, where it is empty, the ID has no other name or timestamp |
| `IdentityDirectories.DistinctStampsDecide` | src/utils/identityMap.ts:241-247 | Distinct timestamps per ID and non-empty names meet that condition |
| `IdentityDirectories.Batching` | src/utils/identityMap.ts:227-261 | Two calls equal one call with both directories |
| `IdentityDirectories.StampsGrow` | src/utils/identityMap.ts:241-256 | A known ID's timestamp never decreases, as long as no entry of it has an empty name |
| `IdentityDirectories.NamesIndexed` | src/utils/identityMap.ts:249-250 | Every known name is in the reverse index |
| `IdentityDirectories.ReverseIndexExactly` | src/utils/identityMap.ts:250-250 | For entries with names, the reverse index is independent of the order of delivery if and only if no name belongs to two IDs and every name is still current for its ID |
| `IdentityDirectories.ReverseIndexDependsOnOrder` | src/utils/identityMap.ts:250-250 | So it need not converge where the names do: a superseded name stays if it came first |
| `IdentityDirectories.EmptyNameYields` | src/utils/identityMap.ts:239-246 | Distinct timestamps alone do not suffice: an empty name lets an older one in |
| `MessageWindow.MergeMessageWindow` | src/utils/messageWindow.ts:10-31 | The two loops, the sort and the slice compute the window of the merged map |
| `WindowContents.WindowExactly` | src/utils/messageWindow.ts:10-31 | THE WINDOW. It shows as many of the merged messages as there are up to the limit, by time and then ID; for `newer` those left out come before all that are shown, for `older` after them |
| `WindowContents.MergedIdentities` | src/utils/messageWindow.ts:16-22 | There is one merged message for each identity of either list |
| `WindowContents.LastExistingCounts` | src/utils/messageWindow.ts:17-18 | Of the messages present the last of an identity counts |
| `WindowContents.NegativeLimitDrops` | src/utils/messageWindow.ts:29-30 | A negative limit drops that many messages |
| `MessageWindow.IdentityExact` | src/utils/messageWindow.ts:5-8 | Two messages share an identity exactly if they share an ID or, without IDs, a timestamp |
| `MessageWindow.IncomingWins` | src/utils/messageWindow.ts:19-22 | The last incoming message of an identity decides its timestamp and every field it carries; other fields stay |
| `MessageWindow.OthersKept` | src/utils/messageWindow.ts:19-22 | Messages of other identities are untouched |
| `MessageWindow.WindowIsKept` | src/utils/messageWindow.ts:29-30 | The slice keeps exactly the messages with fewer than `limit` newer (older) ones |
| `MessageWindow.KeptOfKept` | src/utils/messageWindow.ts:29-30 | Keeping the best, adding more and keeping the best again equals keeping the best of all |
| `MessageWindow.WindowOfUnion` | src/utils/messageWindow.ts:10-31 | With stable timestamps the window is the `limit` newest (oldest) of both lists, ascending, each identity once |
| `MessageWindow.StreamingExactly` | src/utils/messageWindow.ts:10-31 | STREAMING. Merging two batches one after the other shows the same records as merging them at once if and only if there is no message that had `limit` others ahead of it after the first batch, has fewer after both, and is not carried in full by the second |
| `MessageWindow.StreamingIsBatch` | src/utils/messageWindow.ts:10-31 | So it does whenever no message changes its timestamp |
| `MessageWindow.UnstableTimestampsDiffer` | src/utils/messageWindow.ts:10-31 | If a message's timestamp changes the two can differ |
| `MessageWindow.ZeroLimitKeepsAll` | src/utils/messageWindow.ts:29-30 | A limit of 0 keeps everything in one direction and nothing in the other |
| `MessageWindow.WithinLimitExactly` | src/utils/messageWindow.ts:29-30 | The window is within the limit if and only if the limit is positive, or zero with the direction older or nothing there |
| `Pagination.FilterMessagesByVisibility` | server-go/internal/server/utils.go:338-353 | Keeps, in order, messages without audience or with the user in it |
| `Pagination.FilterMessagesForJoinTime` | server-go/internal/server/socket_handlers.go:661-687 | Up to and including the user's join marker if listed; else from the join time on; nothing if neither is known |
| `Pagination.ForJoinTimeShows` | server-go/internal/server/socket_handlers.go:661-687 | Who sees what: only visible messages, without a marker exactly those not older than the join, and with one nothing behind it |
| `Pagination.MarkerExactly` | server-go/internal/server/socket_handlers.go:661-673 | Which message announces that a user joined |
| `Pagination.PageExactly` | server-go/internal/server/socket_handlers.go:640-687 | THE PAGE. It shows messages to their audience only, strictly before the cursor in time and then ID, and exactly as many as asked for if more are left; without a join marker a last page shows all of these from the join on |
| `Pagination.MarkerBounds` | server-go/internal/server/socket_handlers.go:661-687 | With a join marker exactly the visible messages that are not earlier than it are shown on a newest-first list, and exactly those that are not later on an oldest-first list |
| `Pagination.MarkerBoundsLive` | server-go/internal/server/socket_handlers.go:661-687 | On live messages in order of arrival every visible message of a later second than the marker is shown and none of an earlier one |
| `Pagination.PaginateMessagesBefore` | server-go/internal/server/socket_handlers.go:640-659 | The last `limit` messages before the cursor and whether older ones remain; limits outside 1..500 count as 100 |
| `Pagination.BeforeCursor` | server-go/internal/server/socket_handlers.go:648-651 | A cursor taken from a message, with or without ID, leaves exactly the messages strictly before it |
| `Pagination.NextSmaller` | server-go/internal/server/socket_handlers.go:640-659 | Each next page starts from strictly less, for every list with positive timestamps |
| `Pagination.PageAt` | server-go/internal/server/socket_handlers.go:655-658 | A page is the stretch before the cursor and `hasMore` says exactly whether something older is left |
| `Pagination.PagesCoverHistory` | server-go/internal/server/socket_handlers.go:640-687 | PAGING. On a list in the order of `Load`, paging from the start reads every message the join-time filter lets through exactly once, in max(1, ceil(n/limit)) calls |
| `Pagination.ReturnedExactly` | server-go/internal/server/socket_handlers.go:640-659 | For every list, in any order and with or without IDs, and wherever in each page the client takes its next cursor: a message is returned if and only if no request loses it, by leaving it off the page and behind the next cursor |
| `Pagination.LoadedReturned` | server-go/internal/server/socket_handlers.go:640-659 | Of live messages in order of arrival in front of loaded ones, every loaded one is returned |
| `Pagination.ArrivedReturned` | server-go/internal/server/socket_handlers.go:640-659 | If moreover the first cursor is not later than any live message that the first page leaves out, paging returns exactly the loaded messages and as many live ones as the first page has room for |
| `Pagination.ArrivedCovered` | server-go/internal/server/socket_handlers_messages.go:194-194 | Under that hypothesis it reaches everything if and only if there is no live message or one page holds all; otherwise the newest is never returned |
| `Pagination.SecondsApart` | server-go/internal/server/socket_handlers_messages.go:181-194 | The hypothesis holds if no live message shares its second with one listed after it |
| `Pagination.NewestFirstBehind` | server-go/internal/server/socket_handlers.go:640-659 | It holds if the whole list is newest first by second and ID |
| `Pagination.SameSecondReturned` | server-go/internal/server/socket_handlers_messages.go:181-194 | It is needed: of two live messages of one second the newer is returned if its ID is smaller |
| `Pagination.ForJoinTimeArrived` | server-go/internal/server/socket_handlers.go:661-687 | The join-time filter keeps the shape of such a list |
| `ServerRooms.ParsesBackExactly` | server-go/internal/server/socket_handlers.go:724-744 | A room name reads back as its two participants if and only if the first contains no bar |
| `ServerRooms.OrderIndependentExactly` | server-go/internal/server/socket_handlers.go:780-787 | Both participants compute the same room if and only if their IDs are equal or differ when lower-cased, character by character |
| `ServerRooms.CanonicalStable` | server-go/internal/server/socket_handlers.go:780-787 | For IDs without a bar, rebuilding the name from what it parses to gives the same name |
| `ServerRooms.ChatRooms.constructor` | server-go/internal/server/server.go:180-232 | From loaded assignments, listed rooms without an ID given a UUID, both maps are inverse to each other and every listed room has an empty set of members |
| `ServerRooms.IdentifyRooms` | server-go/internal/server/server.go:180-187 | The loop keeps every loaded ID and fills in the missing ones |
| `ServerRooms.ChatRooms.EnsureRoomId` | server-go/internal/server/server.go:262-284 | A direct-message room is its own ID, a known room keeps its ID, any other gets the UUID |
| `ServerRooms.EnsuredResolves` | server-go/internal/server/server.go:262-284 | The ID handed out is recorded in both directions |
| `ServerRooms.EnsuredTwice` | server-go/internal/server/server.go:262-284 | Asking again gives the same ID and changes nothing, whatever UUID is at hand |
| `ServerRooms.ChatRooms.NewRoom` | server-go/internal/server/socket_handlers_rooms.go:61-128 | One hash names one room: the first request creates it, later ones find it and change no assignment |
| `ServerRooms.ChatRooms.ReopenRoom` | server-go/internal/server/socket_handlers_rooms.go:70-99 | A known hash: an existing ciphertext is kept, a missing one is set unless the timestamp is older |
| `ServerRooms.ChatRooms.CreateRoom` | server-go/internal/server/socket_handlers_rooms.go:100-127 | A new hash: the UUID is both name and ID |
| `ServerRooms.ChatRooms.EnsureCanonicalDMRoom` | server-go/internal/server/socket_handlers.go:789-822 | Opens the canonical room with its intro for a participant; refuses anyone else without a change |
| `ServerRooms.DMEnsuredTwice` | server-go/internal/server/socket_handlers.go:789-822 | Opening again changes nothing |
| `ServerRooms.DMEnsuredEitherOrder` | server-go/internal/server/socket_handlers.go:780-822 | Opening with the pair in either order is one room with one thread if and only if the IDs are equal or differ when lower-cased; otherwise a second room is opened, unless it already was |
| `ServerRooms.ChatRooms.RefreshRooms` | server-go/internal/server/socket_handlers_identity.go:75-97 | A directory entry is accepted exactly if its room exists and its timestamp is not older; accepted entries are stored and reported |
| `ServerRooms.AcceptEntries` | server-go/internal/server/socket_handlers_identity.go:75-97 | The loop over the received map, in any order |
| `ServerRooms.NextKeeps` | server-go/internal/server/server.go:262-284 | Every critical section keeps the room invariant and every assignment |
| `ServerRooms.RunKeeps` | server-go/internal/server/server.go:262-284 | SAFETY OVER RUNS. Rooms and IDs stay inverse bijections, direct-message rooms their own IDs, hashes resolve, no assignment changes and no room directory timestamp goes back |
| `RoomEffects.RefreshedExactly` | server-go/internal/server/socket_handlers_identity.go:75-97 | REFRESH. An entry that is not empty, for a room that exists, is stored with its timestamp unless a later one is; every other entry is ignored and nothing else changes |
| `RoomEffects.ReopenedExactly` | server-go/internal/server/socket_handlers_rooms.go:70-99 | A known hash finds its room, which keeps the name it has or takes one that is not older |
| `RoomEffects.CreatedExactly` | server-go/internal/server/socket_handlers_rooms.go:100-127 | A new hash adds a room at the end, its own ID, with its name, no messages and no new members |
| `RoomEffects.StoredWasOffered` | server-go/internal/server/socket_handlers_identity.go:75-97 | Over any run the text and the timestamp stored for a room were there before or offered together by one request |
| `RoomEffects.LatestStays` | server-go/internal/server/socket_handlers_identity.go:75-97 | THE LATEST STAYS. Over any run the stored timestamp of a room is not before that of any entry a refresh offered while it existed |
| `RoomEffects.SmallerFirst` | server-go/internal/server/socket_handlers.go:780-787 | A direct-message name lists the participant first whose lower-cased ID is smaller |
| `RoomEffects.DMRoomExactly` | server-go/internal/server/socket_handlers.go:789-822 | Opening the room of two lists it once, makes both members and, if it is new, adds the introduction; other rooms stay as they were |
| `RoomEffects.IntroExactly` | server-go/internal/server/socket_handlers.go:746-778 | The introduction is one message of the system that names the other participant |
| `RoomEffects.ParsesExactly` | server-go/internal/server/socket_handlers.go:724-744 | A room name has participants exactly if it is the prefix, a part without a bar, a bar and another part, neither blank |
| `RoomEffects.EnsuredExactly` | server-go/internal/server/server.go:262-284 | Which ID a room has, and that asking for it changes nothing else |
| `RoomEffects.StartIds` | server-go/internal/server/server.go:180-187 | A listed room keeps its loaded ID or gets the UUID at its place |
| `MessageLifecycle.FindMessageIndex` | server-go/internal/server/socket_handlers.go:75-91 | The first message with the given ID, else the first with the timestamp, else -1 |
| `MessageLifecycle.RecastTally` | server-go/internal/server/socket_handlers_messages.go:346-380 | The three vote branches change ups minus downs by 1, -1 or 2 as the total does |
| `MessageLifecycle.ChatMessages.SendMessage` | server-go/internal/server/socket_handlers_messages.go:138-194 | A message to a known room is prepended with its author's upvote; an unknown room, the text of a join message and an empty author are refused without a change |
| `MessageLifecycle.ChatMessages.VoteMessage` | server-go/internal/server/socket_handlers_messages.go:315-380 | Votes toggle, switch or start on the target message; anything else is unchanged |
| `MessageLifecycle.ChatMessages.EditMessage` | server-go/internal/server/socket_handlers_messages.go:472-515 | Only the author edits, never a system message |
| `MessageLifecycle.ChatMessages.DeleteMessage` | server-go/internal/server/socket_handlers_messages.go:590-636 | Only the author deletes; deleting twice succeeds without change |
| `MessageLifecycle.ChatMessages.OpenRoom` | server-go/internal/server/socket_handlers_rooms.go:116-117 | A room without a list gets an empty one |
| `MessageLifecycle.ChatMessages.GrantAccess` | server-go/internal/server/socket_handlers_access.go:297-388 | The granter's own message gets a new newest version, and the request is marked as granted in the room of the two; without such a message nothing changes |
| `MessageLifecycle.ChatMessages.NewVersion` | server-go/internal/server/socket_handlers_access.go:297-334 | The first message with the timestamp that is the granter's own gets the version |
| `MessageLifecycle.MarkGranted` | server-go/internal/server/socket_handlers_access.go:366-385 | The loop over the room of the two marks the request and the status message |
| `MessageLifecycle.MarkDenied` | server-go/internal/server/socket_handlers_access.go:600-625 | The two loops of a denial amount to one pass per message |
| `MessageLifecycle.ChatMessages.DenyAccess` | server-go/internal/server/socket_handlers_access.go:596-627 | A denial marks the request and the status message and changes nothing else |
| `MessageLifecycle.MarkedAgain` | server-go/internal/server/socket_handlers_access.go:368-376 | A request is marked as granted once; denied again, it gets another mark, exactly if it is a request |
| `MessageLifecycle.VotedKeeps` | server-go/internal/server/socket_handlers_messages.go:338-385 | A vote keeps the counting invariant and the value of every other user's vote, and sets or takes back the voter's own |
| `MessageLifecycle.GrantedKeeps` | server-go/internal/server/socket_handlers_access.go:303-330 | A grant numbers versions on and shows the new text |
| `MessageLifecycle.NextKeeps` | server-go/internal/server/socket_handlers_messages.go:138-636 | Every operation that touches messages, opening rooms, posting and answering requests included, keeps all messages sound and only moves them forward |
| `MessageLifecycle.RunKeeps` | server-go/internal/server/socket_handlers_messages.go:138-636 | SAFETY OVER RUNS. Totals are ups minus downs or absent with the votes, versions are numbered and kept until a delete, identity, author and reply target never change, a delete is never undone |
| `MessageLifecycle.ServerMessagesSettled` | server-go/internal/server/socket_handlers_messages.go:138-636 | Every message a server reaches from none or from sound loaded ones meets the condition the conditional upsert relies on |
| `MessageAuthors.OnlyItsAuthor` | server-go/internal/server/socket_handlers_messages.go:315-636 | ONLY ITS AUTHOR. Between any two moments of a run a message's text, versions, audience and marks change only if its author edited, deleted or granted; edited and deleted marks only by the author's edit or delete and never on a system message; plain content only so or by an answered request; a vote only by the voter or the author's delete |
| `MessageAuthors.TextIsTheAuthors` | server-go/internal/server/socket_handlers_messages.go:472-636 | An encrypted text that is not what it was is that of an edit or grant of the author in between, or empty by the author's delete |
| `MessageAuthors.DeletedIsGone` | server-go/internal/server/socket_handlers_messages.go:590-636 | DELETED IS GONE. From a delete until the author's next edit or grant neither content nor text nor versions of the message can be read |
| `MessageAuthors.EditTakes` | server-go/internal/server/socket_handlers_messages.go:472-515 | An edit by the author of a message that is not the system's replaces its text and nothing else; anyone else's changes nothing |
| `MessageAuthors.DeleteTakes` | server-go/internal/server/socket_handlers_messages.go:590-636 | The same for a delete, which empties the message once |
| `MessageAuthors.SentIsFirst` | server-go/internal/server/socket_handlers_messages.go:138-194 | A message to a known room is its newest, with the sender's vote; a join text or a missing sender is refused |
| `MessageAuthors.GrantKeepsOldText` | server-go/internal/server/socket_handlers_access.go:303-330 | A grant puts the new text in front of the versions there were, the first of which keeps the text as sent |
| `MessageAuthors.GrantTakes` | server-go/internal/server/socket_handlers_access.go:297-388 | A grant changes the granter's first message of that time and answers the request, or does nothing |
| `MessageAuthors.DenyTakes` | server-go/internal/server/socket_handlers_access.go:596-627 | A denial answers the request and does nothing else |
| `MessageAuthors.AnswersNoted` | server-go/internal/server/socket_handlers_access.go:366-388 | An answer can be read on the request, which only the author sees, and on the pending status message of the requester; no other message changes |
| `Presence.PresenceServer.SetUser` | server-go/internal/server/server.go:561-584 | Sets the session, cancels a pending leave, broadcasts exactly on change |
| `Presence.PresenceServer.Disconnect` | server-go/internal/server/socket_handlers.go:962-992 | Disconnects at most one user of the socket and starts its deadline |
| `Presence.PresenceServer.EmitDebouncedLeave` | server-go/internal/server/socket_handlers.go:838-884 | Sends the leave exactly if it is still pending under this deadline and the user is not back |
| `Presence.PresentOrPending` | server-go/internal/server/socket_handlers.go:852-857 | No user is both present and pending in any run, so the branch for a quick reconnect is never taken |
| `Presence.PresentExactly` | server-go/internal/server/socket_handlers.go:962-992 | WHO IS PRESENT. A user is present with a socket if and only if it was the last one the user was set with and the user was neither dropped nor disconnected from that very socket since |
| `Presence.LeavesRecorded` | server-go/internal/server/socket_handlers.go:962-992 | Every leave belongs to one disconnect of its user and each disconnect sends at most one |
| `Presence.PendingExactly` | server-go/internal/server/socket_handlers.go:838-992 | Whatever the deadlines: a leave is pending if and only if some disconnect with its deadline stands, the user away since and the deadline not spent by a timer |
| `Presence.AnnouncesExactly` | server-go/internal/server/socket_handlers.go:838-884 | A timer finds a leave to send if and only if its own disconnect stands, or a later one that shares the deadline does, and in that case its user had come back |
| `Presence.LeaveForAnyDeadlines` | server-go/internal/server/socket_handlers.go:838-884 | PRESENCE. A step sends a leave message if and only if it fires a timer of the one or the other kind |
| `Presence.LeaveExactly` | server-go/internal/server/socket_handlers.go:838-884 | With distinct deadlines a timer sends its leave if and only if its user was not set since the disconnect |
| `Presence.SharedDeadlineMisleads` | server-go/internal/server/socket_handlers.go:846-850 | With a shared deadline a leave is announced for a disconnect whose user came back |
| `SessionCache.Cache.SetValue` | server-go/internal/server/cache.go:49-58 | A new entry with bounded expiry |
| `SessionCache.Cache.TouchKey` | server-go/internal/server/cache.go:74-91 | Extends a live entry up to the absolute deadline, refuses an expired one |
| `SessionCache.Cache.GetValue` | server-go/internal/server/cache.go:93-104 | Reads a live entry without extending it |
| `SessionCache.Cache.HasKey` | server-go/internal/server/cache.go:106-114 | Strictly before the expiry |
| `SessionCache.Cache.DeleteKey` | server-go/internal/server/cache.go:116-120 | Removes the entry |
| `SessionCache.Cache.PurgeExpired` | server-go/internal/server/cache.go:149-158 | Removes exactly the expired entries, in any order |
| `SessionCache.Step` | server-go/internal/server/cache.go:49-158 | One operation keeps the simulation and answers as the reference |
| `SessionCache.AnswersAsReference` | server-go/internal/server/cache.go:49-158 | REFINEMENT. After any run in time order every operation answers as a reference without expiry times and without purging, for any limits |
| `SessionCache.PurgesInvisible` | server-go/internal/server/cache.go:149-158 | Sweeping at any moments changes no later answer |
| `SessionCache.TouchExactly` | server-go/internal/server/cache.go:74-91 | A touch succeeds exactly if the key was set and not deleted, its last use is no longer ago than the time to live, and the absolute deadline has not passed |
| `SessionCache.AnswersExactly` | server-go/internal/server/cache.go:49-114 | THE ANSWERS read off the history: the value that was set, until the time to live since the last use or the maximum lifetime since the set has passed |
| `SessionCache.AbsentExactly` | server-go/internal/server/cache.go:74-114 | Without a set in force a key is absent |
| `SessionCache.SweepExactly` | server-go/internal/server/cache.go:149-158 | A sweep keeps exactly the entries that `Get` still finds |
| `SessionCache.HasMissesTheLastMoment` | server-go/internal/server/cache.go:93-114 | `Get` and `Has` disagree exactly at the expiry, where only `Get` finds the entry |
| `WebSocketQueue.WebSocketClient.constructor` | src/utils/websocketClient.ts:47-52 | A new client opens its first socket |
| `WebSocketQueue.WebSocketClient.EmitFrame` | src/utils/websocketClient.ts:76-83 | Sends on an open current socket, else queues |
| `WebSocketQueue.WebSocketClient.DisconnectClient` | src/utils/websocketClient.ts:85-92 | Closes and forgets the current socket |
| `WebSocketQueue.WebSocketClient.ConnectClient` | src/utils/websocketClient.ts:94-99 | Opens a socket if there is none or it is closed |
| `WebSocketQueue.WebSocketClient.OnOpen` | src/utils/websocketClient.ts:112-130 | Flushes the whole queue in order, then authenticates |
| `WebSocketQueue.WebSocketClient.OnClose` | src/utils/websocketClient.ts:165-189 | Marks disconnected and schedules a reconnect if allowed |
| `WebSocketQueue.WebSocketClient.OnTimer` | src/utils/websocketClient.ts:190-194 | Opens a socket unless manually closed |
| `WebSocketQueue.NextConserves` | src/utils/websocketClient.ts:76-130 | Every step conserves sent frames plus queue, and an open current socket has an empty queue |
| `WebSocketQueue.NothingLost` | src/utils/websocketClient.ts:76-195 | CONSERVATION. In every run the frames handed to sockets followed by the queue are the emitted frames in order |
| `WebSocketQueue.OpeningDrains` | src/utils/websocketClient.ts:112-121 | Once a socket opens, every frame emitted so far has been handed over |
| `WebSocketQueue.SentWhileOpen` | src/utils/websocketClient.ts:76-130 | OPEN SOCKETS ONLY. Everything ever sent was handed to a socket while it was open: by an emit to the current one, else to the one that opened |
| `WebSocketQueue.OpeningSends` | src/utils/websocketClient.ts:112-130 | An opening socket is sent the waiting frames in order and then the credentials |
| `WebSocketQueue.StaysDisconnected` | src/utils/websocketClient.ts:85-92 | After a disconnect no leftover timer opens a socket until the next connect |
| `WebSocketQueue.ConnectedExactly` | src/utils/websocketClient.ts:85-189 | Over any run the client counts as connected if and only if some socket opened and since then none closed and the client did not disconnect |
| `WebSocketQueue.FlagWrongExactly` | src/utils/websocketClient.ts:112-189 | With an open current socket the client counts as disconnected if and only if some socket closed and none opened since |
| `WebSocketQueue.ManuallyClosedExactly` | src/utils/websocketClient.ts:85-99 | The client is closed for good if and only if no connect came after some disconnect |
| `WebSocketQueue.AttemptsExactly` | src/utils/websocketClient.ts:112-189 | The attempts counted are the timers set since a socket last opened |
| `WebSocketQueue.SchedulesExactly` | src/utils/websocketClient.ts:165-189 | RECONNECTING. A closing socket sets a timer if and only if reconnection is on, no disconnect stands and fewer than the allowed timers were set since a socket last opened |
| `WebSocketQueue.SocketsExactly` | src/utils/websocketClient.ts:54-194 | When a socket is created, which one is current, and that no event touches the state of another socket |
| `WebSocketQueue.TwoSockets` | src/utils/websocketClient.ts:94-99 | A connect beside a reconnect timer leaves two sockets, and closing the older marks the client disconnected while the current one is open |
| `Composition.RunsKeepAssignments` | server-go/internal/server/server.go:262-284 | Whatever the server does between saves, stored rooms keep their IDs and no two share one, as saving requires |
| `Composition.RunOrderly` | server-go/internal/server/socket_handlers_messages.go:138-194 | Over any run whose sends and posts bring in new IDs, no ID occurs twice in memory and every message knows the ID of its room |
| `Composition.OrderlyStorable` | server-go/internal/server/sqlite_store.go:646-1110 | Such a memory meets what a full save needs, if generated IDs are new |
| `Composition.NewDatabaseSane` | server-go/internal/server/sqlite_store.go:197-209 | A new database is one a server can start on |
| `Composition.ServerSavesRoundTrip` | server-go/internal/server/sqlite_store.go:531-1415 | A SERVER AND ITS DATABASE. Started on its database's messages or clearing them, working in any way that brings in new IDs and saving in between, fully or one by one: after every full save a restart loads exactly the saved rooms, room directory and messages, and the database is as sane as at the start |
| `Composition.SavedRoomsPageCompletely` | server-go/internal/server/socket_handlers.go:640-687 | After every full save of such a run a restarted room holds exactly the saved messages, and paging reads those the join-time filter shows, each once and oldest first; without a join marker exactly those the user may see from the time of joining on |

## Left out

- Store.SQLiteStore.Load: returns no room name hashes, no join and creation times and no map from names to
  users, and does not rewrite the rooms `#general`, `#cats` and `general`; no property here needs them.
- ReplayWindow.VerifySigned: the session, claim and signature checks are one flag of the request; what
  OpenPGP accepts is not modelled, nor are claim normalisation and `claimDigest`.
- Pagination.ArrivedReturned: asks that the first cursor is not later than a live message left out; without
  it which live messages of one second are returned depends on their IDs, as `Pagination.ReturnedExactly`
  says. No live message arrives between two pages.
- IdentityDirectories.ReverseIndexExactly: entries with an empty name are not covered.
- ServerRooms.CanonicalStable: IDs with a bar are not covered; `ServerRooms.ParsesBackExactly` says how they
  read back.
- Composition.ServerSavesRoundTrip: room IDs are one fixed assignment, as `ServerRooms.RunKeeps` provides.
- MessageLifecycle.ChatMessages.OpenRoom: a request for access clears the list of a direct-message room that
  has messages but is not listed; the server lists every room it gives messages to.
- The SQL engine, its pragmas and migrations: a table is a map and a transaction applies as a whole or not
  at all; a JSON column holds the value it encodes; `int64` columns are unbounded integers.
- Columns that no property needs: `room_name_hash`, `joined_at`, `invited_by`, room `created_at` and the
  `updated_at` of users and messages; and the alias map of user IDs, which is empty in the running server.
- Snapshots are values and reach the store in the order they were taken; sharing of `VoteTotal` and
  `UserVotes` between a snapshot and memory is not modelled.
- Signatures, hashes, OpenPGP and scrypt.
- Names of the signature headers, nonce creation and key caching in the load generator.
- `normalizeMembership`, local storage and URLs of the server registry.
- Case mapping is character by character and independent of the neighbours; the final sigma is outside
  this law. `localeCompare` on IDs is a total order.
- Encryption and storage of the identity cache; the server's loop over user names, where an owner's own
  update wins on purpose.
- Invites, creation capabilities, join votes, block lists, access requests and key transfers, except that
  their messages are covered as messages posted by the server.
- Delivery after `ws.send`, incoming frames and event listeners of the client socket.
- HTTP routing, static files, logging, metrics and the user interface.
