# Sessions, their caches, and the machinery under them

Rinq is a cross-language command bus: peers own *sessions*, a session carries a namespaced
table of attributes under optimistic locking, and other peers read and write that table
through a partial cache. Commands travel over an AMQP broker; each peer has an invoker (which
waits for replies), a command server (which runs handlers) and a notification listener.

This project models that logic and proves what it promises, on every run.

**The owner and its remote caches**

- `attributes.dfy`, `session_state.dfy`: attributes, tables, and what `TryUpdate`, `TryClear`,
  `TryDestroy` and `nextMessageID` do, as functions; the meaning of the two write loops.
- `history.dfy`, `session_runs.dfy`: the table at every revision a session has had, what the
  `CreatedAt`/`UpdatedAt` stamps say about it, reads at old revisions, runs of one session.
- `local_session.dfy`: the same as objects — shared tables copied before writes, the write and
  read loops — each method proved equal to its function.
- `attr_cache.dfy`, `cache_truth.dfy`: the remote session's cache, and what it means for a cache
  entry to be true to the owner's history.
- `session_protocol.dfy`, `session_guarantees.dfy`, `session_counterexamples.dfy`: the owner and
  any number of remote peers as one system of interleaved steps. A call is sent, the owner acts,
  the reply is absorbed, each at its own time; an update is answered from a second, later
  snapshot; requests and replies may be lost or reordered. What holds on every run, and the runs
  on which the obvious stronger claims fail.
- `cache_contents.dfy`, `remote_verdicts.dfy`: what the cache holds after any reply, what callers
  are told, and what a success means for the owner's history.
- `stamped_clear.dfy`: the same protocol with one line of the remote `TryClear` repaired.
- `remote_session.dfy`: the remote session, its handlers and its client as objects with loops.

**Identifiers**: `ident.dfy` (printing and parsing, with the greedy patterns matched exactly),
`message_ids.dfy` (all IDs a peer gives out).

**Requests and replies**

- `service.dfy`: the state machine's three channels. `commands.dfy`: callers of `Do` and
  `DoGraceful` against a machine that may be stopped at any moment. `invoker.dfy`: callers and invoker as
  interleaved steps. `pending_calls.dfy`: the pending table and the graceful drain as objects.
- `response.dfy`, `command_server.dfy`: a response, the pending counter, message settlement and
  graceful stop, as interleaved steps and as objects.
- `listener.dfy`: per-namespace listener counts and broker bindings.

- `deliveries.dfy`, `counters.dfy`: what the above share.

**Data**: `payload.dfy`, `payload_handles.dfy` (reference counts, lazy encoding, pooled buffers),
`constraint.dfy` (the matcher, its meaning, and which writes can change a verdict).

## Assumptions

- Revisions and message sequences stay below 2^32 - 1 (`InRange`); `RevisionWraps` shows that the
  first revision beyond wraps to zero. Session and client sequences are bounded likewise.
- Keys within one remote `Update` are distinct (`DistinctKeys`); without this see
  `RepeatedKeysIff`.
- A revision number a remote peer holds was issued by the owner, so it is at most its head.
- A message ID is used for one call (`InvokerProtocol.FreshKey`); `MessageIds.NeverRepeats` is
  the reason.
- The broker's bind and unbind calls succeed (listener). Encoding cannot fail, and decoding
  undoes encoding (`Payloads.IsRoundTrip`); the codec is otherwise arbitrary.
- A lock-held region is one step, a context may expire at any moment, and map iteration may
  take any order.

## Where the code and its documentation part ways

- `Revision.Get` promises the value at its revision. A completed remote `Clear` blanks cached
  values and raises `FetchedAt` without moving `UpdatedAt`
  (`src/internal/remotesession/session.go:270-275`), so the cache answers `""` at every revision
  from `UpdatedAt` up to the Clear: at those it had fetched (`ReadBelowClearCanBeWrong` is such a
  run) and at those in between, which it would have left to the owner before
  (`ReadBetweenFetchAndClearCanBeWrong`). `ReadBelowClearIff` says, over that whole range, when
  the answer is right; in `StampedClear`, where `UpdatedAt` moves as well,
  `EveryReadHasTrueValues` holds for every read. For the same reason an update filtered by such an
  entry can differ from the full one (`FilterAfterClearCanDiffer`, `FilterPreservesUpdateIff`).
- Destroying a session twice is not an error for its owner, but a remote peer that has destroyed
  it rejects the second call (`src/internal/remotesession/session.go:291-293`):
  `SecondDestroyIsRejected`, `RejectedDestroyIsJustifiedIff`.
- A remote `TryDestroy` whose reply says *not found* leaves the cached session open
  (`src/internal/remotesession/session.go:303-306`), unlike every other call:
  `NotFoundAfterDestroyKeepsOpen`.
- The client stamps everything it sent with the new revision, changed or not
  (`src/internal/remotesession/client.go:150-157`), so a cached read can be stale although the
  owner could answer: `StaleAfterUpdateIff` says when, `StaleReadCanBeSpurious` is a run.
- Of repeated keys in one remote update the first is cached and the last one stored
  (`src/internal/remotesession/session.go:206-215`): `RepeatedKeysIff` says when that matters,
  `RepeatedKeysCanDiffer` is an input.
- An empty local update is answered without a new revision; an empty remote one is not
  (`src/internal/localsession/revision.go:78-80`, `src/internal/remotesession/revision.go:74-83`):
  `EmptyRemoteUpdateMakesRevision`.
- The invoker's stop can leave a caller blocked, in one situation: the broker has closed the
  consumer and never reports the end of the AMQP channel
  (`src/rinqamqp/internal/commandamqp/invoker.go:276-279`): `AwaitingBrokerBlocks` is such a
  run, and `NeverWedged` says that it is the only situation.

## Model

| member | source | states |
|---|---|---|
| SessionState.WriteAllMeaning | src/internal/localsession/session_state.go:71-90 | the update loop fails exactly if some element asks to change an attribute that is frozen by then; otherwise each key holds the last element with that key, or what it held before |
| SessionState.WriteAllEvolves | src/internal/localsession/session_state.go:71-90 | an update removes nothing, leaves frozen attributes alone, stamps whatever it changed, and its diff has every changed attribute |
| SessionState.DiffIsExact | src/internal/localsession/session_state.go:71-90 | with distinct keys the diff lists exactly the attributes created or changed, as they are afterwards |
| SessionState.DiffIsInOrder | src/internal/localsession/session_state.go:71-90 | and lists them in the order of the update |
| SessionState.UpdateVerdict | src/internal/localsession/session_state.go:55-105 | not found exactly if destroyed; else stale exactly if the revision is not the head; else frozen exactly if some element conflicts; else success, with the next revision, a fresh message sequence and a diff for it; a failure changes nothing |
| SessionState.ClearVerdict | src/internal/localsession/session_state.go:112-156 | the same for a clear, which is refused exactly for a frozen attribute that has a value |
| SessionState.DestroyVerdict | src/internal/localsession/session_state.go:164-179 | stale exactly if the revision is not the head; else success, true exactly for the first; nothing else changes |
| SessionState.BlankAllEvolves | src/internal/localsession/session_state.go:129-141 | a clear removes nothing, empties every value, keeps every flag, and changes no attribute that was empty already |
| History.StampsSummariseHistory | src/internal/localsession/session_state.go:67-97 | for any attribute of any revision: absent before CreatedAt, present since, unchanged exactly since UpdatedAt, under its own key, with 1 <= CreatedAt <= UpdatedAt <= revision |
| History.Persists | src/internal/localsession/session_state.go:72-89 | an attribute is never removed, keeps CreatedAt, is unchanged exactly if UpdatedAt has not moved past the earlier revision, and never changes once frozen |
| History.ExistsSinceCreated | src/internal/localsession/session_state.go:84-86 | CreatedAt tells exactly which earlier revisions had the attribute |
| History.FrozenForever | src/internal/localsession/session_state.go:74-80 | an attribute frozen at one revision has the same value, flag and stamps at every later one |
| History.GetIsExact | src/internal/localsession/revision.go:29-50 | a read at an old revision gives the historical attribute, or a stale error exactly if it existed then and was rewritten before the snapshot |
| History.GetManyAgrees | src/internal/localsession/revision.go:52-73 | GetMany succeeds exactly if Get succeeds on every key, with the same answers, revision zero included |
| SessionRuns.StepKeepsTrace | src/internal/localsession/session_state.go:55-211 | every operation keeps the invariant of a session with its history, and only ever extends the history |
| SessionRuns.TryUpdateEvolves | src/internal/localsession/session_state.go:92-97 | a successful update leaves every other namespace as it was, and each key of its own with the last value asked for |
| SessionRuns.TryClearEvolves | src/internal/localsession/session_state.go:143-148 | a successful clear leaves every other namespace as it was, and each attribute of its own as it was but empty |
| SessionRuns.NoLostUpdates | src/internal/localsession/session_state.go:55-156 | on every run the head is the number of successful writes and no two of them were made against the same revision |
| SessionRuns.RunStampsTrue | src/internal/localsession/session_state.go:67-148 | on every run the stamps of the current table are true of the whole history |
| SessionRuns.RunFrozenForever | src/internal/localsession/session_state.go:74-80 | on every run, by any mix of operations, a frozen attribute stays as it is with its stamps |
| SessionRuns.DestroyedForever | src/internal/localsession/session_state.go:59-61 | nothing at all changes after a session is destroyed, whatever is called |
| SessionRuns.MessageIdsIncrease | src/internal/localsession/session_state.go:201-203 | the (revision, sequence) pairs a session issues strictly increase, with sequence at least one, although writes reset the sequence |
| SessionRuns.MessagesAreNumbered | src/internal/localsession/session_state.go:201-203 | the message IDs of each revision are numbered from one without gaps |
| SessionRuns.RevisionWraps | src/internal/localsession/session_state.go:67-67 | at the top of the 32-bit range the next revision is zero |
| LocalSession.VTable.Clone | src/internal/attributes/vtable.go:30-38 | a new table with the same entries |
| LocalSession.WithNamespace | src/internal/attributes/catalog.go:12-22 | the same catalog with one namespace replaced, sharing no other table with the old one |
| LocalSession.Revision.Get | src/internal/localsession/revision.go:29-50 | answers as the specification of reads at an old revision |
| LocalSession.Revision.GetMany | src/internal/localsession/revision.go:52-73 | the loop answers as its specification, stopping at the first stale key |
| LocalSession.Revision.Update | src/internal/localsession/revision.go:75-90 | an empty update changes nothing; any other is TryUpdate at this revision, and a failed one leaves the session as it was |
| LocalSession.BlankTable | src/internal/localsession/session_state.go:129-141 | in any order of iteration, fails exactly if a frozen attribute has a value; else blanks all, and the diff lists exactly the blanked ones |
| LocalSession.Session.At | src/internal/localsession/session_state.go:18-32 | refuses exactly the revisions beyond the head; otherwise captures the tables |
| LocalSession.Session.AttrsIn | src/internal/localsession/session_state.go:43-48 | the head revision with the namespace's table of that revision |
| LocalSession.Session.TryUpdate | src/internal/localsession/session_state.go:55-105 | the whole new state and result; every failed call leaves everything as it was, and no table that existed before is written to, so captured revisions stay as they are |
| LocalSession.Session.TryClear | src/internal/localsession/session_state.go:112-156 | the whole new state and result, with the same guarantees |
| LocalSession.Session.TryDestroy | src/internal/localsession/session_state.go:164-179 | the whole new state, and whether this call destroyed the session |
| LocalSession.Session.NextMessageID | src/internal/localsession/session_state.go:201-211 | the revision and the incremented sequence |
| AttrCache.ConsultAllMembers | src/internal/remotesession/session.go:334-359 | which answers the cache gives and which keys it leaves to the owner, key by key, whatever the order |
| AttrCache.AnswersMembers | src/internal/remotesession/session.go:106-137 | what a fetch adds to the cached answers; it fails exactly if one of the attributes existed and has been rewritten since |
| AttrCache.SelectMembers | src/internal/remotesession/server.go:94-101 | the owner returns exactly the requested attributes that exist |
| AttrCache.OverlayMembers | src/internal/remotesession/revision.go:52-71 | the table of GetMany has every key, with its answer or empty |
| CacheTruth.StampedTrue | src/internal/remotesession/client.go:148-158 | attributes stamped by the client, with CreatedAt from a later snapshot and UpdatedAt too late, are still true of the history up to the new revision |
| CacheTruth.SelectTrue | src/internal/remotesession/server.go:90-101 | attributes the owner returns are true of its history up to its head |
| CacheTruth.StoreAllTrue | src/internal/remotesession/session.go:106-116 | absorbing a reply of any age keeps every entry true |
| CacheTruth.BlankEntriesTrue | src/internal/remotesession/session.go:268-276 | blanking at the revision of a Clear keeps every entry true from that revision on |
| CacheTruth.ConsultAllSound | src/internal/remotesession/session.go:316-366 | what a true cache answers is what the owner had |
| CacheTruth.AnswersSound | src/internal/remotesession/session.go:88-147 | joining cached answers with an owner's reply of a later revision answers every key truly |
| CacheTruth.CachedFrozenForever | src/internal/remotesession/session.go:349-355 | a true entry marked frozen is the owner's attribute at every revision from UpdatedAt on |
| SessionProtocol.DoKeepsTrue | src/internal/remotesession/session.go:33-314 | every step of the protocol, by any peer or the owner, keeps all caches true, all calls in flight true, and closed caches to destroyed sessions |
| SessionProtocol.ServeTrue | src/internal/remotesession/server.go:62-260 | each of the owner's handlers answers truly and keeps the system true |
| SessionProtocol.AlwaysTrue | src/internal/remotesession/session.go:33-376 | so on every run |
| SessionGuarantees.ReadsTrueToHistory | src/internal/remotesession/session.go:75-148 | on every interleaving a successful Fetch at rev gives every key the owner's attribute at rev if rev is above all Clears this peer has completed in the namespace, and its value if rev is at least the last of them |
| SessionGuarantees.RemoteRevisionTrue | src/internal/remotesession/revision.go:32-72 | without such Clears, remote Get and GetMany return the owner's attributes at rev exactly, revision zero, where they ask nobody, included |
| SessionGuarantees.CachedFrozenAgrees | src/internal/remotesession/session.go:349-355 | a cached frozen attribute agrees with the owner at every revision from UpdatedAt on, on every continuation of the run, despite Clears |
| SessionGuarantees.FilterPreservesUpdate | src/internal/remotesession/session.go:169-193 | sending only what the cache does not know has the same verdict and leaves the same owner table as sending everything, unless this peer has cleared the namespace at that revision |
| SessionGuarantees.FilterPreservesUpdateIff | src/internal/remotesession/session.go:169-193 | whatever Clears there were, a filtered update has the full one's outcome, success or failure, unless the owner accepts it and an attribute left out is frozen there: exactly then it differs |
| SessionGuarantees.RejectedUpdateIsJustified | src/internal/remotesession/session.go:159-189 | an update the cache rejects without asking would be rejected by the owner, now and on every continuation |
| SessionGuarantees.RejectedClearIsJustified | src/internal/remotesession/session.go:235-253 | the same for a clear |
| SessionGuarantees.RejectedDestroyIsJustifiedIff | src/internal/remotesession/session.go:291-299 | a destroy rejected as stale would be rejected; one rejected as not found would be exactly if the session has left the owner's store or the revision is not its last |
| CacheContents.FetchAbsorbs | src/internal/remotesession/session.go:104-141 | after a fetch reply at f, what was fetched at f or later stays, what the reply lacks stays, every other key holds the reply's first attribute for it, fetched at f; other namespaces are untouched |
| CacheContents.UpdateAbsorbs | src/internal/remotesession/session.go:204-219 | the same after an update reply |
| CacheContents.ClearBlanksOlder | src/internal/remotesession/session.go:268-276 | after a Clear at u, exactly the entries fetched before u are empty and fetched at u, with the flag and stamps they had |
| CacheContents.CacheNeverOlder | src/internal/remotesession/session.go:106-116 | on every run, whatever the order of replies, a cached key stays cached, its FetchedAt never falls, and the entry changes only when it rises |
| CacheContents.FirstOfIsFirst | src/internal/remotesession/session.go:106-116 | which attribute of a reply is the first for its key |
| RemoteVerdicts.FetchLocalVerdict | src/internal/remotesession/session.go:316-366 | stale exactly if some key existed and was written since; else not found exactly if the session is closed and the cache cannot tell some key; else the answers are exactly what the cache covers, and the rest is asked for |
| RemoteVerdicts.StartUpdateVerdict | src/internal/remotesession/session.go:159-191 | which verdict an update gets without the owner, and that exactly the attributes not held as asked for are sent |
| RemoteVerdicts.StartOthersVerdict | src/internal/remotesession/session.go:235-253 | the same for clear, destroy and head |
| RemoteVerdicts.FinishFetchVerdict | src/internal/remotesession/session.go:88-147 | a fetch fails with the reply's error, or as stale exactly if an attribute of the reply is; else returns what was solved and what existed at the revision |
| RemoteVerdicts.FinishUpdateVerdict | src/internal/remotesession/session.go:193-224 | an update succeeds exactly if the reply does, with the higher of the two revisions, and fails with the reply's own error; not found closes the session |
| RemoteVerdicts.FinishClearVerdict | src/internal/remotesession/session.go:257-281 | the same for a clear |
| RemoteVerdicts.FinishHeadVerdict | src/internal/remotesession/session.go:43-73 | the same for Head; At records the revision unless the session is closed |
| RemoteVerdicts.FinishDestroyVerdict | src/internal/remotesession/session.go:303-313 | a destroy has the reply's verdict, and closes the session exactly on success |
| RemoteVerdicts.FetchedIsCached | src/internal/remotesession/session.go:106-116 | the cache has an answer, at the revision asked for, for every attribute of a reply it has absorbed |
| RemoteVerdicts.ServeVerdict | src/internal/remotesession/server.go:111-260 | the handlers pass on the owner's verdict while the session is in the store, and say not found after that |
| RemoteVerdicts.ServeReadVerdict | src/internal/remotesession/server.go:62-109 | a fetch is answered with the head and exactly the attributes asked for that exist |
| RemoteVerdicts.UpdateReturnsCommitted | src/internal/remotesession/session.go:193-224 | on every run, an update that returns success was committed by the owner against the revision asked for: the next one holds each attribute as asked for last and differs in nothing else; an error is the reply's |
| RemoteVerdicts.ClearReturnsCommitted | src/internal/remotesession/session.go:257-281 | the same for a clear, whose revision differs from the one asked for in being empty in the namespace |
| RemoteVerdicts.DestroyReturnsDestroyed | src/internal/remotesession/session.go:303-313 | a destroy that returns success leaves the owner's session destroyed |
| RemoteVerdicts.CreatedStampIsExact | src/internal/remotesession/server.go:152-159 | an attribute sent with an update at u and read below u is empty for the cache exactly if the key did not exist there, stale exactly if it did |
| RemoteVerdicts.ReadBeforeUpdate | src/internal/remotesession/client.go:148-158 | so it is on every run, once the reply has been absorbed |
| SessionGuarantees.BlankedReadIff | src/internal/remotesession/session.go:270-275 | the same for any history and entry |
| SessionGuarantees.ReadBelowClearIff | src/internal/remotesession/session.go:270-275 | after a Clear at u the cache answers "" at every revision from UpdatedAt to u. Up to the old FetchedAt that is right exactly if the old answer was right and empty; after it, exactly if the last write up to that revision, or else the cached value, was empty. It is right from the owner's last write on, and at the revision the Clear was made against exactly then |
| StampedClear.EveryReadHasTrueValues | src/internal/remotesession/session.go:270-275 | if a Clear also moved UpdatedAt: on every run, every successful Fetch at any revision returns the owner's values at that revision |
| StampedClear.DoKeepsConstant | src/internal/remotesession/session.go:33-314 | every step of the protocol so changed keeps each cached value constant on [UpdatedAt, FetchedAt] |
| StampedClear.StampKeepsConstant | src/internal/remotesession/session.go:268-276 | so does the blanking itself, for any cache and any Clear |
| SessionGuarantees.StaleAfterUpdateIff | src/internal/remotesession/client.go:150-157 | reading an updated key at any earlier revision at which it existed is stale for the cache, and for the owner exactly if the update changed it or it had been written after that revision already |
| SessionGuarantees.RepeatedKeysIff | src/internal/remotesession/session.go:206-215 | with repeated keys, the cached attribute is the owner's exactly if the first element with that key equals the last |
| SessionGuarantees.StampMovesIff | src/internal/localsession/session_state.go:74-86 | an update leaves a listed attribute as it is with its stamps if that is what was asked for, and otherwise stamps it with the new revision and its old CreatedAt |
| SessionCounterexamples.ReadBelowClearCanBeWrong | src/internal/remotesession/session.go:268-276 | a reachable state in which the cache answers a read below a Clear, at a revision it had fetched, with a wrong value |
| SessionCounterexamples.ReadBetweenFetchAndClearCanBeWrong | src/internal/remotesession/session.go:268-276 | the same at a revision it had not fetched and could not answer before the Clear |
| SessionCounterexamples.StaleReadCanBeSpurious | src/internal/remotesession/client.go:150-157 | a reachable state in which the cache calls a read stale that the owner would answer |
| SessionCounterexamples.RepeatedKeysCanDiffer | src/internal/remotesession/session.go:206-215 | an update of one key to two values after which the owner has the second and the cache the first |
| SessionCounterexamples.NotFoundAfterDestroyKeepsOpen | src/internal/remotesession/session.go:303-306 | a reachable state in which a destroy comes back as not found and the cached session stays open |
| SessionCounterexamples.NotFoundClosesUnlessDestroy | src/internal/remotesession/session.go:368-376 | the same reply to a fetch, head, update or clear closes it |
| SessionCounterexamples.EmptyRemoteUpdateMakesRevision | src/internal/remotesession/revision.go:74-83 | on every run, an empty update at the head is sent to the owner and makes a revision that differs from the last in nothing |
| SessionCounterexamples.FilterAfterClearCanDiffer | src/internal/remotesession/session.go:183-185 | a reachable state in which a filtered update succeeds and the full one fails |
| SessionCounterexamples.SecondDestroyIsRejected | src/internal/remotesession/session.go:291-293 | a reachable state in which the cache rejects a destroy that the owner accepts |
| RemoteSession.CachedSession.UpdateState | src/internal/remotesession/session.go:368-376 | the observed revision only ever rises, and only *not found* closes |
| RemoteSession.CachedSession.BeginHead | src/internal/remotesession/session.go:33-43 | fails exactly on a closed session |
| RemoteSession.CachedSession.FinishHead | src/internal/remotesession/session.go:45-58 | the new cache and the highest revision known |
| RemoteSession.CachedSession.At | src/internal/remotesession/session.go:60-73 | records the revision unless the session is closed |
| RemoteSession.CachedSession.BeginFetch | src/internal/remotesession/session.go:316-366 | the loop over the cache answers as its specification |
| RemoteSession.CachedSession.FinishFetch | src/internal/remotesession/session.go:90-147 | the loop that stores and answers at once equals storing all and answering all, also when it finds a stale one |
| RemoteSession.CachedSession.BeginUpdate | src/internal/remotesession/session.go:156-191 | the filtering loop as its specification |
| RemoteSession.CachedSession.FinishUpdate | src/internal/remotesession/session.go:195-224 | the new cache and result |
| RemoteSession.CachedSession.BeginClear | src/internal/remotesession/session.go:232-255 | in any order of iteration, rejects exactly if a frozen value is known |
| RemoteSession.CachedSession.FinishClear | src/internal/remotesession/session.go:259-281 | in any order of iteration, blanks exactly the entries older than the Clear |
| RemoteSession.CachedSession.BeginDestroy | src/internal/remotesession/session.go:288-301 | rejects closed sessions and outdated revisions |
| RemoteSession.CachedSession.FinishDestroy | src/internal/remotesession/session.go:303-313 | closes the session on success only |
| RemoteSession.PlaceAnswers | src/internal/remotesession/revision.go:52-71 | the two loops of GetMany as their specification |
| RemoteSession.HandleFetch | src/internal/remotesession/server.go:90-101 | the owner's answer: its head and the requested attributes that exist |
| RemoteSession.CommitUpdate | src/internal/remotesession/server.go:139-150 | the owner commits the update or passes on the error |
| RemoteSession.ReadCreated | src/internal/remotesession/server.go:152-159 | CreatedAt of each key in the table as it is by then, zero for none |
| RemoteSession.StampAttrs | src/internal/remotesession/client.go:148-158 | each attribute with its CreatedAt and the new revision |
| RemoteSession.Client.NextMessageID | src/internal/remotesession/client.go:262-272 | the incremented sequence |
| Ident.MessageRoundTrip | src/rinq/ident/message_id.go:16-86 | parsing a printed message ID gives it back exactly if its clock, random component and sequence are not zero, for all 64-, 16- and 32-bit fields |
| Ident.SessionRoundTrip | src/rinq/ident/session_id.go:28-94 | the same for session IDs, without the sequence; their pattern is open at the end |
| Ident.PrintMessageInjective | src/rinq/ident/message_id.go:76-78 | different message IDs are printed differently |
| Ident.ParseMessageIff | src/rinq/ident/message_id.go:16-59 | the pattern matches exactly the strings that can be split into five fields; an accepted string is its fields joined |
| Ident.PrintRoundTrip | src/rinq/ident/peer_id.go:75-81 | digits of any number, in either base, read back as that number |
| Ident.PadRoundTrip | src/rinq/ident/peer_id.go:66-71 | zero padding does not change what a numeral reads as |
| Ident.PadMakesFour | src/rinq/ident/peer_id.go:66-71 | padding makes at least four characters, with zeros in front |
| Ident.NoLeadingZero | src/rinq/ident/peer_id.go:75-81 | numbers are printed without leading zeros |
| Ident.CaseDoesNotMatter | src/rinq/ident/message_id.go:19-33 | hexadecimal digits are read in either case |
| Ident.PrintedPeerForm | src/rinq/ident/peer_id.go:73-81 | the documented form of a peer ID, and the padding of a short one |
| Ident.PrintedMessageForm | src/rinq/ident/message_id.go:76-86 | the form of session and message IDs, separators included |
| MessageIds.NeverRepeats | src/internal/remotesession/client.go:262-272 | on every run of a peer, no two message IDs of its sessions and its client are equal or printed alike, and all parse back |
| MessageIds.DoKeepsValid | src/internal/localsession/session_state.go:201-203 | every ID given out is on record with its session, and records never repeat |
| Services.ClosedOnce | src/internal/service/statemachine.go:80-105 | on every run of Stop, GracefulStop and the end of Run, no channel is closed twice, and once finalized all three are closed |
| Services.ClosedIff | src/internal/service/statemachine.go:80-105 | which calls close which channel: a graceful stop counts exactly if no forceful one came before |
| Services.StateMachine.Stop | src/internal/service/statemachine.go:80-90 | closes Forceful if it is open, and nothing else |
| Services.StateMachine.GracefulStop | src/internal/service/statemachine.go:93-105 | closes Graceful if neither channel is closed, and nothing else |
| Services.StateMachine.Close | src/internal/service/statemachine.go:171-196 | closes all that are open, without closing any twice |
| Services.StateMachine.Run | src/internal/service/statemachine.go:49-65 | runs states up to the first that has no next or fails, keeps what the finalizer makes of its error, and then closes the channels |
| Commands.AlwaysValid | src/internal/service/statemachine.go:114-169 | the invariant below, on every run |
| Commands.RunsOnce | src/internal/service/statemachine.go:114-138 | a function runs at most once; a caller told an outcome is told what its function returned, as the events of the run have it; one told ErrStopped minded a closed channel, and its function has run or is running exactly if the machine had taken the request |
| Commands.OutcomesAreExecuted | src/internal/service/statemachine.go:166-169 | what is recorded for a caller is what was executed for it, by the events alone |
| Commands.ReplyNeverBlocks | src/internal/service/statemachine.go:166-169 | the reply channel is empty when Execute sends on it, whether or not anyone still waits |
| Commands.WaitsIff | src/internal/service/statemachine.go:128-163 | an unfinished caller cannot return exactly while its function runs, or its request is not taken, and no channel it minds is closed; after the end everyone can |
| InvokerProtocol.AlwaysValid | src/rinqamqp/internal/commandamqp/invoker.go:264-395 | the invariant below, on every run of callers, invoker and broker |
| InvokerProtocol.OwnReplyOnce | src/rinqamqp/internal/commandamqp/invoker.go:469-480 | the pending table is exactly the tracked calls neither answered nor cancelled; each channel is sent to and closed at most once; a reply reaches only the caller whose ID is its routing key |
| InvokerProtocol.RepliesHaveArrived | src/rinqamqp/internal/commandamqp/invoker.go:454-480 | on every run, a reply a caller is given or has waiting is a correlated response the broker has delivered, unchanged |
| InvokerProtocol.ActionOutcome | src/rinqamqp/internal/commandamqp/invoker.go:358-395 | a caller comes away with the reply it received, or a failure if it gave up or could not publish, and keeps that to its return |
| InvokerProtocol.SendNeverBlocks | src/rinqamqp/internal/commandamqp/invoker.go:469-477 | the channel of a pending call is empty and open when a reply is handled; afterwards it holds that reply and the entry is gone |
| InvokerProtocol.CloseNeverFails | src/rinqamqp/internal/commandamqp/invoker.go:476-477 | whatever the caller does between the send and the close, the channel is still open at the close |
| InvokerProtocol.DrainShrinks | src/rinqamqp/internal/commandamqp/invoker.go:298-316 | while draining, the pending table gains nothing and loses exactly the call that a reply or cancellation settles |
| InvokerProtocol.PhaseChanges | src/rinqamqp/internal/commandamqp/invoker.go:264-324 | from running to draining only on a graceful stop; to closing only on a forceful stop or from a drain with an empty table; to the end only when the channel is closed or reported closed |
| InvokerProtocol.SignalsFollow | src/internal/service/statemachine.go:80-105 | the channels the invoker sees are closed as the state machine closes them, and by nothing else |
| InvokerProtocol.StepIff | src/rinqamqp/internal/commandamqp/invoker.go:371-395 | an unfinished caller has a step unless it is blocked on its cancellation while the invoker selects nothing and Forceful is open |
| InvokerProtocol.OnlyOwnSteps | src/rinqamqp/internal/commandamqp/invoker.go:334-396 | only a caller's own steps move it, and each brings it closer to its return |
| InvokerProtocol.NeverWedged | src/rinqamqp/internal/commandamqp/invoker.go:371-380 | on every run, neither an unfinished caller nor the invoker has a step exactly if the invoker awaits the broker, Forceful is open and the caller is blocked on its cancellation; otherwise the caller has one, or the invoker has one that brings it closer to closing Forceful; once stopped, every caller has a step |
| InvokerProtocol.DistanceNeverGrows | src/rinqamqp/internal/commandamqp/invoker.go:264-324 | the invoker never returns to an earlier state, and Forceful stays closed |
| InvokerProtocol.AwaitingBrokerBlocks | src/rinqamqp/internal/commandamqp/invoker.go:276-279 | a reachable state of that kind: a caller blocked on its cancellation, with no step enabled for it or for the invoker |
| PendingCalls.FirstConcernDecides | src/rinqamqp/internal/commandamqp/invoker.go:298-316 | a pending call is answered with the first input about it if that is a reply, cancelled if it is a cancellation, and open if there is none |
| PendingCalls.Pending.Track | src/rinqamqp/internal/commandamqp/invoker.go:269-270 | the call's channel is in the table under its ID, in place of any other |
| PendingCalls.Pending.Cancel | src/rinqamqp/internal/commandamqp/invoker.go:272-273 | one pending call less, its channel untouched |
| PendingCalls.Pending.ReplySync | src/rinqamqp/internal/commandamqp/invoker.go:469-480 | acknowledges exactly the replies to pending calls; such a reply is in the call's channel, which is closed, and all other channels are as they were |
| PendingCalls.Pending.Graceful | src/rinqamqp/internal/commandamqp/invoker.go:295-319 | after the drain each call that was pending has its fate: unanswered and still there, cancelled, or answered by its first reply; the table is empty exactly if each call was the concern of an input taken; and why the drain ended |
| Responses.FirstDecides | src/rinqamqp/internal/commandamqp/response.go:69-140 | only the first call on a response has any effect |
| Responses.PublishedIff | src/rinqamqp/internal/commandamqp/response.go:69-175 | at most one message is published: the first call's, exactly if that came before finalize, a reply is wanted, the deadline has not passed and the broker can be reached |
| Responses.PublishedKindIff | src/rinqamqp/internal/commandamqp/response.go:69-119 | what is published is a failure with the text exactly if the first call was Error with it, and a success exactly if it was Done with it, or Close and the text is empty |
| Responses.PanicsIff | src/rinqamqp/internal/commandamqp/response.go:73-114 | the first call panics exactly if it must publish and the broker cannot be reached, any later one exactly if it is not Close |
| Responses.AnsweredIff | src/rinqamqp/internal/commandamqp/response.go:121-132 | finalize finds the response closed exactly if the handler made any call |
| Responses.WantedIff | src/rinqamqp/internal/commandamqp/response.go:42-60 | IsRequired is true exactly if a call now would publish, the broker being reachable |
| Responses.Response.Done | src/rinqamqp/internal/commandamqp/response.go:69-80 | panics exactly on a closed response or, having to publish, an unreachable broker; publishes a success with the payload exactly if it is the first call, a reply is wanted and can be sent |
| Responses.Response.Error | src/rinqamqp/internal/commandamqp/response.go:82-93 | the same with a failure |
| Responses.Response.Close | src/rinqamqp/internal/commandamqp/response.go:106-119 | true exactly if the response was open |
| Responses.Response.Finalize | src/rinqamqp/internal/commandamqp/response.go:121-132 | closes without publishing, and tells whether it was closed before |
| Responses.Response.IsRequired | src/rinqamqp/internal/commandamqp/response.go:42-60 | open, wanted and in time |
| CommandServer.AlwaysValid | src/rinqamqp/internal/commandamqp/server.go:220-433 | the invariant below, on every run |
| CommandServer.PendingExact | src/rinqamqp/internal/commandamqp/server.go:228-229 | the counter is the number of started requests whose decrement has not run, and no decrement underflows |
| CommandServer.SettledOnce | src/rinqamqp/internal/commandamqp/server.go:322-433 | no message is settled twice; when its goroutine is done it has been acked exactly if the handler answered and rejected otherwise; at most one response is published, and only for an acked request |
| CommandServer.PhaseChanges | src/rinqamqp/internal/commandamqp/server.go:220-302 | every error of the broker ends the server, and nothing else does but a forceful stop or a drain at zero |
| CommandServer.SignalsFollow | src/internal/service/statemachine.go:80-105 | the channels the server sees are closed as the state machine closes them, and by nothing else |
| CommandServer.DrainedMeansSettled | src/rinqamqp/internal/commandamqp/server.go:285-302 | a server that stopped by draining has settled and counted down every request it started |
| CommandServer.GracefulStopFinishes | src/rinqamqp/internal/commandamqp/server.go:248-302 | without a forceful stop and without errors, the server finishes only at zero, with every started request settled once |
| CommandServer.SettledCanFinish | src/rinqamqp/internal/commandamqp/server.go:323-326 | a goroutine that has settled its message can run its decrement or give up, or the server has a step that leads there |
| CommandServer.DrainNeverStalls | src/rinqamqp/internal/commandamqp/server.go:285-302 | once all handlers have returned, a draining server can always execute a decrement, or is done |
| CommandServer.Dispatch | src/rinqamqp/internal/commandamqp/server.go:322-433 | the message is settled once: acked exactly if the handler made a call, else rejected, and requeued exactly if load-balanced and either nobody listens or the handler left it unanswered in time; the first call decides what is published, if anything can be |
| CommandServer.Server.WaitForHandlers | src/rinqamqp/internal/commandamqp/server.go:285-302 | counts down the decrements it receives, rejects every message it receives and none other, and why it ended |
| Listening.AlwaysExact | src/rinqamqp/internal/notifyamqp/listener.go:82-204 | on every run the count of a namespace is the number of sessions with a handler for it, and both bindings exist exactly if that is positive |
| Listening.NeverUnderflows | src/rinqamqp/internal/notifyamqp/listener.go:179-181 | whenever a listening session stops, the unsigned count falls by exactly one |
| Listening.HandlersAreLatest | src/rinqamqp/internal/notifyamqp/listener.go:87-124 | a session's handler for a namespace is the last one set and not removed since |
| Listening.BoundIff | src/rinqamqp/internal/notifyamqp/listener.go:150-204 | a namespace is bound exactly if some session's last word on it was to listen |
| Listening.UnlistenAllKeepsExact | src/rinqamqp/internal/notifyamqp/listener.go:132-148 | removing a session, in any order of its namespaces, keeps all counts and bindings exact |
| Listening.Listener.Listen | src/rinqamqp/internal/notifyamqp/listener.go:82-106 | the whole new state; added exactly if there was no handler; exactness is kept |
| Listening.Listener.Unlisten | src/rinqamqp/internal/notifyamqp/listener.go:108-130 | the whole new state; removed exactly if there was a handler; exactness is kept |
| Listening.Listener.UnlistenAll | src/rinqamqp/internal/notifyamqp/listener.go:132-148 | visits each of the session's namespaces once, and keeps exactness |
| Listening.Listener.Bind | src/rinqamqp/internal/notifyamqp/listener.go:150-177 | the count rises; the first listener makes both bindings |
| Listening.Listener.Unbind | src/rinqamqp/internal/notifyamqp/listener.go:179-204 | the count falls; the last listener removes both bindings |
| Payloads.AlwaysValid | src/rinq/payload.go:37-174 | the invariant below, on every run over any number of payloads and handles |
| Payloads.FreedOnce | src/rinq/payload.go:158-174 | the reference count is the number of open handles; the buffer has been given back exactly once if there are none, and never before |
| Payloads.BuffersUnshared | src/rinq/payload.go:96-116 | a buffer in use is neither in the pool nor used by another payload, and no buffer is in the pool twice |
| Payloads.ReadsAreOrigin | src/rinq/payload.go:96-154 | Bytes and Value return the encoding and the value of what the payload was made from, whatever other handles do and whichever buffers are reused |
| Payloads.BytesAndValueAgree | src/rinq/payload.go:96-154 | given a codec round trip, what Bytes returns decodes to what Value returns |
| Payloads.OriginIsFixed | src/rinq/payload.go:73-84 | only its own Close changes what a handle points to, and nothing changes what that was made from |
| Payloads.NewHandles | src/rinq/payload.go:37-84 | a new handle stands for the value or the bytes it was made from, no bytes at all are nil, and a clone stands for the same payload or, of a closed handle, for nil |
| Payloads.ClosedIsNil | src/rinq/payload.go:158-174 | a closed handle reads as nil, and closing it again does nothing |
| PayloadHandles.Payload.Clone | src/rinq/payload.go:73-84 | nil for nil; otherwise one more handle on the same data |
| PayloadHandles.Payload.GetBytes | src/rinq/payload.go:96-116 | the encoding of what the payload was made from, or nil; the pool gives away one buffer, to a payload that had none, and else stays as it is |
| PayloadHandles.Payload.GetValue | src/rinq/payload.go:135-154 | nil for a closed handle; else the value of what the payload was made from, or a panic if it does not decode |
| PayloadHandles.Payload.Close | src/rinq/payload.go:158-174 | one handle less; the buffer goes to the pool exactly if it was the last |
| PayloadHandles.Payload.New | src/rinq/payload.go:37-54 | one handle on the value |
| PayloadHandles.Payload.NewFromBytes | src/rinq/payload.go:59-70 | nil for no bytes; otherwise one handle on them |
| PayloadHandles.Pool.Get | src/rinq/payload.go:111-112 | an empty buffer that is not in the pool |
| PayloadHandles.Pool.Put | src/rinq/payload.go:171-173 | the emptied buffer is in the pool once |
| Constraints.EvalIsMeaning | src/internal/attributes/catalog_matcher.go:16-66 | the matcher with its early returns decides the recursive boolean meaning of every well-formed constraint, and does not panic |
| Constraints.ConstructorsMakeWellFormed | src/rinq/constraint/constraint.go:68-145 | whatever the constructors build from well-formed parts is well-formed |
| Constraints.LeavesMean | src/rinq/constraint/constraint.go:68-118 | the verdicts of None, Equal, NotEqual, Empty and NotEmpty; an attribute that does not exist is empty |
| Constraints.NotMeans | src/rinq/constraint/constraint.go:120-127 | Not reverses the verdict, and twice restores it |
| Constraints.ListsMean | src/rinq/constraint/constraint.go:72-145 | And and Within hold exactly if every term does, Or exactly if some term does, terms of Within being evaluated in its namespace |
| Constraints.ConstructorsMention | src/rinq/constraint/constraint.go:68-145 | which attributes each constructor's constraint mentions: keys belong to the nearest enclosing Within |
| Constraints.OnlyMentionedMatter | src/internal/attributes/catalog_matcher.go:31-39 | the verdict, panics included, depends only on the values of the attributes mentioned under the Within scoping; absent and empty are the same |
| Constraints.UpdateMatters | src/internal/localsession/session_state.go:71-97 | a successful update changes the verdict only if its diff has a mentioned attribute |
| Constraints.ClearMatters | src/internal/localsession/session_state.go:129-148 | a clear changes the verdict only if it blanks a mentioned attribute |

## Left out

- AMQP exchanges, queues, channel pools and dialing: the broker is a bag of deliveries and a set of bindings.
- Logging, tracing, trace IDs, options and environment parsing: no state worth proving.
- CBOR and JSON encoding: an arbitrary codec stands for them; partial results of a failed decode are not modelled.
- Wall-clock time: a deadline may pass at any moment.
- Mutexes: a lock-held region is one step; the gaps between them are real interleaving points.
- Constraint printing and validation, aggregate revision stores, closed revisions, peer wiring: easy members only.
- Uncorrelated responses: the invoker's asynchronous handlers do not touch the pending table.
- The settlement of notifications: the listener rejects an invalid message ID and carries on, so it has no settle-once law.
- A failing broker bind or unbind: the counts are then ahead of the bindings until the AMQP channel is closed.
- Handlers that panic or never return: a panic ends the process; a request whose handler never returns is never settled.
- SessionGuarantees.ReadsTrueToHistory: states nothing about reads below this peer's last completed Clear; `ReadBelowClearIff` says what holds there instead.
- SessionGuarantees.RemoteRevisionTrue: does not say that a read succeeds, because the cache may call an attribute stale that the owner could still answer (`StaleAfterUpdateIff`).
- InvokerProtocol.NeverWedged: is about enabled steps, not about a schedule that takes them.
- CommandServer.PendingExact: the counter is unbounded upwards; 2^64 requests at once are not modelled.
