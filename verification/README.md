# A load-balancing TON client: model and proofs

The repository's client spreads requests over many lite servers. An actor keeps a
record of each worker (alive, archival, retries), chooses workers for a request,
and shares one caller's promise among them; an HTTP worker builds longer
sequences on top: contract get-methods, chunked histories, searches, token checks.
This project models that core and proves what its steps keep, over every
interleaving and every behaviour of the servers.

Lite servers, networks and clocks are the environment. Where a result depends on
what servers do, the assumption is a named predicate: `Transactions.Serves`,
`BlockTransactions.Serves` (pieces of the chain or block, never longer than
asked, not empty while more remains), `ContractIds.Fits` (an answer has its call's
kind) and `ContractIds.FreshIds` (a worker does not issue an id it has in use).
Everything else a server may do as it likes: fail, answer late, answer in any
order, return less.

| file | what it models |
|---|---|
| `Results.dfy`, `Sets.dfy` | options, errors, results; sizes of sets |
| `PromiseSuccessAny.dfy` | the promise shared by the workers of one request |
| `ClientWrapper.dfy` | one worker's table of outstanding requests |
| `Delivery.dfy` | the whole fan-out: loop, mailboxes, tables, shared promise |
| `WorkerPool.dfy` | request parameters, sessions, selection of workers |
| `Liveness.dfy` | the timed watch over workers |
| `ContractIds.dfy` | the contracts that workers hold loaded, as the log of a run gives them |
| `SendRequest.dfy` | one request with archival retry, and who received which id |
| `Contracts.dfy` | load, get-methods, forget, the token checks |
| `Transactions.dfy` | an account's history in chunks |
| `BlockTransactions.dfy`, `Lexicographic.dfy` | a block's transactions in chunks |
| `Locate.dfy` | finding a transaction by its message |
| `Content.dfy` | snake and chunked content |
| `RequestKey.dfy`, `ResponseCache.dfy` | requests as cache keys, and the cache |

Code that changes state is modelled by classes (`ControlBlock`, `Wrapper`,
`Session`, `MultiClientActor`, `Cluster`, `Handler`) and methods with loops. Each
method is tied to a step function or to a specification of its own, and the results
over whole runs are lemmas about those.

## Where the code is not what one might expect

- "Any success wins" fails when a worker answers before the actor has issued the
  next sub-promise (`EarlyFailureBeatsLaterSuccess`). What holds on every
  interleaving is `OutcomeIsFirstDecision` and `ErrorIffSomePrefixAllFailed`; the
  plain form holds when all issues come first (`IssuesFirstMeansAnySuccessWins`).
- `Multiple` mode with `lite_server_indexes` is valid only without
  `clients_number`, whose value is then read: the request ends in an exception
  whenever any worker is eligible (`MultipleByIndexesNeverSelects`).
- Ids of callback requests are not kept apart from tracked ids
  (`CallbackIdsCanCollide`). Safe in every run are exactly the ids below 100
  (`AlwaysSafeIdsAre`); safe from some moment on is every id that has been given
  out and answered (`FreedIdsReachTheCallback`).
- Load and forget do not always leave the workers' tables as they were. A failing
  path keeps the contract loaded (`FailedRunLeavesTheContract`); a forget that is
  retried may go to another worker, where it takes whatever has the same number,
  and misses the issuer although the call is Ok (`RetriedForgetMissesTheIssuer`).
  `runGetMethod` and the four checks state exactly when the tables are restored:
  over the log, for any session (`Balanced`), and through one worker also by the
  outcome of each contract they handle (`GivenBack`, `Phase`).
- With several workers in a session, a load leaves an id on each of them and the
  caller forgets one (`TwoWorkerLoadLeavesAnIdBehind`); every load and forget
  restores the tables exactly when there is one worker
  (`AlwaysRestoredExactlyByOneWorker`). Calls that name the id reach its issuer but
  others too (`UsesReachTheIssuer` says exactly when).
- Retries are counted only after a late alarm, so with timely alarms the cap never
  takes effect (`TimelyAlarmsNeverGiveUp`); after one late alarm timely ones count
  too (`OneLateAlarmIsEnough`). What is counted, and so when a worker is given up,
  is `RetryCountIsDueAlarms`.
- `tryLocate*` passes the number of candidates (at least ten) where a logical time
  is expected, starts the incoming search after the cursor `("", 40)`, and tests
  the wrong result before taking a value.
- Equality of requests ignores the order of values; the hash and `GetArg` do not
  (`OrderChangesTheHash`, `EqualManyValuesMayDiffer`). Equal requests share a hash
  text exactly as `EqualRequestsSameTextExactlyWhen` says, and values with commas
  can share one although `GetArg` differs (`CommasCanMakeOneKeyOfTwo`); the cache
  then answers one request with the other's body (`OneEntryForTwoQuestions`). With a
  hash of the text that does not collide, all hits of a request are transparent
  exactly when no reordering of an argument's values reads the same and begins with
  another value (`TextHitsAreTransparentExactlyWhen`), which holds of all values
  without commas. For every hash, collisions included, they are so exactly when each
  argument has only one value, once or several times
  (`HitsAreTransparentForEveryHash`).
- When the last reply of a history names no `previous_transaction_id_`, the page
  keeps an earlier reply's cursor (`UnnamedLastReplyLeavesAnOldCursor`). The
  transactions are right all the same. Going on from the cursor with the same bound
  is right exactly when the page shows the cursor to lie behind it: the page is
  empty, or the cursor's logical time is below that of its last transaction
  (`CursorIsBehind`, in `CorrectPage`). A named cursor always does
  (`NamedCursorIsBehind`); an older one may.
- A page cut off by `to_transaction_lt` cannot always be resumed with a lower bound
  (`LowerBoundMissesTransactions`); exactly when is `PagesConcatenateExactlyWhen`. For
  a full page the test above decides it for every lower bound too.
- A history that cannot be fetched makes `tryLocate*` crash instead of reporting the
  error (`FailingHistoryCrashesTheSearch`).
- With chunk size 0 the history loop never ends, unless nothing is asked for or the
  start is the end of the chain (`ZeroChunkNeverEnds`).

## Model

| member | source | states |
|---|---|---|
| PromiseSuccessAny.ControlBlock.constructor | tonlib-multiclient/promise.h:13-24 | a new control block is the empty run: nothing issued, promise pending |
| PromiseSuccessAny.ControlBlock.GetPromise | tonlib-multiclient/promise.h:26-27 | handing out a sub-promise is the step `Issue` |
| PromiseSuccessAny.ControlBlock.AnswerSub | tonlib-multiclient/promise.h:28-39 | answering a sub-promise is the step `Answer`, whichever branch it takes |
| PromiseSuccessAny.PendingIsIssuedMinusAnswered | tonlib-multiclient/promise.h:27-30 | on every interleaving the counter is the number of sub-promises issued and not answered, and never negative |
| PromiseSuccessAny.LastFailureTest | tonlib-multiclient/promise.h:33-35 | before any success, `pending_count <= 1` in an error answer holds exactly when every sub-promise issued so far has failed |
| PromiseSuccessAny.OutcomeIsFirstDecision | tonlib-multiclient/promise.h:26-40 | on every interleaving the promise is pending exactly when no event has decided, and carries the answer of the first event that is a success or completes an all-failed prefix |
| PromiseSuccessAny.ErrorIffSomePrefixAllFailed | tonlib-multiclient/promise.h:31-37 | the caller gets an error exactly when in some prefix of the run at least one sub-promise was out and all of them had failed |
| PromiseSuccessAny.CompleteRunIsSettled | tonlib-multiclient/promise.h:26-40 | once at least one sub-promise is issued and all are answered, the promise is settled |
| PromiseSuccessAny.EarlierSubsFailedToo | tonlib-multiclient/promise.h:31-36 | an error reaches the caller only after every sub-promise issued before the one that gave it has failed too |
| PromiseSuccessAny.SettledStays | tonlib-multiclient/promise.h:33-38 | the result never changes after it is set, in any continuation |
| PromiseSuccessAny.IssuesFirstMeansAnySuccessWins | tonlib-multiclient/multi_client_actor.h:152-155 | with all issues before all answers the first success wins, and an error is delivered exactly when all fail; it is the last one |
| PromiseSuccessAny.EarlyFailureBeatsLaterSuccess | tonlib-multiclient/multi_client_actor.h:152-155 | an early failure between two issues reaches the caller although the other worker succeeds |
| ClientWrapper.Wrapper.constructor | tonlib-multiclient/client_wrapper.h:61-65 | empty table, ids from 100 |
| ClientWrapper.Wrapper.SendRequestFunction | tonlib-multiclient/client_wrapper.h:78-91 | takes an id and enters the promise: step `Track` |
| ClientWrapper.Wrapper.SendRequestJson | tonlib-multiclient/client_wrapper.cpp:140-160 | takes an id also when the text cannot be read; then the promise gets the error at once |
| ClientWrapper.Wrapper.SendCallbackRequest | tonlib-multiclient/client_wrapper.cpp:162-166 | sends under the caller's id, table unchanged |
| ClientWrapper.Wrapper.OnCbResult | tonlib-multiclient/client_wrapper.cpp:112-125 | settles and erases a tracked id, otherwise reports to the callback if there is one |
| ClientWrapper.Wrapper.OnCbError | tonlib-multiclient/client_wrapper.cpp:127-138 | the same for errors, of which a tracked promise gets the message only |
| ClientWrapper.IdsAreNeverReused | tonlib-multiclient/client_wrapper.h:82-83 | of two requests that take an id the later one takes a greater id |
| ClientWrapper.RequestsGoOutUnderTheirId | tonlib-multiclient/client_wrapper.cpp:140-160 | a request takes the next id, read or not; an entered one is sent under the id its promise waits for; an unreadable one only settles its promise, with the decoding or the parsing error |
| ClientWrapper.TableIsAwaited | tonlib-multiclient/client_wrapper.h:61-65 | in every run an id is a key exactly when a promise was entered under it and no response with it came since; keys lie in [100, next id) and hold that promise |
| ClientWrapper.ResponseRouting | tonlib-multiclient/client_wrapper.cpp:112-138 | a response settles exactly the promise whose first response it is, with its value, or with code 0 and the error's message; every other response goes to the callback as it is |
| ClientWrapper.SettledRequest | tonlib-multiclient/client_wrapper.cpp:112-160 | every settling event belongs to one request: unreadable text, or the first response to it |
| ClientWrapper.SettledAtMostOnce | tonlib-multiclient/client_wrapper.cpp:115-119 | in every run no promise is settled twice |
| ClientWrapper.UntakenIdsReachTheCallback | tonlib-multiclient/client_wrapper.cpp:122-124 | a response whose id no tracked request of the run took reaches the callback |
| ClientWrapper.AlwaysSafeIdsAre | tonlib-multiclient/client_wrapper.h:61-65 | every response with id `x` reaches the callback in every run exactly when `x` is below 100 |
| ClientWrapper.TrackedIdsGoOutOnce | tonlib-multiclient/client_wrapper.h:82-90 | with callback ids below 100 the id of an entered request goes out with that request only |
| ClientWrapper.FreedIdsStayFree | tonlib-multiclient/client_wrapper.cpp:115-119 | an id below the next one that is not in the table is never in it again |
| ClientWrapper.FreedIdsReachTheCallback | tonlib-multiclient/client_wrapper.cpp:122-137 | so every later response with it reaches the callback |
| ClientWrapper.CallbackIdsCanCollide | tonlib-multiclient/client_wrapper.cpp:162-166 | without disjoint ids a callback answer settles an unrelated promise |
| Delivery.InvariantAlways | tonlib-multiclient/multi_client_actor.h:138-156 | over all interleavings: every sub-request issued is in its worker's mailbox, in its worker's table once, or answered once; the shared promise is the run of the answers |
| Delivery.WorkerIsARun | tonlib-multiclient/client_wrapper.h:61-65 | over all interleavings each worker by itself is a run of its table |
| Delivery.AnswersAreProvided | tonlib-multiclient/client_wrapper.h:83-89 | every answer the control block sees for sub-request `k` was given by worker `session[k]`, in the first response that bears the id under which it entered sub-request `k` |
| Delivery.CallerGetsAWorkersAnswer | tonlib-multiclient/multi_client_actor.h:138-156 | for a session of at least one worker, once nothing is left to do the caller has a result, and it is what one of those workers gave in the first response with the id of its sub-request |
| Delivery.AnswerIsToThisRequest | tonlib-multiclient/client_wrapper.cpp:112-166 | with callback ids below 100 that id went out with this sub-request and nothing else, so the response answers it |
| Delivery.ResultIsFinal | tonlib-multiclient/promise.h:33-38 | a delivered result is never replaced, whatever moves follow |
| Delivery.FanOut | tonlib-multiclient/multi_client_actor.h:152-155 | the loop, with any worker moves between its rounds, is a run of the system: one sub-promise and one message for every worker of the session, in order, on one control block |
| WorkerPool.Session.SetActiveWorkers | tonlib-multiclient/session.h:19-21 | replaces the workers in place |
| WorkerPool.SelectWorkers | tonlib-multiclient/multi_client_actor.cpp:306-364 | the selection has no duplicates, only eligible workers, and what the mode asks: all in order, one, or exactly min(clients_number, eligible) |
| WorkerPool.ShuffledPrefix | tonlib-multiclient/multi_client_actor.cpp:357-358 | whatever the shuffle does, the resized list is that long, without duplicates, from the given workers |
| WorkerPool.BroadcastSelectsAll | tonlib-multiclient/multi_client_actor.cpp:312-326 | `Broadcast` selects exactly the alive workers, or exactly those of them of the kind asked for, whatever else is given |
| WorkerPool.SingleSelectsOne | tonlib-multiclient/multi_client_actor.cpp:328-335 | `Single` selects one alive worker of the kind asked for, none exactly when there is none; with one index that worker or none; with any other number of indexes none |
| WorkerPool.MultipleSelectsThatMany | tonlib-multiclient/multi_client_actor.cpp:357-359 | `Multiple` by number selects that many different alive workers of the kind asked for, or all of them if there are fewer |
| WorkerPool.GetSession | tonlib-multiclient/multi_client_actor.cpp:293-303 | a session has a non-empty selection; a given session is rebound in place, and keeps its workers when none is found |
| WorkerPool.MultipleByIndexesNeverSelects | tonlib-multiclient/multi_client_actor.cpp:338-341 | `Multiple` by server indexes never yields a worker: without a number it throws when any worker is alive and of the kind asked for, whatever the indexes; with a number too, or with neither, nobody is chosen |
| WorkerPool.SelectionIsEmptyExactlyWhen | tonlib-multiclient/request.h:24-35 | exactly when no session can be had, in terms of the records and of which of mode, indexes, number and kind are given |
| WorkerPool.GetConsensusBlock | tonlib-multiclient/multi_client_actor.cpp:279-291 | the greatest positive block number of an alive worker; an error exactly when there is none |
| Liveness.MultiClientActor.constructor | tonlib-multiclient/multi_client_actor.cpp:137-157 | workers start unknown, the first archival round is due after five seconds |
| Liveness.MultiClientActor.OnAlarm | tonlib-multiclient/multi_client_actor.cpp:160-174 | the loops of an alarm are the step `Alarm` on every worker; what alarms owe workers over a run is `AliveChecksAreAccounted` and `ArchivalChecksAreAccounted` |
| Liveness.MultiClientActor.CheckAlive | tonlib-multiclient/multi_client_actor.cpp:176-215 | every worker is skipped, retried or checked as its record says |
| Liveness.MultiClientActor.CheckArchival | tonlib-multiclient/multi_client_actor.cpp:243-273 | alive workers, or the one asked for if alive, get an archival check |
| Liveness.MultiClientActor.OnAliveChecked | tonlib-multiclient/multi_client_actor.cpp:217-241 | a reply to an alive check is the step `AliveReply` |
| Liveness.MultiClientActor.OnArchivalChecked | tonlib-multiclient/multi_client_actor.cpp:275-278 | a reply to an archival check is the step `ArchivalReply` |
| Liveness.EverySlotIsOk | tonlib-multiclient/multi_client_actor.cpp:176-241 | in every reachable state: one check in flight exactly while waiting, alive means no retries, retries at most cap + 1, an idle retried worker has a deadline |
| Liveness.GivenUpForGood | tonlib-multiclient/multi_client_actor.cpp:185-188 | an idle worker past the cap is never checked and never alive again |
| Liveness.FlagsAreLastReplies | tonlib-multiclient/multi_client_actor.cpp:226-241 | alive, its block number and archival are what the last replies that took place said |
| Liveness.AliveChecksAreAccounted | tonlib-multiclient/multi_client_actor.cpp:176-215 | over every run, from the events alone: the alive checks in flight are those owed less those answered; an alarm owes one to a worker with none in flight that never replied, or replied well, or failed ten seconds ago with at most `cap` such alarms since its last success, or failed later with none |
| Liveness.FirstChecksAreKnown | tonlib-multiclient/multi_client_actor.cpp:204-210 | a check sent by the first alarm is in flight until the first reply, and every later check knows that the first round is over |
| Liveness.ArchivalChecksAreAccounted | tonlib-multiclient/multi_client_actor.cpp:168-273 | over every run, from the events alone: the archival checks in flight are those owed less those answered; each alarm at or past the due time (five seconds after the start, then two minutes after the last round) owes one to every worker whose last reply succeeded, and a successful first reply owes one more |
| Liveness.TimelyWorkersAreFresh | tonlib-multiclient/multi_client_actor.cpp:190-193 | with alarms less than ten seconds apart each deadline lies past the next alarm |
| Liveness.TimelyAlarmsNeverGiveUp | tonlib-multiclient/multi_client_actor.cpp:184-198 | then no retry is ever counted and no worker is given up |
| Liveness.TimelyAlarmsCheckEveryone | tonlib-multiclient/multi_client_actor.cpp:200-213 | then after each alarm every worker has exactly one check in flight |
| Liveness.RetryCountIsDueAlarms | tonlib-multiclient/multi_client_actor.cpp:184-235 | over every run: the retry count is the number of alarms, since the last successful reply, that found no check in flight and the last failure ten seconds old, up to cap + 1; a worker is given up exactly when there were more than `cap` of them and no check is in flight |
| Liveness.OneLateAlarmIsEnough | tonlib-multiclient/multi_client_actor.cpp:184-235 | for every cap: one alarm ten seconds after a check that failed at once, then alarms five seconds apart, and a worker that never answers is given up |
| Liveness.SessionsStayInBounds | tonlib-multiclient/multi_client_actor.cpp:306-318 | a selection made in any reachable state names workers that were alive and of the asked kind, and stays in bounds for the rest of the run |
| SendRequest.Cluster.GetSessionFor | tonlib-multiclient/multi_client_actor.cpp:293-303 | a selection on the actor's current knowledge, recorded with it |
| SendRequest.Cluster.Exchange | tonlib-multiclient/multi_client_actor.h:138-156 | every worker of the session gets the call and only their tables change; the caller gets one worker's answer, an error only when that worker and all before it failed |
| SendRequest.SendThroughSession | ton-http-api/tonlib_worker.h:338-363 | send, and on failure rebind to an archival worker and send once more; the error of the first sending returns when the second one's code is -3 |
| SendRequest.RetryArchival | ton-http-api/tonlib_worker.h:344-363 | the archival retry: the session is rebound in place or left as it was, one more sending or none, and which error is returned |
| SendRequest.SendRequestFunction | ton-http-api/tonlib_worker.h:328-364 | the same with acquisition of a session; a given session is the one returned; one worker stays one worker |
| SendRequest.RetrySendsAtMostTwice | ton-http-api/tonlib_worker.h:338-363 | at most two sendings of the same call, and Ok exactly when one of them is answered Ok |
| SendRequest.SecondSendIsArchival | ton-http-api/tonlib_worker.h:344-354 | there is a second sending exactly when the first failed and the archival selection found somebody; it reaches only workers alive and archival at its selection |
| SendRequest.SessionHasLastSendsWorkers | ton-http-api/tonlib_worker.h:345-352 | the session is left with the workers of the last sending; without a second sending it is unchanged |
| SendRequest.SingleSendContract | ton-http-api/tonlib_worker.h:338-341 | without retry there is one sending, whose answer is the result |
| SendRequest.FailureIsOf | ton-http-api/tonlib_worker.h:338-363 | which error a failed request with retry gives: that of the last sending, of the first one when the last has code -3, or "no workers available" |
| SendRequest.RequestFails | ton-http-api/tonlib_worker.h:328-364 | every sending of a request is of its call; a failed request failed at one of them or at a selection that found nobody, and with retry at both sendings |
| SendRequest.GoodMeansUsesFollowLoads | ton-http-api/tonlib_worker.cpp:1374-1413 | what the watcher of a log decides: each call naming an id went to the same workers as the last successful load and named the id it returned |
| SendRequest.UsesReachTheIssuer | ton-http-api/tonlib_worker.cpp:1374-1413 | such a call reaches the worker that issued the id, and nobody else exactly when the load went to one worker |
| ContractIds.LoadAndForgetRestoreExactlyWhen | ton-http-api/tonlib_worker.cpp:1313-1365 | a load and a forget through the same workers restore the tables exactly when no worker issued another id than the one forgotten or held that id before |
| ContractIds.AlwaysRestoredExactlyByOneWorker | ton-http-api/tonlib_worker.cpp:1313-1365 | every such load and forget with fresh ids restores the tables exactly when the session has one worker |
| ContractIds.HeldAfterReplay | ton-http-api/tonlib_worker.cpp:1289-1365 | after any run a worker holds an id exactly when the run left it there, or it was there and the run has not taken it |
| ContractIds.RestoredExactlyWhenBalanced | ton-http-api/tonlib_worker.cpp:1289-1365 | any run restores the tables exactly when each load was followed by a forget of its id at the same worker, but for ids held before, and no id held before was forgotten for good |
| ContractIds.RestoredExactlyWhenLoadsAreUndone | ton-http-api/tonlib_worker.cpp:1289-1365 | when no id held before is touched: exactly when every load was undone where it was made |
| ContractIds.ForgetElsewhereTakesAnothersId | ton-http-api/tonlib_worker.h:344-354 | a forget at another worker than the issuer misses the id and takes the one of the same number there |
| ContractIds.TwoWorkerLoadLeavesAnIdBehind | ton-http-api/tonlib_worker.cpp:1352-1365 | with two workers load and forget do not restore the tables |
| Contracts.FindBlock | ton-http-api/tonlib_worker.cpp:1295-1312 | session and block lookup before a load: the session is of the kind asked for, or error 533; the block is the answer to a lookup of this seqno; an error comes from an empty selection or from a lookup tried twice; no id named, no table changed |
| Contracts.Request | ton-http-api/tonlib_worker.h:328-364 | one request that names no loaded contract: only its call is sent, a new session is of the kind asked for, and how it fails |
| Contracts.LoadContract | ton-http-api/tonlib_worker.cpp:1289-1351 | Ok with an id: the last sending was a load of this address through the session's workers and returned it, of the latest state without a seqno, and else at the block that an earlier lookup of that seqno in this call was answered with; a load at a block is sent once, one of the latest state is retried; an error comes from an empty selection or a failed sending; on one worker exactly that id is added to its table |
| Contracts.ForgetContract | ton-http-api/tonlib_worker.cpp:1352-1365 | with one worker, for every outcome: an Ok forget removes exactly that id from the table of the worker the session ends with, a failed one changes nothing; it fails only after both sendings failed or no archival worker was found |
| Contracts.RunLoaded | ton-http-api/tonlib_worker.cpp:1380-1424 | with a contract loaded: both calls go to its workers under its id, and the tables after every outcome |
| Contracts.RunGetMethod | ton-http-api/tonlib_worker.cpp:1366-1426 | affinity in every run; the answer and the state are those of the calls on the contract loaded here, of the latest state or at the block looked up for the seqno; an error is that of a failed sending, an empty selection or an unreadable stack; the tables are restored exactly when the log is balanced, and with one worker exactly when nothing was loaded or the call is Ok and the session ends with the issuer |
| Contracts.RestoredOverLog | ton-http-api/tonlib_worker.cpp:1366-1426 | between any two states of a cluster the tables change as the log between them says, and are restored exactly when it is balanced |
| Contracts.FailedRunLeavesTheContract | ton-http-api/tonlib_worker.cpp:1401-1405 | a run whose get-method call fails leaves the contract loaded |
| Contracts.RetriedForgetMissesTheIssuer | ton-http-api/tonlib_worker.cpp:1419-1425 | a run that is Ok but whose forget was retried: the issuer keeps the contract, the other worker loses the one of the same number |
| Contracts.OneWorkerUsesReachOnlyTheIssuer | ton-http-api/tonlib_worker.cpp:1384-1413 | without a session or with one worker in it, also after the archival retry rebound it, each call naming an id goes to the one worker that issued it |
| Contracts.ReadLoaded | ton-http-api/tonlib_worker.cpp:1590-1642 | with a token's contract loaded: its get-method goes to its workers; no token exactly when that run failed or ended with a non-zero exit code; and the tables after every outcome |
| Contracts.ReadToken | ton-http-api/tonlib_worker.cpp:1583-1642 | the first part of each check, with affinity, from the contract as of the seqno; an error or a missing token has its reason in the log; with one worker the tables are restored exactly when nothing was loaded or there is data and the session ends with the issuer |
| Contracts.CheckJettonMaster | ton-http-api/tonlib_worker.cpp:1487-1575 | affinity, fields read from the contract's own `get_jetton_data` as of the seqno; no token only when that run gave no answer, an error only from a failed selection, load or forget or an unreadable answer; and for every outcome exactly when the tables are restored |
| Contracts.CheckNftCollection | ton-http-api/tonlib_worker.cpp:1760-1838 | the same for `get_collection_data` |
| Contracts.AskParent | ton-http-api/tonlib_worker.cpp:1648-1749 | success means the parent contract, loaded here as of the seqno, named the token's own address; the parent is then still loaded; an error or a missing token has its reason in the log, or the arguments could not be built |
| Contracts.AskAddress | ton-http-api/tonlib_worker.cpp:1676-1749 | the parent's get-method goes to its workers, and its answer is the token's address, or why not |
| Contracts.VerifyWallet | ton-http-api/tonlib_worker.cpp:1648-1758 | the parent is forgotten on success, so the tables are as before |
| Contracts.TwoPhases | ton-http-api/tonlib_worker.cpp:1638-1758 | two contracts one after the other: the tables are as before exactly when each was given back, if the first forget took nothing held before |
| Contracts.PhasesAccount | ton-http-api/tonlib_worker.cpp:1638-1758 | what a check with one or two contracts does to the tables, for every outcome, by the log and by its phases |
| Contracts.WalletPhases | ton-http-api/tonlib_worker.cpp:1576-1759 | the wallet check as its phases: what was loaded, whether it was done, where the session ended |
| Contracts.CheckJettonWallet | ton-http-api/tonlib_worker.cpp:1576-1759 | affinity across both contracts; for every outcome exactly when the tables are restored, by the log and, for one worker and no id held before forgotten, by both contracts being given back; a validated wallet was vouched for by its master, both as of the seqno; an error or a missing token has its reason in the log |
| Contracts.VerifyItem | ton-http-api/tonlib_worker.cpp:1932-2057 | the same for an item and its collection |
| Contracts.ReadContent | ton-http-api/tonlib_worker.cpp:1990-2056 | the content is what the collection loaded here answered for this item; on success the collection is forgotten |
| Contracts.AskContent | ton-http-api/tonlib_worker.cpp:1990-2050 | the collection's `get_nft_content` goes to its workers for this item, and its answer is the content, or why not |
| Contracts.ItemPhases | ton-http-api/tonlib_worker.cpp:1839-2057 | the item check as its phases |
| Contracts.CheckNftItem | ton-http-api/tonlib_worker.cpp:1839-2057 | affinity across both contracts; for every outcome exactly when the tables are restored, in the same two forms; a validated item with a collection was vouched for by it and carries the content it gave, all as of the seqno; an error or a missing token has its reason in the log |
| Transactions.FetchReplies | ton-http-api/tonlib_worker.cpp:1023-1070 | the loop is a run of replies that ends the loop or fails with the server's error |
| Transactions.FetchFrom | ton-http-api/tonlib_worker.cpp:1023-1070 | for any reply lengths, and any chunk size with which the loop can end, the page is the first `count` of the transactions above `to_transaction_lt`, and going on from its cursor is right exactly when the page shows the cursor behind it; errors are servers' errors |
| Transactions.ZeroChunkNeverEnds | ton-http-api/tonlib_worker.cpp:1029-1036 | with chunk size 0, a positive count and a start inside the chain the loop goes on after any number of rounds |
| Transactions.TakeReply | ton-http-api/tonlib_worker.cpp:1040-1065 | what one reply does to the variables of the loop |
| Transactions.RunEndIsPage | ton-http-api/tonlib_worker.cpp:1029-1069 | every run of replies that ends the loop gives the specified page; its cursor stands behind all that was fetched exactly when the last reply named one, and going on from it is right exactly when it is older than the last transaction of the page or the page is empty |
| Transactions.PartsFitExactlyWhenBehind | ton-http-api/tonlib_worker.cpp:1063-1069 | for a cursor that a run returned: the page and the next one are the one page of the summed count exactly under that test, for the same bound and, after a full page, any lower one |
| Transactions.NamedCursorIsBehind | ton-http-api/tonlib_worker.cpp:1049-1051 | a cursor named by the last reply passes the test |
| Transactions.GetTransactions | ton-http-api/tonlib_worker.cpp:993-1071 | the page from where the given cursor (both lt and hash) stands, whatever the last transaction is, or else from where the account's last transaction stands; without either the lookup's error |
| Transactions.ScanChunk | ton-http-api/tonlib_worker.cpp:1040-1046 | counts the transactions above the bound, and reports whether any is not |
| Transactions.AboveIsAll | ton-http-api/tonlib_worker.cpp:1040-1046 | on a chain the prefix above the bound is all transactions above it |
| Transactions.WantedMeans | ton-http-api/tonlib_worker.cpp:1029-1069 | what is wanted, in plain terms: the piece of the chain that starts at the position, no longer than `count`, all of it above the bound, that cannot go on |
| Transactions.FetchedIsWanted | ton-http-api/tonlib_worker.cpp:1067-1069 | truncating by count gives the specified page, although the count is of transactions and the cut is of a prefix |
| Transactions.PagesConcatenateExactlyWhen | ton-http-api/tonlib_worker.cpp:1029-1069 | going on from the cursor with the same or a lower bound gives the one page of the summed count exactly when the cursor stands right behind the page or nothing after the page is above the new bound |
| Transactions.PagesConcatenate | ton-http-api/tonlib_worker.cpp:1029-1069 | with the same bound always |
| Transactions.FullPagesConcatenate | ton-http-api/tonlib_worker.cpp:1029-1069 | after a full page with any lower bound too |
| Transactions.CursorInsideThePageRepeats | ton-http-api/tonlib_worker.cpp:1063-1065 | from a cursor inside the page the next page repeats transactions |
| Transactions.UnnamedLastReplyLeavesAnOldCursor | ton-http-api/tonlib_worker.cpp:1048-1065 | a run whose last reply names no cursor: the page is right, its cursor is not |
| Transactions.GetInTwoParts | ton-http-api/tonlib_worker.cpp:993-1071 | two calls, any chunk sizes and servers, the same bound or a lower one after a full page, equal one call exactly when the first page shows its cursor behind it |
| Transactions.LowerBoundMissesTransactions | ton-http-api/tonlib_worker.cpp:1063-1069 | resuming a cut page with a lower bound loses transactions |
| BlockTransactions.GetBlockTransactions | ton-http-api/tonlib_worker.cpp:860-908 | the chunked fetch is the first min(count, remaining) transactions strictly after the cursor, without one the first `count` of a block of 32-byte accounts; `incomplete` exactly when more remain; the number left never goes below zero and falls in every round but the last |
| BlockTransactions.BothKindsAgree | ton-http-api/tonlib_worker.cpp:942-991 | the short and the extended fetch of one block return the same transactions |
| BlockTransactions.NextStart | ton-http-api/tonlib_worker.cpp:892-897 | the key of the last transaction is the cursor of the next |
| BlockTransactions.StartAfterIsFirst | ton-http-api/tonlib_worker.cpp:860-867 | the start position is the first transaction strictly after the cursor |
| BlockTransactions.FirstCursorIsFirst | ton-http-api/tonlib_worker.cpp:864-867 | 32 zero bytes with logical time 0 lie before every transaction of a block whose accounts have 32 bytes |
| Locate.PickCandidate | ton-http-api/tonlib_worker.cpp:1123-1132 | the loop computes the pick and the number of improvements |
| Locate.PickIsNewest | ton-http-api/tonlib_worker.cpp:1123-1132 | the pick is the account's transaction of greatest logical time, if any |
| Locate.PickCountsRecords | ton-http-api/tonlib_worker.cpp:1123-1132 | the number beside the pick counts the account's transactions that are later than all of the account's before them |
| Locate.Scan | ton-http-api/tonlib_worker.cpp:1142-1155 | the first transaction with the asked message, or none has it |
| Locate.SearchBlock | ton-http-api/tonlib_worker.cpp:1110-1156 | a hit lies in the block's window, a miss means the window is barren, a crash means the candidate's history could not be fetched |
| Locate.SearchShard | ton-http-api/tonlib_worker.cpp:1098-1157 | the blocks of one shard at the three logical times: a hit, or each window barren, or the first failure |
| Locate.ByIncomingMessage | ton-http-api/tonlib_worker.cpp:1073-1160 | one transaction found at the creation time or 1000000 or 2000000 later in some shard, after the cursor `("", 40)`; "not found" only after every window was barren; an error is that of the shards, a lookup or a block, a crash a history that failed |
| Locate.ByOutgoingMessage | ton-http-api/tonlib_worker.cpp:1162-1249 | the same at the creation time, over outgoing messages |
| Locate.AnswersAreSound | ton-http-api/tonlib_worker.cpp:1133-1153 | the answer is one transaction of the account's history whose incoming message has the asked source and time, or one of whose outgoing messages has the asked destination and time, at or below the newest candidate of a block looked up, and never one with logical time ten or less |
| Locate.NothingIsMissed | ton-http-api/tonlib_worker.cpp:1115-1159 | when nothing is found, no block looked up lists the account among its first forty, or the window from its newest one down holds no such message |
| Locate.FailingHistoryCrashesTheSearch | ton-http-api/tonlib_worker.cpp:1135-1140 | when only the account's server fails and each block lists the account, the search crashes |
| Content.ParseSnakeData | ton-http-api/utils.cpp:341-364 | decodes the chain's pieces within the buffer |
| Content.ParseChunksData | ton-http-api/utils.cpp:366-396 | decodes the pieces under keys 0, 1, 2, ... up to the first gap, skipping values that are no reference; an exception exactly when a broken key is reached before the buffer is full |
| Content.Concat | ton-http-api/utils.cpp:347-350 | writing at the moving pointer appends, within the buffer |
| Content.PayloadSurvivesAnyCut | ton-http-api/utils.cpp:341-364 | a payload of at most 8192 bytes comes back however it is cut into cells (TEP-64, "Data serialization") |
| Content.DecodeIsOfLongestPrefix | ton-http-api/utils.cpp:347-363 | otherwise the longest prefix of whole cells within 65536 bits is decoded; an error, "Not byte aligned", exactly when it is not |
| Content.FittingIsLongestPrefix | ton-http-api/utils.cpp:347-349 | what fits is a prefix, never more than the buffer, and longest |
| Content.DecodeFromDecodesTheRest | ton-http-api/utils.cpp:374-386 | the loop from any key on, with any buffer, decodes the cells that still fit, or raises the exception |
| Content.ChunksAreReadInOrder | ton-http-api/utils.cpp:374-396 | any dictionary, up to its first gap or broken value: the cells are decoded in the order of their keys, other values are passed over, and a broken one raises the exception exactly when all cells before it fit |
| Content.ChunksAgreeWithSnake | ton-http-api/utils.cpp:374-386 | the same pieces decode alike from a chain and from a dictionary |
| Content.ChainHoldsItsPieces | ton-http-api/utils.cpp:352-356 | any list of pieces is the content of some chain |
| Content.BytesRoundTrip | ton-http-api/utils.cpp:363-363 | bytes come back from their bits |
| Content.BytesAreWeightedBits | ton-http-api/utils.cpp:341-364 | byte `i` is the sum of the eight bits from `8 * i` on, the first of which counts 128 and the last 1 |
| Content.AlignedBitsRoundTrip | ton-http-api/utils.cpp:359-363 | aligned bits come back from their bytes |
| RequestKey.CompareRequests | ton-http-api/request.hpp:38-55 | the loop decides: same methods, same argument names, and for each the same values in any order |
| RequestKey.EqualsDecidesSameRequest | ton-http-api/request.hpp:44-53 | comparing sizes and one direction on sorted copies is full equality of multisets |
| RequestKey.EqualsIsEquivalence | ton-http-api/request.hpp:38-55 | equality is reflexive, symmetric and transitive |
| RequestKey.SortsAgreeIffSameValues | ton-http-api/request.hpp:49-52 | sorted copies are equal exactly when the multisets are |
| RequestKey.HashStream | ton-http-api/request.hpp:62-77 | the stream loop builds the text that is hashed |
| RequestKey.TextShowsTheRequest | ton-http-api/request.hpp:62-77 | the text begins with the two methods, and the name and the values of every argument stand in it |
| RequestKey.HashRespectsEqualityInOrder | ton-http-api/request.hpp:61-79 | equal requests whose values come in the same order have the same text |
| RequestKey.EqualRequestsSameTextExactlyWhen | ton-http-api/request.hpp:61-79 | two equal requests have the same text exactly when each argument's values, joined in their order, read the same |
| RequestKey.OneKeyMeansSameReadings | ton-http-api/request.hpp:61-79 | equal requests have one text to hash exactly when every argument reads the same |
| RequestKey.CommaFreeKeysAreExact | ton-http-api/request.hpp:65-75 | without commas, equal requests with one text have the same arguments in the same order |
| RequestKey.OneKeyAnswersAlikeExactlyWhen | ton-http-api/request.hpp:14-79 | all requests of one key answer every `GetArg` alike exactly when no reordering reads the same and begins with another value |
| RequestKey.CommasCanMakeOneKeyOfTwo | ton-http-api/request.hpp:67-75 | values with commas can give equal requests with one text and different `GetArg` answers |
| RequestKey.OrderChangesTheHash | ton-http-api/request.hpp:65-75 | equal requests may have different texts |
| RequestKey.EqualRequestsAgreeExactlyWhen | ton-http-api/request.hpp:14-23 | every equal request answers every `GetArg` alike exactly when all values of each argument are the same |
| RequestKey.EqualUniformRequestsAgree | ton-http-api/request.hpp:14-23 | the direction a caller uses, for one equal request |
| RequestKey.SetArgAnswers | ton-http-api/request.hpp:31-36 | setting an argument changes the answer for it only, and keeps a request uniform |
| RequestKey.EqualManyValuesMayDiffer | ton-http-api/request.hpp:14-23 | a pair of equal requests with different `GetArg` answers |
| ResponseCache.Handler.Lookup | ton-http-api/handler_api_v2.cpp:184-194 | a hit exactly when an entry is found; it is added to a history in which every hit repeats an earlier stored answer |
| ResponseCache.Handler.Complete | ton-http-api/handler_api_v2.cpp:195-209 | after a miss, whatever other requests did meanwhile, the answer produced is added to that history; it becomes the one entry of its key exactly when it is ok with positive ttl, otherwise the entries stay as they are; the status is 200 if ok, 500 for error codes 0 and -3, and else the code |
| ResponseCache.Handler.HandleRequest | ton-http-api/handler_api_v2.cpp:183-210 | a request interleaved with lookups and completions of others and evictions keeps the history good and answers from it |
| ResponseCache.Handler.Get | ton-http-api/handler_api_v2.cpp:185-187 | a hit is the value of an entry with the same hash and an equal key |
| ResponseCache.Handler.Put | ton-http-api/handler_api_v2.cpp:206-208 | the request has one entry afterwards, the others stay |
| ResponseCache.Handler.Evict | ton-http-api/handler_api_v2.cpp:185-185 | entries may vanish at any time without harm |
| ResponseCache.HitsAreTransparent | ton-http-api/handler_api_v2.cpp:185-208 | over every run, a hit for a request whose arguments have one value each, once or several times, is the body produced, ok and with positive ttl, for the same methods and `GetArg` answers, with ":c" once on "@extra" |
| ResponseCache.CommaFreeHitsAreTransparent | ton-http-api/handler_api_v2.cpp:185-208 | with a hash under which different texts do not collide, so is every hit of a request without commas, with any number of values |
| ResponseCache.TextHitsAreTransparentExactlyWhen | ton-http-api/handler_api_v2.cpp:185-208 | with such a hash of the text, every hit of a request in every run is transparent exactly when no reordering of an argument's values reads the same and begins otherwise |
| ResponseCache.OneEntryForTwoQuestions | ton-http-api/handler_api_v2.cpp:185-208 | a run of the cache, with any hash of the text, in which a request is answered with the body produced for another question |
| ResponseCache.HitsAreTransparentForEveryHash | ton-http-api/handler_api_v2.cpp:185-208 | every hit of a request in every run for every hash, also one that collides, is transparent exactly when its arguments have one value each, once or several times |

## Left out

- Sessions shared by concurrent requests: a session is passed from call to call of one request sequence; two sequences that rebind one session at the same time are not modelled.
- Sessions without workers: no selection makes one, and a request through one would issue no sub-promise.
- The `send_request` path of a worker hands the promise to the tonlib client itself; only `send_request_function` and JSON requests use the table, so `Delivery` is about those.
- Session acquisition, block lookup and session threading in the pagination and search functions (among them error 533); their servers are functions of the round, the cursor and the length asked.
- Transactions.FetchFrom: excludes the calls that do not end, which `ZeroChunkNeverEnds` shows to be endless.
- Transactions.GetTransactions: the same.
- SendRequest.Cluster.Exchange: the fan-out of one request is one step; a worker that answers after the caller got its answer is taken to have answered before the next request. The order of answers is in `Delivery`.
- Locate.AnswersAreSound: soundness only; the bound passed in the wrong position, the ten-item window and the shared cursor make the search incomplete. What a search that finds nothing has looked at is `NothingIsMissed`.
- Error texts that quote request options or prefix another error are reduced to the code and a fixed text.
- `getTokenData` runs all four checks and returns the first that has data; contracts left loaded by the failing checks stay loaded.
- Parsing of get-method stacks, BoC, base64, addresses and JSON: the functions of `Contracts.Foreign` and of `Locate` stand for them and may fail in any way they like.
- Machine integers: ids, counters and logical times do not wrap, `req_count_` is not truncated to 32 bits, and dictionary keys do not run past 2^32.
- Random choice and shuffling are arbitrary choices; `is_in_past` is taken as "deadline not later than now".
- The LRU cache and the actor library are an arbitrary evicting cache and atomic steps; their own code is not part of this model.
- Configuration splitting, key stores, `try_init`/`try_sync`, session timing and printing, the HTTP server, method dispatch, response postprocessing, bindings and logging.
