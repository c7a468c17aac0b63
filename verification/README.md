# Terminal demo: verified model of its three stateful cores

The repository serves live terminal demos. Three of its parts carry state that several processes or goroutines change
at the same time, and this project models those three and proves what they keep.

**The poll ledger** (`presenter/internal/poll`, the poll handlers of `presenter/cmd/message`). A poll is one partition
of a table: a `META` record with the options, the limit and a counter per option, and one record `visitor#choice` per
vote. Vote, Unvote and Switch read first and then commit a conditional transaction.

- `PollKeys` record keys, the prefix query and decoding; `PollTable` the table and its transactions; `PollBallot` the
  ballot the table stands for, with atomic operations, and the proof that each transaction is one of them.
- `PollRuns` any number of concurrent calls, one table access per step; `PollTheorems` refinement and real-time order;
  `PollLimit` exactly how many votes a visitor can come to hold when calls overlap; `PollOverlap` refinement for runs
  in which votes of one visitor overlap; `PollOutcomes` the cause of each outcome, and that every call comes to one.
- `PollStore` the `Store` object, whose accesses to the table may fail, and the message handlers in front of it.

**The runner pool** (`broker/store`, `broker/service`). Brokers share a table of single-use runners. A runner is
registered, idle in a bucket, busy with one session, deleted.

- `PoolTable` the table and its accesses; `PoolRuns` any number of brokers creating sessions at the same time, with
  arbitrary index answers, failures, cancellations, registrations and deletions at any point; `PoolProgress` what a
  creation achieves in such a run: which runner it takes, what a verdict leads to, when it gives up.
- `Broker` the repository object, whose methods run against a schedule of other brokers' accesses that may happen
  before every access of their own, and whose own accesses may fail and are recorded; `BrokerTrace` what such records
  say; `BrokerService` session creation, resolution and closing.
- `StickyRuns` sequential runs of requests, for sticky sessions.

**The command pipeline** (`runner/shell.go`, `runner/handler.go`, `front/src/api/client.ts`, `runner/session.go`). A
command's output is framed by a marker on two pipes, parsed back line by line, printed as server-sent events (section
9.2 of the WHATWG HTML Standard) and reassembled by an incremental parser in the browser.

- `Lines` splitting and decimal numbers; `Stderr` the stderr collector; `Shell` the meaning of one call on the state of
  the pipes (`Serve`); `ShellRuns` what a call guarantees; `ShellResults` its result and the broken mark in every case;
  `ShellSync` sequences of calls, and exactly when the shell gets out of step with bash; `Bash` the shell object with
  its scan loop, proved to do what `Serve` says.
- `Sse` frames and the client's read loop; `EndToEnd` handler and client composed; `EventStream` a reader by the
  standard, which takes the same from a body as the client.
- `Sessions` the session manager; `SessionRuns` its locked sections interleaved.

## Where the code does less than its documentation says

Each of these is a theorem, with the exact condition under which the documented behaviour holds.

- The comment at `presenter/internal/poll/vote.go:13` promises that the limit cannot be exceeded. With at most k votes
  of a visitor between limit check and commit at a time, the visitor can come to hold exactly the counts up to
  maxChoices - 1 + k and the number of options (`PollLimit.ReachableVoteCounts`). So the promise is kept if and only if
  k is at most 1, or the limit does not bind because there are no more options than that, or nobody can vote
  (`PollLimit.LimitHoldsExactlyWhen`). `PollLimit.OverlapExceedsLimit` is an instance.
- Unvoting on a poll that was never opened ends in an internal error instead of a poll error: the transaction reports
  a missing vote, and the handler then fails to read the poll (`PollStore.MessageHandler.HandlePollUnvote`: while the
  store is reliable, if and only if the poll was never opened).
- The comment at `runner/shell.go:123` says that the broken field is set when the session is desynchronized. It stays
  unset with bytes of the command left unread if and only if the answer has more lines after its first line that starts
  with the marker, and that line has a readable exit code or no send has failed before it
  (`ShellSync.StepsOutExactlyWhen`). For a complete answer that is when an output line starts with the marker, with the
  same exception (`ShellSync.DesyncsExactlyWhen`). The next command is then handed the stale line
  (`ShellSync.StaleLineGoesToNextCommand`; `ForgedMarkerLeaksLine` and `ForgedMarkerExample` are instances).
- The stderr returned for a command is what it printed if and only if no newline of the previous marker was left over,
  and the newline of its own marker did not come in a later read than the marker, or came after the buffer was
  collected (`ShellRuns.WholeCallStderr`).
- Text arrives unchanged, up to the final newline, exactly when no line ends in a carriage return
  (`ShellRuns.SentTextIsOutput`).

The record keys of the poll rely on visitors without `#`: a visitor containing one shares each of its records with
another visitor, and only such visitors do (`PollKeys.VotesCollideExactlyWhen`). Visitors are connection IDs of the
WebSocket gateway, which contain none, so the handlers never pass such a visitor.

## Model

| member | source | states |
|---|---|---|
| PollKeys.DecodeInvertsVoteKey | presenter/internal/poll/get.go:123-126 | decoding a record key returns the original choice, even one containing '#', if and only if the visitor has no '#' |
| PollKeys.VoteKeyInjective | presenter/internal/poll/vote.go:33 | two votes have the same record key only if visitor and choice are the same |
| PollKeys.PrefixSelectsOwner | presenter/internal/poll/get.go:101-108 | the prefix query of a visitor selects exactly that visitor's records |
| PollKeys.VoteKeyIsNotMeta | presenter/internal/poll/store.go:87 | no vote key equals the key of the poll record |
| PollKeys.HashInVisitorCollides | presenter/internal/poll/vote.go:33 | every vote of a visitor containing '#' has the key of a vote of another visitor, whose prefix query finds it |
| PollKeys.VotesCollideExactlyWhen | presenter/internal/poll/vote.go:33 | a record is shared with a visitor without '#' if and only if its own visitor contains one |
| PollTable.VoteTransaction | presenter/internal/poll/vote.go:34-72 | on an open poll the vote transaction inserts the record and increments the one counter, or finds the record and changes nothing |
| PollTable.UnvoteTransaction | presenter/internal/poll/unvote.go:16-53 | the unvote transaction deletes the record and decrements the one counter, or reports a missing vote and changes nothing |
| PollTable.SwitchTransaction | presenter/internal/poll/switch.go:31-82 | the switch transaction replaces the record and moves one count; a missing old vote is reported before a duplicate new one; equal choices are refused as a request |
| PollTable.InsertKeepsSound | presenter/internal/poll/vote.go:35-63 | inserting a record together with its increment keeps every counter equal to the number of records |
| PollTable.RemoveKeepsSound | presenter/internal/poll/unvote.go:17-45 | deleting a record together with its decrement keeps every counter equal to the number of records |
| PollTable.SwitchIsRemoveThenInsert | presenter/internal/poll/switch.go:32-70 | the three-item transaction has the effect of a removal followed by an insertion |
| PollBallot.OwnKeysAreOwnVotes | presenter/internal/poll/get.go:97-129 | the length of the own-choices answer is the number of the visitor's votes on the ballot |
| PollBallot.VoteIsAtomic | presenter/internal/poll/vote.go:25-72 | the vote transaction is the ballot's atomic Vote, same result and same votes, while the checks before it still hold |
| PollBallot.UnvoteIsAtomic | presenter/internal/poll/unvote.go:14-56 | the unvote transaction is the ballot's atomic Unvote |
| PollBallot.SwitchIsAtomic | presenter/internal/poll/switch.go:16-85 | the switch transaction is the ballot's atomic Switch and keeps the number of votes |
| PollBallot.CommitChanges | presenter/internal/poll/switch.go:31-82 | which records each transaction adds and removes; a failed one leaves the table unchanged; options and limit never change |
| PollBallot.ChangesOwnKeys | presenter/internal/poll/vote.go:33-46 | a transaction of one visitor touches no other visitor's records |
| PollBallot.CastConserves | presenter/internal/poll/switch.go:28-70 | a refused request changes nothing; a vote adds one vote, an unvote removes one, a switch keeps the total |
| PollBallot.CountersAddUp | presenter/internal/poll/vote.go:54 | in a sound table no counter is negative and the counters add up to the number of vote records |
| PollRuns.StepKeepsInv | presenter/internal/poll/vote.go:15-75 | every table access of every concurrent call keeps records, counters and what each pending call has checked consistent |
| PollRuns.CountersMatchRecords | presenter/internal/poll/get.go:28-53 | in every reachable state, overlapping calls included, each option's counter is its number of vote records, and counters exist for exactly the options |
| PollTheorems.PollRefinesBallot | presenter/internal/poll/vote.go:15-75 | unless two votes of one visitor are between limit check and commit at one time, every interleaving is explained by one order of atomic ballot operations with the same results and the same final votes, whatever else overlaps; a store error stands in that order only for a call with a failed access or a switch of a choice to itself (`PollOutcomes.StoreErrorHasCause`) |
| PollTheorems.ExclusiveCallsRefineBallot | presenter/internal/poll/vote.go:15-75 | in particular when calls of one visitor never overlap; `PollOutcomes.ServedCallsArePerformed` adds that each call served gets the ballot's own answer |
| PollTheorems.LogRespectsRealTime | presenter/internal/poll/vote.go:15-75 | that order puts a call that finished before another began in front of it |
| PollOverlap.OverlapRefinesRelaxedBallot | presenter/internal/poll/vote.go:15-75 | with at most k votes of one visitor between limit check and commit at a time, every interleaving is explained by atomic operations of a ballot whose limit may be exceeded by k - 1; store errors have the causes of `PollOutcomes.StoreErrorHasCause` here too |
| PollOverlap.NoSlackIsBallot | presenter/internal/poll/vote.go:25-31 | without slack the relaxed ballot is the ballot |
| PollOverlap.RelaxedBallotKeepsBound | presenter/internal/poll/vote.go:25-31 | on a relaxed ballot nobody holds more votes than the limit and the slack together |
| PollOverlap.EveryRunIsExplained | presenter/internal/poll/vote.go:15-75 | every run whatever is explained by some relaxed ballot, with store errors only from those causes |
| PollTheorems.OpenedPollIsFixed | presenter/internal/poll/get.go:28-53 | options and limit never change after the poll was first opened |
| PollOutcomes.OutcomeExactlyWhen | presenter/internal/poll/vote.go:16-31 | the exact condition of each outcome on the ballot: a missing poll, an invalid choice, the limit exceeded, a duplicate or missing vote, success |
| PollOutcomes.StoreErrorHasCause | presenter/internal/poll/switch.go:31-84 | in every interleaving a call ends in a store error only if one of its own table accesses failed or it switches a choice to itself |
| PollOutcomes.FaultEnds | presenter/internal/poll/switch.go:71-82 | a failing access ends its call in a store error and writes nothing |
| PollOutcomes.OutcomeIsFinal | presenter/internal/poll/vote.go:15-75 | a call that has ended keeps its outcome in every continuation |
| PollOutcomes.ServedCallsEnd | presenter/internal/poll/vote.go:15-75 | a call advanced three times after it began has ended, whatever happens in between |
| PollOutcomes.ServedCallsArePerformed | presenter/internal/poll/switch.go:16-85 | without failed accesses and overlapping votes such a call ends with the answer of the ballot at the instant it took effect, which has then changed as that operation says |
| PollLimit.OverlapBoundsVotes | presenter/internal/poll/vote.go:25-65 | with at most k of a visitor's votes between limit check and commit at any time, the visitor never holds more than maxChoices - 1 + k |
| PollLimit.OneVotePerOption | presenter/internal/poll/vote.go:21-46 | nobody holds more votes than there are different options |
| PollLimit.ReachableVoteCounts | presenter/internal/poll/vote.go:25-65 | a visitor can come to hold n votes with at most k in flight if and only if n is 0, or the limit and k are positive and n is at most maxChoices - 1 + k and at most the number of options |
| PollLimit.BoundIsAttained | presenter/internal/poll/vote.go:25-65 | for every limit and every k, with enough options some run ends with exactly maxChoices - 1 + k votes |
| PollLimit.LimitHoldsExactlyWhen | presenter/internal/poll/vote.go:25-65 | all runs with at most k votes in flight keep the limit if and only if k is at most 1, or nobody can vote, or there are no more options than the limit |
| PollLimit.ExclusiveCallsKeepLimit | presenter/internal/poll/vote.go:25-65 | without overlap a visitor never holds more than maxChoices votes |
| PollLimit.OverlapExceedsLimit | presenter/internal/poll/vote.go:25-65 | an instance: two overlapping votes are both accepted on a poll with limit 1 |
| PollStore.Store.GetMyChoices | presenter/internal/poll/get.go:97-129 | returns exactly the choices the visitor has voted for, each once, unless the query fails |
| PollStore.Store.Vote | presenter/internal/poll/vote.go:15-75 | one call at a time: result and new votes are those of the ballot's Vote, or a store access failed and nothing is written; a failed call leaves the table unchanged |
| PollStore.Store.Unvote | presenter/internal/poll/unvote.go:14-56 | one call at a time: result and new votes are those of the ballot's Unvote, or a store access failed and nothing is written; a failed call leaves the table unchanged |
| PollStore.Store.Switch | presenter/internal/poll/switch.go:16-85 | one call at a time: result and new votes are those of the ballot's Switch, or a store access failed and nothing is written; a failed call leaves the table unchanged |
| PollStore.Store.Get | presenter/internal/poll/get.go:27-72 | opens the poll only for a presenter and only the first time; unless a store access fails, it reports a missing poll exactly when there is none, and the state returned shows the ballot's totals and the visitor's own choices |
| PollStore.KeysForAreVotesFor | presenter/internal/poll/get.go:65-71 | an option has as many records as votes on the ballot |
| PollStore.MessageHandler.HandlePollError | presenter/cmd/message/main.go:345-376 | business errors are answered with the current state, a missing poll with a text, everything else and a failing store with an internal error; nothing is written |
| PollStore.MessageHandler.RefreshAndBroadcast | presenter/cmd/message/main.go:388-394 | the broadcast shows the ballot, or the store fails; nothing is written |
| PollStore.MessageHandler.HandlePollVote | presenter/cmd/message/main.go:305-314 | incomplete messages change nothing; otherwise, one call at a time, the answer is the ballot's, and an internal error only if a store access failed |
| PollStore.MessageHandler.HandlePollUnvote | presenter/cmd/message/main.go:317-326 | as for a vote, except that with a reliable store there is an internal error if and only if the poll was never opened |
| PollStore.MessageHandler.HandlePollSwitch | presenter/cmd/message/main.go:329-341 | as for a vote; the guard on equal choices keeps the transaction from being refused as malformed |
| PollStore.EndsInErrorExactlyWhen | presenter/cmd/message/main.go:345-356 | among the ballot's outcomes only an unvote on a poll never opened leads to an internal error, given different choices |
| PollStore.RepliesExactlyWhen | presenter/cmd/message/main.go:345-394 | with a reliable store a broadcast is sent exactly for a request carried out, a poll_error exactly for one refused on an open poll, a text exactly for a missing poll; counts and own choices sent are those of the ballot afterwards |
| PollStore.MessageHandler.HandlePollOpen | presenter/cmd/message/main.go:260-279 | only a presenter opens a poll, and opening it again changes nothing; an internal error only if a store access failed |
| PoolTable.BurstKeepsTakenTaken | broker/store/dynamo.go:160-180 | a known runner that is not idle stays so, whatever other brokers do short of registering a deleted ID again |
| PoolTable.BurstKeepsSessionFree | broker/store/dynamo.go:160-180 | other brokers' accesses never give a session to a runner unless they name it |
| PoolRuns.EachRegistrationGrantedOnce | broker/store/dynamo.go:46-180 | over every interleaving with arbitrary index answers each successful registration is assigned to at most one session ever, and every record is exactly one of idle and busy |
| PoolRuns.OneRunnerPerSession | broker/service/service.go:108-141 | at most one record carries a session ID, although a creation uses its ID for several acquisitions |
| PoolRuns.CreationHoldsAtMostItsRunner | broker/service/service.go:113-140 | a creation that gave up holds nothing; one that returned, failed or was cancelled holds at most the runner it names |
| PoolRuns.IncarnationIsStable | broker/store/dynamo.go:46-80 | until it is deleted a runner keeps its URL and bucket, a busy one keeps its session and never becomes idle again |
| PoolRuns.IncarnationNeverReturns | broker/store/dynamo.go:46-68 | registrations of an ID are numbered upwards, so a deleted incarnation never comes back |
| PoolRuns.RetriesAreInvisible | runner/register.go:45-63 | a repeated registration while the record exists changes nothing in the whole run that follows, wherever it happens |
| PoolProgress.CandidateIsTaken | broker/store/dynamo.go:117-122 | in every interleaving a creation whose next candidate is untried and idle gets it: it alone holds the session, the grant of its registration is recorded, and no other record changes |
| PoolProgress.CandidateIsSkipped | broker/store/dynamo.go:112-126 | a candidate tried before or taken by another broker is passed over and counts as tried |
| PoolProgress.PassTakesFirstIdle | broker/store/dynamo.go:110-127 | a pass over the candidates takes the first one that is untried and idle |
| PoolProgress.PassFindsNone | broker/store/dynamo.go:110-130 | a pass without such a candidate asks the bucket again if it tried anything, and otherwise goes on to the next bucket or gives up |
| PoolProgress.QueryTakesFirstIdle | broker/store/dynamo.go:99-127 | whatever the index answers, the first untried idle runner it lists is taken |
| PoolProgress.QueryFindsNone | broker/store/dynamo.go:99-130 | an answer without one changes no record |
| PoolProgress.HealthyIsReturned | broker/service/service.go:126-127 | a runner found healthy is returned |
| PoolProgress.UnhealthyIsPurged | broker/service/service.go:131-134 | a runner found unhealthy is deleted, and the same bucket asked again from scratch |
| PoolProgress.VerdictComesFirst | broker/service/service.go:126-134 | in every run a runner is returned only after a healthy verdict and about to be deleted only after an unhealthy one |
| PoolProgress.GivesUpAfterAllBuckets | broker/service/service.go:116-140 | in every run a creation gives up if and only if it has ended as many buckets as it began with |
| PoolProgress.AbortEnds | broker/service/service.go:128-136 | cancellation or a store error ends a creation at any moment, changes no record, and leaves it the runner it has by then |
| PoolProgress.OutcomeIsFinal | broker/service/service.go:108-141 | how a creation has ended never changes |
| PoolProgress.RegisteredIsIdle | broker/store/dynamo.go:51-64 | registering an unknown ID makes it an idle runner of a new incarnation |
| PoolProgress.DeletedIsGone | broker/store/dynamo.go:229-240 | a deleted runner is gone and no other changes |
| PoolProgress.NewRunnerCanBeTaken | broker/service/service.go:108-141 | after any run whatever, a newly registered runner that is listed and healthy is returned to a new creation |
| Broker.Shuffle | broker/store/dynamo.go:107-109 | the candidates are permuted in place |
| Broker.Repository.Register | broker/store/dynamo.go:46-80 | inserts an idle record in some bucket exactly when none is present at that instant, repeats without effect, and refuses another URL while the record exists; other brokers' accesses before and in between are accounted for |
| Broker.Repository.QueryIdleBucket | broker/store/dynamo.go:135-157 | at most 20 runners; with an up-to-date index they are different idle ones of the bucket, all of them if there are no more than 20 |
| Broker.Repository.AssignSession | broker/store/dynamo.go:160-180 | assigns exactly when the record is idle, and takes it out of its bucket; a failed access changes nothing |
| Broker.Repository.AcquireIdle | broker/store/dynamo.go:96-132 | terminates; whatever the index answers, it queries again only when all runners listed have been tried, tries only listed runners, each at most once, and reports no idle runner only on an answer whose runners it had all tried; at most the returned runner holds the session; with an up-to-date index, and no ID registered again after its record was deleted during the call, that is only when the bucket is empty at that instant, whatever else other brokers do |
| Broker.Repository.TryCandidates | broker/store/dynamo.go:110-127 | one pass over the candidates tries each untried one until one is assigned or an access fails; without progress all of them had been tried |
| BrokerTrace.NoneIdleIsExhausted | broker/store/dynamo.go:96-132 | an acquisition that reports no idle runner made a query of its bucket that listed only runners it had tried to assign to this session before |
| PoolTable.BurstKeepsNoReuse | broker/store/dynamo.go:46-68 | whether a deleted ID is registered again can be judged from any instant on |
| PoolTable.NoReuseWithout | broker/store/dynamo.go:229-240 | a broker's own deletion does not turn a later registration into a reuse that was none before |
| Broker.Repository.FindBySessionID | broker/store/dynamo.go:183-204 | with an up-to-date index a holder of the session if and only if there is one |
| Broker.Repository.Delete | broker/store/dynamo.go:229-240 | removes the record unconditionally and nothing else, or fails and changes nothing |
| BrokerService.WalkIsOnce | broker/service/service.go:116-117 | the buckets of one walk are all different |
| BrokerService.WalkReaches | broker/service/service.go:116-117 | no bucket is missed, for every bucket count and start |
| BrokerService.WalkAcquires | broker/service/service.go:119-137 | the runner just acquired was idle in the bucket, and only purged runners are missing from the table |
| BrokerService.WalkEnds | broker/service/service.go:113-140 | when the walk ends every unhealthy idle runner has been deleted and no healthy one existed |
| BrokerService.CreationSpares | broker/service/service.go:113-140 | however a creation without concurrent changes ends, no healthy and no busy runner is lost, and at most one record changes, to hold the session |
| BrokerService.CreatedExactlyWhen | broker/service/service.go:108-141 | not cut short, it succeeds if and only if a healthy runner is idle; the runner returned holds the session |
| BrokerService.PatienceSuffices | broker/service/service.go:126-130 | a request cancelled after more failed checks than there are unhealthy idle runners is never cut short |
| BrokerService.Service.CreateSession | broker/service/service.go:108-141 | visits each bucket at most once and all before giving up; whatever the indexes answer and other brokers do, its record of accesses shows that a runner is deleted only right after it was taken and found unhealthy, that one taken is returned, deleted or, on cancellation, the last, that it gives up only when in each bucket a query listed nothing but runners tried before, and that it is cancelled only when the failed checks have used up the patience, and returns no runner then; with an up-to-date index and no deleted ID registered again it gives up only after every bucket has been empty at some instant of the call; without concurrent changes it reports no runner exactly when no healthy idle one exists and then has deleted exactly the unhealthy ones; at most one record holds its session on every path |
| BrokerService.Service.CheckRunner | broker/service/service.go:126-137 | a healthy runner is returned and an unhealthy one removed, unless the request is cancelled during the check, which happens if and only if no patience is left, whatever the runner's health, or the deletion fails |
| BrokerService.Service.ResolveSession | broker/service/service.go:155-187 | keeps a healthy holder and the table, replaces an unhealthy one under a new session, creates when nobody holds it; with a reliable store it fails only when the failed checks have used up the patience; whatever other brokers do, a returned URL is healthy, reassigned means that a removal was tried, no runner is reported only after every bucket was exhausted, and at most one record holds the new session |
| BrokerService.Service.Lookup | broker/service/service.go:157-176 | the holder is returned while healthy and otherwise removed, or nobody holds the session, unless the request is cut short by cancellation or a store error; nobody takes the new session meanwhile |
| BrokerService.Service.CloseSession | broker/service/service.go:144-150 | deletes one record, with an up-to-date index a holder of the session when it was looked up, and nothing else, or reports that there is none; other brokers' accesses before and in between are accounted for |
| StickyRuns.ResolveHeld | broker/service/service.go:155-187 | a held session resolves to its runner while that is healthy, otherwise to a different session marked created and reassigned, unless the request is cut short by cancellation or a store error |
| StickyRuns.ResolvesExactlyWhen | broker/service/service.go:155-187 | a resolve that is not cut short never fails; it finds a runner if and only if the session has a healthy one or a healthy one is idle, and creates a session exactly in the second case |
| StickyRuns.ResolvedIsHeld | broker/service/service.go:155-187 | whatever a resolve returns, the returned session is held by a runner with the returned URL |
| StickyRuns.SessionsAreSticky | broker/service/service.go:155-187 | over whole runs every later resolve leaves the table unchanged and returns the same URL without creating or reassigning, unless it is cancelled or a store access fails during it, until the session is closed, its runner deregistered or found unhealthy |
| StickyRuns.LostHolderFrees | broker/service/service.go:144-187 | a session loses its runner only by being closed, by deregistration or by a resolve that found the runner unhealthy, cut short afterwards or not, and then nobody holds it |
| StickyRuns.ReleasedSessionsNeverReturn | broker/service/service.go:155-187 | once a session has lost its runner, every later resolve of it that succeeds yields a different session ID |
| Lines.SplitAppend | front/src/api/client.ts:75 | splitting a concatenation glues the last piece of the first part to the first piece of the second |
| Lines.AtoiOfDecimal | runner/shell.go:295 | parsing the printed exit code gives it back |
| Lines.AtoiRejects | runner/shell.go:295-298 | only an optional sign with digits is accepted, and only within 64 bits |
| Lines.AtoiOfSigned | runner/shell.go:295 | a sign in front negates the number or changes nothing |
| Stderr.MarkerVisible | runner/shell.go:209-213 | the marker is found in the received bytes exactly when all of it has arrived |
| Stderr.StderrInAnyCut | runner/shell.go:186-223 | however the bytes are cut into reads, the done channel is closed exactly once, and the buffer is the error output, plus a newline exactly when that came in a later read |
| ShellRuns.FirstMarkerOfFrame | runner/shell.go:264-293 | the first marker line of a frame is the real one if and only if no output line starts with the marker |
| ShellRuns.StderrCollected | runner/shell.go:186-237 | reading until the marker is found always closes the channel once; the exact buffer and rest of the pipe, by whether the marker's newline came apart from it and was read in time |
| ShellRuns.WholeCall | runner/shell.go:245-308 | a call bash answers in full leaves nothing unread if and only if no output line starts with the marker, and then sends exactly the output's lines as far as sends succeed and returns bash's exit code or the send error; the shell is marked broken if and only if the first marker line has no readable exit code and a send has failed |
| ShellRuns.WholeCallStderr | runner/shell.go:299-308 | the exact stderr and pipe after a call, and that the stderr is what the command printed if and only if nothing was left over and no newline was read apart and in time; the shell is in step afterwards |
| ShellResults.ExitsExactlyWhen | runner/shell.go:245-308 | for every state of the pipes and every behaviour of bash: an exit code is returned if and only if the shell was not broken, the request not done, the write succeeded, a line with the marker and a readable code came, and no send failed before it; it is that code |
| ShellResults.FailsExactlyWhen | runner/shell.go:266-336 | the exact condition of each error, the end of the stream before the marker included |
| ShellResults.BreaksExactlyWhen | runner/shell.go:270-336 | the shell is broken afterwards if and only if it was before, or the request was not done and the write failed, no marker line came, or a send failed before a marker line without a readable code; and by which error |
| ShellResults.SendsExactly | runner/shell.go:245-336 | a call that reaches bash writes its script and sends the visible lines in front of the marker, all that came if it never does, as far as sends succeed; any other writes, reads and sends nothing |
| ShellResults.UncancelledSendsAll | runner/shell.go:276-328 | without cancellation the chunks are exactly those lines, each with a newline |
| ShellResults.StderrReturned | runner/shell.go:299-308 | the stderr returned is what a fresh collector holds after reading this command's bytes, and the one left over, at the pace of the goroutine |
| ShellResults.ScriptLines | runner/shell.go:263-264 | the lines of the script: the environment is reloaded around the command, its exit code kept right after it, then the marker goes to stderr, a newline and the marker with the code to stdout |
| ShellResults.MarkersDiffer | runner/shell.go:256 | the marker line of one command is taken for that of another if and only if they were started at the same nanosecond |
| ShellRuns.MarkerIsLastLine | runner/shell.go:291-336 | when the stream ends anywhere inside a frame, only the last line read can be a marker line |
| ShellSync.DesyncsExactlyWhen | runner/shell.go:290-308 | for a complete answer: lines stay unread unnoticed if and only if an output line starts with the marker, except when the first such line has no readable exit code and a send has failed |
| ShellSync.MarkerFreeNeverDesyncs | runner/shell.go:291-336 | an output without such a line never puts the shell out of step, wherever the stream ends |
| ShellSync.StepsOutExactlyWhen | runner/shell.go:245-336 | whatever happens to a call, a shell in step ends up with unread bytes and no broken mark if and only if the call reaches bash on an open shell and is answered like that |
| ShellSync.ShellStaysInStep | runner/shell.go:245-336 | over any sequence of calls without such an answer, with cancellation, failed writes or end of stream at any point, a shell not marked broken has no unread byte of an earlier command |
| ShellSync.RunInStepExactlyWhen | runner/shell.go:245-336 | all states of a run are in step if and only if no call got such an answer while the shell was running |
| ShellSync.ShellStaysReady | runner/shell.go:245-336 | commands whose output and error output do not contain the marker where the shell looks for it leave both streams in step |
| ShellSync.OutputStaysWithItsCommand | runner/shell.go:245-336 | in any sequence of calls in which no earlier answer put the shell out of step, each call sends a beginning of its own lines only |
| ShellSync.BrokenForEver | runner/shell.go:250-252 | once broken, every later call writes nothing to stdin, sends nothing and returns the same error |
| ShellRuns.CancelledIsPrefix | runner/shell.go:276-328 | a cancelled call sends what the uncancelled call sends up to the first failed send, and nothing after it |
| ShellSync.StaleLineGoesToNextCommand | runner/shell.go:291-328 | a line left unread is handed to the next command in front of its own output, except an empty one directly before a marker line |
| ShellSync.ForgedMarkerLeaksLine | runner/shell.go:291-308 | an output that prints the marker and an exit code itself: its call succeeds with that code, the shell is not marked broken, and the line after it is handed to the next command |
| ShellSync.ForgedMarkerExample | runner/shell.go:291-308 | a concrete pair of commands for which this happens |
| ShellRuns.SentTextIsOutput | runner/shell.go:285-327 | the lines sent make up the output, terminated, if and only if none of its lines ends in a carriage return; the separator is the only empty line suppressed |
| Bash.BashShell.CheckStderrMarker | runner/shell.go:205-223 | takes the marker line out of the buffer and closes the channel once, as the specification of the collector says |
| Bash.BashShell.ReadStderr | runner/shell.go:186-200 | one read moves bytes from the pipe to the buffer and checks for the marker |
| Bash.BashShell.AwaitStderr | runner/shell.go:299-300 | waits until the marker has been found, through any sizes of reads |
| Bash.BashShell.Scan | runner/shell.go:291-292 | yields the next line without its line ending, and fails only at the end of an ended stream |
| Bash.BashShell.ExecuteStream | runner/shell.go:245-336 | the new state, the three results and the channel are exactly those of the specification that `ShellResults` characterises in every case |
| Bash.BashShell.ScanAnswer | runner/shell.go:289-335 | the scan loop with its held-back empty line, send error and drain, up to the marker line or the end of the stream, with the results of that specification |
| Bash.DeliverStep | runner/shell.go:309-327 | holding back one empty line sends, line by line, all lines but an empty last one |
| Sse.SplitResume | front/src/api/client.ts:75-77 | splitting can be resumed from the buffered last piece |
| Sse.EventsAppend | front/src/api/client.ts:79-82 | the events of two groups of lines are those of the first followed by those of the second, up to the first line that does not parse |
| Sse.EventsAreData | front/src/api/client.ts:79-82 | the events are the parsed values of the data lines in order, and they stop at the first that does not parse, if any |
| Sse.ConsumedExactly | front/src/api/client.ts:65-93 | a consumer that leaves has had its number of events, anyone else all there were; each ending has its cause |
| Sse.YieldLines | front/src/api/client.ts:79-82 | yields the parsed data lines in order until one does not parse or the consumer leaves |
| Sse.Execute | front/src/api/client.ts:65-93 | for every chunking, empty chunks, an unterminated last line, malformed lines, failing reads and early exit included, the events are those of splitting the whole body once, and the reader is cancelled exactly when the body was not read to its end |
| EndToEnd.HandleExecute | runner/handler.go:159-182 | the body is the frames of the call's events, which `EndToEnd.OutcomeIsTold` characterises |
| EndToEnd.OutcomeIsTold | runner/handler.go:162-179 | whatever becomes of a call, its events are one stdout event per chunk, then at most one stderr event, then one completion; the stderr text is exactly that of the call, none after an error, and the code is the call's or -1 |
| EventStream.BodyIsEventStream | runner/handler.go:199-202 | a reader that follows section 9.2.6 of the WHATWG HTML Standard dispatches exactly the encoded events of a body, in order |
| EventStream.ClientReadsTheStream | front/src/api/client.ts:79-82 | on such a body the client's data lines are what that reader dispatches |
| EndToEnd.BodyParses | runner/handler.go:199-202 | parsing a printed body gives back its events |
| EndToEnd.BrokenOffBody | front/src/api/client.ts:70-93 | a body that breaks off anywhere yields a beginning of the events and no parse error |
| EndToEnd.EveryCut | front/src/api/client.ts:72-73 | the read sizes cover every way to cut a body |
| EndToEnd.OutputArrives | runner/shell.go:263-328 | for a command that ran to its end: one stdout event per visible line of its output, then its stderr, exact, in at most one event, then one completion with its exit code; the stdout text is the output, terminated, if and only if no line ends in a carriage return |
| EndToEnd.RunCommand | runner/handler.go:159-182 | handler and client composed over any cut of the body: the client gets one stdout event per chunk, then exactly the stderr of the call in at most one event, then one completion with its exit code, reads to the end and does not cancel; a failed call gives the chunks sent so far, no stderr and exit code -1 |
| Sessions.FirstErrorIsFirst | runner/session.go:106-112 | remembering an error only while there is none keeps the first one |
| Sessions.SessionManager.Create | runner/session.go:47-68 | registers a new open shell under the drawn ID; on a duplicate ID the registry is unchanged and the new shell is closed |
| Sessions.SessionManager.Get | runner/session.go:72-81 | an open shell if and only if the ID is registered |
| Sessions.SessionManager.Delete | runner/session.go:85-96 | removes the session and closes its shell and no other, or reports that there is none |
| Sessions.SessionManager.CloseAll | runner/session.go:100-113 | empties the registry, closes every shell once in some order and returns the first error of that order |
| SessionRuns.EachShellIsInOnePlace | runner/session.go:47-113 | over any interleaving of the locked sections every started shell is registered under one ID, or in the hands of one call, or has been closed exactly once |
| SessionRuns.ClosedShellsStayGone | runner/session.go:58-65 | a closed shell is never registered again |
| SessionRuns.RegistrationStays | runner/session.go:72-81 | a session stays registered to its shell until it is deleted or all are closed, whatever happens to others |
| SessionRuns.CreationRegisters | runner/session.go:47-68 | whatever happens between its steps, a creation registers its new shell under its ID, or, if that is taken by then, leaves the registry as it is and has the shell to close |
| SessionRuns.DeletionTakesOne | runner/session.go:85-96 | a deletion takes out its session and no other and has the shell to close |
| SessionRuns.DeletionOfNone | runner/session.go:88-91 | deleting an unknown ID changes nothing |
| SessionRuns.CloseAllTakesAll | runner/session.go:100-105 | closing all empties the registry and has exactly the registered shells to close |
| SessionRuns.ClosingCloses | runner/session.go:94-110 | a shell is closed for the first time when its holder closes it, and no other is |
| SessionRuns.AllCanBeClosed | runner/session.go:85-113 | no shell is lost: from every reachable state all shells can still be closed, each for the first time |

## Left out

Assumptions about the environment:

- DynamoDB is a map with atomic conditional put, update, delete and all-or-nothing transactions. Writes that took effect but were reported as failed, request retries and TTL expiry are not part of this model.
- Poll reads see committed data. The broker's index queries may answer anything in the safety theorems and are up to date where a theorem says so.
- One poll is modelled; its ID selects the partition and plays no other part. Visitors are connection IDs: not empty and without '#'.
- Bash prints a command's output, a newline, the marker, the exit code and a newline on stdout, and its error output, the marker and a newline on stderr, unless the stream ends before that. A line over 1 MiB counts as a stream error. A call that would wait for ever on an open stream is not modelled.
- The JSON codec is a parameter that round-trips and prints no raw newline (section 7 of RFC 8259). UTF-8 decoding is not part of this model: chunks are decoded text, and the decoder's final output is a parameter.
- Health checks are a predicate on URLs in the sequential model, where a check under way fails when the request is cancelled, and an arbitrary verdict in the concurrent one. Cancellation that hits a store access, and a failing ID generator, count as a failed store access. Clocks, random choices and generated IDs are parameters or nondeterministic.

Weaker than one might expect, because the code does not provide more:

- Broker.Repository.Delete: does not say that the deleted record is the incarnation the broker inspected; the delete is unconditional, so a runner registered again under the same ID in between is deleted too.
- PollStore.MessageHandler.HandlePollVote: a reply or broadcast that cannot be sent, which also ends in an internal error, is not modelled; nor is it for the other handlers.
- PollStore.Store.Get: counters and own choices are from one instant only because no other call runs during it; under concurrency the two reads are separate.
- PollStore.MessageHandler.RefreshAndBroadcast: the own choices in a broadcast are the sender's, not each receiver's.
- BrokerService.Service.ResolveSession: with a stale index the URL returned may be an old one; which runner is kept, replaced or taken is stated for an up-to-date index without concurrent changes.
- EndToEnd.RunCommand: the handler drains the channel after the call here and during it in the code; the order of the chunks in the body is the same.
- Sessions.SessionManager.CloseAll: the sequential object closes while nobody else runs; interleavings are covered by `SessionRuns`.

Not modelled:

- Command whitelist, validator, login, identity resolution and audit log.
- Starting bash, `Close` of the shell and its error combinations, pipe creation errors.
- Registration over HTTP and its backoff, deregistration at shutdown; they reach the model as repeated registrations and deletions.
- `handlePollGet`, viewer counts, slide synchronisation, connection paging, React components, Lambda, nginx, Terraform and Docker files.
