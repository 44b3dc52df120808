# Ithute: models and proofs of its core mechanisms

This project models, in Dafny 4.11, the parts of the Ithute platform whose correctness rests on an argument rather than
on a single function body, and proves those arguments. Nothing in it was executed; everything in it is checked by
`dafny verify dfyconfig.toml`.

Five mechanisms are modelled:

* **The cluster engine** (`engines/cpp-cluster`). An adjacency-list graph with a cached edge counter refines a set of
  nodes and a set of edges (`ClusterGraph.dfy`). Breadth-first search decides reachability. Kahn's algorithm over a
  least-first heap (`KahnOrder.dfy`, theory in `DependencyTheory.dfy`, heap in `BinaryHeap.dfy`) returns the least
  topological order exactly when there is one and no parallel edge. The C entry points (`ClusterApi.dfy`) translate ids
  to indices and back. The placement ranker (`Placement.dfy`) pops a heap ordered by a four-level comparator.
* **Identity sessions and their events** (`platform/ithute-auth`). `AuthTables.dfy` holds the rows and the ORM's flush
  hook, `AuthRequests.dfy` what sixteen kinds of requests do to the rows, `AuthService.dfy` the imperative unit of work
  (stored rows, rows in memory, hook, commit) with the routes, `AuthRuns.dfy` the theorems about all runs, and
  `AuthLaws.dfy` what requests promise said of the rows alone: who gets a session and which sessions end. The leased
  outbox that delivers the events has its table in `OutboxTable.dfy` and its interleavings in `OutboxRuns.dfy`.
* **Trusted identity invitations** (`Invitation.dfy`): create, resend, cancel and activate, with an attempt counter.
* **Byte-level code**: SHA-256 and HMAC of the Rust accelerator against FIPS 180-4 and RFC 2104 (`Sha256.dfy`,
  `Sha256Native.dfy`; `Sha256Tables.dfy` derives the constants from the primes), and the DNS name writer and reader against RFC 1035 (`DnsName.dfy`).
* **Hosting nodes**: the circular-probe subnet allocator (`Subnet.dfy`), container activation with rollback
  (`Activation.dfy`), and the two ZIP gates (`ZipPolicy.dfy`).

Code that changes state step by step is modelled as classes and loops whose postconditions tie the new state to a
specification; what is promised is then proved about the specification.

## Findings

The code was followed wherever it and its documentation or comments differ.

* `dependency_order` counts parallel `DependsOn` edges but releases a dependent once per distinct dependency, so an
  acyclic graph with two such edges between one pair is reported as cyclic. `DependencyOrder` states the exact
  condition; `OrderWithParallelEdges` builds such a graph and is refused an order. The C entry point cannot store such
  edges and meets its documentation for every request.
* The hook's comment says no caller, scripts included, can bypass it (`models.py:241-242`). Two bulk UPDATEs do: those
  of `app/system_owner.py:78-83` and of `scripts/provision_nbros_user.py:65-70`. The sessions they revoke are never
  announced (`ProvisioningIsSilent`), and a revocation goes unannounced only there (`OnlyBulkUpdatesAreSilent`).
* A flush announces a revoked session twice exactly when its dirty list reaches the disabled user or application
  before a session of theirs that was merely touched (`FlushAnnouncesRevocation`). No route produces such a flush
  (`RequestsAreTidy`).
* `authenticated_context` does not check that the application is active. In every reachable state that changes nothing
  (`BearerChecksAgree`).
* The attempt guard at `identity_invitations.py:373` never fires (`OpenMeansGuessesLeft`), the 300-second cap of the
  outbox backoff is never reached (`BackoffStaysBelowCap`), and neither ZIP gate's aggregate ratio check can fail
  (`AggregateRatioHolds`).
* A failed deployment keeps the previous release exactly when it fails between a rename to the backup name that took
  effect and a removal of the backup that did not (`ReleaseSurvivesExactly`). It loses the release when preparing the
  network, removing a stale backup or stopping the old container fails, when the rename fails without having taken
  effect, because `restore_previous` removes whatever has the current name, and when removing the backup fails after
  having taken effect. A stale backup that was still there is then brought up in the release's place.
* Outbox exclusivity needs workers that settle within their lease: every event stays leased to one worker exactly as
  long as they do (`TimelyMeansExclusive`). For every lease length, a worker that overruns it can share its event with a
  second (`ExpiredLeaseLetsTwoHold`), and its late failure report can make that second worker, well within its own
  lease, share the event with a third (`LateFailureLetsTwoHold`).

## Model

| member | source | states |
|---|---|---|
| `ClusterGraph.ClusterGraph.UpsertNode` | engines/cpp-cluster/src/cluster_graph.cpp:19-26 | an empty id changes nothing; otherwise the node is stored under its id, no edge changes, and the representation invariant (keys agree, edges under their source, ends known, no duplicate, no self-loop, counter exact) is kept |
| `ClusterGraph.ClusterGraph.RemoveNode` | engines/cpp-cluster/src/cluster_graph.cpp:28-47 | answers whether the node was there; removes it with exactly the edges at either end, and the cached counter stays the number of stored edges |
| `ClusterGraph.ClusterGraph.UpsertEdge` | engines/cpp-cluster/src/cluster_graph.cpp:49-66 | accepted exactly between two known distinct nodes; the edge set grows by that edge, equal edges collapse, the counter stays exact |
| `ClusterGraph.ClusterGraph.RemoveEdge` | engines/cpp-cluster/src/cluster_graph.cpp:68-80 | answers whether the edge was stored, and removes that edge only |
| `ClusterGraph.ClusterGraph.Reachable` | engines/cpp-cluster/src/cluster_graph.cpp:107-139 | true exactly when both nodes exist and a possibly empty path of stored edges joins them; the search terminates because the visited set grows or the queue shrinks |
| `ClusterGraph.ClusterGraph.Visit` | engines/cpp-cluster/src/cluster_graph.cpp:129-136 | one node's edges: every new neighbour is visited and queued once, everything visited is reachable, and the target is reported exactly on meeting it |
| `ClusterGraph.ClusterGraph.CountDependencies` | engines/cpp-cluster/src/cluster_graph.cpp:148-165 | counters equal the number of stored DependsOn edges, parallel ones included, and the reverse lists name exactly the dependents |
| `ClusterGraph.ClusterGraph.DependencyOrder` | engines/cpp-cluster/src/cluster_graph.cpp:142-204 | an order is returned if and only if the DependsOn relation is acyclic and no pair carries two DependsOn edges; it is a permutation of the nodes, puts dependencies first, and is the first such order in dictionary order of the ids |
| `ClusterGraph.CountBoundsTargets` | engines/cpp-cluster/src/cluster_graph.cpp:154-164 | a counter exceeds the number of distinct dependencies exactly when some DependsOn edge is parallel |
| `ClusterGraph.OrderWithParallelEdges` | engines/cpp-cluster/src/cluster_graph.cpp:162-193 | the graph built from any two nodes and any two different DependsOn edges between them has no cycle, and is refused an order |
| `ClusterGraph.ParallelEdgeWithoutCycle` | engines/cpp-cluster/src/cluster_graph.cpp:162-163 | any stored graph of that shape carries a parallel edge and no cycle |
| `ClusterGraph.ClosedSetHoldsPaths` | engines/cpp-cluster/src/cluster_graph.cpp:120-138 | a visited set that no stored edge leaves contains every path that starts in it, so an exhausted search proves unreachability |
| `KahnOrder.Drain` | engines/cpp-cluster/src/cluster_graph.cpp:167-198 | the queue loop appends at every turn the least node that is ready, and stops only when no usable node is ready |
| `KahnOrder.Release` | engines/cpp-cluster/src/cluster_graph.cpp:185-197 | lowering the counters of the distinct dependents keeps every counter equal to degree minus ordered dependencies, and the queue equal to the ready set |
| `KahnOrder.SortedUnique` | engines/cpp-cluster/src/cluster_graph.cpp:185-187 | the dependents in increasing order, each once |
| `KahnOrder.ZeroMeansReady` | engines/cpp-cluster/src/cluster_graph.cpp:190-195 | a counter reaches zero exactly when all dependencies are ordered and the node has no parallel edge |
| `KahnOrder.DrainedOrder` | engines/cpp-cluster/src/cluster_graph.cpp:200-203 | a drained loop has ordered all nodes if and only if there is neither a cycle nor a parallel edge, and then its order is topological and least |
| `KahnOrder.LeftoverHasCycle` | engines/cpp-cluster/src/cluster_graph.cpp:200-202 | nodes left over with none of them ready contain a cycle |
| `DependencyTheory.GreedyIsLeast` | engines/cpp-cluster/src/cluster_graph.cpp:167-179 | always taking the least ready node gives the least of all topological orders |
| `StringOrder.LessIsDictionaryOrder` | engines/cpp-cluster/src/cluster_graph.cpp:167-178 | one id is less than another if and only if, at the place where the two first part, it has ended or has the smaller letter; least orders are defined by that |
| `DependencyTheory.OrderExcludesCycles` | engines/cpp-cluster/src/cluster_graph.cpp:142-204 | a relation with a topological order has no cycle |
| `BinaryHeap.Heap.Push` | engines/cpp-cluster/src/cluster_graph.cpp:170-195 | adds one element and restores the heap order |
| `BinaryHeap.Heap.Pop` | engines/cpp-cluster/src/cluster_graph.cpp:177-178 | removes and returns an element that no other precedes, and restores the heap order |
| `ClusterApi.DependencyOrderIndices` | engines/cpp-cluster/src/c_api.cpp:215-280 | zero nodes give 0; null or short buffers give 1; then 4 exactly for empty or repeated ids and unknown or self pairs, 3 exactly when the pairs contain a cycle, else 0 with a permutation of 0..n-1 that lists the ids in the least dependency order; nothing else is written |
| `ClusterApi.GraphMatches` | engines/cpp-cluster/src/c_api.cpp:251-263 | the graph built from the pairs has exactly their relation and never a parallel DependsOn edge |
| `ClusterApi.LoadNodes` | engines/cpp-cluster/src/c_api.cpp:239-249 | succeeds exactly when all ids are non-empty and distinct, and then maps each id to its position |
| `ClusterApi.LoadPairs` | engines/cpp-cluster/src/c_api.cpp:251-263 | succeeds exactly when every pair names two known distinct ids, and then one plain edge per distinct pair is stored |
| `ClusterApi.RankCandidates` | engines/cpp-cluster/src/c_api.cpp:177-212 | 1 for null or short buffers, else 0 and a permutation of the positions in which, of any two, the former is eligible if the latter is, and among equals by then has the lower score, the smaller key, or the lower position; nothing else is written |
| `ClusterApi.RankingIsPlacement` | engines/cpp-cluster/src/c_api.cpp:193-209 | the scheduler's order of the candidates, read off the input arrays: eligibility, then score, then key, then position |
| `Placement.Rank` | engines/cpp-cluster/src/placement_scheduler.cpp:35-55 | popping the heap yields the indices of a permutation of the candidates: eligible ones first, then lower scores, where all scores that are not finite are one and the highest, then smaller keys in dictionary order, then lower indices |
| `Placement.ComparatorOrders` | engines/cpp-cluster/src/placement_scheduler.cpp:16-31 | one candidate precedes another exactly if it comes earlier by eligibility, score, key and index, in that order |
| `Placement.RankingIsUnique` | engines/cpp-cluster/src/placement_scheduler.cpp:16-31 | the candidates alone determine the returned indices, ties included |
| `Placement.DistinctRankingIsStrict` | engines/cpp-cluster/src/placement_scheduler.cpp:16-31 | with distinct indices the comparator leaves no ties |
| `Placement.PrecedesIsStrictWeakOrder` | engines/cpp-cluster/src/placement_scheduler.cpp:12-31 | the comparator, non-finite scores counted as +infinity, meets the contract std::priority_queue demands |
| `AuthTables.HookOutcome` | platform/ithute-auth/app/models.py:239-301 | after any dirty list, exactly the stored unrevoked sessions of users and applications switched off in the list have been revoked, and the session events added are counted exactly |
| `AuthTables.SweptByFirst` | platform/ithute-auth/app/models.py:255-281 | such a session carries the reason of the first of its owners that the dirty list disables: "account disabled" or "application disabled" |
| `AuthTables.FlushAnnouncesRevocation` | platform/ithute-auth/app/models.py:213-301 | a session revoked by a flush gets one session.revoked event, or two exactly when its dirty row follows the owner the hook disables |
| `AuthTables.TouchedSessionIsToldTwice` | platform/ithute-auth/app/models.py:266-301 | switching an application off in a flush that also touched one of its sessions announces that session twice |
| `AuthTables.ReportsAtMostOnce` | platform/ithute-auth/app/models.py:283-301 | the hook's own session branch speaks at most once per session, and exactly when |
| `AuthTables.FlushAnnouncesSwitches` | platform/ithute-auth/app/models.py:245-277 | a flush adds one event for each listed account or application whose stored activity differs from the one in memory, naming the new activity, and no other such event |
| `AuthService.Service.RevokeScopeSessions` | platform/ithute-auth/app/models.py:213-236 | revokes those of the rows that are still unrevoked in memory and adds one event for each |
| `AuthService.Service.BeforeFlush` | platform/ithute-auth/app/models.py:239-301 | the loop over the dirty list computes the hook's specification, the queries seeing stored rows and the checks seeing memory |
| `AuthService.Service.RevokeSessions` | platform/ithute-auth/app/security_service.py:204-225 | revokes exactly the user's stored unrevoked sessions but the excepted one, and returns their number |
| `AuthService.Service.ExchangeCode` | platform/ithute-auth/app/oauth.py:452-530 | the code grant: every refusal and the session granted, as specified and flushed |
| `AuthService.Service.RefreshTokens` | platform/ithute-auth/app/oauth.py:532-560 | refresh rotation at both endpoints: every refusal with its status, or a fresh token in the same session |
| `AuthService.Service.LogIn` | platform/ithute-auth/app/main.py:297-376 | tokens are answered if and only if the credentials were proved and client and user are active, 400 if and only if the client is not, else 401; a refusal changes nothing, and what a grant creates is as specified and flushed |
| `AuthService.Service.AcceptBearer` | platform/ithute-auth/app/main.py:199-236 | who is accepted as bearer, and the status of each refusal |
| `AuthService.Service.LogOut` | platform/ithute-auth/app/main.py:481-488 | revokes the session that holds the presented token, if there is one and it is unrevoked |
| `AuthService.Service.RevokeOneSession` | platform/ithute-auth/app/account.py:544-556 | 404 for a session that is missing or another user's; otherwise revoked once |
| `AuthService.Service.RevokeAllSessions` | platform/ithute-auth/app/account.py:245-260 | the bulk revocations of password, MFA and sign-out routes, flushed |
| `AuthService.Service.RevokeTrustedDevice` | platform/ithute-auth/app/account.py:629-659 | revokes the user's other unrevoked sessions on the device |
| `AuthService.Service.SwitchUserActive` | platform/ithute-auth/app/portal.py:1081-1112 | 404 and 400 cases; disabling also revokes the user's sessions |
| `AuthService.Service.ToggleApplicationActive` | platform/ithute-auth/app/portal.py:1116-1138 | flips the application and writes no session itself |
| `AuthService.Service.UpdateApplicationActive` | platform/ithute-auth/app/admin.py:298-351 | 404; 409 when activating without any callback; switching off revokes the application's sessions |
| `AuthService.Service.ProvisionAccount` | platform/ithute-auth/app/system_owner.py:36-86 | the account becomes active, and when the script sets its password its sessions are revoked past the hook; the same for the NBros administrator |
| `AuthRequests.HandleIsEdit` | platform/ithute-auth/app/oauth.py:433-560 | every request only moves rows forward: identities of sessions and codes fixed, revoked rows frozen, tokens changed only to fresh ones, new sessions only for active owners |
| `AuthLaws.SessionWasGranted` | platform/ithute-auth/app/main.py:297-376 | every session of every reachable state goes back to a login that proved its credentials, for its user, client, method and expiry, or to the redemption of an unspent code of its user, client and method in time by a matching verifier |
| `AuthLaws.LoginIsGrantedExactly` | platform/ithute-auth/app/main.py:297-376 | 400 for an inactive client, tokens for proved credentials of an active user, else 401; refusals change nothing |
| `AuthLaws.ExchangeIsGrantedExactly` | platform/ithute-auth/app/oauth.py:452-497 | a code is redeemed if and only if it is unspent and in time, at its own client and redirect, that redirect is still allowed, the verifier is well-formed and meets the challenge, and the user is active; else 400 |
| `AuthLaws.AuthorizationIsGrantedExactly` | platform/ithute-auth/app/oauth.py:47-133 | a code is issued if and only if the redirect is allowed, the challenge is well-formed (section 4.1 of RFC 7636) and the user is active |
| `AuthLaws.RefreshIsGrantedExactly` | platform/ithute-auth/app/oauth.py:532-560 | in a reachable state a refresh is granted if and only if a live, unexpired session of the presenting client holds the presented token; refusals change nothing |
| `AuthLaws.RequestEndsExactly` | platform/ithute-auth/app/main.py:481-488 | in a reachable state every request ends exactly the live sessions it is meant to end, at its own time: logout the holder of the token, the revocation routes theirs, disabling a user or an application all of theirs, and nothing else any |
| `AuthLaws.RequestSwitchesExactly` | platform/ithute-auth/app/portal.py:1081-1138 | who is active after a request: administrators cannot switch themselves off, no update activates an application without a callback, and only the requests that name an account or application change it |
| `AuthLaws.RefusalsOfSwitches` | platform/ithute-auth/app/admin.py:298-351 | the 404, 400 and 409 answers of the administrative routes |
| `AuthRuns.RunKeepsInvariant` | platform/ithute-auth/app/models.py:239-301 | in every run each live session belongs to an active user and an active application, tokens are unique, every session.revoked event is true, and every revocation but the bulk ones is announced |
| `AuthRuns.RowsOnlyMoveForward` | platform/ithute-auth/app/models.py:213-301 | over any stretch of a run revocation is never undone and a session's user, client, expiry, method and device never change |
| `AuthRuns.TidyRunAnnouncesOnce` | platform/ithute-auth/app/models.py:213-301 | when no flush lists an unrevoked session after the owner it disables, each revocation has exactly one event, and the bulk ones have none |
| `AuthRuns.RequestsAreTidy` | platform/ithute-auth/app/portal.py:1081-1138 | flushes that list only rows the request assigned to meet that condition |
| `AuthRuns.ProvisioningIsSilent` | platform/ithute-auth/scripts/provision_nbros_user.py:65-72 | the bulk UPDATE of a provisioning script ends every live session of its account without an event |
| `AuthRuns.OnlyBulkUpdatesAreSilent` | platform/ithute-auth/app/system_owner.py:78-83 | whatever revokes a session, the flush leaves it unannounced if and only if a provisioning script's bulk UPDATE revoked it |
| `AuthRuns.ToggleEndsSessions` | platform/ithute-auth/app/portal.py:1116-1138 | switching an application off in the portal ends and announces all its live sessions, although the route writes none |
| `AuthRuns.RedemptionMatchesCode` | platform/ithute-auth/app/oauth.py:452-497 | a code buys a fresh session of its own user, client and method, only for its redirect and a verifier whose S256 is its challenge, and is consumed (section 4.6 of RFC 7636) |
| `AuthRuns.CodeIsRedeemedOnce` | platform/ithute-auth/app/oauth.py:464-478 | in no run does one code buy two sessions |
| `AuthRuns.CodeWasIssued` | platform/ithute-auth/app/oauth.py:107-133 | every stored code carries the user, client, redirect, challenge, method and expiry of the authorization that issued it |
| `AuthRuns.RedemptionFollowsAuthorization` | platform/ithute-auth/app/oauth.py:107-497 | a session bought with a code goes back to an authorization by its user for its client and redirect, whose challenge the verifier meets, made less than the code's lifetime before |
| `AuthRuns.RefreshSupersedes` | platform/ithute-auth/app/oauth.py:532-548 | a refresh gives the holder of the presented token a fresh one, and nobody holds the old one any more |
| `AuthRuns.SupersededTokenIsRefused` | platform/ithute-auth/app/oauth.py:532-548 | once replaced, a token is refused at every later refresh and ends no session at logout |
| `AuthRuns.BearerChecksAgree` | platform/ithute-auth/app/account.py:73-103 | in every reachable state both checks accept a bearer exactly when the session exists, belongs to that user and client, is unrevoked and unexpired, and otherwise both answer 401 |
| `OutboxTable.Outbox.ClaimNext` | platform/ithute-auth/app/push_event_worker.py:53-79 | leases, for the configured time but at least 5 seconds, the oldest due undelivered row no other transaction holds, and finds nothing exactly when there is none |
| `OutboxTable.Outbox.SettleSuccess` | platform/ithute-auth/app/push_event_worker.py:82-91 | true exactly for an undelivered row, which becomes delivered and has one attempt more |
| `OutboxTable.Outbox.SettleFailure` | platform/ithute-auth/app/push_event_worker.py:94-102 | adds one attempt to an undelivered row and makes it wait 2, 4, 8, 16, 32, 64 or 128 seconds after its first seven, 256 after later ones; leaves delivered rows alone |
| `OutboxTable.Outbox.RunOnce` | platform/ithute-auth/app/push_event_worker.py:113-140 | claims at most 100 events, fewer only if nothing is due any more; exactly the claimed ones the receiver accepts become delivered, and the result is the number of rows that did |
| `OutboxTable.BackoffStaysBelowCap` | platform/ithute-auth/app/push_event_worker.py:31-32 | waits lie between 2 and 256 seconds and double up to the eighth attempt |
| `OutboxTable.WaitIsBackoff` | platform/ithute-auth/app/push_event_worker.py:31-32 | the backoff after each number of attempts, in seconds |
| `OutboxRuns.RunKeepsInvariant` | platform/ithute-auth/app/push_event_worker.py:53-140 | with any interleaving, crash and late settlement an undelivered event falls due within max(lease, 256) seconds, and every success is counted once |
| `OutboxRuns.ResultsSumToDelivered` | platform/ithute-auth/app/push_event_worker.py:113-140 | in a run without crashes, once all calls have returned, their results sum to the delivered rows |
| `OutboxRuns.DeliveryIsFinal` | platform/ithute-auth/app/push_event_worker.py:64-102 | a delivered row is never claimed, changed or made undelivered again |
| `OutboxRuns.SettledAtMostOnce` | platform/ithute-auth/app/push_event_worker.py:82-91 | each event is settled successfully at most once, however late its workers are |
| `OutboxRuns.RowsOnlyGrow` | platform/ithute-auth/app/push_event_worker.py:53-102 | no step of any worker takes a row out of the table |
| `OutboxRuns.UnhandledEventFallsDue` | platform/ithute-auth/app/push_event_worker.py:64-73 | an undelivered event that nobody claims or settles for max(lease, 256) seconds is due, and claimable unless held by another transaction or behind an older due one |
| `OutboxRuns.TimelyRunIsExclusive` | platform/ithute-auth/app/push_event_worker.py:53-79 | if every live worker settles within its lease, no two hold one undelivered event |
| `OutboxRuns.TimelyMeansExclusive` | platform/ithute-auth/app/push_event_worker.py:53-79 | every held event stays leased to its one holder throughout a run if and only if no live worker overruns its lease |
| `OutboxRuns.LapsedLeaseLetsTwoHold` | platform/ithute-auth/app/push_event_worker.py:56-77 | wherever an event under a live worker is claimable, another worker can start, claim it, and hold it too |
| `OutboxRuns.ExpiredLeaseLetsTwoHold` | platform/ithute-auth/app/push_event_worker.py:56-58 | for every lease length a run leads to two workers holding the same undelivered event |
| `OutboxRuns.LateFailureShortensLease` | platform/ithute-auth/app/push_event_worker.py:94-102 | a late failure report whose backoff ends before the current holder's lease makes the event due sooner, and lets a third worker claim it while the holder is within its lease |
| `OutboxRuns.LateFailureLetsTwoHold` | platform/ithute-auth/app/push_event_worker.py:94-102 | for every lease length a run leads there: two workers hold one event, both within their leases |
| `Invitation.Service.CreateInvitation` | platform/ithute-auth/app/identity_invitations.py:188-261 | an activated invitation is answered unchanged; otherwise the row is made or refreshed with a new challenge |
| `Invitation.Service.ResendInvitation` | platform/ithute-auth/app/identity_invitations.py:265-299 | 404, 409 and the 60-second cooldown's 429, else a refreshed challenge |
| `Invitation.Service.CancelInvitation` | platform/ithute-auth/app/identity_invitations.py:303-325 | 404 and 409, else cancelled |
| `Invitation.ServiceRefusals` | platform/ithute-auth/app/identity_invitations.py:265-325 | the statuses of resend and cancel: 404 for unknown or foreign invitations, 409 for activated ones, 429 within 60 seconds of the last delivery; refusals change nothing, and a cancellation marks the row and the time |
| `Invitation.Service.ActivateInvitation` | platform/ithute-auth/app/identity_invitations.py:340-483 | every refusal with its status and what it leaves behind, or the invitation tied to the contact's owner |
| `Invitation.ActivationIsAnsweredExactly` | platform/ithute-auth/app/identity_invitations.py:340-483 | in a reachable state an activation is answered 404, 409, 410, 401, 403, 422 or 409 for the first reason that applies, said of the row and the guess alone, and otherwise ties the row to the owner of its contact and answers that subject |
| `Invitation.RefusedActivationLeaves` | platform/ithute-auth/app/identity_invitations.py:363-403 | a refused activation marks an expired row so, counts a wrong guess, locks the row with the eighth, and changes nothing else |
| `Invitation.WrongGuessIsAnswered401` | platform/ithute-auth/app/identity_invitations.py:378-403 | 401 is the answer exactly to a guess that matches neither token nor code of a row still open |
| `Invitation.Service.RefreshChallenge` | platform/ithute-auth/app/identity_invitations.py:92-184 | a refresh replaces the challenge, resets attempts and cancellation, and records the delivery |
| `Invitation.RunKeepsInvariant` | platform/ithute-auth/app/identity_invitations.py:92-483 | in every reachable state activated, consumed and tied are one, cancelled and cancelled_at are one, attempts stay within 8, 8 attempts mean locked or cancelled, each activation is announced exactly once, and contacts stay unique |
| `Invitation.OpenMeansGuessesLeft` | platform/ithute-auth/app/identity_invitations.py:373-376 | an invitation still open has guesses left: the guard never fires |
| `Invitation.ActivationIsFinal` | platform/ithute-auth/app/identity_invitations.py:349-356 | an activated row never changes again, its identity included |
| `Invitation.ActivationNeedsChallenge` | platform/ithute-auth/app/identity_invitations.py:357-459 | activation happens only for a matching guess, in time, on an open invitation, and ties it to the active owner of the invited contact |
| `Invitation.ChallengeIsLatest` | platform/ithute-auth/app/identity_invitations.py:92-102 | a row's challenge and expiry are those of the latest create or resend that went through |
| `Invitation.OnlyRenewalsChangeChallenge` | platform/ithute-auth/app/identity_invitations.py:92-184 | a create or resend that goes through draws a new challenge for 24 hours, resets attempts and cancellation and records the delivery; no other request touches challenge or expiry |
| `Invitation.ActivationAnswersLatestChallenge` | platform/ithute-auth/app/identity_invitations.py:357-385 | an activation answers the challenge drawn last, within 24 hours of its being drawn |
| `Invitation.AttemptsCountWrongGuesses` | platform/ithute-auth/app/identity_invitations.py:387-402 | between refreshes the counter counts exactly the guesses at an open row that match neither token nor code |
| `Invitation.EightWrongGuessesCloseChallenge` | platform/ithute-auth/app/identity_invitations.py:387-402 | no challenge survives eight such guesses: later activations fail until a refresh |
| `Sha256Native.CompressBlock` | engines/rust-core/src/lib.rs:176-235 | the in-place compression equals the one of section 6.2.2 of FIPS 180-4, for any constants |
| `Sha256Native.ExpandSchedule` | engines/rust-core/src/lib.rs:177-194 | the array filled in place is the message schedule |
| `Sha256Native.FoldConcat` | engines/rust-core/src/lib.rs:240-254 | absorbing blocks of one part after another is absorbing their concatenation |
| `Sha256Native.TailClosesPadding` | engines/rust-core/src/lib.rs:245-254 | full blocks and then one or two tail blocks absorb the padded message of section 5.1.1 |
| `Sha256Native.Digest` | engines/rust-core/src/lib.rs:237-261 | equals SHA-256 for every message shorter than 2^61 bytes, and the same with the length field reduced modulo 2^64 beyond |
| `Sha256Native.HmacDigest` | engines/rust-core/src/lib.rs:263-288 | equals HMAC-SHA256 of section 2 of RFC 2104 for every key length the hash is defined for |
| `Sha256Spec.BigEndianRoundTrip` | engines/rust-core/src/lib.rs:249-251 | the big-endian length field can be read back |
| `Sha256Spec.WordRoundTrip` | engines/rust-core/src/lib.rs:179-186 | four bytes, most significant first, and the word they make determine each other |
| `Sha256Spec.BigSigma0Shifts` | engines/rust-core/src/lib.rs:213 | the function of section 4.1.2 of FIPS 180-4, with each rotation written as shifts, for every word |
| `Sha256Spec.BigSigma1Shifts` | engines/rust-core/src/lib.rs:206 | the function of section 4.1.2 of FIPS 180-4, with each rotation written as shifts, for every word |
| `Sha256Spec.SmallSigma0Shifts` | engines/rust-core/src/lib.rs:188 | the function of section 4.1.2 of FIPS 180-4, with each rotation written as shifts, for every word |
| `Sha256Spec.SmallSigma1Shifts` | engines/rust-core/src/lib.rs:189 | the function of section 4.1.2 of FIPS 180-4, with each rotation written as shifts, for every word |
| `Sha256Spec.ChooseTakesEither` | engines/rust-core/src/lib.rs:207 | the choice function takes each bit from the second word where the first has a one, and else from the third |
| `Sha256Spec.MajorityOfThree` | engines/rust-core/src/lib.rs:214 | the majority function gives each bit that two of the three words have |
| `Sha256Tables.PrimesAreListed` | engines/rust-core/src/lib.rs:165-174 | a number up to 311 is in the row of its range if and only if it is prime |
| `Sha256Tables.RoundConstantsAreCubeRoots` | engines/rust-core/src/lib.rs:165-174 | each round constant is the first 32 bits of the fractional part of the cube root of its prime (section 4.2.2 of FIPS 180-4) |
| `Sha256Tables.InitialValueIsSquareRoots` | engines/rust-core/src/lib.rs:160-163 | the initial hash value is that of the square roots of the first eight primes (section 5.3.3) |
| `DnsName.EncodeName` | scripts/verify-authoritative-dns.py:26-38 | succeeds exactly for names whose labels are ASCII of 1 to 63 characters, and writes their wire form |
| `DnsName.WireLabelMeans` | scripts/verify-authoritative-dns.py:31-34 | a label can be written if and only if it has 1 to 63 characters, all ASCII |
| `DnsName.ReadName` | scripts/verify-authoritative-dns.py:41-74 | terminates on every byte string; succeeds exactly when a finite chain of labels and pointers ends at a root label, with that chain's text, and an end beyond the start and inside the message |
| `DnsName.RoundTrip` | scripts/verify-authoritative-dns.py:26-74 | a written name, anywhere in any message, reads back as itself with one closing dot, and the reading stops just past it |
| `DnsName.CompressedRoundTrip` | scripts/verify-authoritative-dns.py:41-74 | labels followed by a pointer read as those labels before the name the pointer leads to, and the reading stops just past the pointer (section 4.1.4 of RFC 1035) |
| `DnsName.NameByFirstByte` | scripts/verify-authoritative-dns.py:46-72 | by its first byte a name is the root, a label before a name, or a pointer to a name; anything else is none |
| `DnsName.ReadingIsUnique` | scripts/verify-authoritative-dns.py:41-74 | a message has one reading at an offset |
| `DnsName.LoopNeverEnds` | scripts/verify-authoritative-dns.py:49-51 | an offset met twice belongs to no finite chain, so the loop check rejects only what never ends |
| `DnsName.MasksAreThresholds` | scripts/verify-authoritative-dns.py:53-69 | the bit masks of the source are the comparisons the model uses |
| `DnsName.PointerIsTwoBytes` | scripts/verify-authoritative-dns.py:57 | the source's shift and or put a pointer together as the model does |
| `DnsName.JoinSplit` | scripts/verify-authoritative-dns.py:31-66 | joining the labels of a name gives the name |
| `Subnet.ChooseProjectSubnet` | infrastructure/hosting-agent/network_policy.py:20-41 | the first block from the hashed start that overlaps no used network, aligned and inside the pool; fails exactly without a project id or when every block overlaps a used network |
| `Subnet.ProbeVisitsEachOnce` | infrastructure/hosting-agent/network_policy.py:35-36 | the circular probe passes every block exactly once |
| `Subnet.ProbeWalksPool` | infrastructure/hosting-agent/network_policy.py:31-37 | the probe starts at the block of the hashed index and goes on with the block behind, after the pool's last with its first |
| `Subnet.BlockIsInside` | infrastructure/hosting-agent/network_policy.py:30-37 | each candidate is a canonical network inside the pool |
| `Subnet.BlocksAreDisjoint` | infrastructure/hosting-agent/network_policy.py:37-38 | blocks of one pool overlap only themselves |
| `Subnet.OverlapMeansSharedAddress` | infrastructure/hosting-agent/network_policy.py:38 | the end-point test for overlap holds if and only if some address is in both networks |
| `Subnet.RunIsDisjoint` | infrastructure/hosting-agent/network_policy.py:20-41 | networks the allocator chooses one after another, from any hashes, are disjoint from each other and from what was in use |
| `Subnet.RunExhaustsPool` | infrastructure/hosting-agent/network_policy.py:35-41 | from an unused pool exactly as many allocations succeed as there are blocks |
| `Activation.Host.Activate` | infrastructure/hosting-agent/agent.py:315-376 | fails if and only if a command it comes to raises, and then with the first such; success leaves the candidate running, no backup and both reports; each failure leaves exactly the host AfterFailure gives and the reports of the steps before it; no other container changes |
| `Activation.ReleaseSurvivesExactly` | infrastructure/hosting-agent/agent.py:307-376 | after a failed deployment the previous container runs under the current name if and only if the failure came between a rename that took effect and a removal of the backup that did not |
| `Activation.LostReleaseIsGone` | infrastructure/hosting-agent/agent.py:307-376 | in every other case no name on the host holds it any more |
| `Activation.FailedFirstDeployment` | infrastructure/hosting-agent/agent.py:307-376 | a failed first deployment leaves no candidate and no backup, but brings up a backup of an earlier attempt if it failed before clearing it |
| `Activation.Host.Deploy` | infrastructure/hosting-agent/agent.py:330-368 | the first command to raise, if any, what the backup name then holds, what was reported, and that nothing but the two names changed |
| `Activation.Host.RunOnFreePort` | infrastructure/hosting-agent/agent.py:258-304 | succeeds if and only if some attempt starts and all before it met a taken port, and answers the port of that attempt; touches no other container |
| `Activation.Host.RestorePrevious` | infrastructure/hosting-agent/agent.py:307-312 | the backup, if any, ends running under the current name, and whatever had that name is gone |
| `Activation.OriginCandidatesAreDistinct` | infrastructure/hosting-agent/agent.py:251-255 | the candidate ports are distinct |
| `Activation.OriginCandidates` | infrastructure/hosting-agent/agent.py:251-255 | at most 128 candidates, as many as the range allows, all inside it |
| `Activation.OriginCandidatesWrap` | infrastructure/hosting-agent/agent.py:251-255 | the candidates start at the hashed port and follow each other, the range's first port after its last |
| `Activation.PortsToTry` | infrastructure/hosting-agent/agent.py:284-287 | the port of the previous container comes first, then the candidates, none twice |
| `ZipPolicy.InspectZip` | infrastructure/hosting-upload/zip_safety.py:36-92 | accepts exactly the archives whose names, duplicates, types, counts, sizes and ratios meet the limits, and returns their totals |
| `ZipPolicy.MaterializeZip` | infrastructure/hosting-builder/verified_zip.py:74-118 | accepts exactly the archives that meet the builder's limits, and unpacks exactly their files |
| `ZipPolicy.AcceptedExactly` | infrastructure/hosting-upload/zip_safety.py:21-92 | inspection accepts exactly the archives of relative names without a step upwards, home directory or drive letter, whose members differ in path, are plain files or directories, unencrypted, and within the given numbers |
| `ZipPolicy.BuildableExactly` | infrastructure/hosting-builder/verified_zip.py:34-116 | the builder accepts exactly those of relative names without a step upwards, within 100,000 files, 2 GiB in all, 512 MiB each and a ratio of 250 |
| `ZipPolicy.StepUpIsRefused` | infrastructure/hosting-builder/verified_zip.py:37 | no archive with ".." between slashes or ends of a member name is accepted by either gate |
| `ZipPolicy.PartsAreNamedPieces` | infrastructure/hosting-upload/zip_safety.py:26-29 | the parts of a path are exactly the pieces between its slashes other than "" and "." |
| `ZipPolicy.SamePathMeansSameParts` | infrastructure/hosting-upload/zip_safety.py:53-56 | two names are duplicates if and only if their parts are the same |
| `ZipPolicy.ModesOfFiles` | infrastructure/hosting-upload/zip_safety.py:60-64 | the type bits of a mode are none, a directory's or a regular file's exactly in three ranges |
| `ZipPolicy.InspectionImpliesBuild` | infrastructure/hosting-builder/verified_zip.py:81-116 | whatever inspection accepts, with limits no looser than the builder's, the builder accepts |
| `ZipPolicy.AggregateRatioHolds` | infrastructure/hosting-upload/zip_safety.py:87-88 | files within the ratio limit one by one are within it together |
| `ZipPolicy.RatioTests` | infrastructure/hosting-upload/zip_safety.py:80-83 | the two per-member ratio tests together are the ratio limit |

## Left out

- `neighbors`, `summary` and plain getters of the cluster graph: single loops without an argument behind them.
- C++ exceptions and allocation failure (return code 2), and the mutable statics behind the C interface.
- std::priority_queue is modelled as a textbook binary heap; hash maps as finite maps, iterated in an arbitrary order.
- Scores are reals with two infinities and a not-a-number value; rounding plays no part in comparing them.
- Tokens, ids and codes are assumed fresh when drawn and their digests injective; the S256 transformation is a parameter. JWT, password hashing, TOTP, WebAuthn and cookies are not modelled: a request carries whether its credentials were right, and the claims of a bearer.
- Login throttling, lockout counters, scope, state and nonce checks, risk scores, devices' own rows, audit events and `step_up_at`: they decide no session property stated here.
- Requests are serialised: each is one transaction. The refresh endpoint of `main.py` takes no row lock, and nothing is claimed for overlapping refreshes.
- `AuthService.Service.AcceptBearer`: the commit inside `authenticated_context` is a request of its own, so a route that follows it is modelled as the next transaction.
- `AuthService.Service.SwitchUserActive`: `update_user_security` skips the assignment when nothing changes; the portal's form, which always assigns, is modelled.
- The outbox row's payload and error text; the leased worker's clock is the database clock, and time only moves forward in runs.
- `OutboxTable.Outbox.RunOnce`: stated for one worker alone; interleaved workers are the subject of `OutboxRuns`.
- Invitations whose contact normalises to nothing. The request validator leaves one contact, so a clash between an e-mail address and a phone number of two identities cannot arise and is not modelled; message texts are not modelled.
- `Invitation.Service.ActivateInvitation`: the unique-column failure of the flush is an input, since serialised requests cannot produce it.
- `mime_scan`, byte statistics and the foreign-function wrappers of the Rust core.
- `Sha256Native.HmacDigest`: messages and keys of 2^61 bytes or more, for which the standard defines no hash.
- The record loops of `query` in the DNS script, sockets and TCP framing.
- `parse_pool` and `parse_existing_subnets`: address parsing. The pool is taken to be canonical, and the hash of the project id is an input.
- `Activation.Host.RestorePrevious`: stated for the case that its own docker commands work. Each other command may fail with or without having taken effect; `exists` is taken to be truthful, a data volume that is not there counts as a `RemoveVolume` that works, and crashes of the agent itself are not modelled.
- Path resolution through symbolic links, clashes of files with directories during extraction, and checksums of the archive.
- `ZipPolicy.InspectZip`: ratios are compared as integers, without the rounding of floating-point division; `CheckMember` is the part both loops repeat, written once.
- Everything else of the platform: HTTP, pages, mail, billing, metering, and the infrastructure scripts.
