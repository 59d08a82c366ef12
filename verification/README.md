# Verification of the LSYL tunnel

This Dafny project models the parts of the tunnel whose correctness depends on state that several
operations share: the NAT flow table of the client's virtual redirect, the server's admission,
failure tracking and shutdown, the registry of reverse listeners, the Android runtime's small
concurrent protocols, the byte rate limiter, profile switching, the permanent-block file, the
business-flow view of the logs, and the link between configuration and reverse authorization.

`dafny verify dfyconfig.toml` checks everything.

## How the model is built

- **State under a lock** is a class whose methods are the sections under that lock
  (`VirtualRedirect`, `ConnectionLimiter`, `FailTracker`, `Lifecycle`, `ReverseListener`,
  `RateLimiter`). Each method is proved against a function of the old state. What the functions
  keep is proved in lemmas about plain values (`LimiterModel`, `FailModel`, `SuccessMarks`), against
  a ledger that holds the full history the code itself no longer has.
- **Interleavings** of threads are state machines over atomic steps: `Lifecycle`,
  `ReverseListener`, `TrackerSteps` with `BlockQuery`, `RecoveryGate`, `RuntimeController` and
  `PendingCloseables`. A run is any
  sequence of enabled steps, and the theorems hold at every point of every run.
- **What a function of the model computes** is said a second time by a lemma that does not use it, in terms
  of the texts, bytes, times or leases it is about (`FlagsAreBits`, `DecisionIsTrue`, `ResultOfGroup`, and
  the lemmas whose names end in `Means`). The state machines have runs that take every kind of step.
- **Time** is an integer number of nanoseconds that comes in as a parameter. The order in which Go
  visits a map is any order. A system call that may fail is a parameter or a free choice.
- **Text** is a sequence of characters where it matters: the permanent-block file (`PermanentText`)
  and endpoints (`HostPort`). Parsing an IP address and testing it for loopback are function
  parameters; what is asked of them is met by Go's own functions
  (`PermanentBlocks.DemandsCanBeMet` shows that it can be met at all).

| files | subject |
|---|---|
| `Packet`, `NatPorts`, `VirtualRedirect`, `RedirectRewrite`, `RedirectRoundTrip` | the virtual redirect |
| `Timestamps`, `LimiterModel`, `ConnectionLimiter`, `Lifecycle` | admission and shutdown |
| `ReverseListener` | reverse connections |
| `FailModel`, `SuccessMarks`, `TrackerSteps`, `BlockQuery`, `FailTracker` | temporary blocks, promotions, persistence |
| `PermanentText`, `PermanentBlocks`, `TrackedPermanents` | the permanent-block file and the set in memory |
| `RecoveryGate`, `RuntimeController`, `PendingCloseables` | Android concurrency |
| `RateLimiter` | bandwidth limiting |
| `ProfileSwitch` | switching client profiles |
| `BusinessMerge`, `BusinessFlow` | the business-flow view |
| `HostPort`, `ReverseConfig` | configuration and reverse authorization |
| `Collections`, `Text`, `Sorting` | shared small facts |

## Where the code does less than it seems to promise

Each of these is stated by the members it names, with the exact condition and, where a reader may
doubt that it happens, a run or an input.

1. `blockKind` looks at the permanent set before it takes a lock. An address that is promoted after
   that look has no entry any more when the entries are read, and none when they are looked at
   again, so the query answers "not blocked". The second look at the permanent set comes too late to
   help. A standing block is missed exactly in this way (`BlockQuery.BlockMissedIffPromoted`,
   `BlockQuery.ReadMissesPromotion`, `BlockQuery.RecheckMissesPromotion`).
2. `markSuccessful` reads the clock before the lock. A reading from another day resets the marks of
   the current one; an address is protected exactly when every reading since its mark is of its day
   (`SuccessMarks.ProtectedIffUndisturbed`, and `SuccessMarks.ProtectedIffMarkedInTime` in terms of the
   readings alone), and without that it can be promoted on the day it
   succeeded (`FailTracker.StaleMarkingPromotes`).
3. Appending a permanent block to a file whose last line is not terminated joins two lines into one
   entry; the append works exactly when nothing but white space follows the last newline
   (`PermanentText.AppendWorksIffTailBlank`).
4. Loading the permanent blocks keeps a lone carriage return inside a line while removing them takes
   it for a line end. The two agree exactly on texts of which each line is safe
   (`PermanentText.NormalKeepsEntriesIff`); otherwise a removal can bring up an address that was never
   loaded (`PermanentBlocks.RemovalSplitsEntry`).
5. Saving and reloading a forward whose port and address contradict each other changes its address.
   `SaveConfig` refuses such forwards first (`ReverseConfig.DefaultsUndoSaveIff`).
6. Registering an inbound connection under a stream id that is in use loses the connection that
   waits there: it is neither handed over nor closed (`ReverseListener.DisposedOnceIffNotOverwritten`,
   `ReverseListener.ReusedIdLosesConnection`). Ids are random, so this is a matter of chance.
7. Loading the state file does not look at the size of the table
   (`FailModel.LoadFitsTableIff`, `FailModel.OversizedLoad`); the table is then never larger than
   what was loaded.
8. The rate limiter starts one burst in the past, but a slot never starts before the current clock
   reading, so the burst is granted only to a reading from before the creation
   (`RateLimiter.BurstIsGrantedIff`).

## Model

| member | source | states |
|---|---|---|
| `Packet.ParseWithAddressing` | src/client/tunnel/virtual_redirect.go:344-353 | After new addresses and ports are written into a TCP packet, parsing reads exactly those back with the same header length, and no byte outside the four fields has moved |
| `Packet.AddressingDeterminesPacket` | src/client/tunnel/virtual_redirect.go:344-353 | Two packets of one length that agree in their addressing and in all bytes outside it are the same packet |
| `Packet.PutAddressing` | src/client/tunnel/virtual_redirect.go:196-233 | Overwriting the four fields in place, one after the other, gives the packet that `WithAddressing` describes |
| `Packet.ParseMeans` | src/client/tunnel/virtual_redirect.go:344-353 | Which packets are TCP over IPv4, and at which bytes, most significant first, the addresses and ports are |
| `Packet.FlagsAreBits` | src/client/tunnel/virtual_redirect.go:306-318 | A flag is found exactly if its bit is set, whatever the other bits of the byte are: a reset is one also with ACK |
| `NatPorts.EveryPortVisited` | src/client/tunnel/virtual_redirect.go:292-303 | From any start in the NAT range every port of the range is reached within one cycle of increments, despite the wrap at 16 bits |
| `NatPorts.SomePortFree` | src/client/tunnel/virtual_redirect.go:282-304 | Pigeonhole: as long as fewer response keys are taken than the range has ports less one, some port of the range is nonzero, free and different from the local port |
| `VirtualRedirect.InverseMapsHaveEqualSize` | src/client/tunnel/virtual_redirect.go:237-265 | Two mutually inverse flow maps have the same size |
| `VirtualRedirect.DistinctNATPorts` | src/client/tunnel/virtual_redirect.go:237-265 | Different connections never share a response key, so flows of one listener have distinct NAT ports |
| `VirtualRedirect.NormalizeRules` | src/client/tunnel/virtual_redirect.go:110-144 | A rule list is accepted exactly when it is not too long, every rule is usable, and no endpoint and no local port occurs twice; the result lists the same rules, ordered by the text of the address and then by port |
| `VirtualRedirect.UsableDotted` | src/client/tunnel/config.go:335-348 | Usable are the addresses whose first part is between 1 and 223 and not 127, outside 169.254 |
| `VirtualRedirect.TextOrderDecides` | src/client/tunnel/virtual_redirect.go:137-142 | The order of texts is that of a dictionary |
| `VirtualRedirect.LoadRules` | src/client/tunnel/virtual_redirect.go:146-165 | The loaded tables hold every rule, are in one-to-one correspondence, and no target is the loopback address |
| `VirtualRedirect.OldestOfSample` | src/client/tunnel/virtual_redirect.go:267-281 | Of a sample of at most 32 flows taken in any order, the least recently seen one |
| `VirtualRedirect.FlowLasts` | src/client/tunnel/virtual_redirect.go:320-334 | A flow that is being closed expires ten minutes after its last packet, any other one a day after it |
| `VirtualRedirect.RedirectTable.constructor` | src/client/tunnel/virtual_redirect.go:146-165 | A new table satisfies the invariant and knows exactly the given rules |
| `VirtualRedirect.RedirectTable.AllocateNATPort` | src/client/tunnel/virtual_redirect.go:282-304 | Succeeds exactly when some nonzero port other than the local one is not taken with it; prefers the wanted port, otherwise takes the first free one in cyclic order, and moves the cursor just behind it |
| `VirtualRedirect.RedirectTable.EvictStaleFlow` | src/client/tunnel/virtual_redirect.go:267-281 | Removes one flow, the oldest of a sample, from both maps and nothing else |
| `VirtualRedirect.RedirectTable.CleanupFlows` | src/client/tunnel/virtual_redirect.go:320-334 | At most once a minute removes from both maps exactly the flows unseen for ten minutes if they are being closed, and for a day if not |
| `VirtualRedirect.RedirectTable.RemoveFlow` | src/client/tunnel/virtual_redirect.go:336-342 | Removes one flow from both maps and keeps the invariant |
| `VirtualRedirect.RedirectTable.EnsureTargetFlow` | src/client/tunnel/virtual_redirect.go:237-265 | Never fails in a table that satisfies the invariant: it reuses the unexpired flow of the connection or adds one under a free NAT port, evicting exactly one flow exactly when 8192 remain after the sweep; all other flows are untouched |
| `VirtualRedirect.RedirectTable.UpdateFlowState` | src/client/tunnel/virtual_redirect.go:306-318 | A reset removes the flow; FIN marks it closing, SYN unmarks it, and nothing else changes |
| `RedirectRewrite.ClassifyMeans` | src/client/tunnel/virtual_redirect.go:184-235 | Redirected are exactly the outbound packets to the target of a rule, and the outbound ones on loopback from the listener of a rule |
| `RedirectRewrite.RewritePacket` | src/client/tunnel/virtual_redirect.go:184-235 | For every packet and every valid table: the drop action is unreachable, and a packet that is passed is unchanged. A request leaves for its flow's loopback addressing, and the table is then exactly the swept one with its flow in it, less one victim if 8192 others remained, less its own flow on a reset. A reply with a known key leaves with the swapped original four-tuple on the flow's last interface, and the table stays as it is, less the flow on a reset. The flags decide whether the flow counts as closing; every other flow is untouched |
| `RedirectRoundTrip.DeliverOther` | src/client/tunnel/virtual_redirect.go:184-235 | A flow held before a packet is held after it exactly if the packet is ignored, or a request after whose sweep the flow remains and that does not evict it, or a reply, and is no reset of its own; a flow that was dropped never returns, and what it remembers changes only with a request of that flow |
| `RedirectRoundTrip.SendRequest` | src/client/tunnel/virtual_redirect.go:184-215 | The request leaves with its flow's loopback addressing and every other byte kept, and its flow, which has the request's four-tuple and interface, is in the table unless the request is a reset |
| `RedirectRoundTrip.Carry` | src/client/tunnel/virtual_redirect.go:184-265 | After any request and any traffic, a flow that is still in the table remembers the interface of the connection's last request; and it is still there if none of its packets was a reset, the packets fall into less than the closing time to live, and they are too few to fill the table |
| `RedirectRoundTrip.AnswerReply` | src/client/tunnel/virtual_redirect.go:217-235 | If the flow is in the table, a reply with the swapped loopback addressing is injected with exactly the swap of the original four-tuple, every other byte kept, on the interface the flow remembers; the flow then stays unless the reply is a reset |
| `RedirectRoundTrip.RoundTrip` | src/client/tunnel/virtual_redirect.go:184-235 | For any request, any traffic in between and any reply with the swapped loopback addressing: if the flow is in the table before the reply, the reply comes out as the swap of the original four-tuple, every other byte kept, on the interface of the last request. The flow is there whenever the traffic is undisturbed in the sense of `Carry`, and whenever it is there afterwards |
| `Timestamps.PruneAgrees` | src/server/tunnel/connection_limiter.go:197-211 | A pruned list of times answers every question about the window, now and later, as the full history does |
| `Timestamps.AdmissionKeepsRate` | src/server/tunnel/connection_limiter.go:87-106 | Admitting one more when the last window has room keeps every half-open window of the whole history within the limit |
| `Timestamps.KeepRecent` | src/server/tunnel/connection_limiter.go:197-211 | Compacting the list slot by slot keeps exactly the times after the cutoff, in order |
| `LimiterModel.ActiveIsSumOfEntries` | src/server/tunnel/connection_limiter.go:55-106 | The number of unreleased leases is the sum of the per-address counters |
| `LimiterModel.EvictKeepsInv` | src/server/tunnel/connection_limiter.go:159-188 | Evicting an address without connections loses no lease and keeps every limit |
| `LimiterModel.GrantKeepsInv` | src/server/tunnel/connection_limiter.go:63-106 | Admitting under all four limits keeps counters, limits and rates in agreement with the ledger of leases and admissions |
| `LimiterModel.ReturnKeepsInv` | src/server/tunnel/connection_limiter.go:108-133 | Giving a lease back keeps them in agreement, and the address is dropped only when it holds no other lease |
| `LimiterModel.RateLaw` | src/server/tunnel/connection_limiter.go:63-106 | An address never evicted for capacity has at most maxRate admissions in any half-open window, over its whole history |
| `LimiterModel.RateDecisionIsExact` | src/server/tunnel/connection_limiter.go:87-95 | A known address is refused for its rate exactly when its true admissions in the window fill it, although only a pruned list is kept |
| `LimiterModel.DecisionIsTrue` | src/server/tunnel/connection_limiter.go:55-106 | The decision in terms of the leases held and the true admissions since the last eviction: the first limit reached of all connections, of connected addresses for a new one, of the address's connections, and of its admissions in the window |
| `ConnectionLimiter.Limiter.constructor` | src/server/tunnel/connection_limiter.go:30-53 | Takes over the configured limits, with one second for a missing window and 8192 for a missing table size; nothing is tracked |
| `ConnectionLimiter.Limiter.Acquire` | src/server/tunnel/connection_limiter.go:55-106 | A request of a nonempty address is decided on by that address's own leases and admissions and charged to it, the empty one to "unknown"; leases and admissions of every other address stay. A lease is handed out exactly on admission, and an address is evicted only on admission to a full table; the entries afterwards are stated for every answer |
| `ConnectionLimiter.ChargesMean` | src/server/tunnel/connection_limiter.go:63-106 | The caller's entry is charged on admission and only seen on a refusal; of the other addresses with a connection or a recent admission none loses anything but old admissions, except the one evicted |
| `ConnectionLimiter.EvictsIffCrowded` | src/server/tunnel/connection_limiter.go:159-188 | A new address costs another its place exactly if as many addresses as the table holds have a connection or a recent admission |
| `ConnectionLimiter.Limiter.MakeRoomLocked` | src/server/tunnel/connection_limiter.go:159-188 | Fails exactly when the table is full of addresses with connections; otherwise prunes and, if still full, evicts the address without connections that was seen longest ago |
| `ConnectionLimiter.Limiter.ReleaseOnce` | src/server/tunnel/connection_limiter.go:97-133 | The first call gives back exactly this lease and prunes its entry, keeping the whole admission history and all evictions; every later call changes nothing |
| `ConnectionLimiter.Limiter.Cleanup` | src/server/tunnel/connection_limiter.go:150-157 | Prunes every entry and drops exactly the idle ones |
| `Lifecycle.ServerLifecycle.Seal` | src/server/tunnel/lifecycle.go:91-101 | Sets closing and takes a snapshot of exactly the tracked connections |
| `Lifecycle.ServerLifecycle.TrackEntryConn` | src/server/tunnel/lifecycle.go:60-74 | A connection is tracked exactly when closing is not set |
| `Lifecycle.NothingAddedAfterClosing` | src/server/tunnel/lifecycle.go:30-74 | Once closing is set no step of any thread adds a worker or a tracked connection |
| `Lifecycle.LeasesConserved` | src/server/tunnel/lifecycle.go:60-89 | Over every interleaving a lease is released at most once, and an unreleased one belongs to a connection that is tracked or still in the accept loop |
| `Lifecycle.CloseReleasesEverything` | src/server/tunnel/lifecycle.go:91-134 | When Close has returned, every lease ever granted was released exactly once, the total is zero, and no worker or connection is left |
| `Lifecycle.ReturnIsFinal` | src/server/tunnel/lifecycle.go:91-134 | After Close has returned nothing changes any more in any run |
| `Lifecycle.SomeRunReturns` | src/server/tunnel/lifecycle.go:30-134 | There is a run in which one connection is served, another refused because Close came in between, and Close returns |
| `Lifecycle.AcceptorMayStop` | src/server/tunnel/lifecycle.go:40-49 | There is a run in which the accept loop ends by itself |
| `ReverseListener.Listener.AddControl` | src/server/tunnel/reverse.go:389-397 | A control is accepted exactly when the listener is open and has none |
| `ReverseListener.Listener.TakePending` | src/server/tunnel/reverse.go:428-438 | Takes the connection out, closes its channel once, and leaves the other entries alone |
| `ReverseListener.Listener.Close` | src/server/tunnel/reverse.go:456-474 | Closes every pending connection and channel once, empties the listener and shuts it |
| `ReverseListener.DisposedOnceIffNotOverwritten` | src/server/tunnel/reverse.go:278-337 | In every interleaving and for every choice of stream ids: when the handler has returned, its connection is pending nowhere, and it was handed to exactly one stream or closed exactly once, never both, if and only if no other connection was registered under its id while it waited; otherwise neither happened |
| `ReverseListener.DisposedExactlyOnce` | src/server/tunnel/reverse.go:278-337 | It is enough that no stream id is pending at the moment it is registered, whether or not it was used before |
| `ReverseListener.DoneClosedOnce` | src/server/tunnel/reverse.go:417-448 | The channel of a registration is never closed twice, and is closed exactly when its connection has stopped being pending other than by being overwritten |
| `ReverseListener.ReusedIdLosesConnection` | src/server/tunnel/reverse.go:417-426 | A run that draws one id twice: the first connection is neither handed over nor closed when its handler has returned, and that handler closes the second one |
| `ReverseListener.TakenInTime` | src/server/tunnel/reverse.go:278-337 | From every reachable state with a control, a new connection can wait, be handed to a stream, and leave the listener as it was |
| `ReverseListener.ExpiresClosed` | src/server/tunnel/reverse.go:326-345 | Or it can time out and be closed, and leave the listener as it was |
| `ReverseListener.ClosedAtOnce` | src/server/tunnel/reverse.go:265-306 | Without a control, without a worker or without an id it is closed at once |
| `ReverseListener.ClosedWhileWaiting` | src/server/tunnel/reverse.go:440-474 | If the listener or its pending connections are closed while it waits, it is closed by that |
| `ReverseListener.ClosedStaysEmpty` | src/server/tunnel/reverse.go:456-474 | A closed listener never again has a control or a pending connection |
| `FailModel.BlockDecisionIsExact` | src/server/tunnel/fail_tracker.go:113-132 | A failure starts a block exactly when the true failures in the window since the last reset, this one included, reach the limit; the kept list is always shorter than the limit |
| `FailModel.FailureKeepsInv` | src/server/tunnel/fail_tracker.go:113-132 | One more failure keeps the kept list, the running blocks and the disk in agreement with the history |
| `FailModel.PromotionDecisionIsExact` | src/server/tunnel/fail_tracker.go:151-160 | A protocol failure attempts a promotion exactly when the true protocol failures in the window since the last recorded success, attempt, unblock or eviction, this one included, reach the limit; the kept list is always shorter than the limit |
| `FailModel.ProtocolFailureKeepsInv` | src/server/tunnel/fail_tracker.go:151-160 | A protocol failure short of the limit keeps the kept list in agreement with its history, and disturbs nothing else |
| `FailModel.SuccessKeepsInv` | src/server/tunnel/successful_ip_history.go:129-136 | A recorded success resets the protocol failures of its address and keeps everything else in agreement |
| `FailModel.EvictKeepsInv` | src/server/tunnel/fail_tracker.go:207-225 | An eviction never drops a running block |
| `FailModel.CleanAllKeepsInv` | src/server/tunnel/fail_tracker.go:253-282 | A cleanup at any time loses no failure that still counts and no running block |
| `FailModel.CleanAllMeans` | src/server/tunnel/fail_tracker.go:253-282 | A cleanup leaves exactly the addresses with a running block or a failure within the window, with just these |
| `FailModel.RunningBlockIsSeen` | src/server/tunnel/fail_tracker.go:70-111 | Each of the two locked sections of a query sees a running block, and the recheck leaves it alone |
| `FailModel.RecheckKeepsInv` | src/server/tunnel/fail_tracker.go:86-111 | The recheck, with a clock reading that may be old, never erases a block renewed between the two sections |
| `FailModel.RecheckMeans` | src/server/tunnel/fail_tracker.go:99-110 | The recheck takes away a deadline that has run out, and the entry with it if there is nothing else in it, and changes nothing else |
| `FailModel.RecheckNeverAnswersPermanent` | src/server/tunnel/fail_tracker.go:90-97 | The recheck's own look at the permanent set never finds anything: a promoted address has no entry, and then both sections answer that nothing blocks it |
| `TrackerSteps.StepKeepsInv` | src/server/tunnel/fail_tracker.go:113-282 | Every change that a section makes to the shared state, and the unlocked change of the permanent set, keeps the invariant |
| `TrackerSteps.RunReaches` | src/server/tunnel/fail_tracker.go:70-282 | What a method of the tracker amounts to can be appended to any run, so the theorems about runs hold of it |
| `BlockQuery.BlockMissedIffPromoted` | src/server/tunnel/fail_tracker.go:70-111 | Over every run, a query misses a block that stands at its answering section if and only if the address was not permanent at the first look and was promoted, and not taken off again, between that look and the section, be it the read or the recheck |
| `BlockQuery.PromisedBlockIsAnswered` | src/server/tunnel/fail_tracker.go:70-132 | Over every run, a temporary block that no unblock, failed promotion or permanent unblock of a then permanent address lifts is answered temporary or permanent by every query that reads the clock before its deadline, as long as the address is not promoted inside the query |
| `BlockQuery.BlockIsPromised` | src/server/tunnel/fail_tracker.go:113-132 | A failure that completes the limit promises such a block until now plus the block time |
| `BlockQuery.ReadMissesPromotion` | src/server/tunnel/fail_tracker.go:70-85 | From any state with a running block and one protocol failure short of the limit, a run in which the read misses the block |
| `BlockQuery.RecheckMissesPromotion` | src/server/tunnel/fail_tracker.go:86-93 | From any state with an expired deadline and one failure of each kind short of the limit, a run in which the recheck answers that nothing blocks the address before the renewed deadline |
| `FailModel.UndisturbedQueryIsExact` | src/server/tunnel/fail_tracker.go:70-111 | Without interference the query answers blocked exactly for blocked addresses, and permanent exactly for those in the permanent set |
| `FailModel.ReloadKeepsBlocks` | src/server/tunnel/fail_persistence.go:97-179 | After a successful write every running block survives a restart: the loaded tracker promises it with its deadline, or has it as a permanent one |
| `FailModel.LoadedHasInv` | src/server/tunnel/fail_persistence.go:97-154 | Whatever the state file holds, what is loaded satisfies the tracker's invariant, so everything proved of a tracker holds after a start |
| `FailModel.LoadFitsTableIff` | src/server/tunnel/fail_persistence.go:97-154 | The table keeps its configured size if and only if the file holds no more addresses with a running block and no permanent one than that |
| `FailModel.OversizedLoad` | src/server/tunnel/fail_persistence.go:97-154 | For every configured size there is a file whose load exceeds it by one |
| `FailTracker.Tracker.Load` | src/server/tunnel/fail_persistence.go:97-154 | The start leaves exactly the running blocks of the file that are not listed as permanent, promised until their deadlines, and an error leaves what was loaded before it |
| `FailTracker.Tracker.AddFailure` | src/server/tunnel/fail_tracker.go:113-132 | The failure is recorded unless the address is empty, permanent, or new to a table that stays full of blocked addresses after a cleanup; putting the address in place loses nothing but what cleanup and one eviction take. It starts a block exactly when the true failures in the window reach the limit; the block is promised until now plus the block time and written, and otherwise the failure joins the history |
| `FailTracker.Tracker.TrackStateLocked` | src/server/tunnel/fail_tracker.go:195-229 | An address is refused exactly if it is empty, permanent, or new to a table that stays full of blocked addresses after a cleanup; otherwise it is in place, and the table has lost nothing but what the cleanup drops and, if still full, the unblocked address seen longest ago |
| `FailTracker.Tracker.AddProtocolFailure` | src/server/tunnel/fail_tracker.go:134-178 | On a day the address is protected nothing happens. Otherwise the failure is recorded unless the address is refused, and an attempt to promote is made exactly when the true protocol failures in the window reach the limit: the address becomes permanent and loses its entry if the file takes it, and keeps an empty entry if not |
| `FailTracker.Tracker.Recheck` | src/server/tunnel/fail_tracker.go:86-111 | Answers from the state it finds and clears a deadline only if it has run out |
| `FailTracker.Tracker.BlockKind` | src/server/tunnel/fail_tracker.go:70-111 | Run alone, the query gives the exact answer and keeps every promised block |
| `FailTracker.Tracker.SaveLocked` | src/server/tunnel/fail_persistence.go:156-179 | A successful write puts exactly the running blocks on disk, a failed one leaves the file as it was |
| `FailTracker.Tracker.Unblock` | src/server/tunnel/fail_persistence.go:205-221 | Removes the entry and its promised block and nothing else |
| `FailTracker.Tracker.MarkSuccessful` | src/server/tunnel/successful_ip_history.go:115-137 | Succeeds exactly when the address was recorded on this undisturbed day or fewer than maxItems others were marked on it, and then clears the address's protocol failures, in the entry and in the history, and nothing else |
| `SuccessMarks.ProtectedIffUndisturbed` | src/server/tunnel/successful_ip_history.go:115-152 | Over every sequence of clock readings an address is protected on a day if and only if it was recorded that day and every later reading, before or after the lock was taken, is of the same day |
| `SuccessMarks.RecordedIff` | src/server/tunnel/successful_ip_history.go:115-137 | A success is recorded if and only if its address was recorded before on this undisturbed day, or fewer than maxItems other addresses were marked on it |
| `SuccessMarks.ProtectedIffMarkedInTime` | src/server/tunnel/successful_ip_history.go:115-152 | In terms of the readings alone: an address is protected if and only if some reading marked it that day, no reading since was of another day, and before it fewer than maxItems others were marked since the last one that was |
| `SuccessMarks.InOrderProtects` | src/server/tunnel/successful_ip_history.go:115-152 | With readings in the order of their days, an address recorded on a day is protected that day |
| `SuccessMarks.StaleReadingUnprotects` | src/server/tunnel/successful_ip_history.go:115-152 | One reading of another day takes the protection away |
| `FailTracker.StaleMarkingPromotes` | src/server/tunnel/fail_tracker.go:134-161 | On every tracker with room, no marks yet and a limit of one, an address is promoted on the very day it was recorded, after a marking of another address with a stale clock reading |
| `RecoveryGate.MutualExclusion` | mobile/android/app/src/main/java/com/lsyl/tunnel/mobile/service/DefaultNetworkMonitor.kt:9-39 | In every interleaving at most one thread runs the action |
| `RecoveryGate.NoSignalLost` | mobile/android/app/src/main/java/com/lsyl/tunnel/mobile/service/DefaultNetworkMonitor.kt:9-39 | When all threads have left the gate, no signal is without an action, and both flags are clear |
| `RecoveryGate.EverySignalFollowedByAction` | mobile/android/app/src/main/java/com/lsyl/tunnel/mobile/service/DefaultNetworkMonitor.kt:13-38 | Every signal of a run whose threads have left is followed by an action that starts after its pending write |
| `RecoveryGate.ProgressPerThread` | mobile/android/app/src/main/java/com/lsyl/tunnel/mobile/service/DefaultNetworkMonitor.kt:18-38 | Between two starts of the action every step brings its thread closer to leaving or to the next start |
| `RecoveryGate.SignalDuringAction` | mobile/android/app/src/main/java/com/lsyl/tunnel/mobile/service/DefaultNetworkMonitor.kt:9-39 | A run in which a signal comes during the action: its thread leaves at once, and the running one serves it and leaves the gate clear |
| `RuntimeController.OwnedExactlyOnce` | mobile/android/app/src/main/java/com/lsyl/tunnel/mobile/service/TunnelRuntimeController.kt:31-69 | Over every interleaving each created runtime is the current one, held by exactly one thread, or stopped exactly once |
| `RuntimeController.ReleaseStopsEverything` | mobile/android/app/src/main/java/com/lsyl/tunnel/mobile/service/TunnelRuntimeController.kt:116-140 | After the release nothing is current and no command publishes; when no thread holds a runtime any more, each was stopped exactly once |
| `RuntimeController.ReleaseIsFinal` | mobile/android/app/src/main/java/com/lsyl/tunnel/mobile/service/TunnelRuntimeController.kt:127-237 | After a release nothing is ever installed again, and only a further release publishes, at most once each |
| `RuntimeController.OnlyCurrentPublishes` | mobile/android/app/src/main/java/com/lsyl/tunnel/mobile/service/TunnelRuntimeController.kt:232-237 | A publication for a runtime goes out exactly while that runtime is the current one and nothing was released |
| `RuntimeController.SomeRunReleases` | mobile/android/app/src/main/java/com/lsyl/tunnel/mobile/service/TunnelRuntimeController.kt:31-140 | A run of four runtimes, ended by a failure, a disconnection, the release, and its own late installation, each stopped once |
| `PendingCloseables.ClosedAtMostOnce` | mobile/android/app/src/main/java/com/lsyl/tunnel/mobile/security/PinnedTlsConnector.kt:109-132 | In every interleaving no item is closed twice, and none that a release took out is closed |
| `PendingCloseables.CancelledItemsAreClosed` | mobile/android/app/src/main/java/com/lsyl/tunnel/mobile/security/PinnedTlsConnector.kt:109-132 | When cancelAll has finished, every item whose track call has returned and that was not released is closed exactly once |
| `PendingCloseables.SecondLookIsNeeded` | mobile/android/app/src/main/java/com/lsyl/tunnel/mobile/security/PinnedTlsConnector.kt:113-121 | An item added after the cancellation has finished is seen by nobody but its own second look at the flag |
| `PendingCloseables.SomeRunEnds` | mobile/android/app/src/main/java/com/lsyl/tunnel/mobile/security/PinnedTlsConnector.kt:109-132 | A run with an item closed by the cancellation, one by its own second look, one released, and one tracked too late |
| `RateLimiter.SlotsDoNotOverlap` | src/internal/transport/transport.go:142-156 | The slots handed out are pairwise disjoint |
| `RateLimiter.SlotCoversBytes` | src/internal/transport/transport.go:142-147 | A slot is at most one nanosecond shorter than its bytes take at the rate |
| `RateLimiter.SlotFitsBytes` | src/internal/transport/transport.go:142-147 | A slot is never longer than its bytes take at the rate |
| `RateLimiter.RateBound` | src/internal/transport/transport.go:127-156 | In any interval of length d the slots that begin there carry at most rate times d bytes plus one chunk, plus one nanosecond of rounding for each slot |
| `RateLimiter.BurstIsGrantedIff` | src/internal/transport/transport.go:101-156 | For any sequence of requests the slots are those of a limiter that starts with its creation instead of one chunk before it, if and only if the first reading of the clock is not from before the creation |
| `RateLimiter.BusySince` | src/internal/transport/transport.go:142-156 | The limiter never idles while a request waits: up to every slot there is a stretch of slots without gaps that began with its first request's reading, or with the limiter |
| `RateLimiter.StretchFitsBytes` | src/internal/transport/transport.go:142-156 | Such a stretch lasts exactly as long as its bytes take at the rate, up to one nanosecond of rounding for each slot |
| `RateLimiter.SlotIsPrompt` | src/internal/transport/transport.go:142-156 | A slot starts no later than the latest reading so far plus the time that the bytes of its stretch before it take at the rate |
| `RateLimiter.ByteRateLimiter.constructor` | src/internal/transport/transport.go:101-115 | The chunk is the tenth of the rate, raised to 1 byte or lowered to 32 KiB where it lies outside, no slot has been given, and the first may start one chunk in the past |
| `RateLimiter.ByteRateLimiter.WaitChunk` | src/internal/transport/transport.go:142-156 | For any clock reading, however old: appends one slot that starts at the later of the reading and the end of the last slot; returns when it starts, later only by what the scheduler adds, and no later than the bytes handed out before it take at the rate |
| `RateLimiter.ByteRateLimiter.OtherCallers` | src/internal/transport/transport.go:142-156 | Callers one after the other get exactly the slots of that sequence |
| `RateLimiter.ByteRateLimiter.Wait` | src/internal/transport/transport.go:127-140 | Terminates, with other callers between its chunks; its slots are those of its own requests among all that were made, in order, carry exactly n bytes, and each chunk comes back when its slot starts, later only by what the scheduler adds |
| `RateLimiter.ByteRateLimiter.Read` | src/internal/transport/transport.go:83-92 | Asks the underlying reader for the length clamped to a chunk, returns what it gave, and pays for it with one slot |
| `ProfileSwitch.UndoLast` | src/client/gui/profile_switch_windows.go:316-324 | Undoing a rename that replaced nothing restores the files before it |
| `ProfileSwitch.SwitchedMeans` | src/client/gui/profile_switch_windows.go:347-376 | After the switch the current names hold the target profile, the archive names the former current one, the target names nothing, and every other file is as before |
| `ProfileSwitch.ChainIsSwitch` | src/client/gui/profile_switch_windows.go:347-376 | Backups and moves together are the switch, up to the backups themselves |
| `ProfileSwitch.Switcher.TemporarySiblingPath` | src/client/gui/profile_switch_windows.go:414-424 | Finds an unused name among the first twenty proposals, and fails only if all of them are taken |
| `ProfileSwitch.Switcher.AddBackup` | src/client/gui/profile_switch_windows.go:330-339 | Moves an existing file aside and remembers it; a rollback would leave the same files as before |
| `ProfileSwitch.Switcher.Move` | src/client/gui/profile_switch_windows.go:340-349 | A rename that replaces nothing and is remembered; a rollback would leave the same files as before |
| `ProfileSwitch.Switcher.Cleanup` | src/client/gui/profile_switch_windows.go:325-329 | Removes the backups; only a failing removal leaves one behind |
| `ProfileSwitch.Switcher.Switch` | src/client/gui/profile_switch_windows.go:313-378 | For distinct paths and any plan of failing system calls: an error leaves the files exactly as they were, success is exactly the switch apart from backups whose removal failed, and without a failing call an error means a missing source file or no free temporary name |
| `PermanentText.JoinOfSplit` | src/server/tunnel/permanent_blocks.go:98-123 | Joining the split lines gives the text back |
| `PermanentText.SplitOfJoin` | src/server/tunnel/permanent_blocks.go:98-123 | Splitting joined lines gives the lines back |
| `PermanentText.AppendAddsEntry` | src/server/tunnel/permanent_blocks.go:40-57 | Appending to an empty or newline-terminated text adds one entry at the end, keeps the others in order, and keeps the termination |
| `PermanentText.AppendWorksIffTailBlank` | src/server/tunnel/permanent_blocks.go:40-57 | For a new address, loading after appending gives the old set plus the address if and only if nothing but white space follows the last newline |
| `PermanentText.NormalKeepsEntriesIff` | src/server/tunnel/permanent_blocks.go:22-38 | Removal, which normalises line ends, and loading, which does not, read the same entries if and only if every line is safe: no carriage return inside the trimmed text of an entry line, and in any other line only blanks and comments around one |
| `PermanentText.ReturnInsideEntry` | src/server/tunnel/permanent_blocks.go:96-97 | Two addresses with a lone carriage return between them load as one entry and normalise to two |
| `PermanentText.WindowsIsSafe` | src/server/tunnel/permanent_blocks.go:96-97 | In particular every Windows or Unix text is safe |
| `PermanentBlocks.KeyFacts` | src/server/tunnel/permanent_blocks.go:127-136 | The key is the canonical address if the trimmed text is one and that text if not; it is idempotent, ignores surrounding white space, and is empty exactly for blank values |
| `PermanentBlocks.RemoveFiltersEntries` | src/server/tunnel/permanent_blocks.go:96-123 | Of every safe text, removal takes away exactly the entries with a target key and keeps the others in order |
| `PermanentBlocks.RemoveFiltersLoad` | src/server/tunnel/permanent_blocks.go:72-125 | Of every safe text, loading after removal gives the old set without the entries whose key is a target |
| `PermanentBlocks.RemoveFiltersLoadIff` | src/server/tunnel/permanent_blocks.go:72-125 | Of any text: removal takes away the target keys and no others if and only if, where some line has a target key, normalising line ends changes no block but targets, and where none has, no target is blocked |
| `PermanentBlocks.RemovalSplitsEntry` | src/server/tunnel/permanent_blocks.go:96-123 | Removing the first of two addresses around a lone carriage return leaves the second, which loading had never seen |
| `PermanentBlocks.RemoveKeepsTermination` | src/server/tunnel/permanent_blocks.go:98-123 | Every newline-terminated text stays terminated unless nothing is left of it, and a rewritten one has no carriage return |
| `PermanentBlocks.RemoveUndoesAppend` | src/server/tunnel/permanent_blocks.go:40-125 | Removing an address that was just appended and was not there before gives the text back, character for character |
| `PermanentBlocks.HitsAreBlocks` | src/server/tunnel/permanent_blocks.go:103-112 | Every blocked target is reported as removed, and nothing that is not a target |
| `PermanentBlocks.LoadPermanentBlockedIPs` | src/server/tunnel/permanent_blocks.go:22-38 | The scanning loop loads exactly the entries of the text |
| `PermanentBlocks.RemoveLines` | src/server/tunnel/permanent_blocks.go:96-125 | The rewriting loop gives exactly the removed text and the targets it found |
| `PermanentBlocks.Store.Promote` | src/server/tunnel/fail_tracker.go:163-178 | A promotion happens exactly when the address is new and the file took it, and adds it to memory and file alike |
| `PermanentBlocks.Store.UnblockPermanent` | src/server/tunnel/fail_persistence.go:223-242 | Removes the key from memory and file alike, reports whether either had it, and changes nothing on an error |
| `PermanentBlocks.Store.RemovePermanentSuccessful` | src/server/tunnel/successful_ip_history.go:172-184 | Removes all keys of the given addresses from memory and file alike and counts those that the file had; an error comes only from a failed file operation and changes nothing |
| `PermanentBlocks.Store.LoadPermanent` | src/server/tunnel/fail_persistence.go:123-153 | After loading, memory holds exactly the keys on file that are not loopback; if no removal failed, so does the file; an error comes only from an unreadable file or a failed removal of a loopback entry |
| `PermanentBlocks.DemandsCanBeMet` | src/server/tunnel/address.go:30-39 | What is asked of the parser and of the loopback test holds together, also of a test that trims no white space |
| `TrackedPermanents.AddProtocolFailure` | src/server/tunnel/fail_tracker.go:134-178 | A promotion reaches the tracker's set and the file, or neither, is made only of an unprotected address that completes the limit, and is made if these hold and the table has or takes the address |
| `TrackedPermanents.UnblockPermanent` | src/server/tunnel/fail_persistence.go:223-242 | Takes an address off the tracker's set and the file alike and reports whether either had it; an error comes only from a failed file operation and changes nothing |
| `TrackedPermanents.RemovePermanentSuccessful` | src/server/tunnel/successful_ip_history.go:172-184 | Takes the addresses off the tracker's set and the file and counts those that the file had; an error comes only from a failed file operation and changes nothing |
| `TrackedPermanents.Load` | src/server/tunnel/fail_persistence.go:97-154 | After the start the tracker's permanent set is what the file lists, without loopback addresses, and its entries are the running blocks of the others; an unreadable file is an error, and otherwise an error comes only from a failed removal of a loopback entry |
| `BusinessMerge.LifecycleKeyIsInjective` | src/server/gui/admin_log_reader_windows.go:346-351 | Equal keys mean the same request id and kind, whatever characters the id has |
| `BusinessMerge.FoldedHasTopPriority` | src/server/gui/admin_log_reader_windows.go:362-372 | A merged group has the highest result priority of its entries |
| `BusinessMerge.ResultOfGroup` | src/server/gui/admin_log_reader_windows.go:362-445 | In terms of the results: an end wins over a start, a start over "ok", that over any other text, and the group says nothing only if none of its entries does |
| `BusinessMerge.FoldedSpan` | src/server/gui/admin_log_reader_windows.go:374-384 | A merged group starts at the earliest nonempty start and ends at the latest nonempty end |
| `BusinessMerge.FoldedIsDecisive` | src/server/gui/admin_log_reader_windows.go:362-372 | Its time and result are those of a latest entry among the ones with the highest priority |
| `BusinessMerge.RowShowsLatest` | src/server/gui/admin_log_reader_windows.go:362-428 | The merged group shows time, result and every detail of one of its entries, and no entry with a result of that kind is later |
| `BusinessMerge.FoldedKeepsDetails` | src/server/gui/admin_log_reader_windows.go:385-428 | A detail is empty only if it is empty in every entry, and otherwise comes from one of them |
| `BusinessMerge.OrderDoesNotMatter` | src/server/gui/admin_log_reader_windows.go:362-428 | Any two orders of a group merge to the same priority, start, end and time |
| `BusinessFlow.RequestsAddUnknownIDs` | src/server/gui/admin_log_reader_windows.go:205-222 | A request log adds an entry only under an id that no business event carries |
| `BusinessFlow.RequestEnters` | src/server/gui/admin_log_reader_windows.go:205-222 | A request log enters exactly if it tells something and no entry has its id yet |
| `BusinessFlow.EventEnters` | src/server/gui/admin_log_reader_windows.go:180-184 | An event enters unless its kind is blank |
| `BusinessFlow.FirstsAreOnceEach` | src/server/gui/admin_log_reader_windows.go:196-202 | Entries outside every lifecycle are represented once for each row key, by one of themselves |
| `BusinessFlow.FirstsAreEarliest` | src/server/gui/admin_log_reader_windows.go:196-202 | Each representative is the first of its row key in the log, and they keep the order of the log |
| `BusinessFlow.RowKeyMeans` | src/server/gui/admin_log_reader_windows.go:447-452 | Two entries have one row key exactly if they have one id, kind and result, or no id and one time, kind, result, address, code and message |
| `BusinessFlow.BusinessFlowSet.AddBusinessEvent` | src/server/gui/admin_log_reader_windows.go:180-203 | The rows keep telling exactly the log with the prepared event added: one merged row for each lifecycle, the first entry for every other key |
| `BusinessFlow.BusinessFlowSet.AddRequestLog` | src/server/gui/admin_log_reader_windows.go:205-222 | Adds the flow of a request log exactly when it counts, and keeps the rows telling the log |
| `BusinessFlow.BuildRows` | src/server/gui/admin_log_reader_windows.go:155-170 | Before sorting and cutting, the rows are exactly the flow of all events and requests |
| `BusinessFlow.BuildBusinessFlow` | src/server/gui/admin_log_reader_windows.go:155-178 | The result is the first rows, 120 if no limit is given, of the stable sort of exactly those rows |
| `BusinessFlow.ShownAreNewest` | src/server/gui/admin_log_reader_windows.go:171-178 | No row that is cut off has a later time than one that is shown, none is lost or doubled by sorting, and rows of one time keep their order |
| `Sorting.StableSortSorts` | src/server/gui/admin_log_reader_windows.go:171-173 | Sorting by a strict weak order gives an ordered list of the same elements |
| `Sorting.StableSortIsStable` | src/server/gui/admin_log_reader_windows.go:171-173 | Elements that the order does not tell apart keep their order |
| `BusinessFlow.OneRowPerLifecycle` | src/server/gui/admin_log_reader_windows.go:186-195 | There is at most one row for a request id and lifecycle kind |
| `BusinessFlow.RowTellsGroup` | src/server/gui/admin_log_reader_windows.go:362-428 | A lifecycle row has the highest priority, the earliest start and the latest end of exactly the log entries with its id and kind |
| `BusinessFlow.RowTellsResult` | src/server/gui/admin_log_reader_windows.go:362-445 | The row of an id and kind says that the connection ended if some log entry of it does, otherwise that it started if one does, otherwise "ok" before any other text, and shows everything that a latest such entry says |
| `BusinessFlow.PreparedTimes` | src/server/gui/admin_log_reader_windows.go:278-302 | An ending event ends at its own time and starts as long before as it lasted, to the second; any other lifecycle event starts at its own time; what an event says itself stays |
| `BusinessFlow.FlowTells` | src/server/gui/admin_log_reader_windows.go:224-276 | Which request logs tell something, under which kind and result, and with which details |
| `BusinessFlow.FlowMessage` | src/server/gui/admin_log_reader_windows.go:237-245 | The message joins what the server answered and what went wrong in reading it |
| `BusinessFlow.ResultTellsSuccess` | src/server/gui/admin_log_reader_windows.go:304-330 | A request is told as a success exactly if it succeeded and nothing speaks against it; of the rest "blocked" wins over "denied" and that over "failed" |
| `BusinessFlow.FlowIsOrderIndependent` | src/server/gui/admin_log_reader_windows.go:155-222 | For any two orders of the events, and of request logs with distinct ids, every lifecycle row of one result has a row in the other with the same id, kind, priority, start, end and time |
| `BusinessFlow.LogOfPermutation` | src/server/gui/admin_log_reader_windows.go:180-222 | For any two such orders the events and request logs give the same entries |
| `HostPort.AtoiOfItoa` | src/server/tunnel/address.go:10-20 | A printed port reads back as itself |
| `HostPort.SplitOfJoin` | src/server/tunnel/address.go:10-28 | A joined host and port is split into the same again, also if the host has colons |
| `HostPort.SplitMeans` | src/server/tunnel/address.go:10-20 | Whatever splits is a host and a port around the last colon, the host in brackets if it has colons |
| `HostPort.SplitPortMeans` | src/server/tunnel/address.go:10-20 | An endpoint with a number as its port is read exactly within 1 and 65535 |
| `HostPort.NormalTargetMeans` | src/server/tunnel/address.go:22-28 | Two endpoints have one normal spelling exactly if their ports are the same text and their hosts differ at most in the case of letters |
| `HostPort.LoopbackIsCanonical` | src/server/tunnel/address.go:10-28 | The loopback address of a port splits into host and port and is its own normal spelling |
| `HostPort.LoopbackIsInjective` | src/server/tunnel/address.go:22-28 | Different ports have different loopback addresses |
| `ReverseConfig.DefaultsAreIdempotent` | src/server/tunnel/config.go:248-254 | Applying the defaults twice is applying them once |
| `ReverseConfig.DefaultsMean` | src/server/tunnel/config.go:248-333 | The defaults are the client-to-server direction and, for a reverse rule with consistent fields, the port of its address and the address of its port; nothing else changes |
| `ReverseConfig.ListenFieldsMean` | src/server/tunnel/config_addresses.go:28-46 | A reverse rule with a loopback address may leave the port out or repeat it, one without an address may have any port |
| `ReverseConfig.DefaultsUndoSaveIff` | src/server/tunnel/config.go:309-333 | Defaults restore what saving cleared if and only if the listen fields are consistent, there is no port, or there was no address to lose |
| `ReverseConfig.SavingMeans` | src/server/tunnel/config.go:309-316 | Saving leaves out the address of a reverse rule with a port and nothing else |
| `ReverseConfig.ApplyDefaults` | src/server/tunnel/config.go:248-254 | The loop gives every forward its defaults, in place |
| `ReverseConfig.SaveConfig` | src/server/tunnel/config.go:173-192 | Refuses exactly the configurations with an alias of the loopback address or inconsistent listen fields; what it writes has the same defaults as the caller's forwards, which stay untouched |
| `ReverseConfig.ValidateUsers` | src/server/tunnel/config.go:407-423 | Accepts exactly the nonempty lists of distinct, nonblank, known users |
| `ReverseConfig.ValidateForwards` | src/server/tunnel/config.go:365-433 | Accepts exactly the forwards that are each well formed, with one user for a reverse rule and no reverse port twice |
| `ReverseConfig.EndpointsMean` | src/server/tunnel/config.go:366-401 | A client-to-server rule needs a target with a port on an admissible host; a reverse rule one port, given as such or by a loopback address or by both alike; no other direction is accepted |
| `ReverseConfig.ReversePortMeans` | src/server/tunnel/config.go:378-394 | The port of a reverse rule is the one given, or else that of its address |
| `ReverseConfig.ValidateLoopbackAddresses` | src/server/tunnel/config_addresses.go:10-26 | Accepts exactly the configurations whose endpoints are all spelled without an alias of the loopback address |
| `ReverseConfig.ValidateKnownUsers` | src/server/tunnel/config.go:351-364 | Accepts exactly the lists of distinct, nonblank names whose enabled users have a password hash, and returns their names |
| `ReverseConfig.ValidateSealKeys` | src/server/tunnel/config.go:434-462 | Accepts exactly the lists of complete keys with distinct ids of which at most one is active |
| `ReverseConfig.SealKeyMeans` | src/server/tunnel/config.go:434-457 | A key is complete exactly if nothing of it is blank and its date is one |
| `ReverseConfig.MonitorMeans` | src/server/tunnel/config.go:345-350 | A monitor address is left out or on 127.0.0.1 with a port |
| `ReverseConfig.ValidateConfig` | src/server/tunnel/config.go:335-462 | Accepts exactly the configurations that meet all of these conditions |
| `ReverseConfig.AcceptedRuleIsCanonical` | src/server/tunnel/config_addresses.go:28-46 | An accepted reverse rule with its defaults has one port, that port's canonical address, and exactly one user; saving does not change the address it serves |
| `ReverseConfig.AddressHasOneRule` | src/server/tunnel/config.go:428-433 | In an accepted configuration no two reverse rules cover one address |
| `ReverseConfig.AuthorizeReverse` | src/server/tunnel/authorization.go:46-64 | The first rule that covers the address decides |
| `ReverseConfig.CoversMeans` | src/server/tunnel/authorization.go:46-74 | A reverse rule covers exactly the address of its port, in any spelling with that normal form, and no other rule covers any |
| `ReverseConfig.AuthorizeAccepted` | src/server/tunnel/authorization.go:46-64 | For every configuration that ValidateConfig accepts after its defaults, a user may activate an address exactly when some reverse rule grants it |
| `ReverseConfig.FirstRuleCanHideAGrant` | src/server/tunnel/authorization.go:46-64 | Without validation the first match can hide a grant: of two rules for one port the second is never looked at |
| `ReverseConfig.AllowedConfiguredForward` | src/server/tunnel/authorization.go:91-115 | Finds a client-to-server rule with the user and the target exactly when there is one |
| `ReverseConfig.TargetRuleMeans` | src/server/tunnel/authorization.go:91-115 | A client-to-server rule stands for exactly the targets with its port and its host up to the case of letters |

## Left out

- Windows packet capture, services, tray, web views, Android UI: foreign calls and presentation.
- TLS, password hashing, certificates, credential sealing: nothing here depends on them.
- JSON, YAML and zip formats: stored state is an abstract record, except for the permanent-block file.
- Socket reads and writes: a connection is open, closed or owned. `handleReverseInbound`'s write to the control is a step that may fail.
- Liveness under real scheduling: the theorems are about safety, and `RecoveryGate.ProgressPerThread` about progress of one thread.
- Wall-clock jumps: clocks do not run backwards, except where a reading is taken before a lock, which is modelled.
- Parsing the text of a redirect rule, and the capture filter built from the rules; the text of an address is a parameter of the sort order.
- Nil receivers, which every Go method here answers with a constant.
- FailTracker.Tracker.Load: runs on the new tracker that the server has just made, as its only caller does, not on one in use.
- Trimming of keys in the failure tracker: keys arrive as addresses without surrounding space.
- The release of a lease under the limiter's lock is one step of `Lifecycle`; what that step does to the limiter is `ConnectionLimiter.Limiter.ReleaseOnce`.
- `Lifecycle`, `ReverseListener`, `TrackerSteps`, `RecoveryGate`, `RuntimeController` and `PendingCloseables` state their interleavings on values; the classes beside them cover single sections only, and aliasing between threads is not modelled.
- `RecoverySignalGate.cancel`, exceptions thrown by the action, and `cancelAll` called more than once: the guarantees are for runs without them.
- Which snapshot is published and whether the user wants the tunnel to run: a release publishes or not, and `RuntimeController` records only who publishes.
- Exceptions thrown by a runtime's `stop`: a stop that throws counts as a stop.
- RateLimiter.SlotCoversBytes: the slot length is the exact quotient rounded down, not the double-precision one.
- RateLimiter.ByteRateLimiter.Wait: each chunk's clock reading is free, also to be older than the return of the chunk before it.
- ProfileSwitch.Switcher.Switch: the renames of a rollback succeed, and creating a parent directory changes no file of the map.
- A write that fails half-way: a failed append or rewrite leaves the file as it was.
- The scanner's limit on the length of a line, and bytes that are not valid UTF-8.
- PermanentBlocks.Store.UnblockPermanent: its two halves run without another operation in between; so do the halves of the joint operations in `TrackedPermanents`.
- PermanentBlocks.Store.Promote: the address is written in its canonical form, without a line break and not as a comment, as the callers do.
- BusinessFlow.BuildBusinessFlow: times are empty or valid RFC 3339 texts (section 5.6 of RFC 3339), compared as instants; a text that does not parse is not modelled.
- BusinessFlow.FlowIsOrderIndependent: request logs that share an id keep their order, because of those the first counts; the times agree if every entry has one.
- ReverseConfig.ValidateConfig: the version check, the private-address test of a target host, the test for loopback aliases and the date parser are parameters, of which nothing is assumed.
- Letters outside ASCII in endpoints, which `normalizeTarget` also folds to lower case.
- The ring of runtime events, per-user stream limits, traffic logs, version comparison and frame lengths: each is a buffer, a counter or a comparison of its own that none of the state above depends on.
