# NetMantle: a model of its core algorithms and protocols

NetMantle backs up network device configurations, compares them, gates changes behind approvals, and hands work to
remote pollers. This project models the parts of it whose correctness rests on an algorithm, an interleaving or exact
time arithmetic, and proves what those parts promise.

The code of each part keeps its form: loops over buffers are methods with loops, services that update tables or maps are
classes with those tables as fields, and pure code is functions. Each method is proved against a specification
function or against the promised property, and the lemmas beside it say what the specification means for every input.
Protocols that several callers run at once are state machines whose steps are the single SQL statements; a main result
about them is a statement about every state of every run.

| file | models |
|---|---|
| `EditScripts.dfy`, `Diff.dfy` | the differ: ignore rules, the LCS table, the greedy walk, the printed script |
| `PollerJobs.dfy`, `PollerJobRuns.dfy` | the poller job queue, and its runs with the claim's SELECT and UPDATE apart |
| `LeaseScheduler.dfy` | the leader lease with any number of contenders and clocks, and the runner under it |
| `ChangeRequests.dfy`, `ChangeRequestRuns.dfy` | the approval workflow, and its runs with reads, guarded updates and event writes apart |
| `PollerSessions.dfy` | the nonce cache and the session table of the poller listener |
| `KnownHosts.dfy` | trust on first use of host keys, in the table and in memory |
| `WebSocketFrames.dfy`, `TelnetIac.dfy`, `NetconfFraming.dfy` | frames, command stripping and end-of-message framing |
| `SqlSplit.dfy` | the migration script splitter |
| `Compliance.dfy`, `Subsequences.dfy` | rule evaluation, greedy ordered matching, the findings table |
| `Discovery.dfy` | expansion of an IPv4 prefix with byte-wise carry |
| `Topology.dfy` | the merge of per-device neighbour lists |
| `Wrappers.dfy`, `Clock.dfy`, `Text.dfy`, `Substrings.dfy`, `Bytes.dfy` | the Go library behaviour these parts rely on |

## Conventions

- A clock reading is an integer in nanoseconds and a parameter; `Clock.Stamp` is the whole second that RFC 3339
  formatting keeps. Stored stamps compare as integers, which is how UTC strings of that format order.
- A table is a map from its key to its row, and a statement is one atomic guarded update of it. A statement that the
  database fails to run has no effect.
- Loops over Go maps, and rows that SQL returns in an order that does not matter, are visited in an arbitrary order.
- Text is a sequence of characters; bytes are numbers from 0 to 255.
- Regular expressions, JSON parsing and base64 decoding are given functions.

## What was found

- `internal/changereq/changereq.go`: the comment at lines 11-16 leaves out draft → cancelled, which the table at lines
  104-108 allows. The model follows the table.
- `internal/poller/jobs.go`: a take-back at lines 242-246 leaves `expires_at` as it was, so a later claim can recover a
  longer lifetime than the one first stored (`PollerJobRuns.LifetimeCanGrow` is such a run). "At least the original
  lifetime" holds in every run; a claim keeps exactly the original lifetime if and only if the row its SELECT saw still
  had the expiry it was stored with (`PollerJobRuns.ClaimKeepsTtlExactly`), as on every first claim. A lifetime of less
  than a second can be stored as an expiry equal to the creation stamp; the claim then drops the expiry.
- `internal/diff/diff.go`: equality is decided on untrimmed text (line 54) and the script is made from trimmed text
  (lines 89-90), so a result can be "not identical" with no line added or removed
  (`Diff.NotIdenticalWithoutChanges`). `Diff.ZeroCountsIff` says exactly when nothing is added or removed.
- `internal/server/grpc.go`: for readings of time in any order, the nonce cache gives the answers of an unbounded
  history exactly if no call comes back to a nonce before the expiry of its latest accepted use but after a collection
  that read a later time has dropped the entry (`PollerSessions.NonceCacheMatchesHistory`). When collections run
  depends on the readings alone (`PollerSessions.CollectionsByReadings`). Calls in order of time are such, and so are
  calls none of which reads a time before the latest collection (`PollerSessions.KeepingUpIsInTime`);
  `PollerSessions.LateReadingCanReplay` shows three that are not.
- `internal/transport/known_hosts.go`: the in-memory store's `Add` does not compare keys. In every interleaving of dials
  against it, an accepted attempt presented another key than the pin exactly if it saw no pin at its check and another
  key's pin stood at its addition (`KnownHosts.MemStoreRace`), and all keys accepted for a host agree exactly if no
  attempt lost such a race (`KnownHosts.MemAcceptedKeysAgreeIff`). The table-backed store has no such interleaving
  (`KnownHosts.JudgedByThePin`).
- `internal/transport/netconf.go`: the payload check looks for the literal `</config>`, so a payload with a blank before
  the bracket, `</config >`, is accepted (`NetconfFraming.BlankInTagIsAccepted`) although XML ends the element there. What
  is proved of the frame speaks of the literal tag.
- `internal/netops/topology.go`: the merge looks up edges by a text made of both ends. The graph is exact for every order
  of the lists if and only if links of different edges have different texts, also with one of them reversed
  (`Topology.GraphIsExact`). That is so for hosts without a bar and ports without a bar, a doubled colon or a colon at the
  end (`Topology.PlainTextsTell`). `Topology.BarsCanCollide` gives two links for which one edge too few is counted, and
  `Topology.OrderCanMatter` three for which the order of the lists decides the count.

## Model

| member | source | states |
|---|---|---|
| EditScripts.LcsIsMaximum | internal/diff/diff.go:93-107 | The recurrence behind the table gives the greatest length of a common subsequence: one of that length exists, none is longer |
| EditScripts.WalkIsMinimal | internal/diff/diff.go:109-145 | The walk's script turns the old lines into the new, adds n - LCS and removes m - LCS lines, and no insert/delete script between the same texts adds or removes fewer |
| EditScripts.WalkIsFirst | internal/diff/diff.go:112-145 | Of all minimal scripts it is the one that keeps as early as possible and otherwise removes as early as possible: ties go to the removal |
| EditScripts.WalkSwapsCounts | internal/diff/diff.go:109-145 | Exchanging the texts exchanges the counts, though ties are broken towards removal |
| Diff.Filter | internal/diff/diff.go:60-82 | With rules, the output is the terminated lines at exactly the positions where no rule without or with a matching prefix matches the line, in order; without rules it is the text |
| Diff.FillTable | internal/diff/diff.go:92-107 | Every entry (i, j) of the table filled from the end is the LCS length of the two suffixes |
| Diff.WalkTable | internal/diff/diff.go:109-145 | Driven by the table alone, the loops print and count exactly the minimal walk |
| Diff.Unified | internal/diff/diff.go:88-147 | The result is the print of the minimal walk between the trimmed texts, with its counts |
| Diff.Diff | internal/diff/diff.go:51-58 | Identical exactly if the texts so filtered are equal; otherwise the printed minimal walk between them with its counts |
| Diff.PrintReadsBack | internal/diff/diff.go:115-131 | Two-character tags and line ends determine the printed script |
| Diff.PrintedDiffReplays | internal/diff/diff.go:88-147 | The printed text, read back by its tags, spells the trimmed old lines (kept, removed) and new lines (kept, added), and the counts are the tag counts |
| Diff.DiffIsMinimal | internal/diff/diff.go:88-147 | No script between the compared texts has fewer additions or fewer removals than reported |
| Diff.DiffSwap | internal/diff/diff.go:51-58 | Exchanging old and new exchanges the counts and keeps the verdict |
| Diff.ZeroCountsIff | internal/diff/diff.go:51-146 | Nothing added and nothing removed exactly when the filtered texts agree up to trailing newlines |
| Diff.NotIdenticalWithoutChanges | internal/diff/diff.go:54-90 | Two texts that are not identical and between which nothing is added or removed |
| Diff.FilteredIff | internal/diff/diff.go:60-82 | With rules, two texts filter alike exactly when their surviving lines are the same list |
| Diff.IgnoredLinesNeverMatter | internal/diff/diff.go:51-82 | Inserting or removing whole ignored lines anywhere, in either text, leaves the whole result unchanged |
| PollerJobs.JobService.Enqueue | internal/poller/jobs.go:61-99 | Refused for missing ids and for a type the schema does not allow; otherwise the key is present afterwards, and a queued row with the given fields and expiry is added exactly if it was not |
| PollerJobs.JobService.SelectOldest | internal/poller/jobs.go:104-134 | None exactly if no row is queued, of the tenant and of a supported type (of the three types if none is named); otherwise such a row with the least creation stamp |
| PollerJobs.JobService.ClaimSelected | internal/poller/jobs.go:136-170 | Wins exactly if the row is still queued in the tenant and the poller is the tenant's; then only that row changes, and it is returned |
| PollerJobs.JobService.Claim | internal/poller/jobs.go:104-171 | A registered poller gets none exactly if no row is queued, of its tenant and of a type it supports; otherwise the oldest such row, claimed with its lifetime counted from now, and nothing else changes; any other poller gets none |
| PollerJobs.JobService.Complete | internal/poller/jobs.go:195-206 | Only a claimed or running job of the tenant is ended |
| PollerJobs.JobService.CompleteClaimedBy | internal/poller/jobs.go:211-229 | Succeeds exactly for a claimed or running job owned by that poller, and otherwise changes nothing |
| PollerJobs.JobService.Cancel | internal/poller/jobs.go:232-238 | Only a queued or claimed job of the tenant is cancelled |
| PollerJobs.JobService.ReclaimExpired | internal/poller/jobs.go:240-252 | Exactly the claimed jobs past their expiry lose their owner and are queued again with the expiry they had; no other row changes, nothing past its expiry is left claimed, and the result is the number of rows changed |
| PollerJobRuns.ShiftLeavesTtl | internal/poller/jobs.go:177-192 | The shifted expiry leaves at least the original lifetime, and exactly it if and only if the selected row still had its first expiry |
| PollerJobRuns.StepKeepsInv | internal/poller/jobs.go:61-252 | Every statement keeps rows, histories and pending claims in agreement |
| PollerJobRuns.StepWrites | internal/poller/jobs.go:84-252 | Each step of a run changes exactly the rows and fields its statement names |
| PollerJobRuns.SelectSees | internal/poller/jobs.go:109-134 | A SELECT in a run sees an oldest queued row of the tenant and the types, and carries its stamps to the UPDATE |
| PollerJobRuns.OwnershipThroughoutRun | internal/poller/jobs.go:104-252 | In every state of every run: claims exceed take-backs by 0 or 1, by 1 exactly when there is an owner; queued jobs have none; the owner made the latest successful claim; at most one report as owner |
| PollerJobRuns.OnlyLatestClaimerReports | internal/poller/jobs.go:211-229 | A report as owner succeeds only for the poller of the latest successful claim, and only once |
| PollerJobRuns.TerminalForever | internal/poller/jobs.go:194-252 | Done, failed and cancelled rows never change again |
| PollerJobRuns.ClaimLeavesOriginalTtl | internal/poller/jobs.go:136-192 | After any number of take-backs and stale reads a claimed job keeps at least its first lifetime from its claim stamp, exactly it on the first claim |
| PollerJobRuns.ClaimKeepsTtlExactly | internal/poller/jobs.go:136-192 | For every winning claim of every run: at least the original lifetime, and exactly it if and only if the row its SELECT saw still had the expiry it was stored with |
| PollerJobRuns.LifetimeCanGrow | internal/poller/jobs.go:104-252 | A run in which a job stored with 10 seconds has 15 after its second claim |
| PollerJobRuns.ReclaimWaitsOriginalTtl | internal/poller/jobs.go:240-252 | A sweep takes a job back only when more than its first lifetime has passed since the recorded claim |
| LeaseScheduler.EffectiveTtl | internal/scheduler/scheduler.go:24-29 | A requested time of at least five seconds is kept, a shorter one becomes thirty |
| LeaseScheduler.LeaseTable.TryInsert | internal/scheduler/scheduler.go:36-41 | Succeeds only while there is no row |
| LeaseScheduler.LeaseTable.TryUpdate | internal/scheduler/scheduler.go:42-52 | Succeeds exactly for the holder, or when the stored second lies before the reading's second |
| LeaseScheduler.LeaseTable.Acquire | internal/scheduler/scheduler.go:33-53 | Both statements together grant exactly if there is no row, it is ours, or it has expired |
| LeaseScheduler.StepKeepsInv | internal/scheduler/scheduler.go:33-53 | Every statement keeps the row equal to the truncated latest grant and grants to different holders apart |
| LeaseScheduler.StepWrites | internal/scheduler/scheduler.go:33-53 | Each step of a run changes the row as the statement does |
| LeaseScheduler.OneLeaderAtATime | internal/scheduler/scheduler.go:31-53 | In every run, with any contenders and clocks, full-resolution intervals granted to different holders have no instant in common although stored expiries are truncated |
| LeaseScheduler.TakeoverWindow | internal/scheduler/scheduler.go:42-52 | The holder always renews; another never wins up to the untruncated expiry and always wins one second after it; in between the second boundary decides |
| LeaseScheduler.Runner.Tick | internal/scheduler/scheduler.go:86-111 | Without the lease nothing fires and nothing is noted; with it the loop fires and notes the due jobs in order |
| LeaseScheduler.FiresExactlyWhenDue | internal/scheduler/scheduler.go:79-111 | Over any ascending ticks a job fires exactly on the granted ticks on which every earlier firing under its name, its own or that of a job sharing the name, lies at least its interval back |
| LeaseScheduler.FiringsByOneRunnerAtATime | internal/scheduler/scheduler.go:33-111 | Any number of runners on one lease: a job fires only on a tick for which its runner was granted an interval, at least its interval after that runner's earlier firings of the name, and the intervals of firings by different runners share no instant |
| ChangeRequests.TerminalIffNoWayOut | internal/changereq/changereq.go:104-117 | The terminal statuses are exactly those the table gives no way out of |
| ChangeRequests.AllowedOneByOne | internal/changereq/changereq.go:104-128 | The eight allowed transitions and no others |
| ChangeRequests.TransitionRaisesRank | internal/changereq/changereq.go:103-128 | The transition relation is acyclic |
| ChangeRequests.Service.Create | internal/changereq/changereq.go:133-181 | Succeeds exactly for acceptable input of either kind, storing it with a trimmed title as a draft under a new id, with its creation event |
| ChangeRequests.Service.Get | internal/changereq/changereq.go:184-195 | Finds a request exactly within its tenant |
| ChangeRequests.Service.UpdateIfStill | internal/changereq/changereq.go:350-382 | The guarded UPDATE wins exactly if the status is still the one read |
| ChangeRequests.Service.TransitionFrom | internal/changereq/changereq.go:239-387 | Refusals in their order; otherwise success exactly if the guard holds, with one row moved and one event appended; a failure changes nothing |
| ChangeRequests.Service.RecordEvent | internal/changereq/changereq.go:389-407 | Appends one event and changes nothing else |
| ChangeRequests.Service.Perform | internal/changereq/changereq.go:227-387 | Read and transition together succeed exactly for an existing request, an allowed transition and no forbidden self-approval |
| ChangeRequests.Service.Submit | internal/changereq/changereq.go:228-230 | Succeeds exactly on a draft, stamping it and recording who did it; otherwise names the refusal and changes nothing |
| ChangeRequests.Service.Approve | internal/changereq/changereq.go:234-243 | Succeeds exactly on a submitted request whose requester is not the reviewer or with the override, recording reviewer, reason and time; self-approval is refused before the status is looked at |
| ChangeRequests.Service.Reject | internal/changereq/changereq.go:246-252 | Succeeds exactly on a submitted request, recording reviewer, reason and time |
| ChangeRequests.Service.Cancel | internal/changereq/changereq.go:256-258 | Succeeds exactly on a draft, submitted or approved request |
| ChangeRequests.Service.MarkDone | internal/changereq/changereq.go:265-294 | Succeeds exactly on an approved request, which becomes applied or failed with its time; the output is stored if there is any, and the event carries the short marker |
| ChangeRequests.Service.StoreResult | internal/changereq/changereq.go:270-275 | Changes only the result column of that request |
| ChangeRequestRuns.ChainIsShort | internal/changereq/changereq.go:103-128 | A chain of allowed transitions from draft has at most three transitions |
| ChangeRequestRuns.StepKeepsInv | internal/changereq/changereq.go:343-407 | Every statement of every caller keeps requests, pending calls and histories in agreement |
| ChangeRequestRuns.StepWrites | internal/changereq/changereq.go:133-407 | Each step of a run writes exactly what its statement writes |
| ChangeRequestRuns.EventsFormOneChain | internal/changereq/changereq.go:343-407 | In every state of every run, the events written, unwritten or lost of a request can be put in exactly one order that leads from draft to its current status, and are at most four |
| ChangeRequestRuns.SuccessMeansNothingBetween | internal/changereq/changereq.go:372-382 | Although only the status is compared, a successful update means that no other transition happened since the read and that requester and content are those read |
| ChangeRequestRuns.ContentIsFixed | internal/changereq/changereq.go:133-407 | In every run tenant, requester, content and creation time of a request stay as proposed |
| ChangeRequestRuns.StatusNeverReturns | internal/changereq/changereq.go:103-128 | Equal statuses at two times mean no transition in between |
| ChangeRequestRuns.NoSelfApproval | internal/changereq/changereq.go:232-243 | An approval without the override is never the requester's own, and the row names the approver |
| ChangeRequestRuns.StampsTellProgress | internal/changereq/changereq.go:350-371 | In every run the stamps and the reviewer of a request tell how far it has come |
| PollerSessions.PollerServer.TryUseNonce | internal/server/grpc.go:355-376 | Accepted exactly if the key is not stored or its expiry has come; an accepted key expires 60 seconds on; at most once in 30 seconds all entries past their expiry are deleted, and no others |
| PollerSessions.PollerServer.RecordSession | internal/server/grpc.go:309-321 | The poller's session is replaced, no other is touched |
| PollerSessions.PollerServer.PurgeExpiredSessions | internal/server/grpc.go:344-353 | Exactly the sessions past their expiry are deleted; a session without one stays |
| PollerSessions.PollerServer.RequireSession | internal/server/grpc.go:323-342 | Granted exactly for a token that is the unexpired session's of that poller and tenant; otherwise the first failing condition; an empty token is refused before anything is deleted |
| PollerSessions.NonceCacheMatchesHistory | internal/server/grpc.go:355-376 | For readings in any order: the answers are "accepted exactly if no accepted use lies less than 60 seconds back" if and only if no call comes back to a nonce before its latest accepted use has expired but after a collection has dropped it |
| PollerSessions.CollectionsByReadings | internal/server/grpc.go:361-369 | Calls that read the same times collect at the same calls, whatever nonces they use |
| PollerSessions.KeepingUpIsInTime | internal/server/grpc.go:355-376 | In order of time, and as long as no reading lies before the latest collection, every answer is the history's |
| PollerSessions.AcceptedOncePerMinute | internal/server/grpc.go:355-376 | In order of time, a nonce is accepted exactly if it has not been accepted less than 60 seconds before |
| PollerSessions.EntriesAreRecent | internal/server/grpc.go:361-374 | After any call every stored entry was accepted within the last 90 seconds |
| PollerSessions.LateReadingCanReplay | internal/server/grpc.go:361-374 | Three readings out of order for which a nonce is accepted twice within 60 seconds |
| PollerSessions.SessionCheckMatchesHistory | internal/server/grpc.go:309-353 | Checks in order of time are decided by the latest recorded session alone, though expired ones are deleted on the way |
| KnownHosts.DBKnownHostsStore.CheckKey | internal/transport/known_hosts.go:52-70 | Unknown, changed or matching, by the stored pin |
| KnownHosts.DBKnownHostsStore.Insert | internal/transport/known_hosts.go:75-92 | Stores the key only if there is no pin |
| KnownHosts.DBKnownHostsStore.Add | internal/transport/known_hosts.go:75-112 | Never overwrites a pin, and accepts exactly if the pin afterwards is the key |
| KnownHosts.DBKnownHostsStore.Verify | internal/transport/known_hosts.go:163-197 | Alone, a dial is accepted exactly if the pin afterwards is the presented key |
| KnownHosts.PinsAreForever | internal/transport/known_hosts.go:72-156 | In every interleaving, against either store, a stored pin never changes or disappears |
| KnownHosts.StepWrites | internal/transport/known_hosts.go:52-197 | Each step of a run does to pins and attempt what the store's statement does |
| KnownHosts.JudgedByThePin | internal/transport/known_hosts.go:163-197 | In every interleaving a finished dial was accepted exactly if it presented the pinned key, and refused as changed otherwise |
| KnownHosts.AcceptedKeysAgree | internal/transport/known_hosts.go:52-112 | All accepted dials for one tenant, host, port and algorithm presented the same key |
| KnownHosts.MemKnownHostsStore.CheckKey | internal/transport/known_hosts.go:133-145 | Unknown, changed or matching, by the pin in memory |
| KnownHosts.MemKnownHostsStore.Add | internal/transport/known_hosts.go:148-156 | Keeps the first key |
| KnownHosts.MemKnownHostsStore.Verify | internal/transport/known_hosts.go:163-197 | Alone, a dial on the in-memory store is accepted exactly if the pin afterwards is the presented key |
| KnownHosts.MemStoreRace | internal/transport/known_hosts.go:132-197 | In every interleaving of dials against the in-memory store, an accepted attempt presented another key than the pin exactly if it saw no pin at its check and another key's pin stood at its addition |
| KnownHosts.MemAcceptedKeysAgreeIff | internal/transport/known_hosts.go:132-197 | All attempts accepted for one host presented one key exactly if none of them lost such a race |
| KnownHosts.MemStoreAcceptsTwoKeys | internal/transport/known_hosts.go:132-197 | A run of two first dials in which the in-memory store accepts two different keys |
| WebSocketFrames.Connection.ReadFrame | internal/terminal/terminal.go:217-258 | What is read is on the wire byte by byte: opcode, mask bit, one of three length forms within 2^24, mask, and a payload of which every bit is the wire's combined with the mask's; and what is left unread is stated either way |
| WebSocketFrames.Connection.Unmask | internal/terminal/terminal.go:254-256 | The in-place loop makes every bit of byte i the exclusive or of that bit and the bit of mask byte i modulo 4 |
| WebSocketFrames.Connection.WriteFrame | internal/terminal/terminal.go:260-284 | Appends the first byte, the length in one, three or nine bytes by its size, and the payload |
| WebSocketFrames.MaskTwice | internal/terminal/terminal.go:254-256 | Unmasking undoes masking for every mask |
| Bytes.XorByBit | internal/terminal/terminal.go:255 | Every bit of an exclusive or is 1 exactly where the two bytes differ |
| WebSocketFrames.HeaderBits | internal/terminal/terminal.go:222-227 | Opcode and length code are the low four and seven bits |
| WebSocketFrames.TopBits | internal/terminal/terminal.go:223-261 | The mask bit is the top bit, and the writer sets the top bit over the opcode |
| WebSocketFrames.RefusedHeaders | internal/terminal/terminal.go:223-243 | Refused as unmasked or as too large exactly by these header bytes |
| WebSocketFrames.ClientFrameReads | internal/terminal/terminal.go:217-258 | Any masked frame of at most 2^24 bytes, in any length form that fits, is read as its opcode and payload and uses exactly its bytes |
| WebSocketFrames.AcceptedIsClientFrame | internal/terminal/terminal.go:217-258 | Whatever is accepted is such a frame followed by what is left unread |
| WebSocketFrames.ClientStreamReads | internal/terminal/terminal.go:217-258 | Any sequence of such frames is read as the same opcodes and payloads in order, using exactly its bytes |
| WebSocketFrames.ServerFrameReads | internal/terminal/terminal.go:260-284 | What is written is read back under the unmasked layout, whatever follows |
| WebSocketFrames.WriterIsShortest | internal/terminal/terminal.go:260-284 | No length form that fits gives a shorter frame, and the reader refuses written frames as unmasked |
| TelnetIac.TelnetSession.StripIAC | internal/transport/telnet.go:285-343 | The loop yields the text and writes the refusals of the recursive reading of the block |
| TelnetIac.TelnetSession.SkipSubnegotiation | internal/transport/telnet.go:326-334 | Stops just behind the first IAC SE pair, or at the end |
| TelnetIac.ItemsInNumbers | internal/transport/telnet.go:80-88 | The items' bytes, which are complete, and their answers, in numbers: 251 is answered by 254 and 253 by 252 |
| TelnetIac.ItemsStrip | internal/transport/telnet.go:285-343 | Complete items followed by anything yield the items' data and refusals and then those of what follows: stripping distributes over item boundaries |
| TelnetIac.StripIsItemMeaning | internal/transport/telnet.go:285-343 | Every block is complete items and at most one cut off; the text is exactly their data with doubled 255 collapsed, the replies one DONT per WILL and one WONT per DO, the cut-off item yields nothing |
| TelnetIac.StripUndoesDoubling | internal/transport/telnet.go:335-337 | Doubling every 255 and stripping is the identity and writes nothing |
| NetconfFraming.ReadRPCReply | internal/transport/netconf.go:275-321 | The loop over arriving chunks returns the first buffer with a marker, or what came before the stream's end |
| NetconfFraming.ReadUntilDelimiter | internal/transport/netconf.go:166-210 | The same loop for the greeting, where the stream's end is a failure |
| NetconfFraming.ReplyIsStreamPrefix | internal/transport/netconf.go:275-321 | A returned reply with a marker agrees with the stream up to the stream's first marker, for every chunking |
| NetconfFraming.ReplyArrives | internal/transport/netconf.go:166-321 | A reply with a marker is returned, and the greeting is taken for complete, exactly if some chunk completes a marker before anything goes wrong; what comes with that chunk or later does not matter |
| NetconfFraming.FirstEventDecides | internal/transport/netconf.go:166-321 | The first wait that brings a marker, the end, an error or an interruption decides how each reader ends, and with what |
| NetconfFraming.GreetingNeedsMarker | internal/transport/netconf.go:195-207 | The greeting is never taken for complete without a marker in the stream |
| NetconfFraming.ChunkingIsIrrelevant | internal/transport/netconf.go:275-398 | For every chunking in which a chunk completes a marker before anything goes wrong, the text before the first marker is the stream's, and so is the verdict on an edit |
| NetconfFraming.VerdictByPositions | internal/transport/netconf.go:275-398 | For every such chunking: an edit has failed exactly if an error element begins before the stream's first marker, has succeeded exactly if none does and an ok element does, and otherwise lacks its answer |
| NetconfFraming.OnlyMarkerIsLast | internal/transport/netconf.go:378-387 | The built message has its only marker at its end exactly if the payload has none |
| NetconfFraming.AcceptedPayloadArrives | internal/transport/netconf.go:345-387 | In the frame of an accepted payload the first literal closing config tag comes directly after the payload, and the only marker is at the end |
| NetconfFraming.BlankInTagIsAccepted | internal/transport/netconf.go:345-354 | A payload that closes the element with a blank in the tag is accepted |
| NetconfFraming.AcceptedByPositions | internal/transport/netconf.go:345-354 | A payload is accepted exactly if no marker occurs in it, and none of the three tags in any mixture of cases |
| NetconfFraming.FrameText | internal/transport/netconf.go:378-387 | The frame's text, part by part |
| NetconfFraming.FrameSays | internal/transport/netconf.go:378-387 | The frame carries the message number, the datastore as its target and the payload as its configuration |
| NetconfFraming.DecimalReads | internal/transport/netconf.go:379-380 | The digits of a message number stand for it, without leading zeros |
| NetconfFraming.ParsedEditIsFramed | internal/transport/netconf.go:323-387 | Whatever a command parses to has a known datastore and a frame whose first literal closing tag follows the payload and whose only marker is at the end |
| NetconfFraming.WellFormedCommandParses | internal/transport/netconf.go:323-343 | Whatever stands before the second colon: a datastore other than the three is refused, otherwise the command gives exactly it and the decoded payload, or the payload's own error |
| NetconfFraming.CommandNeedsColon | internal/transport/netconf.go:324-328 | Without a second colon the command is malformed |
| SqlSplit.SplitStatements | internal/storage/storage.go:144-195 | The loop with its two flags gives the statements of the position-by-position reading, in which a doubled quote closes and reopens |
| SqlSplit.SplitsAtTopLevelSemicolons | internal/storage/storage.go:141-195 | The pieces are the text between the semicolons outside comments and literals, all of them and in order, and the rest unless blank |
| SqlSplit.BreaksAreCodeSemicolons | internal/storage/storage.go:141-190 | However a script is read as characters of code, literals with doubled quotes and line comments, it is broken at exactly the semicolons of its code |
| SqlSplit.ScriptIsTokens | internal/storage/storage.go:141-195 | Every script can be so read, with at most one literal or comment cut off at its end, and its statements are the text between the semicolons of its code |
| SqlSplit.StatementsRejoin | internal/storage/storage.go:184-194 | The pieces with their semicolons and the dropped blank tail give back the script |
| Text.SpacesAreListed | internal/storage/storage.go:191-193 | The characters that make a tail blank, one by one |
| SqlSplit.LiteralsNeverBreak | internal/storage/storage.go:160-183 | A literal quoting any text, escaped, never breaks the script and code resumes behind it |
| SqlSplit.CommentsNeverBreak | internal/storage/storage.go:153-178 | A line comment never breaks the script and code resumes behind its newline |
| SqlSplit.PiecesDoNotSplit | internal/storage/storage.go:141-195 | Splitting a piece again finds that piece alone |
| Compliance.OrderedContains | internal/compliance/compliance.go:197-211 | True exactly when strictly increasing line positions spell the wanted lines, whatever the greedy scan passed over |
| Compliance.EvaluateText | internal/compliance/compliance.go:161-193 | The finding's status and detail, with the greedy scan for ordered blocks |
| Compliance.PassesExactlyWhen | internal/compliance/compliance.go:161-193 | A rule passes exactly when the text satisfies it in terms of positions in the text, and carries a detail exactly when it fails |
| Compliance.FailureDetails | internal/compliance/compliance.go:166-192 | The detail of each failure, by the rule's kind |
| Compliance.Service.ListRulesForDevice | internal/compliance/compliance.go:326-358 | Each rule of the device's tenant that is for all groups or for the device's, once, and no other |
| Compliance.Service.EvaluateDevice | internal/compliance/compliance.go:216-274 | Afterwards the device has a finding for exactly the rules of its tenant that are for all groups or its own, passed exactly if the text satisfies the rule; other devices' findings are untouched; and the callback is due exactly once for each of them whose stored status was the other one |
| Compliance.EvaluationIsExact | internal/compliance/compliance.go:230-274 | The same for every order of the rules, and every finding still carries its device's tenant |
| Compliance.SecondEvaluationIsSilent | internal/compliance/compliance.go:231-274 | Evaluating the same text again reports nothing and changes nothing, in whatever order |
| Discovery.IncIP | internal/discovery/discovery.go:164-171 | The in-place loop increments with carry |
| Discovery.IncrementAddsOne | internal/discovery/discovery.go:164-171 | Incrementing adds one to the value, and all ones wraps to zero |
| Discovery.WrapLeavesBlock | internal/discovery/discovery.go:154-156 | A block that ends at 255.255.255.255 does not begin at zero, so wrapping leaves it and the loop ends |
| Discovery.BlockIsStretch | internal/discovery/discovery.go:153-154 | The addresses whose leading bits agree are exactly 2^(32-p) consecutive values from the base with its host bits cleared |
| Discovery.ExpandCIDR | internal/discovery/discovery.go:140-162 | Refuses other widths and prefixes below 16; otherwise terminates with the hosts of the block, also when the carry wraps |
| Discovery.HostsAreTheBlock | internal/discovery/discovery.go:152-161 | The hosts are exactly the addresses of the block, ascending and once each, without the first and last up to /30, and 2^(32-p) or two less in number |
| Discovery.HostsByBits | internal/discovery/discovery.go:140-162 | By bits: a host shares the base's first p bits and, up to /30, has neither all zeros nor all ones behind them; ascending, once each, 2^(32-p) or two less |
| Topology.Merge | internal/netops/topology.go:161-193 | For every order of the lists: the graph of the links visited, in order of their local ends; exact if the texts tell the edges apart |
| Topology.GraphIsExact | internal/netops/topology.go:161-193 | One given link for each undirected edge and exact node and edge counts, for every order of the links, if and only if links of different edges have different texts, also with one of them reversed |
| Topology.TextKeysAgree | internal/netops/topology.go:166-172 | For such links, looking up both texts of a link finds exactly whether its edge was met |
| Topology.OrderDoesNotMatter | internal/netops/topology.go:164-193 | For such links, two orders give the same undirected edges, node count and edge count |
| Topology.PlainKeysAreDistinct | internal/netops/topology.go:166-168 | For hosts without a bar and ports without a bar, a doubled colon or a colon at the end, the text of a key determines both ends |
| Topology.PlainTextsTell | internal/netops/topology.go:161-193 | Links with such plain names are merged exactly in every order |
| Topology.BarsCanCollide | internal/netops/topology.go:166-168 | Two links between different ends of which only one is counted, in either order |
| Topology.OrderCanMatter | internal/netops/topology.go:164-176 | Three links of two edges for which the order of the lists decides whether one edge is counted or two |
| Topology.Sort | internal/netops/topology.go:181-186 | The links once each, ascending by local host and then local port |
| Topology.BeforeMeaning | internal/netops/topology.go:181-186 | One string comes before another if it ends or has the smaller character where they first differ |
| Topology.TextsByNames | internal/netops/topology.go:166-168 | The two texts of a link, and when two links are the same edge, by their four names |

## Left out

- HTTP handlers, routing, the user interface, configuration loading, logging and metrics; tenants, probes, devices,
  search, notification and credential services, which are stored and read back without further logic.
- Dialling, SSH, TLS and gRPC: a reader is a sequence of chunks or the bytes still to come, a writer an appended sequence.
  Write and flush errors are not modelled.
- Hashing and encryption: the nonce key (`internal/server/grpc.go:378-381`) and the in-memory host key
  (`internal/transport/known_hosts.go:128-130`) are the tuples they are made from.
- The SQL engine, foreign keys and cascades; deletion of pollers, jobs, devices and pins. The pollers that a claim's
  EXISTS looks up are a set that only grows.
- PollerJobs.JobService.Enqueue: the row it returns is not modelled, only the table and whether the call is refused;
  the random key is a parameter. The allowed job types are those of `internal/storage/migrations/0005_hardening.sql:46`.
- No code modelled here moves a job to `running`; the statements that accept it keep it as an accepted status.
- Other database failures than "this statement had no effect". In `KnownHosts` a failed statement ends the dial; in
  `LeaseScheduler` a failed insertion goes on to the update, and a caller may stop between any two statements.
- LeaseScheduler.OneLeaderAtATime: whether a job that outlives its lease still runs is not covered, because the runner
  does not look at the lease again during a job. Holder ids are taken to be distinct.
- LeaseScheduler.Runner.Tick: the jobs' own work and their goroutines are left out; it names the jobs that are started.
- ChangeRequests.Service.Create: how the columns are encoded is left out; an absent text and an empty one are the same.
- Whether the executor runs at most once per approved request: the handler runs it before the status write.
- ChangeRequests.Service.TransitionFrom: a failing event write is covered in `ChangeRequestRuns`, not in this method.
- KnownHosts.DBKnownHostsStore.Verify: splitting "host:port" and the default port are left out; host and port are given.
- TelnetIac.TelnetSession.StripIAC: nothing is carried from one block to the next, as in the source, so an item cut in
  two by a block boundary is read as two blocks; prompts and login are not part of this model.
- NetconfFraming.ReadRPCReply: the timer and the context are one kind of interruption, and what follows the first
  marker in the same chunk is dropped with the reply, as in the source.
- NetconfFraming.AcceptedPayloadArrives: it speaks of the literal `</config>` only, since the validator does, and of no
  XML parser; lower-casing is modelled as far as it can produce an ASCII letter.
- Get-config requests, XML replies and the close-session message.
- Migration bookkeeping around `SqlSplit.SplitStatements`; block comments and double-quoted names, which the splitter
  does not know either.
- Compliance.Service.ListRulesForDevice: the order by name is left out; the results hold for every order.
- Rule creation and rule packs, severity and descriptions.
- Discovery.ExpandCIDR: parsing the prefix and dotted-quad formatting are left out; base, prefix length and width are
  given.
- Topology.Merge: links with the same local end may come in either order, as with the unstable sort of the source; the
  neighbour-table parsers and the version field are not modelled.
