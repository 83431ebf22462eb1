# Verification of the InfraFence agent's cores

A Dafny 4.11 model of the parts of the InfraFence agent that hold state, arithmetic or a protocol, with proofs of
what they promise. `dafny verify dfyconfig.toml` checks the whole project.

| files | what they model |
|---|---|
| `EventQueue`, `EventDelivery`, `EventIsolation`, `EventBounds`, `EventRules`, `EventSender` | the event sender: a bounded queue with two priorities, batches, retries, halving of a refused batch, overflow warnings, the spool at shutdown |
| `CountryNetworks`, `GeoSplit` | a country's address ranges as the fewest networks, and these split around addresses that must not be blocked |
| `Packets`, `DnsFilter` | the IPv4, IPv6 and UDP decoder, and the classic BPF program in front of it, run by a small machine |
| `DnsMessage`, `DnsEncoding` | DNS names with compression pointers, messages, and the layout servers use |
| `FirewallDesired`, `FirewallRequests` | the dashboard's firewall state, its pending requests and the requests applied here |
| `RefusalGate`, `ProtectionSwitch` | the back-off after refusals, the 24 hour clock, and the switch-off it allows |
| `ClientLog`, `ClientCounts` | the addresses that use the database ports |
| `RuleVerdicts`, `JumpOrder`, `ChainSync` | what the rule lists decide, where the jumps stand, and how the chains are kept |
| `BanStore`, `LocalBans`, `PanelLifts`, `PanelOutbox` | the bans, the local ones not confirmed yet, the ones lifted from a hosting panel, and the panel's events |
| `FirewallGuard`, `GuardRules` | the guard that puts the chains back |
| `Sequences`, `Collections`, `Arithmetic` | shared facts |

Code that changes fields step by step is a class whose methods are proved equal to step functions
(`Sender`, `RequestRunner`, `GateCell`, `Log`, `HostChain`, `FwState`, `Store`, `BanOutbox`, `PanelState`, `Outbox`,
`GuardCell`); the properties are lemmas about those functions over every run. Where a step
function alone would say what an operation does, a law in other terms is proved beside it: the history of a run, the
literal conditions, or a reference definition. Answers of the dashboard, of
`iptables`, of the clock and of other processes are free parameters of the steps. Loops over a map visit its keys
in any order. Where the order of texts matters, addresses are numbered in that order.

## What the proofs found

Where the code does less than its comments say, the code is modelled as it is and the exact condition is proved.

- Events that make the dashboard fail (5xx) are isolated by halving if and only if the first event of the batch is
  good; a bad one in front blocks the batch as long as the failure lasts (`PoisonIsolatedIffFirstGood`).
- The DNS filter lets first fragments and truncated packets through, which its comment excludes; the decoder drops
  exactly those (`AcceptedIsDecodedIffComplete`).
- A restart that takes the saved refusal clock back stands for an unbroken refusal if and only if the file was not
  older than the last accepted or unanswered request (`RestartKeepsStreakIffFileCurrent`). The second look before the
  switch-off only asks that some refusal is recent. So within 24 hours of the check it is backed by 24 hours of refusal
  if and only if, since the check, nothing was accepted or left unanswered and the dashboard refused at least once an
  hour (`OffIsJustifiedIff`, `AcceptedBetweenCheckAndOff`).
- What requests were run and applied is not saved. A listed request runs again if and only if the agent was started
  since it ran (`TurnIsRunIff`). An applied close that is still listed is taken back by the first sync after a restart,
  although what was enforced is restored until then (`EffectAfterRestartIff`, `RestartReopens`).
- The client log's 200 addresses per port and day hold over a day if and only if no address recorded on another day
  comes while 200 are recorded (`DayBoundBreaksIff`, `DayBoundOverRuns`); `DayBoundBreaks` is a 201st address.
- `mayAccept` passes RETURN, a goto to a known chain, a jump to INFRAFENCE-RULES, which may accept, and a rule whose
  comment holds a harmless target. A chain guarded by its test drops all that the InfraFence chain drops if and only if
  no rule ahead of the jump leads to INFRAFENCE-RULES while that accepts, and none is misread and accepts; with an
  accepting policy, also none leaves the chain (`ShieldedIff`, `GuardedProtectsIff`). `RulesAheadExposes` and
  `CommentHidesAccept` are chains that pass the test and let a banned source in.
- `ensureFirstJump` has a moment without a jump that was there if and only if it moves the jump and iptables deletes
  every copy; the jump is gone afterwards if iptables then refuses to insert it (`EnsureFirstJump`).
- The rules jump is to come right after the main one. A new one does so if and only if `INPUT` could be listed a second
  time; otherwise it is put first, ahead of the bans, where later calls leave it (`EnsureInputJumps`).
- A chain that could not be listed after a rebuild is remembered as empty (`StaysSoundIff`). If it is then emptied from
  outside it stays empty (`UnreadChainIsTrusted`). If nothing is changed the next sync rebuilds it and reports the
  agent's own rules as a repair, if and only if a chain with rules was not read back (`SecondSyncDoesNothingIff`,
  `RepairsAreForeignIff`, `OwnRebuildIsReported`).
- A new local ban costs a permanent one if and only if the permanent bans alone reach the capacity
  (`LocalBanKeepsPermanentIff`).
- A local ban is dropped unjudged, or marked without having been reported, if and only if it was noted between the
  judgement or report of an earlier ban of its address and the deletion or mark (`OwnIffTimely`,
  `ForgottenWasReportedIff`); `StaleDropLosesBan` and `StaleMarkLosesBan` lose a ban in this way. A full outbox
  displaces a ban also for an address that already waits (`NoteDisplacesIff`).
- The ids of a panel lift are said to be completed in the first hour; the first sync completes them however late it
  comes (`FirstSyncAdoptsAnyTime`), and `AdoptsIff` says exactly when a lift still adopts.

## Model

| member | source | states |
|---|---|---|
| EventQueue.OverflowIsNotUrgent | internal/api/events.go:653-675 | the queue's own warning is not urgent by the classification of its type, so entering it as not urgent is right |
| EventQueue.UrgentIff | internal/api/events.go:653-675 | which events are urgent, by severity, the words in their type and its ends, and the details of an attack |
| EventQueue.MakeRoomDropsTheRightEvents | internal/api/events.go:186-220 | room is made by an oldest-first prefix of the non-urgent events; an urgent event goes only when no other is left; the survivors keep their order |
| EventQueue.MakeRoomDropsEnoughAndNoMore | internal/api/events.go:186-220 | nothing goes while the event fits; otherwise the reduced budgets hold exactly when the event fits in the reduced byte budget, and no fewer drops would do |
| EventQueue.MarkPass | internal/api/events.go:195-207 | one pass marks, oldest first and within its priority, exactly until the reduced budgets hold |
| EventQueue.ChooseDrops | internal/api/events.go:186-220 | the two passes in place keep exactly the events of the minimal choice and count what they drop |
| EventDelivery.LedgerOverRuns | internal/api/events.go:150-450 | over every run and pattern of answers, added events and created warnings equal delivered, dropped, given up, queued and in flight; the counts in warnings and the unreported count equal the dropped total; what is delivered is in queueing order |
| EventDelivery.ReplyKeepsLedger | internal/api/events.go:356-436 | every answer of the server keeps the parts a partition of the batch into non-empty pieces and the ledger balanced |
| EventDelivery.FlushedIffNothingLeft | internal/api/events.go:347-435 | the loop answers a waiting flush exactly when the batch and the queue are empty and no loss is left to warn about |
| EventIsolation.PermanentIsolation | internal/api/events.go:356-436 | through any answers that permanently refuse exactly the requests with a bad event, with transient failures, new events and flushes between them, a batch in any state is done within its cost: the good events delivered in order, each bad one given up alone and counted once, the rest as the others left it |
| EventIsolation.FreshBatchIsolated | internal/api/events.go:356-436 | for a batch of n as it was taken that is at most 2n-1 requests, and exactly these when all are bad |
| EventIsolation.FewBadIsolated | internal/api/events.go:376-384 | with at most h bad events a batch of n is done after 1 + 2 h log2 n requests that say something, log2 rounded up, or ten times that against server faults with a good first event |
| EventIsolation.FatesOverRuns | internal/api/events.go:356-436 | at any time exactly the good events that left the batch were delivered, in order, and the bad ones given up |
| EventIsolation.PermanentIsolationTight | internal/api/events.go:356-436 | when every event is bad the batch is still undone after any smaller number of answers |
| EventIsolation.PoisonIsolation | internal/api/events.go:387-420 | against server faults, any different ones, once a part was delivered or a good event is in front, ten tries per request isolate the bad ones in the same way |
| EventIsolation.PoisonInFrontBlocks | internal/api/events.go:387-420 | a bad event in front of an undelivered batch is never given up while the server fails on it, and nothing else is touched by the answers |
| EventIsolation.PoisonIsolatedIffFirstGood | internal/api/events.go:387-420 | a fresh batch of n is done after ten times 2n-1 such answers exactly when its first event is good; with a bad one in front it never is |
| EventBounds.QueueBoundedOverRuns | internal/api/events.go:43-76 | over every run the queue holds at most 5000 events and 16 MB, warnings included |
| EventBounds.SizedEventHasRoom | internal/api/events.go:186-220 | an event within the limits of a reported one always gets its room, with the reduced budgets once anything is dropped |
| EventBounds.NextBatchIsDueSoon | internal/api/events.go:249-298 | when take returns nothing from a non-empty queue the next batch is due within 5 s, within 1 s with an urgent event |
| EventBounds.TimelyOverRuns | internal/api/events.go:249-298 | the times this needs hold after every run with a forward clock |
| EventBounds.RetryWaitBounds | internal/api/events.go:356-436 | no wait after a delivery, 200 ms after a split or a given-up event; the same request waits 500 ms while a flush waits that is not held back, else between a second and five minutes, half an hour after a refusal of the agent |
| EventBounds.SpoolIsTheUrgentRemainder | internal/api/events.go:491-517 | shutdown saves exactly the undelivered urgent events in queueing order, past 5000 the newest of them |
| EventBounds.FaithfulOverRuns | internal/api/events.go:150-174 | over every run the urgency noted with each queued event is that of its classification, for the queue's own warnings too |
| EventRules.TakesIff | internal/api/events.go:249-298 | a batch is taken exactly when forced, with a hundred events, with one 5 s old, or with an urgent one a second after the last urgent batch; it is the oldest events, a hundred at most, the warning with its counts among them |
| EventRules.EventWaitsAsItCame | internal/api/events.go:150-174 | a reported event joins the end of the queue with its own urgency, size and time |
| EventRules.FlushHurries | internal/api/events.go:334-447 | a waiting flush has the next batch taken, and a failed one tried, at once; one that gave up has not |
| EventRules.LossesAreDated | internal/api/events.go:224-239 | over every run the next warning is dated from the first loss since the last one |
| EventRules.BlameOverRuns | internal/api/events.go:224-247 | over every run the warnings, with the one to come, put exactly the events lost by an answer down to the server |
| EventRules.StopIsFinal | internal/api/events.go:150-156 | nothing is queued after a stop, through any run |
| EventRules.AnswerDecides | internal/api/events.go:366-430 | a part is delivered exactly by an accepting answer, and taken apart or given up exactly by a 400, 413 or 422 or by a fault of the server, not of a proxy, that is at least the tenth failure in a row and, for one event, follows a delivery |
| EventRules.WaitIsExact | internal/api/events.go:404-428 | the wait doubles from a second to half a minute over failures in a row; an answer that asks for more gets it up to five minutes, half an hour for a 401 or 403; a waiting flush that is not held back tries every half second |
| EventRules.DeliveryEndsBackoff | internal/api/events.go:371-374 | a delivery ends the back-off and the count of failures |
| EventSender.Sender.AddEvents | internal/api/events.go:150-174 | the fields after add are those of the add step for every event, nothing after a stop |
| EventSender.Sender.MakeRoomFor | internal/api/events.go:186-220 | compaction in place gives the queue, urgent count, bytes and losses of the minimal choice |
| EventSender.Sender.NoteLosses | internal/api/events.go:224-239 | losses are counted, dated from the first, and totalled |
| EventSender.Sender.TakeBatch | internal/api/events.go:249-298 | the batch, the queue and its counters after take; without a batch it returns when the next one is due |
| EventSender.Sender.TakeNextBatch | internal/api/events.go:344-435 | the loop with nothing pending takes at once for a waiting flush and answers it when nothing is left |
| EventSender.Sender.HandleReply | internal/api/events.go:356-436 | one answer in the loop does the reply step: delivery, halving, giving up, poison counting or retry, with the wait and the answer to held-back flush callers; FewBadIsolated and AnswerDecides say what that step is |
| EventSender.Sender.SpoolEvents | internal/api/events.go:491-517 | the loops over the batch and the queue write exactly the spool |
| EventSender.Compact | internal/api/events.go:208-217 | the entries that stay, in order, with the count of the urgent ones |
| EventSender.FirstBatch | internal/api/events.go:281-296 | the first n events, and the urgent count and bytes of the rest |
| EventSender.UrgentOf | internal/api/events.go:491-517 | the urgent events of the batch in order |
| EventSender.UrgentQueued | internal/api/events.go:491-517 | the urgent events of the queue in order |
| GeoSplit.ExcludeAddrs | internal/firewall/geoblock.go:216-245 | the loops return every network's pieces, the other entries as they are, and the count of hits |
| GeoSplit.ExemptAddrs | internal/firewall/geoblock.go:217-224 | the IPv4 addresses to exempt, each once |
| GeoSplit.CountHits | internal/firewall/geoblock.go:236-242 | the number of exempt addresses in a network |
| GeoSplit.PiecesCoverExactly | internal/firewall/geoblock.go:254-272 | the pieces cover exactly the network's addresses that are not exempt |
| GeoSplit.PiecesAreDisjoint | internal/firewall/geoblock.go:254-272 | the pieces lie in the network in ascending order without overlap |
| GeoSplit.PiecesHaveHitSiblings | internal/firewall/geoblock.go:254-272 | each piece is the whole network or has an exempt address in its sibling block |
| GeoSplit.PiecesAreMaximal | internal/firewall/geoblock.go:254-272 | any network inside that avoids the exempt addresses lies in one piece |
| GeoSplit.PieceCount | internal/firewall/geoblock.go:254-272 | a /k network with h > 0 exempt addresses gives at most h (32-k) pieces, otherwise one |
| GeoSplit.PiecesAreFewest | internal/firewall/geoblock.go:254-272 | no other list of networks that covers the same addresses is shorter |
| GeoSplit.ExclusionIsExact | internal/firewall/geoblock.go:216-245 | over the whole list an address is covered afterwards exactly when it was and is not exempt |
| GeoSplit.OtherEntriesStay | internal/firewall/geoblock.go:230-233 | entries that are no IPv4 network stay, in order |
| GeoSplit.HitCountIsExactIffDisjoint | internal/firewall/geoblock.go:236-242 | the logged count is never below the number of exempt addresses and equals it exactly when none lies in two networks |
| GeoSplit.HalvesAreNetworks | internal/firewall/geoblock.go:262-271 | both halves are aligned networks and the 32-bit sum does not wrap |
| CountryNetworks.ExtractCIDRs | internal/geoip/geoip.go:245-290 | the networks of a country are in order, do not overlap, cover exactly the ranges, and no list that does is shorter; refused exactly when even the fewest are more than the limit or the ranges read more than twice that |
| CountryNetworks.MergeRanges | internal/geoip/geoip.go:295-307 | sorting and joining leaves ranges of which no two overlap or touch, with the same addresses |
| CountryNetworks.RangesToCIDRs | internal/geoip/geoip.go:309-333 | the nested loops give the largest aligned blocks of every range in turn, or nothing past the limit |
| CountryNetworks.BlockBits | internal/geoip/geoip.go:315-322 | trailing zeros and the inner loop find the largest aligned block that ends within the range |
| CountryNetworks.BlocksAreFewest | internal/geoip/geoip.go:309-333 | no list of networks that covers exactly the joined ranges is shorter than these blocks |
| CountryNetworks.CountryHitsAreExact | internal/firewall/geoblock.go:236-242 | on such a list the logged count of excluded addresses is exact |
| Packets.UdpRoundTrip | internal/dnswatch/packet.go:53-64 | a datagram is found behind any header, with its ports and payload, whatever padding follows (RFC 768) |
| Packets.PayloadIsExact | internal/dnswatch/packet.go:53-64 | the payload ends where the length field says, or with the packet when the field is out of range |
| Packets.ParseInvertsEncode4 | internal/dnswatch/packet.go:26-64 | decoding inverts encoding for every IPv4 datagram that is no fragment, options included (section 3.1 of RFC 791) |
| Packets.ParseInvertsEncode6 | internal/dnswatch/packet.go:26-64 | decoding inverts encoding for every IPv6 datagram without extension headers (section 3 of RFC 8200) |
| DnsFilter.FilterDecides | internal/dnswatch/capture_linux.go:34-56 | on every byte string the 21 instructions accept exactly the IPv4 UDP packets that are no later fragment and the IPv6 UDP packets with a port 53; a load out of range rejects |
| DnsFilter.DecodedIsAccepted | internal/dnswatch/capture_linux.go:15-57 | every packet the decoder decodes with a port 53 is accepted by the filter |
| DnsFilter.AcceptedIsDecodedIffComplete | internal/dnswatch/capture_linux.go:15-57 | an accepted packet is decoded exactly when it is complete: header length, no fragment, a whole UDP header |
| DnsFilter.AndLowBits | internal/dnswatch/capture_linux.go:34-56 | the machine's AND with a mask of low bits is the remainder |
| DnsMessage.NameDecodingIsExact | internal/dnswatch/dnsmsg.go:84-122 | a name decodes to labels exactly when the bytes spell them with at most 17 pointers and 255 octets; pointer loops are refused |
| DnsMessage.ExtentInRange | internal/dnswatch/dnsmsg.go:84-122 | the bytes a decoded name is said to occupy lie in the message |
| DnsMessage.ReadName | internal/dnswatch/dnsmsg.go:84-122 | the loop terminates on any bytes and returns the labels and the bytes occupied |
| DnsMessage.JoinIsDotted | internal/dnswatch/dnsmsg.go:98 | the returned name is the one text in which every label stands behind the octets of those before it, with a dot between them |
| DnsMessage.NamesAreDistinct | internal/dnswatch/dnsmsg.go:98 | labels without dots that give the same name are the same |
| DnsMessage.AddressesAreExact | internal/dnswatch/dnsmsg.go:70-75 | the addresses are the 4 bytes of each A record and the 16 of each AAAA record, in order |
| DnsMessage.ParseInvertsAnyLayout | internal/dnswatch/dnsmsg.go:28-79 | for any compression layout within the limits, parsing gives the lower-cased first name with its labels where they belong, its type, flags and the addresses of the first 64 answers in order (sections 4.1 and 4.1.4 of RFC 1035, section 2 of RFC 3596) |
| DnsMessage.ParsedIffQuestion | internal/dnswatch/dnsmsg.go:28-79 | on arbitrary bytes a message is returned exactly when its first question is well-formed |
| DnsMessage.ParsedParts | internal/dnswatch/dnsmsg.go:28-79 | whatever is returned was read from well-formed questions, its name with its labels where they belong, and its answers from the longest well-formed run of records up to 64 |
| DnsMessage.ReadAreRecords | internal/dnswatch/dnsmsg.go:58-77 | the records read are well-formed one after the other, and none follows where the reading stopped unless the count was reached |
| DnsMessage.ParseMessage | internal/dnswatch/dnsmsg.go:28-79 | the header, the question and answer loops compute the parse of the format |
| DnsMessage.ParseFurther | internal/dnswatch/dnsmsg.go:50-78 | the message as read so far when a further question is malformed, else with its answers |
| DnsMessage.SkipFurther | internal/dnswatch/dnsmsg.go:50-57 | where the further questions end, none when one is malformed |
| DnsMessage.ReadRecord | internal/dnswatch/dnsmsg.go:58-77 | one record with its type and data and where it ends |
| DnsMessage.ReadAnswers | internal/dnswatch/dnsmsg.go:58-77 | the A and AAAA data of the records up to the first malformed one, at most 64 |
| DnsEncoding.ParseInvertsEncode | internal/dnswatch/dnsmsg.go:28-79 | parsing inverts the layout servers use: the name once, every answer pointing to it; the name comes back with dots between its labels |
| DnsEncoding.PointerReadsTarget | internal/dnswatch/dnsmsg.go:99-108 | a pointer to any offset of 14 bits reads as the name there, and occupies two bytes |
| FirewallDesired.EffectiveFirewall | cmd/infrafence-agent/fwactions.go:331-383 | both returned lists are ascending, and a port or address is in them exactly when the highest applied request about it closes it, or, without one, the base lists it and no listed unapplied request closes it |
| FirewallDesired.BaseTargets | cmd/infrafence-agent/fwactions.go:332-344 | the TCP ports and canonical addresses of the state |
| FirewallDesired.TcpIff | cmd/infrafence-agent/fwactions.go:332-344 | which protocols of the state count as TCP |
| FirewallDesired.OnlyClosesWait | cmd/infrafence-agent/fwactions.go:345-355 | only a listed close or block that is not applied takes its target out of the state |
| FirewallDesired.SortedIds | cmd/infrafence-agent/fwactions.go:356-361 | the applied requests in ascending order of their ids |
| FirewallDesired.CrossingSyncKeepsApplied | cmd/infrafence-agent/fwactions.go:150-172 | a sync that still lists an applied request leaves its effect as it was, whatever state it carries |
| FirewallDesired.UnappliedHasNoEffect | cmd/infrafence-agent/fwactions.go:331-383 | while a listed close is not applied, its target is in effect exactly when the highest applied request about it closes it, never through the state |
| FirewallDesired.AppliedHasItsEffect | cmd/infrafence-agent/fwactions.go:356-383 | a request applied after all others has exactly its effect: closed and blocked targets are in the lists, opened and unblocked ones are not, other targets stay as they were |
| FirewallDesired.UndoneHasNoEffect | cmd/infrafence-agent/fwactions.go:749-754 | undone, or no longer listed at a sync, it leaves no trace |
| FirewallRequests.RunAtMostOnce | cmd/infrafence-agent/fwactions.go:534-586 | while the dashboard keeps listing a request it is run at most once a start of the agent, through any syncs, actions and failed deliveries |
| FirewallRequests.TurnIsRunIff | cmd/infrafence-agent/fwactions.go:540-565 | when its turn comes with room, a listed request runs exactly if it has not run since the last start |
| FirewallRequests.TurnIsExact | cmd/infrafence-agent/fwactions.go:545-565 | a request at its turn is sent again with its last result exactly if its last delivery failed, run exactly if it has not run and there is room, else passed over |
| FirewallRequests.ResultIsResentUntilDelivered | cmd/infrafence-agent/fwactions.go:534-586 | since the last start every delivery carries the one recorded result, each before the last failed, and it is kept exactly while the last failed |
| FirewallRequests.ListDelivers | cmd/infrafence-agent/fwactions.go:545-576 | a list from its beginning to its end delivers every owed result of its requests, and every new one, at each turn up to the first success, so once where the request stands once, and no other; it is owed afterwards exactly if the last delivery failed |
| FirewallRequests.FinishedIsSent | cmd/infrafence-agent/fwactions.go:560-576 | what is sent is what the run ended with |
| FirewallRequests.RolledBackStaysOut | cmd/infrafence-agent/fwactions.go:598-716 | a request rolled back since the last start is never among the applied ones again while it is listed |
| FirewallRequests.RolledBackHasNoEffect | cmd/infrafence-agent/fwactions.go:749-754 | while a close rolled back since the last start stays listed, its target is in effect exactly when the highest applied request about it closes it, whatever state arrives |
| FirewallRequests.AppliedKeepsEffect | cmd/infrafence-agent/fwactions.go:150-172 | over any run of syncs, requests, deliveries and rollbacks without a restart an applied request that stays listed keeps its effect until a later one about its target is applied |
| FirewallRequests.EffectAfterRestartIff | cmd/infrafence-agent/fwstate.go:235-252 | after a restart exactly the saved targets are in effect, and after the next sync exactly those of the state that no listed request would close |
| FirewallRequests.RestartReopens | cmd/infrafence-agent/fwactions.go:331-383 | an applied close that is still listed is taken back by the first sync after a restart |
| FirewallRequests.PacedOverRuns | cmd/infrafence-agent/fwactions.go:540-575 | over every run at most ten requests of one list are run |
| FirewallRequests.BatchRunsTen | cmd/infrafence-agent/fwactions.go:540-575 | one list runs ten of its requests that were not done, or all of them if fewer, each once; done afterwards are exactly its requests that were done or run, so the skipped are still to be run |
| FirewallRequests.RepeatedListRunsAll | cmd/infrafence-agent/fwactions.go:534-586 | lists of the same n requests leave n - 10 m of them to run after m lists since the last start, until all have run once each |
| FirewallRequests.RequestRunner.ApplyFirewallState | cmd/infrafence-agent/fwactions.go:150-172 | the fields after a sync: state kept when none is sent, overlay cut to the listed requests |
| FirewallRequests.RequestRunner.TakeRequest | cmd/infrafence-agent/fwactions.go:534-586 | which of skip, resend and run happens to a listed request, and the record left; TurnIsExact says when each |
| FirewallRequests.RequestRunner.SendResult | cmd/infrafence-agent/fwactions.go:534-586 | a delivered result is no longer owed, a failed one is kept for the next sync |
| FirewallRequests.RequestRunner.SettleRequests | cmd/infrafence-agent/fwactions.go:534-586 | records of requests no longer listed are forgotten, no others |
| RefusalGate.DelayBounds | internal/backoff/gate.go:173-186 | the delay doubles from a minute with up to a fifth added and stays between a minute and half an hour |
| RefusalGate.RefusedWaits | internal/backoff/gate.go:191-241 | a refusal imposes and returns a wait of at most half an hour, a new one of at least a minute |
| RefusalGate.CountedIff | internal/backoff/gate.go:191-241 | a reply is counted exactly if it is a 401 or 403 and no wait for the same kind of refusal runs; else it changes nothing but the clock |
| RefusalGate.WaitsDouble | internal/backoff/gate.go:173-186 | after an accepted request nothing waits; then the n-th refusal in a row waits a minute times 2 to the n-1 and up to a fifth more, from the sixth on nearly half an hour |
| RefusalGate.NoAnswerEndsClock | internal/backoff/gate.go:117-145 | an unanswered request ends the clock, and a refusal in the same instant does not count |
| RefusalGate.WaitsOverRuns | internal/backoff/gate.go:278-285 | over every run, restarts included, no imposed wait is longer |
| RefusalGate.StaysSound | internal/backoff/gate.go:117-145 | every event except a restart from an outdated file keeps the clock in step with the history |
| RefusalGate.RefusedForIsUnbroken | internal/backoff/gate.go:137-145 | n hours of refusal with 1 h freshness stand for at least n JSON refusals, each at most an hour after the last, with no accepted request and no unreachable mark between, the restored clock included |
| RefusalGate.RestartKeepsStreakIffFileCurrent | internal/backoff/gate.go:82-89 | a restored clock stands for an unbroken streak exactly when the file is not outdated |
| RefusalGate.OutdatedFileExample | cmd/infrafence-agent/refusal.go:126-152 | a concrete run whose clock counts across an accepted request |
| RefusalGate.GateCell.NoteRefused | internal/backoff/gate.go:191-241 | the fields, the wait and exactly when the start of a refusal is reported |
| RefusalGate.GateCell.NoteOK | internal/backoff/gate.go:245-265 | an accepted request clears the failures and the clock |
| RefusalGate.GateCell.NoteUnreachable | internal/backoff/gate.go:117-130 | an unanswered request ends the clock when it lies after the last refusal |
| RefusalGate.GateCell.Restore | internal/backoff/gate.go:82-89 | what a restart takes from the file |
| ProtectionSwitch.SwitchSoundOverRuns | cmd/infrafence-agent/refusal.go:162-265 | over every run the gate is idle exactly while protection is off, and the clock a passed check saw is known |
| ProtectionSwitch.OffIsJustifiedIff | cmd/infrafence-agent/refusal.go:172-222 | protection going off within 24 hours of the check is backed by 24 hours of refusal exactly when nothing was accepted or unanswered since the check and the dashboard refused at least hourly, later also when the newer clock has run 24 hours; then 24 refusals in a row stand behind it |
| ProtectionSwitch.SwitchIsExact | cmd/infrafence-agent/refusal.go:172-265 | protection goes off exactly when the second look finds a refusal within the hour on a running clock, on by the switch, and comes back from a restart as saved |
| ProtectionSwitch.AcceptedBetweenCheckAndOff | cmd/infrafence-agent/refusal.go:172-222 | an accepted request and one refusal between the two looks still let the switch-off through |
| ProtectionSwitch.DayOfRefusalPassesCheck | cmd/infrafence-agent/refusal.go:162-169 | 24 refusals at hourly distance after a first do pass the check |
| ClientLog.KnownDaysSurvive | internal/dbclients/dbclients.go:107-219 | an address recorded on two days of a port keeps them through any samples while both lie in the window |
| ClientLog.ThirdDayMakesRegular | internal/dbclients/dbclients.go:107-251 | then one more sample on a third day of the window makes it regular, whatever else was seen |
| ClientLog.CountStaysWithin | internal/dbclients/dbclients.go:133-161 | counting keeps at most 1000 addresses on a port, and a new address is counted only below 200 that day |
| ClientLog.CountSeesKnown | internal/dbclients/dbclients.go:133-161 | a recorded address is always counted |
| ClientLog.ObserveStaysWithin | internal/dbclients/dbclients.go:107-166 | every call keeps at most 64 ports and 1000 addresses a port |
| ClientLog.BoundsOverRuns | internal/dbclients/dbclients.go:107-166 | so does every run of calls |
| ClientLog.DayBoundBreaksIff | internal/dbclients/dbclients.go:133-149 | one more address takes a day of a port past 200 exactly when it is known from another day and 200 are recorded |
| ClientLog.DayBoundOverRuns | internal/dbclients/dbclients.go:107-166 | over the calls of a day a port stays within 200 exactly when it started within and no such address came |
| ClientLog.DayBoundBreaks | internal/dbclients/dbclients.go:133-149 | an address of one day and 200 others and it on the next make 201 |
| ClientLog.VictimIsUnique | internal/dbclients/dbclients.go:171-188 | the least seen one-day address, the lower one of equals, is determined |
| ClientCounts.NewIsRecordedIff | internal/dbclients/dbclients.go:133-188 | a new address is recorded exactly with fewer than 200 that day and fewer than 1000 in all or one of a single other day; it then takes the place of the least seen of these and of nobody else |
| ClientCounts.ObservedIsExact | internal/dbclients/dbclients.go:107-166 | after a call an entry counts one sample more, of this moment, exactly if it is today's and its address is in the sample of its port; every other one is as it was, and all are of the window |
| ClientCounts.PrunedIff | internal/dbclients/dbclients.go:202-219 | pruning takes exactly the entries that are not of the last 7 days or tomorrow |
| ClientCounts.PortIsRecordedIff | internal/dbclients/dbclients.go:115-126 | a sampled port is recorded exactly from 1 to 65535 and while there are fewer than 64 |
| ClientCounts.AddressesAreDistinct | internal/dbclients/dbclients.go:127-132 | a sample counts each of its public addresses once |
| ClientLog.Log.Evict | internal/dbclients/dbclients.go:171-188 | the loop drops exactly that address, and reports false exactly when there is none |
| ClientLog.Log.CountDay | internal/dbclients/dbclients.go:190-198 | the number of addresses recorded for a day |
| ClientLog.Log.CountAddress | internal/dbclients/dbclients.go:127-161 | one address of a sample, with the short circuit that evicts only past both bounds |
| ClientLog.Log.CountSample | internal/dbclients/dbclients.go:127-161 | the addresses of one port's sample, each counted once |
| ClientLog.Log.SamplePort | internal/dbclients/dbclients.go:115-126 | a port out of range, or a new one past 64, is passed over |
| ClientLog.Log.Prune | internal/dbclients/dbclients.go:202-219 | exactly the days of the window stay, and no empty address or port |
| ClientLog.KeepWindow | internal/dbclients/dbclients.go:205-210 | exactly the days of the window of one address |
| ClientLog.KeepKnown | internal/dbclients/dbclients.go:204-215 | the addresses of a port with a day left |
| ClientLog.Log.Observe | internal/dbclients/dbclients.go:107-166 | the nested loops do the step the flood lemmas are about |
| ClientLog.Log.Regular | internal/dbclients/dbclients.go:223-251 | exactly the addresses with three counted days, in the order of their texts, with their number of days and their earliest and latest sample |
| ClientLog.Summary | internal/dbclients/dbclients.go:231-247 | one address is regular exactly with three counted days, with their number and extremes |
| ClientCounts.RegularIff | internal/dbclients/dbclients.go:231-247 | an address is regular exactly when it was seen on three days of the window up to today |
| RuleVerdicts.DesiredRules | internal/firewall/chain.go:176-215 | the loops build the rules over ipsets, or one rule per allow entry and per IPv4 ban in text order, and the dashboard's rules as they are for their chain |
| RuleVerdicts.OverSets | internal/firewall/chain.go:179-194 | the rules over ipsets in their order |
| RuleVerdicts.PerAddress | internal/firewall/chain.go:195-210 | the rules per address in their order |
| RuleVerdicts.SortedBans | internal/firewall/chain.go:200-206 | exactly the IPv4 bans, in the order of their text |
| RuleVerdicts.WordsConcat | internal/firewall/chain.go:211-213 | the text of a dashboard rule is its parts with blanks between them |
| RuleVerdicts.SetRulesDecide | internal/firewall/chain.go:179-194 | over ipsets: allow-listed sources leave first, then the sub-chains decide, then the banned and the sources on an active list are dropped |
| RuleVerdicts.AddressRulesDecide | internal/firewall/chain.go:195-210 | per address: the same with exactly the banned dropped |
| RuleVerdicts.FormsAgreeIff | internal/firewall/chain.go:176-215 | the two forms agree on a source exactly unless it is dropped for a threat or country list alone, for any sub-chains |
| RuleVerdicts.FormsAgree | internal/firewall/chain.go:176-215 | with no such list active they agree on every source |
| RuleVerdicts.NeverAccepts | internal/firewall/chain.go:176-222 | an accept comes from a sub-chain only, and never for an allow-listed source |
| JumpOrder.MayAccept | internal/firewall/chain.go:524-545 | the scan is true exactly when the first -j or -g with a target names one that is not known to be harmless |
| JumpOrder.HarmlessIff | internal/firewall/chain.go:530-541 | the targets that do not count as accepting, by name |
| JumpOrder.FirstTargetDecides | internal/firewall/chain.go:524-545 | the target of the first -j or -g decides, whatever stands around it |
| JumpOrder.JumpPosition | internal/firewall/chain.go:620-631 | the first jump and the first rule that may accept, -1 for none |
| JumpOrder.NeedsRepair | internal/firewall/chain.go:771-790 | a repair is needed exactly when no jump stands ahead of every rule that may accept |
| JumpOrder.ShieldedIff | internal/firewall/chain.go:19-35 | a chain drops all that our chain drops, for every behaviour of its rules within what their targets can do, exactly when the jump is there and no rule ahead can accept or leave the chain; with a dropping policy exactly when none ahead can accept |
| JumpOrder.GuardedProtectsIff | internal/firewall/chain.go:519-545 | a chain the code counts as guarded does so exactly unless a rule ahead leads to INFRAFENCE-RULES while that can accept, or is misread and can accept; with an accepting policy also unless one ahead leaves the chain |
| JumpOrder.RulesAheadExposes | internal/firewall/chain.go:28-29 | with the jump to INFRAFENCE-RULES first, a source that a rule there accepts gets past its ban under either policy |
| JumpOrder.CommentHidesAccept | internal/firewall/chain.go:524-545 | a rule that accepts, with a comment that makes the test take it for a drop |
| JumpOrder.OurJumpIsHarmless | internal/firewall/chain.go:547-553 | the jump lines themselves never count as accepting |
| JumpOrder.MoveToFront | internal/firewall/chain.go:603-613 | insert, then delete the shifted old jump: never a content without it, also when a command fails |
| JumpOrder.EnsureJumpAhead | internal/firewall/chain.go:588-616 | inserted, moved, unchanged or failed, with the exact chain left and no content without a jump that was there |
| JumpOrder.AheadGuards | internal/firewall/chain.go:588-616 | the other rules keep their order in every case, and unless it fails the jump guards the chain |
| JumpOrder.AheadIsIdempotent | internal/firewall/chain.go:588-616 | a second call changes nothing |
| JumpOrder.EnsureInputJumps | internal/firewall/chain.go:557-579 | the main jump ends ahead of any accept by the test and the rules jump is there, the other rules in order; a rules jump that is added directly follows the main one exactly when the chain could be listed again, else it is first and ahead of it |
| JumpOrder.EnsureFirstJump | internal/firewall/chain.go:641-664 | the jump ends first with the other rules in order; one that was there is missing for a moment exactly when it was not first and every copy is deleted, and at the end exactly when the insertion then fails |
| JumpOrder.ClearJump | internal/firewall/chain.go:650-655 | every copy of the jump goes, from the last, if iptables deletes it; the jump is there throughout exactly when iptables keeps a copy; the other rules keep their order |
| JumpOrder.HostChain.Insert | internal/firewall/chain.go:598-606 | an insertion at a place, or nothing |
| JumpOrder.HostChain.Delete | internal/firewall/chain.go:609-611 | a deletion by number, or nothing |
| ChainSync.KeyIsInjective | internal/firewall/chain.go:481-488 | the joined text is equal only for equal contents of all four chains |
| ChainSync.SyncIsExact | internal/firewall/chain.go:417-479 | a sync leaves exactly the desired chains, or all but the port and egress rules after their refusal, or, refused, what it found |
| ChainSync.SentIsExact | internal/firewall/chain.go:417-463 | what is sent: first all that is desired, without the port and egress rules if they were refused before; then, refused with such rules, the others alone |
| ChainSync.FirstRepairIff | internal/firewall/chain.go:440-475 | before any rebuild a repair is reported exactly for a missing chain |
| ChainSync.StaysSoundIff | internal/firewall/chain.go:464-468 | the remembered snapshot stays true exactly when every chain with rules could be read back |
| ChainSync.UnreadChainIsTrusted | internal/firewall/chain.go:464-468 | the concrete case where it is not, and an emptied chain stays empty |
| ChainSync.ExactOverRuns | internal/firewall/chain.go:417-479 | over any run of syncs with any outside changes each sync puts the chains right, as long as each chain with rules is read back after a rebuild |
| ChainSync.SecondSyncDoesNothingIff | internal/firewall/chain.go:427-442 | a second sync without outside change sends nothing and changes nothing exactly when the first was not refused and each chain with rules was read back |
| ChainSync.RepairsAreForeignIff | internal/firewall/chain.go:469-475 | a repair is reported exactly, unless refused, when a chain is missing or, for the same desired state, differs from what was read back; so for the agent's own rebuild exactly when a chain with rules was not read back, else exactly for an outside change |
| ChainSync.OwnRebuildIsReported | internal/firewall/chain.go:464-475 | the concrete case: an unread rebuild with nothing changed is sent again and reported as a repair |
| ChainSync.RefusedIsNotRetried | internal/firewall/chain.go:421-426 | a refused port or egress part is never sent again, through any rounds, until another state's is refused |
| ChainSync.FwState.SyncChains | internal/firewall/chain.go:417-479 | the method's fields, the kernel's chains and the report are those of the sync step |
| ChainSync.FwState.Compare | internal/firewall/chain.go:427-438 | whether every chain is there, and whether all are as remembered for this state |
| ChainSync.Kernel.Restore | internal/firewall/chain.go:491-507 | all four chains are replaced, or none |
| BanStore.Store.MakeRoom | internal/firewall/bans.go:71-101 | collects, sorts and deletes exactly the evictions |
| BanStore.EvictionIsUnique | internal/firewall/bans.go:80-93 | the choice, temporary before permanent, oldest first, then by address, is the only one |
| BanStore.RoomIsMade | internal/firewall/bans.go:71-101 | the new bans fit or no unprotected ban is left; none goes in vain, none that is protected |
| BanStore.PermanentGoesLast | internal/firewall/bans.go:66-71 | a permanent ban goes only with every unprotected temporary one |
| BanStore.OldestGoFirst | internal/firewall/bans.go:80-93 | of two bans that both expire, or both never do, the older goes first, of equals the lower address |
| BanStore.LocalBanKeepsPermanentIff | internal/firewall/iptables.go:294-303 | a new local ban keeps all permanent bans exactly when these are fewer than the capacity, however many bans there are |
| BanStore.PermanentSurvivesFlood | internal/firewall/bans.go:66-71 | while they are, no run of local bans and expiries removes one |
| BanStore.CapacityOverRuns | internal/firewall/bans.go:33-39 | over claims, lists, expiries, lifts, cleanups and changed expiries, with the capacity changing, the bans stay within the largest capacity so far, and each list and new ban brings them within the present one |
| BanStore.ApplyFits | internal/firewall/iptables.go:367-427 | an applied list leaves at most the capacity, however many bans there were |
| BanStore.ApplyIsDetermined | internal/firewall/iptables.go:367-427 | a list determines the bans evicted and every ban left, with its expiry |
| BanStore.Store.Claim | internal/firewall/iptables.go:294-303 | a banned address is left alone; a new one is recorded after room is made |
| BanStore.Store.Apply | internal/firewall/iptables.go:367-427 | the first addresses up to the capacity are banned with their latest expiry and their old age, protected from eviction; the rest stay or make room |
| BanStore.Store.CountUnseen | internal/firewall/iptables.go:399-405 | the number of listed addresses not banned yet |
| BanStore.Store.Record | internal/firewall/iptables.go:411-421 | listed bans get their expiry and keep their age, new ones are of now |
| BanStore.ReadRows | internal/firewall/iptables.go:368-387 | each address once, with the latest expiry of its rows, never counting as latest |
| BanStore.ExpiryIsLatest | internal/firewall/iptables.go:376-387 | an expiry is never if one of the rows says so, else the latest of them |
| BanStore.AddressesInRowOrder | internal/firewall/iptables.go:368-398 | the addresses come in the order of their first rows, so a cut list loses the last ones |
| BanStore.Store.Expire | internal/firewall/bans.go:148-168 | exactly the bans whose expiry is at or before now go |
| BanStore.Store.NextExpiry | internal/firewall/bans.go:171-181 | the earliest expiry, none when no ban expires |
| BanStore.ExpiryTimerIsExact | internal/firewall/bans.go:148-181 | something expires exactly from the next expiry on, and after it the next is later |
| BanStore.Store.Restore | internal/firewall/bans.go:199-226 | the usable saved bans come back, past the capacity a choice of which none left out is newer; known bans stay |
| BanStore.RestoredIsExact | internal/firewall/bans.go:217-222 | known bans stay, every other restored one is a chosen one, and all chosen addresses are banned |
| BanStore.UsableIsExact | internal/firewall/bans.go:199-212 | exactly the saved bans that can be enforced and have not expired are usable, with their own time unless it is missing or in the future |
| BanStore.FirstIsRestored | internal/firewall/bans.go:217-222 | of the chosen bans of one address the first counts |
| BanStore.SortNewestFirst | internal/firewall/bans.go:213-216 | a permutation in descending age |
| BanStore.RestoreFits | internal/firewall/bans.go:199-226 | a restart starts within the capacity |
| LocalBans.LeavesExactlyWhenSettled | cmd/infrafence-agent/protstate.go:326-441 | through any steps a noted ban leaves the outbox exactly by the step that settles it (listed, last marked 10 minutes before and unlisted, dropped, displaced), and every cleanup before spares it |
| LocalBans.DisplacedWaitsLongest | cmd/infrafence-agent/protstate.go:331-342 | a ban displaced from a full outbox was noted no later than any other that waits |
| LocalBans.OwnIffTimely | cmd/infrafence-agent/protstate.go:383-407 | a dropped ban was itself judged, and a marked one itself reported, exactly when nothing was noted for its address in between |
| LocalBans.ForgottenWasReportedIff | cmd/infrafence-agent/protstate.go:419-441 | a ban given up as reported and unlisted was itself reported 10 minutes before exactly when its last mark came with nothing noted since the report it stands for |
| LocalBans.StaleDropLosesBan | cmd/infrafence-agent/protstate.go:384-405 | the interleaving that drops a ban never judged |
| LocalBans.StaleMarkLosesBan | cmd/infrafence-agent/protstate.go:383-407 | the interleaving after which a cleanup gives up a ban that was never reported |
| LocalBans.BoundedOverRuns | cmd/infrafence-agent/protstate.go:48-50 | at most 5000 bans wait |
| LocalBans.NoteDisplacesIff | cmd/infrafence-agent/protstate.go:331-342 | a note keeps all waiting bans exactly below 5000 or when it displaces its own address |
| LocalBans.FlushedIsExact | cmd/infrafence-agent/protstate.go:370-413 | what a flush alone makes of each ban it reached: gone exactly when not in force or rejected, else marked with the time of its report; the others are as they were |
| LocalBans.HandlingEnds | cmd/infrafence-agent/protstate.go:383-407 | a flush drops a ban exactly when it is not in force or its report is rejected, else it marks it with the time of the report; what others do comes between |
| LocalBans.HandledIsSettled | cmd/infrafence-agent/protstate.go:370-441 | a handled ban that nobody else touches is gone exactly when it was not in force or rejected; accepted, every cleanup of the next ten minutes that does not list it spares it |
| LocalBans.FlushIsARun | cmd/infrafence-agent/protstate.go:370-413 | a flush with any steps of others between its lock holds is a run, so what holds over runs holds of it |
| LocalBans.BanOutbox.NoteBan | cmd/infrafence-agent/protstate.go:326-345 | the note step, with one of the oldest displaced when full |
| LocalBans.BanOutbox.Oldest | cmd/infrafence-agent/protstate.go:332-338 | a ban that waits longest |
| LocalBans.BanOutbox.NoteReported | cmd/infrafence-agent/protstate.go:348-358 | a waiting ban is marked as reported |
| LocalBans.BanOutbox.ToKeep | cmd/infrafence-agent/protstate.go:419-441 | the kept set and the outbox after a cleanup |
| LocalBans.BanOutbox.Flush | cmd/infrafence-agent/protstate.go:370-413 | the unreported bans are handled oldest first up to the first failure, whatever others do between its lock holds |
| LocalBans.BanOutbox.FlushOne | cmd/infrafence-agent/protstate.go:383-407 | judged and dropped, reported and marked, or the failure that ends the flush, with the steps of others in between |
| LocalBans.BanOutbox.Waiting | cmd/infrafence-agent/protstate.go:371-382 | exactly the unreported bans, oldest first |
| PanelLifts.SyncIsExact | cmd/infrafence-agent/panelstate.go:225-290 | a ban of a sync is enforced exactly when no lift that is still good names its address and id |
| PanelLifts.SparesIff | cmd/infrafence-agent/panelstate.go:240-262 | a lift spares a listed ban exactly when it is its address, the end has not passed, and the id was known or the lift still adopts |
| PanelLifts.StaysIff | cmd/infrafence-agent/panelstate.go:240-269 | a lift is good after a sync exactly while its end has not passed and one of its ids is listed, it stands for a network, or its first ids are still to come within the hour or by this sync |
| PanelLifts.AdoptsIff | cmd/infrafence-agent/panelstate.go:246-262 | a lift still adopts exactly before its first sync, or, made without ids, while every sync came within the hour and listed none |
| PanelLifts.SettledNamesNoMore | cmd/infrafence-agent/panelstate.go:263-268 | after that its ids never change, so a ban with a new id is enforced |
| PanelLifts.FirstSyncAdoptsAnyTime | cmd/infrafence-agent/panelstate.go:246-256 | the first sync adopts however late it comes |
| PanelLifts.NoneOutlives | cmd/infrafence-agent/panelstate.go:240-243 | after its end a lift is gone and every ban of the address enforced |
| PanelLifts.LiftSparesAll | cmd/infrafence-agent/panel.go:522-562 | the sync after a lift spares every ban of the address, whatever its id, until the end |
| PanelLifts.EndIsExact | cmd/infrafence-agent/panel.go:524-547 | a lift ends with the last ban of the address, at most 30 days on, and after 30 days if one never expires or none can be read |
| PanelLifts.RefusedIff | cmd/infrafence-agent/panel.go:545-551 | a lift is refused exactly for an address the firewall does not ban that is in no ban of the last sync, or already lifted |
| PanelLifts.DetectionEndsLift | cmd/infrafence-agent/panelstate.go:346-362 | after a new detection the next sync enforces every ban of the address |
| PanelLifts.LiftsOverRuns | cmd/infrafence-agent/panel.go:548-555 | over any unbans, detections and syncs: one lift per address, at most 1000, none for more than 30 days |
| PanelLifts.PanelState.FilterBans | cmd/infrafence-agent/panelstate.go:225-290 | the in-place filter leaves the renewed lifts and returns the enforced bans in order |
| PanelLifts.Renew | cmd/infrafence-agent/panelstate.go:239-269 | one lift after a sync, if it is still good |
| PanelLifts.IsNamed | cmd/infrafence-agent/panelstate.go:277-288 | whether the last lift of the address names the ban |
| PanelLifts.PanelState.Unban | cmd/infrafence-agent/panel.go:522-562 | a refused or unsaved lift changes nothing; else the new lift replaces an older one, until the latest expiry but at most 30 days |
| PanelLifts.Survey | cmd/infrafence-agent/panel.go:531-543 | the ids of the address in the last sync, whether one is permanent, and the latest expiry |
| PanelLifts.MakeLift | cmd/infrafence-agent/panel.go:524-551 | the lift with its ids and its end |
| PanelLifts.PanelState.NoteLocalBan | cmd/infrafence-agent/panelstate.go:346-362 | the first lift of the address is removed |
| PanelOutbox.SoundOverRuns | cmd/infrafence-agent/panelstate.go:467-538 | over any reports, flushes and answers every event is accepted, given up or waiting, what was accepted and what waits is in the order of the reports, and at most 500 wait |
| PanelOutbox.GivenUpOnlyFor | cmd/infrafence-agent/panelstate.go:480-527 | an event is given up only when a week old at a flush or pushed out by 500 newer ones |
| PanelOutbox.FlushIsExact | cmd/infrafence-agent/panelstate.go:508-538 | what a flush sends is accepted exactly if the dashboard says so, and then nothing waits; refused, all of it waits on; it does not ask when all is old |
| PanelOutbox.ReportIsExact | cmd/infrafence-agent/panelstate.go:467-490 | a report goes alone exactly when nothing waits; else behind the others, all that fits in one request, accepted or left as a whole |
| PanelOutbox.SentUnlessOld | cmd/infrafence-agent/panelstate.go:518-525 | a flush sends all but the events known to be older than a week |
| PanelOutbox.Outbox.ReportEvents | cmd/infrafence-agent/panelstate.go:467-490 | the report step; the answer is whether nothing of it waits |
| PanelOutbox.Outbox.FlushOutbox | cmd/infrafence-agent/panelstate.go:508-538 | the flush step: all that waits in one request, or nothing changes |
| PanelOutbox.Outbox.QueueEvents | cmd/infrafence-agent/panelstate.go:473-482 | the events are numbered and join the end; the oldest beyond 500 go |
| PanelOutbox.ToSend | cmd/infrafence-agent/panelstate.go:518-525 | the waiting events not older than a week, in order |
| FirewallGuard.NoRepairBeforeBackoff | cmd/infrafence-agent/fwguard.go:100-176 | over every run each trouble sets a back-off of 5 s to 60 s, and no tick repairs before any earlier one is over |
| FirewallGuard.BackoffOverRuns | cmd/infrafence-agent/fwguard.go:168-176 | the back-off is always 0 or between 5 s and 60 s from the last trouble |
| FirewallGuard.RunsIffCsfWaitIsOver | cmd/infrafence-agent/fwguard.go:180-198 | a tick that asks for the csf lock repairs exactly when it is free or every look since one at least 2 minutes ago found the same holder |
| FirewallGuard.ReportsOverRuns | cmd/infrafence-agent/fwguard.go:202-253 | restore reports are at least a minute and conflict reports an hour apart, and every repair is in exactly one restore report or pending |
| FirewallGuard.RepairsOverRuns | cmd/infrafence-agent/fwguard.go:209-218 | at most 120 repair times are kept, 30 s apart within an hour |
| GuardRules.TicksAreExact | cmd/infrafence-agent/fwguard.go:100-176 | over every run, told from the ticks before: a tick consults exactly when a follow-up or full check is due, or a quick look that is due finds a chain missing, and the last back-off is over; which runs repair and which are troubles, with their back-off |
| GuardRules.MissingIsRepaired | cmd/infrafence-agent/fwguard.go:113-142 | a chain seen missing while nobody holds the csf lock has Ensure run at that look, or at most 5 s after the back-off that holds |
| GuardRules.ReportsAreTimely | cmd/infrafence-agent/fwguard.go:202-253 | after every tick all repairs are in restore reports unless one was sent less than a minute before, and exactly what was put back is named in them or about to be |
| GuardRules.ConflictIff | cmd/infrafence-agent/fwguard.go:224-234 | a conflict is reported exactly for a repair that is back to back or one of three times kept, with none reported in the last hour |
| GuardRules.RepairTimesAreKept | cmd/infrafence-agent/fwguard.go:209-218 | the times kept are those of repairs, and each repair of the last hour is within 30 s after one that is kept |
| FirewallGuard.GuardCell.TickOnce | cmd/infrafence-agent/fwguard.go:100-165 | one tick does the tick step on all fields; TicksAreExact says over runs what that step is |
| FirewallGuard.GuardCell.AttemptRepair | cmd/infrafence-agent/fwguard.go:134-164 | nothing while the back-off or csf holds; else the repair with its follow-up, back-off and reports |
| FirewallGuard.GuardCell.Trouble | cmd/infrafence-agent/fwguard.go:168-176 | the back-off starts at 5 s, doubles, and stops at 60 s |
| FirewallGuard.GuardCell.WaitForCSF | cmd/infrafence-agent/fwguard.go:180-198 | the holder seen, since when, and whether it was waited for long enough |
| FirewallGuard.GuardCell.NoteRepair | cmd/infrafence-agent/fwguard.go:202-234 | the repair is counted and remembered, and the reports due are sent in order |
| FirewallGuard.GuardCell.RecentRepairs | cmd/infrafence-agent/fwguard.go:209-218 | the repair times of the last hour, and this one unless less than 30 s after the last |
| FirewallGuard.GuardCell.FlushPending | cmd/infrafence-agent/fwguard.go:237-253 | all pending repairs in one report when a minute has passed, else none |

## Left out

- JSON, HTTP, sockets, processes, files and log lines: their results are parameters of the steps.
- Goroutines: sections under one lock are atomic steps; interleavings are kept where two lock holds matter (a sync during an action, the two looks before a switch-off, a drop after its judgement, a mark after its report).
- `Flush` and `Close` of the event sender: when a caller gives up is a step of the runs; channels and contexts are not modelled.
- EventBounds.QueueBoundedOverRuns: assumes the loss counter stays below 2^64, whose wrap-around would only shorten a number in a warning.
- `limitEvent`: its field cuts are taken as the bound on an event's size.
- `strings.ToLower`, canonical address texts and `net.ParseIP` are function parameters.
- GeoSplit.ExcludeAddrs: an entry is an IPv4 network or other text. An IPv4-mapped IPv6 network (`::ffff:192.0.2.0/120`), whose prefix the code would take for an IPv4 one, has no representation; the lists come from `ExtractCIDRs`, which writes IPv4 networks only.
- `renderChecked`, the refusal policies for ports and addresses, and `setApplied`: case lists over sockets and login records that would add only easy members.
- `portsegress.go`, `ports6.go`, `netstate` and `verify`: the sub-chains, the sockets and the outcome of a verification are arbitrary.
- `allowEntries`, ipset contents and `ensureSets`: the sets are taken to hold what the state says.
- ChainSync.SyncIsExact: iptables-restore replaces all four chains or none; another program between the rebuild and the read-back is not modelled.
- JumpOrder.EnsureJumpAhead: the chain does not change between the listing and the commands that follow it.
- `Pending`, `MarkSent`, saving and loading of the client log: they move counts of samples the dashboard has seen.
- BanStore.Store.Restore: which of several equally new bans is left out is open, as it is in the unstable sort.
- `reportBan`: which reason and count a report carries is not modelled, only the address.
- PanelLifts.SyncIsExact: requires one lift per address, which every operation keeps; for a state file with more, `IsNamed` says that the last one decides.
- Malware scans, detectors, web-server and ModSecurity edits, the panel's read commands and collectors: plumbing or heuristics without a specification.
