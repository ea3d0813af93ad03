# smtp-relay, verified

A Dafny model of an outbound SMTP relay: how it takes mail in over one byte
stream, keeps it in a queue that survives a restart, chooses an upstream relay
under weights, quotas and circuit breakers, and rewrites the header of each
message without touching the rest. Each module follows one source file.
Programs that change things step by step are methods and classes proved against
specification functions; what the program promises is then proved about those.

| files | what they hold |
|---|---|
| `bytes.dfy`, `wrappers.dfy` | bytes, ASCII text, Option and Result |
| `smooth_weights.dfy` | smooth weighted round-robin |
| `circuit.dfy`, `quota.dfy`, `relay.dfy` | breaker, quotas and eligibility of one relay |
| `selector.dfy`, `dispatch.dfy` | choosing a relay, one delivery round |
| `queue.dfy`, `delivery_protocol.dfy` | the queue, and the queue among workers, operator and crashes |
| `lines.dfy`, `data_body.dfy`, `commands.dfy`, `session.dfy`, `session_laws.dfy` | the inbound side |
| `headers.dfy`, `mailbox.dfy`, `message.dfy`, `rewrite.dfy`, `rewrite_laws.dfy`, `rewrite_outcome.dfy`, `quoted_printable.dfy` | the message codec |
| `metrics.dfy` | the per-minute series |

Time, the chunks a socket delivers, the answers of upstream relays, the outcome of
address checks and of the credentials check are inputs, so every result is for all
of them. `dafny verify dfyconfig.toml` checks the project.

Where the code and its comments disagree the model follows the code:

- the comment on the address check asks for a dot in the domain
  (src/util.rs:241-242); the code does not, so neither does `LooksLikeEmail`
  (`Mailboxes.DotlessDomainPasses`).
- the limit on protocol errors (src/smtp/session.rs:28-30) is looked at only after a
  line that is too long or does not parse. Any number of unknown or empty commands goes
  by (`SessionLaws.ErrorsPassTheLimit`); when exactly a session ends for abuse is
  `SessionLaws.AbusedExactlyWhen`.
- reserving a quota before sending is meant to keep a hard provider limit
  (src/dispatch.rs:305-306); a release counts in the window it falls in, and a reload or
  a clock that goes back forgets a window. When exactly the limit can be passed is
  `Quotas.LimitCanBePassedExactlyWhen`, one example of each way is
  `Quotas.ReleaseCrossesTheMinute`, `Quotas.ReloadForgetsTheMinute` and
  `Quotas.BackwardClockForgets`. The last does not take a clock that goes back: the time
  is read before the lock is taken (src/relay/pool.rs:333-334, 371-372), so two threads at
  the turn of a minute can come in the other order.
- the round-robin cursor gives exact turns until its 64 bits wrap, and over the wrap
  only if the number of candidates divides 2^64 (`Selection.EqualTurnsAlways`).
- a domain override is honoured only for relays already among the candidates, so one
  that is open but outside the rotation may be passed over
  (`Selection.OverrideStaysInRotation`); when exactly a rule decides is
  `Selection.OverrideDecidesExactlyWhen`. A rule can be met by a recipient that passes the
  address check if and only if its pattern, or what follows its `*.`, has the shape of a
  domain: `.example.com`, `example.com.`, `*.` and `a b.io` are accepted
  (src/config.rs:1502-1507) and dead (`Selection.SomeRecipientMatches`).
- a spooled message without a body is meant to be an incomplete pair
  (src/queue.rs:410-411); one that was accepted with no bytes, as an empty DATA makes it,
  is taken for such a pair and thrown away by a restart
  (`DeliveryProtocol.NothingIsLost`, `DeliveryProtocol.EmptyMailIsThrownAway`).
- with alignment MAIL FROM and From are meant to hold one address
  (src/message/rewrite.rs:8-12), but a display name shaped as an encoded word is kept as it
  is, and may be read for the address (`RewriteLaws.MisleadingFrom`).
- the mark of a relay switched off by hand goes over a reload even when the configuration
  switches the relay on (src/relay/pool.rs:525-543): the relay is used and marked
  (`Circuits.EveryRunIsConsistent`), and once it trips no success closes its circuit again
  (`Circuits.SuccessKeepsItOff`).
- the payload is meant to end at a line that holds only a dot, with its line ends
  (src/smtp/session.rs:750-752), but the last line of a stream counts without one
  (src/smtp/lines.rs:79-92): a connection lost right behind the dot of the end marker, or
  behind the first of two dots that begin a line, hands on what came before as the whole
  message (`DataBody.CutOffExactlyWhen`).
- the fast header lookup stops at the first empty line, where the full parse goes on
  (src/message/headers.rs:335-339). In a message received by DATA only an empty first
  line makes a difference, and then for every field (`Headers.PeekOfCrlf`,
  `Headers.LeadingBlankHides`).
- a snapshot is meant to show the last buckets (src/metrics.rs:191-192), but a sample
  recorded behind one of a later minute is kept where a snapshot does not find it; the
  minute is read before the lock is taken, so that does not take a clock that goes back
  (`Metrics.BackwardSampleIsHidden`, `Metrics.ShownExactlyWhenForward`).

## Model

| member | source | states |
|---|---|---|
| SmoothWeights.Pool.SmoothWeightedPick | src/relay/pool.rs:935-966 | every candidate earns its weight once per listing, the one with most credit (the first of equals) is chosen and pays the total of the weights, nobody else changes |
| SmoothWeights.CreditIsDebt | src/relay/pool.rs:930-966 | after t picks over a fixed list a relay's credit is t times its weight less the total times the picks it got |
| SmoothWeights.CreditsBalance | src/relay/pool.rs:930-966 | the credits of the candidates always add up to zero |
| SmoothWeights.CreditFloor | src/relay/pool.rs:930-966 | no credit falls below one minus the total weight |
| SmoothWeights.ShareIsNeverExceeded | src/relay/pool.rs:930-966 | after any t picks a relay has had at most its share of them, rounded up |
| SmoothWeights.FullCycle | src/relay/pool.rs:930-966 | after as many picks as the weights add up to, all credits are back and each relay was picked exactly its weight in times |
| SmoothWeights.Periodic | src/relay/pool.rs:930-966 | the picks repeat with that period from any point on |
| SmoothWeights.ExactShares | src/relay/pool.rs:930-966 | so any such stretch of consecutive picks, wherever it begins, holds exact shares |
| SmoothWeights.RoundIsDetermined | src/relay/pool.rs:947-965 | one round leaves no choice: same credits, same pick |
| SmoothWeights.BystanderKeepsCredit | src/relay/pool.rs:947-965 | a relay that is no candidate keeps its zero credit |
| SmoothWeights.CreditIsConserved | src/relay/pool.rs:947-965 | while the candidates change from pick to pick the credits of the pool still add up to the same, and relays never listed keep theirs |
| Circuits.Relay.Activate | src/relay/pool.rs:191-201 | switching on clears a tripped breaker and the manual mark, and tells whether the switch moved |
| Circuits.Relay.Deactivate | src/relay/pool.rs:203-207 | switching off marks the relay as switched off by hand |
| Circuits.Relay.State | src/relay/pool.rs:234-247 | an open circuit becomes half-open when asked at or past its deadline, and the state is reported |
| Circuits.Relay.RecordSuccess | src/relay/pool.rs:254-273 | a success ends the failure streak and closes the circuit once enough came in a row and recovery is allowed |
| Circuits.Relay.RecordFailure | src/relay/pool.rs:281-308 | a failure ends the success streak, trips at the threshold, bars a half-open relay again, and reports a trip only |
| Circuits.Relay.ResetCircuit | src/relay/pool.rs:311-318 | clearing closes the circuit and leaves the switch alone |
| Circuits.Relay.ResetStats | src/relay/pool.rs:470-482 | clearing the statistics forgets the trips and changes nothing else of the breaker |
| Circuits.Relay.CarryOver | src/relay/pool.rs:495-543 | the relay of a reloaded configuration takes over the breaker and, unless the configuration changed it, the switch |
| Circuits.EveryRunIsConsistent | src/relay/pool.rs:191-543 | over every run, reloads included: open exactly with a deadline, never both streaks at once, closed only below the threshold; marked as switched off by hand exactly when the last to move the switch by hand switched it off, and on in spite of it exactly when a changed configuration switched it on since |
| Circuits.NeverTrips | src/relay/pool.rs:289-308 | without automatic disabling the circuit is closed for ever |
| Circuits.SuccessesCountTheStreak | src/relay/pool.rs:254-288 | the success counter is the number of successes since the last failure, up to its 32 bits |
| Circuits.FailuresCountTheStreak | src/relay/pool.rs:254-318 | the failure counter is exactly the failures since the last success, clearing or activation of a tripped relay, up to its 32 bits |
| Circuits.SwitchAndHealth | src/relay/pool.rs:191-543 | the switch stays where an operator or a changed configuration last put it, and health follows the last outcome |
| Circuits.OutUntilFreed | src/relay/pool.rs:234-318 | an opened circuit stays open with its deadline exactly until the log shows a look past the deadline, an activation, a clearing, or enough successes in a row for a relay nobody switched off |
| Circuits.OutForTheCooldown | src/relay/pool.rs:281-308 | a failure that trips, or hits a half-open relay, keeps it out for the whole cooldown unless one of those happens |
| Circuits.SuccessKeepsItOff | src/relay/pool.rs:262-269 | a relay marked as switched off by hand stays so through any events but an activation or a clearing, and nothing among them closes its circuit, a reload that switches it on included |
| Circuits.TripsAtTheThreshold | src/relay/pool.rs:289-300 | from a clean closed circuit a row of failures trips at the threshold, not before, and once |
| Circuits.TripsAreCounted | src/relay/pool.rs:281-308 | the trip count is the number of failures that tripped since it was last cleared, each told from the log: enough failures in a row, automatic disabling on, the circuit not open |
| Circuits.Recovers | src/relay/pool.rs:254-270 | enough successes in a row close any circuit that may recover, and never one that may not |
| Circuits.HalfOpenDecides | src/relay/pool.rs:234-308 | past the deadline deliveries are let through and the first outcome decides: a failure bars again for a full cooldown and counts as a trip only at the threshold, a success closes if it is enough |
| Quotas.Meter.Roll | src/relay/pool.rs:97-114 | a window whose number changed starts at zero, the others go on |
| Quotas.Meter.TryReserve | src/relay/pool.rs:332-358 | a slot is granted exactly when no window is full, and then counts in all of them |
| Quotas.Meter.Release | src/relay/pool.rs:362-368 | every count goes down by one, none below zero |
| Quotas.Meter.QuotaExhausted | src/relay/pool.rs:370-390 | says full exactly when a reservation at the same instant would be refused |
| Quotas.Meter.HourCount | src/relay/pool.rs:392-397 | the sends counted in the current hour |
| Quotas.Meter.CarryOver | src/relay/pool.rs:514-522 | a reload keeps hours, days and the total and starts the minute afresh |
| Quotas.CountsAreNested | src/relay/pool.rs:96-114 | whatever the clock does, minute, hour, day and total counts are nested |
| Quotas.CountsStayWithin | src/relay/pool.rs:332-368 | no count ever passes its limit |
| Quotas.GrantsAreAccounted | src/relay/pool.rs:97-368 | for any clock, with reloads: every reservation granted in a window still counts there, was taken back by a release, or was dropped when the window was left |
| Quotas.GrantsInOneWindow | src/relay/pool.rs:332-368 | while no window is read after a later one, and for the minute nothing is reloaded, the grants in any one minute, hour or day exceed its limit at most by the slots releases took back |
| Quotas.LimitCanBePassedExactlyWhen | src/relay/pool.rs:97-368 | at any moment of any run a window can still get more grants than its limit if and only if one of its slots was taken back or dropped and the other limits leave room |
| Quotas.ForwardLimitCanBePassedExactlyWhen | src/relay/pool.rs:332-368 | with a forward clock and no reload, if and only if a release took one of its slots back and the other limits leave room |
| Quotas.ReleaseCrossesTheMinute | src/relay/pool.rs:362-368 | the first way past the limit: one a minute, and a failure across the minute lets two through in the next |
| Quotas.ReloadForgetsTheMinute | src/relay/pool.rs:514-522 | the second: a reload, and two sends in one minute with a limit of one |
| Quotas.BackwardClockForgets | src/relay/pool.rs:97-114 | the third: a look at an earlier minute, and two sends in one minute with a limit of one |
| Quotas.TotalIsKeptAndHeld | src/relay/pool.rs:332-368 | across interleaved deliveries the total is what was delivered plus what is under way |
| Quotas.WindowIsBalanced | src/relay/pool.rs:97-368 | over interleaved deliveries that cross windows at will: what a window counts, with what was taken back from it and dropped with it, is what was granted in it, delivered, under way or given back |
| Quotas.WindowIsKeptAndHeld | src/relay/pool.rs:332-368 | where no failed delivery straddles the window and the clock does not leave it while it counts, its count is exactly what was granted in it and delivered or under way, whatever came before |
| Relays.RelayRuntime.IsEligible | src/relay/pool.rs:420-425 | in rotation exactly when switched on, not barred, with a free slot and a send left in every window; asking moves only an expired circuit |
| Relays.RelayRuntime.IneligibleReason | src/relay/pool.rs:428-442 | a reason is given exactly when the relay is out of rotation, and says which condition failed first |
| Relays.InRotationExactlyWhen | src/relay/pool.rs:420-425 | over the whole history of a relay: in rotation if and only if its switch was last put on, its circuit is not open short of its deadline, a slot is free, and in no limited window the grants, less what came back or was dropped, reach the limit |
| Relays.GrantsExactlyWhen | src/relay/pool.rs:332-358 | a slot is granted if and only if the limited minute, hour and day each have one left |
| Relays.RelayRuntime.RecordDelivery | src/relay/pool.rs:446-451 | a delivery is a success of the breaker |
| Relays.RelayRuntime.RecordDeferral | src/relay/pool.rs:453-457 | a deferral is a failure of the breaker |
| Relays.RelayRuntime.RecordPermanentFailure | src/relay/pool.rs:459-468 | a permanent refusal leaves the breaker alone |
| Relays.BarredIsOut | src/relay/pool.rs:289-308 | a tripped relay is in rotation at no instant before its deadline unless the log shows what freed it |
| Relays.EligibleReserves | src/relay/pool.rs:332-358 | a relay found in rotation gets the slot it asks for at once |
| Selection.MatchOverride | src/relay/selector.rs:318-339 | an exact rule wherever it stands comes before every wildcard, the first of its kind wins, and no rule only when none matches |
| Selection.FirstListed | src/relay/selector.rs:198-208 | the rule's own order of relays decides among the candidates |
| Selection.TrailingDotNeverMatches | src/relay/selector.rs:318-339 | a rule whose domain ends in a dot, other than the bare wildcard, matches no domain at all |
| Selection.WildcardCovers | src/relay/selector.rs:318-339 | a wildcard covers what follows its star and every domain below that, in any letter case and with any trailing dots, and is otherwise met only word for word |
| Selection.OtherPatternsAreWords | src/relay/selector.rs:318-339 | any other pattern is met only word for word |
| Selection.RuleIsForFirstRecipient | src/relay/selector.rs:200-204 | the rule that counts is the one for the domain of the first recipient |
| Selection.SomeRecipientMatches | src/relay/selector.rs:318-339 | a rule can be met by some recipient that passes the address check if and only if its pattern, or what follows its wildcard, has the shape of a domain |
| Selection.WeightedPickByHash | src/relay/selector.rs:371-389 | a hash falls on the candidate whose stretch of weights holds its residue; the fallback behind the loop is never reached |
| Selection.LandsOnce | src/relay/selector.rs:380-388 | no residue belongs to two candidates |
| Selection.HashShares | src/relay/selector.rs:371-389 | exactly as many residues as its weight map to each candidate |
| Selection.HashIsStable | src/relay/selector.rs:363-389 | the same key over the same candidates gives the same relay |
| Selection.KeyExactlyWhen | src/relay/selector.rs:341-361 | the key of a message is its sender, or the domain of its first recipient, as the mode says, without outer space and letter case; a blank one is none |
| Selection.SticksExactlyWhen | src/relay/selector.rs:200-258 | stickiness decides if and only if several relays serve, no override decides or refuses, and the mode gives a key; with none, or with one relay only, the strategy decides |
| Selection.OneSenderOneRelay | src/relay/selector.rs:228-233 | so two messages whose senders are equal up to case and outer space leave by one relay while the same relays serve them, whatever their recipients; and likewise for the domain |
| Selection.Router.NextCursor | src/relay/pool.rs:923-928 | the cursor gives its residue and moves by one, wrapping at 2^64 |
| Selection.Router.Select | src/relay/selector.rs:66-258 | whatever is chosen is eligible and untried; pinned and sticky choices move nobody's turn; each strategy chooses as its name says; which of them decides is the subject of the laws below |
| Selection.LeastUsedOf | src/relay/selector.rs:237-243 | the candidate with fewest sends this hour, then fewest in flight, then first in the pool |
| Selection.FewestSends | src/relay/selector.rs:241-247 | least used is told from the relays: no candidate has fewer sends this hour, none of those with as few has fewer in flight, none of those stands before it |
| Selection.FirstRanked | src/relay/selector.rs:244-250 | the candidate of lowest priority number, then first in the pool |
| Selection.LowestPriority | src/relay/selector.rs:248-254 | and so is the failover choice: no candidate has a lower priority number, none of the same stands before it |
| Selection.DecisionIsSound | src/relay/selector.rs:94-258 | every stage leaves only eligible, untried relays to choose from |
| Selection.CandidatesServe | src/relay/selector.rs:94-186 | a relay is a candidate exactly when it is open to the message and in the preferred scope, or in the wider one while nobody in the preferred scope is open |
| Selection.BoundExactlyWhen | src/relay/selector.rs:73-108 | a message is bound to a detail if and only if that is the first one that is the client's, by login, by host name or by title, and a relay is linked to it under its id, title or host name |
| Selection.ServesExactlyWhen | src/relay/selector.rs:95-188 | who serves a message, told from eligibility, links and rotation alone: linked relays for a bound message, the shared rotation for any other, and the rest only while nobody of those is free |
| Selection.RefusedExactlyWhen | src/relay/selector.rs:66-216 | refused if and only if nobody is open or a strict override misses, told from the relays; the reason says which of these it was |
| Selection.AnyOpenRelayIsEnough | src/relay/selector.rs:66-216 | with no linked detail and no strict override one eligible untried relay is enough |
| Selection.ScopeIsKept | src/relay/selector.rs:94-186 | linked messages leave by linked relays only, and relays outside the rotation serve only while none inside can |
| Selection.OverrideStaysInRotation | src/relay/selector.rs:192-216 | a rule that lists no open relay of the rotation is passed over while the rotation has one open, or fails the message without fallback |
| Selection.OverrideDecidesExactlyWhen | src/relay/selector.rs:184-216 | a rule decides if and only if a relay it lists serves the message, which is not bound to a single linked relay; the message then leaves by a listed relay |
| Selection.OverrideOfUnlinked | src/relay/selector.rs:143-216 | with no link: if and only if the rule lists an open relay of the rotation, or any open one while the rotation has none |
| Selection.OverrideOfLinked | src/relay/selector.rs:94-216 | with a link: the same among the linked relays, unless just one of them serves |
| Selection.EqualTurns | src/relay/pool.rs:923-928 | k rounds over n stable candidates serve each exactly k times, short of the wrap |
| Selection.EqualTurnsAlways | src/relay/pool.rs:923-928 | over the wrap as well if and only if n divides 2^64 |
| Dispatch.AttemptDelivery | src/dispatch.rs:216-489 | one more attempt; address checks shrink the recipients on the first one only and fail the message when nobody is left; then the relay loop, with every relay chosen by the selector for this message's sender, recipients, user and greeting |
| Dispatch.TryRelays | src/dispatch.rs:276-489 | no more relays than allowed and none twice, each the one selected with those before it excluded; only quota misses and, with fallback, temporary failures go on to the next; the last trial explains the outcome |
| Dispatch.TryRelay | src/dispatch.rs:305-481 | one trial: at every offer to a relay a quota slot is reserved and a delivery under way with that relay and no other, and at the end both are given back, but for the slot of a message taken |
| Dispatch.AnswersDecide | src/dispatch.rs:305-481 | over a whole round, told from slots, answers and what can be written: delivered if and only if the last relay tried took the message; failed only by a refusal for good or a message that cannot be written for the relay; an answer to try later never fails it, and goes on to the next relay exactly under fallback |
| Dispatch.TriesTheNext | src/dispatch.rs:276-303 | behind an answer to try later, or a missing slot, the round stops only for want of relays, of turns, or of fallback |
| Dispatch.AnswersAreRecorded | src/dispatch.rs:305-481 | a relay is charged a deferral if and only if it was tried and asked to try later, a permanent failure if and only if it refused for good, a delivery if and only if it took the message; it is offered the message exactly if it answered, and reserved exactly if it had a slot |
| Dispatch.KeptJoin | src/dispatch.rs:232-266 | the address checks keep exactly the recipients they let through, in order |
| Dispatch.RoundOffersInOrder | src/dispatch.rs:276-481 | and at every offer of a whole round, whatever relays came before: never a second slot or delivery open, never an offer without |
| Dispatch.ReservationsAreSettled | src/dispatch.rs:305-481 | a round keeps one reservation with the delivering relay and none elsewhere, returns every slot, and charges health at most once a relay, never for a permanent refusal |
| Dispatch.TriedGrows | src/dispatch.rs:299-303 | the list of tried relays only grows, by this round's relays, each once |
| Dispatch.NothingOpenLeft | src/dispatch.rs:276-297 | a deferred round with turns left has tried every relay that was open at its end |
| Queues.Queue.Enqueue | src/queue.rs:195-221 | refused when disabled or full, with nothing written; otherwise body, then metadata, then the schedule, and the disk holds the message |
| Queues.Queue.TakeDue | src/queue.rs:224-240 | the least key of the schedule, never before it is due |
| Queues.Queue.Finish | src/queue.rs:242-248 | leaves the in-flight set and removes metadata before the body; the disk no longer holds the message |
| Queues.Queue.Requeue | src/queue.rs:252-271 | goes back with its new time whatever the depth, and the disk holds what was written again |
| Queues.Queue.Remove | src/queue.rs:274-286 | drops exactly a scheduled id from both indexes and its files from the disk |
| Queues.Queue.FlushNow | src/queue.rs:289-318 | everything is due, the order of delivery of all messages is unchanged, and the count is of those moved |
| Queues.Queue.WriteSpool | src/queue.rs:386-401 | the body is written before the metadata |
| Queues.Queue.RemoveSpool | src/queue.rs:403-408 | the metadata is removed before the body |
| Queues.Queue.RecoverOne | src/queue.rs:463-485 | a message comes back exactly when it has a body of some bytes; otherwise its two files are removed and nothing else |
| Queues.Queue.ReadEntry | src/queue.rs:428-454 | one turn of the reading: thrown away, scheduled, or the end for want of capacity |
| Queues.Queue.Recover | src/queue.rs:410-461 | every intact message of the spool is scheduled with its content, as many as the capacity allows; broken pairs come off the disk, all of them unless the reading stopped, and nothing else does |
| Queues.InsertKeepsIndex | src/queue.rs:207-218 | the indexes stay exact inverses if and only if the id is not in the queue already |
| Queues.TakeKeepsIndex | src/queue.rs:224-240 | taking the first message keeps them inverse |
| Queues.DropKeepsIndex | src/queue.rs:274-286 | so does removing one |
| Queues.HastenKeepsIndex | src/queue.rs:289-318 | so does making one due |
| Queues.HastenFirst | src/queue.rs:289-318 | moving the first of the waiting messages to now keeps the order of all |
| DeliveryProtocol.StepKeeps | src/queue.rs:195-286 | every critical section and every file operation, whoever takes it, keeps entries, files, schedule, in-flight set and lock in agreement |
| DeliveryProtocol.OnePlace | src/queue.rs:195-271 | an accepted message is in exactly one place: scheduled, entering under the lock, in flight, or out, for good or left in the spool by a restart over capacity |
| DeliveryProtocol.QueueIsBounded | src/queue.rs:195-271 | depth and in flight together never pass the capacity plus the number of workers |
| DeliveryProtocol.AttemptsAreBounded | src/dispatch.rs:576-632 | what waits has attempts left, and between two starts of the process no message is taken up by a worker more often than it is allowed attempts |
| DeliveryProtocol.SettlingDecides | src/dispatch.rs:566-626 | in every run: a deferred round with attempts left puts the message back with its new recipients, tried list and time; with none left, or delivered, or failed, the message goes out, and counts as delivered exactly if it was |
| DeliveryProtocol.RetryWaits | src/dispatch.rs:608-616 | in every run a message that was put back is not taken up again before its delay is over, unless the operator hurries it or the process starts anew; and it is then the earliest that waits |
| DeliveryProtocol.LeavesExactlyBy | src/dispatch.rs:566-632 | a step takes an accepted message out if and only if it is a delivery, a failure, the last attempt deferred, the operator's removal, or a restart that throws away an empty body or finds no metadata |
| DeliveryProtocol.OutOnlyBy | src/dispatch.rs:566-632 | so over runs a message that was accepted and is out went out by one of those |
| DeliveryProtocol.LockIsFreed | src/queue.rs:195-286 | whoever is inside the critical section can always take the step that comes next, until it is left |
| DeliveryProtocol.DueIsTaken | src/queue.rs:224-240 | with the lock free an idle worker can take up a due message, the earliest of the schedule, for one attempt more |
| DeliveryProtocol.LockIsAllItTakes | src/queue.rs:195-318 | and a worker can end its round, the operator remove or hurry what waits, a client hand in a message exactly while there is room |
| DeliveryProtocol.DeliveredOnce | src/dispatch.rs:566-575 | no step delivers a message this process has delivered already |
| DeliveryProtocol.DeliveredStays | src/dispatch.rs:566-575 | a delivered message stays delivered while the process lives |
| DeliveryProtocol.MetadataHasBody | src/queue.rs:386-408 | at every moment metadata on disk has its body file beside it, both as last written; recovery can use the pair exactly when the body has any bytes |
| DeliveryProtocol.NothingIsLost | src/queue.rs:386-485 | a crash at any step: every accepted message not yet out is on disk with its last written content; it is scheduled again with it if its body has any bytes and thrown away if it has none, except those beyond a full capacity, which stay on disk |
| DeliveryProtocol.BodyNeverChanges | src/queue.rs:195-485 | the bytes handed in are the bytes in memory and on disk through every attempt and restart |
| DeliveryProtocol.EmptyMailIsThrownAway | src/queue.rs:463-485 | a message of no bytes, which an empty DATA makes, is accepted and scheduled, and a restart throws it away |
| DeliveryProtocol.ComesBackWhileOnDisk | src/queue.rs:403-485 | after a restart a message waits, is thrown away or stays in the spool exactly when its metadata is on disk, one just delivered included: it waits only with a body, is thrown away only without, and stays only beyond a full capacity |
| DeliveryProtocol.GoneForGood | src/queue.rs:403-485 | once its metadata is removed a message never comes back, restarts or not |
| DeliveryProtocol.SubmissionIsEnqueue | src/queue.rs:195-401 | the steps of a submission, one after the other, make the schedule and the disk that Queue.Enqueue makes |
| DeliveryProtocol.RequeueingIsRequeue | src/queue.rs:252-401 | the steps of a requeueing make those of Queue.Requeue |
| DeliveryProtocol.LeavingIsFinishOrRemove | src/queue.rs:242-408 | and the steps of leaving those of Queue.Finish or Queue.Remove |
| DeliveryProtocol.ThrowingAwayIsCleaning | src/queue.rs:476-484 | and those after a restart remove what reading the spool removes |
| Lines.LineReader.ReadLine | src/smtp/lines.rs:48-97 | for every way the stream is cut into chunks: the line up to the first LF less one CR, too long exactly beyond the limit, the rest of the stream left exactly; never more unread than the limit, two and a chunk |
| Lines.LineReader.DiscardLine | src/smtp/lines.rs:122-139 | drops exactly up to the next LF |
| Lines.LineReader.Fill | src/smtp/lines.rs:142-160 | one more chunk behind what is unread; nothing of the stream is lost |
| Lines.LineReader.Consume | src/smtp/lines.rs:163-168 | moves past exactly the bytes consumed |
| Lines.LineReader.ReadExactBytes | src/smtp/lines.rs:104-119 | exactly the next bytes, or none when the stream ends before |
| Lines.CutTerminated | src/smtp/lines.rs:48-97 | a line ended by CRLF is read back exactly, even one that ends in CR |
| Lines.LineOrTooLong | src/smtp/lines.rs:48-97 | a terminated line is handed over if and only if it is within the limit, and either way the stream goes on behind it |
| DataBody.ReadBody | src/smtp/session.rs:757-810 | the payload is what a bufferless reading of the stream says: complete within the limit, too large beyond it, aborted without an end marker |
| DataBody.WireIsUndone | src/smtp/session.rs:782-803 | dot-stuffed lines come back as they were, up to the marker and no further |
| DataBody.Transparent | src/smtp/session.rs:757-810 | for all lines, dots and all, the receiver gets exactly them or a refusal for size, and stops right behind the end marker |
| DataBody.CutOffExactlyWhen | src/smtp/session.rs:757-810 | for all lines of a payload and every place the connection can be lost before the end marker is complete: nothing is handed on, unless it is lost right behind the dot of the marker or the first of two dots that begin a line |
| Commands.SplitPath | src/smtp/command.rs:213-245 | the address and, in order, every parameter of the line |
| Commands.ParseMail | src/smtp/command.rs:113-146 | the sender and the declared size, or the code of the first fault |
| Commands.ParseRcpt | src/smtp/command.rs:148-175 | the recipient, or the code of the fault |
| Commands.Parse | src/smtp/command.rs:63-107 | one command line as a command or the code to answer |
| Commands.ParsedIsProper | src/smtp/command.rs:63-175 | a greeting names one word, a recipient is never empty, a size fits 64 bits |
| Commands.LastSizeCounts | src/smtp/command.rs:119-143 | MAIL parameters pass exactly when all are known and every SIZE a number, and the last SIZE counts |
| Commands.MailIsRead | src/smtp/command.rs:113-146 | the MAIL line a client writes for a sender and a size is read as that sender and size |
| Commands.RcptIsRead | src/smtp/command.rs:148-175 | the RCPT line a client writes is read as that recipient |
| Commands.GreetingIsRead | src/smtp/command.rs:79-90 | both greetings are read as written |
| Commands.VerbsAreRead | src/smtp/command.rs:93-96 | DATA, RSET and QUIT are read as themselves |
| Commands.CaseBlind | src/smtp/command.rs:63-107 | words are taken for each other exactly when they differ in letter case only |
| Commands.VerbInAnyCase | src/smtp/command.rs:63-107 | any word followed by anything is read as that verb in upper case with its trimmed rest |
| Commands.OtherVerbsAreTold | src/smtp/command.rs:79-107 | each of the other verbs is its command, seven are known and not implemented, and every other word is unknown |
| Commands.ArgumentsAreDue | src/smtp/command.rs:79-195 | without a keyword, a path or an argument where one is due the code is 501 |
| Commands.KeywordExactlyWhen | src/smtp/command.rs:196-211 | FROM and TO are found if and only if the text begins with them in any letter case, then white space or none, then a colon |
| Commands.PathsAreRead | src/smtp/command.rs:213-256 | a path in angles loses its source route, one that is not closed is an error, one without angles ends at the first white space |
| Commands.NumberExactlyWhen | src/smtp/command.rs:119-131 | a SIZE is read if and only if it is a decimal number of 64 bits, perhaps behind a plus |
| Commands.MailIsTold | src/smtp/command.rs:113-146 | a MAIL line with any list of parameters gets the code of the first one objected to, 501 for a SIZE without a number and 555 for an unknown one, and otherwise the sender as written |
| Commands.RcptIsTold | src/smtp/command.rs:148-175 | a RCPT line with any list of parameters is taken if and only if the address is not empty and each is one of the three known |
| Commands.AuthIsRead | src/smtp/command.rs:177-194 | AUTH with its mechanism in any letter case and perhaps a first response |
| Sessions.Session.HandleMail | src/smtp/session.rs:499-544 | a sender is taken only after a greeting, authenticated where required, outside a transaction, valid or null, and of a size within the limit; the code tells which check failed first |
| Sessions.Session.HandleRcpt | src/smtp/session.rs:546-589 | a valid recipient is added under the limit, a known one answered but not added twice |
| Sessions.Session.HandleData | src/smtp/session.rs:593-643 | DATA reads one payload and hands it on, refuses it for size, or ends the session with the stream |
| Sessions.Session.DispatchMessage | src/smtp/session.rs:645-704 | the message handed on carries the whole transaction, which is over whatever the answer |
| Sessions.Session.HandleAuth | src/smtp/session.rs:331-409 | a user is authenticated only outside a transaction, once, by accepted credentials; by which ones is the subject of PlainDecides and LoginDecides |
| Sessions.Session.CollectPlain | src/smtp/session.rs:412-439 | the credentials of PLAIN, from the command or the next line, parted as PlainIsTold says |
| Sessions.Session.CollectLogin | src/smtp/session.rs:442-474 | the credentials of LOGIN, each from its line |
| Sessions.Session.ReadAuthLine | src/smtp/session.rs:477-495 | one continuation line; a star or nothing cancels |
| Sessions.Session.Handle | src/smtp/session.rs:211-296 | every command does what its step says and answers one code |
| Sessions.Session.CommandLoop | src/smtp/session.rs:140-208 | a whole session depends on the bytes sent and not on their chunks |
| SessionLaws.ConverseKeeps | src/smtp/session.rs:140-711 | every turn keeps the transaction in agreement with the transcript and every message handed on proper |
| SessionLaws.EveryMessageIsProper | src/smtp/session.rs:499-711 | whatever is sent, each message handed on has 1 to the allowed number of valid, distinct recipients, a null or valid sender, a greeted client, a body within the limit with every LF behind a CR, an accepted user where required, and the envelope the transcript shows; and there is one for each DATA answered so |
| SessionLaws.CountersAreTrue | src/smtp/session.rs:140-208 | accepted messages and protocol errors are those of the transcript |
| SessionLaws.EveryReplyIsCalledFor | src/smtp/session.rs:211-643 | whatever is sent, every command of a session is answered by the code its transcript so far calls for: order of commands, login where required, one transaction at a time, addresses, sizes, number of recipients |
| SessionLaws.EndsAsTold | src/smtp/session.rs:140-208 | a session ends by QUIT, or inside a payload, if and only if that was its last exchange |
| SessionLaws.AbusedExactlyWhen | src/smtp/session.rs:140-208 | a session ends for abuse if and only if the last line heard was too long or did not parse and the transcript shows as many errors as allowed |
| SessionLaws.WrongCommandsNeverEnd | src/smtp/session.rs:140-296 | from any state any lines of unknown or empty commands are answered, counted, and end nothing |
| SessionLaws.ErrorsPassTheLimit | src/smtp/session.rs:28-208 | so for every n there is a session with n errors that the client closes |
| SessionLaws.PlainIsTold | src/smtp/session.rs:429-439 | for all parts free of NUL the response authzid NUL user NUL password holds exactly that user and that password |
| SessionLaws.PlainNeedsTwoNuls | src/smtp/session.rs:429-439 | and one with fewer NULs holds none |
| SessionLaws.PlainDecides | src/smtp/session.rs:331-439 | where a client may authenticate, a first response or next line that decodes so is answered 235 with that user logged in if and only if the pair is accepted, else 535; the bytes behind are the next command |
| SessionLaws.LoginDecides | src/smtp/session.rs:331-474 | the same for LOGIN and its two lines |
| SessionLaws.PlainFails | src/smtp/session.rs:412-439 | an undecodable response, or one without credentials, is answered 501 and changes nothing |
| SessionLaws.LoginFails | src/smtp/session.rs:442-474 | likewise for LOGIN |
| SessionLaws.CancelledFails | src/smtp/session.rs:477-495 | so is an exchange called off by a star, an empty or too long line or the end of the stream |
| SessionLaws.CancelledPasswordFails | src/smtp/session.rs:442-495 | at the second line of LOGIN too |
| SessionLaws.AuthIsRefused | src/smtp/session.rs:331-362 | elsewhere the code is 503, for another mechanism 504, and no line is read |
| SessionLaws.PlainLoginArrives | src/smtp/session.rs:140-439 | on the wire: the line AUTH PLAIN with its response logs the client in, and what follows is read as commands of that user |
| SessionLaws.PayloadIsCrlf | src/smtp/session.rs:757-810 | in a complete payload every LF stands behind a CR |
| SessionLaws.TransactionArrives | src/smtp/session.rs:499-810 | a transaction sent as one piece becomes one message with exactly its sender, recipients and lines, and the bytes behind it are the next command |
| Headers.SplitLines | src/message/headers.rs:289-308 | the lines of a block, each without its LF and one CR |
| Headers.ParseHeaderBlock | src/message/headers.rs:245-286 | fields with their folded values, malformed lines and orphan continuations dropped |
| Headers.NormalizeCrlf | src/message/headers.rs:310-322 | a CR in front of every LF that has none, nothing else changed |
| Headers.Unfold | src/message/headers.rs:63-82 | runs of line ends and blanks become one space, none at the start |
| Headers.Peek | src/message/headers.rs:329-360 | reads, line by line and without parsing, what the laws below compare with the full parse |
| Headers.BlankLineFound | src/message/headers.rs:233-243 | the first empty line behind printed fields is the one that was printed |
| Headers.FieldsAreRead | src/message/headers.rs:245-286 | printed fields, folds included, are read back as they were |
| Headers.RoundTrip | src/message/headers.rs:97-110 | parsing what was printed gives back the same fields and body, whatever bytes the body holds |
| Headers.PassThrough | src/message/headers.rs:201-230 | so on that language printing what was parsed is the identity |
| Headers.BareRoundTrip | src/message/headers.rs:97-322 | a message with bare LF line ends is read as the one with CRLFs, and printing it gives the text with a CR before every LF: fields, folds and body |
| Headers.MalformedIsDropped | src/message/headers.rs:245-286 | a line without a colon, or with nothing before it, goes with the continuations behind it and leaves every other field as if it had not been there |
| Headers.WithoutBlankAllIsHeader | src/message/headers.rs:233-243 | without an empty line all is header, and its line ends are bare if and only if there are any and none is a CRLF |
| Headers.PeekIsParse | src/message/headers.rs:329-360 | where the block has no empty line the fast path agrees with the full parse for every name |
| Headers.PeekIsParseAboveBlank | src/message/headers.rs:329-360 | in general it agrees with the parse of the lines above the first empty one |
| Headers.PeekStopsAtBlank | src/message/headers.rs:335-339 | and finds nothing below it, while the full parse reads on as if the empty line were not there |
| Headers.PeekOfCrlf | src/message/headers.rs:329-360 | on any text whose LFs all stand behind CRs, as DATA makes them: nothing if the first line is empty, else what the full parse finds; so they differ exactly when the first line is empty and the field is there |
| Headers.LeadingBlankHides | src/message/headers.rs:329-360 | every printed message with an empty line put in front is parsed as before and peeked as having no field at all |
| Messages.Message.Parse | src/message/headers.rs:97-110 | only an empty message is refused; otherwise fields and body |
| Messages.Message.RemoveAll | src/message/headers.rs:149-154 | every field of the name goes, all others stay in order |
| Messages.Message.RemovePrefix | src/message/headers.rs:157-163 | every field whose name begins so goes, all others stay in order |
| Messages.Message.Set | src/message/headers.rs:166-188 | the first field of the name is replaced in place, later ones go, or one is appended |
| Messages.Message.Prepend | src/message/headers.rs:191-193 | one field in front, nothing else changed |
| Messages.Message.Append | src/message/headers.rs:196-198 | one field at the end, nothing else changed |
| Messages.Message.ToBytes | src/message/headers.rs:201-230 | fields, an empty line and the body, byte for byte |
| Messages.SetLeavesOne | src/message/headers.rs:166-188 | after a set exactly one field of the name is left, with the new value |
| Messages.KeepSet | src/message/headers.rs:166-188 | a set leaves every field of other names as it was, in order |
| Messages.KeepWithout | src/message/headers.rs:149-154 | so does a removal |
| Messages.KeepWithoutPrefix | src/message/headers.rs:157-163 | and a removal by prefix |
| Messages.FirstOfKept | src/message/headers.rs:128-130 | a lookup finds the first field of the name |
| Mailboxes.EncodeDisplayName | src/util.rs:183-221 | the name as it is, quoted and escaped, or as an encoded word |
| Mailboxes.NameIsShown | src/util.rs:183-221 | which names are left alone, which are quoted, and that a name with a byte beyond ASCII goes out as an encoded word whose base64, decoded by RFC 4648, is exactly the name |
| Mailboxes.Base64Undone | src/util.rs:264-266 | decoding the base64 of a text gives it back |
| Mailboxes.FormatMailbox | src/util.rs:224-231 | name and address as one mailbox |
| Mailboxes.SplitAddressList | src/message/headers.rs:573-625 | the entries between commas outside quotes, angles and comments |
| Mailboxes.FindAngleAddr | src/message/headers.rs:456-488 | the place of the angle address outside quotes |
| Mailboxes.StripComments | src/message/headers.rs:500-531 | the text without its comments, nested ones included |
| Mailboxes.Unquote | src/message/headers.rs:549-570 | a quoted string without quotes and escapes |
| Mailboxes.ParseSingleMailbox | src/message/headers.rs:419-453 | display name and address of one entry |
| Mailboxes.ParseMailbox | src/message/headers.rs:393-409 | the first mailbox of a header value |
| Mailboxes.FirstEntryIsRead | src/message/headers.rs:393-409 | the mailbox of a list is its first entry's, for every entry whose quotes, angles and comments are closed, unless that holds no at sign: then the whole text is one entry |
| Mailboxes.CommentGoes | src/message/headers.rs:500-531 | a comment goes as a whole, nested ones included |
| Mailboxes.RouteGoes | src/message/headers.rs:490-498 | a source route in front of an address is left out |
| Mailboxes.NothingInAngles | src/message/headers.rs:425-432 | angles with nothing between them are no mailbox |
| Mailboxes.CommentIsName | src/message/headers.rs:437-453 | an address without angles has the text of its comment for a name |
| Mailboxes.WordsArePassed | src/message/headers.rs:437-453 | words in front of it are passed over, up to the first that holds an at sign |
| Mailboxes.UnescapeUndoes | src/message/headers.rs:549-570 | unquoting undoes escaping for every text |
| Mailboxes.EnclosedNeverSplits | src/message/headers.rs:573-625 | no comma inside a quoted string splits the list |
| Mailboxes.EscapedIsEnclosed | src/util.rs:183-221 | an escaped name stays inside its quotes |
| Mailboxes.ShownIsRead | src/message/headers.rs:393-625 | a plain or quoted name before an angle address passes all four scanners unharmed |
| Mailboxes.RoundTrip | src/util.rs:183-232 | parsing a formatted mailbox gives back the address and the name as written: trimmed and without control characters, or what was inside when it came quoted already |
| Mailboxes.NoQuoteIsClosed | src/util.rs:243-258 | an address without double quotes meets the condition of that round trip |
| Mailboxes.DotlessDomainPasses | src/util.rs:241-258 | an address without any dot passes the address check |
| Mailboxes.DomainIsTold | src/util.rs:234-239 | the domain is what stands behind the last at sign, and localhost where nothing does |
| Mailboxes.DomainHasShape | src/util.rs:234-258 | the domain of an address that passes is not empty, neither begins nor ends with a dot and holds no white space, angle, comma or at sign |
| Mailboxes.ShapeIsDomain | src/util.rs:234-258 | and every text of that shape is the domain of an address that passes |
| Mailboxes.MisleadsReaders | src/message/headers.rs:393-453 | a display name of the shape of an encoded word whose comma the parser splits at: what stands before it is read as the address, whatever follows |
| Mailboxes.MisleadingCanBeSent | src/message/headers.rs:393-453 | and a sender can have that display name, quoted |
| QuotedPrintable.Encode | src/message/rotation.rs:701-727 | encodes byte by byte with soft breaks, as the round trip below undoes |
| QuotedPrintable.Decode | src/message/rotation.rs:323-350 | undoes escapes and soft breaks, and keeps malformed escapes as they are |
| QuotedPrintable.DecodeEncode | src/message/rotation.rs:323-727 | decoding what was encoded gives the text with CRs dropped and every LF as CRLF |
| QuotedPrintable.RoundTrip | src/message/rotation.rs:323-727 | it is the identity if and only if CR and LF come only as CRLF |
| QuotedPrintable.EncodedLines | src/message/rotation.rs:701-727 | no encoded line is longer than 74 characters |
| QuotedPrintable.NoBlankLineEndsExactlyWhen | src/message/rotation.rs:701-727 | no encoded line ends in a space or tab, as section 6.7 of RFC 2045 asks, if and only if no line of the text does |
| QuotedPrintable.EncodedIsPlain | src/message/rotation.rs:701-727 | the encoding is printable ASCII and line ends only |
| QuotedPrintable.ReadableStays | src/message/rotation.rs:701-727 | printable text that fits on the line is not changed |
| QuotedPrintable.EscapeIsRead | src/message/rotation.rs:323-350 | an escape is read in either letter case |
| QuotedPrintable.SoftBreaksAreRead | src/message/rotation.rs:323-350 | a soft break may be a bare LF or CR |
| QuotedPrintable.LoneEqualsIsText | src/message/rotation.rs:323-350 | an equals sign that begins neither is text |
| Rewrites.SetIdentity | src/message/rewrite.rs:79-175 | Reply-To kept or injected, From and its companions set to the relay's identity |
| Rewrites.StripHeaders | src/message/rewrite.rs:177-212 | signatures, ARC, Bcc, Received and the listed headers go, each as configured |
| Rewrites.AddRequired | src/message/rewrite.rs:214-239 | Date and Message-ID are added only where missing, and the mailer set |
| Rewrites.AddTrace | src/message/rewrite.rs:241-285 | diagnostics at the end, then the header rules, then Received in front of all |
| Rewrites.Rewrite | src/message/rewrite.rs:75-305 | the stages in their order; the body is the parsed body; the sender on the envelope, the Reply-To and the Message-ID that are reported are those the laws below tell |
| RewriteLaws.OtherHeadersKept | src/message/rewrite.rs:75-305 | fields of names the configuration does not name keep their bytes and order |
| RewriteLaws.PassesThrough | src/message/rewrite.rs:75-305 | where nothing applies the output is the input, byte for byte: From not rewritten, by configuration or because the relay has no identity, no reply address to inject, nothing present to strip, nothing missing to add |
| RewriteLaws.RewriteIsPrintable | src/message/rewrite.rs:75-305 | clean configuration strings never break the header: what is written reads back |
| RewriteLaws.RewriteKeepsMessage | src/message/rewrite.rs:75-305 | so the receiver parses the same body and the spared fields unchanged |
| RewriteLaws.HeaderKeepsAddress | src/message/rewrite.rs:115-150 | an address written into a header behind a faithfully written name is parsed back from it through folding |
| RewriteLaws.OutgoingFrom | src/message/rewrite.rs:115-175 | if the display name it keeps is faithfully written, the address parsed from the outgoing From is the relay's identity, and under alignment it equals MAIL FROM |
| RewriteLaws.OutgoingFromIs | src/message/rewrite.rs:115-175 | in any case it reads as the mailbox of that name and that identity does |
| RewriteLaws.MisleadingFrom | src/message/rewrite.rs:115-175 | with one kept display name it is another address, whatever the relay's is |
| RewriteOutcome.StrippedIsGone | src/message/rewrite.rs:177-212 | a header the configuration strips and does not write afterwards is nowhere in the output, the rewritten Sender, Return-Path and X-Sender included |
| RewriteOutcome.RequiredGoOut | src/message/rewrite.rs:214-285 | where asked for, the output has a Date and a Message-ID whatever is stripped or set, and the new Received on top |
| RewriteOutcome.RepliesFindTheSender | src/message/rewrite.rs:82-106 | a Reply-To of the message is never replaced; an injected one is the only one and is the sender's own mailbox, or without a valid one the configured fallback |
| RewriteOutcome.IdentityIs | src/config.rs:1010-1020 | a relay sends as its login where it is set to and that is an address, otherwise as its configured address |
| RewriteOutcome.BouncesGoTo | src/message/rewrite.rs:140-159 | without alignment, told from the switches, the context and the parsed message: a valid client sender is MAIL FROM whatever the message says; with a null or invalid one it is the address of From, then the identity, then noreply at this host |
| RewriteOutcome.SetStaysInPlace | src/message/headers.rs:166-188 | a header that is replaced stays where it stood, those around it in their order |
| RewriteOutcome.CompanionsFollow | src/message/rewrite.rs:161-175 | when From is rewritten, a Sender, Return-Path or X-Sender the message has becomes the identity, once; one it has not is not added |
| RewriteOutcome.DateGoesOut | src/message/rewrite.rs:214-218 | a Date stays; with none the clock's is the only one, if asked for |
| RewriteOutcome.MessageIdGoesOut | src/message/rewrite.rs:219-235 | a Message-ID that is not blank stays; otherwise, if asked for, it is the queue id at the domain of the identity, or of From, or of a valid sender, or at this host |
| RewriteOutcome.ReportedIdGoesOut | src/message/rewrite.rs:219-305 | and the id reported for the message is the one it goes out with |
| RewriteOutcome.MailerGoesOut | src/message/rewrite.rs:237-239 | a configured mailer is the only one |
| RewriteOutcome.DiagnosticsGoOut | src/message/rewrite.rs:241-255 | each diagnostic header goes out behind those of its name, with the relay, the queue id and who the message was from |
| RewriteOutcome.LastRuleHasItsWay | src/message/rewrite.rs:256-262 | of several rules for one name the last decides what goes out under it |
| RewriteOutcome.ConfiguredGoesOut | src/message/rewrite.rs:256-285 | and only Received is written after the rules |
| RewriteOutcome.ReceivedTells | src/message/rewrite.rs:263-285 | the new Received tells who handed the message in and from where, this host, the queue id, the relay and the date |
| Metrics.TimeSeries.Record | src/metrics.rs:166-189 | counts in the bucket of the minute, opening it and dropping the oldest when needed |
| Metrics.CountsAreTimes | src/metrics.rs:166-189 | each kind of sample is counted for itself |
| Metrics.WindowIsAsAsked | src/metrics.rs:193-224 | a snapshot shows as many minutes as are asked for, one at least and two hours at most |
| Metrics.TimeSeries.Snapshot | src/metrics.rs:193-224 | one pass over the buckets, gaps filled |
| Metrics.ScanLooksUp | src/metrics.rs:203-223 | the pass finds for every minute what the buckets hold of it |
| Metrics.RunTracks | src/metrics.rs:166-189 | while no minute follows a later one the buckets are sorted, no more than 120, and exact for every minute not dropped |
| Metrics.SnapshotIsHistory | src/metrics.rs:166-224 | then a snapshot is the last minutes of the full history, one bucket each, exact to the sample |
| Metrics.BackwardSampleIsHidden | src/metrics.rs:166-224 | a sample in a minute before the last one is not shown: right after it the snapshot of its minute differs from the history |
| Metrics.ShownExactlyWhenForward | src/metrics.rs:166-224 | every sample is shown in its minute as it is recorded if and only if no minute follows a later one |
| Metrics.NeverMoreThanTwoHours | src/metrics.rs:166-189 | for any clock no more than 120 buckets are kept |

## Left out

- Read and write errors, timeouts and shutdown of the inbound session: the stream ends or goes on.
- Replies as text: only their codes are kept, and the intermediate 354 and 334 only where the session ends there.
- TLS, sockets, HTTP, the dashboard, logging and the activity file: no logic that the other modules rest on.
- The upstream conversation and the address checks: their outcomes are inputs.
- Base64 decoding and the credentials check: functions given to the session; any functions will do.
- UTF-8 decoding with replacement characters, and white space, letter case and control characters beyond ASCII: text is its bytes.
- The hash of sticky routing: any function of the key.
- Content rotation but for quoted-printable: template matching and link scraping have no crisp specification.
- Headers.BareRoundTrip: asks that the message has no CR at all; one that mixes both line ends is read by the same functions, without an exact law.
- RewriteLaws.RewriteKeepsMessage: asks that a header field is left to print, which fails only when the rules remove every one.
- RewriteLaws.OutgoingFrom: asks for a relay identity that is an address, for no later rule that names From, and for a kept display name that is faithfully written as in Mailboxes.RoundTrip; the name is the sender's to choose, and RewriteLaws.MisleadingFrom is a case where the result fails without that.
- RewriteLaws.HeaderKeepsAddress: likewise for the name.
- Mailboxes.RoundTrip: a name that looks like an encoded word or a quoted string already is passed on unchanged; asks that the first holds none of the characters the scanners look for and that the second has its inner quotes escaped.
- Eligibility while a selection is under way: a choice is made from one view of all relays, which other deliveries may change before the reservation.
- An upper bound on in-flight deliveries per relay: the check and the increment are separate steps of the program, so there is none.
- Two pool generations at once: a delivery begun before a reload gives its reservation back to the old relay.
- Quotas.TotalIsKeptAndHeld: within one pool generation, for the same reason.
- Quotas.WindowIsBalanced, Quotas.WindowIsKeptAndHeld: likewise; a ledger has no reloads.
- DeliveryProtocol.NothingIsLost: spooling is taken to be on, and no id to be given out twice; without a spool directory a restart starts empty.
- Circuits.EveryRunIsConsistent: a reload that changes the health settings is not among the events; a closed circuit can then be past a lowered threshold until the next failure.
- File operations that stop half way: each write or removal happens or does not.
- Hybrid and direct submission and the backoff formula: the retry delay is an input, and attempts made before queueing are not modelled.
- Purging the queue and listing it: removal of one message, repeated, and readings.
- Wrap-around of 64-bit counters other than the round-robin cursor, and of queue sequence numbers: they are unbounded.
- Statistics, Prometheus text and the latency histogram: counting only.
