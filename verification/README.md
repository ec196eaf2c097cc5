# Verified model of the mail hub core

This project models the parts of a Go mail hub where mistakes lose mail, let
guesses through or forget state: outbound delivery with its transport table,
MX failover and per-destination throttle; mail DNS lookup; the webhook outbox;
login lockout and alias resolution; the hash-chained audit log; header
rewriting after a content scan; path edits of configuration documents; offline
backups; the relay network check; and lease-fenced failover.

Check it with `dafny verify dfyconfig.toml` (Dafny 4.11).

## How it is built

* Code that updates state step by step is a `method` or a `class`, proved equal
  to a function of its inputs or of its old state. The properties are lemmas
  about those functions.
* Properties of whole runs use a `Next` function for one step, a `Run` over a
  list of steps and an invariant that every step keeps. The steps of a run are
  arbitrary: failures, crashes, late answers and reopenings are steps too.
* What DNS, remote hosts, clocks, disks, password checks and commands answer is
  a function or a step argument, so every theorem holds for every behaviour.
* A Go map is visited in whatever order it yields; methods report the order
  that was taken and theorems hold for all orders.
* Where the source does not meet an expected property, there is a lemma with a
  failing input and a theorem with the exact condition.

| files | component |
|---|---|
| `Routes`, `Smtp`, `MxOrder`, `Delivery`, `DeliveryTheorems` | outbound delivery |
| `MailDns` | MX lookup |
| `Throttle`, `ThrottleRuns` | destination throttle |
| `Outbox`, `OutboxRuns`, `OutboxProgress` | webhook outbox |
| `Lockout`, `LockoutRuns`, `Aliases`, `AliasOrder` | accounts |
| `AuditLog`, `AuditRuns` | audit log |
| `Failover` | failover activation |
| `Headers`, `HeaderTheorems`, `HeaderCommute`, `HeaderShape`, `HeaderBody`, `HeaderBodyLf`, `HeaderFields`, `Scanner`, `ScannerOrder` | header rewriting |
| `Document`, `YamlWalk`, `YamlStore` | configuration documents |
| `Backup`, `BackupRoundTrip` | backups |
| `RelayNetworks` | relay network check |
| `Text`, `Counting`, `Choices` | strings: splitting, joining, searching, replacing; powers and set sizes; paths through trees |

## Where the source falls short of an expectation

* An overall delivery success covers everybody exactly when every address has
  exactly one `@`: others are dropped in silence, and a list of only such
  addresses is reported as delivered (`SuccessCoversEveryone`,
  `OnlyMalformedIsReportedDelivered`).
* In a table that passes validation the route priority never decides anything,
  although the documentation ranks by it (`PriorityNeverDecides`).
* `Observe` reads the clock twice. Slots, limits and tokens do not depend on how
  far apart the readings are. Eviction forgets no running cooldown as long
  as the two readings are at most the longest cooldown plus one apart, and with
  any larger gap it can, under every configuration (`NoGrantDuringCooldown`,
  `LargerGapForgets`).
* An accepted webhook whose update is lost is posted again
  (`LostAcknowledgementRedelivers`), as the source says.
* An outbox drops an old unfinished event exactly when it was created for no
  hook (`UnfinishedLeavesWithoutHooks`). `Dispatch` must run in one worker, as its
  comment demands: a second one can turn a sent row back
  (`SecondDispatcherUndoesSent`).
* An audit record whose text the encoder would replace is acknowledged and makes
  the log unreadable; it is readable exactly when the text is valid
  (`AcceptedExactlyWhenValid`).
* A rewritten message whose header block starts with an empty line keeps its
  body exactly when that line was removed or nothing is inserted at the top; with
  bare line feeds a carriage return in the header block can move it too
  (`HeaderBody.BodyIsPreserved`, `HeaderBodyLf.BodyIsPreserved`).
* Removals of names that are equal up to case depend on the order of the map,
  exactly by their orders and the number of fields (`CommuteExactlyWhen`).
* A backup with a file name that is not valid text is written and cannot be
  restored (`UncleanNameIsNotRestored`, `RoundTrip`).
* Two different pairs of pattern and sender can count as one when a pattern holds
  a bar, and only then (`KeyIsPair`, `BarCollides`).
* Two different tokens can select the same array position
  (`SpellingIsNotPosition`).
* The root name itself, when it has an address, is returned as its own implicit
  mail host `.` (`NullHostOnlyAtRoot`).

## Model

| member | source | states |
|---|---|---|
| `Routes.ValidateRoutes` | internal/delivery/routes.go:35-64 | accepts exactly the tables in which every pattern and sender is well formed, every route has hops, every hop is complete and reachable, and no two routes share the text made of pattern, bar and sender |
| `Routes.KeyIsPair` | internal/delivery/routes.go:39-48 | as long as no pattern holds a bar, that text repeats exactly when the pair of pattern and sender does |
| `Routes.BarCollides` | internal/delivery/routes.go:39-48 | every route whose pattern holds a bar shares its text with one of another pattern, valid by itself unless nothing or only a wildcard prefix stands before the bar, and the two are refused together |
| `Routes.BarJoinsPairs` | internal/delivery/routes.go:39-48 | two different pairs with the same text, so that their table is refused |
| `Routes.SelectRoute` | internal/delivery/routes.go:69-108 | returns the hops of the first applicable route of highest rank, or none |
| `Routes.BestHops` | internal/delivery/routes.go:77-107 | the loop over score, priority and hops finds the hops of that route |
| `Routes.ScoreRoute` | internal/delivery/routes.go:81-100 | one number for an applicable route, -1 for any other |
| `Routes.Score` | internal/delivery/routes.go:80-101 | a suffix score is bounded by the length of the domain and stays below every exact score |
| `Routes.ScoreIsLexicographic` | internal/delivery/routes.go:69-108 | for names of any length, comparing scores and then priorities is the documented order: exact over suffix, longer suffix, sender-specific, lower priority |
| `Routes.BestIndexIsMaximum` | internal/delivery/routes.go:69-108 | nothing is chosen exactly when no route applies; no applicable route outranks the chosen one, and it outranks every earlier one |
| `Routes.TieMeansSameKey` | internal/delivery/routes.go:71-108 | applicable routes with equal scores have the same pattern and the same sender |
| `Routes.OrderIndependent` | internal/delivery/routes.go:35-108 | in an accepted table the chosen hops are the same for every permutation of the list |
| `Routes.PriorityNeverDecides` | internal/delivery/routes.go:35-108 | in an accepted table the chosen hops are the same for any priorities |
| `Routes.SenderFollowsLastAt` | internal/delivery/routes.go:73-76 | the domain of a sender is what follows its last @, in lower case, and empty without an @ |
| `Routes.SenderRouteApplies` | internal/delivery/routes.go:73-100 | a route for one sender applies exactly when its domain is, up to case, what follows the last @ of the sender; a route without one applies to all |
| `Routes.SpellingOfDomain` | internal/delivery/routes.go:69-108 | destinations equal up to case, and with or without one trailing dot, select the same hops |
| `Routes.WildcardMatches` | internal/delivery/routes.go:81-90 | a wildcard pattern matches every name below the given one and not that name itself |
| `Smtp.PermanentMeansFiveHundred` | internal/delivery/delivery.go:501-526 | an error text is permanent exactly when it starts with 5 and two more digits |
| `Smtp.ThreeDigitsAreTheCode` | internal/delivery/delivery.go:501-526 | three leading digits are the code of the text |
| `Smtp.NoNumberIsTemporary` | internal/delivery/delivery.go:501-526 | a text without a leading number has code 450 and is not permanent |
| `Smtp.MarkFailed` | internal/delivery/routes.go:207-223 | exactly the outcomes without a code take the code and text of the error, permanent exactly when that text starts with 5 and two more digits; every outcome keeps its place and its success flag |
| `Smtp.SmtpTransaction` | internal/delivery/routes.go:205-275 | computes the result of one dialogue, with success exactly as the result says; what that result means is stated by the three lemmas below |
| `Smtp.TransactionMeaning` | internal/delivery/routes.go:205-275 | success means that the message was acknowledged; recipient i succeeds exactly when its RCPT was accepted and the message acknowledged; every recipient keeps its place and gets a code |
| `Smtp.FailedRecipientMeaning` | internal/delivery/routes.go:205-275 | after an accepted MAIL exactly one reply decides a recipient that failed, its own refused RCPT or the first refusal of the transfer; it carries that text and its code, and is permanent exactly when that text starts with 5 and two digits |
| `Smtp.ResultMeaning` | internal/delivery/routes.go:205-275 | the whole result is permanent exactly when the host refused for good: the text at MAIL, every RCPT refusal, or the first refusal of the transfer starts with 5 and two digits |
| `Smtp.TransferErrorIsFirst` | internal/delivery/routes.go:252-262 | the error of the transfer is the first refusal among DATA, the text and the final dot |
| `MxOrder.SortMXRecords` | internal/delivery/delivery.go:488-497 | sorting in place by adjacent swaps leaves the stable sort of the array |
| `MxOrder.StableSortKeeps` | internal/delivery/delivery.go:488-497 | the result is in non-decreasing preference and keeps the given order within each preference |
| `MxOrder.StableSortUnique` | internal/delivery/delivery.go:488-497 | only one arrangement is sorted and keeps the order within each preference |
| `MxOrder.StableSortPermutes` | internal/delivery/delivery.go:488-497 | no record is lost, added or changed |
| `Delivery.DeliverRoute` | internal/delivery/routes.go:109-137 | hops are tried in order up to and including the first that acknowledges or refuses for good, which is the list of hosts it returns; without one the answer is 451 |
| `Delivery.TryMxHosts` | internal/delivery/delivery.go:178-216 | the same over the sorted MX hosts, where an undecided policy passes over a host; the k-th host tried is the k-th record without its trailing dot, with port 25 where the policy is enforced |
| `Delivery.DeliverToDomain` | internal/delivery/delivery.go:158-217 | with selected hops their addresses are tried in order; otherwise the hosts tried are, without trailing dot and with port 25 where the policy is enforced, the first records of an arrangement in non-decreasing preference that keeps the order within each preference; else nothing is tried and the answer is 550 or 451 as the lookup failed |
| `Delivery.TryMxHost` | internal/delivery/delivery.go:180-216 | one host: passed over while its policy is undecided, else contacted at its address; it ends the search exactly when it acknowledges or refuses for good |
| `Delivery.UndecidedIsPassedOver` | internal/delivery/delivery.go:184-192 | a host whose policy is undecided never ends the search, and every other host answers for itself |
| `Delivery.ResultOfLast` | internal/delivery/delivery.go:180-216 | the result is the dialogue of the last host tried, under the name of that host, when one ended the search, and the result for none otherwise |
| `Delivery.FirstEnd` | internal/delivery/routes.go:111-135 | the first attempt that acknowledges or refuses for good, with none before it |
| `Delivery.AtMostOneAcknowledgement` | internal/delivery/delivery.go:180-216 | a host that acknowledges is the last one tried, nothing is tried after an acknowledgement or a permanent refusal, and the result is a success exactly when one acknowledged |
| `Delivery.WellFormedMeansOneAt` | internal/delivery/delivery.go:472-476 | the split test accepts exactly the addresses with one @ |
| `Delivery.DomainFollowsAt` | internal/delivery/delivery.go:469-485 | the domain of a usable address is what follows its @, in lower case |
| `Delivery.GroupByDomain` | internal/delivery/delivery.go:469-485 | each domain maps to its usable recipients in their order, and no other domain occurs |
| `Delivery.FillRecipients` | internal/delivery/delivery.go:125-129 | a result without recipient outcomes speaks for each recipient of the group |
| `Delivery.Summarize` | internal/delivery/delivery.go:136-154 | overall success, permanence and code follow from the recipient outcomes |
| `Delivery.VisitGroups` | internal/delivery/delivery.go:118-135 | every group is served once, in some order, and the outcomes are collected in that order |
| `Delivery.Deliver` | internal/delivery/delivery.go:113-155 | one result for the whole message: the outcomes of every domain, once each, and their summary; an error exactly for an empty list or an unsuccessful result |
| `DeliveryTheorems.OneOutcomePerRecipient` | internal/delivery/delivery.go:113-155 | conservation: the names in the outcomes are, as a multiset, the usable recipients, for every table, network behaviour and map order |
| `DeliveryTheorems.OneAcknowledgementPerDomain` | internal/delivery/delivery.go:113-217 | within one call the message is acknowledged at most once for each domain, by the last host tried, and once exactly when the result of the domain is a success |
| `DeliveryTheorems.DomainOutcomesMeaning` | internal/delivery/delivery.go:120-130 | within a domain outcome i belongs to recipient i and is a success exactly when a host tried acknowledged the message and accepted that recipient |
| `DeliveryTheorems.SuccessMeansAcknowledged` | internal/delivery/routes.go:205-275 | the same for every position of the final list |
| `DeliveryTheorems.RejectedMeaning` | internal/delivery/routes.go:205-275 | in the dialogue that ends the search a failed outcome is permanent exactly when the text that decided it, at MAIL, RCPT or the transfer, starts with 5 and two digits |
| `DeliveryTheorems.DomainFailuresMeaning` | internal/delivery/delivery.go:158-217 | a recipient of a domain is permanent exactly when the lookup says for good that there is no host, or the host that ended the search rejected it for good |
| `DeliveryTheorems.OutcomeSettled` | internal/delivery/delivery.go:113-217 | a recipient is settled, by success or permanently, exactly when its outcome says so |
| `DeliveryTheorems.PermanentMeansNoRetryHelps` | internal/delivery/delivery.go:113-155 | the whole message is permanent exactly when it failed and every usable recipient was delivered or is gone for good; the code is 250, 550 or 451 accordingly |
| `DeliveryTheorems.SuccessCoversEveryone` | internal/delivery/delivery.go:113-155 | an overall success has delivered to every address given exactly when each of them has one @ |
| `DeliveryTheorems.OnlyMalformedIsReportedDelivered` | internal/delivery/delivery.go:113-155 | a list of malformed addresses only yields success, 250 and no outcomes |
| `DeliveryTheorems.MalformedExample` | internal/delivery/delivery.go:472-476 | one such list |
| `MailDns.LookupMailMX` | internal/dns/mail.go:57-125 | at most 8 MX queries on names that differ pairwise, each name the alias target of the query before it; records are returned exactly when the last MX answer names exchangers and none is the Null host, or has no data and an address reply holds an address; it ends on an alias only after 8 queries or when the target was already asked for, up to case |
| `MailDns.Interpret` | internal/dns/mail.go:71-122 | an answer is followed exactly when it is an alias without exchangers, and then to its target; any other ends the lookup with a justified result, after address queries exactly when it has no data |
| `MailDns.ReadAnswer` | internal/dns/mail.go:78-89 | all MX records in order, and the last alias of the queried name |
| `MailDns.MxOfMeaning` | internal/dns/mail.go:78-89 | the exchangers are the MX records of the answer, as often and in the same order |
| `MailDns.CanonicalMeaning` | internal/dns/mail.go:78-89 | the alias is the target of the last alias record owned by the name, and empty without one |
| `MailDns.CheckNull` | internal/dns/mail.go:90-100 | records are returned exactly when none is the Null host; the error is permanent exactly for the single record of preference 0 |
| `MailDns.ImplicitMx` | internal/dns/mail.go:106-122 | the name itself when the answer section of an A or AAAA reply, whatever its code, has an address; otherwise an error that is permanent exactly when both queries were answered |
| `MailDns.PermanentOnlyWhenAnswered` | internal/dns/mail.go:57-125 | a permanent error after a query means that every query of the lookup was answered |
| `MailDns.NullHostOnlyAtRoot` | internal/dns/mail.go:90-118 | returned records hold the Null host only for an implicit MX of the root name, never from an MX answer |
| `Throttle.Validate` | internal/delivery/throttle.go:18-37 | defaults for zero and empty settings; accepted exactly within the bounds on durations, concurrency and table size |
| `Throttle.Backoff` | internal/delivery/throttle.go:108-114 | the doubling loop in 64-bit arithmetic never overflows and yields initial times 2^(failures-1), capped at the maximum |
| `Throttle.DelayMonotone` | internal/delivery/throttle.go:108-114 | more failures never give a shorter cooldown |
| `Throttle.DestinationThrottle.EvictStale` | internal/delivery/throttle.go:70-76 | the loop deletes exactly the idle entries unused for longer than twice the maximum |
| `Throttle.DestinationThrottle.Acquire` | internal/delivery/throttle.go:63-90 | the whole new state and whether a slot was granted; `ThrottleRuns.GrantedExactly` and `ThrottleRuns.AcquireMeaning` say what that is |
| `Throttle.DestinationThrottle.Release` | internal/delivery/throttle.go:88-89 | the whole new state after the closure of one slot has run |
| `Throttle.DestinationThrottle.Observe` | internal/delivery/throttle.go:94-125 | the whole new state after an observation |
| `ThrottleRuns.StepKeeps` | internal/delivery/throttle.go:63-125 | every operation keeps: active slots equal the unreleased tokens of the destination, 1 <= limit <= concurrency, active <= concurrency, the table within its size, every unreleased token's entry present, cooldowns bounded by the failures |
| `ThrottleRuns.RunKeeps` | internal/delivery/throttle.go:63-125 | hence every run with a clock that never goes back keeps them, however far apart the two readings of an observation are |
| `ThrottleRuns.GrantedExactly` | internal/delivery/throttle.go:63-90 | a slot is granted exactly when there is room for the destination and, if it is known, a slot is free and its cooldown is over |
| `ThrottleRuns.AcquireMeaning` | internal/delivery/throttle.go:63-90 | a granted request takes one slot and one token, a refused one at most notes the time; other entries are unchanged, and gone exactly when the table was full for a new destination and they were idle and old |
| `ThrottleRuns.EvictedHasNoToken` | internal/delivery/throttle.go:70-76 | an evicted entry has no unreleased token |
| `ThrottleRuns.EvictionIsSafe` | internal/delivery/throttle.go:70-76 | under the bound on the gap between two readings an evicted entry has no running cooldown either |
| `ThrottleRuns.NoGrantDuringCooldown` | internal/delivery/throttle.go:63-125 | over any run whose observations keep the gap bound, with any number of evictions, no slot is granted before a cooldown on record has ended |
| `ThrottleRuns.BoundedStep` | internal/delivery/throttle.go:63-125 | every operation that keeps the gap bound keeps cooldowns within the time eviction waits |
| `ThrottleRuns.CooldownNeverShrinks` | internal/delivery/throttle.go:63-125 | over any run with a clock that never goes back, while an entry lives the end of its cooldown never moves earlier |
| `ThrottleRuns.FailuresBackOff` | internal/delivery/throttle.go:92-115 | n temporary failures in a row divide the limit by 2^n, not below one, and leave the cooldown of that many more failures |
| `ThrottleRuns.SuccessesRecover` | internal/delivery/throttle.go:92-124 | n successes after the cooldown raise the limit by n up to the concurrency and forget the failures |
| `ThrottleRuns.QuietObservation` | internal/delivery/throttle.go:116-123 | a success during a cooldown, and a failure that is not temporary, change only the time of last use |
| `ThrottleRuns.OthersUntouched` | internal/delivery/throttle.go:88-125 | a release or an observation changes no other destination |
| `ThrottleRuns.ReleaseOnce` | internal/delivery/throttle.go:88-89 | running a release closure again changes nothing |
| `ThrottleRuns.LargerGapForgets` | internal/delivery/throttle.go:63-115 | for every valid configuration and every gap above the bound, a run within the bound leads to a state where one observation with that gap opens a cooldown that a later request evicts while it runs |
| `ThrottleRuns.GapForgets` | internal/delivery/throttle.go:63-115 | so in every state with a full table and an idle destination whose next failure opens the longest cooldown |
| `Outbox.Box.constructor` | internal/extensions/webhooks.go:55-72 | a new outbox is empty |
| `Outbox.Box.Reopen` | internal/extensions/webhooks.go:55-72 | opening an existing outbox makes every unfinished event ready with the unknown outcome and changes nothing else |
| `Outbox.Box.Begin` | internal/extensions/webhooks.go:74-106 | purges old settled events, then adds the event and one pending row per hook, or commits nothing when the outbox is full or a key repeats |
| `Outbox.Box.InsertRows` | internal/extensions/webhooks.go:100-104 | succeeds exactly when no row of the event exists and no hook repeats, and adds just those rows |
| `Outbox.Box.Finish` | internal/extensions/webhooks.go:107-121 | an existing event becomes ready with its status; an unknown one is an error |
| `Outbox.Box.Retry` | internal/extensions/webhooks.go:139-145 | dead rows become pending with no attempts and due at once, others are unchanged |
| `Outbox.Box.Dispatch` | internal/extensions/webhooks.go:146-214 | items are posted and recorded in order until the context ends or an update fails; the table holds exactly the recorded ones, and an item whose update failed was posted all the same |
| `Outbox.Box.DispatchOne` | internal/extensions/webhooks.go:173-211 | one item is posted, and its row changes only if the update succeeds |
| `Outbox.Box.Record` | internal/extensions/webhooks.go:201-211 | the row gets the next attempt number, its due time and the state that follows from the answer and the number of attempts |
| `OutboxRuns.DispatchIsSteps` | internal/extensions/webhooks.go:169-212 | the loop over a batch changes the table as a run of separate post and record steps does |
| `Outbox.Box.Post` | internal/extensions/webhooks.go:173-200 | sent exactly when the first hook of that name has a usable secret and request and answers 2xx |
| `OutboxRuns.StepKeeps` | internal/extensions/webhooks.go:55-214 | every step keeps: exactly one row per hook of each stored event and no orphan, sent rows accepted by a server, pending rows below 10 attempts and dead ones at 10 or more, at most 10000 events, departed events accepted by every hook, ready events finished or recovered |
| `OutboxRuns.RunKeeps` | internal/extensions/webhooks.go:55-214 | hence every interleaving of begin, finish, select, post, record, retry, failed update, crash and reopen keeps them |
| `OutboxRuns.SentIsFinal` | internal/extensions/webhooks.go:139-214 | in every run a sent row stays sent for as long as it exists, and is never in a batch again |
| `OutboxRuns.NothingIsLost` | internal/extensions/webhooks.go:74-106 | an event that has left the outbox was accepted by every hook it was created for |
| `OutboxRuns.LostAcknowledgementRedelivers` | internal/extensions/webhooks.go:193-211 | delivery is at least once: when an accepted post is not recorded, by a failed update or a crash, the row is as it was and is eligible again exactly when it is due |
| `OutboxRuns.LeavesExactlyWhenSent` | internal/extensions/webhooks.go:74-106 | an event leaves in one step exactly when a begin commits, the event is older than the retention and its row is sent for every hook it was created for |
| `OutboxRuns.PostedIsFinishedOrRecovered` | internal/extensions/webhooks.go:146-168 | what is posted is finished, or was found unfinished by a reopening |
| `OutboxRuns.UnfinishedLeavesWithoutHooks` | internal/extensions/webhooks.go:74-106 | an unfinished event leaves exactly when a begin commits, it is that old and it was created for no hook |
| `OutboxRuns.UnfinishedDroppedWithoutHooks` | internal/extensions/webhooks.go:74-106 | with no hooks an old unfinished event is dropped |
| `OutboxRuns.SecondDispatcherUndoesSent` | internal/extensions/webhooks.go:144-214 | a second dispatcher holding the same row turns sent back into pending or dead |
| `OutboxRuns.PendingIsDueSoon` | internal/extensions/webhooks.go:201-211 | in every run whose updates read a clock that does not go back, a pending row is due at most 1024 seconds after the latest reading |
| `OutboxRuns.RetryRevives` | internal/extensions/webhooks.go:139-145 | a retry makes every dead row eligible again and touches no other |
| `OutboxRuns.RecordMeaning` | internal/extensions/webhooks.go:201-211 | a recorded attempt counts one: accepted, the row is sent; otherwise it waits two to the power of the attempt in seconds, and the tenth failure kills it; no other row changes |
| `OutboxRuns.WaitDoubles` | internal/extensions/webhooks.go:208-209 | up to the tenth attempt each further failure doubles the wait |
| `OutboxRuns.PayloadStays` | internal/extensions/webhooks.go:107-214 | in every run that neither begins nor finishes an event its payload stays as it is |
| `OutboxRuns.FinishedStatusIsPosted` | internal/extensions/webhooks.go:107-168 | every later batch carries for a finished event its request and the status it was finished with |
| `OutboxProgress.RoundSends` | internal/extensions/webhooks.go:146-214 | a dispatch whose posts are all accepted and recorded makes exactly its batch sent and changes no other row |
| `OutboxProgress.RoundShrinks` | internal/extensions/webhooks.go:147-168 | it takes 32 of the due rows, or else leaves none that was due when it began |
| `OutboxProgress.DueRowsAreSent` | internal/extensions/webhooks.go:146-214 | progress: while hooks accept, one dispatch for every 32 due rows sends every row that was due before the first |
| `Lockout.UserStore.IsLocked` | internal/auth/auth.go:283-303 | locked exactly while the lock runs or a full counter is within the failure window |
| `Lockout.UserStore.IsIPLocked` | internal/auth/auth.go:306-331 | the same with three times the threshold, never for an empty address |
| `Lockout.UserStore.RecordFailure` | internal/auth/auth.go:334-406 | both tables after a failure, with the lock length in 64-bit arithmetic |
| `Lockout.UserStore.ClearFailures` | internal/auth/auth.go:409-417 | the records of the name and of a given address are gone, others unchanged |
| `Lockout.UserStore.AuthenticateWithIP` | internal/auth/auth.go:182-280 | the verdict and both tables after an attempt, for every answer of directory, single sign-on and password check; `LockoutRuns.AttemptMeaning` says what they are |
| `Lockout.UserStore.CleanupExpiredLocks` | internal/auth/auth.go:420-439 | exactly the records past both window and lock are gone |
| `LockoutRuns.StepKeeps` | internal/auth/auth.go:182-439 | counters never exceed their thresholds, times are in order, and locks have the first length |
| `LockoutRuns.RunKeeps` | internal/auth/auth.go:182-439 | so in every run with a clock that never goes back |
| `LockoutRuns.AttemptMeaning` | internal/auth/auth.go:182-280 | a barred name or address is refused and nothing changes; otherwise the attempt succeeds exactly when the account is known and enabled and the deciding check passed, and forgets both records, and if it fails one failure is counted for the name and for the address |
| `LockoutRuns.FailedCountsOnce` | internal/auth/auth.go:334-406 | a failure adds one to a counter within its window, starts it at one otherwise, locks exactly at the threshold, and touches no other record |
| `LockoutRuns.CounterCountsGuesses` | internal/auth/auth.go:182-439 | within an hour without a login the counter of a name that had none is the number of wrong credentials checked |
| `LockoutRuns.FiveGuessesLock` | internal/auth/auth.go:182-439 | after the fifth one every further attempt of that hour is refused, whatever is offered |
| `LockoutRuns.FailureKeeps` | internal/auth/auth.go:334-406 | a recorded failure raises the counter to at most its threshold, so the shift exponent stays 0 |
| `LockoutRuns.LargeExponentWouldWrap` | internal/auth/auth.go:351-361 | an exponent of 24 would wrap to a negative length |
| `LockoutRuns.FullCounterRefuses` | internal/auth/auth.go:182-303 | with a full counter every attempt of any run is refused and the record is unchanged while lock or window last |
| `LockoutRuns.RefusedExactlyWhileBarred` | internal/auth/auth.go:182-303 | and refused exactly that long |
| `LockoutRuns.AtMostNineGuessesAnHour` | internal/auth/auth.go:182-439 | in any run in which no attempt under the name succeeds, right passwords refused during a lock included, in any window-long period at most nine passwords of the name are checked |
| `LockoutRuns.CleanupIsInvisible` | internal/auth/auth.go:283-439 | from a cleaned and an uncleaned store every later sequence of operations gives the same verdicts |
| `Aliases.Recipient` | internal/auth/auth.go:773-783 | an enabled account with that address or name, in whatever order accounts are visited; none exactly when there is none |
| `Aliases.Resolver.Resolve` | internal/auth/auth.go:789-815 | restores the set of visited names, and succeeds exactly when what remains is resolvable within the remaining depth |
| `Aliases.Resolver.Expand` | internal/auth/auth.go:796-809 | the same for the loop over the targets of one alias |
| `Aliases.ResolveAddress` | internal/auth/auth.go:786-817 | terminates; succeeds exactly when no walk is longer than 21 addresses, every leaf is an enabled mailbox and no expansion exceeds 1000; then returns the depth-first flattening with order and multiplicity |
| `AliasOrder.LeavesInOrder` | internal/auth/auth.go:786-817 | the addresses returned are the leaves in the order of the choices of targets that lead to them, each as often as there are such choices, and no other |
| `Aliases.WithinMeansShortWalks` | internal/auth/auth.go:790-795 | the recursive depth bound is the bound on the length of every walk through the aliases |
| `Aliases.CycleIsUnbounded` | internal/auth/auth.go:790-795 | an address on a cycle is within no bound, so it never resolves |
| `AuditLog.Verify` | internal/auditlog/audit.go:42-62 | accepts exactly the texts whose lines form a chain, and returns its length and last hash |
| `AuditRuns.AcceptedMeansUnchanged` | internal/auditlog/audit.go:36-60 | a line written for a record is accepted only as that very record, and only if its text survives encoding |
| `AuditRuns.ChainLast` | internal/auditlog/audit.go:42-62 | an accepted log is an accepted shorter log and one record that names its head and hashes to itself |
| `AuditRuns.AcceptedExactlyWhenLinked` | internal/auditlog/audit.go:42-62 | a log is accepted, with given records, exactly when its lines hold those records numbered from one, each naming the hash of the one before and hashing to its own |
| `AuditLog.Log.Open` | internal/auditlog/audit.go:63-88 | opens exactly the files that end in whole lines and verify, with the sequence and head they hold |
| `AuditLog.Log.Append` | internal/auditlog/audit.go:90-137 | disk, memory and answer after an append, for every short write and sync failure |
| `AuditRuns.StepKeeps` | internal/auditlog/audit.go:63-137 | every append, fault, crash and reopening keeps: acknowledged records retained, memory equal to what verification computes while nothing failed |
| `AuditRuns.RunKeeps` | internal/auditlog/audit.go:63-137 | hence every run keeps them |
| `AuditRuns.AcknowledgedSurvives` | internal/auditlog/audit.go:63-137 | an acknowledged record is at its sequence number in every later log that opens |
| `AuditRuns.AcknowledgedExactly` | internal/auditlog/audit.go:90-137 | an append is acknowledged exactly when the log has not failed, the texts are within their limits and nothing goes wrong on the disk |
| `AuditRuns.AcknowledgedAsGiven` | internal/auditlog/audit.go:90-137 | every later log that opens holds actor, action, id and time of an acknowledged append as given, at the number it got |
| `AuditRuns.AcceptedExactlyWhenValid` | internal/auditlog/audit.go:36-60 | a record just written is accepted, unchanged, exactly when its text is valid |
| `AuditRuns.SameHeadSameLog` | internal/auditlog/audit.go:42-62 | two accepted logs of equal length and head hold the same records |
| `AuditRuns.OpenedPrefix` | internal/auditlog/audit.go:42-88 | every whole-line prefix of a file that opens, opens to a prefix of its records |
| `Failover.Activate` | internal/failover/failover.go:64-118 | success exactly when the request is valid, the lock is free and the steps taken are the nine of an activation in order, each with success, which is when the first nine answers are successes; without the lock nothing is done |
| `Failover.FenceFirst` | internal/failover/failover.go:87-95 | fencing and its verification come first, and a failure of either ends the activation |
| `Failover.ProbeFirst` | internal/failover/failover.go:96-106 | the lease must be free before activation is requested |
| `Failover.StartStandby` | internal/failover/failover.go:107-117 | start, readiness and its record, with success exactly when all three succeed; after a failed start or readiness the last two steps are stop and the failure record, and there is no success |
| `Failover.SuccessMeansNine` | internal/failover/failover.go:64-118 | a legal order that ends in success is the nine steps, all successful |
| `Failover.SuccessesAreNine` | internal/failover/failover.go:64-118 | while every step succeeds the nine are taken in their order |
| `Failover.FailureHasCause` | internal/failover/failover.go:64-118 | an activation that ends in failure had a failed step |
| `Failover.StepKeeps` | internal/failover/failover.go:20-118 | every step of any number of activations, crashes included, keeps the invariant |
| `Failover.RunKeeps` | internal/failover/failover.go:20-118 | in every run each Start follows the successful Fence and VerifyFenced of the same activation with no step of another in between, and the audit file is a concatenation of prefixes of the legal order |
| `Failover.PathTo` | internal/failover/failover.go:87-107 | an activation about to take the n-th fencing step has taken exactly the steps before it, each with success |
| `Failover.ReturnedHasStopped` | internal/failover/failover.go:107-116 | an activation that returned after a failed Start or Ready has attempted Stop next |
| `Failover.OneAtATime` | internal/failover/failover.go:20-33 | two activations on one lease are never between steps at the same time |
| `Failover.SuccessIsReal` | internal/failover/failover.go:20-118 | in every run an activation that returned success took its nine steps, the readiness record included, each with success and none of another in between, and took no other step |
| `Headers.BuildFields` | internal/filtering/headers.go:22-29 | lines that start with a blank or tab join the field before them, unless they are first |
| `Headers.FindMatches` | internal/filtering/headers.go:31-37 | exactly the positions of the fields of that name, in order |
| `Headers.ChooseRemoved` | internal/filtering/headers.go:38-51 | all matches for 0, the n-th from the front or from the back otherwise, if there is one |
| `Headers.RemoveFields` | internal/filtering/headers.go:31-58 | the fields without the chosen ones, in order |
| `Headers.InsertFields` | internal/filtering/headers.go:60-71 | each addition at its position, or at the end when it is beyond; an error exactly when a position is negative |
| `Headers.ApplyHeaders` | internal/filtering/headers.go:10-76 | the whole rewriting for the order in which the map was visited |
| `Headers.UnfoldJoins` | internal/filtering/headers.go:22-29 | joining the fields gives back the header block |
| `HeaderFields.FieldsAreCut` | internal/filtering/headers.go:22-29 | the fields are pieces that contain no line end but before a continuation, and start with one only at the front; joined they are the block |
| `HeaderFields.CutIsUnique` | internal/filtering/headers.go:22-29 | a block can be cut in that way in one way only |
| `HeaderFields.ReadBackExactly` | internal/filtering/headers.go:22-29 | joined fields are read back as they were exactly when none but the first starts with a space or a tab |
| `HeaderFields.InsertKeepsAll` | internal/filtering/headers.go:60-71 | insertion keeps every field and adds exactly the additions |
| `HeaderFields.InsertedAt` | internal/filtering/headers.go:60-71 | an addition stands at its position, or last when that is beyond, and the others keep their order |
| `Headers.EmptyVerdictIsIdentity` | internal/filtering/headers.go:10-76 | with nothing to do every message with a header boundary is returned as it was, and any other is an error |
| `HeaderTheorems.RemovalOrderIrrelevant` | internal/filtering/headers.go:30-59 | removals of names that differ up to case give the same fields in any two orders of the map |
| `HeaderTheorems.FoldedNamesDepend` | internal/filtering/headers.go:30-59 | two names equal up to case for which two orders differ |
| `HeaderCommute.CommutingRemovals` | internal/filtering/headers.go:30-59 | two removals of one name in two spellings can be exchanged when one takes all, they are alike, one of them counts past the number of fields, or they count from opposite ends and do not reach each other |
| `HeaderCommute.CommuteExactlyWhen` | internal/filtering/headers.go:30-59 | and, when the fields of the name differ, only then |
| `HeaderBody.BodyIsPreserved` | internal/filtering/headers.go:10-76 | for every CRLF message, any removals and checked additions, cutting the result at its first blank line returns the body byte for byte, exactly unless a field that starts with an empty line survives the removals and something is inserted at the top |
| `HeaderBody.BodyIsPreservedForPlainNames` | internal/filtering/headers.go:10-76 | with removal names free of line breaks: exactly unless the header block starts with an empty line and something is inserted at the top |
| `HeaderFields.MessageReadsBack` | internal/filtering/headers.go:10-76 | a reader of the rewritten CRLF message, when the body is where it was, finds the kept fields and the additions, exactly when no field but the first starts with a space or a tab |
| `HeaderBodyLf.BodyIsPreserved` | internal/filtering/headers.go:10-76 | the same for every message with bare line feeds, with one more exception: two fields of the result that meet in a CRLF blank line |
| `HeaderBodyLf.BodyIsPreservedWithoutCr` | internal/filtering/headers.go:10-76 | which cannot happen when the header block holds no carriage return |
| `HeaderBodyLf.BodyMovesWithCarriageReturns` | internal/filtering/headers.go:10-76 | a message and a removal for which it happens, and the body a reader then finds |
| `Scanner.CheckFolding` | internal/filtering/rspamd.go:174-179 | accepts exactly the values whose line breaks are folds and that hold no bare CR or NUL |
| `Scanner.CheckName` | internal/filtering/rspamd.go:132-181 | the additions of one name, or an error for a bad name, value or fold |
| `Scanner.CollectAdditions` | internal/filtering/rspamd.go:132-181 | the additions of all names in the order of the keys, or an error |
| `Scanner.AdditionsAreChecked` | internal/filtering/rspamd.go:132-181 | every addition handed on has a clean name, a folded value and a position that is not negative |
| `ScannerOrder.AdditionsInOrder` | internal/filtering/rspamd.go:132-181 | the additions handed on are one header for each entry of the reply, in the order of the names and of the nested entries, with that name, place and text up to line ends |
| `ScannerOrder.HandedOnExactly` | internal/filtering/rspamd.go:132-181 | a reply is handed on exactly when every name is well formed, every entry is a text or has a text and a place that is not negative, and every line break in an entry is a fold |
| `ScannerOrder.ExpandKeepsText` | internal/filtering/rspamd.go:172-180 | writing a value with CRLF changes nothing but its line ends |
| `Scanner.ScannedMessageKeepsBody` | internal/filtering/rspamd.go:132-181 | what the scanner hands on, with any removals, can be applied to any CRLF message whose header does not start empty, and the body is unchanged |
| `Scanner.ScannedLfMessageKeepsBody` | internal/filtering/rspamd.go:132-181 | the same for bare line feeds when the header block holds no carriage return |
| `Scanner.Reorder` | internal/filtering/rspamd.go:123-131 | moves the first key of each ARC name to the end, in the order results, signature, seal |
| `Scanner.ArcNamesLast` | internal/filtering/rspamd.go:123-131 | with at most one key for each ARC name, the others keep their order and the three follow as results, signature, seal |
| `Scanner.SealComesFirst` | internal/filtering/rspamd.go:123-131 | inserting them at the top in that order makes the message start with seal, signature, results |
| `Document.TokenRoundTrip` | internal/confadmin/files.go:198-198 | decoding inverts the escaping of section 4 of RFC 6901 for every key |
| `Document.PathRoundTrip` | internal/confadmin/files.go:189-198 | splitting and decoding a path gives back its keys |
| `Document.GetAfterSet` | internal/confadmin/files.go:365-403 | what was set is read back |
| `Document.SetWhatIsThere` | internal/confadmin/files.go:365-403 | setting what is already there changes nothing |
| `Document.LastSetWins` | internal/confadmin/files.go:365-403 | the last of two sets of one path wins |
| `Document.OthersUnchanged` | internal/confadmin/files.go:365-403 | every path that selects something else reads as before |
| `Document.SetSucceedsWhenParentAccepts` | internal/confadmin/files.go:365-403 | a set succeeds exactly when the parent exists and can hold the last token |
| `Document.DecimalSelects` | internal/confadmin/files.go:365-403 | a token in decimal notation selects the item of that number, if there is one, and a negative one nothing |
| `Document.SpellingIsNotPosition` | internal/confadmin/files.go:365-403 | two spellings of one array position |
| `YamlWalk.SettersAgree` | internal/confadmin/files.go:160-243 | for alias-free documents with distinct keys the YAML and the JSON setter give the same document or the same refusal |
| `YamlStore.Set` | internal/confadmin/files.go:195-234 | the walk makes one write at the node the path leads to, or refuses |
| `YamlStore.ChooseChild` | internal/confadmin/files.go:200-233 | one token selects a child, asks for a new key, or is refused with its reason |
| `YamlStore.LookUp` | internal/confadmin/files.go:202-208 | the value node of the first pair with that key, or -1 |
| `YamlStore.WalkIsSet` | internal/confadmin/files.go:195-234 | on every tree of separate nodes the walk leaves a tree under the same root that reads as the document the value setter computes, refuses the same paths for the same reason, and touches no node outside |
| `YamlStore.InPlaceAgreesWithJson` | internal/confadmin/files.go:160-243 | hence the in-place walk and the JSON setter agree on alias-free trees with distinct keys |
| `Backup.Extract` | internal/backup/backup.go:223-321 | the extracted files, or a refusal |
| `Backup.AfterConsistent` | internal/backup/backup.go:241-299 | after any number of entries the names are distinct and safe, the sizes within the limit, the files and digests those of the entries, and the manifest the one entry of its name |
| `Backup.OneSidedIsEnough` | internal/backup/backup.go:312-319 | equal sizes and one-sided matching make manifest and digests equal |
| `Backup.AcceptedMeansAgreed` | internal/backup/backup.go:223-321 | an accepted archive has one manifest equal to the digests of exactly the extracted files, no repeated name, nothing trailing, and declared sizes within the limit |
| `BackupRoundTrip.Create` | internal/backup/backup.go:74-131 | one entry per file except ownership locks, then the manifest of their digests |
| `BackupRoundTrip.RoundTrip` | internal/backup/backup.go:74-321 | extracting what was created gives back every file except locks exactly when the limits hold, no name has a backslash and the manifest encoding can represent every name; otherwise it refuses |
| `BackupRoundTrip.MatchesWhenClean` | internal/backup/backup.go:122-131 | the manifest that is read back matches the digests exactly when no name was replaced by the encoding |
| `BackupRoundTrip.UncleanNameIsNotRestored` | internal/backup/backup.go:116-131 | one file with a name the encoding replaces: the backup is written and extraction refuses it under every limit |
| `RelayNetworks.ValidateNetworks` | internal/config/safety.go:12-26 | accepts exactly when every network parses and its address, base and last address are private or loopback |
| `RelayNetworks.LastAddress` | internal/config/safety.go:18-21 | the network address with every host bit set |
| `RelayNetworks.AcceptedBlockIsPrivate` | internal/config/safety.go:12-26 | every address of an accepted block is private or loopback, for 32-bit, 128-bit and mapped blocks |
| `RelayNetworks.AcceptedExactlyWhenPrivate` | internal/config/safety.go:12-26 | a block is accepted exactly when every one of its addresses is private or loopback |
| `RelayNetworks.AddressAloneIsNotEnough` | internal/config/safety.go:22-25 | a block whose given address is private but which reaches outside, and is refused |

## Left out

- Dialling, STARTTLS, DANE and MTA-STS evaluation, TLS reports and the connection pool: each connection attempt is an arbitrary dialogue or a failure.
- Password hashing, LDAP, single sign-on and the SQL repositories: each is an arbitrary verdict; the SQL tables of the outbox are maps.
- HTTP handlers, command line, admin router, SCIM and gRPC: they pass requests on to the operations modelled here and keep no state of their own beyond simple tables.
- Message formats, bounce texts, spam detection, reputation clients: library work or no sharp specification.
- Queue, storage, JMAP, IMAP and policy engines are not part of this model.
- Bytes of tar, gzip, JSON and YAML, and real hashes: codecs that round-trip up to the replacement of invalid text, and an injective hash; the line limit of the audit reader is an abstract predicate that every record Append can write meets.
- Letters outside ASCII: case folding covers ASCII and a character stands for a byte.
- Texts of errors: only their kind, and whether they are permanent.
- The nesting check of the configuration parser, the listener overlap checks and the other safety checks of the configuration: each tests one setting by itself, and none of the operations modelled here relies on them.
- Directory syncing and file-system errors other than the ones listed: an error there ends the operation in every case.
- MailDns.LookupMailMX: domain-name syntax and full qualification are parameters, and a timeout is a query without an answer.
- Lockout.UserStore.AuthenticateWithIP: one atomic step; two attempts that pass the lock check together are not modelled.
- Outbox.Box.Finish: reading and rewriting the payload is one step.
- AuditLog.Log.Append: what happens when the 64-bit sequence number runs out; runs stop before.
- Failover.RunKeeps: an audit record is written whole or not at all.
- YamlStore.Set: nodes are numbered entries of a store, not heap objects; tags, comments and styles of nodes are not modelled.
- HeaderTheorems.RemovalOrderIrrelevant: for names that differ by more than case; for two spellings of one name see `HeaderCommute`, for more than two there is no closed form here.
