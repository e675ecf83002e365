# Posthaste: a verified model of its convergence, query, session and durability core

Posthaste is a mail client whose near nodes show optimistic state: what the user sees of a message
is always the fold of its pending assertions over the last confirmed base. This project models the
parts of it where an error would lose mail, show a flicker, send twice or hang, and proves what each
part is for over every input and every run. `dafny verify dfyconfig.toml` checks all of it.

Every stateful component has the same three layers: pure step functions on a value that holds the
component's fields; a class (or loop) whose methods do what the source does and are proved equal to
those functions, and besides them field by field on its old and new state; and lemmas about whole runs of the
functions, over any interleaving of calls.

| File | What it models |
|---|---|
| `MessageFold`, `MessageCoalesce`, `SortedSets` | the message fold, diffs for undo and redo, coalescing, and the ordered sets they use |
| `Replica`, `ReplicaRuns` | the convergence engine: base, outbox, confirmations, version gate, and its runs |
| `Tokenizer`, `TokenizerRoundTrip`, `UnquotedValues`, `QueryScopes` | the query tokenizer's loops, two printers it inverts, and scope peeling |
| `ImapSession` | the one IMAP session of an account: leases, IDLE holds, cancellation, poisoning |
| `Breaker`, `Backoff`, `RetryLoop` | the circuit breaker, the backoff arithmetic and the bounded retry loop |
| `Outbox`, `ApplyLedger`, `Rederive`, `AddressBook`, `RevLog` | durable protocols over the store's tables, one SQL statement or transaction a step |
| `BlobId`, `AtomicWrite` | the attachment blob id codec and the concurrent write-then-rename protocol |
| `Wrappers`, `StringOrder`, `Text`, `Numerals` | option and result types, the order on text, trimming and splitting, decimal numerals |

How the world outside enters: clocks, jitter, network replies, file contents and the order in which a
hash map or a query yields its rows are parameters or nondeterministic choices, so every theorem holds
for all of them. Tables are maps or sequences in rowid or key order. Text is a sequence of Unicode
scalar values; SQLite and Rust order it the same way, by code point.

Where the code and its documentation disagree, the model follows the code and a lemma says so exactly:

- "Smallest equivalent sequence" holds for coalescing exactly when the list destroys, holds no diff, or
  has the shortest length already (`CoalesceIsSmallestIff`; `DiffsAreNotSmallest` is a family where it
  fails).
- A settlement's `retired` flag is documented as the removal of the op with that id; it reports that
  some op of the same message retired, and the two agree exactly when the named op goes or nothing does
  (`RetiredFlagIff`, `RetiredFlagIsNotTheNamedOp`).
- A retry bound of one is documented as "no retry"; it allows one (`NeverRetriesIff`).
- The backoff ceiling is documented to grow and then stay at the cap; the attempt number wraps into a
  negative exponent at 2^31 (`CeilingMonotoneIff` for every growing schedule, `DefaultCeilingCollapses`).
- "Pending rows are never collected" holds unless `settle` is itself given `Pending`
  (`SettleKeepsMarkersIff`, `PendingSettleForgetsTheMarker`).
- "Ids are never empty" is what the repair pass relies on to start; it covers every body exactly when
  that is so (`ExaminesEveryBodyIff`).
- Connect backoff gates operations, but IDLE does not look at it again after its sleep, and connects
  early exactly when a connect that failed meanwhile pushed it back (`IdleConnectsEarlyIff`,
  `IdleConnectsEarly`).
- "Both writers succeed, last writer wins" holds for a set of files exactly when none of them has the
  temporary name of a write to another (`AlwaysWholeIff`, `ClashPublishesTheOther`).

## Model

| member | source | states |
|---|---|---|
| `MessageFold.ApplyEdits` | crates/posthaste-replica-core/src/message.rs:180-189 | the edited list is strictly sorted and holds exactly what was kept or added and not removed; a removal beats an addition |
| `MessageFold.ApplyAssertion` | crates/posthaste-replica-core/src/message.rs:175-216 | the loops compute the fold of one assertion that `ReplayPointwise` characterises |
| `MessageFold.ReplayMessage` | crates/posthaste-replica-core/src/message.rs:221-230 | replay is removed exactly when a destroy is in the list, and otherwise every keyword and mailbox is present according to the last assertion that wrote it, or the base |
| `MessageFold.ReplayPointwise` | crates/posthaste-replica-core/src/message.rs:169-230 | the fold means its last writes, for every base and list |
| `MessageFold.FoldCongruence` | crates/posthaste-replica-core/src/message.rs:17-40 | the fold depends on the keyword set and mailbox set only, never on their order |
| `MessageFold.BaseChangeInvisibleIff` | crates/posthaste-replica-core/src/message.rs:169-230 | two bases look the same under a pending list if and only if everything they differ on is written by it, or it destroys the message |
| `MessageFold.CatchUpInvisible` | crates/posthaste-replica-core/src/message.rs:169-230 | the base may absorb any selection of the outbox, in any order and with repeats, and the folded view does not move |
| `MessageFold.DiffIsCanonical` | crates/posthaste-replica-core/src/message.rs:93-127 | a recorded diff is the same for all orderings of both states and is empty exactly when nothing changed |
| `MessageFold.DiffInvertsIff` | crates/posthaste-replica-core/src/message.rs:84-91 | an arbitrary diff is undone by its inverse if and only if everything it adds was absent and everything it only removes was present |
| `MessageFold.RedoReachesLast` | crates/posthaste-replica-core/src/message.rs:99-104 | applying the diffs recorded along any history reaches its last state |
| `MessageFold.UndoRestoresFirst` | crates/posthaste-replica-core/src/message.rs:84-91 | applying their inverses, newest first, restores the first state |
| `MessageFold.UndoInvertsRedo` | crates/posthaste-replica-core/src/message.rs:84-127 | redoing and then undoing a whole history is the identity up to set equality |
| `MessageCoalesce.CoalesceAssertions` | crates/posthaste-replica-core/src/message.rs:238-302 | the coalescing loops yield a list that folds to the original's outcome over every base |
| `MessageCoalesce.CoalescePreservesMeaning` | crates/posthaste-replica-core/src/message.rs:232-237 | coalescing never changes what a list folds to, destroys and diffs included |
| `MessageCoalesce.MergeMeaning` | crates/posthaste-replica-core/src/message.rs:260-289 | the two toggle lists stay disjoint and duplicate-free and hold exactly the last write to each keyword |
| `MessageCoalesce.CoalesceShape` | crates/posthaste-replica-core/src/message.rs:291-302 | without a diff: at most one keyword edit with disjoint distinct lists, then at most one mailbox replace, or a lone destroy |
| `MessageCoalesce.CoalesceIdempotent` | crates/posthaste-replica-core/src/message.rs:238-302 | coalescing twice returns literally the same list as once |
| `MessageCoalesce.EquivalentIff` | crates/posthaste-replica-core/src/message.rs:169-230 | two lists fold alike over every base if and only if both destroy, or neither does and their last writes to every keyword and mailbox agree |
| `MessageCoalesce.ShortestIsReached` | crates/posthaste-replica-core/src/message.rs:232-237 | every list has an equivalent one of the length `Shortest` reads off what it writes |
| `MessageCoalesce.ShortestIsLeast` | crates/posthaste-replica-core/src/message.rs:232-237 | and none, of any assertions, that is shorter |
| `MessageCoalesce.CoalesceIsSmallestIff` | crates/posthaste-replica-core/src/message.rs:232-258 | the documented minimality holds if and only if the list destroys, holds no diff, or already has the shortest length |
| `MessageCoalesce.CoalesceIsSmallest` | crates/posthaste-replica-core/src/message.rs:232-234 | so without a diff no equivalent list of any assertions is shorter |
| `MessageCoalesce.DiffsAreNotSmallest` | crates/posthaste-replica-core/src/message.rs:248-258 | a family on which minimality fails: any diff repeated is returned as it stands though once means the same |
| `Replica.FoldOne` | crates/posthaste-replica-core/src/convergence.rs:352-360 | absorbed exactly when the op is no destroy and everything it writes is so already; an effective op moves every name as it writes it, a destroy moves nothing |
| `Replica.CollectAbsorbed` | crates/posthaste-replica-core/src/convergence.rs:347-361 | the walk over one key's ops collects the ids that `WalkedIff` characterises, in order |
| `Replica.CollectAllowed` | crates/posthaste-replica-core/src/convergence.rs:325-340 | with no base left, every confirmed op of the key whose gate is open is collected |
| `Replica.Engine.constructor` | crates/posthaste-replica-core/src/convergence.rs:112-127 | a new engine is empty |
| `Replica.Engine.SetBase` | crates/posthaste-replica-core/src/convergence.rs:131-133 | replaces one base and nothing else |
| `Replica.Engine.RemoveBase` | crates/posthaste-replica-core/src/convergence.rs:136-138 | drops one base and nothing else; pending ops stay |
| `Replica.Engine.RemovePendingOn` | crates/posthaste-replica-core/src/convergence.rs:154-170 | drops every op of a key with its confirmation and version, and reports whether there was one |
| `Replica.Engine.DropPending` | crates/posthaste-replica-core/src/convergence.rs:180-186 | drops one id with its confirmation and version, and reports whether it was pending |
| `Replica.Engine.AcceptMutation` | crates/posthaste-replica-core/src/convergence.rs:191-196 | a new id is appended at the end, a held one leaves the outbox as it is, and nothing else changes |
| `Replica.Engine.AcceptMutationAt` | crates/posthaste-replica-core/src/convergence.rs:471-476 | records the version first, also over a held id, then accepts |
| `Replica.Engine.SettleMutation` | crates/posthaste-replica-core/src/convergence.rs:209-243 | field by field: a failure drops the id everywhere; a confirmation of a pending id marks it and takes the same ids out of outbox, confirmations and versions; `retired` says whether the outbox changed, `reverted` whether the named op failed while pending |
| `Replica.Engine.MarkConfirmed` | crates/posthaste-replica-core/src/convergence.rs:251-253 | marks any id, pending or not, and retires nothing |
| `Replica.Engine.RetireAbsorbed` | crates/posthaste-replica-core/src/convergence.rs:276-281 | the plain retire is the gated one with no version known |
| `Replica.Engine.RetireAbsorbedAt` | crates/posthaste-replica-core/src/convergence.rs:290-313 | the gate computed for the key's ops retires exactly the ids reported, and exactly those leave outbox, confirmations and versions |
| `Replica.Engine.RetireAbsorbedIf` | crates/posthaste-replica-core/src/convergence.rs:320-370 | two passes: collect by position, then remove from the outbox and from the confirmations, leaving base and versions alone |
| `Replica.Engine.ProjectKey` | crates/posthaste-replica-core/src/convergence.rs:374-383 | nothing without a base; removed exactly when some pending op of the key destroys it; otherwise every keyword and mailbox is as the last op of the key in the outbox to write it left it, or as the base has it |
| `ReplicaRuns.RunValid` | crates/posthaste-replica-core/src/convergence.rs:91-110 | in every reachable engine, pending ids are distinct and versions are recorded for pending ids only |
| `ReplicaRuns.RetirementIsInvisible` | crates/posthaste-replica-core/src/convergence.rs:276-383 | any retire call, plain or gated at any version, leaves every key's projection the same and every other key's ops untouched |
| `ReplicaRuns.KeptFoldsTheSame` | crates/posthaste-replica-core/src/convergence.rs:347-361 | folding only the ops the walk keeps equals folding all of them, for every base |
| `ReplicaRuns.WalkedIff` | crates/posthaste-replica-core/src/convergence.rs:349-361 | the walk retires an id if and only if it may go and is absorbed at its own position |
| `ReplicaRuns.AbsorbedAtIff` | crates/posthaste-replica-core/src/convergence.rs:349-361 | absorbed at its position means: no destroy, and every name the op writes is already what the ops before it, or else the base, leave it |
| `ReplicaRuns.RetiresExactly` | crates/posthaste-replica-core/src/convergence.rs:283-370 | a pending op leaves by a retire call if and only if it is confirmed, its version gate is strictly passed, and its effect is absorbed in place or its base is gone |
| `ReplicaRuns.LeavesOnlyThroughGate` | crates/posthaste-replica-core/src/convergence.rs:154-370 | one step removes a pending op if and only if it is one of the listed ways: a drop, an entity removal, a failure, or a retirement through the gate |
| `ReplicaRuns.LeavingHasACause` | crates/posthaste-replica-core/src/convergence.rs:154-370 | over a run: an op that is gone was pending before some step, not after it, and that step is one of those ways |
| `ReplicaRuns.PendingFollowsAcceptOrder` | crates/posthaste-replica-core/src/convergence.rs:188-196 | the outbox is always a subsequence of the accepted mutations in accept order |
| `ReplicaRuns.QuietRunKeepsView` | crates/posthaste-replica-core/src/convergence.rs:198-313 | over any run of confirmations, retirements, redeliveries and bases that catch up on pending effects, no message's view changes |
| `ReplicaRuns.RetiredFlagIff` | crates/posthaste-replica-core/src/convergence.rs:68-72 | on every confirmation the flag is raised if and only if some op of the key goes, and agrees with its documentation if and only if the named op goes or no other does |
| `ReplicaRuns.RetiredFlagIsNotTheNamedOp` | crates/posthaste-replica-core/src/convergence.rs:223-229 | a store on which they differ: an earlier op of the message is retired and the named one stays |
| `Tokenizer.ScanValueAt` | crates/posthaste-query-grammar/src/tokenizer.rs:201-222 | a value runs to the closing quote or the next white space, and never past the end |
| `Tokenizer.KnownPrefixFrom` | crates/posthaste-query-grammar/src/tokenizer.rs:108-120 | true exactly when the first colon or white space from here is a colon and a known prefix precedes it |
| `Tokenizer.StartsPrefixToken` | crates/posthaste-query-grammar/src/tokenizer.rs:98-121 | true exactly when, after an optional minus, a known prefix in any case and its colon stand here with no colon or white space before it |
| `Tokenizer.StartsNextPrefix` | crates/posthaste-query-grammar/src/tokenizer.rs:123-149 | true exactly when a run of white space here is followed by such a prefix |
| `Tokenizer.ScanPrefixedValueAt` | crates/posthaste-query-grammar/src/tokenizer.rs:65-96 | after the white space: a quoted value to its closing quote, a word to the next white space, nothing before a known prefix, and otherwise the trimmed text up to the first white space that leads into one |
| `Tokenizer.FindColon` | crates/posthaste-query-grammar/src/tokenizer.rs:29-38 | finds the first colon of the word, or none |
| `Tokenizer.ScanToken` | crates/posthaste-query-grammar/src/tokenizer.rs:24-59 | the sign, the prefix up to the first colon of the word, and the value after it, or free text |
| `Tokenizer.Tokenize` | crates/posthaste-query-grammar/src/tokenizer.rs:11-63 | the main loop terminates on every input and yields the token list `RoundTripIff` is about |
| `Tokenizer.TokensCover` | crates/posthaste-query-grammar/src/tokenizer.rs:17-60 | the tokens cover the text: each is the one read where the white space after its predecessor ends, and only white space is left over |
| `Text.TrimIs` | crates/posthaste-query-grammar/src/tokenizer.rs:91-95 | trimming keeps exactly the slice between the white space at both ends |
| `UnquotedValues.SpacedValueReads` | crates/posthaste-query-grammar/src/tokenizer.rs:79-95 | for every prefix that takes spaces, any trimmed text that leads into no other prefix is read as it stands, up to the white space into a known prefix or the end |
| `UnquotedValues.WordReads` | crates/posthaste-query-grammar/src/tokenizer.rs:70-73 | for every other prefix, a word is read as it stands, up to any white space |
| `UnquotedValues.UnquotedTokenReadsBack` | crates/posthaste-query-grammar/src/tokenizer.rs:24-49 | `[-]prefix:value` without quotes is read back with its sign, prefix and value wherever it stands |
| `UnquotedValues.UnquotedListsReadBack` | crates/posthaste-query-grammar/src/tokenizer.rs:11-96 | every list of such tokens in which a known prefix follows each spaced value reads back exactly from its space-joined print |
| `Tokenizer.SpacedValueIsClean` | crates/posthaste-query-grammar/src/tokenizer.rs:65-149 | an unquoted spaced value is trimmed, begins with no known prefix and nowhere holds white space leading into one |
| `TokenizerRoundTrip.PrintedTokenReadsBack` | crates/posthaste-query-grammar/src/tokenizer.rs:11-96 | a printable token anywhere in a text is read back exactly, and reading stops right after it |
| `TokenizerRoundTrip.RoundTripIff` | crates/posthaste-query-grammar/src/tokenizer.rs:11-96 | tokenizing the space-joined print returns the list if and only if every token of it is printable |
| `TokenizerRoundTrip.UnprintableReadsOtherwise` | crates/posthaste-query-grammar/src/tokenizer.rs:11-96 | a token that is not printable is never read back as itself |
| `TokenizerRoundTrip.PlainListsReadBack` | crates/posthaste-query-grammar/src/tokenizer.rs:10-63 | every list of quoted prefixed values and bare words that start with no quote or minus, of any length and with any signs, reads back exactly |
| `TokenizerRoundTrip.PrintInjective` | crates/posthaste-query-grammar/src/tokenizer.rs:11-63 | different printable token lists have different prints |
| `QueryScopes.ParseQueryWithScopes` | crates/posthaste-query-grammar/src/lib.rs:68-99 | one pass splits the tokens and parses the rest, reporting the first failing rule token, or no rule when nothing is left |
| `QueryScopes.ParseQuery` | crates/posthaste-query-grammar/src/lib.rs:51-54 | with no scopes every token is parsed, and nothing to parse is the empty rule |
| `QueryScopes.PeelingSplitsInOrder` | crates/posthaste-query-grammar/src/lib.rs:76-85 | each token lands on exactly one side, at the place its predecessors on that side leave free |
| `QueryScopes.ScopeIff` | crates/posthaste-query-grammar/src/lib.rs:101-106 | a prefix is a scope exactly when it is one of the scopes up to the case of ASCII letters |
| `QueryScopes.NodesConcatenate` | crates/posthaste-query-grammar/src/lib.rs:84 | the nodes of a list are the concatenation of its parts' nodes, and the first error stands |
| `QueryScopes.NodesOfOne` | crates/posthaste-query-grammar/src/lib.rs:76-85 | no token gives no nodes, and one token gives what it parses to |
| `QueryScopes.PeelingAgreesWithRemainder` | crates/posthaste-query-grammar/src/lib.rs:60-63 | peeling in one pass gives the nodes that re-tokenizing a printed remainder would give |
| `Backoff.DelayFor` | crates/posthaste-call-policy/src/backoff.rs:78-82 | the jittered delay is the drawn fraction of the ceiling, truncated to whole milliseconds, with the draw clamped to the unit range |
| `Backoff.CeilingIs` | crates/posthaste-call-policy/src/backoff.rs:65-70 | the ceiling is base times the power of the factor, cut at zero and at the cap and truncated to whole milliseconds |
| `Backoff.PowSum` | crates/posthaste-call-policy/src/backoff.rs:67 | the power is the one its laws determine |
| `Backoff.RetryDelay` | crates/posthaste-call-policy/src/backoff.rs:96-111 | gives up exactly at the bound; otherwise the delay is the larger of the backoff and the Retry-After, uncapped |
| `Backoff.CeilingMonotone` | crates/posthaste-call-policy/src/backoff.rs:65-70 | for any schedule with factor at least one the ceiling never shrinks below attempt 2^31 |
| `Backoff.WrappedCeilingMonotone` | crates/posthaste-call-policy/src/backoff.rs:65-70 | past the wrap of the exponent the ceiling climbs again, for any schedule with factor at least one |
| `Backoff.CeilingMonotoneIff` | crates/posthaste-call-policy/src/backoff.rs:63-70 | for any such schedule the ceiling never shrinks on the first n attempts if and only if n is at most 2^31 or the one step across the wrap is no fall |
| `Backoff.DefaultCeilingCollapses` | crates/posthaste-call-policy/src/backoff.rs:65-70 | at attempt 2^31 the default ceiling falls from 30 seconds to zero |
| `Backoff.DefaultCeilingMonotoneIff` | crates/posthaste-call-policy/src/backoff.rs:54-70 | so the default ceiling never shrinks on the first n attempts if and only if n is at most 2^31 |
| `Breaker.Registry.AdmitCall` | crates/posthaste-provider-call/src/breaker.rs:83-102 | phase by phase: closed admits, half open refuses, open admits exactly when the cooldown has passed and then becomes half open; nothing else changes |
| `Breaker.Registry.RecordOutcome` | crates/posthaste-provider-call/src/breaker.rs:107-131 | a success closes at zero; a failure counts one more while closed and below the threshold, and opens the account now otherwise |
| `Breaker.PhaseCountsFailures` | crates/posthaste-provider-call/src/breaker.rs:104-131 | over any interleaving, closed holds exactly while fewer failures than the threshold followed the last success, and carries their exact number |
| `Breaker.AdmittedIff` | crates/posthaste-provider-call/src/breaker.rs:88-101 | read off the events alone: a call is admitted if and only if fewer failures than the limit followed the last success, or a cooldown has passed since the last failure and no earlier call came past it |
| `Breaker.ProbedMeansAdmitted` | crates/posthaste-provider-call/src/breaker.rs:90-100 | of the calls after the failure that tripped an account, the first past the cooldown is admitted and no other |
| `Breaker.AccountsAreIndependent` | crates/posthaste-provider-call/src/breaker.rs:3-9 | over any interleaving, an account's phase and the fate of its next call are what its own events alone would make them |
| `Breaker.DisabledTracksNothing` | crates/posthaste-provider-call/src/breaker.rs:23-25 | with the breaker off every call is admitted and nothing is ever stored |
| `Breaker.SingleProbe` | crates/posthaste-provider-call/src/breaker.rs:88-101 | after a probe is admitted no call of that account is admitted until one of its calls records |
| `Breaker.ProbesAreSpaced` | crates/posthaste-provider-call/src/breaker.rs:90-97 | two probes of an account without a success between them are at least one cooldown apart |
| `RetryLoop.RunLoop` | crates/posthaste-provider-call/src/executor.rs:190-210 | the loop terminates and its result, attempts and sleeps are those the next three rows bound |
| `RetryLoop.Execute` | crates/posthaste-provider-call/src/executor.rs:178-213 | a rejected call makes no attempt and records nothing; an admitted one records its outcome exactly once |
| `RetryLoop.LoopStopsWhereItShould` | crates/posthaste-provider-call/src/executor.rs:190-210 | at most max_attempts + 1 attempts, all but the last transient, and the result is the first success, the first permanent error or the last transient error allowed |
| `RetryLoop.SleepsAreExact` | crates/posthaste-provider-call/src/executor.rs:198-206 | each sleep is the delay decided for that attempt, so at least its Retry-After and its jittered backoff |
| `RetryLoop.TotalSleepBounded` | crates/posthaste-provider-call/src/executor.rs:198-206 | without Retry-After a call sleeps at most max_attempts times the cap in all |
| `RetryLoop.NeverRetriesIff` | crates/posthaste-call-policy/src/backoff.rs:28-30 | no script ever leads to a second attempt if and only if the bound is zero |
| `ImapSession.Manager.constructor` | crates/posthaste-imap/src/session.rs:168-186 | a new slot has no client and no backoff |
| `ImapSession.Manager.DropClient` | crates/posthaste-imap/src/session.rs:485-495 | dropping the client also forgets the standing EXAMINE |
| `ImapSession.Manager.SweepDirty` | crates/posthaste-imap/src/session.rs:338-349 | a slot left dirty loses its client before anyone uses it |
| `ImapSession.Manager.ConnectInto` | crates/posthaste-imap/src/session.rs:351-415 | field by field: success gives a fresh client at a new epoch and clears the backoff; failure counts up to saturation and stamps the next connect time from the count before it |
| `ImapSession.Manager.AcquireLocked` | crates/posthaste-imap/src/session.rs:205-223 | leases if and only if the slot had a client and was clean, and then the same client at the next epoch with no connect; otherwise a connect starts if and only if the backoff is over |
| `ImapSession.Manager.AcquireAfterConnect` | crates/posthaste-imap/src/session.rs:219-223 | a successful connect is leased at once; a failed one frees the slot and stamps the backoff |
| `ImapSession.Manager.FinishLease` | crates/posthaste-imap/src/session.rs:460-495 | the slot is clean and free, with its client and standing EXAMINE unless the result was connection-fatal |
| `ImapSession.Manager.IdleLocked` | crates/posthaste-imap/src/session.rs:234-256 | a clean client goes straight to IDLE if its EXAMINE stands and to EXAMINE otherwise; without one a connect starts unless the backoff runs and nobody has slept |
| `ImapSession.Manager.IdleAfterConnect` | crates/posthaste-imap/src/session.rs:250-256 | a successful connect goes on to EXAMINE; a failed one frees the slot and stamps the backoff |
| `ImapSession.Manager.StartHold` | crates/posthaste-imap/src/session.rs:273-289 | EXAMINE is skipped exactly when the last one was made at the current epoch |
| `ImapSession.Manager.IdleAfterExamine` | crates/posthaste-imap/src/session.rs:281-289 | a successful EXAMINE is remembered at the current epoch and IDLE follows; a failed one discards the session |
| `ImapSession.Manager.IdleFinished` | crates/posthaste-imap/src/session.rs:257-270 | an ended hold leaves a clean slot with its client and standing EXAMINE, a failed one discards the session |
| `ImapSession.StepSafe` | crates/posthaste-imap/src/session.rs:197-349 | every step of every holder keeps the slot's invariant and emits only good events |
| `ImapSession.SessionSafety` | crates/posthaste-imap/src/session.rs:197-349 | over every interleaving of operations, holds, failures and cancellations: every lease is connected and between commands, IDLE is issued only while the watch mailbox is selected on the wire, operations never connect early, and at most one connection is alive |
| `ImapSession.FreshIsSafe` | crates/posthaste-imap/src/session.rs:175-182 | a new manager satisfies the invariant for every watch mailbox |
| `ImapSession.HealthyRunReuses` | crates/posthaste-imap/src/session.rs:141-143 | over any run of operations and holds that end in order no connect starts: the one session is reused |
| `ImapSession.NextHolderGetsTheSession` | crates/posthaste-imap/src/session.rs:197-289 | after such a run the next acquire leases the live session at once, and the next hold goes to IDLE or EXAMINE, with no connect |
| `ImapSession.CleanFinishHandsOver` | crates/posthaste-imap/src/session.rs:460-473 | in every safe state, a lease finished without a connection-fatal result hands its session to the next acquire |
| `ImapSession.StandingExamineMatchesIff` | crates/posthaste-imap/src/session.rs:278-289 | a skipped EXAMINE is right if and only if the hold asks for the mailbox the last one selected |
| `ImapSession.OtherMailboxIsNotSelected` | crates/posthaste-imap/src/session.rs:278-289 | a legal run from a new slot, for any two mailboxes, in which IDLE is issued for one while the other is selected |
| `ImapSession.CancelledSessionIsDiscarded` | crates/posthaste-imap/src/session.rs:337-349 | a holder cancelled mid-protocol never hands its session on, to an operation or to IDLE |
| `ImapSession.BackoffIsCapped` | crates/posthaste-imap/src/session.rs:397-402 | one failed connect blocks operations for at most 30 seconds |
| `ImapSession.BackoffAfter` | crates/posthaste-imap/src/session.rs:379-415 | over any run the next connect time is the stamp of the last connect to finish, if it failed, and no client appears without a success |
| `ImapSession.IdleConnectsEarlyIff` | crates/posthaste-imap/src/session.rs:240-253 | a hold that found the backoff running and wakes no earlier than it ended connects early if and only if, of the connects finished meanwhile, the last failed with a stamp past the moment it wakes |
| `ImapSession.IdleConnectsEarly` | crates/posthaste-imap/src/session.rs:240-253 | and it happens: a run from a new slot in which IDLE connects at 251 ms though the backoff runs until 750 |
| `Outbox.Store.constructor` | crates/posthaste-store/src/outbox.rs:184 | a new outbox is empty |
| `Outbox.Store.EnqueueOperation` | crates/posthaste-store/src/outbox.rs:185-218 | a row with a new id becomes the last one, a known id leaves the table as it is |
| `Outbox.Store.ListFlushable` | crates/posthaste-store/src/outbox.rs:220-260 | the scan stops at the limit with the list `FlushListIsFirstReady` characterises |
| `Outbox.Store.UpdateWhere` | crates/posthaste-store/src/outbox.rs:489-499 | one pass over the rows changes those of the id that pass the guard, and counts some exactly when there are any |
| `Outbox.Store.DeleteWhere` | crates/posthaste-store/src/outbox.rs:511-520 | one pass drops the rows of the id that pass the guard, counts them exactly, and leaves the rest in place and in order |
| `Outbox.Store.ClaimForFlush` | crates/posthaste-store/src/outbox.rs:478-500 | row by row: pending and inflight rows of the id become inflight with everything else kept, and true is reported exactly when there is one |
| `Outbox.Store.RemoveUnlessInflight` | crates/posthaste-store/src/outbox.rs:502-521 | exactly the rows of the id that are neither inflight nor applied go, and true is reported exactly when the table shrank |
| `Outbox.Store.ReplacePayload` | crates/posthaste-store/src/outbox.rs:371-394 | row by row: a pending row of the id takes the payload and starts over with no attempts and no error; true is reported exactly when there is one |
| `Outbox.Store.UpdateState` | crates/posthaste-store/src/outbox.rs:346-369 | row by row: state, attempts and error of the id change whatever its state was, and nothing else does |
| `Outbox.Store.MarkSettled` | crates/posthaste-store/src/outbox.rs:419-439 | row by row: the id stays in its place as applied, with its time and watermark |
| `Outbox.Store.ReconcileEntityId` | crates/posthaste-store/src/outbox.rs:396-417 | row by row: the rows of the account on the stale entity move to the live one, in any state |
| `Outbox.Store.RemoveOperation` | crates/posthaste-store/src/outbox.rs:474-476 | exactly the rows of the id go, in any state |
| `Outbox.RunUnique` | crates/posthaste-store/src/outbox.rs:189-191 | ids stay unique over every run |
| `Outbox.ExactlyOneWins` | crates/posthaste-store/src/outbox.rs:479-488 | of a claim and a cancel of one pending row, whichever lands first wins, and the other reports false and leaves the table as it is |
| `Outbox.CancelledIsNeverClaimed` | crates/posthaste-store/src/outbox.rs:502-521 | after a cancel that returned true no later claim of that id succeeds, over any interleaving, until it is enqueued again |
| `Outbox.ClaimOpensWindow` | crates/posthaste-store/src/outbox.rs:478-500 | a successful claim leaves the row inflight with the payload it had |
| `Outbox.ClaimPinsPayload` | crates/posthaste-store/src/outbox.rs:371-394 | from a claim until the next state change the payload is fixed, and every cancel and every swap reports false |
| `Outbox.FlushListIsFirstReady` | crates/posthaste-store/src/outbox.rs:234-242 | a row is the k-th of the list exactly when it is of the account, pending or inflight and due on both clocks, and k < 200 such rows were enqueued before it |
| `Outbox.NeverFlushed` | crates/posthaste-store/src/outbox.rs:227-242 | failed, applied and parked operations and holds not due on their own clock never appear |
| `ApplyLedger.Ledger.constructor` | crates/posthaste-store/src/apply_ledger.rs:85 | a new ledger is empty |
| `ApplyLedger.Ledger.ReserveKey` | crates/posthaste-store/src/apply_ledger.rs:91-140 | rows settled more than 30 days ago go; a row that is left is reported as it is; otherwise a pending marker is inserted and Reserved reported; every other row stays |
| `ApplyLedger.Ledger.SettleKey` | crates/posthaste-store/src/apply_ledger.rs:145-164 | the row gets exactly the given state, outcome and time and keeps its name and creation time; every other row stays, and a missing row is left missing |
| `ApplyLedger.Ledger.ClearKey` | crates/posthaste-store/src/apply_ledger.rs:168-183 | removes one key's row and no other |
| `ApplyLedger.HeldUntilReleased` | crates/posthaste-store/src/apply_ledger.rs:91-183 | until its record is released, the row of a reserved key is exactly the record of its own calls |
| `ApplyLedger.RecordIs` | crates/posthaste-store/src/apply_ledger.rs:91-164 | that record is the reservation's name and time with the decision of the last settle of the key since, or none |
| `ApplyLedger.RedeliveryFindsTheRecord` | crates/posthaste-store/src/apply_ledger.rs:9-12 | a redelivery inside the window never executes: it is answered with the name it was reserved under and the state and outcome of the last settle since, or the unresolved marker |
| `ApplyLedger.ExecutesAgainIff` | crates/posthaste-store/src/apply_ledger.rs:98-137 | the next reservation of a key executes if and only if its record was cleared or outlived in between |
| `ApplyLedger.AppliedAtMostOnce` | crates/posthaste-store/src/apply_ledger.rs:14-19 | two executions of one key are separated by a clear of it, or by a settle of it more than 30 days before a later reservation, whatever the clocks do |
| `ApplyLedger.OthersNeverInterfere` | crates/posthaste-store/src/apply_ledger.rs:98-121 | a key's row is the same whatever other keys and scopes do; only the times of reservations reach it |
| `ApplyLedger.RunSound` | crates/posthaste-store/src/apply_ledger.rs:32-43 | while settles are terminal, pending rows are exactly the rows with no settle time |
| `ApplyLedger.MarkerBlocks` | crates/posthaste-store/src/apply_ledger.rs:17-19 | an unsettled row survives every collection and keeps answering until its own key is settled or cleared |
| `ApplyLedger.SettleKeepsMarkersIff` | crates/posthaste-store/src/apply_ledger.rs:142-160 | pending rows stay safe from collection through a settle if and only if it hits no row, is terminal, or lies within the retention of the end of the clock |
| `ApplyLedger.PendingSettleForgetsTheMarker` | crates/posthaste-store/src/apply_ledger.rs:17-19 | a concrete run in which a pending row is collected and its operation executes twice |
| `Rederive.Repair.CachedRawBodiesAfter` | crates/posthaste-store/src/derived_metadata.rs:201-228 | at most 200 cached bodies past the cursor, in key order, all of them when fewer, and every one left out lies past the last |
| `Rederive.Repair.FillDerivedMetadata` | crates/posthaste-store/src/derived_metadata.rs:113-137 | column by column: a blank one takes its own derived recipients as a JSON array in order, or the unsubscribe targets, and every other stays; true exactly when the message changed |
| `Rederive.Repair.ApplyBatch` | crates/posthaste-store/src/derived_metadata.rs:234-266 | the counts of one page are exact, and skipping a page with nothing derived loses nothing |
| `Rederive.Repair.RederiveMessageMetadata` | crates/posthaste-store/src/derived_metadata.rs:179-197 | the paginated loop terminates and equals one fill over all cached bodies after the start, with exact counts |
| `Rederive.NextCursor` | crates/posthaste-store/src/derived_metadata.rs:182-193 | moving the cursor to a page's last row leaves exactly the rows past the page |
| `Rederive.ExaminesEveryBodyIff` | crates/posthaste-store/src/derived_metadata.rs:199-200 | the pass examines every cached body once and in key order if and only if none is stored under two empty ids |
| `Rederive.RowResult` | crates/posthaste-store/src/derived_metadata.rs:254-263 | a message ends with its first columns filled from its own body and no other |
| `Rederive.PassNeverOverwrites` | crates/posthaste-store/src/derived_metadata.rs:108-112 | no column that held anything is overwritten, and none is emptied |
| `Rederive.FilledIsExact` | crates/posthaste-store/src/derived_metadata.rs:83-89 | the reported count is the number of messages that gained a column |
| `Rederive.UnreadableIsExact` | crates/posthaste-store/src/derived_metadata.rs:89-93 | the other count is the number of bodies whose file yields nothing |
| `Rederive.SecondPassFillsNothing` | crates/posthaste-store/src/derived_metadata.rs:169-174 | an immediate second pass changes nothing and reports no fill |
| `Rederive.NoBodyTwice` | crates/posthaste-store/src/derived_metadata.rs:182-184 | however the table changes between pages, examined keys only ascend and none comes twice |
| `Rederive.StayingBodyIsExamined` | crates/posthaste-store/src/derived_metadata.rs:182-184 | a body cached throughout is examined by some page, whatever else is written meanwhile |
| `AddressBook.CacheableIff` | crates/posthaste-store/src/sender_cache.rs:255-267 | an address is kept exactly when it has one '@' with text on both sides and no '*' or white space |
| `AddressBook.CollectCandidates` | crates/posthaste-store/src/sender_cache.rs:136-169 | the aggregation loop computes the map `AggregateIsExact` characterises |
| `AddressBook.AddressStore.constructor` | crates/posthaste-store/src/sender_cache.rs:59 | a new address book is empty |
| `AddressBook.AddressStore.BackfillAddressBook` | crates/posthaste-store/src/sender_cache.rs:71-101 | upserting the candidates in any order gives one and the same merged book |
| `AddressBook.AddressStore.UpsertAddress` | crates/posthaste-store/src/sender_cache.rs:176-203 | the one entry touched gets the trimmed spelling, one more occurrence, the later of the two times and the new name if there is one; an address that is not cacheable changes nothing |
| `AddressBook.AddressStore.RememberSender` | crates/posthaste-store/src/sender_cache.rs:41-56 | a send raises the count of its own correspondent by one and of no one else |
| `AddressBook.AddressStore.HarvestMessage` | crates/posthaste-store/src/sender_cache.rs:209-237 | the loop over the sender and then the recipients leaves every entry as the upsert of its first mention does, or as it was |
| `AddressBook.AggregateIsExact` | crates/posthaste-store/src/sender_cache.rs:103-169 | a correspondent is aggregated if and only if it occurs, with the exact count, the latest time, the first spelling, and the name of the last of its most recent named occurrences |
| `AddressBook.ScanOrderOnlyDecidesNames` | crates/posthaste-store/src/sender_cache.rs:108-124 | counts and times are the same for every order in which the mail is scanned |
| `AddressBook.BackfillResult` | crates/posthaste-store/src/sender_cache.rs:78-88 | a backfill leaves the larger count, the later time, the scanned spelling and the scanned name or else the old one, adds whom it found and touches no one else |
| `AddressBook.BackfillTwice` | crates/posthaste-store/src/sender_cache.rs:65-68 | running the backfill twice over unchanged mail equals running it once |
| `AddressBook.RunGrows` | crates/posthaste-store/src/sender_cache.rs:65-68 | over any interleaving of ingest, sends and backfills no count and no last-seen time goes down |
| `AddressBook.RerunNeverDoubleCounts` | crates/posthaste-store/src/sender_cache.rs:65-70 | a later backfill of the same mail, after any other work, changes no count and no last-seen time |
| `AddressBook.HarvestCountsOnce` | crates/posthaste-store/src/sender_cache.rs:205-208 | a message raises the count of each correspondent it names by exactly one, and of no one else |
| `AddressBook.HarvestIsFirstUpsert` | crates/posthaste-store/src/sender_cache.rs:205-236 | the first mention of a correspondent in a message decides its entry, and entries not mentioned stay |
| `RevLog.Database.constructor` | crates/posthaste-store/src/rev_log.rs:40 | a new log is empty |
| `RevLog.Database.AppendStep` | crates/posthaste-store/src/rev_log.rs:44-107 | a known step changes nothing; a new one becomes the last row, numbered one past the largest of its account or 1, and the account's cursor stands on it with nothing to redo |
| `RevLog.Database.MoveCursor` | crates/posthaste-store/src/rev_log.rs:170-188 | the account's cursor gets the given step and redo tail; rows and other cursors stay |
| `RevLog.Database.EvictOldest` | crates/posthaste-store/src/rev_log.rs:195-222 | evicts the rows `EvictKeepsNewest` describes and reports how many |
| `RevLog.RunOrdered` | crates/posthaste-store/src/rev_log.rs:41-43 | numbers are positive and rise along every account's log, and step ids are distinct, over every run |
| `RevLog.EvictKeepsNewest` | crates/posthaste-store/src/rev_log.rs:211-219 | exactly the newest max_steps steps of the account remain, in order, and other accounts keep theirs |
| `RevLog.NextSeqFallsIff` | crates/posthaste-store/src/rev_log.rs:68-74 | the next number falls in one step if and only if an eviction with limit zero empties a log |
| `RevLog.SequenceNumbersRise` | crates/posthaste-store/src/rev_log.rs:68-87 | with limits of at least one every assigned number exceeds all earlier ones, even of evicted steps |
| `RevLog.LimitZeroReusesNumbers` | crates/posthaste-store/src/rev_log.rs:208-219 | with limit zero two different steps are both numbered 1 |
| `RevLog.RedeliveryIsIdempotent` | crates/posthaste-store/src/rev_log.rs:41-43 | while a step stays in the log, delivering it again changes neither log nor cursor and reports its first number |
| `RevLog.CurrentSurvives` | crates/posthaste-store/src/rev_log.rs:89-104 | the step an append makes current is retained and current until the next append or cursor move of the account |
| `RevLog.SurvivesEvictionIff` | crates/posthaste-store/src/rev_log.rs:190-194 | a step a cursor may stand on outlives an eviction if and only if it is among the newest max_steps |
| `BlobId.ParseIff` | crates/posthaste-imap/src/body.rs:163-195 | the parser accepts exactly the spellings of an attachment: hex in either case of valid UTF-8, an optional plus, leading zeros, a number from 1 to the largest usize |
| `BlobId.HexDecodeIff` | crates/posthaste-imap/src/body.rs:183-184 | hexadecimal decoding accepts exactly what encoding prints, in either case |
| `BlobId.HexEncodeAt` | crates/posthaste-imap/src/body.rs:244-249 | each byte is printed as two lower-case digits, most significant first |
| `BlobId.AccumulateIff` | crates/posthaste-imap/src/body.rs:187-189 | overflow-checked accumulation succeeds exactly on digits whose unbounded value fits |
| `BlobId.RoundTrip` | crates/posthaste-imap/src/body.rs:244-250 | parsing a printed blob id returns its message id and index + 1, for every index whose successor fits |
| `BlobId.PrintInjective` | crates/posthaste-imap/src/body.rs:244-250 | two attachments never share a blob id |
| `BlobId.ReprintsIff` | crates/posthaste-imap/src/body.rs:163-250 | an accepted id prints back as itself if and only if it is lower case without a plus or leading zero |
| `BlobId.AcceptedButNeverPrinted` | crates/posthaste-imap/src/body.rs:183-189 | an id the parser accepts and the printer never writes |
| `AtomicWrite.Disk.constructor` | crates/posthaste-config/src/atomic.rs:13 | a process starts its counter at zero |
| `AtomicWrite.Disk.Write` | crates/posthaste-config/src/atomic.rs:20-47 | alone, success replaces the target and leaves no temporary file; a failure at any call leaves every other file as it was |
| `AtomicWrite.TempInjective` | crates/posthaste-config/src/atomic.rs:26-31 | two temporary names are equal only for one process and one number |
| `AtomicWrite.NextInv` | crates/posthaste-config/src/atomic.rs:35-45 | every step of any number of writers in any number of processes, but a rename onto another live writer's temporary file, keeps each temporary file its own and as far written as its stage says |
| `AtomicWrite.TempUntouched` | crates/posthaste-config/src/atomic.rs:8-12 | whatever the targets are, no step of another writer touches a writer's temporary file, except a rename whose target it is, and then it holds that writer's content |
| `AtomicWrite.RenameFindsItsFile` | crates/posthaste-config/src/atomic.rs:8-12 | in every run without such a rename, a rename never misses its temporary file and publishes the writer's complete content |
| `AtomicWrite.EndingCleansUp` | crates/posthaste-config/src/atomic.rs:33-45 | a writer that ends by its rename, or by removing its file after a failure, leaves no temporary file |
| `AtomicWrite.TargetIsAlwaysWhole` | crates/posthaste-config/src/atomic.rs:15-17 | at every moment of such a run, a file that is no live writer's temporary file holds its initial bytes or exactly the content of the writer that renamed last |
| `AtomicWrite.AlwaysWholeIff` | crates/posthaste-config/src/atomic.rs:15-31 | for any set of target files: readers see every one of them whole in every run that writes only them if and only if none has the temporary name of a write to another |
| `AtomicWrite.ClashPublishesTheOther` | crates/posthaste-config/src/atomic.rs:26-40 | a run that shows the condition is needed: a second writer whose target is the first one's temporary file makes the first target end with the second content |

## Left out

- The generic `Convergence` trait: the engine is modelled at the message fold, its one instance in the repository.
- The durable overlay store, the flush loop, sync deletions, the projection compiler and cache scoring: their bodies would only add per-branch facts.
- Network clients, TLS, WebSocket, SSE, SMTP, MIME parsing, tokio timers, SQLite itself, logging and the front end: I/O or library wrappers. One SQL statement or one write transaction is one atomic step.
- Store errors: a statement that fails leaves the table as it was and is not a step of the model.
- `Backoff.DelayFor`: does not model NaN or double rounding, because durations are exact reals in milliseconds, truncated where the source truncates.
- `Backoff.RetryDelay`: a Retry-After is a whole number of milliseconds here, because the model keeps durations in them; finer ones are not modelled.
- `ImapSession.SessionSafety`: does not model the 64-bit wrap of the session epoch, because it is an unbounded counter here; it assumes one watch mailbox a manager (`StandingExamineMatchesIff` says why) and that a result not classified as connection-fatal leaves no command outstanding on the wire.
- The recall notification, the kinds of a finished hold (activity, recall, re-issue) and the error classifiers: they decide who gets the lock when, and every order of holders is covered.
- `Breaker.SingleProbe`: no liveness is claimed, because a cancelled half-open probe never records and leaves the account half open.
- The read-only phase view of the breaker: it only forgets when the circuit opened.
- `QueryScopes.ParseQueryWithScopes`: takes the parsing of one token as a parameter, because date tokens read the clock; the prefixes `to` and `recipient`, which that parser accepts, are not known prefixes of the tokenizer and do not end a spaced value.
- `QueryScopes.ParseQuery`: the same parameter, for the same reason.
- Outbox columns no guard reads (kinds, payload version, wall times), the draft and send alias tables, and the listings that only filter by state.
- `Replica.Engine.AcceptMutationAt`: the overwritten version of a held id is kept as the code has it; no claim is made that it is the intended gate.
- A base equal to the net effect of an add and a later remove does not retire the pair; absorption is judged op by op, and `RetiresExactly` states it so.
- `AtomicWrite.TargetIsAlwaysWhole`: excludes runs in which a target is another live writer's temporary file, which breaks it (`ClashPublishesTheOther`); it does not model power loss after a rename, creation of the parent directory, or the 64-bit wrap of the counter; process ids are unique among live processes and may be reused after an exit.
- `AddressBook.AggregateIsExact`: takes the rows of the SQL scan as its input; extracting recipients from stored JSON is not part of this model. Backfill counts occurrences and ingest counts messages, so no equality of the two is claimed.
- `Rederive.Repair.RederiveMessageMetadata`: the derivation of columns from a raw file is a parameter, fixed during a pass, and the revision marker that skips a repeated pass is left out.
- `RevLog.SequenceNumbersRise`: is about stored numbers; the reported number is the stored one modulo 2^32, and the 64-bit bound of the column is not modelled.
