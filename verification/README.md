# PortAuth, verified

A Dafny model of the parts of PortAuth that carry a guarantee: which delegations are accepted, how
quotas are consumed, what a receiver does with a task, and what its signatures cover. The modules follow
the services of the repository.

- **Globs and constraints** (`Glob`, `GlobRefinement`, `GlobSoundness`, `GlobExact`, `GlobRuns`,
  `GlobLaws`, `Constraints`, `ConstraintLaws`, `Attenuation`, `AttenuationAccepts`, `AttenuationExact`,
  `DelegationChain`). A checker decides from the text of two credentials whether one narrows the other;
  a separate evaluator decides requests. The project proves under exactly which condition what the
  checker accepts lets nothing through that the parent would refuse, along whole chains. The repository
  calls the glob check sound without reservation (delegationVerifier.js, lines 324-327); the code is
  not, and the lemmas ending in `Unsound` give the inputs. The restricted-glob check is a decision
  procedure for language inclusion that tests one sentinel string; the evaluator compiles a regular
  expression. The two are connected by a third definition, matching segment by segment. For each
  constraint type `AttenuationExact` says over which fields, zones and clocks an accepted pair is sound.
- **Stateful reservations** (`Reservations`, `ReservationRuns`, `SqlReservations`, `SqlStore`,
  `SqlProgress`, `CounterKeys`, `Quotas`). The in-memory store is the specification. The SQL store is a
  state machine whose steps are single statements of any number of transactions holding row locks; every
  schedule is shown to be a serial run of the in-memory store. Transactions that overlap must differ in
  idempotency key, and a schedule shows why. Counter keys are hashes; when two limits share one, in a
  credential or along a chain, is stated exactly.
- **Receiver** (`TaskStore`, `Receiver`, `Answers`, `Retries`, `Consumption`). Handlers sharing a task
  store are interleaved between their awaits. A store call may fail after it was applied, an engine
  reply may be lost or replaced by a gateway's, and requests may be retried. Creation, replay and
  finality are proved for every interleaving. `Consumption` runs the receiver and the engine's SQL
  transactions together: consumption is exactly once while no two transactions of one key overlap, and a
  run shows how an impatient gateway makes them overlap.
- **Evaluation routes** (`LocalPolicy`, `Evaluate`, `ConcurrentRoutes`). The stages in order, with the
  reservation last and the audit row after it, over whole runs and for chains.
- **Canonical JSON** (`JsonText`, `CanonicalJson`, `JsonEquality`, `GovernanceManifest`, `AuditLog`,
  `AuditSweep`). Values over UTF-16 code units, the three sorted-key printers, and a parser that undoes
  them. Equality of texts is equality up to key order, from which manifest acceptance and audit
  verification follow, in both directions.
- **Status lists and migrations** (`StatusList`, `Migrations`). Bits packed in place and read back; one
  transaction per migration with its ledger row.

What the environment supplies is a parameter: the JavaScript host (`Host`: times of day, numbers, dates,
the local clock of a zone), the resolved fields of a request (`Context`), the counter key of a
constraint (`KeyFor`, filled in by `CounterKeys`), SHA-256 (`Sha`, assumed free of collisions only
between the materials compared), the outcome of verifying each credential, and the metric of each
counter key. With `hour12: false` some runtimes print midnight as hour 24: the range of minutes a clock
shows is the parameter `Minutes`.

Preconditions that recur: `Restates` says that a delegate keeps the field, sets every bound and the zone
its parent sets, and keeps a non-empty day list and the lists; `GlobCovered` and `InFragment` delimit
the glob fragment; `GoodCall` and `WellFormedCalls` say that the counter keys of one call are distinct
and of the hashed form, which `CounterKeys.DistinctKeysExactly` and `CounterKeys.IdsKeepApart` turn into
conditions on the credential; `Separated` says that overlapping keyed transactions differ in key, and
`Consumption.Apart` the same of the handlers that asked for them.

Check everything with `dafny verify dfyconfig.toml`.

## Model

| member | source | states |
|---|---|---|
| `Glob.ExpressionIsSegmentMatch` | `portauth-engine/src/services/constraintEvaluator.js:249-261` | the evaluator's anchored expression for a pattern of whole-segment `**` matches a string exactly when the segments match one by one, `**` taking one or more segments |
| `Glob.EvaluatorMatchesBySegments` | `portauth-engine/src/services/constraintEvaluator.js:249-261` | the same for any pattern and string given whole, cut at their slashes |
| `GlobLaws.StarMatches` | `portauth-engine/src/services/constraintEvaluator.js:257` | one star matches exactly the texts without a slash |
| `GlobLaws.DotStarMatches` | `portauth-engine/src/services/constraintEvaluator.js:258` | two stars match exactly the texts without a line terminator |
| `GlobLaws.SequenceMatches` | `portauth-engine/src/services/constraintEvaluator.js:259` | a sequence of expressions matches exactly the texts that can be cut between them |
| `GlobLaws.StarsBecome` | `portauth-engine/src/services/constraintEvaluator.js:255-258` | in a run of stars each pair crosses slashes and an odd one out, the last, does not |
| `GlobRefinement.TokenizeSegment` | `portauth-engine/src/services/delegationVerifier.js:395-412` | the buffered scan yields non-empty literals without stars, no two tokens of a kind adjacent, that spell the segment once adjacent stars are collapsed |
| `GlobRefinement.TokensSpell` | `portauth-engine/src/services/delegationVerifier.js:395-412` | the tokens of any segment are maximal and spell it with repeated stars collapsed |
| `GlobRefinement.SegmentSubsetLoop` | `portauth-engine/src/services/delegationVerifier.js:339-373` | the two-index loop ends on every pair of segment lists and computes the recursive alignment, `**` absorbing zero or more delegate segments |
| `GlobRefinement.AnySuffixSubset` | `portauth-engine/src/services/delegationVerifier.js:348-357` | the inner loop over `k` finds a suffix of the delegate for the rest of the parent exactly when there is one |
| `GlobRefinement.ReplaceSentinel` | `portauth-engine/src/services/delegationVerifier.js:430-434` | a parent that accepts the delegate with a letter it never spells at each star accepts the delegate with any slash-free text there |
| `GlobRefinement.SentinelExact` | `portauth-engine/src/services/delegationVerifier.js:430-434` | with a letter the parent does not spell, one test string decides inclusion of every slash-free string of the delegate, both ways |
| `GlobRefinement.TokenSubsetIsInclusion` | `portauth-engine/src/services/delegationVerifier.js:414-441` | when `x` is not a letter of the parent, the segment test is language inclusion together with the star-count bound |
| `GlobRefinement.LiteralTestRedundant` | `portauth-engine/src/services/delegationVerifier.js:430-434` | the literals-only test follows from the sentinel test in that case |
| `GlobRefinement.TokensAgree` | `portauth-engine/src/services/delegationVerifier.js:443-447` | on segments without adjacent stars the checker's expression is the evaluator's |
| `GlobSoundness.DominatesSound` | `portauth-engine/src/services/delegationVerifier.js:339-373` | a segment cover with each `**` absorbing at least one segment makes every match of the delegate a match of the parent |
| `GlobSoundness.SegmentTest` | `portauth-engine/src/services/delegationVerifier.js:414-441` | on single-star segments the token test is: the parent's expression accepts the delegate with its stars removed and with `x` for each, and the delegate has no more stars |
| `GlobSoundness.AcceptedGlobSoundExactly` | `portauth-engine/src/services/delegationVerifier.js:329-373` | for an accepted pair in the whole-segment fragment: the delegate's expression is included in the parent's if and only if the parent's expression accepts the delegate with one letter foreign to it at its stars |
| `GlobSoundness.AcceptedGlobSoundBySegments` | `portauth-engine/src/services/delegationVerifier.js:329-447` | with one `**` in the parent and no `x` under a starred delegate segment, an accepted pair is sound if and only if the delegate has at least as many segments |
| `GlobSoundness.SentinelLetterUnsound` | `portauth-engine/src/services/delegationVerifier.js:433` | `*x` is accepted as a refinement of `x*` although it matches more |
| `GlobSoundness.EmptyAbsorptionUnsound` | `portauth-engine/src/services/delegationVerifier.js:348-371` | plain text is accepted as a refinement of itself followed by `/**`, which does not match it |
| `GlobSoundness.DoubledStarUnsound` | `portauth-engine/src/services/delegationVerifier.js:402-405` | a doubled star inside a segment is collapsed by the checker and crosses separators in the evaluator |
| `GlobExact.SlashFreeSoundExactly` | `portauth-engine/src/services/delegationVerifier.js:395-441` | a parent without separators, doubled stars anywhere in it included, matches all a delegate matches if and only if its expression accepts one instance of the delegate, spelled with a letter neither holds |
| `GlobRuns.WholeStarsSoundExactly` | `portauth-engine/src/services/delegationVerifier.js:339-373` | for whole-segment `**`, any number in either pattern, the delegate is included if and only if the parent matches finitely many samples of it, each `**` filled with every number of segments up to a bound computed from the parent |
| `GlobRuns.OneSampleIsNotEnough` | `portauth-engine/src/services/delegationVerifier.js:346-357` | with two `**` in the parent an accepted pair whose one-segment sample matches can still widen |
| `GlobSoundness.WildcardFreeExact` | `portauth-engine/src/services/delegationVerifier.js:339-373` | on a wildcard-free delegate the verdict is exactly a segment match with `**` taking zero or more |
| `Constraints.EvaluateConstraints` | `portauth-engine/src/services/constraintEvaluator.js:38-90` | one verdict per constraint; passes exactly when every constraint does; the error is that of the first failure |
| `ConstraintLaws.NumericLaw` | `portauth-engine/src/services/constraintEvaluator.js:110-124` | what each operator admits at the value, below it and above it; an unknown operator admits nothing |
| `ConstraintLaws.ExactLaw` | `portauth-engine/src/services/constraintEvaluator.js:240-242` | an exact constraint passes its own pattern and no other string |
| `ConstraintLaws.PrefixLaw` | `portauth-engine/src/services/constraintEvaluator.js:243-245` | a prefix constraint passes a string exactly when it spells the pattern from its start, index by index |
| `ConstraintLaws.SuffixLaw` | `portauth-engine/src/services/constraintEvaluator.js:246-248` | a suffix constraint, exactly when it spells it up to its end |
| `ConstraintLaws.GlobLaw` | `portauth-engine/src/services/constraintEvaluator.js:249-265` | a glob passes what its expression accepts, an unknown kind of match nothing |
| `ConstraintLaws.ListLaw` | `portauth-engine/src/services/constraintEvaluator.js:192-215` | a denied value fails whatever is allowed; any other passes if there is no allow list or it is on it |
| `ConstraintLaws.WindowLaw` | `portauth-engine/src/services/constraintEvaluator.js:128-189` | a window is open on its days from its first minute to its last, both included, on the clock of its zone, UTC by default; an unreadable bound restricts nothing |
| `ConstraintLaws.NoClockFails` | `portauth-engine/src/services/constraintEvaluator.js:131-162` | without an instant, or in a zone the clock does not know, it is shut |
| `ConstraintLaws.MissingFieldFails` | `portauth-engine/src/services/constraintEvaluator.js:98-100` | a field without a value fails, with the resolver's own code if it gave one |
| `Attenuation.FindTarget` | `portauth-engine/src/services/delegationVerifier.js:132-136` | a delegate constraint of the same target, or none has it |
| `AttenuationAccepts.FirstTarget` | `portauth-engine/src/services/delegationVerifier.js:136` | of several it is the first |
| `AttenuationAccepts.SameTargetMeans` | `portauth-engine/src/services/delegationVerifier.js:152-156` | constraints of one type are paired by a common id, or by field when neither has an id |
| `AttenuationAccepts.AttenuatesExactly` | `portauth-engine/src/services/delegationVerifier.js:126-150` | a delegate is accepted exactly when its permissions are among the parent's and, for each parent constraint, the first of its target is accepted |
| `AttenuationAccepts.NumericAcceptedExactly` | `portauth-engine/src/services/delegationVerifier.js:230-248` | a numeric delegate is accepted exactly when it keeps the operator and admits no number the parent does not |
| `AttenuationAccepts.PatternAcceptedExactly` | `portauth-engine/src/services/delegationVerifier.js:293-307` | an exact, prefix or suffix delegate exactly when it keeps the kind and matches no string the parent does not |
| `AttenuationAccepts.ListAcceptedExactly` | `portauth-engine/src/services/delegationVerifier.js:275-291` | lists are compared where both sides give them, each by what it alone would admit |
| `AttenuationAccepts.WindowAcceptedExactly` | `portauth-engine/src/services/delegationVerifier.js:250-273` | bounds are compared where both are set and read, by the minutes they admit, and days where both lists are given |
| `AttenuationAccepts.UsageAcceptedExactly` | `portauth-engine/src/services/delegationVerifier.js:187-228` | a usage limit is accepted exactly when no higher and over the same window, defaults included |
| `AttenuationAccepts.CumulativeAcceptedExactly` | `portauth-engine/src/services/delegationVerifier.js:187-213` | and a cumulative one if it keeps the field as well |
| `Attenuation.AcceptedConstraintSound` | `portauth-engine/src/services/delegationVerifier.js:161-315` | a pair that restates the parent's field, bounds, zone, days and lists and is accepted lets through no context the parent fails |
| `Attenuation.AcceptedHopSound` | `portauth-engine/src/services/delegationVerifier.js:126-150` | one accepted hop: what passes all the delegate's constraints passes all the parent's |
| `AttenuationExact.NumericSoundExactly` | `portauth-engine/src/services/delegationVerifier.js:152-156` | an accepted numeric pair is sound if and only if both name the same field or the operator is unknown; pairing by id does not ensure it |
| `AttenuationExact.EnumeratedSoundExactly` | `portauth-engine/src/services/delegationVerifier.js:275-291` | an accepted list pair is sound on every context if and only if the delegate lists nothing, or the field is the same and the allow list is kept and every dropped denied value is excluded by it |
| `AttenuationExact.ListsKeptExactly` | `portauth-engine/src/services/delegationVerifier.js:275-291` | which values two accepted lists admit: inclusion holds exactly when the lists are kept |
| `AttenuationExact.PatternSoundExactly` | `portauth-engine/src/services/delegationVerifier.js:293-315` | an accepted exact, prefix or suffix pair is sound if and only if both name the same field |
| `AttenuationExact.GlobSoundExactly` | `portauth-engine/src/services/delegationVerifier.js:308-313` | an accepted glob pair is sound if and only if both name the same field and the patterns are included on one-line strings |
| `AttenuationExact.TemporalSoundExactly` | `portauth-engine/src/services/delegationVerifier.js:250-273` | on one clock an accepted window pair is sound if and only if the delegate admits nothing or its effective minutes and days lie within the parent's, whichever minute range the formatter prints |
| `AttenuationExact.WindowSoundExactly` | `portauth-engine/src/services/delegationVerifier.js:250-273` | over every clock and context, an accepted window pair is sound if and only if the delegate admits nothing, or time field and zone are the same and the hours lie within |
| `AttenuationExact.WindowSoundOnKnownZones` | `portauth-engine/src/services/delegationVerifier.js:250-273` | the same over clocks that know both zones, where a parent that admits every time is sound as well |
| `AttenuationExact.TimezoneUnsound` | `portauth-engine/src/services/delegationVerifier.js:250-273` | whatever the hours, a window that admits some time, accepted in another zone, lets some moment through that the parent refuses |
| `DelegationChain.CheckLink` | `portauth-engine/src/services/delegationVerifier.js:46-83` | one pass of the loop stops for the credential's own failure, a broken link or a widening, in that order, and with those codes |
| `DelegationChain.VerifyDelegationChain` | `portauth-engine/src/services/delegationVerifier.js:29-95` | too deep, refused at the first bad link with its code, or accepted with the last payload, each exactly when it should be |
| `DelegationChain.AcceptedNamesParents` | `portauth-engine/src/services/delegationVerifier.js:104-118` | in an accepted chain each credential names the id of the one before it, which is not empty, and is issued by its subject |
| `DelegationChain.FirstFaultDecides` | `portauth-engine/src/services/delegationVerifier.js:46-83` | the first credential that fails, names another parent or issuer, or widens is where the walk stops, with the code for it; a chain with none is accepted |
| `DelegationChain.AcceptedChainSound` | `portauth-engine/src/services/delegationVerifier.js:38-95` | against every ancestor a later link has no extra permission, keeps each stateful limit, and passes no context the ancestor fails |
| `DelegationChain.HopsCompose` | `portauth-engine/src/services/delegationVerifier.js:38-95` | narrowing composes over any number of hops |
| `DelegationChain.KeepsStatefulTransitive` | `portauth-engine/src/services/delegationVerifier.js:187-228` | keeping every stateful limit over the same window composes |
| `DelegationChain.DefaultsAttenuate` | `extensions/a2a/reference-intermediate/src/intermediate.js:36-53` | claims are built if and only if issuer and audience are given; built with defaults they pass the link check if and only if the issuer is the parent's agent and the parent has a credential id, and the attenuation check if and only if every constraint can be compared |
| `DelegationChain.ProducedChainVerifies` | `extensions/a2a/reference-intermediate/src/intermediate.js:165-171` | in a chain of any length built that way every adjacent pair verifies |
| `Reservations.EventKeyInjective` | `portauth-engine/src/services/statefulAuthorizer.js:199` | two pairs of idempotency key and counter key never share an event key |
| `Reservations.MemoryStatefulStore.Stage` | `portauth-engine/src/services/statefulAuthorizer.js:194-210` | decides before writing anything: passes exactly when every candidate fits, else reports the replays up to the first misfit and that misfit |
| `Reservations.MemoryStatefulStore.Apply` | `portauth-engine/src/services/statefulAuthorizer.js:212-218` | sets each staged counter to its old value plus the increment and records the events |
| `Reservations.MemoryStatefulStore.Reserve` | `portauth-engine/src/services/statefulAuthorizer.js:194-220` | the store after the call, the verdict and the results, as a function of the store before |
| `Reservations.RaisesSumsExactly` | `portauth-engine/src/services/statefulAuthorizer.js:206-213` | with positive increments a passing call raises every counter by the sum of its increments if and only if its counter keys are distinct |
| `ReservationRuns.CountersAreSums` | `portauth-engine/src/services/statefulAuthorizer.js:188-221` | over any run each counter is the sum of the increments applied to it |
| `ReservationRuns.EventsCountOnce` | `portauth-engine/src/services/statefulAuthorizer.js:199-204` | each keyed event is counted once if recorded and never otherwise |
| `ReservationRuns.RunWithinLimits` | `portauth-engine/src/services/statefulAuthorizer.js:206-209` | with one fixed limit per key no stored counter ever exceeds it |
| `ReservationRuns.DeniedChangesNothing` | `portauth-engine/src/services/statefulAuthorizer.js:207-209` | a denied call changes neither counters nor events |
| `ReservationRuns.ReplayChangesNothing` | `portauth-engine/src/services/statefulAuthorizer.js:201-204` | making a granted keyed call again is granted and changes nothing |
| `ReservationRuns.GrantedIsCounted` | `portauth-engine/src/services/statefulAuthorizer.js:194-220` | a granted keyed call is counted exactly once in every counter it names, now or by an earlier call |
| `SqlReservations.InterleavingsAreSerial` | `portauth-engine/src/services/statefulAuthorizer.js:228-324` | after any schedule of statements, aborts included, the committed tables are those of the serial store run on the finished calls in the order they finished, and every verdict is the serial one |
| `SqlReservations.CommittedIsSerialRun` | `portauth-engine/src/services/statefulAuthorizer.js:228-324` | the committed tables are the serial run of the committed transactions in commit order |
| `SqlReservations.NoOverspend` | `portauth-engine/src/services/statefulAuthorizer.js:273-301` | with one fixed limit per key no schedule commits a counter above its limit |
| `SqlReservations.SchedulesCountOnce` | `portauth-engine/src/services/statefulAuthorizer.js:290-311` | over any schedule a counter is the sum of what was applied to it and a keyed event was applied exactly once if its row exists |
| `SqlReservations.StepKeeps` | `portauth-engine/src/services/statefulAuthorizer.js:233-318` | every single step, of any transaction, keeps the agreement with the serial store and the row locks disjoint |
| `SqlReservations.WaitsForOther` | `portauth-engine/src/services/statefulAuthorizer.js:254-311` | a statement waits while another transaction holds the row or has recorded the event, uncommitted |
| `SqlReservations.CommitRepresents` | `portauth-engine/src/services/statefulAuthorizer.js:316-317` | a finished transaction commits exactly what the serial call would do at that moment |
| `SqlReservations.DenialIsSerial` | `portauth-engine/src/services/statefulAuthorizer.js:273-288` | a transaction is denied under its row lock only where the serial call is denied |
| `SqlProgress.AloneIsSerial` | `portauth-engine/src/services/statefulAuthorizer.js:228-324` | on a quiet database a transaction that nothing aborts ends within six statements a candidate and a COMMIT, with the verdict and the tables of the serial call |
| `SqlStore.PostgresStatefulStore.Attempt` | `portauth-engine/src/services/statefulAuthorizer.js:235-313` | the statements for one candidate: replay, denial or the raised row and the event |
| `SqlStore.PostgresStatefulStore.Reserve` | `portauth-engine/src/services/statefulAuthorizer.js:228-324` | alone, the transaction that writes as it goes and rolls back has the verdict, counters and events of the in-memory store that stages first |
| `SqlStore.OverlapCountsTwice` | `portauth-engine/src/services/statefulAuthorizer.js:236-252` | a schedule in which two overlapping calls with one idempotency key are both granted and the counter holds both increments |
| `SqlStore.SerialCountsOnce` | `portauth-engine/src/services/statefulAuthorizer.js:194-220` | the serial store counts those two calls once |
| `TaskStore.MemoryTaskStore.CreatePending` | `extensions/a2a/receiver-middleware/src/index.js:163-175` | creates, with default time stamps, exactly when neither the id nor the key is known, else returns the known record and changes nothing |
| `TaskStore.MemoryTaskStore.Update` | `extensions/a2a/receiver-middleware/src/index.js:176-190` | writes the patch over the record, each member kept, cleared or replaced, or reports that it is missing |
| `TaskStore.CreateKeepsIndex` | `extensions/a2a/receiver-middleware/src/index.js:740-744` | a create keeps key index and records in agreement if and only if it finds a record or is given a non-empty id |
| `TaskStore.UpdateKeepsIdentity` | `extensions/a2a/receiver-middleware/src/index.js:179-186` | an update never changes an id, a key or a creation time, and touches no other record |
| `TaskStore.UpdateWrites` | `extensions/a2a/receiver-middleware/src/index.js:176-190` | each member of a patch is kept, cleared or replaced as it says, and the time of the update set |
| `TaskStore.UpdateKeepsIndex` | `extensions/a2a/receiver-middleware/src/index.js:187-188` | every lookup by key finds the record it found before |
| `TaskStore.OneCreator` | `extensions/a2a/receiver-middleware/src/index.js:163-190` | in any sequence of creates and updates exactly one create per key is told "created", and lookups give the record it made |
| `Receiver.AlwaysOneRecord` | `extensions/a2a/receiver-middleware/src/index.js:67-99` | in any interleaving, over either store and with store failures, every handler answered by createPending holds the key's one record and only its creator was told "created" |
| `Receiver.StepKeepsIds` | `extensions/a2a/receiver-middleware/src/index.js:100-140` | no step removes a record or changes its id |
| `Receiver.EngineCalledOnce` | `extensions/a2a/receiver-middleware/src/index.js:339-402` | while a key has never failed the engine is called for it at most once, in every interleaving |
| `Receiver.CalledAfterPending` | `extensions/a2a/receiver-middleware/src/index.js:339-402` | and that call finds the caller's own record stored and still pending |
| `Receiver.TerminalIsFinal` | `extensions/a2a/receiver-middleware/src/index.js:403-517` | a completed or denied record never changes again while its key has not failed |
| `Receiver.OnlyCreatorWrites` | `extensions/a2a/receiver-middleware/src/index.js:659-668` | until then a record is rewritten only by its creator and only from pending |
| `Receiver.RepliesAreStored` | `extensions/a2a/receiver-middleware/src/index.js:681-686` | every replayed response, and every one its owner persisted, is the stored one |
| `Receiver.TerminalIsFinalInSequence` | `extensions/a2a/receiver-middleware/src/index.js:370-391` | when requests for a key do not overlap, no sequence of failures changes a completed or denied record |
| `Receiver.OnlyAllowIs200` | `extensions/a2a/receiver-middleware/src/index.js:403-517` | an answer is 200 exactly when the engine allowed; exactly a reply without a decision and without success leaves a record that may be re-opened, and is answered 503 or 400 |
| `Answers.WithoutDecision` | `extensions/a2a/receiver-middleware/src/index.js:403-443` | over the run: a reply without a decision fails the record exactly when its status is not a success, answered 503 from 500 on and 400 below |
| `Answers.FailedIsCalledAgain` | `extensions/a2a/receiver-middleware/src/index.js:370-392` | the next request for a failed key opens the record and calls the engine |
| `Answers.Denial` | `extensions/a2a/receiver-middleware/src/index.js:445-497` | a denial is stored and answered with the error table's status, else 401 for a 422 and 403 for anything else |
| `Answers.Allowed` | `extensions/a2a/receiver-middleware/src/index.js:487-517` | an allow completes the record and is answered 200 with the audit id |
| `Answers.FindsRecord` | `extensions/a2a/receiver-middleware/src/index.js:355-372` | over either store a request gets the stored answer of a finished record, re-opens a failed one and is told 202 of any other |
| `Answers.FindsNothing` | `extensions/a2a/receiver-middleware/src/index.js:67-99` | a key seen for the first time has its pending record before the engine is called |
| `Answers.StoreFault` | `extensions/a2a/receiver-middleware/src/index.js:383-388` | a store call that throws is answered 500 and has done what it would have done, or nothing |
| `Receiver.BackedStep` | `extensions/a2a/receiver-middleware/src/index.js:403-517` | no step but a delivered allow brings a new 200 into the records or the answers |
| `Retries.PostableExactly` | `extensions/a2a/receiver-middleware/src/index.js:355-400` | some continuation calls the engine for a key if and only if it has no record, a failed one, or a handler that is about to call, waits, or has a failure to store |
| `Retries.AbandonedForever` | `extensions/a2a/receiver-middleware/src/index.js:360-372` | a pending record whose handlers are all over stays pending and every new request for the key ends in 202 or a store error, however it goes on |
| `Retries.LossAbandons` | `extensions/a2a/receiver-middleware/src/index.js:394-400` | an engine call that throws leaves such a record when no other handler of the key is at work |
| `Consumption.Projects` | `extensions/a2a/receiver-middleware/src/index.js:392-400` | a run of receiver, network and engine is a run of the receiver and a schedule of SQL statements |
| `Consumption.CountedAtMostOnce` | `portauth-engine/src/services/statefulAuthorizer.js:228-324` | over any failures, gateway answers, lost commits, lost replies and retries: while no two transactions of one key run together, a key raises a counter once if its event row is there and never otherwise, and each counter is the sum of what was so consumed |
| `Consumption.ApartIsAdmissible` | `portauth-engine/src/services/statefulAuthorizer.js:228-324` | that condition on the engine's transactions makes the database's schedule one that serializes |
| `Consumption.PatientIsApart` | `extensions/a2a/receiver-middleware/src/index.js:392-400` | requests for a key that come one at a time with well-formed calls meet it if no gateway or exception answers before the engine is done with the request |
| `Consumption.GatewayCountsTwice` | `extensions/a2a/receiver-middleware/src/index.js:403-420` | a run without overlapping requests in which a gateway answers while the transaction runs, the client retries, and the counter holds both increments |
| `Consumption.VerdictArrives` | `portauth-engine/src/routes/evaluate.js:246-278` | a grant reaches the caller as 200 with its audit id, a passed limit as 403, a verdict without audit row as an error that may be retried; the record is completed, denied or failed with it |
| `Consumption.AnsweredIsCommitted` | `extensions/a2a/receiver-middleware/src/index.js:498-517` | whatever overlaps, a request answered 200, at once or by replay, stands on a reservation committed under its key whose audit id it carries |
| `Consumption.AnsweredIsCounted` | `extensions/a2a/receiver-middleware/src/index.js:498-517` | while transactions of one key stay apart such a request was counted exactly once in every counter its reservation named |
| `Receiver.OverlappingRetriesOverwrite` | `extensions/a2a/receiver-middleware/src/index.js:380-391` | a schedule in which two retries of a failed key overlap: the engine is called by both and the second overwrites the answer the first gave |
| `JsonText.ReadsBack` | `portauth-engine/src/routes/wellknown.js:34-43` | parsing a value's text followed by any legal continuation gives that value and that continuation |
| `JsonText.StringReadsBack` | `portauth-engine/src/routes/wellknown.js:40` | string escaping, unpaired surrogates included, is undone by the parser (section 7 of RFC 8259) |
| `JsonText.UnitShape` | `portauth-engine/src/routes/wellknown.js:40` | which code units are written as they are, which with a two-unit escape and which with six (section 7 of RFC 8259) |
| `JsonText.NoLeadingZero` | `portauth-engine/src/routes/wellknown.js:34-43` | no number is written with a leading zero |
| `JsonText.WriteInjective` | `portauth-engine/src/routes/wellknown.js:34-43` | different values have different texts |
| `CanonicalJson.LessMeans` | `portauth-engine/src/routes/wellknown.js:39` | one key comes first exactly when it is a proper beginning of the other or has the smaller code unit where they part |
| `CanonicalJson.TwoMembers` | `portauth-engine/src/routes/wellknown.js:38-41` | two members print in that order, whichever comes first in the object |
| `CanonicalJson.UndefinedMember` | `portauth-engine/src/services/auditLogger.js:13-21` | an undefined member is left out by engine and SDK; the audit printer writes the word |
| `CanonicalJson.UndefinedElement` | `extensions/a2a/sdk/src/index.js:354-365` | an undefined element is nothing to engine and audit log and null to the SDK |
| `CanonicalJson.AscendingUnique` | `portauth-engine/src/routes/wellknown.js:39` | two lists of members in ascending key order with the same members are the same list |
| `CanonicalJson.PrintsCanon` | `portauth-engine/src/routes/wellknown.js:34-43` | each of the three printers, where it prints JSON at all, writes the canonical form of the value |
| `JsonEquality.CanonEqual` | `portauth-engine/src/routes/wellknown.js:34-43` | canonical forms are equal if and only if the values are equal up to object key order |
| `JsonEquality.PrintReadsBack` | `portauth-engine/src/routes/wellknown.js:34-43` | parsing the canonical text, whatever legally follows, gives the canonical value back |
| `JsonEquality.PrintedInKeyOrder` | `portauth-engine/src/routes/wellknown.js:38-41` | an object's text reads back to its members in the order of their keys, the order spelled out on code units |
| `JsonEquality.PrintEqual` | `portauth-engine/src/routes/wellknown.js:34-43` | two values print alike, under the same printer or two of them, if and only if they are equal up to object key order |
| `JsonEquality.CanonIdempotent` | `portauth-engine/src/routes/wellknown.js:34-43` | a canonical value is its own canonical form |
| `GovernanceManifest.PrintersAgree` | `extensions/a2a/sdk/src/index.js:354-365` | the engine's and the SDK's printers give the same text if and only if no array of the value holds undefined |
| `GovernanceManifest.EngineNoLonger` | `portauth-engine/src/routes/wellknown.js:36` | the engine's text is never the longer one, and is shorter wherever an array holds undefined |
| `GovernanceManifest.AcceptedExactly` | `extensions/a2a/sdk/src/index.js:440-447` | with a valid signature a manifest is accepted if and only if it equals the signed one apart from `proof` |
| `GovernanceManifest.SdkPrintsTransmitted` | `extensions/a2a/sdk/src/index.js:358` | sending a value as JSON does not change what the SDK prints for it |
| `GovernanceManifest.PublishedIsAccepted` | `portauth-engine/src/routes/wellknown.js:225-245` | a manifest signed and served by the engine is accepted by the SDK if and only if no array in it holds undefined |
| `AuditLog.PayloadDecodes` | `portauth-engine/src/services/auditLogger.js:226-248` | parsing the signed payload and dropping the signing time leaves the canonical form of the record |
| `AuditLog.ColumnSigned` | `portauth-engine/src/services/auditLogger.js:23-44` | the payload holds every column with what it is signed as: itself, or false, 0 or null where the record has nothing |
| `AuditLog.VerifiesExactly` | `portauth-engine/src/services/auditLogger.js:229-259` | a row verifies against a payload if and only if every rebuilt column equals the signed one |
| `AuditLog.CreateThenVerify` | `portauth-engine/src/services/auditLogger.js:68-120` | a created record verifies if and only if it carries no workflow fields, however the database orders object keys |
| `AuditLog.TamperingDetected` | `portauth-engine/src/services/auditLogger.js:213-268` | changing one covered column makes verification fail, except where a fallback value is replaced by another falsy one |
| `AuditLog.ResignThenVerify` | `portauth-engine/src/services/auditLogger.js:151-180` | a row signed by the sweep verifies if and only if its workflow columns are empty |
| `AuditSweep.AuditTable.ResignUnsigned` | `portauth-engine/src/services/auditLogger.js:130-185` | the batched loop ends, signs exactly the smaller of the unsigned rows and the limit, and leaves the table with its first unsigned rows signed |
| `AuditSweep.SweepSignsOldest` | `portauth-engine/src/services/auditLogger.js:143-149` | a row is signed exactly when it was unsigned with fewer than the limit of older unsigned rows; signed rows stay as they are |
| `StatusList.BitShifts` | `portauth-engine/src/services/statusListChecker.js:198-206` | bit tests by mask are the shifts of the publisher and the checker |
| `StatusList.MostSignificantFirst` | `portauth-issuer/src/services/statusListPublisher.js:28-32` | index 0 is the most significant bit of the first byte |
| `StatusList.SetBit` | `portauth-issuer/src/services/statusListPublisher.js:28-32` | sets exactly the one bit, most significant first, and nothing when the index is outside the buffer |
| `StatusList.BuildEncodedStatusList` | `portauth-issuer/src/services/statusListPublisher.js:34-52` | the list is just long enough and a bit is set exactly when some entry flags its index |
| `StatusList.ByteLengthExactly` | `portauth-issuer/src/services/statusListPublisher.js:34-43` | at least one byte, room for every index, no byte more than the greatest needs |
| `StatusList.PublishThenCheck` | `portauth-engine/src/services/statusListChecker.js:53-77` | reading a fresh list says set exactly when flagged, or when the index is past the end |
| `StatusList.UnavailableFailsClosed` | `portauth-engine/src/services/statusListChecker.js:53-61` | a list that cannot be fetched counts as the status it is asked for |
| `StatusList.AllocatedInOrder` | `portauth-issuer/src/services/vcCredentialIssuer.js:167-178` | indices are given out from zero, each call getting the number of calls before it |
| `StatusList.HistoryExactly` | `portauth-issuer/src/services/statusListPublisher.js:34-52` | after any run a credential has an index, is issued, listed or revoked exactly when a step of the run did so |
| `StatusList.IndicesNeverRepeat` | `portauth-issuer/src/services/vcCredentialIssuer.js:167-178` | over any interleaving of issuing calls no two are given the same index |
| `StatusList.RevokedExactly` | `portauth-engine/src/services/statusListChecker.js:53-77` | after any run a credential's bit says revoked if and only if it was revoked |
| `StatusList.RevokedByRun` | `portauth-engine/src/services/statusListChecker.js:53-77` | and that is exactly when the run contains its revocation |
| `StatusList.RevokingIsIsolated` | `portauth-issuer/src/services/statusListPublisher.js:34-52` | revoking one credential changes no other credential's status |
| `StatusList.IndexCounter.AllocateStatusListIndex` | `portauth-issuer/src/services/vcCredentialIssuer.js:167-178` | returns the stored next index, starting at zero, and stores its successor |
| `Migrations.TaskDatabase.RunTaskStoreMigrations` | `extensions/a2a/receiver-middleware/src/migrations.js:53-100` | a run that fails at any statement, or whose last commit is applied but not acknowledged, commits a beginning of the pending list, ledger and schema together, and returns the versions only if it completes |
| `Migrations.EachAppliedOnce` | `extensions/a2a/receiver-middleware/src/migrations.js:75-97` | over any runs every version in the ledger was applied exactly once and nothing else was |
| `Migrations.SchemaFollowsLedger` | `extensions/a2a/receiver-middleware/src/migrations.js:64-97` | over append-only releases the schema is always the ledger's migrations in ascending order |
| `Migrations.CompleteRunLeavesNothing` | `extensions/a2a/receiver-middleware/src/migrations.js:68-71` | a completed run leaves the ledger full and any further run applies nothing |
| `Migrations.OrderKeptExactly` | `extensions/a2a/receiver-middleware/src/migrations.js:68-71` | a run keeps ascending order if and only if it applies nothing or starts above every version in the ledger |
| `LocalPolicy.DeniesExactly` | `portauth-engine/src/services/localPolicyMerge.js:38-80` | local policy denies if and only if some applicable policy has a failing constraint |
| `LocalPolicy.AppliesExactly` | `portauth-engine/src/services/localPolicyMerge.js:38-47` | a policy applies without targets, or to a requested action among them, or without one to a permission among them |
| `LocalPolicy.NotAppliedExactly` | `portauth-engine/src/services/localPolicyMerge.js:32-51` | nothing is merged exactly when no policy applies |
| `LocalPolicy.NamesFirstOwner` | `portauth-engine/src/services/localPolicyMerge.js:63-71` | and it names the first applicable policy that has one |
| `LocalPolicy.NamesFirstDenier` | `portauth-engine/src/services/localPolicyMerge.js:63-71` | in the order fetched, the policy named applies and fails and none before it does both |
| `Evaluate.BuildCandidates` | `portauth-engine/src/services/statefulAuthorizer.js:337-344` | the loop collects the candidates of the stateful constraints in order or stops at the first that cannot be built |
| `Evaluate.NoneSkipped` | `portauth-engine/src/services/statefulAuthorizer.js:329-344` | every stateful constraint of the credential contributes its candidate |
| `Quotas.SpentIsSum` | `portauth-engine/src/services/statefulAuthorizer.js:128-155` | without replays a limit's counter is the sum of the numbers the admitted requests' field resolves to, or for uses their count, and never passes the limit |
| `Quotas.OverTheLimit` | `portauth-engine/src/services/statefulAuthorizer.js:206-209` | a request that would take the sum over the limit is not admitted and adds nothing |
| `Quotas.AdmittedExactly` | `portauth-engine/src/services/statefulAuthorizer.js:99-155` | with no other limit on its credential a request past the earlier stages is admitted exactly when its field reads as an amount that still fits |
| `Evaluate.EvaluateRoute.VerifyPresented` | `portauth-engine/src/routes/evaluate.js:74-106` | the payload decided on is the verified credential, or the leaf of an accepted chain |
| `Evaluate.EvaluateRoute.DecidePayload` | `portauth-engine/src/routes/evaluate.js:113-244` | allow exactly when permission, constraints and local policy pass and the reservation is granted; the store changes only once the first three do; each refusal carries its stage's error |
| `Evaluate.EvaluateRoute.Evaluate` | `portauth-engine/src/routes/evaluate.js:59-482` | outcome, counters and audit rows of one request on either route; an audit failure is an error whatever was decided |
| `Evaluate.OnlyAdmittedCount` | `portauth-engine/src/routes/evaluate.js:74-272` | over all runs of requests one at a time the counters are those of the admitted requests alone |
| `ConcurrentRoutes.OnlyReachedCount` | `portauth-engine/src/routes/evaluate.js:74-272` | over the SQL store, requests overlapping in any way that keeps running transactions of one key apart: the committed tables are the serial run of the committed reservations, each made by a request of its own that passed every earlier stage |
| `ConcurrentRoutes.SeenAtMostBegun` | `portauth-engine/src/services/statefulAuthorizer.js:228-324` | a call finishes or runs at most as often as it was begun, in any schedule |
| `Evaluate.AllowedPassedAll` | `portauth-engine/src/routes/evaluate.js:209-272` | an allowed request passed all four checks and every stateful limit fitted |
| `Evaluate.AllowedByEveryAncestor` | `portauth-engine/src/routes/evaluate.js:284-475` | an allowed chain is permitted by every ancestor: its permissions and its stateless constraints |
| `CounterKeys.SharedExactly` | `portauth-engine/src/services/statefulAuthorizer.js:59-102` | without a hash collision two constraints are charged to one counter if and only if type, identity, scope, window start and what scope and scope fields read agree; field and limit do not count |
| `CounterKeys.DistinctKeysExactly` | `portauth-engine/src/services/statefulAuthorizer.js:59-102` | a credential's reservation names distinct counters if and only if no two of its stateful constraints agree in all that |
| `CounterKeys.IdsKeepApart` | `portauth-engine/src/services/statefulAuthorizer.js:59-102` | different ids are enough, and make its calls the well-formed ones the stores are proved for |
| `CounterKeys.OneIdTwoFields` | `portauth-engine/src/services/statefulAuthorizer.js:61-66` | two limits with one id on different fields are charged to one counter |
| `CounterKeys.OneMetricPerKey` | `portauth-engine/src/services/statefulAuthorizer.js:99-155` | one counter key is always of one metric, whichever requests it comes from |
| `CounterKeys.ChargesAncestorExactly` | `portauth-engine/src/services/statefulAuthorizer.js:59-102` | a delegate's use of an accepted limit is charged to the ancestor's own counter if and only if the constraints have one identity and the same scope fields and the credentials agree in what the scope names |
| `CounterKeys.DelegatesSpendSeparately` | `portauth-engine/src/services/statefulAuthorizer.js:68-69` | two accepted delegates of one parent each spend its usage limit in full in the default scope |
| `Evaluate.RetryAfterAuditFailure` | `portauth-engine/src/routes/evaluate.js:246-278` | a keyed request counted but answered with an error is admitted again on retry and counts nothing more |

## Left out

- Signatures, X.509 and DID resolution, JWKS, gzip and base64url: a credential is its verification outcome, a signature the payload it covers.
- HTTP headers, bearer checks, secret screening, logging, metrics and telemetry: no property of their own.
- Semantic field lookup, context enrichment and its caches: one fixed `resolve` per evaluation.
- Intl formatting and calendar windows: an abstract local clock, and the start of a window as a function of the period.
- State-authority proofs, revocation introspection and status-list caching: network clients.
- Floating point, NaN, null limits and the NUMERIC column: amounts and limits are integers that are present. JSON numbers are integers printed in plain digits.
- The alternative field names of a limit (`maxAmount`, `value`, `limit`): one optional limit per constraint.
- Regular-expression syntax: the compiled expression is a sequence of literals, `[^/]*` and `.*`.
- Reason and detail texts: error codes only.
- Exceptions thrown inside verification or evaluation: the routes answer them with an internal error before anything is reserved.
- A proxy that sends one engine call twice: each handler's request reaches the engine at most once.
- Workflow evaluation, its combinators, role coverage, preflight rules and agent cards.
- The re-open of failed records under overlap and same-key overlap of SQL transactions: shown to fail by a schedule, not repaired.
- The migrator's fallback without `connect`, which has no transactions.
- Inserts into the audit table while a sweep runs, and signing errors during it.
- Task fields that no decision reads (task, request context, presenter, format, audit id), and time stamps beyond creation and update.
- SqlStore.PostgresStatefulStore.Reserve: assumes distinct counter keys in one call, which a credential need not give (`CounterKeys.DistinctKeysExactly`); with a repeated key the two stores differ, which `Reservations.RaisesSumsExactly` shows for the in-memory one.
- SqlReservations.InterleavingsAreSerial: the lock order of one call may deadlock with another's; a deadlock is an `Abort` step, and fairness is not modelled.
- Consumption.CountedAtMostOnce: assumes that no two transactions of one key run together; `Consumption.GatewayCountsTwice` shows a run without overlapping requests that breaks this, and nothing in the repository prevents it.
- Attenuation.AcceptedConstraintSound: assumes that resolved strings hold no line terminators, which `.` of the evaluator's expressions does not match.
- GlobSoundness.AcceptedGlobSoundExactly: patterns in which `**` is always a whole segment, at most one in the parent or none in the delegate; `GlobRuns` decides any number of them and `GlobExact` a parent without separators. A pattern that mixes separators with stars doubled inside a segment has no exact condition here.
- AuditLog.VerifiesExactly: columns hold JSON with distinct member names and nothing undefined.
