# sacura, modelled in Dafny

sacura is a load-and-verification harness for CloudEvents brokers. A sender
proposes events to a target at a fixed rate. A receiver records what comes
back. At the end a ledger reconciles what was sent against what was received:
per partition key it lists the lost, duplicated and received event
identifiers and counts them.

This project models the three sequential cores of the harness and proves
properties about them:

- **The event ledger and its reconciler** (`state.go`), in `ledger.dfy` and
  `state.dfy`.
  - `StateManager` is a class with the `sent` and `received` maps, the
    configuration, `terminated` and `metrics` as fields.
  - `insert`, `removeDuplicates` and one partition's reconciliation are
    value functions, each with its properties as lemmas.
  - `ReadSent`, `ReadReceived`, `ReceivedCount`, `GenerateReport`, `Diff`
    and `Terminated` are methods on the class. Each is proved against those
    functions.
  - Go visits map keys in an unspecified order. The loops over map keys
    therefore pick any remaining key (`k :| k in rest`), so the proofs hold
    for every visiting order.
- **The proposal/acceptance correlator and the result loop** (`attacker.go`),
  in `attacker.dfy`.
  - The two goroutines each take the mutex around one step. The shared state
    is the class `Correlator`, with one method per goroutine body.
  - A schedule of `Signal`s stands for any interleaving of the two
    goroutines. `Run` is the state the schedule leads to.
  - The result loop that counts accepted requests and forwards their
    identifiers is a method, proved against the functions `AcceptedCount`
    and `ForwardedIds`.
- **The configuration validator** (`config.go`), in `config.dfy`.
  - `validate` is a method that returns the updated configuration and the
    optional error.
  - The order of its checks is explicit: the sequence `Checks`, with
    `FirstFailure` naming the check that rejects a configuration first.
  - `time.ParseDuration` and `url.Parse` are function parameters that
    return a `Result`.

`strings.dfy` models the order Go uses to compare strings and the result of
`sort.Strings`. `event.dfy` models the part of a CloudEvent the harness
reads. `report.dfy` models the records of `report.go`.

## Model

| member | source | states |
|---|---|---|
| Ledger.UnorderedSingleBucket | state.go:33-41 | A configuration without an `ordered` section turns ordering off, so every event goes to the "unknown" bucket in arrival order and no other bucket receives anything. |
| State.StateManager.constructor | state.go:43-50 | A new ledger has empty sent and received maps, is not terminated and holds zero metrics. |
| Ledger.PartitionKeyOf | state.go:83-89 | The bucket is "unknown" unless ordering is on and the event carries a `partitionkey` extension; in that case the bucket is the extension's value. |
| Ledger.Insert | state.go:82-94 | `insert` appends the event's identifier to the end of exactly one bucket, creating it if needed. Every other bucket is unchanged. |
| Ledger.InsertGrowsTotal | state.go:82-94 | Each `insert` adds exactly one to the summed length of all buckets. |
| Ledger.InsertAllBuckets | state.go:52-80 | Feeding a list of events extends each bucket by exactly the identifiers routed to it, in arrival order. |
| Ledger.InsertAllGrowsTotal | state.go:52-80 | Feeding n events adds n to the summed bucket length. |
| State.StateManager.ReadSent | state.go:52-65 | The sent map becomes the original map with every event inserted in order. Each bucket grows by its routed identifiers and the total grows by the number of events. Only `sent` changes. |
| State.StateManager.ReadReceived | state.go:67-80 | The same as ReadSent, on the received map. |
| Ledger.TotalLengthRemove | state.go:100-103 | The summed length does not depend on the order the keys are visited in: any key can be counted first. |
| State.StateManager.ReceivedCount | state.go:96-105 | Returns the summed length of all received buckets, duplicates included, for any key order. Changes nothing. |
| Ledger.SplitPartition | state.go:170-183 | Splitting a bucket into first occurrences and repeats loses nothing: the two lengths add up to the input's length, and the two multisets add up to the input's multiset. |
| Ledger.SplitUnique | state.go:174-180 | The first list has no repeats and holds exactly the identifiers of the input. Every repeat is in the first list. |
| Ledger.SplitKeepsFirstOccurrenceOrder | state.go:174-180 | The first list orders identifiers by where they first occur in the input. |
| Ledger.DuplicateMultiplicity | state.go:170-183 | An identifier delivered n ≥ 1 times appears n - 1 times among the repeats. |
| Ledger.NoDuplicatesIffDistinct | state.go:170-183 | The repeats list is empty exactly when the bucket has no repeated identifier. |
| State.RemoveDuplicates | state.go:170-183 | The seen-set loop computes the split above. Its results have lengths adding to the input's, the first has no repeats, and the first holds exactly the input's identifiers. |
| StringOrder.InsertSorted | state.go:138-142 | Inserting into an ascending list keeps it ascending and adds exactly one element to its multiset. |
| StringOrder.Sort | state.go:138-142 | `sort.Strings` yields an ascending permutation of its input. |
| StringOrder.SortedPermutationUnique | state.go:138-142 | Two ascending permutations of the same strings are equal. So any correct sort, stable or not, gives Sort's result. |
| StringOrder.SortKeepsDistinct | state.go:138-142 | Sorting a list without repeats gives a list without repeats. |
| StringOrder.SortMembers | state.go:138-142 | Sorting keeps exactly the strings it was given. |
| Ledger.GoCopy | state.go:130-131 | Go's `copy` never changes the destination's length. Only the common prefix is overwritten. |
| Ledger.Without | state.go:144 | Keeps exactly the elements of the first list that are absent from the second. |
| Ledger.DifferenceList | state.go:144 | The set difference's `List()` is ascending, has no repeats, and holds exactly the identifiers of the first list missing from the second. |
| Ledger.ReconcilePartitionSpec | state.go:130-144 | Per partition: lost is the ascending set difference of the sent list minus the received bucket. Received is the bucket without repeats; together with the duplicates it accounts for every delivery. In ordered mode received and duplicates are removeDuplicates' split; otherwise both are ascending. |
| Ledger.ReconcileLost | state.go:130-144 | The lost half of ReconcilePartitionSpec. |
| Ledger.ReconcileReceived | state.go:132-142 | The received and duplicate halves of ReconcilePartitionSpec. |
| State.StateManager.ReconcileKey | state.go:130-144 | One loop iteration's local copy, split, optional sort and difference compute the partition result the report specification assigns to that key. |
| State.AddEntry | state.go:145-156 | A non-empty list is recorded under its key and its length added. So each count stays the summed length of its map. |
| State.AddPartitionResult | state.go:145-156 | The three `len > 0` blocks turn the report over the partitions visited so far into the report over those partitions plus one. |
| Ledger.ReportOfEmpty | state.go:120-127 | Before any partition is visited, the report has empty maps and zero counts and carries `terminated` and `metrics`. |
| Ledger.CopiedSent | state.go:129-131 | The list each loss is computed from has one entry per sent key, and every entry is empty: `copy` into a nil slice copies nothing. |
| State.StateManager.GenerateReport | state.go:116-160 | The report is the written report: one reconciliation per sent key, visited in any order. It holds the non-empty lost, duplicate and received entries, each count is the summed length of its map, and the current `terminated` and `metrics` are carried. |
| Ledger.WrittenReportNeverLoses | state.go:129-148 | As written, the report never lists a lost event and its lost count is 0, whatever was sent and received. |
| Ledger.WrittenReportMissesLoss | state.go:130-131 | "a" and "b" are sent in partition "p1" and only "a" arrives. The written report counts no loss, while the intended report lists "b" as lost. |
| Ledger.IntendedLossIsSetDifference | state.go:144-148 | With the copy fixed, a partition has a lost entry exactly when some sent identifier never arrived in it. The entry is ascending, has no repeats, and holds exactly those identifiers. |
| Ledger.IntendedNoLossIff | state.go:144-148 | With the copy fixed, the lost map is empty exactly when every sent identifier arrived in its partition. |
| Ledger.IntendedNoLossWhenAllReceived | state.go:144-148 | With the copy fixed, a run without loss reports lost count 0. |
| Ledger.DiffText | state.go:107-114 | The diff text is empty exactly when the lost map is empty. |
| Ledger.IntendedDiff | state.go:107-114 | With the copy fixed, `Diff` would be empty exactly when every sent identifier arrived in its partition. |
| State.StateManager.Diff | state.go:107-114 | `Diff` renders the written report's lost map, so as written it always returns "". |
| Ledger.ReportEntries | state.go:134-157 | Only sent partitions appear in the report. A received entry exists exactly when the bucket is non-empty and holds the bucket without repeats: in first-arrival order when ordered, ascending otherwise. A duplicate entry exists exactly when the bucket repeats an identifier. It holds exactly the bucket's repeats: in arrival order when ordered, ascending otherwise. |
| Ledger.ReceivedOnlyPartitionIgnored | state.go:129-134 | A received bucket whose key was never sent changes nothing in the report. |
| Ledger.PartitionsRemove | state.go:129-157 | The per-partition results over a set of sent keys are those over the other keys plus the one for the removed key. |
| Ledger.ReportCountsAddUp | state.go:149-156 | Received count plus duplicate count equals the number of deliveries in sent partitions: each delivery is counted once, either as received or as a duplicate. |
| State.StateManager.Terminated | state.go:162-168 | Sets `terminated` and stores the final metrics. Nothing else changes, so a later report carries exactly these values. |
| Attacker.Correlator.constructor | attacker.go:20-28 | The correlator starts with no stored event, no accepted identifier, a zero count and nothing sent out. |
| Attacker.ProposeStep | attacker.go:38-44 | A proposal step counts the proposal and keeps the state consistent: no identifier waits on both sides, and each stored event is stored under its own identifier. |
| Attacker.AcceptStep | attacker.go:59-64 | An acceptance step keeps the state consistent and leaves the proposal count alone. |
| Attacker.Correlator.OnProposed | attacker.go:33-47 | One locked iteration of the proposal goroutine performs exactly ProposeStep on the shared state. |
| Attacker.Correlator.OnAccepted | attacker.go:54-66 | One locked iteration of the acceptance goroutine performs exactly AcceptStep on the shared state. |
| Attacker.Correlate | attacker.go:26-68 | Running the two goroutines under any schedule sends out the events and counts the proposals that the schedule's Run gives. |
| Attacker.StepEmission | attacker.go:33-66 | A step sends out at most one event, and does so exactly when the partner of its identifier is already waiting. The event sent is the stored proposal, and its identifier is then forgotten on both sides. A step that sends nothing only records its side. |
| Attacker.RunConsistent | attacker.go:38-64 | Under every schedule, the stored identifiers and the accepted set stay disjoint, and every event is stored under its own identifier. |
| Attacker.RunProvenance | attacker.go:38-64 | Everything sent out was proposed as that very event, and its identifier was accepted. Every waiting event and identifier came from a step. |
| Attacker.ProposedCountCountsProposals | attacker.go:38 | `proposedCount` is the number of proposals, matched or not. |
| Attacker.RunBounds | attacker.go:33-67 | Each event sent out uses up one proposal and one acceptance, and so does each identifier still waiting. |
| Attacker.TracksProposal | attacker.go:38-44 | A proposal of a new identifier keeps the exactly-once bookkeeping. |
| Attacker.TracksAcceptance | attacker.go:59-64 | An acceptance of a new identifier keeps the exactly-once bookkeeping. |
| Attacker.ExactlyOnce | attacker.go:33-67 | Suppose no identifier is proposed twice and none is accepted twice. Then in any interleaving, an identifier is sent out once if it was both proposed and accepted, and never otherwise. It remains waiting on one side exactly when its partner never came. |
| Attacker.CollectAcceptances | attacker.go:81-90 | The result loop counts the accepted requests (no error and a 2xx code) and forwards, in order, the identifier of each accepted request that has one. |
| Attacker.ForwardedIdsAreAcceptedHeaders | attacker.go:83-88 | An identifier is forwarded exactly when it is non-empty and some accepted request carried it. An empty header is never forwarded. |
| Attacker.ForwardedAtMostAccepted | attacker.go:83-88 | No more identifiers are forwarded than requests were accepted: an accepted request without a header still counts. |
| Attacker.SendingPhase | attacker.go:81-100 | Suppose the acceptances the correlator sees are exactly the forwarded identifiers. Then, whatever the interleaving, no more events are sent out than requests were accepted. The returned metrics count every proposal and every accepted request. |
| Configuration.Message | config.go:123-125 | The text is "invalid <field>: " followed by the cause. |
| Configuration.Validate | config.go:73-121 | No error exactly when every check passes. An error names the field and the cause of the first failing check: the parser's error for the duration, timeout and URL, and otherwise that check's own message, so an empty target, an unparsable URL and a relative URL are told apart. The configuration is updated as far as the checks got: the parsed duration always (0 on failure), and the default workers and parsed timeout only when every check before them passed. |
| Configuration.CheckSettings | config.go:81-109 | Runs the checks between the duration and the workers: frequency, empty target, duplicate percentage, fault sleep bounds and URL. It reports no error exactly when all of them pass. Otherwise it reports the field and the cause of the first one that fails. |
| Configuration.FirstFailureUnique | config.go:73-121 | At most one check is the first to fail, so the reported error is determined. |
| Configuration.SomeFirstFailure | config.go:73-121 | When some check fails, one of them is the first to fail. |
| Configuration.DisabledSenderNotBlamed | config.go:81-109 | A disabled sender is never blamed for its frequency or its target. |
| Configuration.ValidatedWhenAllPass | config.go:75-120 | After a successful validation the parsed duration and parsed timeout are the parsers' values. Workers is non-zero, and a non-zero worker count is kept. |
| Configuration.EarlyFailureKeepsWorkersAndTimeout | config.go:111-117 | When a check before the timeout fails, the worker count and the parsed timeout stay as they were. |

## Left out

- receiver.go is not part of this model. It is an HTTP server with CloudEvents decoding, metrics export and fault-injection sleeps, all I/O and timing.
- Goroutines, channels and locks are not modelled.
  - Each locked section is one atomic method.
  - A feeder loop (`ReadSent`, `ReadReceived`) is the sequence of its inserts.
  - The correlator's interleavings are the schedules `sigs`.
  - The read lock held while writing (state.go:57-59, 72-74) and the blocking send under the mutex (attacker.go:41, 61) are concurrency concerns outside this sequential model.
- Attacker.SendingPhase: does not model the start-up race of the correlator, and its "every proposal is counted" holds only when both correlator goroutines finish before the count is read. `wg.Add(1)` runs inside the outer goroutine (attacker.go:26, 29, 50), so `wg.Wait()` at attacker.go:94 can return before either correlator goroutine has registered. `proposedCount` is then read at attacker.go:97 without the mutex and can miss proposals. A late `sentOut <-` (attacker.go:41, 61) can also reach a channel the caller has already closed. The model runs every step of the schedule before the count is read.
- The load generator is not modelled: its rate, its workers and the attack itself. Its statistics are the opaque `LoadStats`. The results it produces are an input sequence of `AttackResult`.
- targeter.go, main.go and cmd/sacura are not part of this model. The partition key is an input string, read from the event's extensions.
- `FileConfig`'s YAML reading is not modelled. Neither are the real semantics of `time.ParseDuration`, `url.Parse` and `IsAbs`: they are parameters (`IsAbs` is "has a scheme").
- JSON rendering in `Diff` is a parameter `encode`. JSON tags in report.go are not modelled.
- Extension values are taken to be strings. The source's `v.(string)` assertion would panic on any other type.
- Strings are sequences of Unicode scalar values, while Go strings are byte sequences. Only identifiers and keys that are valid UTF-8 are represented, and `Leq` agrees with Go's byte order only on those.
- Ledger.Insert: modelled as a function on map values, not an update in place. In Go, `insert` mutates the map it is handed (state.go:59, 74). In the model, ReadSent and ReadReceived assign Insert's result back to the `sent` or `received` field. Each Go map is reached only through that field, so the model loses no aliasing.
- Go's `int` counters (`proposedCount`, `acceptedCount`, report counts) are unbounded here. Overflow is not modelled.
- The comment on `ReceivedCount` in report.go:19-22 says it includes duplicates. The code counts deduplicated identifiers (state.go:135, 153-155), and the model follows the code; Ledger.ReportCountsAddUp states the relation.
- The `NumPartitionKeys` setting is carried but only used by the targeter, which is not modelled.

## Findings

| source | as written | input that shows it | evidently intended | confidence | as-written member | corrected member |
|---|---|---|---|---|---|---|
| state.go:130-131 | `var sent []string; copy(sent, v)` copies into a nil slice, which copies nothing. The lost set difference always runs on an empty list, so `LostCount` is 0 and `Diff` returns "". | sent `{"p1": ["a", "b"]}`, received `{"p1": ["a"]}`: the report has no lost entry, although "b" never arrived. | The loss is computed from the sent bucket itself: lost = sent minus received, per partition. | high, not executed | Ledger.WrittenReportMissesLoss | Ledger.IntendedLossIsSetDifference |
