# MassClaw: orchestration, gossip and codecs

This project models four parts of MassClaw and proves what they are relied on for.

- **Workflow orchestration.** `Graph` and `GraphTheorems` treat a DAG as its list of declarations and prove
  Kahn's algorithm exact; `Redeclaration` is about lists that declare an id twice. `Dag` is the mutable object with
  its three dicts; every method is proved against those definitions. `Schedule` is one scheduler iteration as a
  function of what each ready node meets (no agent, no budget, policy or approval decisions, errors, completion
  with a reflection), and `Iterations` says what it does outcome by outcome. `Runs` and `Outcomes` prove facts
  about whole runs for every oracle of such outcomes, `Pauses` about the state an approval pause saves, and
  `Scheduler` is the imperative loop that computes them. `Checkpoint` covers saving and restoring a DAG, `Resume`
  the reconciliation of task rows.
- **Codecs.** `Radix` and `Base58` prove base58btc a bijection; `CanonicalJson` proves that the canonical text
  determines the document, and `JsonReader` that it is JSON for it; `Hashing` lifts this to content addresses.
- **Gossip.** `Merkle` is the bucketed fingerprint, `Store` the append-only signed store, `Sync` its read side,
  `Gossip` one reconciliation round. `GossipTheorems` says what a round keeps with any peer, `HonestPeer` what
  it achieves with an honest one, and `Convergence` what a cluster reaches under any schedule of rounds.
- **Rate limiting.** `RateLimit` compares the pruned, expiring set with the full request log.

`Prelude` and `Ordering` hold shared facts on sequences and on sorting by code points.

Every class method is stated against a function of the old state; the lemmas are about that function. SHA-256,
Ed25519, DID resolution and UUID parsing are arbitrary functions (`Store.World`). What is assumed of them is
written as a precondition: digests have 32 bytes, a signature verifies under its own key, a printed UUID
parses to itself. No function from all texts to 32 bytes is injective, so collision-freeness is asked of given
texts only: the two that are compared, or those of the two summaries a round compares, and for a cluster those of
each pull in its schedule (`Convergence.RunFaithful`).

## Where the code departs from its documentation

- Validation trusts ids not to be redeclared: the dict keeps one node per id while the edges of both
  declarations stay. A self-cycle can pass (`Redeclaration.StrayEdgeHidesCycle`) and an acyclic workflow can be
  refused (`Redeclaration.StrayEdgeHidesLeaf`). `GraphTheorems.ValidateExact` says for every list when it is
  accepted: a rejection for a cycle is always right, and it errs nowhere if overridden declarations have no
  dependencies.
- A policy denial drops a task from its batch and leaves its node RUNNING. The loop then breaks with nothing
  ready and the workflow is reported COMPLETED (`Outcomes.PolicyDenialReportsCompleted`). A run that is not
  paused finishes every node exactly when there was no such denial (`Outcomes.RunCompletesIff`).
- An approval pause resets the node it stops at. What the gate has not yet reached, what needed no approval or
  had a recorded one, and what policy denied is saved as RUNNING, and no resumed run finishes it. If nothing was
  stuck before, a resumed run can finish the workflow exactly when every other node that started was denied by a
  human, or auto-approved at the gate, before the pause (`Pauses.PauseDichotomy`).
- A replan adds a node but no agent for it. The alternative is bound to fail at its first turn exactly when the
  agent table does not already have an entry for it (`Iterations.AlternativeFailsIff`).
- Resuming is documented as idempotent, also across workers. In one process the rows settle at once unless a
  step without a row is wanted with different first and last targets, and always with the second restore
  (`Resume.RowsSettleIff`, `Resume.ThirdRestoreIsNoOp`). A replanned node and its original share a step number,
  and then a repeated restore still reports an update (`Resume.ReplannedCheckpointKeepsUpdating`).
- The step number of an id without digits is called deterministic, but Python's string hash varies between
  processes: another worker can number it anew and create a second row, exactly when some id has no digit
  (`Resume.StepIsStableIff`, `Resume.CrossWorkerRestoreIff`).
- `put` signs with any keypair whatever author is declared (`Store.KeypairWriteGenuineIff`).
- Unsigned records are documented never to leave a node and a peer's records to be checked against their author.
  A record with a hash is served, signed or not, and an unsigned one is persisted on its hash alone, whatever
  author it names (`GossipTheorems.PersistedVerifiedIff`, `GossipTheorems.UnsignedClaimIsPersisted`).
- The rate limiter keys a request by its timestamp, so simultaneous requests count once
  (`RateLimit.MeetsFullLogIff`).

## Model

| member | source | states |
|---|---|---|
| Graph.Order | backend/app/orchestration/dag.py:39-41 | the node dict has one key per declared id, and no id twice |
| GraphTheorems.Mirror | backend/app/orchestration/dag.py:43-48 | each parent-to-child entry is mirrored by a child-to-parent entry, with its multiplicity, for any list of nodes |
| Redeclaration.ConsistentIff | backend/app/orchestration/dag.py:39-48 | the edges kept for an id are those of its last declaration exactly when no overridden declaration has dependencies; distinct ids are a special case |
| GraphTheorems.KahnRun | backend/app/orchestration/dag.py:68-90 | for any list of declarations the work-list loop terminates and keeps: every in-degree is the number of dependencies minus the parent entries done, each dequeued node had enough of them done before it, and the queue is exactly the open nodes at or below zero |
| GraphTheorems.LeftOverExact | backend/app/orchestration/dag.py:82-90 | for any list whose dependencies exist, a node the loop never reaches is on a cycle or downstream of one |
| GraphTheorems.CountReachesAllIff | backend/app/orchestration/dag.py:82-90 | for any list the count reaches all ids if and only if some order gives each id as many parent entries from earlier ids as its last declaration has dependencies |
| GraphTheorems.RemainingExact | backend/app/orchestration/dag.py:92-106 | where no overridden declaration has dependencies, the nodes the loop never reaches are exactly those on a cycle or downstream of one |
| GraphTheorems.CountDetectsCycles | backend/app/orchestration/dag.py:82-90 | there the visited count equals the node count if and only if there is no cycle, and the list reported as remaining is exactly what a cycle feeds |
| GraphTheorems.ValidateExact | backend/app/orchestration/dag.py:50-90 | for any list: the missing-dependency error is exact; validation accepts if and only if the list is non-empty, its dependencies exist, such an order exists and some node has no children; an acyclic list is accepted if and only if some node has no children, and otherwise gets the no-leaf error; where no overridden declaration has dependencies, acceptance means non-empty, dependencies existing and acyclic, and the no-leaf error is never reported |
| GraphTheorems.RejectionExact | backend/app/orchestration/dag.py:50-90 | for any list: a cycle rejection lists only nodes fed by a cycle and at least one, a no-root rejection means that every node is fed by a cycle; where no overridden declaration has dependencies, no fed node is missing from the list |
| Redeclaration.StrayEdgeHidesCycle | backend/app/orchestration/dag.py:39-48 | a list declaring an id twice, the second time depending on itself, is accepted although it has a cycle |
| Redeclaration.StrayEdgeHidesLeaf | backend/app/orchestration/dag.py:39-48 | a list declaring an id twice, the second time without the dependency, is refused with the no-leaf error although it is acyclic and its dependencies exist |
| GraphTheorems.TopologicalExact | backend/app/orchestration/dag.py:92-106 | on an acyclic graph where no overridden declaration has dependencies, the sort returns every node once, dependencies first |
| GraphTheorems.AddedNodeKeepsAcyclic | backend/app/orchestration/dag.py:177-184 | a new id whose dependencies exist keeps ids distinct, dependencies existing and the graph acyclic, so every earlier theorem survives any sequence of replans |
| Dag.Dag.constructor | backend/app/orchestration/dag.py:38-47 | the three dicts built in place are the ones the declaration list denotes |
| Dag.Dag.Check | backend/app/orchestration/dag.py:50-90 | the imperative validation returns the verdict whose exactness is proved above |
| Dag.Dag.TopologicalSort | backend/app/orchestration/dag.py:92-106 | returns the node objects of the proved order |
| Dag.Dag.GetReadyNodes | backend/app/orchestration/dag.py:108-123 | returns exactly the pending or todo nodes with all dependencies completed, in dict order |
| Statuses.ReadyExact | backend/app/orchestration/dag.py:108-123 | ready are exactly the pending or todo nodes with all dependencies completed, and they come in dict order |
| Dag.Dag.MarkRunning | backend/app/orchestration/dag.py:167-169 | changes one status; no output, error or other node changes, and an unknown id changes nothing |
| Dag.Dag.MarkPending | backend/app/orchestration/dag.py:171-175 | resets one node and drops its output; its error and every other node stay |
| Dag.Dag.MarkBlocked | backend/app/orchestration/dag.py:161-165 | blocks one node and sets its error to the reason or the default; its output and every other node stay |
| Dag.Dag.MarkCompleted | backend/app/orchestration/dag.py:125-130 | completes one node with its output, leaves its error and every other node, and returns exactly what is ready afterwards |
| Dag.Dag.MarkFailed | backend/app/orchestration/dag.py:132-159 | terminates; for arbitrary statuses the returned ids are, each once, exactly the nodes reachable from the failed one through pending, todo or blocked nodes; exactly these become skipped, with an error naming the failed node, whose own error is the given one; no output and no other error changes |
| Statuses.CascadeExact | backend/app/orchestration/dag.py:132-159 | skipped are exactly the nodes reached from the failed one by chains of children that are all pending, todo or blocked |
| Statuses.CascadeParent | backend/app/orchestration/dag.py:132-159 | every skipped node was waiting and hangs below the failed node or another skipped one |
| Statuses.CascadeLeast | backend/app/orchestration/dag.py:132-159 | no set closed under waiting children leaves a skipped node out: the cascade is the least such set |
| Statuses.AfterFailureCatches | backend/app/orchestration/dag.py:132-159 | no child of a failed or newly skipped node is left waiting |
| Statuses.FailureKeepsNoWaitingBelowLost | backend/app/orchestration/dag.py:132-159 | for arbitrary statuses, a failure preserves that no waiting node depends on a failed or skipped one |
| Dag.Dag.AddNode | backend/app/orchestration/dag.py:177-184 | appends one declaration, or reports a known id and changes nothing |
| Dag.Dag.IsComplete | backend/app/orchestration/dag.py:196-200 | true exactly when every node is completed, failed or skipped |
| Dag.Dag.Count | backend/app/orchestration/dag.py:202-218 | the number of nodes with the status |
| CriticalPath.DistanceBounds | backend/app/orchestration/dag.py:243-256 | after the relaxation loop no path into a node is longer than its recorded distance |
| CriticalPath.TrailEnds | backend/app/orchestration/dag.py:258-265 | a chain followed back from a furthest node to one without predecessor is a longest path |
| Dag.Dag.GetCriticalPath | backend/app/orchestration/dag.py:243-265 | returns a chain of real edges starting at a root, and no path of the graph is longer |
| Dag.Dag.ToDict | backend/app/orchestration/dag.py:267-285 | stores every node in dict order with its status, output, error and dependencies |
| Dag.SnapshotComplete | backend/app/orchestration/dag.py:267-285 | with distinct ids the stored records determine all declarations |
| Dag.FromDict | backend/app/orchestration/dag.py:287-305 | rebuilds a graph with the recorded declarations and statuses whose own snapshot is the input again |
| Schedule.IterateKeeps | backend/app/orchestration/scheduler.py:341-906 | every iteration, whatever its nodes meet, keeps: distinct ids, an acyclic closed graph, started nodes have completed dependencies, and a node is skipped exactly when a dependency failed or was skipped |
| Iterations.IterateExact | backend/app/orchestration/scheduler.py:352-906 | the status of every ready node after an iteration that is not paused, outcome by outcome: FAILED without agent or budget, on a denied approval and on any error; RUNNING on a policy denial; PENDING on a retry with low confidence and fewer than two retries used; COMPLETED otherwise |
| Iterations.RetriesExact | backend/app/orchestration/scheduler.py:1146-1185 | the retry count of a node rises by one exactly when it is sent back |
| Iterations.ReplansExact | backend/app/orchestration/scheduler.py:1187-1243 | an iteration adds only alternatives of nodes that asked for a replan, with their dependencies and PENDING; each is counted, at most three, and below that every request is met |
| Outcomes.IterateLeaves | backend/app/orchestration/scheduler.py:352-906 | every node that was not ready keeps its status or, if it waited, is skipped |
| Runs.ValidatedIsBoundary | backend/app/orchestration/scheduler.py:282-318 | a validated graph of unstarted nodes satisfies that invariant |
| Runs.RunStatuses | backend/app/orchestration/scheduler.py:318-906 | at every iteration boundary of every run a running, completed or failed node has only completed ancestors, and a node is skipped if and only if some ancestor failed |
| Runs.IterateSpends | backend/app/orchestration/scheduler.py:318-906 | every iteration that does not pause strictly lowers the remaining budget of runs, retries and replans |
| Runs.RunEnds | backend/app/orchestration/scheduler.py:317-341 | every run on n nodes stops within 3n + 9 iterations, and 3n + 10 never exceeds the runaway guard, the greater of 5n and 50 |
| Runs.WaitingHasStuckAncestor | backend/app/orchestration/scheduler.py:341-350 | when nothing is ready, a node waiting to start has an ancestor that is neither terminal nor able to start: running, blocked, assigned, retrying or awaiting approval |
| Runs.NothingReady | backend/app/orchestration/scheduler.py:341-350 | the loop breaks early only above such a stuck node, and every waiting node lies below one |
| Outcomes.StatusIsFinal | backend/app/orchestration/scheduler.py:318-906 | a node that is not pending, todo or blocked at an iteration boundary keeps its status for the rest of the run |
| Outcomes.GateExact | backend/app/orchestration/scheduler.py:426-640 | what the approval gate leaves every batch node with, and whether it pauses, for any mix of decisions |
| Outcomes.RunCompletesIff | backend/app/orchestration/scheduler.py:318-928 | a run that starts with no stuck node and is not paused ends with every node completed, failed or skipped if and only if policy denied none of the nodes it started |
| Outcomes.DenialBlocks | backend/app/orchestration/scheduler.py:1063-1075 | from a policy denial on its node stays running |
| Outcomes.PlainRunCompletes | backend/app/orchestration/scheduler.py:318-928 | in particular a run without policy denials and pending approvals finishes |
| Outcomes.CountTotal | backend/app/orchestration/scheduler.py:928-959 | if every node is terminal, completed, failed and skipped add up to the number of nodes |
| Outcomes.ReportHonest | backend/app/orchestration/scheduler.py:928-959 | the report is FAILED exactly when something failed and nothing completed; a COMPLETED, not partial report is honest if and only if the loop did not break early |
| Outcomes.ReportFields | backend/app/orchestration/scheduler.py:928-943 | FAILED, partial, failed_tasks and skipped_tasks in terms of the nodes that failed, completed and were skipped |
| Outcomes.PolicyDenialReportsCompleted | backend/app/orchestration/scheduler.py:1063-1075 | if policy denies every ready task, nothing completes, nothing is ready again, and the report is COMPLETED and not partial |
| Pauses.PausedStatuses | backend/app/orchestration/scheduler.py:426-640 | the status of every node of the batch in the state a pause saves |
| Pauses.SavedStuckIff | backend/app/orchestration/scheduler.py:520-640 | the saved state has no stuck node if and only if every other started node was denied by a human, or auto-approved at the gate, before the pause |
| Pauses.PauseStrands | backend/app/orchestration/scheduler.py:520-640 | any other started node is saved as running, a later one awaiting approval, one with a recorded approval and one denied by policy included, and no run from the saved state finishes it or the workflow |
| Pauses.PauseDichotomy | backend/app/orchestration/scheduler.py:520-640 | if every other started node was denied by a human, or auto-approved at the gate, before the pause, every resumed run without policy denials and pending approvals finishes the workflow; otherwise no resumed run does |
| Pauses.SingleNodePauseIsLossless | backend/app/orchestration/scheduler.py:520-560 | a batch of one is saved as it was before the iteration, with that node pending |
| Scheduler.WorkflowScheduler.RunBatch | backend/app/orchestration/scheduler.py:352-906 | the three phases on the DAG object, the gate taking escalated nodes last, compute the iteration function the invariants are proved of |
| Scheduler.WorkflowScheduler.RetryNode | backend/app/orchestration/scheduler.py:1146-1200 | the retry branch resets the node and raises its retry count only below the cap and on low confidence |
| Scheduler.WorkflowScheduler.ReplanNode | backend/app/orchestration/scheduler.py:1200-1243 | the replan branch adds one alternative with the same dependencies, at most three times per workflow |
| Scheduler.WorkflowScheduler.ReflectOnTask | backend/app/orchestration/scheduler.py:1087-1325 | only retry and replan touch the DAG |
| Scheduler.WorkflowScheduler.FinishNode | backend/app/orchestration/scheduler.py:678-906 | one node's Phase 3: failure cascade, or completion and reflection |
| Scheduler.WorkflowScheduler.ExecuteWorkflow | backend/app/orchestration/scheduler.py:317-350 | the loop on the DAG object terminates within 3n + 10 turns, its runaway branch is dead, its final state is that of the run function, and its report the one proved honest |
| Scheduler.WorkflowScheduler.AddAlternative | backend/app/intelligence/dynamic_replanner.py:13-57 | adds <id>_alt with the original's dependencies; a second replan of the same node is refused |
| Outcomes.AlternativeIsReady | backend/app/intelligence/dynamic_replanner.py:27-53 | the alternative of a completed node is ready at once |
| Iterations.AlternativeFailsIff | backend/app/intelligence/dynamic_replanner.py:27-53 | a ready alternative fails in the next iteration whatever happens if and only if the agent table, to which replanning adds nothing, has no entry for it |
| Checkpoint.FromDag | backend/app/orchestration/checkpoint.py:79-116 | the checkpoint holds the snapshot and its buckets |
| Checkpoint.BucketsPartition | backend/app/orchestration/checkpoint.py:79-116 | the three buckets together are the named node ids, each occurrence once |
| Checkpoint.BucketMembers | backend/app/orchestration/checkpoint.py:79-116 | completed and failed nodes are in their own buckets and all others in the pending one |
| Checkpoint.SaveAndRestore | backend/app/orchestration/checkpoint.py:79-165 | a DAG saved and restored has the same adjacency lists in the same order, hence the same topological order, statuses and ready list |
| Resume.TargetExact | backend/app/orchestration/resume.py:212-223 | with distinct ids the bucket map gives each node its status reduced to completed, failed or pending |
| Resume.TargetPriority | backend/app/orchestration/resume.py:212-223 | for an id in several buckets pending wins over failed and failed over completed |
| Resume.FirstRow | backend/app/orchestration/resume.py:130-150 | the row a step number is resolved to is the first one with it |
| Resume.AlternativeSharesStep | backend/app/orchestration/resume.py:226-240 | an id with digits and its alternative have one step number |
| Resume.NumberedStep | backend/app/orchestration/resume.py:226-240 | an id that ends in a number and has no other digit is numbered by it |
| Resume.StepByDigit | backend/app/orchestration/resume.py:226-240 | a further digit counts wherever it stands in the id, any other character does not |
| Resume.StepWithoutDigit | backend/app/orchestration/resume.py:226-240 | without a digit the step is between 1 and 2^31 - 1 and made from the hash |
| Resume.CreatedExact | backend/app/orchestration/resume.py:150-185 | the nodes reported as created are those whose step had no row, and each got one |
| Resume.OneRowPerNode | backend/app/orchestration/resume.py:150-185 | if no two nodes share a step, each has a first row of its own with its status |
| Resume.NumberedNodesGetOwnRows | backend/app/orchestration/resume.py:96-209 | with ids that differ in their number only, each node is restored to its own row |
| Resume.StepIsStableIff | backend/app/orchestration/resume.py:226-240 | all processes number an id alike if and only if it has a digit |
| Resume.NothingUpdatedIff | backend/app/orchestration/resume.py:96-209 | a second restore in one process creates nothing, and reports no update if and only if nodes that share a step number were saved with one status |
| Resume.RowsSettleIff | backend/app/orchestration/resume.py:96-209 | restoring twice leaves the rows as restoring once if and only if each step had a row already or its first and last targets agree |
| Resume.ThirdRestoreIsNoOp | backend/app/orchestration/resume.py:96-209 | a third restore never changes the rows |
| Resume.WorkersAgree | backend/app/orchestration/resume.py:226-240 | if every node id has a digit, any two processes want the same rows, so the three results above hold across workers |
| Resume.CrossWorkerRestoreIff | backend/app/orchestration/resume.py:96-209 | a restore after another process's creates no row, whatever the rows were, if and only if every node id has a digit |
| Resume.ReplannedCheckpointKeepsUpdating | backend/app/orchestration/resume.py:96-209 | after a replan of a completed node with an unfinished alternative, a repeated restore reports an updated row |
| Resume.WorkflowResumer.RestoreFrom | backend/app/orchestration/resume.py:96-209 | an invalid snapshot changes nothing; otherwise the workflow row holds the snapshot and its task rows are the ones the restore theorems are about |
| Base58.AlphabetMapIsInverse | backend/app/identity/_base58.py:8-11 | a character's digit is its index in the alphabet, and a character outside has none |
| Base58.DecodeEncode | backend/app/identity/_base58.py:14-53 | decoding undoes encoding on every byte string |
| Base58.EncodeDecode | backend/app/identity/_base58.py:14-53 | encoding undoes decoding on every text over the alphabet |
| Base58.EncodeInjective | backend/app/identity/_base58.py:14-31 | different byte strings have different texts |
| Base58.EncodedLength | backend/app/identity/_base58.py:14-31 | n bytes take at most ceil(3n/2) characters and at least one for each leading zero byte |
| Base58.EncodeValue | backend/app/identity/_base58.py:14-31 | the text denotes in base 58 the number the bytes denote in base 256, after one '1' for each leading zero byte |
| Base58.ByteLength | backend/app/identity/_base58.py:44-50 | (bit_length + 7) // 8 bytes are exactly enough for the decoded number |
| Radix.RecodeInverse | backend/app/identity/_base58.py:14-53 | changing the base and back is the identity on digit strings, leading zeros included |
| Base58.B58Encode | backend/app/identity/_base58.py:14-31 | the encoding loops compute the text of the bijection |
| Base58.B58Decode | backend/app/identity/_base58.py:34-53 | the decoding loops compute its inverse, and fail exactly on a character outside the alphabet |
| CanonicalJson.EscapedPrefix | backend/app/identity/canonicalize.py:95-118 | a quoted string ends at its first bare quotation mark: text and extent of the string are determined by what is written |
| CanonicalJson.ValuePrefix | backend/app/identity/canonicalize.py:43-118 | a value's text followed by anything that may follow it determines the value and where it ends |
| CanonicalJson.SameText | backend/app/identity/canonicalize.py:43-92 | equal documents have equal text whatever the order of dict entries |
| CanonicalJson.CanonicalExact | backend/app/identity/canonicalize.py:32-118 | two serialisable values have the same text if and only if they are equal up to entry order, list or tuple, and whole floats |
| JsonReader.ValueBack | backend/app/identity/canonicalize.py:43-118 | a JSON reader built from the grammar, given a value's text and what may follow it, reads the value's document and leaves exactly the rest |
| JsonReader.TextIsJson | backend/app/identity/canonicalize.py:32-118 | the whole canonical text is one JSON value, the document of what was serialised, with strictly ascending names in every object |
| Ordering.SortAscending | backend/app/identity/canonicalize.py:82 | sorting entries with different keys yields strictly ascending keys |
| CanonicalJson.EscapeString | backend/app/identity/canonicalize.py:95-118 | the character loop writes the quoted text |
| CanonicalJson.Emit | backend/app/identity/canonicalize.py:43-92 | appends exactly the value's text to the shared parts, or reports the error exactly on unserialisable values |
| CanonicalJson.Canonicalize | backend/app/identity/canonicalize.py:32-40 | the text to encode, or the error exactly on unserialisable values |
| Hashing.CloneWellFormed | backend/app/crdt/hashing.py:128-142 | the clone has distinct string keys at every depth, so the serialiser is exact on it |
| Hashing.CloneKeepsDocument | backend/app/crdt/hashing.py:128-142 | cloning a value the serialiser takes keeps its document |
| Hashing.CloneForeign | backend/app/crdt/hashing.py:128-142 | a tuple is cloned as a list, a foreign value and a foreign key as their text |
| Hashing.DocumentExact | backend/app/crdt/hashing.py:64-75 | which field each name of the hashed document holds, an absent author or agent as null, the parents in ascending order with repeats |
| Hashing.JsonableFine | backend/app/crdt/hashing.py:64-79 | serialising a body fails exactly if its confidence or a number surviving in its metadata is not finite |
| Hashing.SameFields | backend/app/crdt/hashing.py:64-75 | two documents with the same distinct keys are equal exactly when they agree field by field |
| Hashing.ParentsSame | backend/app/crdt/hashing.py:72 | sorted parent lists are equal exactly when the parents are equal as multisets |
| Hashing.SignableExact | backend/app/crdt/hashing.py:47-79 | two bodies have the same signed text if and only if they are equal field by field, parents in any order, metadata as documents |
| Hashing.ContentHashExact | backend/app/crdt/hashing.py:106-114 | two bodies have one address if and only if they are equal in that sense, unless SHA-256 collides on their two texts |
| Hashing.AddressExact | backend/app/crdt/hashing.py:106-114 | an address is z and the base58 text of the digest of the signed text, which reads back as the document |
| Hashing.ComputeContentHash | backend/app/crdt/hashing.py:106-114 | serialise, hash and encode; fails exactly on a number that is not finite |
| Merkle.HashBucket | backend/app/crdt/merkle.py:41-54 | an address made from a digest falls in the bucket of the digest's first byte |
| Merkle.BucketExact | backend/app/crdt/merkle.py:41-54 | a hash has bucket i exactly if it is z and the base58 text of bytes of which the first is i |
| Merkle.HexExact | backend/app/crdt/merkle.py:116 | a digest is written as two lower-case hexadecimal digits a byte, the higher one first |
| Merkle.SummaryExact | backend/app/crdt/merkle.py:104-121 | a bucket's digest is that of its hashes in ascending order, one a line; the root is that of the digests one after the other; each well-formed hash is counted once |
| Merkle.JoinInjective | backend/app/crdt/merkle.py:115 | lists of lines are determined by their newline join |
| Merkle.ConcatInjective | backend/app/crdt/merkle.py:118-119 | the 64-character digests can be read back from their concatenation, although empty buckets leave no mark |
| Merkle.DigestExact | backend/app/crdt/merkle.py:108-116 | two non-empty buckets have one digest only if they hold the same hashes, even across bucket indices |
| Merkle.RootExact | backend/app/crdt/merkle.py:91-121 | two roots are equal if and only if the sets of well-formed hashes are equal, unless SHA-256 collides on a text hashed for the summaries |
| Merkle.DifferingBelow | backend/app/crdt/merkle.py:81-88 | the differing indices, ascending, each once |
| Merkle.DivergesExact | backend/app/crdt/merkle.py:81-88 | an index is reported if and only if the two buckets differ as sets |
| Merkle.FillBuckets | backend/app/crdt/merkle.py:97-109 | every well-formed hash lands in its own bucket and is counted once; malformed ones are skipped |
| Merkle.SummariseHashes | backend/app/crdt/merkle.py:91-121 | the loops compute the summary of the set of hashes, so order and duplicates do not matter |
| Store.FetchByHash | backend/app/crdt/store.py:235-239 | finds a row with the hash if there is one |
| Store.CrdtStore.Put | backend/app/crdt/store.py:77-175 | the method adds the row, returns an existing one or rejects, as the function the theorems are about |
| Store.KeypairWriteExact | backend/app/crdt/store.py:179-233 | a write with a keypair is taken exactly if its body can be hashed and a supplied hash and signature are its own, and then stored with its address and its signature, or meets the row of that address; otherwise the error |
| Store.UnsignedWriteExact | backend/app/crdt/store.py:193-204 | a write with neither key nor signature: stored without address if it has neither author nor hash, else under its own address unless a supplied hash is another; otherwise the error |
| Store.ForeignWriteExact | backend/app/crdt/store.py:206-233 | a write signed elsewhere: stored with its address if the signature verifies, and which error it meets otherwise |
| Store.BodyInjective | backend/app/crdt/store.py:119-128 | the hashed body determines every field of the write, the memory type included |
| Store.PutAppends | backend/app/crdt/store.py:127-175 | a put adds one row at the end or none, and never touches an existing row |
| Store.ResolvedIsGenuine | backend/app/crdt/store.py:179-233 | an accepted row's address is its own, and its signature, if it has one, verifies under its author's key; a hash or signature the caller supplied is the one stored |
| Store.PutKeepsStore | backend/app/crdt/store.py:77-175 | a put keeps: every address is its row's own, every signature there is verifies, one row per address |
| Store.RunKeepsStore | backend/app/crdt/store.py:77-175 | over every run of local and foreign puts the invariant holds and every earlier row stands unchanged, superseded ones included |
| Store.PutTwice | backend/app/crdt/store.py:145-153 | a hashed write repeated changes nothing and returns a row of that address |
| Store.ExistingIsSame | backend/app/crdt/store.py:145-153 | the row that wins over a duplicate has the same body |
| Store.ForeignAcceptedExactly | backend/app/crdt/store.py:202-233 | helper: a signed record without a key is taken if and only if its hash is its own, its author resolves and the signature verifies |
| Store.OfferedAcceptedExactly | backend/app/crdt/store.py:179-233 | helper: a record offered with its address and without a key is taken if and only if it is genuine as it stands, and then stored with that address and signature |
| Store.KeypairWriteGenuineIff | backend/app/crdt/store.py:211-218 | a write with a keypair stores a genuine row if and only if the keypair is the declared author's, which put does not look at |
| Store.AuthorlessWriteIsRefusedByPeers | backend/app/crdt/store.py:211-224 | a signed write without author is stored, and any peer refuses it |
| Sync.ActiveExactly | backend/app/crdt/sync.py:137-157 | the advertised hashes are those of the rows that are ACTIVE, have a non-empty address and belong to the workflow asked for, if one is |
| Sync.ServedExactly | backend/app/crdt/sync.py:115-135 | a row asked for is served as often as it is stored unless tombstoned, and no other row is |
| Sync.SyncService.Summarise | backend/app/crdt/sync.py:61-76 | the summary of the advertised hashes |
| Sync.SyncService.BucketHashes | backend/app/crdt/sync.py:92-113 | the sorted hashes of one bucket, or the error on an index out of range |
| Sync.SyncService.FetchRecords | backend/app/crdt/sync.py:115-135 | the served rows, or the error above 100 hashes |
| Gossip.GossipService.PersistPeerRecord | backend/app/crdt/gossip.py:295-413 | one record changes store, workflows, lookup cache and counters as the function the theorems are about |
| Gossip.GossipService.ExtendKnown | backend/app/crdt/gossip.py:205-252 | two lookups add exactly the batch's stored hashes and existing workflows to the cache |
| Gossip.GossipService.PersistBatch | backend/app/crdt/gossip.py:164-172 | the record loop, ended by an exception |
| Gossip.GossipService.CollectMissingHashes | backend/app/crdt/gossip.py:186-203 | bucket by bucket the peer's hashes without ours, or a client error |
| Gossip.GossipService.ReconcileWith | backend/app/crdt/gossip.py:110-182 | the method's store, workflows and report are those of the round function, for any peer |
| GossipTheorems.PersistStep | backend/app/crdt/gossip.py:295-413 | a record adds at most one row, its hash becomes known exactly if stored, and exactly one counter moves unless the round aborts |
| GossipTheorems.PersistedExactly | backend/app/crdt/gossip.py:295-413 | a record is persisted if and only if the store lacks its hash, its ids and type can be read and the row it would become is genuine; duplicate and unknown-workflow counts move exactly on held hashes and on missing workflow ids |
| GossipTheorems.RowOfExact | backend/app/crdt/gossip.py:295-383 | when a record's ids and type can be read, and the row it stands for field by field |
| GossipTheorems.AbortedExactly | backend/app/crdt/gossip.py:348-413 | a round is aborted exactly by a new readable record whose body cannot be hashed or whose own address is signed in the name of a malformed DID |
| GossipTheorems.FetchesExact | backend/app/crdt/gossip.py:161-180 | a round without error had every batch answered and counts every record of the answers; a peer error is reported only if some answer failed, and a failed answer is never passed over |
| GossipTheorems.PersistedVerifiedIff | backend/app/crdt/gossip.py:295-413 | a row persisted from a peer is verified under its author's key if and only if the record carried a signature |
| GossipTheorems.UnsignedClaimIsPersisted | backend/app/crdt/gossip.py:295-413 | an unsigned record is persisted on its own hash alone, whatever author it names |
| GossipTheorems.KnownMatchesStore | backend/app/crdt/gossip.py:161-172 | at every record's turn, for every hash of the batch, the cache holds it if and only if the store does |
| GossipTheorems.RoundKeepsStore | backend/app/crdt/gossip.py:110-182 | whatever a peer answers: the store stays genuine, old rows stand unchanged, it grows by exactly records_persisted, new rows name existing workflows, and in an error-free round fetched = persisted + unknown + invalid + duplicate |
| GossipTheorems.ChunksExact | backend/app/crdt/gossip.py:416-418 | the batches end to end are the missing list, each holding 1 to 100 hashes |
| HonestPeer.GenuineIsAccepted | backend/app/crdt/gossip.py:348-413 | a genuine row sent over the wire is accepted with the same fields, address, signature and state |
| HonestPeer.WireExact | backend/app/crdt/gossip.py:372-384 | a memory type is read from its own value only, and only a state's own value as a state other than ACTIVE |
| HonestPeer.CollectExactly | backend/app/crdt/gossip.py:186-203 | over divergent buckets: exactly the peer's advertised hashes in them that we do not advertise, each once |
| HonestPeer.MissingExactly | backend/app/crdt/gossip.py:134-159 | comparison and collection find exactly the peer's advertised hashes that we do not advertise, each once; in-sync is reported if and only if there is no difference; the divergent count is that of the differing buckets |
| HonestPeer.HonestRoundIsUnion | backend/app/crdt/gossip.py:110-182 | after a round with an honest peer the store's hashes are the old ones united with the peer's advertised ones, every new row is one of the peer's, and nothing is counted invalid or unknown |
| HonestPeer.AddedRowsExact | backend/app/crdt/gossip.py:110-182 | every row an honest round adds is one the peer holds ACTIVE, in the workflow asked for, under an address the store did not hold |
| Convergence.PullIsUnion | backend/app/crdt/gossip.py:110-182 | between all-ACTIVE stores a pull is set union and keeps the puller fit to be pulled from |
| Convergence.ReachesStep | backend/app/crdt/gossip.py:110-182 | a time-respecting path over one more pull either does not use it or ends with it |
| Convergence.RunIsReachability | backend/app/crdt/gossip.py:110-182 | after any schedule of pulls a node holds exactly the hashes of the nodes with a time-respecting path to it |
| Convergence.RowsAreBrought | backend/app/crdt/gossip.py:110-182 | it keeps its own rows in place, and every row it holds is, signature included, a row of a node with such a path |
| Convergence.SchedulesAgree | backend/app/crdt/gossip.py:110-182 | two schedules that let every node reach every other end with the same hashes and the same Merkle summary at every node |
| Gossip.FetchSummary | backend/app/crdt/peer_client.py:117-137 | a summary of 256 buckets is passed on, any other is a client error |
| GossipTheorems.MultibaseExactly | backend/app/crdt/peer_client.py:139-159 | the client keeps exactly the bucket hashes that start with z |
| RateLimit.RateLimitMiddleware.Request | backend/app/middleware/rate_limit.py:62-89 | one request updates its own key as the pruned, expiring set does, with an expiry one window ahead, and no other key |
| RateLimit.KeptExactly | backend/app/middleware/rate_limit.py:68-78 | after pruning and expiry the set holds exactly the timestamps of the whole log inside the window |
| RateLimit.CountsDistinctTimes | backend/app/middleware/rate_limit.py:68-81 | on a clock that never runs backwards the decision counts the distinct timestamps of the full log |
| RateLimit.DecidesLikeFullLog | backend/app/middleware/rate_limit.py:68-81 | on strictly increasing times the decision is that of the full request log, refused requests included |
| RateLimit.WindowBound | backend/app/middleware/rate_limit.py:68-81 | of requests less than one window apart at most rate_limit_requests are admitted |
| RateLimit.HalfOpenWindowBound | backend/app/middleware/rate_limit.py:68-81 | at most rate_limit_requests requests are admitted in any half-open window |
| RateLimit.MeetsFullLogIff | backend/app/middleware/rate_limit.py:72-75 | the decision agrees with the full log for every limit if and only if no timestamp repeats inside the window |
| RateLimit.SimultaneousAllAdmitted | backend/app/middleware/rate_limit.py:72-75 | with a limit of two or more, any number of requests with one timestamp is admitted |

## Left out

- Dag.Dag.constructor: the validation that ends the source's constructor is the method Check, called by FromDict.
- Dag.Dag.GetCriticalPath: assumes a validated graph; on an empty one the source raises from `max`, on a cyclic one it can raise a KeyError.
- Dag.Dag.MarkCompleted: the readiness it returns is stated for graphs whose dependencies all exist, as validation ensures; the source raises a KeyError otherwise.
- Dag.Dag.ToDict: description, complexity, assigned agent and task id of a node are copied by the source and are not fields of the model.
- Scheduler.WorkflowScheduler.ExecuteWorkflow: what an LLM call, the budget, policy and approvals decide is the oracle's choice; task rows other than their retry count, events, prompts and sessions are not modelled, nor is the KeyError raised when policy denies a task whose capability also needs approval.
- Scheduler.WorkflowScheduler.ReflectOnTask: reflection `abort` only saves a checkpoint and sets a workflow status that finalisation overwrites; it leaves the DAG alone, as here.
- Resume.WorkflowResumer.RestoreFrom: rows hold step number and status only; the order in which the database returns them is taken to be stable, although the query has no ORDER BY; ids with digits outside ASCII are not modelled.
- Resume.CrossWorkerRestoreIff: assumes fewer nodes than there are hash values, 2^31 - 1.
- Hashing.ContentHashExact: parent hashes are strings; a peer record with other values in that list, on which sorting can raise, is not modelled, nor are integers of more than 4300 digits or deep nesting in metadata.
- CanonicalJson.Emit: the ValueError Python raises on the text of an integer of more than 4300 digits, and the RecursionError on deeply nested values.
- CanonicalJson.Canonicalize: those errors, and the failure of UTF-8 encoding on lone surrogates.
- JsonReader.ValueBack: the reader takes no insignificant whitespace and no escape of a surrogate; the canonical text has neither.
- CanonicalJson.CanonicalExact: a float that is not whole is the text `repr` gives for it, taken to determine the float; the text is not encoded.
- Sync.SyncService.Summarise: the summary cache and its 30 seconds of staleness; summaries are fresh.
- Store.CrdtStore.Put: racing writers, foreign-key failures, embeddings, versions and expiry times.
- Gossip.GossipService.ReconcileWith: the local node does not change under a round; the transaction around it is not modelled, so rows persisted before an error stay.
- HonestPeer.HonestRoundIsUnion: the peer serves one unchanging store, its ids are printed UUIDs and it declares no empty author, which the client would read as absent.
- Convergence.RunIsReachability: no writes happen during the schedule and no record is superseded.
- RateLimit.RateLimitMiddleware.Request: exempt paths, the choice of the client key and the answer when Redis fails; Redis and the server are taken to read one clock.
- Payload encoding of checkpoints (`to_payload`, `from_payload`), checkpoint lookup and supersede rules.
- Approval manager, policy registry, wallet, trust, semantic cache, agent selection and pricing: decisions of services outside these files.
- HTTP routes, authentication headers, streaming, JSON parsing of peer answers, migrations and the frontend.
